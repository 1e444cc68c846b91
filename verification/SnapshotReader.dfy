/** Reading a snapshot (snapshotRead in vm/Snapshot.c). */
module SnapshotReading {
  import opened Collections
  import opened ObjectModel
  import opened SnapshotFormats

  /** The dictionary of the reader: for each id the object that was made for it. */
  type ObjectTable = map<nat, Value>

  ghost predicate IsImage(table: ObjectTable, p: Addr) {
    exists id :: id in table && table[id] == Pointer(p)
  }

  /** Every id has an object of its own, and there are no other objects. */
  ghost predicate IsTable(table: ObjectTable, cells: Cells) {
    && (forall id :: id in table ==> table[id].Pointer? && table[id].target in cells)
    && (forall i, j :: i in table && j in table && table[i] == table[j] ==> i == j)
    && (forall p :: p in cells ==> IsImage(table, p))
  }

  /** The value that a field stands for. */
  function ValueOf(table: ObjectTable, f: Field): Value {
    match f
    case Plain(word) => Immediate(word)
    case Reference(id) => if id in table then table[id] else Immediate(0)
    case Inline(id, _, _, _, _, _, _) => if id in table then table[id] else Immediate(0)
  }

  /** `o` is the object that the record `f` tells of. */
  predicate IsRestored(table: ObjectTable, f: Field, o: Object)
    requires f.Inline?
  {
    && o.hash == HashOfWord(f.header) && o.tags == NO_TAGS && o.size == f.size && o.bytes == f.bytes
    && ValueOf(table, f.cls) == Pointer(o.cls)
    && |o.vars| == |f.vars| && forall i :: 0 <= i < |f.vars| ==> o.vars[i] == ValueOf(table, f.vars[i])
  }

  /** All records in `f` have been read. */
  ghost predicate IsLoaded(cells: Cells, table: ObjectTable, f: Field)
    decreases f
  {
    match f
    case Plain(_) => true
    case Reference(id) => id in table
    case Inline(id, _, _, _, cls, vars, _) =>
      && id in table && table[id].Pointer? && table[id].target in cells && IsRestored(table, f, cells[table[id].target])
      && IsLoaded(cells, table, cls) && forall i :: 0 <= i < |vars| ==> IsLoaded(cells, table, vars[i])
  }

  ghost predicate Extends(table: ObjectTable, table': ObjectTable) {
    forall id :: id in table ==> id in table' && table'[id] == table[id]
  }

  ghost predicate AreKept(cells: Cells, cells': Cells) {
    forall p :: p in cells ==> p in cells' && cells'[p] == cells[p]
  }

  /** The objects of these ids are the same. */
  ghost predicate AreSame(ids: set<nat>, table: ObjectTable, cells: Cells, cells': Cells) {
    forall id :: id in ids && id in table && table[id].Pointer? && table[id].target in cells ==>
      table[id].target in cells' && cells'[table[id].target] == cells[table[id].target]
  }

  lemma ValueIsStable(cells: Cells, table: ObjectTable, table': ObjectTable, f: Field)
    requires IsLoaded(cells, table, f) && Extends(table, table')
    ensures ValueOf(table', f) == ValueOf(table, f)
  {
  }

  lemma {:induction false} LoadedIsStable(cells: Cells, table: ObjectTable, cells': Cells, table': ObjectTable, f: Field)
    requires IsLoaded(cells, table, f) && Extends(table, table') && AreSame(Ids(f), table, cells, cells')
    ensures IsLoaded(cells', table', f)
    decreases f
  {
    hide Extends;
    if f.Inline? {
      IdsAreParts(f);
      LoadedIsStable(cells, table, cells', table', f.cls);
      ValueIsStable(cells, table, table', f.cls);
      forall i | 0 <= i < |f.vars|
        ensures IsLoaded(cells', table', f.vars[i]) && ValueOf(table', f.vars[i]) == ValueOf(table, f.vars[i])
      {
        IdsAreIncluded(f.vars, i);
        LoadedIsStable(cells, table, cells', table', f.vars[i]);
        ValueIsStable(cells, table, table', f.vars[i]);
      }
    }
    if f.Inline? || f.Reference? {
      ValueIsStable(cells, table, table', f);
      IdIsKept(table, table', f.id);
    }
  }

  lemma IdIsKept(table: ObjectTable, table': ObjectTable, id: nat)
    requires Extends(table, table') && id in table
    ensures id in table' && table'[id] == table[id]
  {
  }

  lemma IdsAreParts(f: Field)
    requires f.Inline?
    ensures f.id in Ids(f) && Ids(f.cls) <= Ids(f) && IdsOfAll(f.vars) <= Ids(f)
  {
  }

  lemma {:induction false} IdsAreIncluded(fields: seq<Field>, i: nat)
    requires i < |fields|
    ensures Ids(fields[i]) <= IdsOfAll(fields)
  {
    if i < |fields| - 1 {
      IdsAreIncluded(fields[..|fields| - 1], i);
    }
  }

  // ---------- Positions in the file ----------

  lemma {:induction false} FieldIsNext(tokens: seq<Token>, pos: nat, fields: seq<Field>, i: nat)
    requires IsNext(tokens, pos, FlattenAll(fields)) && i < |fields|
    ensures IsNext(tokens, pos + |FlattenAll(fields[..i])|, Flatten(fields[i]))
    ensures FlattenAll(fields[..i + 1]) == FlattenAll(fields[..i]) + Flatten(fields[i])
  {
    var init, last := fields[..|fields| - 1], fields[|fields| - 1];
    PartIsNext(tokens, pos, FlattenAll(init), Flatten(last));
    if i < |fields| - 1 {
      FieldIsNext(tokens, pos, init, i);
      assert init[..i] == fields[..i] && init[..i + 1] == fields[..i + 1];
    } else {
      assert fields[..i + 1] == fields;
    }
  }

  lemma {:induction false} FieldIsOrdered(begun: set<nat>, fields: seq<Field>, i: nat)
    requires AreOrdered(begun, fields) && i < |fields|
    ensures IsOrdered(begun + IdsOfAll(fields[..i]), fields[i])
    ensures IdsOfAll(fields[..i + 1]) == IdsOfAll(fields[..i]) + Ids(fields[i])
  {
    var init := fields[..|fields| - 1];
    if i < |fields| - 1 {
      FieldIsOrdered(begun, init, i);
      assert init[..i] == fields[..i] && init[..i + 1] == fields[..i + 1];
    } else {
      assert fields[..i + 1] == fields;
    }
  }

  // ---------- The object that is being read ----------

  lemma ObjectIsRegistered(table: ObjectTable, cells: Cells, id: nat, p: Addr, o: Object)
    requires IsTable(table, cells) && id !in table && p !in cells
    ensures IsTable(table[id := Pointer(p)], cells[p := o]) && Extends(table, table[id := Pointer(p)]) && AreKept(cells, cells[p := o])
  {
    var table', cells' := table[id := Pointer(p)], cells[p := o];
    forall q | q in cells'
      ensures IsImage(table', q)
    {
      if q == p {
        assert table'[id] == Pointer(q);
      } else {
        assert IsImage(table, q);
        var i :| i in table && table[i] == Pointer(q);
        assert table'[i] == Pointer(q);
      }
    }
  }

  /** Its header and variables can be filled in without a change to the objects of other ids. */
  lemma OwnObjectIsFilled(table: ObjectTable, cells: Cells, id: nat, p: Addr, o: Object, ids: set<nat>)
    requires IsTable(table, cells) && id in table && table[id] == Pointer(p) && p in cells && id !in ids
    ensures IsTable(table, cells[p := o]) && AreSame(ids, table, cells, cells[p := o])
  {
  }

  lemma KeptAreSame(ids: set<nat>, table: ObjectTable, cells: Cells, cells': Cells)
    requires AreKept(cells, cells')
    ensures AreSame(ids, table, cells, cells')
  {
  }

  /** The object at `p` holds the values of the first `i` fields, and these have been read. */
  ghost predicate AreVarsLoaded(cells: Cells, table: ObjectTable, p: Addr, fields: seq<Field>, i: nat) {
    && i <= |fields| && p in cells && |cells[p].vars| == i
    && forall k :: 0 <= k < i ==> IsLoaded(cells, table, fields[k]) && cells[p].vars[k] == ValueOf(table, fields[k])
  }

  function WithOneMore(cells: Cells, p: Addr, v: Value): Cells {
    if p in cells then cells[p := cells[p].(vars := cells[p].vars + [v])] else cells
  }

  /** One turn of the loop over the variables: a field is read, and its value stored. */
  lemma VarIsLoaded(cells: Cells, table: ObjectTable, cells': Cells, table': ObjectTable, id: nat, p: Addr, fields: seq<Field>, i: nat, v: Value)
    requires AreVarsLoaded(cells, table, p, fields, i) && i < |fields| && id in table && table[id] == Pointer(p) && id !in IdsOfAll(fields)
    requires IsTable(table', cells') && Extends(table, table') && AreKept(cells, cells')
    requires IsLoaded(cells', table', fields[i]) && v == ValueOf(table', fields[i])
    ensures IsTable(table', WithOneMore(cells', p, v)) && AreVarsLoaded(WithOneMore(cells', p, v), table', p, fields, i + 1)
  {
    hide IsTable, ValueOf, IsLoaded, AreSame;
    IdIsKept(table, table', id);
    var cells'' := WithOneMore(cells', p, v);
    assert p in cells' && cells'[p] == cells[p];
    forall k | 0 <= k < i + 1
      ensures IsLoaded(cells'', table', fields[k]) && cells''[p].vars[k] == ValueOf(table', fields[k])
    {
      if k < i {
        KeptAreSame(Ids(fields[k]), table, cells, cells');
        LoadedIsStable(cells, table, cells', table', fields[k]);
        ValueIsStable(cells, table, table', fields[k]);
      }
      IdsAreIncluded(fields, k);
      OwnObjectIsFilled(table', cells', id, p, cells''[p], Ids(fields[k]));
      LoadedIsStable(cells', table', cells'', table', fields[k]);
    }
    OwnObjectIsFilled(table', cells', id, p, cells''[p], {});
  }

  ghost predicate AreOthersKept(p: Addr, cells: Cells, cells': Cells) {
    forall q :: q in cells && q != p ==> q in cells' && cells'[q] == cells[q]
  }

  lemma FirstWord(f: Field)
    requires IsWellFormed(f)
    ensures Flatten(f) == [Flatten(f)[0]] + Flatten(f)[1..] && Flatten(f)[0].Word?
    ensures var word := Flatten(f)[0].word;
            match f
            case Inline(id, _, _, _, _, _, _) => word % 8 == OBJECT_INLINE && word / 8 == id
            case Reference(id) => word % 8 == OBJECT_POINTER && word / 8 == id && |Flatten(f)| == 1
            case Plain(w) => word == w && word % 8 != OBJECT_INLINE && word % 8 != OBJECT_POINTER && |Flatten(f)| == 1
  {
  }

  lemma AllIsNext(tokens: seq<Token>, fields: seq<Field>)
    requires tokens == FlattenAll(fields)
    ensures IsNext(tokens, 0, FlattenAll(fields))
  {
  }

  lemma FieldIsNotEmpty(f: Field)
    ensures 0 < |Flatten(f)|
  {
  }

  lemma {:induction false} PrefixIsShorter(fields: seq<Field>, i: nat)
    requires i <= |fields|
    ensures |FlattenAll(fields[..i])| <= |FlattenAll(fields)|
    ensures i < |fields| ==> |FlattenAll(fields[..i])| < |FlattenAll(fields)|
  {
    hide Flatten;
    if i < |fields| {
      var init, last := fields[..|fields| - 1], fields[|fields| - 1];
      PrefixIsShorter(init, i);
      assert init[..i] == fields[..i];
      FieldIsNotEmpty(last);
    } else {
      assert fields[..i] == fields;
    }
  }

  lemma SomeFieldIsLeft(fields: seq<Field>, i: nat, pos: nat)
    requires i <= |fields| && pos == |FlattenAll(fields[..i])| && pos < |FlattenAll(fields)|
    ensures i < |fields|
  {
    assert fields[..|fields|] == fields;
  }

  lemma AllAreRead(fields: seq<Field>, i: nat)
    requires i <= |fields| && |FlattenAll(fields)| <= |FlattenAll(fields[..i])|
    ensures i == |fields| && fields[..i] == fields
  {
    PrefixIsShorter(fields, i);
  }

  lemma AllStayLoaded(cells: Cells, table: ObjectTable, cells': Cells, table': ObjectTable, fields: seq<Field>, i: nat)
    requires i <= |fields| && Extends(table, table') && AreKept(cells, cells') && forall k :: 0 <= k < i ==> IsLoaded(cells, table, fields[k])
    ensures forall k :: 0 <= k < i ==> IsLoaded(cells', table', fields[k])
  {
    hide IsLoaded, AreKept, Extends, AreSame;
    forall k | 0 <= k < i
      ensures IsLoaded(cells', table', fields[k])
    {
      KeptAreSame(Ids(fields[k]), table, cells, cells');
      LoadedIsStable(cells, table, cells', table', fields[k]);
    }
  }

  lemma NoFields(fields: seq<Field>)
    ensures FlattenAll(fields[..0]) == [] && IdsOfAll(fields[..0]) == {}
  {
  }

  lemma ReferenceIsKnown(table: ObjectTable, cells: Cells, f: Field)
    requires f.Reference? && IsOrdered(table.Keys, f)
    ensures f.id in table && IsLoaded(cells, table, f) && ValueOf(table, f) == table[f.id] && Ids(f) == {}
  {
  }

  lemma PlainIsLoaded(table: ObjectTable, cells: Cells, f: Field)
    requires f.Plain?
    ensures IsLoaded(cells, table, f) && ValueOf(table, f) == Immediate(f.word) && Ids(f) == {}
  {
  }

  /** How many words there are before the class of a record. */
  function HeadSize(f: Field): nat
    requires f.Inline?
  {
    if f.shape.isIndexed then 4 else 3
  }

  function SizeWord(f: Field): seq<Token>
    requires f.Inline?
  {
    if f.shape.isIndexed then [Word(f.size)] else []
  }

  /** Where the parts of a record are, behind its first word. */
  lemma RecordParts(tokens: seq<Token>, pos: nat, f: Field)
    requires f.Inline? && IsNext(tokens, pos, Flatten(f)[1..])
    ensures var cls := pos + HeadSize(f) - 1;
            var vars := cls + |Flatten(f.cls)|;
            var bytes := vars + |FlattenAll(f.vars)|;
            && IsNext(tokens, pos, [Word(ShapeWord(f.shape))] + ([Word(f.header)] + SizeWord(f)))
            && IsNext(tokens, cls, Flatten(f.cls)) && IsNext(tokens, vars, FlattenAll(f.vars)) && IsNext(tokens, bytes, Bytes(f.bytes))
            && |Flatten(f)| == 1 + bytes - pos + |f.bytes|
  {
    hide Bytes, ShapeWord, IsNext, FlattenAll;
    var head := [Word(ShapeWord(f.shape))] + ([Word(f.header)] + SizeWord(f));
    var cls, vars, bytes := Flatten(f.cls), FlattenAll(f.vars), Bytes(f.bytes);
    assert Flatten(f) == Head(f.id, f.shape, f.header, f.size) + cls + vars + bytes;
    assert Head(f.id, f.shape, f.header, f.size) == [Word(f.id * 8 + OBJECT_INLINE)] + head;
    assert Flatten(f)[1..] == head + cls + vars + bytes;
    PartIsNext(tokens, pos, head + cls + vars, bytes);
    PartIsNext(tokens, pos, head + cls, vars);
    PartIsNext(tokens, pos, head, cls);
    assert |bytes| == |f.bytes| by { assert |Bytes(f.bytes)| == |f.bytes| by { BytesSize(f.bytes); } }
  }

  lemma BytesSize(bytes: seq<nat>)
    ensures |Bytes(bytes)| == |bytes|
  {
  }

  lemma ObjectIsKept(cells: Cells, cells': Cells, p: Addr)
    requires AreKept(cells, cells') && p in cells
    ensures p in cells' && cells'[p] == cells[p]
  {
  }

  lemma ExtendsItself(table: ObjectTable)
    ensures Extends(table, table)
  {
  }

  lemma OrderedParts(begun: set<nat>, f: Field)
    requires f.Inline? && IsOrdered(begun, f) && IsWellFormed(f)
    ensures f.id !in begun && IsOrdered(begun + {f.id}, f.cls) && AreOrdered(begun + {f.id} + Ids(f.cls), f.vars)
    ensures f.id !in Ids(f.cls) && f.id !in IdsOfAll(f.vars) && Ids(f) == {f.id} + Ids(f.cls) + IdsOfAll(f.vars)
    ensures FitsWord(f.shape) && (!f.shape.isIndexed ==> f.size == 0) && |f.vars| == VarsCount(f.shape, f.size)
    ensures |f.bytes| == (if f.shape.isIndexed && f.shape.isBytes then f.size else 0)
    ensures !f.cls.Plain? && IsWellFormed(f.cls) && forall i :: 0 <= i < |f.vars| ==> IsWellFormed(f.vars[i])
  {
    hide VarsCount, FitsWord;
    EachIdOnce(begun + {f.id}, f.cls);
    EachIdOnceInAll(begun + {f.id} + Ids(f.cls), f.vars);
  }

  lemma ClassIsObject(table: ObjectTable, cells: Cells, cls: Field)
    requires IsTable(table, cells) && IsLoaded(cells, table, cls) && !cls.Plain?
    ensures ValueOf(table, cls).Pointer?
  {
  }

  /** The finished object is the one that the record tells of. */
  lemma RecordIsLoaded(f: Field, id: nat, p: Addr, table2: ObjectTable, cells3: Cells, table: ObjectTable, cells4: Cells, cells: Cells)
    requires f.Inline? && id == f.id && id in table && table[id] == Pointer(p) && IsTable(table, cells4)
    requires id !in Ids(f.cls) && id !in IdsOfAll(f.vars)
    requires Extends(table2, table) && AreOthersKept(p, cells3, cells4) && p in cells3 && p in cells4
    requires IsLoaded(cells3, table2, f.cls) && IsTable(table2, cells3) && id in table2 && table2[id] == Pointer(p)
    requires ValueOf(table2, f.cls) == Pointer(cells3[p].cls)
    requires cells3[p].hash == HashOfWord(f.header) && cells3[p].tags == NO_TAGS && cells3[p].size == f.size && cells3[p].bytes == []
    requires AreVarsLoaded(cells4, table, p, f.vars, |f.vars|) && cells4[p] == cells3[p].(vars := cells4[p].vars)
    requires cells == cells4[p := cells4[p].(bytes := f.bytes)]
    ensures IsLoaded(cells, table, f) && ValueOf(table, f) == Pointer(p)
  {
    hide IsTable, AreSame, Ids, IdsOfAll;
    OthersAreSame(table2, cells3, cells4, id, p, Ids(f.cls));
    LoadedIsStable(cells3, table2, cells4, table, f.cls);
    ValueIsStable(cells3, table2, table, f.cls);
    OwnObjectIsFilled(table, cells4, id, p, cells[p], Ids(f.cls));
    LoadedIsStable(cells4, table, cells, table, f.cls);
    forall i | 0 <= i < |f.vars|
      ensures IsLoaded(cells, table, f.vars[i]) && cells[p].vars[i] == ValueOf(table, f.vars[i])
    {
      IdsAreIncluded(f.vars, i);
      OwnObjectIsFilled(table, cells4, id, p, cells[p], Ids(f.vars[i]));
      LoadedIsStable(cells4, table, cells, table, f.vars[i]);
    }
  }

  lemma NoBytes(cells: Cells, p: Addr, f: Field)
    requires f.Inline? && p in cells && cells[p].bytes == [] && |f.bytes| == (if f.shape.isIndexed && f.shape.isBytes then f.size else 0)
    ensures !(f.shape.isIndexed && f.shape.isBytes) ==> cells[p := cells[p].(bytes := f.bytes)] == cells
  {
  }

  lemma OthersAreSame(table: ObjectTable, cells: Cells, cells': Cells, id: nat, p: Addr, ids: set<nat>)
    requires IsTable(table, cells) && id in table && table[id] == Pointer(p) && id !in ids && AreOthersKept(p, cells, cells')
    ensures AreSame(ids, table, cells, cells')
  {
  }

  /** What reading a record does to the ids and objects that were there before. */
  lemma RecordIsStep(table0: ObjectTable, cells0: Cells, table1: ObjectTable, cells1: Cells, table2: ObjectTable, cells2: Cells,
                     cells3: Cells, table4: ObjectTable, cells4: Cells, cells: Cells, p: Addr, id: nat)
    requires Extends(table0, table1) && Extends(table1, table2) && Extends(table2, table4)
    requires p !in cells0 && AreKept(cells0, cells1) && AreKept(cells1, cells2) && p in cells2 && p in cells3 && p in cells
    requires cells3 == cells2[p := cells3[p]] && AreOthersKept(p, cells3, cells4) && p in cells4 && cells == cells4[p := cells[p]]
    ensures Extends(table0, table4) && AreKept(cells0, cells)
  {
  }

  /** `allocate` stands for the allocator of the heap; it hands out memory that holds no object yet. */
  ghost predicate IsAllocator(allocate: (Cells, nat) -> Addr) {
    forall cells, size :: allocate(cells, size) !in cells
  }

  class SnapshotReader {
    const tokens: seq<Token>
    const allocate: (Cells, nat) -> Addr
    /** What the payload of a new object happens to hold. */
    const memory: Addr -> seq<nat>
    var pos: nat
    var table: ObjectTable
    var cells: Cells

    ghost predicate Valid()
      reads this
    {
      pos <= |tokens| && IsTable(table, cells) && IsAllocator(allocate)
    }

    /** The field `f` comes next. */
    ghost predicate IsAt(f: Field)
      reads this
    {
      Valid() && IsNext(tokens, pos, Flatten(f)) && IsWellFormed(f) && IsOrdered(table.Keys, f)
    }

    constructor (tokens: seq<Token>, allocate: (Cells, nat) -> Addr, memory: Addr -> seq<nat>)
      requires IsAllocator(allocate)
      ensures Valid() && this.tokens == tokens && pos == 0 && table == map[] && cells == map[]
    {
      this.tokens := tokens;
      this.allocate := allocate;
      this.memory := memory;
      pos := 0;
      table := map[];
      cells := map[];
    }

    method ReadInt64(ghost word: nat, ghost rest: seq<Token>) returns (w: nat)
      requires IsNext(tokens, pos, [Word(word)] + rest)
      modifies this`pos
      ensures w == word && pos == old(pos) + 1 && IsNext(tokens, pos, rest)
    {
      ItemIsNext(tokens, pos, Word(word), rest);
      w := tokens[pos].word;
      pos := pos + 1;
    }

    method ReadBytes(size: nat, ghost bytes: seq<nat>) returns (read: seq<nat>)
      requires IsNext(tokens, pos, Bytes(bytes)) && size == |bytes|
      modifies this`pos
      ensures read == bytes && pos == old(pos) + |bytes|
    {
      read := [];
      ghost var start := pos;
      while |read| < size
        invariant |read| <= size && read == bytes[..|read|] && pos == start + |read|
      {
        assert tokens[pos] == tokens[start..start + |Bytes(bytes)|][|read|];
        read := read + [tokens[pos].byte];
        pos := pos + 1;
      }
    }

    /** readField. */
    method ReadField(ghost f: Field) returns (v: Value)
      requires IsAt(f)
      modifies this
      ensures Valid() && pos == old(pos) + |Flatten(f)| && table.Keys == old(table.Keys) + Ids(f)
      ensures Extends(old(table), table) && AreKept(old(cells), cells)
      ensures IsLoaded(cells, table, f) && v == ValueOf(table, f)
      decreases f, 2
    {
      hide Flatten, IsTable, IsLoaded, IsAllocator, IsOrdered, IsWellFormed, Ids;
      FirstWord(f);
      var field := ReadInt64(Flatten(f)[0].word, Flatten(f)[1..]);
      if field % 8 == OBJECT_INLINE {
        v := ReadObject(field, f);
      } else if field % 8 == OBJECT_POINTER {
        ReferenceIsKnown(table, cells, f);
        v := table[field / 8];
      } else {
        PlainIsLoaded(table, cells, f);
        v := Immediate(field);
      }
    }

    method ReadHead(ghost f: Field) returns (shape: InstanceShape, header: nat, size: nat)
      requires f.Inline? && FitsWord(f.shape) && (!f.shape.isIndexed ==> f.size == 0)
      requires IsNext(tokens, pos, [Word(ShapeWord(f.shape))] + ([Word(f.header)] + SizeWord(f)))
      modifies this`pos
      ensures shape == f.shape && header == f.header && size == f.size && pos == old(pos) + HeadSize(f) - 1
    {
      hide ShapeWord, IsNext, FitsWord;
      ShapeRoundTrip(f.shape);
      var word := ReadInt64(ShapeWord(f.shape), [Word(f.header)] + SizeWord(f));
      shape := ShapeOfWord(word);
      header := ReadInt64(f.header, SizeWord(f));
      size := 0;
      if shape.isIndexed {
        assert SizeWord(f) == [Word(f.size)] + [];
        size := ReadInt64(f.size, []);
      }
    }

    /** The loop over the variables in readObject. */
    method ReadVars(p: Addr, id: nat, size: nat, ghost f: Field)
      requires Valid() && f.Inline? && size == |f.vars| && id in table && table[id] == Pointer(p) && p in cells && cells[p].vars == []
      requires IsNext(tokens, pos, FlattenAll(f.vars)) && AreOrdered(table.Keys, f.vars) && id !in IdsOfAll(f.vars)
      requires forall i :: 0 <= i < |f.vars| ==> IsWellFormed(f.vars[i])
      modifies this
      ensures Valid() && pos == old(pos) + |FlattenAll(f.vars)| && table.Keys == old(table.Keys) + IdsOfAll(f.vars)
      ensures Extends(old(table), table) && AreOthersKept(p, old(cells), cells) && p in cells
      ensures AreVarsLoaded(cells, table, p, f.vars, |f.vars|) && cells[p] == old(cells)[p].(vars := cells[p].vars)
      decreases f, 0
    {
      hide Flatten, FlattenAll, IsTable, IsLoaded, ValueOf, IsAllocator, IsOrdered, AreOrdered, IsWellFormed, Ids, IdsOfAll, IsNext;
      ghost var table0, cells0, pos0 := table, cells, pos;
      NoFields(f.vars);
      var i := 0;
      while i < size
        invariant Valid() && i <= size && pos == pos0 + |FlattenAll(f.vars[..i])| && table.Keys == table0.Keys + IdsOfAll(f.vars[..i])
        invariant Extends(table0, table) && AreOthersKept(p, cells0, cells) && p in cells
        invariant AreVarsLoaded(cells, table, p, f.vars, i) && cells[p] == cells0[p].(vars := cells[p].vars)
      {
        ghost var table', cells' := table, cells;
        FieldIsNext(tokens, pos0, f.vars, i);
        FieldIsOrdered(table0.Keys, f.vars, i);
        IdIsKept(table0, table, id);
        var v := ReadField(f.vars[i]);
        VarIsLoaded(cells', table', cells, table, id, p, f.vars, i, v);
        cells := WithOneMore(cells, p, v);
        i := i + 1;
      }
      assert f.vars[..i] == f.vars;
    }

    method Allocate(shape: InstanceShape, size: nat) returns (p: Addr)
      requires IsAllocator(allocate)
      ensures p !in cells
    {
      p := allocate(cells, InstanceSize(shape, size));
    }

    /** The first part of readObject: the object gets its memory and its id before any of its fields is read. */
    method BeginObject(field: nat, ghost f: Field) returns (id: nat, shape: InstanceShape, size: nat, p: Addr)
      requires Valid() && f.Inline? && field == f.id * 8 + OBJECT_INLINE && f.id !in table
      requires FitsWord(f.shape) && (!f.shape.isIndexed ==> f.size == 0)
      requires IsNext(tokens, pos, [Word(ShapeWord(f.shape))] + ([Word(f.header)] + SizeWord(f))) && pos + HeadSize(f) - 1 <= |tokens|
      modifies this
      ensures Valid() && id == f.id && shape == f.shape && size == f.size && pos == old(pos) + HeadSize(f) - 1
      ensures p !in old(cells) && table == old(table)[id := Pointer(p)] && p in cells
      ensures cells[p].hash == HashOfWord(f.header) && cells[p].tags == NO_TAGS && cells[p].size == f.size && cells[p].vars == [] && cells[p].bytes == []
      ensures Extends(old(table), table) && AreKept(old(cells), cells)
    {
      hide IsTable, IsNext, ShapeWord, HashOfWord, Extends, AreKept, FitsWord;
      assert field % 8 == OBJECT_INLINE;
      var header;
      shape, header, size := ReadHead(f);
      id := field / 8;
      p := Allocate(shape, size);
      var o := Object(0, HashOfWord(header), NO_TAGS, size, memory(p), [], []);
      ObjectIsRegistered(table, cells, id, p, o);
      table := table[id := Pointer(p)];
      cells := cells[p := o];
    }

    /** readObject, with the first word of the record already read. */
    method ReadObject(field: nat, ghost f: Field) returns (v: Value)
      requires Valid() && f.Inline? && field == f.id * 8 + OBJECT_INLINE && IsWellFormed(f) && IsOrdered(table.Keys, f)
      requires IsNext(tokens, pos, Flatten(f)[1..])
      modifies this
      ensures Valid() && pos == old(pos) + |Flatten(f)| - 1 && table.Keys == old(table.Keys) + Ids(f)
      ensures Extends(old(table), table) && AreKept(old(cells), cells)
      ensures IsLoaded(cells, table, f) && v == ValueOf(table, f)
      decreases f, 1
    {
      hide Flatten, FlattenAll, IsTable, IsLoaded, ValueOf, IsAllocator, IsOrdered, AreOrdered, IsWellFormed, Ids, IdsOfAll, IsNext, AreVarsLoaded, Bytes, AreKept, Extends, AreOthersKept, HashOfWord;
      ghost var table0, cells0, pos0 := table, cells, pos;
      RecordParts(tokens, pos, f);
      OrderedParts(table.Keys, f);
      PartFits(tokens, pos + HeadSize(f) - 1, Flatten(f.cls));
      var id, shape, size, p := BeginObject(field, f);
      ghost var table1, cells1 := table, cells;
      assert table.Keys == table0.Keys + {f.id};
      var cls := ReadField(f.cls);
      ghost var table2, cells2 := table, cells;
      ClassIsObject(table, cells, f.cls);
      ObjectIsKept(cells1, cells2, p);
      ExtendsItself(table);
      IdIsKept(table1, table2, id);
      OwnObjectIsFilled(table, cells, id, p, cells[p].(cls := cls.target), Ids(f.cls));
      LoadedIsStable(cells, table, cells[p := cells[p].(cls := cls.target)], table, f.cls);
      cells := cells[p := cells[p].(cls := cls.target)];
      ghost var cells3 := cells;
      ReadVars(p, id, VarsCount(shape, size), f);
      ghost var table4, cells4 := table, cells;
      IdIsKept(table2, table4, id);
      PartFits(tokens, pos, Bytes(f.bytes));
      BytesSize(f.bytes);
      if shape.isIndexed && shape.isBytes {
        var bytes := ReadBytes(size, f.bytes);
        cells := cells[p := cells[p].(bytes := bytes)];
      }
      v := Pointer(p);
      NoBytes(cells4, p, f);
      RecordIsLoaded(f, id, p, table2, cells3, table4, cells4, cells);
      OwnObjectIsFilled(table, cells4, id, p, cells[p], {});
      RecordIsStep(table0, cells0, table1, cells1, table2, cells2, cells3, table4, cells4, cells, p, id);
    }

    /** snapshotRead without the handles: reads records up to the end of the file. */
    method Read(ghost fields: seq<Field>)
      requires Valid() && pos == 0 && table == map[] && tokens == FlattenAll(fields) && AreOrdered({}, fields)
      requires forall k :: 0 <= k < |fields| ==> fields[k].Inline? && IsWellFormed(fields[k])
      modifies this
      ensures Valid() && table.Keys == IdsOfAll(fields) && forall k :: 0 <= k < |fields| ==> IsLoaded(cells, table, fields[k])
    {
      hide Flatten, FlattenAll, IsTable, IsLoaded, IsAllocator, IsOrdered, AreOrdered, IsWellFormed, Ids, IdsOfAll, IsNext, AreKept, Extends;
      ghost var i := 0;
      NoFields(fields);
      AllIsNext(tokens, fields);
      while pos < |tokens|
        invariant Valid() && i <= |fields| && pos == |FlattenAll(fields[..i])| && table.Keys == IdsOfAll(fields[..i])
        invariant forall k :: 0 <= k < i ==> IsLoaded(cells, table, fields[k])
        decreases |fields| - i
      {
        ghost var table', cells' := table, cells;
        SomeFieldIsLeft(fields, i, pos);
        ghost var f := fields[i];
        FieldIsNext(tokens, 0, fields, i);
        FieldIsOrdered({}, fields, i);
        assert {} + IdsOfAll(fields[..i]) == table.Keys;
        FirstWord(f);
        var field := ReadInt64(Flatten(f)[0].word, Flatten(f)[1..]);
        var _ := ReadObject(field, f);
        AllStayLoaded(cells', table', cells, table, fields, i);
        i := i + 1;
      }
      AllAreRead(fields, i);
    }

    /** createBuiltinObjectsHandles. */
    method CreateBuiltinObjectsHandles(count: nat) returns (handles: seq<Value>)
      requires forall i :: 0 <= i < count ==> i in table
      ensures |handles| == count && forall i :: 0 <= i < count ==> handles[i] == table[i]
    {
      handles := [];
      while |handles| < count
        invariant |handles| <= count && forall i :: 0 <= i < |handles| ==> handles[i] == table[i]
      {
        handles := handles + [table[|handles|]];
      }
    }
  }
}

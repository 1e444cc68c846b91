/** Writing a snapshot (snapshotWrite in vm/Snapshot.c): the object graph, depth first. */
module SnapshotWriting {
  import opened Collections
  import opened ObjectModel
  import opened Heaps
  import opened Reachability
  import opened SnapshotFormats

  type IdTable = map<Addr, nat>

  /** The ids are the numbers below the size of the table (its tally), each given once. */
  ghost predicate AreIds(ids: IdTable) {
    && (forall a :: a in ids ==> ids[a] < |ids|)
    && (forall a, b :: a in ids && b in ids && ids[a] == ids[b] ==> a == b)
  }

  ghost predicate IdsGrow(ids: IdTable, ids': IdTable) {
    forall a :: a in ids ==> a in ids' && ids'[a] == ids[a]
  }

  ghost function IdsOf(ids: IdTable, objects: set<Addr>): set<nat> {
    set a | a in objects && a in ids :: ids[a]
  }

  function WordOf(v: Value): nat
    requires !v.Pointer?
  {
    if v.Shape? then ShapeWord(v.shape) else v.word
  }

  /** What holds of every object in memory, because of the widths of its parts. */
  ghost predicate IsRecordOk(cells: Cells, o: Object) {
    && IsObjectOk(cells, o) && o.hash < 0x1_0000_0000 && FitsWord(ShapeOf(cells[o.cls]))
    && (!ShapeOf(cells[o.cls]).isIndexed ==> o.size == 0)
    && |o.bytes| == (if ShapeOf(cells[o.cls]).isIndexed && ShapeOf(cells[o.cls]).isBytes then o.size else 0)
    && (forall i :: 0 <= i < |o.vars| && o.vars[i].Immediate? ==> !IsPointerWord(o.vars[i].word))
  }

  ghost predicate AreRecordsOk(cells: Cells) {
    forall a :: a in cells ==> IsRecordOk(cells, cells[a])
  }

  /** The field `f` tells of the value `v`: of a record, everything but tags and payload. */
  ghost predicate Describes(cells: Cells, ids: IdTable, f: Field, v: Value)
    decreases f
  {
    match f
    case Plain(word) => !v.Pointer? && WordOf(v) == word
    case Reference(id) => v.Pointer? && v.target in ids && ids[v.target] == id
    case Inline(id, shape, header, size, cls, vars, bytes) =>
      && v.Pointer? && v.target in ids && ids[v.target] == id && v.target in cells
      && cells[v.target].cls in cells && IsClass(cells[cells[v.target].cls]) && ShapeOf(cells[cells[v.target].cls]) == shape
      && HashOfWord(header) == cells[v.target].hash && size == cells[v.target].size && bytes == cells[v.target].bytes
      && Describes(cells, ids, cls, Pointer(cells[v.target].cls))
      && |vars| == |cells[v.target].vars|
      && forall i :: 0 <= i < |vars| ==> Describes(cells, ids, vars[i], cells[v.target].vars[i])
  }

  lemma {:induction false} DescriptionIsStable(cells: Cells, ids: IdTable, ids': IdTable, f: Field, v: Value)
    requires Describes(cells, ids, f, v) && IdsGrow(ids, ids')
    ensures Describes(cells, ids', f, v)
    decreases f
  {
    if f.Inline? {
      DescriptionIsStable(cells, ids, ids', f.cls, Pointer(cells[v.target].cls));
      forall i | 0 <= i < |f.vars|
        ensures Describes(cells, ids', f.vars[i], cells[v.target].vars[i])
      {
        DescriptionIsStable(cells, ids, ids', f.vars[i], cells[v.target].vars[i]);
      }
    }
  }

  /** The state of the writer, and what it writes from; `start` holds the roots. */
  datatype Progress = Progress(ids: IdTable, written: set<Addr>)

  ghost predicate IsProgressOk(cells: Cells, p: Progress) {
    AreIds(p.ids) && p.written <= p.ids.Keys && p.written <= cells.Keys
  }

  ghost predicate AreFollowed(cells: Cells, p: Progress, p': Progress) {
    forall x, b {:trigger HasEdge(cells[x], b)} :: x in p'.written && x !in p.written && x in cells && HasEdge(cells[x], b) ==> b in p'.written
  }

  /** What writing one or more fields does to the state. */
  ghost predicate IsStep(cells: Cells, start: set<Addr>, p: Progress, p': Progress) {
    && IsProgressOk(cells, p) && IsProgressOk(cells, p') && IdsGrow(p.ids, p'.ids) && p.written <= p'.written
    && AreFollowed(cells, p, p')
    && (forall x :: x in p'.written ==> x in p.written || x in ReachableSet(cells, start))
  }

  ghost predicate IsWritten(cells: Cells, start: set<Addr>, p: Progress, p': Progress, f: Field, v: Value) {
    && IsStep(cells, start, p, p')
    && Describes(cells, p'.ids, f, v) && IsWellFormed(f) && IsOrdered(IdsOf(p.ids, p.written), f)
    && IdsOf(p'.ids, p'.written) == IdsOf(p.ids, p.written) + Ids(f)
    && (v.Pointer? ==> v.target in p'.written)
  }

  ghost predicate AreWritten(cells: Cells, start: set<Addr>, p: Progress, p': Progress, fields: seq<Field>, values: seq<Value>) {
    && IsStep(cells, start, p, p') && |fields| == |values|
    && (forall i :: 0 <= i < |fields| ==> Describes(cells, p'.ids, fields[i], values[i]) && IsWellFormed(fields[i]))
    && AreOrdered(IdsOf(p.ids, p.written), fields)
    && IdsOf(p'.ids, p'.written) == IdsOf(p.ids, p.written) + IdsOfAll(fields)
    && (forall i :: 0 <= i < |values| && values[i].Pointer? ==> values[i].target in p'.written)
  }

  lemma NothingIsWritten(cells: Cells, start: set<Addr>, p: Progress)
    requires IsProgressOk(cells, p)
    ensures AreWritten(cells, start, p, p, [], []) && IsStep(cells, start, p, p)
  {
  }

  lemma StepsCompose(cells: Cells, start: set<Addr>, p: Progress, p': Progress, p'': Progress)
    requires IsStep(cells, start, p, p') && IsStep(cells, start, p', p'')
    ensures IsStep(cells, start, p, p'')
  {
    hide ReachableSet, HasEdge, AreIds;
  }

  /** One more field. */
  lemma OneMoreIsWritten(cells: Cells, start: set<Addr>, p: Progress, p': Progress, p'': Progress, fields: seq<Field>, values: seq<Value>, f: Field, v: Value)
    requires AreWritten(cells, start, p, p', fields, values) && IsWritten(cells, start, p', p'', f, v)
    ensures AreWritten(cells, start, p, p'', fields + [f], values + [v])
    ensures FlattenAll(fields + [f]) == FlattenAll(fields) + Flatten(f)
  {
    hide Describes, IsWellFormed, IsOrdered, ReachableSet, AreIds, AreFollowed, Flatten, Ids;
    StepsCompose(cells, start, p, p', p'');
    var all := fields + [f];
    assert all[..|all| - 1] == fields;
    forall i | 0 <= i < |fields|
      ensures Describes(cells, p''.ids, all[i], values[i])
    {
      DescriptionIsStable(cells, p'.ids, p''.ids, fields[i], values[i]);
    }
  }

  /** registerObject, with the flag SS_ASSOC_WRITTEN. */
  function Register(p: Progress, a: Addr): Progress {
    Progress(if a in p.ids then p.ids else p.ids[a := |p.ids|], p.written + {a})
  }

  lemma RegisterIsOk(cells: Cells, p: Progress, a: Addr)
    requires IsProgressOk(cells, p) && a in cells && a !in p.written
    ensures IsProgressOk(cells, Register(p, a)) && IdsGrow(p.ids, Register(p, a).ids)
    ensures var id := Register(p, a).ids[a];
            id !in IdsOf(p.ids, p.written) && IdsOf(Register(p, a).ids, p.written + {a}) == IdsOf(p.ids, p.written) + {id}
  {
    var p' := Register(p, a);
    forall x | x in p.written
      ensures p'.ids[x] == p.ids[x] && p'.ids[x] != p'.ids[a]
    {
    }
    forall n | n in IdsOf(p.ids, p.written) + {p'.ids[a]}
      ensures n in IdsOf(p'.ids, p'.written)
    {
      if n != p'.ids[a] {
        var x :| x in p.written && x in p.ids && p.ids[x] == n;
        assert p'.ids[x] == n;
      }
    }
  }

  /** The record of the object `a` of class `shape`, with the fields that were written for its class and variables. */
  function RecordOf(id: nat, o: Object, shape: InstanceShape, cls: Field, vars: seq<Field>): Field {
    Inline(id, shape, HeaderWord(o, shape), o.size, cls, vars, o.bytes)
  }

  lemma ClassIsDescribed(cells: Cells, start: set<Addr>, p: Progress, p': Progress, f: Field, v: Value)
    requires IsWritten(cells, start, p, p', f, v) && v.Pointer?
    ensures !f.Plain?
  {
  }

  lemma RecordIsDescribed(cells: Cells, ids: IdTable, a: Addr, cls: Field, vars: seq<Field>)
    requires a in cells && a in ids && IsRecordOk(cells, cells[a]) && Describes(cells, ids, cls, Pointer(cells[a].cls))
    requires |vars| == |cells[a].vars| && forall i :: 0 <= i < |vars| ==> Describes(cells, ids, vars[i], cells[a].vars[i])
    ensures Describes(cells, ids, RecordOf(ids[a], cells[a], ShapeOf(cells[cells[a].cls]), cls, vars), Pointer(a))
  {
    hide IsClass, ShapeOf, HeaderWord, VarsCount, FitsWord, HashOfWord;
    HashRoundTrip(cells[a], ShapeOf(cells[cells[a].cls]));
  }

  lemma RecordIsWellFormed(cells: Cells, a: Addr, id: nat, cls: Field, vars: seq<Field>)
    requires a in cells && IsRecordOk(cells, cells[a]) && !cls.Plain? && IsWellFormed(cls)
    requires |vars| == |cells[a].vars| && forall i :: 0 <= i < |vars| ==> IsWellFormed(vars[i])
    ensures IsWellFormed(RecordOf(id, cells[a], ShapeOf(cells[cells[a].cls]), cls, vars))
  {
    hide IsClass, ShapeOf, HeaderWord, VarsCount, FitsWord;
  }

  lemma RecordIsOrdered(begun: set<nat>, id: nat, o: Object, shape: InstanceShape, cls: Field, vars: seq<Field>)
    requires id !in begun && IsOrdered(begun + {id}, cls) && AreOrdered(begun + {id} + Ids(cls), vars)
    ensures IsOrdered(begun, RecordOf(id, o, shape, cls, vars))
    ensures begun + Ids(RecordOf(id, o, shape, cls, vars)) == begun + {id} + Ids(cls) + IdsOfAll(vars)
  {
  }

  lemma RecordIsWritten(cells: Cells, start: set<Addr>, p: Progress, p2: Progress, p3: Progress, a: Addr, cls: Field, vars: seq<Field>)
    requires IsProgressOk(cells, p) && a in cells && a !in p.written && IsRecordOk(cells, cells[a]) && a in ReachableSet(cells, start)
    requires IsWritten(cells, start, Register(p, a), p2, cls, Pointer(cells[a].cls))
    requires AreWritten(cells, start, p2, p3, vars, cells[a].vars)
    ensures var p1, shape := Register(p, a), ShapeOf(cells[cells[a].cls]);
            IsWritten(cells, start, p, p3, RecordOf(p1.ids[a], cells[a], shape, cls, vars), Pointer(a))
  {
    hide ReachableSet, ShapeOf, IsClass, AreIds, Ids, IdsOf, RecordOf, VarsCount, FitsWord, HasEdge, IsOrdered, AreOrdered, IsWellFormed, Describes, IsObjectOk, IsStep;
    var p1 := Register(p, a);
    RegisterIsOk(cells, p, a);
    ClassIsDescribed(cells, start, p1, p2, cls, Pointer(cells[a].cls));
    StepGrows(cells, start, p2, p3);
    DescriptionIsStable(cells, p2.ids, p3.ids, cls, Pointer(cells[a].cls));
    RecordIsStep(cells, start, p, p2, p3, a);
    ObjectHasClass(cells, cells[a]);
    RecordIsDescribed(cells, p3.ids, a, cls, vars);
    RecordIsWellFormed(cells, a, p1.ids[a], cls, vars);
    RecordIsOrdered(IdsOf(p.ids, p.written), p1.ids[a], cells[a], ShapeOf(cells[cells[a].cls]), cls, vars);
  }

  lemma StepGrows(cells: Cells, start: set<Addr>, p: Progress, p': Progress)
    requires IsStep(cells, start, p, p')
    ensures IdsGrow(p.ids, p'.ids)
  {
  }

  lemma ObjectHasClass(cells: Cells, o: Object)
    requires IsRecordOk(cells, o)
    ensures o.cls in cells && IsClass(cells[o.cls]) && |o.vars| == VarsCount(ShapeOf(cells[o.cls]), o.size)
  {
  }

  lemma RecordIsStep(cells: Cells, start: set<Addr>, p: Progress, p2: Progress, p3: Progress, a: Addr)
    requires IsProgressOk(cells, p) && a in cells && a !in p.written && a in ReachableSet(cells, start)
    requires IsStep(cells, start, Register(p, a), p2) && IsStep(cells, start, p2, p3)
    requires cells[a].cls in p2.written && (forall i :: 0 <= i < |cells[a].vars| && cells[a].vars[i].Pointer? ==> cells[a].vars[i].target in p3.written)
    ensures IsStep(cells, start, p, p3) && a in p3.written && IdsGrow(p.ids, p3.ids) && a in p3.ids && p3.ids[a] == Register(p, a).ids[a]
  {
    hide ReachableSet, AreIds, HasEdge;
    RegisterIsOk(cells, p, a);
    var p1 := Register(p, a);
    StepsCompose(cells, start, p1, p2, p3);
    forall b | HasEdge(cells[a], b)
      ensures b in p3.written
    {
      EdgeIsWritten(cells[a], b, p3.written);
    }
  }

  lemma EdgeIsWritten(o: Object, b: Addr, written: set<Addr>)
    requires HasEdge(o, b) && o.cls in written && (forall i :: 0 <= i < |o.vars| && o.vars[i].Pointer? ==> o.vars[i].target in written)
    ensures b in written
  {
    if b != o.cls {
      var i :| 0 <= i < |o.vars| && o.vars[i] == Pointer(b);
    }
  }

  /** The heap that is written, with everything the writer takes for granted. */
  ghost predicate IsSource(cells: Cells, start: set<Addr>) {
    AreRecordsOk(cells) && start <= cells.Keys
  }

  lemma SourceIsClosed(cells: Cells, start: set<Addr>)
    requires IsSource(cells, start)
    ensures IsClosed(cells, cells.Keys)
  {
    hide IsRecordOk, HasEdge;
    forall x | x in cells
      ensures IsObjectOk(cells, cells[x])
    {
      RecordIsObject(cells, cells[x]);
    }
    ObjectsAreClosed(cells);
  }

  lemma TargetIsReachable(cells: Cells, start: set<Addr>, a: Addr, b: Addr)
    requires IsSource(cells, start) && a in ReachableSet(cells, start) && a in cells && HasEdge(cells[a], b)
    ensures b in ReachableSet(cells, start) && b in cells
  {
    hide IsRecordOk, ReachableSet, HasEdge;
    SourceIsClosed(cells, start);
    ReachableIsClosed(cells, start);
  }

  lemma RecordIsObject(cells: Cells, o: Object)
    requires IsRecordOk(cells, o)
    ensures IsObjectOk(cells, o)
  {
  }

  lemma SourceIsOk(cells: Cells, start: set<Addr>, a: Addr)
    requires IsSource(cells, start) && a in cells
    ensures IsRecordOk(cells, cells[a])
    ensures var o := cells[a]; o.cls in cells && IsClass(cells[o.cls]) && |o.vars| == VarsCount(ShapeOf(cells[o.cls]), o.size)
  {
    ObjectHasClass(cells, cells[a]);
  }

  lemma ReferenceIsWritten(cells: Cells, start: set<Addr>, p: Progress, a: Addr)
    requires IsProgressOk(cells, p) && a in p.written
    ensures IsWritten(cells, start, p, p, Reference(p.ids[a]), Pointer(a))
  {
    hide AreIds, ReachableSet;
    assert p.ids[a] in IdsOf(p.ids, p.written);
  }

  lemma PlainIsWritten(cells: Cells, start: set<Addr>, p: Progress, v: Value)
    requires IsProgressOk(cells, p) && !v.Pointer? && (v.Immediate? ==> !IsPointerWord(v.word))
    ensures IsWritten(cells, start, p, p, Plain(WordOf(v)), v)
  {
    hide AreIds, ReachableSet, ShapeWord, IsPointerWord;
    if v.Shape? {
      ShapeWordIsPlain(v.shape);
    }
  }

  lemma PartsAreAppended(out: seq<Token>, head: seq<Token>, cls: seq<Token>, vars: seq<Token>, bytes: seq<Token>)
    ensures out + head + cls + vars + bytes == out + (head + cls + vars + bytes)
  {
  }

  lemma ClassIsReachable(cells: Cells, start: set<Addr>, a: Addr)
    requires IsSource(cells, start) && a in ReachableSet(cells, start) && a in cells
    ensures cells[a].cls in ReachableSet(cells, start) && cells[a].cls in cells
  {
    hide IsSource, ReachableSet;
    TargetIsReachable(cells, start, a, cells[a].cls);
  }

  /** The ids after each of these objects was registered in turn. */
  function RegisterAll(handles: seq<Addr>): IdTable {
    if handles == [] then map[]
    else
      var ids, last := RegisterAll(handles[..|handles| - 1]), handles[|handles| - 1];
      if last in ids then ids else ids[last := |ids|]
  }

  lemma {:induction false} RegisterAllIsOk(handles: seq<Addr>)
    ensures AreIds(RegisterAll(handles)) && |RegisterAll(handles)| <= |handles|
    ensures forall a :: a in RegisterAll(handles) <==> a in handles
  {
    if handles != [] {
      var init, last := handles[..|handles| - 1], handles[|handles| - 1];
      RegisterAllIsOk(init);
      assert handles == init + [last];
    }
  }

  /** The i-th builtin object has the id i, by which it will be found again, exactly when no two handles are of the same object. */
  lemma {:induction false} BuiltinIds(handles: seq<Addr>)
    ensures (forall i :: 0 <= i < |handles| ==> handles[i] in RegisterAll(handles) && RegisterAll(handles)[handles[i]] == i)
            <==> HasNoDuplicates(handles)
  {
    if HasNoDuplicates(handles) {
      DistinctIds(handles);
    }
  }

  lemma {:induction false} DistinctIds(handles: seq<Addr>)
    requires HasNoDuplicates(handles)
    ensures |RegisterAll(handles)| == |handles|
    ensures forall i :: 0 <= i < |handles| ==> handles[i] in RegisterAll(handles) && RegisterAll(handles)[handles[i]] == i
  {
    if handles != [] {
      var init, last := handles[..|handles| - 1], handles[|handles| - 1];
      DistinctIds(init);
      RegisterAllIsOk(init);
      assert last !in init;
    }
  }

  lemma RootIsReachable(cells: Cells, roots: seq<Addr>, i: nat)
    requires IsSource(cells, SetOf(roots)) && i < |roots|
    ensures roots[i] in cells && roots[i] in ReachableSet(cells, SetOf(roots))
  {
    hide ReachableSet, IsRecordOk;
    SourceIsClosed(cells, SetOf(roots));
    ReachableIsClosed(cells, SetOf(roots));
    assert roots[i] in SetOf(roots);
  }

  lemma TargetIsWritten(cells: Cells, start: set<Addr>, p: Progress, p': Progress, f: Field, v: Value)
    requires IsWritten(cells, start, p, p', f, v) && v.Pointer?
    ensures v.target in p'.written
  {
  }

  /**
   What a snapshot is: records in an order in which ids are introduced before they are used, one
   for each object that is reachable from the handles and none for any other.
   */
  ghost predicate IsSnapshot(cells: Cells, handles: seq<Addr>, roots: seq<Addr>, ids: IdTable, fields: seq<Field>, objects: seq<Value>) {
    && AreIds(ids) && IdsGrow(RegisterAll(handles), ids)
    && |fields| == |objects| && AreOrdered({}, fields)
    && (forall k :: 0 <= k < |fields| ==> fields[k].Inline? && IsWellFormed(fields[k]) && Describes(cells, ids, fields[k], objects[k]))
    && ReachableSet(cells, SetOf(roots)) <= ids.Keys
    && IdsOfAll(fields) == IdsOf(ids, ReachableSet(cells, SetOf(roots)))
  }

  lemma AllIsSnapshot(cells: Cells, handles: seq<Addr>, roots: seq<Addr>, p: Progress, p': Progress, fields: seq<Field>, objects: seq<Value>)
    requires IsSource(cells, SetOf(roots)) && p == Progress(RegisterAll(handles), {}) && SetOf(roots) <= p'.written
    requires AreWritten(cells, SetOf(roots), p, p', fields, objects) && forall k :: 0 <= k < |fields| ==> fields[k].Inline?
    ensures IsSnapshot(cells, handles, roots, p'.ids, fields, objects)
  {
    hide IsSource, ReachableSet, Describes, IsWellFormed, AreOrdered, IdsOfAll, AreIds, RegisterAll, HasEdge;
    var start := SetOf(roots);
    assert IsClosed(cells, p'.written);
    ReachableIsLeast(cells, start, p'.written);
    assert p'.written == ReachableSet(cells, start);
    assert IdsOf(p.ids, {}) == {};
  }

  /** The size that the dictionary starts with. */
  const DICT_SIZE: nat := 8192

  /** How large the dictionary is, after `count` ids were put into one that had this size: it doubles when it gets full. */
  function CapacityFrom(size: nat, count: nat): (capacity: nat)
    requires 0 < size
    ensures count < capacity && size <= capacity
    decreases count - size
  {
    if count < size then size else CapacityFrom(2 * size, count)
  }

  lemma {:induction false} NextCapacity(size: nat, count: nat)
    requires 0 < size
    ensures var capacity := CapacityFrom(size, count);
            CapacityFrom(size, count + 1) == if count + 1 == capacity then 2 * capacity else capacity
    decreases count - size
  {
    if size <= count {
      NextCapacity(2 * size, count);
    }
  }

  /** The dictionary grows in the middle of writing: there are too many objects for the size it has once the handles are in it. */
  ghost predicate IsTooLarge(handles: set<Addr>, reachable: set<Addr>) {
    CapacityFrom(DICT_SIZE, |handles|) <= |handles + reachable|
  }

  lemma WriterIsFull(handles: seq<Addr>, reachable: set<Addr>, ids: IdTable)
    requires ids.Keys <= RegisterAll(handles).Keys + reachable
    ensures |ids| <= |SetOf(handles) + reachable|
  {
    RegisterAllIsOk(handles);
    SubsetIsSmaller(ids.Keys, SetOf(handles) + reachable);
  }

  lemma WriterIsNotFull(handles: seq<Addr>, reachable: set<Addr>, ids: IdTable)
    requires IdsGrow(RegisterAll(handles), ids) && reachable <= ids.Keys
    ensures |SetOf(handles) + reachable| <= |ids|
  {
    RegisterAllIsOk(handles);
    SubsetIsSmaller(SetOf(handles) + reachable, ids.Keys);
  }

  /** A call has registered reachable objects only; it fails when the dictionary gets full. */
  ghost predicate HasRegistered(ids: IdTable, size: nat, ids': IdTable, size': nat, reachable: set<Addr>, ok: bool) {
    && ids.Keys <= ids'.Keys <= ids.Keys + reachable
    && if ok then |ids'| < size' == size else size <= |ids'|
  }

  lemma RegisteredTwice(ids: IdTable, size: nat, ids': IdTable, size': nat, ids'': IdTable, size'': nat, reachable: set<Addr>, ok: bool)
    requires HasRegistered(ids, size, ids', size', reachable, true) && HasRegistered(ids', size', ids'', size'', reachable, ok)
    ensures HasRegistered(ids, size, ids'', size'', reachable, ok)
  {
  }

  lemma NothingIsRegistered(ids: IdTable, size: nat, reachable: set<Addr>)
    requires |ids| < size
    ensures HasRegistered(ids, size, ids, size, reachable, true)
  {
  }

  lemma OneIsRegistered(ids: IdTable, size: nat, ids': IdTable, size': nat, reachable: set<Addr>, a: Addr)
    requires |ids| < size && a in reachable && ids' == (if a in ids then ids else ids[a := |ids|])
    requires size' == if a in ids || |ids| + 1 < size then size else 2 * size
    ensures HasRegistered(ids, size, ids', size', reachable, a in ids || |ids| + 1 < size)
  {
  }

  lemma OneMoreIsAppended(out: seq<Token>, fields: seq<Field>, f: Field, all: seq<Token>)
    requires all == out + FlattenAll(fields) + Flatten(f)
    ensures all == out + FlattenAll(fields + [f])
  {
    hide Flatten;
    assert (fields + [f])[..|fields|] == fields;
    assert FlattenAll(fields + [f]) == FlattenAll(fields) + Flatten(f);
  }

  lemma NothingIsAppended(out: seq<Token>)
    ensures out == out + FlattenAll([])
  {
  }

  lemma HasRoom(ids: IdTable, size: nat, ids': IdTable, size': nat, reachable: set<Addr>)
    requires HasRegistered(ids, size, ids', size', reachable, true)
    ensures |ids'| < size' == size
  {
  }

  class SnapshotWriter {
    const cells: Cells
    var out: seq<Token>
    /** The dictionary of ids; those in `written` have the flag SS_ASSOC_WRITTEN. */
    var ids: IdTable
    var written: set<Addr>
    var size: nat

    ghost function State(): Progress
      reads this
    {
      Progress(ids, written)
    }

    constructor (cells: Cells)
      ensures this.cells == cells && out == [] && ids == map[] && written == {} && size == DICT_SIZE
    {
      this.cells := cells;
      size := DICT_SIZE;
      out := [];
      ids := map[];
      written := {};
    }

    /**
     registerObject.  When the dictionary grows its old array is freed, in which the flag would be set
     and from which the id would be read then: `ok` is false when somebody is going to do so.
     */
    method RegisterObject(a: Addr, isWritten: bool) returns (ok: bool, id: nat)
      requires |ids| < size
      modifies this`ids, this`written, this`size
      ensures ok <==> !isWritten || a in old(ids) || |old(ids)| + 1 < old(size)
      ensures size == if a in old(ids) || |old(ids)| + 1 < old(size) then old(size) else 2 * old(size)
      ensures ids == (if a in old(ids) then old(ids) else old(ids)[a := |old(ids)|]) && id == ids[a]
      ensures written == if isWritten then old(written) + {a} else old(written)
    {
      ok := true;
      if a !in ids {
        ids := ids[a := |ids|];
        if |ids| == size {
          size := 2 * size;
          ok := !isWritten;
        }
      }
      if isWritten {
        written := written + {a};
      }
      id := ids[a];
    }

    method WriteInt64(word: nat)
      modifies this`out
      ensures out == old(out) + [Word(word)]
    {
      out := out + [Word(word)];
    }

    method WriteBytes(bytes: seq<nat>)
      modifies this`out
      ensures out == old(out) + Bytes(bytes)
    {
      out := out + Bytes(bytes);
    }

    method WriteHead(id: nat, o: Object, shape: InstanceShape)
      modifies this`out
      ensures out == old(out) + Head(id, shape, HeaderWord(o, shape), o.size)
    {
      WriteInt64(id * 8 + OBJECT_INLINE);
      WriteInt64(ShapeWord(shape));
      WriteInt64(HeaderWord(o, shape));
      if shape.isIndexed {
        WriteInt64(o.size);
      }
    }

    /** writeObject: the record of an object whose record has not begun. */
    method WriteObject(a: Addr, ghost start: set<Addr>) returns (ok: bool, ghost f: Field)
      requires IsSource(cells, start) && IsProgressOk(cells, State()) && a in ReachableSet(cells, start) && a in cells && a !in written && |ids| < size
      modifies this
      ensures HasRegistered(old(ids), old(size), ids, size, ReachableSet(cells, start), ok)
      ensures ok ==> IsWritten(cells, start, old(State()), State(), f, Pointer(a)) && f.Inline?
      ensures ok ==> out == old(out) + Flatten(f)
      decreases cells.Keys - written, 1
    {
      hide HasRegistered, IsRecordOk, IsSource, IsWritten, ReachableSet, IsProgressOk, Head, Flatten, IsClass, ShapeOf, AreWritten, IdsOf, IdsGrow, HasEdge, VarsCount, HeaderWord, Bytes, FlattenAll;
      ghost var p, out0 := State(), out;
      f := Plain(0);
      var id;
      ghost var ids0, size0, reachable := ids, size, ReachableSet(cells, start);
      ok, id := RegisterObject(a, true);
      OneIsRegistered(ids0, size0, ids, size, reachable, a);
      if !ok {
        return;
      }
      ghost var ids1, size1 := ids, size;
      RegisterIsOk(cells, p, a);
      SourceIsOk(cells, start, a);
      var o := cells[a];
      var shape := ShapeOf(cells[o.cls]);
      WriteHead(id, o, shape);
      ClassIsReachable(cells, start, a);
      ghost var cls;
      ok, cls := WriteFieldObject(o.cls, start);
      RegisteredTwice(ids0, size0, ids1, size1, ids, size, reachable, ok);
      if !ok {
        return;
      }
      ghost var p2 := State();
      WrittenIsOk(cells, start, Register(p, a), p2, cls, Pointer(o.cls));
      ghost var ids2, size2 := ids, size;
      HasRoom(ids0, size0, ids, size, reachable);
      ghost var vars;
      ok, vars := WriteVars(a, VarsCount(shape, o.size), start);
      RegisteredTwice(ids0, size0, ids2, size2, ids, size, reachable, ok);
      if !ok {
        return;
      }
      if shape.isIndexed && shape.isBytes {
        WriteBytes(o.bytes);
      }
      RecordIsWritten(cells, start, p, p2, State(), a, cls, vars);
      f := RecordOf(id, o, shape, cls, vars);
      RecordIsFlat(cells, o, id, cls, vars);
      PartsAreAppended(out0, Head(id, shape, HeaderWord(o, shape), o.size), Flatten(cls), FlattenAll(vars), if shape.isIndexed && shape.isBytes then Bytes(o.bytes) else []);
    }

    /** The loop over the variables in writeObject. */
    method WriteVars(a: Addr, count: nat, ghost start: set<Addr>) returns (ok: bool, ghost vars: seq<Field>)
      requires IsSource(cells, start) && IsProgressOk(cells, State()) && a in ReachableSet(cells, start) && a in cells && count == |cells[a].vars|
      requires |ids| < size
      modifies this
      ensures HasRegistered(old(ids), old(size), ids, size, ReachableSet(cells, start), ok)
      ensures ok ==> AreWritten(cells, start, old(State()), State(), vars, cells[a].vars)
      ensures ok ==> out == old(out) + FlattenAll(vars)
      decreases cells.Keys - written, 5
    {
      hide HasRegistered, IsRecordOk, IsWritten, ReachableSet, IsProgressOk, Flatten, FlattenAll, AreWritten;
      ghost var p := State();
      NothingIsAppended(out);
      NothingIsWritten(cells, start, p);
      NothingIsRegistered(ids, size, ReachableSet(cells, start));
      ok, vars := true, [];
      var i := 0;
      while i < count
        invariant ok && |ids| < size && HasRegistered(old(ids), old(size), ids, size, ReachableSet(cells, start), true)
        invariant i <= count && AreWritten(cells, start, p, State(), vars, cells[a].vars[..i])
        invariant out == old(out) + FlattenAll(vars)
      {
        ghost var p', size' := State(), size;
        AllAreOk(cells, start, p, p', vars, cells[a].vars[..i]);
        ok, vars := WriteVar(a, i, start, p, old(out), vars);
        RegisteredTwice(old(ids), old(size), p'.ids, size', ids, size, ReachableSet(cells, start), ok);
        if !ok {
          return;
        }
        HasRoom(old(ids), old(size), ids, size, ReachableSet(cells, start));
        i := i + 1;
      }
      assert cells[a].vars[..i] == cells[a].vars;
    }

    method WriteVar(a: Addr, i: nat, ghost start: set<Addr>, ghost p: Progress, ghost out0: seq<Token>, ghost vars: seq<Field>)
      returns (ok: bool, ghost vars': seq<Field>)
      requires IsSource(cells, start) && a in ReachableSet(cells, start) && a in cells && i < |cells[a].vars| && |ids| < size
      requires AreWritten(cells, start, p, State(), vars, cells[a].vars[..i]) && out == out0 + FlattenAll(vars)
      modifies this
      ensures HasRegistered(old(ids), old(size), ids, size, ReachableSet(cells, start), ok)
      ensures ok ==> AreWritten(cells, start, p, State(), vars', cells[a].vars[..i + 1]) && out == out0 + FlattenAll(vars')
      decreases cells.Keys - written, 4
    {
      hide HasRegistered, IsRecordOk, AreRecordsOk, IsWritten, ReachableSet, IsProgressOk, Flatten, FlattenAll, AreWritten;
      ghost var p' := State();
      AllAreOk(cells, start, p, p', vars, cells[a].vars[..i]);
      SourceIsOk(cells, start, a);
      VarIsOk(cells, start, a, i);
      ghost var f;
      ok, f := WriteField(cells[a].vars[i], start);
      vars' := vars + [f];
      if ok {
        OneMoreIsWritten(cells, start, p, p', State(), vars, cells[a].vars[..i], f, cells[a].vars[i]);
        OneMoreIsAppended(out0, vars, f, out);
        assert cells[a].vars[..i + 1] == cells[a].vars[..i] + [cells[a].vars[i]];
      }
    }

    method WriteField(v: Value, ghost start: set<Addr>) returns (ok: bool, ghost f: Field)
      requires IsSource(cells, start) && IsProgressOk(cells, State()) && |ids| < size
      requires v.Pointer? ==> v.target in ReachableSet(cells, start) && v.target in cells
      requires v.Immediate? ==> !IsPointerWord(v.word)
      modifies this
      ensures HasRegistered(old(ids), old(size), ids, size, ReachableSet(cells, start), ok)
      ensures ok ==> IsWritten(cells, start, old(State()), State(), f, v) && out == old(out) + Flatten(f)
      decreases cells.Keys - written, 3
    {
      hide HasRegistered, IsSource, IsWritten, ReachableSet, IsProgressOk;
      if v.Pointer? {
        ok, f := WriteFieldObject(v.target, start);
      } else {
        ok := true;
        NothingIsRegistered(ids, size, ReachableSet(cells, start));
        PlainIsWritten(cells, start, State(), v);
        WriteInt64(WordOf(v));
        f := Plain(WordOf(v));
      }
    }

    method WriteFieldObject(a: Addr, ghost start: set<Addr>) returns (ok: bool, ghost f: Field)
      requires IsSource(cells, start) && IsProgressOk(cells, State()) && a in ReachableSet(cells, start) && a in cells && |ids| < size
      modifies this
      ensures HasRegistered(old(ids), old(size), ids, size, ReachableSet(cells, start), ok)
      ensures ok ==> IsWritten(cells, start, old(State()), State(), f, Pointer(a)) && out == old(out) + Flatten(f)
      decreases cells.Keys - written, 2
    {
      hide HasRegistered, IsSource, IsWritten, ReachableSet, AreIds;
      if a !in ids || a !in written {
        ok, f := WriteObject(a, start);
      } else {
        ok := true;
        NothingIsRegistered(ids, size, ReachableSet(cells, start));
        ReferenceIsWritten(cells, start, State(), a);
        WriteInt64(ids[a] * 8 + OBJECT_POINTER);
        f := Reference(ids[a]);
      }
    }

    /** registerBuiltinObjects: the handles of the virtual machine get their ids first. */
    method RegisterBuiltinObjects(handles: seq<Addr>)
      requires ids == map[] && size == DICT_SIZE
      modifies this`ids, this`written, this`size
      ensures ids == RegisterAll(handles) && written == old(written) && size == CapacityFrom(DICT_SIZE, |ids|)
    {
      var i := 0;
      while i < |handles|
        invariant i <= |handles| && ids == RegisterAll(handles[..i]) && written == old(written) && size == CapacityFrom(DICT_SIZE, |ids|)
      {
        NextCapacity(DICT_SIZE, |ids|);
        var _, _ := RegisterObject(handles[i], false);
        assert handles[..i + 1][..i] == handles[..i];
        i := i + 1;
      }
      assert handles[..i] == handles;
    }

    /** iterateHandles: a record for each handle whose object has none yet. */
    method IterateHandles(roots: seq<Addr>) returns (ok: bool, ghost fields: seq<Field>, ghost objects: seq<Value>)
      requires IsSource(cells, SetOf(roots)) && IsProgressOk(cells, State()) && out == [] && |ids| < size
      modifies this
      ensures HasRegistered(old(ids), old(size), ids, size, ReachableSet(cells, SetOf(roots)), ok)
      ensures ok ==> AreWritten(cells, SetOf(roots), old(State()), State(), fields, objects)
      ensures ok ==> forall k :: 0 <= k < |fields| ==> fields[k].Inline?
      ensures ok ==> out == FlattenAll(fields) && SetOf(roots) <= written
    {
      hide HasRegistered, IsSource, IsWritten, AreWritten, ReachableSet, IsProgressOk, Flatten, FlattenAll, AreIds;
      ghost var start, p := SetOf(roots), State();
      NothingIsAppended(out);
      NothingIsWritten(cells, start, p);
      NothingIsRegistered(ids, size, ReachableSet(cells, start));
      ok, fields, objects := true, [], [];
      var i := 0;
      while i < |roots|
        invariant ok && |ids| < size && HasRegistered(old(ids), old(size), ids, size, ReachableSet(cells, start), true)
        invariant i <= |roots| && AreWritten(cells, start, p, State(), fields, objects)
        invariant forall k :: 0 <= k < |fields| ==> fields[k].Inline?
        invariant out == [] + FlattenAll(fields)
        invariant forall k :: 0 <= k < i ==> roots[k] in written
      {
        ghost var p', size' := State(), size;
        RootIsReachable(cells, roots, i);
        ok, fields, objects := WriteNewObject(roots[i], start, p, fields, objects);
        RegisteredTwice(old(ids), old(size), p'.ids, size', ids, size, ReachableSet(cells, start), ok);
        if !ok {
          return;
        }
        HasRoom(old(ids), old(size), ids, size, ReachableSet(cells, start));
        i := i + 1;
      }
    }

    /** writeNewObject. */
    method WriteNewObject(a: Addr, ghost start: set<Addr>, ghost p: Progress, ghost fields: seq<Field>, ghost objects: seq<Value>)
      returns (ok: bool, ghost fields': seq<Field>, ghost objects': seq<Value>)
      requires IsSource(cells, start) && a in ReachableSet(cells, start) && a in cells && |ids| < size
      requires AreWritten(cells, start, p, State(), fields, objects) && out == [] + FlattenAll(fields)
      requires forall k :: 0 <= k < |fields| ==> fields[k].Inline?
      modifies this
      ensures HasRegistered(old(ids), old(size), ids, size, ReachableSet(cells, start), ok)
      ensures ok ==> AreWritten(cells, start, p, State(), fields', objects') && out == [] + FlattenAll(fields')
      ensures ok ==> a in written && old(written) <= written && forall k :: 0 <= k < |fields'| ==> fields'[k].Inline?
    {
      hide HasRegistered, IsSource, IsWritten, AreWritten, ReachableSet, IsProgressOk, Flatten, FlattenAll, AreIds;
      ghost var p' := State();
      AllAreOk(cells, start, p, p', fields, objects);
      NothingIsRegistered(ids, size, ReachableSet(cells, start));
      ok, fields', objects' := true, fields, objects;
      if a !in ids || a !in written {
        ghost var f;
        ok, f := WriteObject(a, start);
        if ok {
          WrittenIsOk(cells, start, p', State(), f, Pointer(a));
          TargetIsWritten(cells, start, p', State(), f, Pointer(a));
          OneMoreIsWritten(cells, start, p, p', State(), fields, objects, f, Pointer(a));
          OneMoreIsAppended([], fields, f, out);
          fields', objects' := fields + [f], objects + [Pointer(a)];
        }
      }
    }

    /**
     snapshotWrite.  `handles` are the builtin objects, `roots` those of all handles.  It fails exactly
     when there are too many objects.
     */
    method Write(handles: seq<Addr>, roots: seq<Addr>) returns (ok: bool, ghost fields: seq<Field>, ghost objects: seq<Value>)
      requires IsSource(cells, SetOf(roots)) && out == [] && ids == map[] && written == {} && size == DICT_SIZE
      modifies this
      ensures ok <==> !IsTooLarge(SetOf(handles), ReachableSet(cells, SetOf(roots)))
      ensures ok ==> out == FlattenAll(fields) && IsSnapshot(cells, handles, roots, ids, fields, objects)
    {
      hide IsSource, IsWritten, AreWritten, ReachableSet, Flatten, AreIds;
      RegisterAllIsOk(handles);
      RegisterBuiltinObjects(handles);
      ghost var p := State();
      assert |ids| == |SetOf(handles)| by { assert ids.Keys == SetOf(handles); }
      ok, fields, objects := IterateHandles(roots);
      if !ok {
        WriterIsFull(handles, ReachableSet(cells, SetOf(roots)), ids);
        return;
      }
      AllIsSnapshot(cells, handles, roots, p, State(), fields, objects);
      WriterIsNotFull(handles, ReachableSet(cells, SetOf(roots)), ids);
    }
  }

  lemma WrittenIsOk(cells: Cells, start: set<Addr>, p: Progress, p': Progress, f: Field, v: Value)
    requires IsWritten(cells, start, p, p', f, v)
    ensures IsProgressOk(cells, p') && p.written <= p'.written
  {
  }

  lemma AllAreOk(cells: Cells, start: set<Addr>, p: Progress, p': Progress, fields: seq<Field>, values: seq<Value>)
    requires AreWritten(cells, start, p, p', fields, values)
    ensures IsProgressOk(cells, p') && p.written <= p'.written
  {
  }

  lemma VarIsOk(cells: Cells, start: set<Addr>, a: Addr, i: nat)
    requires IsSource(cells, start) && a in ReachableSet(cells, start) && a in cells && i < |cells[a].vars|
    ensures var v := cells[a].vars[i];
            && (v.Immediate? ==> !IsPointerWord(v.word))
            && (v.Pointer? ==> v.target in ReachableSet(cells, start) && v.target in cells)
  {
    hide ReachableSet, IsPointerWord;
    assert IsRecordOk(cells, cells[a]);
    if cells[a].vars[i].Pointer? {
      assert cells[a].vars[i] in cells[a].vars;
      TargetIsReachable(cells, start, a, cells[a].vars[i].target);
    }
  }

  lemma RecordIsFlat(cells: Cells, o: Object, id: nat, cls: Field, vars: seq<Field>)
    requires IsRecordOk(cells, o)
    ensures var f := RecordOf(id, o, ShapeOf(cells[o.cls]), cls, vars);
            Flatten(f) == Head(id, f.shape, HeaderWord(o, f.shape), o.size) + Flatten(cls) + FlattenAll(vars) + (if f.shape.isIndexed && f.shape.isBytes then Bytes(o.bytes) else [])
  {
    hide IsObjectOk, Head, FlattenAll;
  }
}

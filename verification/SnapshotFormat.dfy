/**
 The snapshot file (the format comment and the constants of vm/Snapshot.c): words of 64 bits and the
 bytes of byte objects.

 A field of the file is an object written inline, a reference back to one, or any other word.
 */
module SnapshotFormats {
  import opened Collections
  import opened ObjectModel

  const OBJECT_FIELD_MASK: nat := 7
  const OBJECT_INLINE: nat := 1
  const OBJECT_POINTER: nat := 5

  datatype Token = Word(word: nat) | Byte(byte: nat)

  datatype Field =
    | Inline(id: nat, shape: InstanceShape, header: nat, size: nat, cls: Field, vars: seq<Field>, bytes: seq<nat>)
    | Reference(id: nat)
    | Plain(word: nat)

  // ---------- Words ----------

  predicate IsByteSized(n: nat) {
    n < 0x100
  }

  /** The fields of a shape fit into the bytes they have in memory. */
  predicate FitsWord(s: InstanceShape) {
    IsByteSized(s.payloadSize) && IsByteSized(s.varsSize) && IsByteSized(s.valueType) && s.size < 0x1_0000
  }

  function Bit(b: bool): nat {
    if b then 1 else 0
  }

  /** The word of a shape, its fields from the lowest byte up; the lowest byte is the tag of an integer. */
  function ShapeWord(s: InstanceShape): nat {
    0x100 * (s.payloadSize + 0x100 * (s.varsSize + 0x100 * (Bit(s.isIndexed) + 0x100 * (Bit(s.isBytes) + 0x100 * (s.valueType + 0x100 * s.size)))))
  }

  function ShapeOfWord(word: nat): InstanceShape {
    var w1 := word / 0x100;
    var w2 := w1 / 0x100;
    var w3 := w2 / 0x100;
    var w4 := w3 / 0x100;
    var w5 := w4 / 0x100;
    InstanceShape(w1 % 0x100, w2 % 0x100, w3 % 0x100 != 0, w4 % 0x100 != 0, w5 % 0x100, w5 / 0x100)
  }

  lemma LowByte(low: nat, high: nat)
    requires low < 0x100
    ensures (low + 0x100 * high) / 0x100 == high && (low + 0x100 * high) % 0x100 == low
  {
  }

  lemma ShapeRoundTrip(s: InstanceShape)
    requires FitsWord(s)
    ensures ShapeOfWord(ShapeWord(s)) == s
  {
    var w5 := s.valueType + 0x100 * s.size;
    var w4 := Bit(s.isBytes) + 0x100 * w5;
    var w3 := Bit(s.isIndexed) + 0x100 * w4;
    var w2 := s.varsSize + 0x100 * w3;
    var w1 := s.payloadSize + 0x100 * w2;
    LowByte(0, w1);
    LowByte(s.payloadSize, w2);
    LowByte(s.varsSize, w3);
    LowByte(Bit(s.isIndexed), w4);
    LowByte(Bit(s.isBytes), w5);
    LowByte(s.valueType, s.size);
  }

  /** The second word of an object: 32 bits of hash, an unused byte, two sizes and the tags. */
  function HeaderWord(o: Object, s: InstanceShape): nat {
    o.hash + 0x100_0000_0000 * (s.payloadSize + 0x100 * (s.varsSize + 0x100 * TagByte(o.tags)))
  }

  function TagByte(tags: Tags): nat {
    4 * Bit(tags.marked) + 8 * Bit(tags.forwarded) + 16 * Bit(tags.finalized) + 32 * Bit(tags.remembered)
  }

  function HashOfWord(word: nat): nat {
    word % 0x1_0000_0000
  }

  lemma HashRoundTrip(o: Object, s: InstanceShape)
    requires o.hash < 0x1_0000_0000
    ensures HashOfWord(HeaderWord(o, s)) == o.hash
  {
    hide TagByte;
    var rest := 0x100 * (s.payloadSize + 0x100 * (s.varsSize + 0x100 * TagByte(o.tags)));
    assert HeaderWord(o, s) == o.hash + 0x1_0000_0000 * rest;
    LowWord(o.hash, rest);
  }

  lemma LowWord(low: nat, high: nat)
    requires low < 0x1_0000_0000
    ensures (low + 0x1_0000_0000 * high) % 0x1_0000_0000 == low
  {
  }

  predicate IsPointerWord(word: nat) {
    word % 4 == 1
  }

  lemma ShapeWordIsPlain(s: InstanceShape)
    ensures !IsPointerWord(ShapeWord(s))
  {
  }

  // ---------- Fields ----------

  /** The words a record starts with: a size only where the shape is indexed. */
  function Head(id: nat, shape: InstanceShape, header: nat, size: nat): seq<Token> {
    [Word(id * 8 + OBJECT_INLINE), Word(ShapeWord(shape)), Word(header)] + (if shape.isIndexed then [Word(size)] else [])
  }

  function Bytes(bytes: seq<nat>): seq<Token> {
    seq(|bytes|, i requires 0 <= i < |bytes| => Byte(bytes[i]))
  }

  /** The tokens of a field. */
  function Flatten(f: Field): seq<Token> {
    match f
    case Inline(id, shape, header, size, cls, vars, bytes) => Head(id, shape, header, size) + Flatten(cls) + FlattenAll(vars) + Bytes(bytes)
    case Reference(id) => [Word(id * 8 + OBJECT_POINTER)]
    case Plain(word) => [Word(word)]
  }

  function FlattenAll(fields: seq<Field>): seq<Token> {
    if fields == [] then [] else FlattenAll(fields[..|fields| - 1]) + Flatten(fields[|fields| - 1])
  }

  /** The ids that a field gives to objects. */
  function Ids(f: Field): set<nat> {
    match f
    case Inline(id, _, _, _, cls, vars, _) => {id} + Ids(cls) + IdsOfAll(vars)
    case Reference(_) => {}
    case Plain(_) => {}
  }

  function IdsOfAll(fields: seq<Field>): set<nat> {
    if fields == [] then {} else IdsOfAll(fields[..|fields| - 1]) + Ids(fields[|fields| - 1])
  }

  /** With the records of the ids in `begun` begun before: an id is used for one record, and referred to after that has begun. */
  predicate IsOrdered(begun: set<nat>, f: Field)
    decreases f
  {
    match f
    case Inline(id, _, _, _, cls, vars, _) =>
      id !in begun && IsOrdered(begun + {id}, cls) && AreOrdered(begun + {id} + Ids(cls), vars)
    case Reference(id) => id in begun
    case Plain(_) => true
  }

  predicate AreOrdered(begun: set<nat>, fields: seq<Field>)
    decreases fields
  {
    fields == [] ||
    (AreOrdered(begun, fields[..|fields| - 1]) && IsOrdered(begun + IdsOfAll(fields[..|fields| - 1]), fields[|fields| - 1]))
  }

  /** As many variables and bytes as the shape says; words that are no pointers; a class that is an object. */
  predicate IsWellFormed(f: Field) {
    match f
    case Inline(_, shape, _, size, cls, vars, bytes) =>
      && FitsWord(shape) && (!shape.isIndexed ==> size == 0)
      && |vars| == VarsCount(shape, size) && |bytes| == (if shape.isIndexed && shape.isBytes then size else 0)
      && !cls.Plain? && IsWellFormed(cls) && (forall i :: 0 <= i < |vars| ==> IsWellFormed(vars[i]))
    case Reference(_) => true
    case Plain(word) => !IsPointerWord(word)
  }

  /** The ids of the records in the order of the file. */
  function InlineIds(f: Field): seq<nat> {
    match f
    case Inline(id, _, _, _, cls, vars, _) => [id] + InlineIds(cls) + InlineIdsOfAll(vars)
    case Reference(_) => []
    case Plain(_) => []
  }

  function InlineIdsOfAll(fields: seq<Field>): seq<nat> {
    if fields == [] then [] else InlineIdsOfAll(fields[..|fields| - 1]) + InlineIds(fields[|fields| - 1])
  }

  lemma {:induction false} EachIdOnce(begun: set<nat>, f: Field)
    requires IsOrdered(begun, f)
    ensures HasNoDuplicates(InlineIds(f)) && (set id | id in InlineIds(f)) == Ids(f) && Ids(f) !! begun
    decreases f
  {
    if f.Inline? {
      EachIdOnce(begun + {f.id}, f.cls);
      EachIdOnceInAll(begun + {f.id} + Ids(f.cls), f.vars);
      DisjointHaveNoDuplicates([f.id], InlineIds(f.cls));
      DisjointHaveNoDuplicates([f.id] + InlineIds(f.cls), InlineIdsOfAll(f.vars));
    }
  }

  lemma {:induction false} EachIdOnceInAll(begun: set<nat>, fields: seq<Field>)
    requires AreOrdered(begun, fields)
    ensures HasNoDuplicates(InlineIdsOfAll(fields)) && (set id | id in InlineIdsOfAll(fields)) == IdsOfAll(fields) && IdsOfAll(fields) !! begun
    decreases fields
  {
    if fields != [] {
      var init, last := fields[..|fields| - 1], fields[|fields| - 1];
      EachIdOnceInAll(begun, init);
      EachIdOnce(begun + IdsOfAll(init), last);
      DisjointHaveNoDuplicates(InlineIdsOfAll(init), InlineIds(last));
    }
  }

  lemma DisjointHaveNoDuplicates(a: seq<nat>, b: seq<nat>)
    requires HasNoDuplicates(a) && HasNoDuplicates(b) && (set x | x in a) !! (set x | x in b)
    ensures HasNoDuplicates(a + b) && (set x | x in a + b) == (set x | x in a) + (set x | x in b)
  {
    forall i, j | 0 <= i < j < |a + b|
      ensures (a + b)[i] != (a + b)[j]
    {
      if i < |a| <= j {
        var left, right := set x | x in a, set x | x in b;
        assert a[i] in left && b[j - |a|] in right;
      }
    }
  }
}

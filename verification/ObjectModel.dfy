/**
 Words, object headers and sizes (vm/Object.h).

 A value is a tagged 64-bit word.  The model keeps a word in the form its reader uses it in: an
 integer or character keeps its bits, the instance shape of a class (whose first byte is a zero
 tag, so that it reads as an integer) keeps its fields, and a pointer keeps the address it tags.
 */
module ObjectModel {
  type Addr = nat

  const HEADER_SIZE: nat := 16
  const WORD_SIZE: nat := 8
  const HEAP_OBJECT_ALIGN: nat := 16
  const SPACE_TAG: nat := 8

  /** The offset, in words, of `instanceShape` among the variables of a class. */
  const INSTANCE_SHAPE_VAR: nat := 3

  datatype InstanceShape = InstanceShape(
    payloadSize: nat, varsSize: nat, isIndexed: bool, isBytes: bool, valueType: nat, size: nat)

  datatype Value = Immediate(word: nat) | Shape(shape: InstanceShape) | Pointer(target: Addr)

  /** The tag byte of a header, without TAG_FREESPACE: free cells belong to the free list. */
  datatype Tags = Tags(marked: bool, forwarded: bool, finalized: bool, remembered: bool)

  const NO_TAGS := Tags(false, false, false, false)

  /**
   A heap object.  `cls` is the class pointer, and while TAG_FORWARDED is set the address of the
   object's copy.  `size` is the word that follows the header of an indexed object, `payload` the
   untraced words before the variables, `vars` the variables (named ones, then indexed ones), and
   `bytes` the indexed bytes of a byte object.
   */
  datatype Object = Object(
    cls: Addr, hash: nat, tags: Tags, size: nat, payload: seq<nat>, vars: seq<Value>, bytes: seq<nat>)

  type Cells = map<Addr, Object>

  function Align(v: nat): nat {
    (v + (HEAP_OBJECT_ALIGN - 1)) / HEAP_OBJECT_ALIGN * HEAP_OBJECT_ALIGN
  }

  /** An address is in new space exactly when bit 3 is set. */
  predicate IsNew(a: Addr) {
    a / SPACE_TAG % 2 == 1
  }

  predicate IsOld(a: Addr) {
    !IsNew(a)
  }

  predicate PointsToNew(v: Value) {
    v.Pointer? && IsNew(v.target)
  }

  predicate IsShapeOk(s: InstanceShape) {
    s.size == HEADER_SIZE + ((if s.isIndexed then 1 else 0) + s.payloadSize + s.varsSize) * WORD_SIZE
  }

  /** A class is an object whose fourth variable is an instance shape. */
  predicate IsClass(o: Object) {
    INSTANCE_SHAPE_VAR < |o.vars| && o.vars[INSTANCE_SHAPE_VAR].Shape? && IsShapeOk(o.vars[INSTANCE_SHAPE_VAR].shape)
  }

  function ShapeOf(o: Object): InstanceShape
    requires IsClass(o)
  {
    o.vars[INSTANCE_SHAPE_VAR].shape
  }

  function IndexedSize(s: InstanceShape, size: nat): nat {
    if s.isIndexed then size else 0
  }

  /** How many values the collectors trace in an object of shape `s`. */
  function VarsCount(s: InstanceShape, size: nat): nat {
    s.varsSize + if s.isIndexed && !s.isBytes then size else 0
  }

  function InstanceSize(s: InstanceShape, size: nat): nat {
    s.size + size * (if s.isBytes then 1 else WORD_SIZE)
  }

  /** The bytes the cell of an object takes. */
  function CellSize(s: InstanceShape, size: nat): nat {
    Align(InstanceSize(s, IndexedSize(s, size)))
  }

  /** The least multiple of 16 that is not less. */
  lemma AlignIsLeast(v: nat, m: nat)
    ensures v <= Align(v) && Align(v) % HEAP_OBJECT_ALIGN == 0
    ensures v <= m && m % HEAP_OBJECT_ALIGN == 0 ==> Align(v) <= m
  {
  }

  /** The cell of an object holds its header, the size word of an indexed object, and its contents, and has less than 16 bytes more. */
  lemma ContentsFit(o: Object, s: InstanceShape)
    requires IsShapeOk(s) && |o.vars| == VarsCount(s, o.size) && |o.payload| == s.payloadSize
    requires |o.bytes| == if s.isIndexed && s.isBytes then o.size else 0
    ensures HEADER_SIZE + 8 * ((if s.isIndexed then 1 else 0) + |o.payload| + |o.vars|) + |o.bytes| <= CellSize(s, o.size)
    ensures CellSize(s, o.size) < HEADER_SIZE + 8 * ((if s.isIndexed then 1 else 0) + |o.payload| + |o.vars|) + |o.bytes| + 16
  {
    AlignIsLeast(InstanceSize(s, IndexedSize(s, o.size)), 0);
  }

  lemma CellSizeAligned(s: InstanceShape, size: nat)
    requires IsShapeOk(s)
    ensures HEADER_SIZE <= CellSize(s, size) && CellSize(s, size) % HEAP_OBJECT_ALIGN == 0
    ensures InstanceSize(s, IndexedSize(s, size)) <= CellSize(s, size) < InstanceSize(s, IndexedSize(s, size)) + HEAP_OBJECT_ALIGN
  {
  }
}

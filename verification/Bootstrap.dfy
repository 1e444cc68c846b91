/**
 The first objects of an image (initSmalltalkStubs in vm/Bootstrap.c): nil, the classes that describe
 each other, and one class for ordinary and one for indexed objects.  And the allocation that misses
 the write barrier, from there on.
 */
module Bootstraps {
  import opened ObjectModel
  import opened FreeLists
  import opened PageSpaces
  import opened RememberedSets
  import opened Heaps
  import opened Reachability
  import opened Evacuations
  import opened EvacuationStarts
  import opened Scavenging
  import opened HeapOperations
  import opened MutatorRuns

  /** The roots that Handles.nil and Handles.Array are, and one for the program. */
  const ARRAY: nat := 1
  const FREE_ROOT: nat := 2

  /** FixedShape with some variables, and IndexedShape. */
  function FixedShape(varsSize: nat): InstanceShape {
    InstanceShape(0, varsSize, false, false, 0, HEADER_SIZE + varsSize * WORD_SIZE)
  }

  const INDEXED_SHAPE := InstanceShape(0, 0, true, false, 1, HEADER_SIZE + WORD_SIZE)

  /** newStubObject, and what newStubClass and newStubMetaClass store into it. */
  function StubObject(p: Addr, cls: Addr): Object {
    Object(cls, p / 4 % 0x1_0000_0000, NO_TAGS, 0, [], [], [])
  }

  function StubClass(p: Addr, cls: Addr, varsSize: nat, shape: InstanceShape, nil: Addr): Object {
    StubObject(p, cls).(vars := seq(varsSize, i => if i == INSTANCE_SHAPE_VAR then Shape(shape) else Pointer(nil)))
  }

  // Where the stubs are, counted from nil, and where they end.
  const META: nat := 16
  const META_CLASS: nat := 80
  const UNDEFINED_OBJECT: nat := 176
  const ARRAY_CLASS: nat := 272
  const STUBS_SIZE: nat := 368

  /**
   The instances of `META` are classes, those of `META_CLASS` are metaclasses, of which `META` is one
   while `META_CLASS` is a class.
   */
  function Stubs(nil: Addr): Cells {
    map[
      nil := StubObject(nil, nil + UNDEFINED_OBJECT),
      nil + META := StubClass(nil + META, nil + META_CLASS, 6, FixedShape(9), nil),
      nil + META_CLASS := StubClass(nil + META_CLASS, nil + META, 9, FixedShape(6), nil),
      nil + UNDEFINED_OBJECT := StubClass(nil + UNDEFINED_OBJECT, nil + META, 9, FixedShape(0), nil),
      nil + ARRAY_CLASS := StubClass(nil + ARRAY_CLASS, nil + META, 9, INDEXED_SHAPE, nil)
    ]
  }

  function StubSizes(nil: Addr): map<Addr, nat> {
    map[nil := 16, nil + META := 64, nil + META_CLASS := 96, nil + UNDEFINED_OBJECT := 96, nil + ARRAY_CLASS := 96]
  }

  lemma StubIsOk(nil: Addr, a: Addr)
    requires a in Stubs(nil)
    ensures IsObjectOk(Stubs(nil), Stubs(nil)[a]) && SizeOf(Stubs(nil), a) == StubSizes(nil)[a]
    ensures Stubs(nil)[a].tags == NO_TAGS
  {
  }

  lemma StubsAreNew(nil: Addr, a: Addr)
    requires IsNewAligned(nil) && a in StubSizes(nil)
    ensures IsNew(a) && IsNewAligned(a) && nil <= a && a + StubSizes(nil)[a] <= nil + STUBS_SIZE
  {
    hide IsNew;
    NewAlignedIsNew(a);
  }

  lemma StubsAreOk(nil: Addr, from: Addr)
    requires IsNewAligned(nil) && from <= nil
    ensures var cells := Stubs(nil);
            && AreObjectsOk(cells) && AreTagsOk(cells) && AreListed(cells, []) && IsRememberedSetComplete(cells)
            && NewSizes(cells) == StubSizes(nil) && OldSizes(cells) == map[]
            && AreWithin(NewSizes(cells), from, nil + STUBS_SIZE)
  {
    hide Stubs, IsNew, IsNewAligned, IsObjectOk, SizeOf, HasPointerToNew;
    var cells := Stubs(nil);
    assert cells.Keys == StubSizes(nil).Keys by { StubKeys(nil); }
    forall a | a in cells
      ensures IsObjectOk(cells, cells[a]) && SizeOf(cells, a) == StubSizes(nil)[a] && cells[a].tags == NO_TAGS
      ensures IsNew(a) && IsNewAligned(a) && nil <= a && a + StubSizes(nil)[a] <= nil + STUBS_SIZE
    {
      StubIsOk(nil, a);
      StubsAreNew(nil, a);
    }
    AllAreOk(cells);
  }

  lemma StubKeys(nil: Addr)
    ensures Stubs(nil).Keys == StubSizes(nil).Keys
    ensures IsClassOf(Stubs(nil), nil + ARRAY_CLASS, INDEXED_SHAPE)
  {
  }

  predicate IsClassOf(cells: Cells, cls: Addr, shape: InstanceShape) {
    cls in cells && IsClass(cells[cls]) && ShapeOf(cells[cls]) == shape
  }

  /** initSmalltalkStubs, up to the objects that are modelled, on a heap without objects. */
  method Bootstrap(h: Heap) returns (nil: Addr)
    requires h.Valid() && h.cells == map[] && FREE_ROOT < |h.roots| && STUBS_SIZE <= h.newSpace.end - h.newSpace.top
    modifies h`cells, h`roots, h.newSpace`top
    ensures h.Valid() && nil == old(h.newSpace.top) && h.cells == Stubs(nil)
    ensures h.roots == old(h.roots)[NIL := Pointer(nil)][ARRAY := Pointer(nil + ARRAY_CLASS)]
    ensures IsClassOf(h.cells, nil + ARRAY_CLASS, INDEXED_SHAPE)
    ensures BoundsOf(h) == old(BoundsOf(h)).(top := nil + STUBS_SIZE)
  {
    hide FreeList.Valid, ArePages, IsMmap, Tiles, AreBlocks, AreObjectsOk, AreTagsOk, AreListed, IsRememberedSetComplete, NewSizes, OldSizes, AreWithin, Stubs, TagNew, Capacity, IsNewAligned, IsNew, IsClassOf;
    StubKeys(h.newSpace.top);
    StubsAreOk(h.newSpace.top, TagNew(h.newSpace.fromSpace));
    NothingIsListed(h.RememberedEntries());
    nil := h.newSpace.TryAllocate(16);
    var meta := h.newSpace.TryAllocate(64);
    var metaClass := h.newSpace.TryAllocate(96);
    var undefinedObject := h.newSpace.TryAllocate(96);
    var array' := h.newSpace.TryAllocate(96);
    assert meta == nil + META && metaClass == nil + META_CLASS && undefinedObject == nil + UNDEFINED_OBJECT && array' == nil + ARRAY_CLASS;
    h.cells := Stubs(nil);
    h.roots := h.roots[NIL := Pointer(nil)][ARRAY := Pointer(array')];
  }

  lemma NothingIsListed(entries: seq<Addr>)
    ensures AreListed(map[], entries) ==> entries == []
    ensures OldSizes(map[]) == map[]
  {
    if entries != [] {
      assert entries[0] in entries;
    }
  }

  // ---------- The missed barrier ----------

  /** An array of this many variables leaves 8 bytes of new space. */
  const FILLING: nat := 2097099
  const FILLING_SIZE: nat := 16776816

  lemma NewSpaceHalves(base: Addr)
    requires base % OS_PAGE_SIZE == 0
    ensures var page := MapHeapPage(base, NEW_SPACE_SIZE);
            && page.Body() == base + 40 && page.BodySize() / 2 == 16777192
            && TagNew(base + 40) == base + 40 && IsNewAligned(base + 40) && TagNew(base + 40 + 16777192) == base + 40 + 16777192 + 8
    ensures base != 0 ==> IsMapped(MapHeapPage(base, NEW_SPACE_SIZE))
  {
    var k := base / OS_PAGE_SIZE * 256;
    assert base == 16 * k;
    NewSpaceTags(k);
  }

  lemma NewSpaceTags(k: nat)
    ensures TagNew(16 * k + 40) == 16 * k + 40 && IsNewAligned(16 * k + 40)
    ensures TagNew(16 * k + 16777232) == 16 * k + 16777240
  {
    assert (16 * k + 40) / 8 == 2 * k + 5;
    assert (16 * k + 16777232) / 8 == 2 * k + 2097154;
  }

  lemma InstanceSizes()
    ensures Align(InstanceSize(INDEXED_SHAPE, FILLING)) == FILLING_SIZE && Align(InstanceSize(INDEXED_SHAPE, 100)) == 832
    ensures 832 < FREE_LIST_SIZE * HEAP_OBJECT_ALIGN
  {
  }

  lemma {:induction false} SumHasPart(sizes: map<Addr, nat>, a: Addr, lo: Addr, hi: Addr)
    requires a in sizes && lo <= a < hi
    ensures sizes[a] <= SumSizes(sizes, lo, hi)
    decreases hi
  {
    if a < hi - 1 {
      SumHasPart(sizes, a, lo, hi - 1);
    }
  }

  /** Bytes of a root that a scavenge would copy. */
  lemma RootIsCopied(cells: Cells, roots: seq<Value>, i: nat, survivorEnd: Addr, top: Addr)
    requires AreObjectsOk(cells) && AreRootsOk(cells, roots) && i < |roots| && roots[i].Pointer? && roots[i].target in cells
    requires IsYoung(roots[i].target, survivorEnd) && roots[i].target < top
    ensures SizeOf(cells, roots[i].target) <= YoungBytes(cells, roots, survivorEnd, top)
  {
    hide IsNew, SizeOf, AreObjectsOk, ReachableSet;
    var a := roots[i].target;
    assert roots[i] in roots;
    assert a in RootTargets(roots);
    ObjectsAreClosed(cells);
    RootsAreCells(cells, roots);
    ReachableIsClosed(cells, RootTargets(roots) + OldObjects(cells));
    SumHasPart(YoungSizes(cells, roots, survivorEnd), a, survivorEnd, top);
  }

  /** A bootstrapped heap of the size that initHeap gives it. */
  method FreshHeap(base: Addr, mmap: seq<HeapPage> -> Addr) returns (h: Heap, nil: Addr)
    requires base % OS_PAGE_SIZE == 0 && base != 0 && IsMmap(mmap) && HasPages(mmap)
    ensures fresh(h.Repr()) && h.Valid() && h.oldSpace.mmap == mmap && nil == base + 40 && h.cells == Stubs(nil)
    ensures h.roots == [Pointer(nil), Pointer(nil + ARRAY_CLASS), Immediate(0)]
    ensures BoundsOf(h) == Bounds(base + 408, base + 16777232, base + 40, base + 16777240, base + 33554424)
  {
    hide Heap.Valid, IsMmap, HasPages, MapHeapPage, IsMapped, Stubs, TagNew, IsNewAligned, IsNew;
    NewSpaceHalves(base);
    assert mmap([]) != 0 by { FirstPageIsThere(mmap); }
    h := new Heap(MapHeapPage(base, NEW_SPACE_SIZE), mmap, 3);
    NewSpaceEnd(h);
    nil := Bootstrap(h);
  }

  lemma FirstPageIsThere(mmap: seq<HeapPage> -> Addr)
    requires HasPages(mmap)
    ensures mmap([]) != 0
  {
  }

  lemma ArrayClassIsThere(nil: Addr)
    ensures IsClassOf(Stubs(nil), nil + ARRAY_CLASS, INDEXED_SHAPE) && nil in Stubs(nil)
    ensures forall a :: a in Stubs(nil) ==> nil <= a < nil + STUBS_SIZE
  {
  }

  /** An array takes what is left of new space. */
  method FilledHeap(base: Addr, mmap: seq<HeapPage> -> Addr) returns (h: Heap, nil: Addr, p: Addr)
    requires base % OS_PAGE_SIZE == 0 && base != 0 && IsMmap(mmap) && HasPages(mmap)
    ensures fresh(h.Repr()) && h.Valid() && h.oldSpace.mmap == mmap && nil == base + 40 && p == nil + STUBS_SIZE
    ensures p in h.cells && h.cells - {p} == Stubs(nil) && h.cells[p].cls == nil + ARRAY_CLASS && h.cells[p].size == FILLING
    ensures h.roots == [Pointer(nil), Pointer(nil + ARRAY_CLASS), Pointer(p)]
    ensures BoundsOf(h) == Bounds(base + 16777224, base + 16777232, base + 40, base + 16777240, base + 33554424)
  {
    hide Heap.Valid, IsMmap, HasPages, Stubs, IsNew, Align, CannotFail, IsGraphKept, IsYoung, RoomAfterwards, InstanceSize, HasPointerToNew;
    InstanceSizes();
    h, nil := FreshHeap(base, mmap);
    ArrayClassIsThere(nil);
    var ok;
    ghost var f;
    ok, p, f := AllocateObject(h, NIL, nil + ARRAY_CLASS, FILLING);
    SetRoot(h, FREE_ROOT, Pointer(p));
  }

  lemma NewSpaceEnd(h: Heap)
    requires h.Valid()
    ensures h.newSpace.end == h.newSpace.fromSpace + h.newSpace.size
  {
    hide PageSpace.Valid, RememberedSet.Valid, AreObjectsOk, AreRootsOk, AreTagsOk, AreWithin, AreListed, IsRememberedSetComplete, NewSizes, OldSizes;
  }

  lemma NothingFails(cells: Cells, survivorEnd: Addr, mmap: seq<HeapPage> -> Addr)
    requires HasPages(mmap) && forall a :: a in cells ==> survivorEnd <= a
    ensures CannotFail(cells, survivorEnd, mmap)
  {
  }

  /** Neither half has room, and the class is young. */
  lemma BarrierWillBeMissed(cells: Cells, roots: seq<Value>, b: Bounds, nil: Addr, p: Addr)
    requires AreObjectsOk(cells) && AreRootsOk(cells, roots + [Pointer(nil + ARRAY_CLASS)])
    requires IsNewAligned(nil) && p == nil + STUBS_SIZE && p in cells && nil in cells && IsClassOf(cells, nil + ARRAY_CLASS, INDEXED_SHAPE)
    requires cells[p].cls == nil + ARRAY_CLASS && cells[p].size == FILLING
    requires roots == [Pointer(nil), Pointer(nil + ARRAY_CLASS), Pointer(p)]
    requires b == Bounds(nil + 16777184, nil + 16777192, nil, nil + 16777200, nil + 33554384)
    ensures IsBarrierMissed(cells, roots, b, NIL, nil + ARRAY_CLASS, 100)
  {
    hide AreObjectsOk, AreRootsOk, IsNew, Align, YoungBytes;
    InstanceSizes();
    NewAlignedIsNew(nil + ARRAY_CLASS);
    NewAlignedIsNew(p);
    var roots' := roots + [Pointer(nil + ARRAY_CLASS)];
    RootIsCopied(cells, roots', FREE_ROOT, nil, b.top);
    assert SizeOf(cells, p) == FILLING_SIZE;
  }

  /**
   The next array of 100 variables goes to old space, since the first one is still young and would take
   all of the other half as well, and so is the class, to which no barrier is applied.
   */
  method MissBarrier(base: Addr, mmap: seq<HeapPage> -> Addr) returns (h: Heap, p: Addr)
    requires base % OS_PAGE_SIZE == 0 && base != 0 && IsMmap(mmap) && HasPages(mmap)
    ensures p in h.cells && IsOld(p) && HasPointerToNew(h.cells[p]) && !h.cells[p].tags.remembered && !h.Valid()
  {
    hide Heap.Valid, IsMmap, HasPages, Stubs, IsNew, Align, CannotFail, IsGraphKept, IsBarrierMissed, InstanceSize, HasPointerToNew;
    var nil, array';
    h, nil, array' := FilledHeap(base, mmap);
    InstanceSizes();
    NewSpaceHalves(base);
    ArrayClassIsThere(nil);
    ValidCells(h);
    HandleIsRoot(h, nil + ARRAY_CLASS);
    assert forall a :: a in h.cells ==> a == array' || a in h.cells - {array'};
    NothingFails(h.cells, nil, mmap);
    BarrierWillBeMissed(h.cells, h.roots, BoundsOf(h), nil, array');
    var ok;
    ghost var f;
    ok, p, f := AllocateObject(h, NIL, nil + ARRAY_CLASS, 100);
  }
}

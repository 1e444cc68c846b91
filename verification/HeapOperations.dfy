/**
 What the running program does to the heap: allocation and the collections it causes (vm/Heap.c),
 and stores with the write barrier (vm/Thread.h).
 */
module HeapOperations {
  import opened ObjectModel
  import opened FreeLists
  import opened PageSpaces
  import opened RememberedSets
  import opened Heaps
  import opened Reachability
  import opened Isomorphisms
  import opened EvacuationStarts
  import opened Markings
  import opened Scavenging
  import opened MarkingAndSweeping

  /** A heap in which `size` bytes at `p` are allocated and not yet an object. */
  ghost predicate IsAllocated(h: Heap, p: Addr, size: nat)
    reads h, h.Repr()
  {
    && h.newSpace.Valid() && h.oldSpace.Valid() && h.rememberedSet.Valid()
    && AreObjectsOk(h.cells) && AreRootsOk(h.cells, h.roots) && AreTagsOk(h.cells)
    && p !in h.cells && IsCellSize(size)
    && AreWithin(if IsNew(p) then NewSizes(h.cells)[p := size] else NewSizes(h.cells), TagNew(h.newSpace.fromSpace), h.newSpace.top)
    && h.oldSpace.used == (if IsOld(p) then OldSizes(h.cells)[p := size] else OldSizes(h.cells))
    && AreListed(h.cells, h.RememberedEntries()) && IsRememberedSetComplete(h.cells)
  }

  /** Collections keep the object graph, and old objects stay where they are. */
  ghost predicate IsGraphKept(cells: Cells, roots: seq<Value>, cells': Cells, roots': seq<Value>, f: Renaming) {
    IsIsomorphism(cells, roots, cells', roots', f) && forall a :: a in f && IsOld(a) ==> f[a] == a
  }

  lemma NothingIsKept(cells: Cells, roots: seq<Value>)
    requires AreObjectsOk(cells) && AreRootsOk(cells, roots)
    ensures IsGraphKept(cells, roots, cells, roots, Identity(cells.Keys))
  {
    hide IsNew, MapsObject, AreObjectsOk, IsObjectOk, MapsValue;
    var f := Identity(cells.Keys);
    forall a | a in cells
      ensures MapsObject(f, cells[a], cells[a]) && IsImageOfSome(f, a)
    {
      ObjectIsOk(cells, a);
      OkIsMapped(cells, cells[a], cells[a]);
      assert f[a] == a;
    }
    IdentityMapsRoots(cells.Keys, roots);
  }

  /** scavengerTryAllocate from a valid heap. */
  method TryAllocateNew(h: Heap, size: nat) returns (p: Addr)
    requires h.Valid() && IsCellSize(size)
    modifies h.newSpace`top
    ensures p == 0 <==> old(h.newSpace.end - h.newSpace.top) < size
    ensures p == 0 ==> h.Valid() && h.newSpace.top == old(h.newSpace.top)
    ensures p != 0 ==> IsNew(p) && IsAllocated(h, p, size) && p == old(h.newSpace.top) && h.newSpace.top == p + size
  {
    hide FreeList.Valid, ArePages, IsMmap, Tiles, AreBlocks, AreObjectsOk, AreRootsOk, AreTagsOk, AreListed, IsRememberedSetComplete, NewSizes, OldSizes, TagNew, Capacity, AreWithin, IsNew, IsNewAligned;
    ghost var top := h.newSpace.top;
    p := h.newSpace.TryAllocate(size);
    if p != 0 {
      NothingAtTop(h.cells, TagNew(h.newSpace.fromSpace), top);
      AppendIsWithin(NewSizes(h.cells), TagNew(h.newSpace.fromSpace), top, size);
    }
  }

  lemma NothingAtTop(cells: Cells, lo: Addr, top: Addr)
    requires AreObjectsOk(cells) && AreWithin(NewSizes(cells), lo, top) && IsNew(top)
    ensures top !in cells
  {
    hide AreObjectsOk, AreWithin, NewSizes, IsNew;
    if top in cells {
      NewIsBelow(cells, lo, top, top);
    }
  }

  lemma UnusedIsNoObject(cells: Cells, p: Addr)
    requires IsOld(p) && p !in OldSizes(cells)
    ensures p !in cells
  {
  }

  /** tryAllocateOld from a valid heap, growing old space where necessary. */
  method AllocateOld(h: Heap, size: nat) returns (ok: bool, p: Addr)
    requires h.Valid() && IsCellSize(size)
    modifies h.oldSpace.Repr()
    ensures HasPages(h.oldSpace.mmap) && size < FREE_LIST_SIZE * HEAP_OBJECT_ALIGN ==> ok
    ensures ok ==> IsOld(p) && IsAllocated(h, p, size)
    ensures ok ==> old(h.oldSpace.pages) <= h.oldSpace.pages
    ensures ok ==> |h.oldSpace.pages| == |old(h.oldSpace.pages)| + if Finds(old(h.oldSpace.freeList.spaces), size) then 0 else 1
  {
    hide FreeList.Valid, ArePages, IsMmap, Tiles, AreBlocks, Finds, FailsSplit, AreObjectsOk, AreRootsOk, AreTagsOk, AreListed, IsRememberedSetComplete, NewSizes, OldSizes, TagNew, Capacity, AreWithin, IsNew, IsNewAligned, IsAligned, HasPages;
    var r := h.oldSpace.TryAllocateOld(size, true);
    if !r.Allocated? {
      return false, 0;
    }
    ok, p := true, r.p;
    AlignedIsOld(p);
    UnusedIsNoObject(h.cells, p);
  }

  // ---------- Collections ----------

  lemma ScavengeKeepsGraph(cells: Cells, roots: seq<Value>, survivorEnd: Addr, cells': Cells, roots': seq<Value>, survivorEnd': Addr, f: Renaming)
    requires IsScavenged(cells, roots, survivorEnd, cells', roots', survivorEnd', f)
    ensures IsGraphKept(cells, roots, cells', roots', f) && IsUnmarked(cells') && f.Keys == Kept(cells, roots)
  {
    hide IsIsomorphism, IsNew, Kept;
  }

  lemma GraphKeptTwice(cells: Cells, roots: seq<Value>, cells': Cells, roots': seq<Value>, cells'': Cells, roots'': seq<Value>,
                       f: Renaming, g: Renaming)
    requires IsGraphKept(cells, roots, cells', roots', f) && IsGraphKept(cells', roots', cells'', roots'', g)
    ensures IsGraphKept(cells, roots, cells'', roots'', Then(f, g))
  {
    hide IsIsomorphism, IsNew;
    IsomorphismsCompose(cells, roots, cells', roots', cells'', roots'', f, g);
  }

  lemma MarkAndSweepKeepsGraph(cells: Cells, roots: seq<Value>, cells': Cells)
    requires AreObjectsOk(cells) && AreRootsOk(cells, roots) && IsCollected(cells, roots, cells')
    ensures IsGraphKept(cells, roots, cells', roots, Identity(cells'.Keys))
  {
    hide IsIsomorphism, IsNew, IsCollected, AreObjectsOk, AreRootsOk;
    CollectionIsIsomorphism(cells, roots, cells');
  }

  lemma RootsAreCells(cells: Cells, roots: seq<Value>)
    requires AreRootsOk(cells, roots)
    ensures RootTargets(roots) <= cells.Keys
  {
    forall a | a in RootTargets(roots)
      ensures a in cells
    {
      var i :| 0 <= i < |roots| && roots[i] == Pointer(a);
    }
  }

  /** A full collection keeps exactly what is reachable. */
  lemma FullCollectionIsExact(cells: Cells, roots: seq<Value>, cells': Cells, roots': seq<Value>, cells'': Cells, f: Renaming)
    requires AreObjectsOk(cells) && AreRootsOk(cells, roots) && AreObjectsOk(cells') && AreRootsOk(cells', roots')
    requires IsIsomorphism(cells, roots, cells', roots', f) && IsCollected(cells', roots', cells'')
    ensures Then(f, Identity(cells''.Keys)).Keys == ReachableSet(cells, RootTargets(roots))
  {
    hide IsIsomorphism, IsNew, IsObjectOk, AreObjectsOk, AreRootsOk, ReachableSet, IsCollectedObject;
    ObjectsAreClosed(cells);
    ObjectsAreClosed(cells');
    RootsAreCells(cells, roots);
    RootsAreCells(cells', roots');
    var g := Then(f, Identity(cells''.Keys));
    forall a | a in f
      ensures a in g <==> a in ReachableSet(cells, RootTargets(roots))
    {
      ReachabilityIsKept(cells, roots, cells', roots', f, a);
    }
    ReachableIsMapped(cells, roots, cells', roots', f);
  }

  lemma ValidCells(h: Heap)
    requires h.Valid()
    ensures AreObjectsOk(h.cells) && AreRootsOk(h.cells, h.roots)
  {
    hide PageSpace.Valid, Scavenger.Valid, RememberedSet.Valid;
  }

  /** markAndSweep after a scavenge that took the objects from `cells` to where they are now. */
  method CollectScavenged(h: Heap, ghost cells: Cells, ghost roots: seq<Value>, ghost f: Renaming) returns (ghost f': Renaming)
    requires h.Valid() && IsUnmarked(h.cells) && IsGraphKept(cells, roots, h.cells, h.roots, f)
    requires AreObjectsOk(cells) && AreRootsOk(cells, roots)
    modifies h`cells, h.rememberedSet, h.oldSpace.Repr()
    ensures h.Valid() && IsGraphKept(cells, roots, h.cells, h.roots, f')
    ensures f'.Keys == ReachableSet(cells, RootTargets(roots)) && forall a :: a in f' ==> a in f && f'[a] == f[a]
    ensures h.oldSpace.pages == old(h.oldSpace.pages)
  {
    hide Heap.Valid, IsGraphKept, IsCollected, IsUnmarked, ReachableSet, AreObjectsOk, AreRootsOk;
    ghost var cells', roots' := h.cells, h.roots;
    ValidCells(h);
    MarkAndSweep(h);
    MarkAndSweepKeepsGraph(cells', roots', h.cells);
    GraphKeptTwice(cells, roots, cells', roots', h.cells, h.roots, f, Identity(h.cells.Keys));
    GraphIsIsomorphic(cells, roots, cells', roots', f);
    FullCollectionIsExact(cells, roots, cells', roots', h.cells, f);
    f' := Then(f, Identity(h.cells.Keys));
  }

  /** collectGarbage.  The graph is kept, and exactly the unreachable objects are gone. */
  method CollectGarbage(h: Heap) returns (ok: bool, ghost f: Renaming)
    requires h.Valid()
    modifies h.Repr()
    ensures CannotFail(old(h.cells), old(h.newSpace.survivorEnd), h.oldSpace.mmap) ==> ok
    ensures ok ==> h.Valid() && IsGraphKept(old(h.cells), old(h.roots), h.cells, h.roots, f)
    ensures ok ==> f.Keys == ReachableSet(old(h.cells), RootTargets(old(h.roots)))
  {
    hide Heap.Valid, CannotFail, IsScavenged, IsGraphKept, IsUnmarked, ReachableSet, AreObjectsOk, AreRootsOk;
    ghost var cells, roots, survivorEnd := h.cells, h.roots, h.newSpace.survivorEnd;
    ValidCells(h);
    ok, f := Scavenge(h);
    if !ok {
      return;
    }
    ScavengeKeepsGraph(cells, roots, survivorEnd, h.cells, h.roots, h.newSpace.survivorEnd, f);
    f := CollectScavenged(h, cells, roots, f);
  }

  lemma GraphIsIsomorphic(cells: Cells, roots: seq<Value>, cells': Cells, roots': seq<Value>, f: Renaming)
    requires IsGraphKept(cells, roots, cells', roots', f)
    ensures IsIsomorphism(cells, roots, cells', roots', f)
  {
  }

  /** Of the objects that were in new space, those are in old space now that had survived a scavenge before. */
  ghost predicate HasAged(f: Renaming, survivorEnd: Addr) {
    forall a :: a in f && IsNew(a) ==> (IsOld(f[a]) <==> a < survivorEnd)
  }

  lemma ScavengeAges(cells: Cells, roots: seq<Value>, survivorEnd: Addr, cells': Cells, roots': seq<Value>, survivorEnd': Addr, f: Renaming, g: Renaming)
    requires IsScavenged(cells, roots, survivorEnd, cells', roots', survivorEnd', f)
    requires forall a :: a in g ==> a in f && g[a] == f[a]
    ensures HasAged(g, survivorEnd)
  {
    hide IsNew, IsIsomorphism, Kept;
  }

  /** The collections that `allocate` starts when new space is full. */
  method CollectForAllocation(h: Heap) returns (ok: bool, ghost f: Renaming)
    requires h.Valid()
    modifies h.Repr()
    ensures CannotFail(old(h.cells), old(h.newSpace.survivorEnd), h.oldSpace.mmap) ==> ok
    ensures ok ==> h.Valid() && IsGraphKept(old(h.cells), old(h.roots), h.cells, h.roots, f)
    // There is a full collection exactly when a promotion has failed, which made old space grow.
    ensures ok ==> old(h.oldSpace.pages) <= h.oldSpace.pages
    ensures ok ==> (h.newSpace.hasPromotionFailure <==> |old(h.oldSpace.pages)| < |h.oldSpace.pages|)
    ensures ok ==> f.Keys == if |old(h.oldSpace.pages)| < |h.oldSpace.pages| then ReachableSet(old(h.cells), RootTargets(old(h.roots)))
                             else Kept(old(h.cells), old(h.roots))
    ensures ok ==> HasAged(f, old(h.newSpace.survivorEnd))
    ensures ok ==> h.newSpace.end - h.newSpace.top == RoomAfterwards(old(h.cells), old(h.roots), old(BoundsOf(h)))
  {
    hide Heap.Valid, CannotFail, IsScavenged, IsGraphKept, IsUnmarked, ReachableSet, AreObjectsOk, AreRootsOk, Kept, HasAged, RoomAfterwards;
    ghost var cells, roots, survivorEnd := h.cells, h.roots, h.newSpace.survivorEnd;
    ValidCells(h);
    ok, f := Scavenge(h);
    if !ok {
      return;
    }
    ghost var cells', roots', survivorEnd', g := h.cells, h.roots, h.newSpace.survivorEnd, f;
    ScavengeKeepsGraph(cells, roots, survivorEnd, cells', roots', survivorEnd', g);
    if h.newSpace.hasPromotionFailure {
      f := CollectScavenged(h, cells, roots, f);
    }
    ScavengeAges(cells, roots, survivorEnd, cells', roots', survivorEnd', g, f);
  }

  /** There is no room in new space, neither now nor after a scavenge. */
  ghost predicate IsNewSpaceFull(cells: Cells, roots: seq<Value>, b: Bounds, size: nat) {
    b.end - b.top < size && RoomAfterwards(cells, roots, b) < size
  }

  /**
   allocate.  The memory is in old space exactly when it fits into new space neither now nor after a
   collection; when it fits now, nothing else changes.
   */
  method Allocate(h: Heap, size: nat) returns (ok: bool, p: Addr, ghost f: Renaming)
    requires h.Valid() && 0 < size
    modifies h.Repr()
    ensures CannotFail(old(h.cells), old(h.newSpace.survivorEnd), h.oldSpace.mmap) && Align(size) < FREE_LIST_SIZE * HEAP_OBJECT_ALIGN ==> ok
    ensures ok ==> IsAllocated(h, p, Align(size))
    ensures ok ==> IsGraphKept(old(h.cells), old(h.roots), h.cells, h.roots, f)
    ensures ok ==> (IsOld(p) <==> IsNewSpaceFull(old(h.cells), old(h.roots), old(BoundsOf(h)), Align(size)))
    ensures ok && IsOld(p) ==> HasAged(f, old(h.newSpace.survivorEnd))
    ensures Align(size) <= old(h.newSpace.end - h.newSpace.top) ==>
              ok && p == old(h.newSpace.top) && h.cells == old(h.cells) && h.roots == old(h.roots)
              && BoundsOf(h) == old(BoundsOf(h)).(top := p + Align(size))
  {
    hide Heap.Valid, CannotFail, IsGraphKept, AreObjectsOk, AreRootsOk, IsAllocated, IsNew, HasPages, HasAged, RoomAfterwards;
    var realSize := Align(size);
    assert IsCellSize(realSize);
    ValidCells(h);
    NothingIsKept(h.cells, h.roots);
    ok, f := true, Identity(h.cells.Keys);
    p := TryAllocateNew(h, realSize);
    if p == 0 {
      ok, f := CollectForAllocation(h);
      if !ok {
        return;
      }
      p := TryAllocateNew(h, realSize);
    }
    if p == 0 {
      PagesAreLeft(h, old(h.cells), old(h.newSpace.survivorEnd));
      ok, p := AllocateOld(h, realSize);
    }
  }

  lemma PagesAreLeft(h: Heap, cells: Cells, survivorEnd: Addr)
    ensures CannotFail(cells, survivorEnd, h.oldSpace.mmap) ==> HasPages(h.oldSpace.mmap)
  {
  }

  // ---------- allocateObject ----------

  function Nils(count: nat, nil: Value): seq<Value> {
    seq(count, _ => nil)
  }

  /** The object that allocateObject leaves at `p`; the hash is what fits into its 32 bits. */
  function NewObject(p: Addr, cls: Addr, shape: InstanceShape, size: nat, nil: Value): Object {
    Object(cls, p / 4 % 0x1_0000_0000, NO_TAGS, IndexedSize(shape, size),
           seq(shape.payloadSize, _ => 0), Nils(VarsCount(shape, size), nil), seq(if shape.isBytes then size else 0, _ => 0))
  }

  method NilVars(count: nat, nil: Value) returns (vars: seq<Value>)
    ensures vars == Nils(count, nil)
  {
    vars := [];
    var i := 0;
    while i < count
      invariant i <= count && vars == Nils(i, nil)
    {
      vars := vars + [nil];
      i := i + 1;
    }
  }

  /** The new object field by field. */
  lemma NewObjectFields(p: Addr, cls: Addr, shape: InstanceShape, size: nat, nil: Value)
    requires shape.isIndexed || size == 0
    ensures var o := NewObject(p, cls, shape, size, nil);
            && o.cls == cls && o.tags == NO_TAGS && o.hash == p / 4 % 0x1_0000_0000 && o.size == size
            && |o.vars| == shape.varsSize + (if shape.isIndexed && !shape.isBytes then size else 0)
            && |o.payload| == shape.payloadSize && |o.bytes| == (if shape.isBytes then size else 0)
            && (forall v :: v in o.vars ==> v == nil) && (forall w :: w in o.payload + o.bytes ==> w == 0)
  {
  }

  lemma NewObjectPointsToNew(p: Addr, cls: Addr, shape: InstanceShape, size: nat, nil: Value)
    ensures HasPointerToNew(NewObject(p, cls, shape, size, nil)) <==> IsNew(cls) || (PointsToNew(nil) && VarsCount(shape, size) != 0)
  {
    hide IsNew;
    var o := NewObject(p, cls, shape, size, nil);
    if VarsCount(shape, size) != 0 {
      assert o.vars[0] == nil && nil in o.vars;
    }
  }

  /** Objects stay what they are when an object is added at a fresh address. */
  lemma AddedCell(cells: Cells, p: Addr, o: Object, a: Addr)
    requires p !in cells && a in cells && IsObjectOk(cells, cells[a])
    ensures IsObjectOk(cells[p := o], cells[a]) && SizeOf(cells[p := o], a) == SizeOf(cells, a)
  {
    hide CellSize, IsClass, ShapeOf;
  }

  lemma AddedObject(cells: Cells, p: Addr, o: Object)
    requires AreObjectsOk(cells) && p !in cells && IsObjectOk(cells, o)
    ensures AreObjectsOk(cells[p := o])
    ensures NewSizes(cells[p := o]) == if IsNew(p) then NewSizes(cells)[p := SizeOf(cells[p := o], p)] else NewSizes(cells)
    ensures OldSizes(cells[p := o]) == if IsOld(p) then OldSizes(cells)[p := SizeOf(cells[p := o], p)] else OldSizes(cells)
  {
    hide SizeOf, IsNew, IsObjectOk, AreObjectsOk;
    forall a | a in cells
      ensures IsObjectOk(cells[p := o], cells[a]) && SizeOf(cells[p := o], a) == SizeOf(cells, a)
    {
      ObjectIsOk(cells, a);
      AddedCell(cells, p, o, a);
    }
    AddedIsOk(cells, p, o);
    AllAreOk(cells[p := o]);
  }

  lemma AllAreOk(cells: Cells)
    requires forall a :: a in cells ==> IsObjectOk(cells, cells[a])
    ensures AreObjectsOk(cells)
  {
  }

  lemma AddedIsOk(cells: Cells, p: Addr, o: Object)
    requires p !in cells && IsObjectOk(cells, o)
    ensures IsObjectOk(cells[p := o], o)
  {
    hide IsClass, ShapeOf;
  }

  lemma AddedTags(cells: Cells, p: Addr, o: Object, entries: seq<Addr>)
    requires AreTagsOk(cells) && AreListed(cells, entries) && IsRememberedSetComplete(cells) && p !in cells && o.tags == NO_TAGS
    ensures AreTagsOk(cells[p := o]) && AreListed(cells[p := o], entries)
    ensures IsRememberedSetComplete(cells[p := o]) <==> (IsOld(p) ==> !HasPointerToNew(o))
  {
    hide IsNew, HasPointerToNew;
    if IsOld(p) {
      assert p in cells[p := o];
    }
  }

  /** The image of a class has the same shape, and the new object is well-formed there. */
  lemma NewObjectIsOk(cells: Cells, p: Addr, cls: Addr, shape: InstanceShape, size: nat, nil: Value)
    requires cls in cells && IsClass(cells[cls]) && ShapeOf(cells[cls]) == shape && (shape.isIndexed || size == 0)
    requires nil.Pointer? ==> nil.target in cells
    ensures p !in cells ==> SizeOf(cells[p := NewObject(p, cls, shape, size, nil)], p) == Align(InstanceSize(shape, size))
    ensures IsObjectOk(cells, NewObject(p, cls, shape, size, nil))
  {
    hide Align;
  }

  lemma ClassIsMapped(f: Renaming, o: Object, c: Object)
    requires MapsObject(f, o, c) && IsClass(o)
    ensures IsClass(c) && ShapeOf(c) == ShapeOf(o)
  {
    assert MapsValue(f, o.vars[INSTANCE_SHAPE_VAR], c.vars[INSTANCE_SHAPE_VAR]);
  }

  /** Without a barrier, the heap is valid after initialisation exactly when no old object points to new space through it. */
  lemma InitialisedIsValid(h: Heap, cells: Cells, p: Addr, o: Object, size: nat)
    requires h.newSpace.Valid() && h.oldSpace.Valid() && h.rememberedSet.Valid()
    requires AreObjectsOk(cells) && AreRootsOk(cells, h.roots) && AreTagsOk(cells) && p !in cells && IsObjectOk(cells, o)
    requires AreWithin(if IsNew(p) then NewSizes(cells)[p := size] else NewSizes(cells), TagNew(h.newSpace.fromSpace), h.newSpace.top)
    requires h.oldSpace.used == (if IsOld(p) then OldSizes(cells)[p := size] else OldSizes(cells))
    requires AreListed(cells, h.RememberedEntries()) && IsRememberedSetComplete(cells)
    requires h.cells == cells[p := o] && SizeOf(h.cells, p) == size && o.tags == NO_TAGS
    ensures h.Valid() <==> (IsOld(p) ==> !HasPointerToNew(o))
  {
    hide PageSpace.Valid, RememberedSet.Valid, Scavenger.Valid, AreObjectsOk, AreTagsOk, AreListed, IsRememberedSetComplete, AreWithin, NewSizes, OldSizes, SizeOf, IsObjectOk, HasPointerToNew, IsNew;
    AddedObject(cells, p, o);
    AddedTags(cells, p, o, h.RememberedEntries());
    assert AreRootsOk(h.cells, h.roots);
  }

  /** The graph with the class held by a handle. */
  lemma HandleIsRoot(h: Heap, cls: Addr)
    requires h.Valid() && cls in h.cells
    ensures AreRootsOk(h.cells, h.roots + [Pointer(cls)])
  {
    hide PageSpace.Valid, RememberedSet.Valid, Scavenger.Valid, AreObjectsOk, AreTagsOk, AreListed, IsRememberedSetComplete, AreWithin, NewSizes, OldSizes;
  }

  /** openHandleScope and scopeHandle. */
  method OpenHandle(h: Heap, cls: Addr)
    requires h.Valid() && cls in h.cells
    modifies h`roots
    ensures h.Valid() && h.roots == old(h.roots) + [Pointer(cls)]
  {
    hide FreeList.Valid, ArePages, IsMmap, Tiles, AreBlocks, Scavenger.Valid, AreObjectsOk, AreTagsOk, AreListed, IsRememberedSetComplete, AreWithin, NewSizes, OldSizes, AreRootsOk;
    HandleIsRoot(h, cls);
    h.roots := h.roots + [Pointer(cls)];
  }

  /** The object was allocated since the last scavenge. */
  predicate IsYoung(a: Addr, survivorEnd: Addr) {
    IsNew(a) && survivorEnd <= a
  }

  /** The bytes that an instance takes. */
  function NewSize(cells: Cells, cls: Addr, size: nat): nat
    requires cls in cells && IsClass(cells[cls])
  {
    Align(InstanceSize(ShapeOf(cells[cls]), size))
  }

  /** The new object goes to old space, and its class or a variable will still be in new space then. */
  ghost predicate IsBarrierMissed(cells: Cells, roots: seq<Value>, b: Bounds, nil: nat, cls: Addr, size: nat)
    requires cls in cells && IsClass(cells[cls]) && nil < |roots| && roots[nil].Pointer?
  {
    && IsNewSpaceFull(cells, roots + [Pointer(cls)], b, NewSize(cells, cls, size))
    && (IsYoung(cls, b.survivorEnd) || (IsYoung(roots[nil].target, b.survivorEnd) && VarsCount(ShapeOf(cells[cls]), size) != 0))
  }

  lemma YoungStaysNew(f: Renaming, survivorEnd: Addr, a: Addr)
    requires HasAged(f, survivorEnd) && a in f && (IsOld(a) ==> f[a] == a)
    ensures IsNew(f[a]) <==> IsYoung(a, survivorEnd)
  {
  }

  /** After the collections: where nil and the class are, and that the class is one. */
  lemma HandlesAreMapped(cells: Cells, roots: seq<Value>, cells': Cells, roots': seq<Value>, f: Renaming, nil: nat)
    requires IsGraphKept(cells, roots, cells', roots', f) && AreRootsOk(cells', roots')
    requires nil < |roots| - 1 && roots[nil].Pointer? && roots[|roots| - 1].Pointer?
    requires roots[|roots| - 1].target in cells && IsClass(cells[roots[|roots| - 1].target])
    ensures |roots'| == |roots| && roots'[nil].Pointer? && roots'[nil].target in cells' && roots'[|roots| - 1].Pointer?
    ensures var cls, cls' := roots[|roots| - 1].target, roots'[|roots| - 1].target;
            && cls in f && f[cls] == cls' && cls' in cells' && IsClass(cells'[cls']) && ShapeOf(cells'[cls']) == ShapeOf(cells[cls])
            && (IsOld(cls) ==> cls' == cls)
  {
    hide IsClass, ShapeOf, MapsObject, IsOnto, IsNew;
    var cls := roots[|roots| - 1].target;
    assert MapsValue(f, roots[nil], roots'[nil]) && MapsValue(f, roots[|roots| - 1], roots'[|roots| - 1]);
    ClassIsMapped(f, cells[cls], cells'[f[cls]]);
  }

  lemma NilIsMapped(cells: Cells, roots: seq<Value>, cells': Cells, roots': seq<Value>, f: Renaming, nil: nat)
    requires IsGraphKept(cells, roots, cells', roots', f) && nil < |roots| == |roots'| && roots[nil].Pointer? && roots'[nil].Pointer?
    ensures roots[nil].target in f && roots'[nil].target == f[roots[nil].target]
    ensures IsOld(roots[nil].target) ==> f[roots[nil].target] == roots[nil].target
  {
    hide MapsObject, MapsObjects, IsInjective, IsOnto, IsNew;
    assert MapsValue(f, roots[nil], roots'[nil]);
  }

  /**
   allocateObject.  The class and nil are stored without the write barrier, which leaves the heap
   invalid exactly when the object goes to old space and they are young.
   */
  method AllocateObject(h: Heap, nil: nat, cls: Addr, size: nat) returns (ok: bool, p: Addr, ghost f: Renaming)
    requires h.Valid() && cls in h.cells && IsClass(h.cells[cls]) && (ShapeOf(h.cells[cls]).isIndexed || size == 0)
    requires nil < |h.roots| && h.roots[nil].Pointer?
    modifies h.Repr()
    ensures CannotFail(old(h.cells), old(h.newSpace.survivorEnd), h.oldSpace.mmap) &&
            Align(InstanceSize(ShapeOf(old(h.cells[cls])), size)) < FREE_LIST_SIZE * HEAP_OBJECT_ALIGN
            ==> ok
    ensures ok ==> p in h.cells && cls in f && nil < |h.roots|
    ensures ok ==> IsGraphKept(old(h.cells), old(h.roots) + [Pointer(cls)], h.cells - {p}, h.roots + [Pointer(f[cls])], f)
    ensures ok ==> h.cells[p] == NewObject(p, f[cls], ShapeOf(old(h.cells[cls])), size, h.roots[nil])
    // Its variables are nil; untraced words and bytes are zeros.
    ensures ok ==> var o, shape := h.cells[p], ShapeOf(old(h.cells[cls]));
              && o.cls == f[cls] && o.tags == NO_TAGS && o.hash == p / 4 % 0x1_0000_0000 && o.size == size
              && |o.vars| == shape.varsSize + (if shape.isIndexed && !shape.isBytes then size else 0)
              && |o.payload| == shape.payloadSize && |o.bytes| == (if shape.isBytes then size else 0)
              && (forall v :: v in o.vars ==> v == h.roots[nil]) && (forall w :: w in o.payload + o.bytes ==> w == 0)
    ensures ok ==> (h.Valid() <==> (IsOld(p) ==> !HasPointerToNew(h.cells[p])))
    ensures ok ==> (h.Valid() <==> !IsBarrierMissed(old(h.cells), old(h.roots), old(BoundsOf(h)), nil, cls, size))
    ensures NewSize(old(h.cells), cls, size) <= old(h.newSpace.end - h.newSpace.top) ==>
              ok && p == old(h.newSpace.top) && h.cells - {p} == old(h.cells) && h.roots == old(h.roots)
              && h.cells[p].cls == cls && BoundsOf(h) == old(BoundsOf(h)).(top := p + NewSize(old(h.cells), cls, size))
  {
    hide Heap.Valid, CannotFail, IsGraphKept, AreObjectsOk, AreRootsOk, IsAllocated, IsNew, HasPages, ShapeOf, IsClass, Align, HasPointerToNew, HasAged, IsYoung, IsNewSpaceFull;
    var shape := ShapeOf(h.cells[cls]);
    ghost var cells, roots := h.cells, h.roots + [Pointer(cls)];
    InstanceIsNotEmpty(h.cells[cls], size);
    OpenHandle(h, cls);
    ok, p, f := Allocate(h, InstanceSize(shape, size));
    if !ok {
      return;
    }
    ghost var cells', roots' := h.cells, h.roots;
    AllocatedRoots(h, p, Align(InstanceSize(shape, size)));
    HandlesAreMapped(cells, roots, cells', roots', f, nil);
    NilIsMapped(cells, roots, cells', roots', f, nil);
    var cls' := h.roots[|h.roots| - 1].target;
    Initialise(h, p, cls', shape, size, nil);
    assert h.cells - {p} == cells' && h.roots + [Pointer(f[cls])] == roots';
    NewObjectPointsToNew(p, cls', shape, size, h.roots[nil]);
    NewObjectFields(p, cls', shape, size, h.roots[nil]);
    if IsOld(p) {
      YoungStaysNew(f, old(h.newSpace.survivorEnd), cls);
      YoungStaysNew(f, old(h.newSpace.survivorEnd), roots[nil].target);
    }
  }

  lemma InstanceIsNotEmpty(cls: Object, size: nat)
    requires IsClass(cls)
    ensures 0 < InstanceSize(ShapeOf(cls), size)
  {
  }

  lemma AllocatedRoots(h: Heap, p: Addr, size: nat)
    requires IsAllocated(h, p, size)
    ensures AreRootsOk(h.cells, h.roots) && p !in h.cells
  {
  }

  /** The header and the variables are written, and the handle scope is closed. */
  method Initialise(h: Heap, p: Addr, cls: Addr, shape: InstanceShape, size: nat, nil: nat)
    requires IsAllocated(h, p, Align(InstanceSize(shape, size))) && (shape.isIndexed || size == 0)
    requires nil < |h.roots| - 1 && h.roots[nil].Pointer? && h.roots[nil].target in h.cells
    requires cls in h.cells && IsClass(h.cells[cls]) && ShapeOf(h.cells[cls]) == shape
    modifies h`cells, h`roots
    ensures h.roots == old(h.roots)[..|old(h.roots)| - 1]
    ensures h.cells == old(h.cells)[p := NewObject(p, cls, shape, size, h.roots[nil])]
    ensures h.Valid() <==> (IsOld(p) ==> !HasPointerToNew(h.cells[p]))
  {
    hide FreeList.Valid, ArePages, IsMmap, Tiles, AreBlocks, Scavenger.Valid, AreObjectsOk, AreTagsOk, AreListed, IsRememberedSetComplete, AreWithin, NewSizes, OldSizes, SizeOf, IsObjectOk, HasPointerToNew, IsNew, Align, TagNew, Heap.Valid, IsClass, ShapeOf;
    ghost var cells := h.cells;
    var vars := NilVars(VarsCount(shape, size), h.roots[nil]);
    NewObjectIsOk(h.cells, p, cls, shape, size, h.roots[nil]);
    var hash := p / 4 % 0x1_0000_0000;
    h.cells := h.cells[p := Object(cls, hash, NO_TAGS, IndexedSize(shape, size), seq(shape.payloadSize, _ => 0), vars,
                                   seq(if shape.isBytes then size else 0, _ => 0))];
    h.roots := h.roots[..|h.roots| - 1];
    InitialisedIsValid(h, cells, p, h.cells[p], Align(InstanceSize(shape, size)));
  }

  // ---------- Stores ----------

  function WithVar(o: Object, i: nat, v: Value): Object {
    if i < |o.vars| then o.(vars := o.vars[i := v]) else o
  }

  /** A variable that may be overwritten: any but the instance shape of a class. */
  predicate IsVariable(cells: Cells, a: Addr, i: nat) {
    a in cells && i < |cells[a].vars| && !cells[a].vars[i].Shape?
  }

  lemma ChangedObjectIsOk(cells: Cells, a: Addr, i: nat, v: Value, x: Addr)
    requires IsVariable(cells, a, i) && !v.Shape? && (v.Pointer? ==> v.target in cells) && x in cells && IsObjectOk(cells, cells[x])
    ensures var cells' := cells[a := WithVar(cells[a], i, v)]; IsObjectOk(cells', cells'[x]) && SizeOf(cells', x) == SizeOf(cells, x)
  {
    hide CellSize, VarsCount;
    assert IsClass(cells[cells[x].cls]) && (i == INSTANCE_SHAPE_VAR ==> cells[x].cls != a);
  }

  lemma ChangedObjects(cells: Cells, a: Addr, i: nat, v: Value)
    requires AreObjectsOk(cells) && IsVariable(cells, a, i) && !v.Shape? && (v.Pointer? ==> v.target in cells)
    ensures var cells' := cells[a := WithVar(cells[a], i, v)];
            AreObjectsOk(cells') && NewSizes(cells') == NewSizes(cells) && OldSizes(cells') == OldSizes(cells)
  {
    hide SizeOf, IsNew, IsObjectOk, AreObjectsOk, WithVar;
    var cells' := cells[a := WithVar(cells[a], i, v)];
    forall x | x in cells
      ensures IsObjectOk(cells', cells'[x]) && SizeOf(cells', x) == SizeOf(cells, x)
    {
      ObjectIsOk(cells, x);
      ChangedObjectIsOk(cells, a, i, v, x);
    }
    AllAreOk(cells');
  }

  /** A variable store needs no barrier when the object is new or remembered, or the value no pointer to new space. */
  lemma ChangedTags(cells: Cells, a: Addr, i: nat, v: Value, entries: seq<Addr>)
    requires AreTagsOk(cells) && AreListed(cells, entries) && IsRememberedSetComplete(cells) && a in cells
    requires IsNew(a) || cells[a].tags.remembered || !PointsToNew(v)
    ensures var cells' := cells[a := WithVar(cells[a], i, v)];
            AreTagsOk(cells') && AreListed(cells', entries) && IsRememberedSetComplete(cells')
  {
    hide IsNew, HasPointerToNew;
    if HasPointerToNew(WithVar(cells[a], i, v)) && !PointsToNew(v) {
      ChangedPointers(cells[a], i, v);
    }
  }

  lemma ChangedPointers(o: Object, i: nat, v: Value)
    requires HasPointerToNew(WithVar(o, i, v)) && !PointsToNew(v)
    ensures HasPointerToNew(o)
  {
    hide IsNew;
  }

  /** The store itself. */
  method SetVar(h: Heap, a: Addr, i: nat, v: Value)
    requires h.Valid() && IsVariable(h.cells, a, i) && !v.Shape? && (v.Pointer? ==> v.target in h.cells)
    requires IsNew(a) || h.cells[a].tags.remembered || !PointsToNew(v)
    modifies h`cells
    ensures h.Valid() && h.cells == old(h.cells)[a := old(h.cells)[a].(vars := old(h.cells)[a].vars[i := v])]
  {
    hide FreeList.Valid, ArePages, IsMmap, Tiles, AreBlocks, Scavenger.Valid, AreObjectsOk, AreTagsOk, AreListed, IsRememberedSetComplete, AreWithin, NewSizes, OldSizes, IsNew;
    ChangedObjects(h.cells, a, i, v);
    ChangedTags(h.cells, a, i, v, h.RememberedEntries());
    h.cells := h.cells[a := h.cells[a].(vars := h.cells[a].vars[i := v])];
  }

  lemma RememberedObjects(cells: Cells, a: Addr, entries: seq<Addr>)
    requires AreObjectsOk(cells) && AreTagsOk(cells) && AreListed(cells, entries) && IsRememberedSetComplete(cells)
    requires a in cells && IsOld(a) && !cells[a].tags.remembered
    ensures var cells' := cells[a := Remembered(cells[a])];
            && AreObjectsOk(cells') && NewSizes(cells') == NewSizes(cells) && OldSizes(cells') == OldSizes(cells)
            && AreTagsOk(cells') && AreListed(cells', entries + [a]) && IsRememberedSetComplete(cells')
  {
    hide SizeOf, IsNew, IsObjectOk, AreObjectsOk, HasPointerToNew;
    var cells' := cells[a := Remembered(cells[a])];
    forall x | x in cells
      ensures IsObjectOk(cells', cells'[x]) && SizeOf(cells', x) == SizeOf(cells, x)
    {
      ObjectIsOk(cells, x);
      RememberedObjectIsOk(cells, a, x);
    }
    AllAreOk(cells');
    SamePointers(cells[a], cells'[a]);
  }

  lemma RememberedObjectIsOk(cells: Cells, a: Addr, x: Addr)
    requires a in cells && x in cells && IsObjectOk(cells, cells[x])
    ensures var cells' := cells[a := Remembered(cells[a])]; IsObjectOk(cells', cells'[x]) && SizeOf(cells', x) == SizeOf(cells, x)
  {
    hide CellSize, VarsCount;
  }

  /** rememberedSetAdd, called by the barrier. */
  method Remember(h: Heap, a: Addr)
    requires h.Valid() && a in h.cells && IsOld(a) && !h.cells[a].tags.remembered
    modifies h`cells, h.rememberedSet
    ensures h.Valid() && h.cells == old(h.cells)[a := Remembered(old(h.cells)[a])]
    ensures h.RememberedEntries() == old(h.RememberedEntries()) + [a]
  {
    hide FreeList.Valid, ArePages, IsMmap, Tiles, AreBlocks, Scavenger.Valid, AreObjectsOk, AreTagsOk, AreListed, IsRememberedSetComplete, AreWithin, NewSizes, OldSizes, IsNew;
    RememberedObjects(h.cells, a, h.RememberedEntries());
    h.RememberedSetAdd(a);
  }

  /** rawObjectStorePtr: an old object that will point to new space is remembered first. */
  method RawObjectStorePtr(h: Heap, a: Addr, i: nat, value: Addr)
    requires h.Valid() && IsVariable(h.cells, a, i) && value in h.cells
    modifies h`cells, h.rememberedSet
    ensures h.Valid() && h.cells.Keys == old(h.cells).Keys
    ensures forall x :: x in h.cells && x != a ==> h.cells[x] == old(h.cells)[x]
    ensures h.cells[a] == old(h.cells)[a].(vars := old(h.cells)[a].vars[i := Pointer(value)], tags := h.cells[a].tags)
    ensures h.cells[a].tags == old(h.cells)[a].tags.(remembered := old(h.cells)[a].tags.remembered || (IsOld(a) && IsNew(value)))
    ensures h.RememberedEntries() == old(h.RememberedEntries()) + (if IsOld(a) && IsNew(value) && !old(h.cells)[a].tags.remembered then [a] else [])
  {
    hide Heap.Valid, IsNew;
    if IsOld(a) && IsNew(value) && !h.cells[a].tags.remembered {
      Remember(h, a);
    }
    SetVar(h, a, i, Pointer(value));
  }
}

/** Marking followed by sweeping (markAndSweep in vm/Heap.c). */
module MarkingAndSweeping {
  import opened ObjectModel
  import opened FreeLists
  import opened PageSpaces
  import opened RememberedSets
  import opened Heaps
  import opened Reachability
  import opened Isomorphisms
  import opened Markings
  import opened GarbageCollection
  import opened Sweeping

  ghost predicate IsUnmarked(cells: Cells) {
    forall a :: a in cells ==> !cells[a].tags.marked
  }

  /**
   What markAndSweep makes of the objects: the reachable ones are left, with the contents they had.
   New objects keep their mark, and TAG_REMEMBERED is on exactly the old ones that point to new space.
   */
  ghost predicate IsCollected(before: Cells, roots: seq<Value>, cells: Cells) {
    && cells.Keys == ReachableSet(before, RootTargets(roots))
    && forall a :: a in cells ==> a in before && IsCollectedObject(before[a], cells[a], IsNew(a))
  }

  predicate IsCollectedObject(o: Object, c: Object, isNew: bool) {
    HasSameContents(o, c) && (c.tags.marked <==> isNew) && (c.tags.remembered <==> !isNew && HasPointerToNew(o))
  }

  /** The model forgets dead objects: the free cells of old space, and what is unmarked in new space. */
  function WithoutDead(cells: Cells, spaces: Spaces): Cells {
    map a | a in cells && (if IsNew(a) then cells[a].tags.marked else a !in spaces) :: cells[a]
  }

  lemma MarkedCells(before: Cells, start: set<Addr>, m: Marking, a: Addr)
    requires IsMarking(before, start, m) && a in before && a in m.cells
    ensures HasSameContents(before[a], m.cells[a])
    ensures m.cells[a].tags.marked <==> a in ReachableSet(before, start)
    ensures m.cells[a].tags.marked ==> (m.cells[a].tags.remembered <==> IsOld(a) && HasPointerToNew(before[a]))
  {
    hide ReachableSet, HasPointerToNew, IsNew;
    assert IsMarked(m.cells, a) <==> a in ReachableSet(before, start);
  }

  /** What is left after the sweep. */
  lemma SweptIsCollected(before: Cells, roots: seq<Value>, m: Marking, used: map<Addr, nat>, passed: set<Addr>,
                         cells: Cells, used': map<Addr, nat>, spaces': Spaces)
    requires IsMarking(before, RootTargets(roots), m) && used == OldSizes(before) && used.Keys <= passed
    requires cells == SweptCells(m.cells, used, passed) && used' == SweptUsed(m.cells, used, passed)
    requires used'.Keys !! spaces'.Keys && used.Keys <= used'.Keys + spaces'.Keys
    ensures IsCollected(before, roots, WithoutDead(cells, spaces'))
    ensures used'.Keys == set a | a in WithoutDead(cells, spaces') && IsOld(a)
    ensures forall a :: a in used' ==> used'[a] == SizeOf(before, a)
  {
    hide ReachableSet, IsMarking, SizeOf, IsNew, HasPointerToNew;
    var start, rest := RootTargets(roots), WithoutDead(cells, spaces');
    KeysAreSame(before, start, m);
    forall a | a in before
      ensures a in rest <==> a in ReachableSet(before, start)
      ensures a in rest ==> IsCollectedObject(before[a], rest[a], IsNew(a))
      ensures a in used' <==> a in ReachableSet(before, start) && IsOld(a)
    {
      MarkedCells(before, start, m, a);
      SweptCell(before, start, m, used, passed, cells, used', spaces', a);
    }
    assert forall a :: a in used' || a in rest ==> a in before;
  }

  lemma SweptCell(before: Cells, start: set<Addr>, m: Marking, used: map<Addr, nat>, passed: set<Addr>,
                  cells: Cells, used': map<Addr, nat>, spaces': Spaces, a: Addr)
    requires m.cells.Keys == before.Keys && used == OldSizes(before) && used.Keys <= passed && a in before
    requires cells == SweptCells(m.cells, used, passed) && used' == SweptUsed(m.cells, used, passed)
    requires used'.Keys !! spaces'.Keys && used.Keys <= used'.Keys + spaces'.Keys
    ensures a in WithoutDead(cells, spaces') <==> m.cells[a].tags.marked
    ensures a in WithoutDead(cells, spaces') ==>
              WithoutDead(cells, spaces')[a] == if IsOld(a) then UnmarkedObject(m.cells[a]) else m.cells[a]
    ensures a in used' <==> IsOld(a) && m.cells[a].tags.marked
  {
    hide SizeOf, IsNew;
    assert a in used <==> IsOld(a);
  }

  lemma KeysAreSame(before: Cells, start: set<Addr>, m: Marking)
    requires IsMarking(before, start, m)
    ensures m.cells.Keys == before.Keys && ReachableSet(before, start) <= before.Keys
  {
  }

  lemma CollectedObjectIsOk(before: Cells, roots: seq<Value>, cells: Cells, a: Addr)
    requires AreObjectsOk(before) && AreRootsOk(before, roots) && IsCollected(before, roots, cells) && a in cells
    ensures IsObjectOk(cells, cells[a]) && SizeOf(cells, a) == SizeOf(before, a)
  {
    hide AreObjectsOk, AreRootsOk, ReachableSet, IsNew, HasPointerToNew, CellSize, IsClosed;
    CollectedIsClosed(before, roots);
    assert IsObjectOk(before, before[a]) by { ObjectIsOk(before, a); }
    CollectedEdge(before, roots, a, before[a].cls);
    forall i | 0 <= i < |cells[a].vars| && cells[a].vars[i].Pointer?
      ensures cells[a].vars[i].target in cells
    {
      assert cells[a].vars[i] in before[a].vars;
      CollectedEdge(before, roots, a, cells[a].vars[i].target);
    }
    var cls := before[a].cls;
    assert IsCollectedObject(before[cls], cells[cls], IsNew(cls));
  }

  lemma ObjectIsOk(cells: Cells, a: Addr)
    requires AreObjectsOk(cells) && a in cells
    ensures IsObjectOk(cells, cells[a])
  {
  }

  lemma CollectedIsClosed(before: Cells, roots: seq<Value>)
    requires AreObjectsOk(before) && AreRootsOk(before, roots)
    ensures IsClosed(before, ReachableSet(before, RootTargets(roots))) && RootTargets(roots) <= ReachableSet(before, RootTargets(roots))
  {
    hide AreObjectsOk, ReachableSet, IsClosed;
    ObjectsAreClosed(before);
    ReachableIsClosed(before, RootTargets(roots));
  }

  lemma CollectedEdge(before: Cells, roots: seq<Value>, a: Addr, b: Addr)
    requires IsClosed(before, ReachableSet(before, RootTargets(roots)))
    requires a in ReachableSet(before, RootTargets(roots)) && a in before && HasEdge(before[a], b)
    ensures b in ReachableSet(before, RootTargets(roots))
  {
    hide ReachableSet, HasEdge;
  }

  /** The invariant of the heap, as far as it is about objects. */
  lemma CollectedAreOk(before: Cells, roots: seq<Value>, cells: Cells)
    requires AreObjectsOk(before) && AreRootsOk(before, roots) && AreTagsOk(before) && IsCollected(before, roots, cells)
    ensures AreObjectsOk(cells) && AreRootsOk(cells, roots) && AreTagsOk(cells) && IsRememberedSetComplete(cells)
    ensures forall a :: a in cells ==> SizeOf(cells, a) == SizeOf(before, a)
  {
    hide ReachableSet, IsNew, IsObjectOk, SizeOf, IsClosed, HasPointerToNew;
    forall a | a in cells
      ensures IsObjectOk(cells, cells[a]) && SizeOf(cells, a) == SizeOf(before, a)
      ensures !cells[a].tags.forwarded && (IsOld(a) ==> !cells[a].tags.marked)
      ensures IsOld(a) && HasPointerToNew(cells[a]) ==> cells[a].tags.remembered
    {
      CollectedObjectIsOk(before, roots, cells, a);
      SamePointers(before[a], cells[a]);
    }
    CollectedIsClosed(before, roots);
    forall i | 0 <= i < |roots| && roots[i].Pointer?
      ensures roots[i].target in cells
    {
      assert roots[i].target in RootTargets(roots) by { assert roots[i] in roots; }
    }
  }

  lemma SamePointers(o: Object, c: Object)
    requires HasSameContents(o, c)
    ensures HasPointerToNew(c) <==> HasPointerToNew(o)
  {
  }

  lemma CollectedAreListed(before: Cells, roots: seq<Value>, m: Marking, cells: Cells)
    requires IsMarking(before, RootTargets(roots), m) && IsCollected(before, roots, cells)
    ensures AreListed(cells, m.entries)
  {
    hide ReachableSet, IsNew, HasPointerToNew, AreSameContents;
  }

  lemma CollectedSizes(before: Cells, cells: Cells, used': map<Addr, nat>, lo: Addr, top: Addr)
    requires cells.Keys <= before.Keys && forall a :: a in cells ==> SizeOf(cells, a) == SizeOf(before, a)
    requires used'.Keys == (set a | a in cells && IsOld(a)) && forall a :: a in used' ==> used'[a] == SizeOf(before, a)
    requires AreWithin(NewSizes(before), lo, top)
    ensures OldSizes(cells) == used' && AreWithin(NewSizes(cells), lo, top)
  {
    hide SizeOf, IsNew, IsNewAligned;
    assert forall a :: a in NewSizes(cells) ==> a in NewSizes(before) && NewSizes(cells)[a] == NewSizes(before)[a];
  }

  function Identity(domain: set<Addr>): Renaming {
    map a | a in domain :: a
  }

  /** The object graph that the roots span is left as it was. */
  lemma CollectionIsIsomorphism(before: Cells, roots: seq<Value>, cells: Cells)
    requires AreObjectsOk(before) && AreRootsOk(before, roots) && IsCollected(before, roots, cells)
    ensures IsIsomorphism(before, roots, cells, roots, Identity(cells.Keys))
  {
    hide AreObjectsOk, AreRootsOk, ReachableSet, IsNew, HasPointerToNew, IsObjectOk, SizeOf, MapsObject;
    var f := Identity(cells.Keys);
    forall a | a in f
      ensures a in before && a in cells && MapsObject(f, before[a], cells[a])
    {
      CollectedObjectIsOk(before, roots, cells, a);
      OkIsMapped(cells, before[a], cells[a]);
    }
    CollectedIsClosed(before, roots);
    IdentityMapsRoots(cells.Keys, roots);
    forall b | b in cells
      ensures IsImageOfSome(f, b)
    {
      assert f[b] == b;
    }
  }

  lemma IdentityMapsRoots(domain: set<Addr>, roots: seq<Value>)
    requires RootTargets(roots) <= domain
    ensures MapsRoots(Identity(domain), roots, roots)
  {
    forall i | 0 <= i < |roots|
      ensures MapsValue(Identity(domain), roots[i], roots[i])
    {
      assert roots[i].Pointer? ==> roots[i].target in RootTargets(roots);
    }
  }

  lemma OkIsMapped(cells: Cells, o: Object, c: Object)
    requires HasSameContents(o, c) && IsObjectOk(cells, c)
    ensures MapsObject(Identity(cells.Keys), o, c)
  {
  }

  lemma ValidIsScope(h: Heap)
    requires h.Valid()
    ensures IsScope(h.newSpace, GarbageCollection.Scope(h.cells, RootTargets(h.roots)))
  {
    hide PageSpace.Valid, RememberedSet.Valid, IsObjectOk, AreTagsOk, AreListed, IsRememberedSetComplete, OldSizes, AreWithin, NewSizes, TagNew, Capacity;
    forall a | a in RootTargets(h.roots)
      ensures a in h.cells
    {
      var i :| 0 <= i < |h.roots| && h.roots[i] == Pointer(a);
    }
  }

  lemma MarkedAreSized(before: Cells, start: set<Addr>, m: Marking, used: map<Addr, nat>)
    requires AreObjectsOk(before) && IsMarking(before, start, m) && used == OldSizes(before)
    ensures AreSized(m.cells, used)
  {
    hide AreObjectsOk, IsMarking, IsNew, CellSize, IsSized;
    SameContents(before, start, m);
    forall a | a in used
      ensures IsSized(m.cells, a, used[a])
    {
      ObjectIsOk(before, a);
      SameSize(before, m.cells, a);
    }
  }

  lemma SameContents(before: Cells, start: set<Addr>, m: Marking)
    requires IsMarking(before, start, m)
    ensures AreSameContents(before, m.cells)
  {
  }

  lemma SameSize(before: Cells, cells: Cells, a: Addr)
    requires AreSameContents(before, cells) && a in before && IsObjectOk(before, before[a])
    ensures IsSized(cells, a, SizeOf(before, a))
  {
    hide CellSize;
    assert HasSameContents(before[a], cells[a]) && HasSameContents(before[before[a].cls], cells[before[a].cls]);
  }

  /** markAndSweep.  A scavenge has to come first, because it clears the marks of new objects. */
  method MarkAndSweep(h: Heap)
    requires h.Valid() && IsUnmarked(h.cells)
    modifies h`cells, h.rememberedSet, h.oldSpace.Repr()
    ensures h.Valid() && IsCollected(old(h.cells), h.roots, h.cells)
    ensures h.oldSpace.used.Keys == set a | a in ReachableSet(old(h.cells), RootTargets(h.roots)) && IsOld(a)
    ensures h.oldSpace.Extents() == old(h.oldSpace.Extents()) && h.oldSpace.pages == old(h.oldSpace.pages)
  {
    hide Tiles, ArePages, IsMmap, FreeList.Valid, AreBlocks, Scavenger.ValidSpaces, ReachableSet, AreObjectsOk, AreRootsOk, AreTagsOk, AreListed, IsRememberedSetComplete;
    hide NewSizes, AreWithin, IsMarking, IsScope, AreSized, Sweeping.IsSwept, IsCollected, TagNew, SizeOf, IsNew;
    ghost var before, used := h.cells, h.oldSpace.used;
    ValidIsScope(h);
    h.rememberedSet.Reset();
    ghost var added := MarkRoots(h);
    ghost var m := Marking(h.cells, [], added, h.RememberedEntries());
    MarkedAreSized(before, RootTargets(h.roots), m, used);
    ghost var spaces, passed := h.oldSpace.freeList.spaces, h.oldSpace.Extents().Keys;
    Sweep(h);
    FinishSweep(h, before, m, used, spaces, passed);
  }

  /** The model forgets the dead objects. */
  method FinishSweep(h: Heap, ghost before: Cells, ghost m: Marking, ghost used: map<Addr, nat>, ghost spaces: Spaces, ghost passed: set<Addr>)
    requires h.newSpace.Valid() && h.oldSpace.Valid() && h.rememberedSet.Valid() && h.RememberedEntries() == m.entries
    requires AreObjectsOk(before) && AreRootsOk(before, h.roots) && AreTagsOk(before)
    requires AreWithin(NewSizes(before), TagNew(h.newSpace.fromSpace), h.newSpace.top) && used == OldSizes(before)
    requires IsMarking(before, RootTargets(h.roots), m) && used.Keys <= passed
    requires Sweeping.IsSwept(m.cells, used, spaces, passed, h.cells, h.oldSpace.used, h.oldSpace.freeList.spaces)
    requires used.Keys <= h.oldSpace.Extents().Keys
    modifies h`cells
    ensures h.Valid() && IsCollected(before, h.roots, h.cells)
    ensures h.oldSpace.used.Keys == set a | a in ReachableSet(before, RootTargets(h.roots)) && IsOld(a)
  {
    hide Tiles, ArePages, IsMmap, FreeList.Valid, AreBlocks, Scavenger.ValidSpaces, ReachableSet, AreObjectsOk, AreRootsOk, AreTagsOk, AreListed, IsRememberedSetComplete;
    hide NewSizes, OldSizes, AreWithin, IsMarking, TagNew, SizeOf, IsNew, WithoutDead, AreFlipped, SweptCells, SweptUsed, IsCollectedObject;
    SweptIsCollected(before, h.roots, m, used, passed, h.cells, h.oldSpace.used, h.oldSpace.freeList.spaces);
    h.cells := WithoutDead(h.cells, h.oldSpace.freeList.spaces);
    CollectedAreOk(before, h.roots, h.cells);
    CollectedAreListed(before, h.roots, m, h.cells);
    KeysAreSame(before, RootTargets(h.roots), m);
    CollectedSizes(before, h.cells, h.oldSpace.used, TagNew(h.newSpace.fromSpace), h.newSpace.top);
  }
}

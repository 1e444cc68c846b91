/** What the invariant of the heap means for pointers, and what scavenges do over time. */
module HeapTheorems {
  import opened ObjectModel
  import opened FreeLists
  import opened PageSpaces
  import opened RememberedSets
  import opened Heaps
  import opened Reachability
  import opened Isomorphisms
  import opened Scavenging
  import opened MarkingAndSweeping
  import opened HeapOperations

  /** In the half of new space that is in use, below its top. */
  ghost predicate IsInCurrentHalf(h: Heap, b: Addr)
    reads h, h.newSpace
  {
    && TagNew(h.newSpace.fromSpace) <= b < h.newSpace.top
    && !(h.newSpace.toSpace <= b < h.newSpace.toSpace + h.newSpace.size)
  }

  /** A cell of a page of old space that is not free. */
  ghost predicate IsInUse(h: Heap, b: Addr)
    reads h, h.oldSpace, h.oldSpace.freeList
  {
    b in h.oldSpace.used && b !in h.oldSpace.freeList.spaces && IsOnSomePage(b, h.oldSpace.pages)
  }

  /** verifyHeap succeeds, and more: no pointer leads to a free cell, to the evacuated half or into the unused part of the current one. */
  lemma PointersAreLive(h: Heap, a: Addr, b: Addr)
    requires h.Valid()
    requires (a in h.cells && HasEdge(h.cells[a], b)) || b in RootTargets(h.roots)
    ensures b in h.cells && if IsNew(b) then IsInCurrentHalf(h, b) else IsInUse(h, b)
  {
    hide IsNew, Heap.Valid, AreObjectsOk, AreRootsOk, HasEdge;
    ValidCells(h);
    ObjectsAreClosed(h.cells);
    RootsAreCells(h.cells, h.roots);
    if IsNew(b) {
      NewObjectIsInCurrentHalf(h, b);
    } else {
      OldObjectIsInUse(h, b);
    }
  }

  /** The object has the untraced words and the bytes that its class tells. */
  predicate HasItsContents(cells: Cells, o: Object) {
    && o.cls in cells && IsClass(cells[o.cls])
    && |o.payload| == ShapeOf(cells[o.cls]).payloadSize
    && |o.bytes| == if ShapeOf(cells[o.cls]).isIndexed && ShapeOf(cells[o.cls]).isBytes then o.size else 0
  }

  /** Header and contents of an object end before the next object of its space starts, and in new space before the top. */
  lemma ContentsAreApart(h: Heap, a: Addr, b: Addr)
    requires h.Valid() && a in h.cells && HasItsContents(h.cells, h.cells[a])
    ensures var o := h.cells[a];
            var end := a + 16 + 8 * ((if ShapeOf(h.cells[o.cls]).isIndexed then 1 else 0) + |o.payload| + |o.vars|) + |o.bytes|;
            && (a < b && b in h.cells && IsNew(a) == IsNew(b) ==> end <= b)
            && (IsNew(a) ==> end <= h.newSpace.top)
  {
    hide PageSpace.Valid, Scavenger.Valid, RememberedSet.Valid, AreRootsOk, AreTagsOk, AreListed, IsRememberedSetComplete, IsNew, CellSize, IsClass, ShapeOf;
    ObjectIsOk(h.cells, a);
    ClassIsShaped(h.cells[h.cells[a].cls]);
    ContentsFit(h.cells[a], ShapeOf(h.cells[h.cells[a].cls]));
    assert IsOld(a) ==> AreApart(OldSizes(h.cells)) by { UsedAreApart(h); }
    assert a in (if IsNew(a) then NewSizes(h.cells) else OldSizes(h.cells));
    assert b in h.cells ==> b in (if IsNew(b) then NewSizes(h.cells) else OldSizes(h.cells));
  }

  lemma UsedAreApart(h: Heap)
    requires h.Valid()
    ensures AreApart(OldSizes(h.cells))
  {
    hide Scavenger.Valid, RememberedSet.Valid, FreeList.Valid, AreObjectsOk, AreRootsOk, AreTagsOk, AreListed, IsRememberedSetComplete, OldSizes, NewSizes, AreWithin, AreCells, AreOnPages, Covers;
    var used, cells := h.oldSpace.used, h.oldSpace.Extents();
    forall a, b | a in used && b in used && a < b
      ensures a + used[a] <= b
    {
      assert a in cells && b in cells && cells[a] == used[a];
    }
  }

  lemma ClassIsShaped(cls: Object)
    requires IsClass(cls)
    ensures IsShapeOk(ShapeOf(cls))
  {
  }

  lemma NewObjectIsInCurrentHalf(h: Heap, b: Addr)
    requires h.Valid() && b in h.cells && IsNew(b)
    ensures IsInCurrentHalf(h, b)
  {
    hide IsNew, PageSpace.Valid, AreObjectsOk, AreRootsOk, AreTagsOk, AreListed, IsRememberedSetComplete, AreWithin, NewSizes, OldSizes, Capacity;
    NewIsBelow(h.cells, TagNew(h.newSpace.fromSpace), h.newSpace.top, b);
  }

  lemma OldObjectIsInUse(h: Heap, b: Addr)
    requires h.Valid() && b in h.cells && IsOld(b)
    ensures IsInUse(h, b)
  {
    hide IsNew, Scavenger.Valid, AreObjectsOk, AreRootsOk, AreTagsOk, AreListed, IsRememberedSetComplete, AreWithin, NewSizes, SizeOf, IsOnSomePage;
    assert b in OldSizes(h.cells);
    assert b in h.oldSpace.Extents();
  }

  /**
   An object that lives through two scavenges is in old space after the second, so no object is
   copied between the halves twice.  The first scavenge takes the heap `c0` to `c1`, the second one
   `c2` to `c3`; in between the program stores and allocates, which moves nothing.
   */
  lemma TwoScavengesPromote(c0: Cells, r0: seq<Value>, e0: Addr, c1: Cells, r1: seq<Value>, e1: Addr, f: Renaming,
                            c2: Cells, r2: seq<Value>, c3: Cells, r3: seq<Value>, e2: Addr, g: Renaming, a: Addr)
    requires IsScavenged(c0, r0, e0, c1, r1, e1, f) && IsScavenged(c2, r2, e1, c3, r3, e2, g)
    requires a in f && f[a] in g
    ensures IsOld(g[f[a]])
    ensures IsNew(f[a]) ==> IsNew(a) && e0 <= a
  {
    hide IsNew, MapsObject, MapsRoots, IsOnto, IsInjective;
    assert f[a] in c1;
  }
}

/** Sweeping old space (gcSweep in vm/GarbageCollector.c, without finalizers). */
module Sweeping {
  import opened ObjectModel
  import opened FreeLists
  import opened PageSpaces
  import opened Heaps
  import opened Markings

  function UnmarkedObject(o: Object): Object {
    o.(tags := o.tags.(marked := false))
  }

  /** The objects after the cells in `passed` were swept: survivors lose their mark, dead objects stay readable. */
  function SweptCells(cells: Cells, used: map<Addr, nat>, passed: set<Addr>): Cells {
    map a | a in cells :: if a in passed && a in used && cells[a].tags.marked then UnmarkedObject(cells[a]) else cells[a]
  }

  function SweptUsed(cells: Cells, used: map<Addr, nat>, passed: set<Addr>): map<Addr, nat> {
    map a | a in used && (a !in passed || IsMarked(cells, a)) :: used[a]
  }

  /** The mark bit of a free cell is flipped once. */
  ghost predicate AreFlipped(spaces: Spaces, passed: set<Addr>, spaces': Spaces) {
    forall a :: a in spaces ==> a in spaces' && spaces'[a].marked == if a in passed then !spaces[a].marked else spaces[a].marked
  }

  ghost predicate AreSized(cells: Cells, used: map<Addr, nat>) {
    forall a :: a in used ==> IsSized(cells, a, used[a])
  }

  lemma SweptAreSized(cells: Cells, used: map<Addr, nat>, passed: set<Addr>)
    requires AreSized(cells, used)
    ensures AreSized(SweptCells(cells, used, passed), used)
  {
    forall a | a in used
      ensures IsSized(SweptCells(cells, used, passed), a, used[a])
    {
      assert IsSized(cells, a, used[a]);
    }
  }

  /** What is swept so far. */
  ghost predicate IsSwept(cells: Cells, used: map<Addr, nat>, spaces: Spaces, passed: set<Addr>,
                          cells': Cells, used': map<Addr, nat>, spaces': Spaces) {
    && cells' == SweptCells(cells, used, passed)
    && used' == SweptUsed(cells, used, passed)
    && AreFlipped(spaces, passed, spaces')
  }

  lemma NothingIsSwept(cells: Cells, used: map<Addr, nat>, spaces: Spaces)
    ensures IsSwept(cells, used, spaces, {}, cells, used, spaces)
  {
  }

  lemma FreedIsSwept(cells: Cells, used: map<Addr, nat>, spaces: Spaces, passed: set<Addr>,
                     cells': Cells, used': map<Addr, nat>, spaces': Spaces, a: Addr, spaces'': Spaces)
    requires IsSwept(cells, used, spaces, passed, cells', used', spaces')
    requires a in used && a !in passed && !IsMarked(cells, a) && a !in spaces && spaces'' - {a} == spaces'
    ensures IsSwept(cells, used, spaces, passed + {a}, cells', used' - {a}, spaces'')
  {
    forall b | b in spaces
      ensures b in spaces'' && b != a && spaces''[b] == spaces'[b]
    {
      assert b in spaces'' - {a};
    }
    assert SweptCells(cells, used, passed + {a}) == SweptCells(cells, used, passed);
    assert SweptUsed(cells, used, passed + {a}) == SweptUsed(cells, used, passed) - {a};
  }

  lemma SurvivorIsSwept(cells: Cells, used: map<Addr, nat>, spaces: Spaces, passed: set<Addr>,
                        cells': Cells, used': map<Addr, nat>, spaces': Spaces, a: Addr)
    requires IsSwept(cells, used, spaces, passed, cells', used', spaces')
    requires a in used && a !in passed && IsMarked(cells, a) && a !in spaces
    ensures a in cells' && cells'[a].tags.marked
    ensures IsSwept(cells, used, spaces, passed + {a}, cells'[a := UnmarkedObject(cells'[a])], used', spaces')
  {
    assert SweptCells(cells, used, passed + {a}) == SweptCells(cells, used, passed)[a := UnmarkedObject(cells[a])];
    assert SweptUsed(cells, used, passed + {a}) == SweptUsed(cells, used, passed);
  }

  lemma FreeCellIsSwept(cells: Cells, used: map<Addr, nat>, spaces: Spaces, passed: set<Addr>,
                        cells': Cells, used': map<Addr, nat>, spaces': Spaces, a: Addr, spaces'': Spaces)
    requires IsSwept(cells, used, spaces, passed, cells', used', spaces')
    requires a !in used && a !in passed && a in spaces && a in spaces'
    requires spaces'' == spaces'[a := spaces'[a].(marked := !spaces'[a].marked)]
    ensures IsSwept(cells, used, spaces, passed + {a}, cells', used', spaces'')
  {
    assert SweptCells(cells, used, passed + {a}) == SweptCells(cells, used, passed);
    assert SweptUsed(cells, used, passed + {a}) == SweptUsed(cells, used, passed);
  }

  /** What the sweep of a heap started with. */
  datatype Origin = Origin(cells: Cells, used: map<Addr, nat>, spaces: Spaces, extents: map<Addr, nat>, pages: seq<HeapPage>)

  ghost predicate IsSweeping(h: Heap, o: Origin, passed: set<Addr>)
    reads h, h.oldSpace, h.oldSpace.Repr()
  {
    && h.oldSpace.Valid() && AreSized(o.cells, o.used)
    && o.extents == o.used + SizesOf(o.spaces) && o.used.Keys !! o.spaces.Keys
    && h.oldSpace.Extents() == o.extents && h.oldSpace.pages == o.pages
    && IsSwept(o.cells, o.used, o.spaces, passed, h.cells, h.oldSpace.used, h.oldSpace.freeList.spaces)
  }

  /** A cell that was not passed is what it was at the start. */
  lemma UnpassedCell(h: Heap, o: Origin, passed: set<Addr>, a: Addr)
    requires IsSweeping(h, o, passed) && a in o.extents && a !in passed
    ensures a in o.used <==> a in h.oldSpace.used
    ensures a in o.used <==> a !in h.oldSpace.freeList.spaces
    ensures a in o.used <==> a !in o.spaces
    ensures a in o.used ==> a in h.cells && a in o.cells && h.cells[a] == o.cells[a] && IsSized(h.cells, a, h.oldSpace.used[a])
    ensures a in o.used ==> h.oldSpace.used[a] == o.used[a] == h.oldSpace.Extents()[a]
  {
    hide Tiles, ArePages, IsMmap, FreeList.Valid, CellSize, IsClass, ShapeOf;
    SweptAreSized(o.cells, o.used, passed);
    assert a in h.oldSpace.Extents();
    assert a in o.used ==> IsSized(o.cells, a, o.used[a]);
  }

  lemma UnpassedAreSized(h: Heap, o: Origin, passed: set<Addr>)
    requires IsSweeping(h, o, passed)
    ensures forall a :: a in h.oldSpace.used && a !in passed ==> IsSized(h.cells, a, h.oldSpace.used[a])
  {
    hide IsSweeping, IsSized;
    forall a | a in h.oldSpace.used && a !in passed
      ensures IsSized(h.cells, a, h.oldSpace.used[a])
    {
      UsedIsExtent(h, o, passed, a);
      UnpassedCell(h, o, passed, a);
    }
  }

  lemma UsedIsExtent(h: Heap, o: Origin, passed: set<Addr>, a: Addr)
    requires IsSweeping(h, o, passed) && a in h.oldSpace.used
    ensures a in o.extents
  {
    hide Tiles, ArePages, IsMmap, FreeList.Valid, AreSized, IsSwept;
  }

  /** One turn of the loop in gcSweep. */
  method SweepCell(h: Heap, cell: Addr, ghost o: Origin, ghost passed: set<Addr>)
    requires IsSweeping(h, o, passed) && cell in o.extents && cell !in passed
    modifies h`cells, h.oldSpace.Repr()
    ensures IsSweeping(h, o, passed + {cell})
  {
    hide Tiles, ArePages, IsMmap, FreeList.Valid, CellSize, IsClass, ShapeOf, IsSwept, AreSized, IsSized;
    UnpassedCell(h, o, passed, cell);
    ghost var cells, used, spaces := h.cells, h.oldSpace.used, h.oldSpace.freeList.spaces;
    if cell in h.oldSpace.freeList.spaces {
      h.oldSpace.freeList.ToggleMark(cell);
      FreeCellIsSwept(o.cells, o.used, o.spaces, passed, cells, used, spaces, cell, h.oldSpace.freeList.spaces);
    } else if h.cells[cell].tags.marked {
      SurvivorIsSwept(o.cells, o.used, o.spaces, passed, cells, used, spaces, cell);
      h.cells := h.cells[cell := UnmarkedObject(h.cells[cell])];
    } else {
      h.oldSpace.FreeCell(cell, h.oldSpace.SizeAt(h.cells, cell));
      FreedIsSwept(o.cells, o.used, o.spaces, passed, cells, used, spaces, cell, h.oldSpace.freeList.spaces);
    }
  }

  /** The iterator has returned the cells in `passed`. */
  ghost predicate IsBehind(cells: PageSpaceIterator, o: Origin, passed: set<Addr>)
    reads cells
  {
    && cells.Valid(o.extents, o.pages)
    && forall a :: a in o.extents ==> (cells.HasPassed(a, o.pages) <==> a in passed)
  }

  method NextCell(h: Heap, cells: PageSpaceIterator, ghost o: Origin, ghost passed: set<Addr>) returns (cell: Addr)
    requires IsSweeping(h, o, passed) && IsBehind(cells, o, passed)
    modifies cells
    ensures IsSweeping(h, o, passed)
    ensures if cell != 0 then cell in o.extents && cell !in passed && IsBehind(cells, o, passed + {cell}) else o.extents.Keys <= passed
  {
    hide Tiles, ArePages, IsMmap, FreeList.Valid, IsSwept, AreSized, IsSized, IsPassed, IsBoundary;
    forall a | a in h.oldSpace.used && a !in passed
      ensures a in o.extents && IsSized(h.cells, a, h.oldSpace.used[a])
    {
      UsedIsExtent(h, o, passed, a);
      UnpassedAreSized(h, o, passed);
    }
    cell := cells.Next(h.oldSpace, h.cells);
  }

  ghost function OriginOf(h: Heap): Origin
    reads h, h.oldSpace, h.oldSpace.freeList
  {
    Origin(h.cells, h.oldSpace.used, h.oldSpace.freeList.spaces, h.oldSpace.Extents(), h.oldSpace.pages)
  }

  lemma SweepStarts(h: Heap)
    requires h.oldSpace.Valid() && AreSized(h.cells, h.oldSpace.used)
    ensures IsSweeping(h, OriginOf(h), {}) && h.oldSpace.pages != []
  {
    hide Tiles, ArePages, IsMmap, FreeList.Valid, AreSized;
    NothingIsSwept(h.cells, h.oldSpace.used, h.oldSpace.freeList.spaces);
  }

  lemma SweepEnds(h: Heap, o: Origin)
    requires IsSweeping(h, o, o.extents.Keys)
    ensures h.oldSpace.Valid() && h.oldSpace.Extents() == o.extents && h.oldSpace.pages == o.pages
    ensures IsSwept(o.cells, o.used, o.spaces, o.extents.Keys, h.cells, h.oldSpace.used, h.oldSpace.freeList.spaces)
  {
  }

  lemma SweepIsBehind(cells: PageSpaceIterator, o: Origin)
    requires cells.Valid(o.extents, o.pages) && forall a :: !cells.HasPassed(a, o.pages)
    ensures IsBehind(cells, o, {})
  {
  }

  /**
   gcSweep.  Exactly the unmarked objects become free cells of the same size, every survivor loses
   its mark, and since the mark of every cell is flipped once, no cell is visited twice.
   */
  method Sweep(h: Heap)
    requires h.oldSpace.Valid() && AreSized(h.cells, h.oldSpace.used)
    modifies h`cells, h.oldSpace.Repr()
    ensures h.oldSpace.Valid()
    ensures h.oldSpace.Extents() == old(h.oldSpace.Extents()) && h.oldSpace.pages == old(h.oldSpace.pages)
    ensures IsSwept(old(h.cells), old(h.oldSpace.used), old(h.oldSpace.freeList.spaces), old(h.oldSpace.Extents().Keys),
                    h.cells, h.oldSpace.used, h.oldSpace.freeList.spaces)
  {
    hide PageSpace.Valid, IsSwept, AreSized, PageSpaceIterator.Valid, PageSpaceIterator.HasPassed, IsSweeping, IsBehind;
    SweepStarts(h);
    ghost var o := OriginOf(h);
    var cells := new PageSpaceIterator(h.oldSpace);
    SweepIsBehind(cells, o);
    ghost var passed: set<Addr> := {};
    var cell := NextCell(h, cells, o, passed);
    while cell != 0
      invariant IsSweeping(h, o, passed) && passed <= o.extents.Keys && fresh(cells)
      invariant if cell != 0 then cell in o.extents && cell !in passed && IsBehind(cells, o, passed + {cell}) else o.extents.Keys <= passed
      decreases o.extents.Keys - passed, cell
    {
      SweepCell(h, cell, o, passed);
      passed := passed + {cell};
      cell := NextCell(h, cells, o, passed);
    }
    assert passed == o.extents.Keys;
    SweepEnds(h, o);
  }
}

/**
 Pages of old space and the cells that tile them (vm/HeapPage.c, and pageSpaceAllocate,
 tryAllocateOld and the cell bookkeeping of freeObject from vm/Heap.c).
 */
module PageSpaces {
  import opened ObjectModel
  import opened FreeLists

  const OS_PAGE_SIZE: nat := 4096
  const PAGE_SIZE: nat := 256 * 1024
  /** sizeof(HeapPage). */
  const PAGE_HEADER_SIZE: nat := 40
  const CELLS_OFFSET: nat := 48

  /** A mapped page; `base` is what mmap returned. */
  datatype HeapPage = HeapPage(base: Addr, size: nat) {
    function Body(): Addr {
      base + PAGE_HEADER_SIZE
    }

    function BodySize(): nat {
      if size < PAGE_HEADER_SIZE then 0 else (size - PAGE_HEADER_SIZE) / HEAP_OBJECT_ALIGN * HEAP_OBJECT_ALIGN
    }

    function CellsStart(): Addr {
      Align(Body())
    }

    /** createInitialFreeSpace: the cells reach up to the last aligned byte of the page. */
    function CellsSize(): nat {
      if BodySize() < HEAP_OBJECT_ALIGN then 0 else Align(BodySize() - HEAP_OBJECT_ALIGN / 2)
    }

    function CellsEnd(): Addr {
      CellsStart() + CellsSize()
    }

    /** CellsStart and CellsEnd of a mapped page, see PageArithmetic. */
    function First(): Addr {
      base + CELLS_OFFSET
    }

    function End(): Addr {
      base + size
    }
  }

  /** mapHeapPage's size arithmetic on an address the operating system chose. */
  function MapHeapPage(base: Addr, size: nat): HeapPage {
    HeapPage(base, (size + (OS_PAGE_SIZE - 1)) / OS_PAGE_SIZE * OS_PAGE_SIZE)
  }

  predicate IsMapped(page: HeapPage) {
    page.base % OS_PAGE_SIZE == 0 && page.size % OS_PAGE_SIZE == 0 && page.base != 0 && page.size != 0
  }

  lemma AlignOf(k: nat)
    ensures Align(16 * k) == 16 * k && Align(16 * k + 8) == 16 * k + 16
  {
  }

  lemma PageMultiples(page: HeapPage) returns (k: nat, n: nat)
    requires IsMapped(page)
    ensures page.base == 16 * k && page.size == 16 * n && n >= 256
  {
    k, n := page.base / OS_PAGE_SIZE * 256, page.size / OS_PAGE_SIZE * 256;
  }

  /** The cells of a page fill it from behind its header to its end, and start below `body + bodySize`. */
  lemma PageArithmetic(page: HeapPage)
    requires IsMapped(page)
    ensures page.CellsStart() == page.First() && page.CellsEnd() == page.End()
    ensures page.CellsSize() == page.size - CELLS_OFFSET && IsCellSize(page.CellsSize())
    ensures page.CellsStart() % HEAP_OBJECT_ALIGN == 0
    ensures page.Body() + page.BodySize() == page.End() - 8
  {
    hide Align, IsMapped;
    var k, n := PageMultiples(page);
    AlignOf(k + 2);
    Rounding(n);
    AlignOf(n - 4);
    assert page.Body() == 16 * (k + 2) + 8;
    assert page.BodySize() == 16 * (n - 3);
    assert page.BodySize() - 8 == 16 * (n - 4) + 8;
    Multiple(k + 3);
    Multiple(n - 3);
  }

  lemma Rounding(n: nat)
    requires n >= 3
    ensures (16 * n - PAGE_HEADER_SIZE) / HEAP_OBJECT_ALIGN == n - 3
  {
  }

  lemma Multiple(m: nat)
    ensures 16 * m % HEAP_OBJECT_ALIGN == 0
  {
  }

  predicate ArePagesApart(p: HeapPage, q: HeapPage) {
    p.End() <= q.base || q.End() <= p.base
  }

  /** The cells of a page lie behind its header and the padding that aligns them (see PageArithmetic). */
  predicate IsOnPage(a: Addr, page: HeapPage) {
    page.First() <= a < page.End()
  }

  predicate IsAligned(a: Addr) {
    a % HEAP_OBJECT_ALIGN == 0
  }

  ghost predicate ArePages(pages: seq<HeapPage>) {
    && (forall i :: 0 <= i < |pages| ==> IsMapped(pages[i]))
    && (forall i, j :: 0 <= i < j < |pages| ==> ArePagesApart(pages[i], pages[j]))
  }

  /** Each cell of the page ends where the next one starts, and the last one at the end of the page. */
  ghost predicate Covers(cells: map<Addr, nat>, page: HeapPage) {
    && page.First() in cells
    && (forall a {:trigger IsFollowed(cells, a, page)} :: a in cells && IsOnPage(a, page) ==> IsFollowed(cells, a, page))
  }

  predicate IsFollowed(cells: map<Addr, nat>, a: Addr, page: HeapPage) {
    && a in cells
    && (a + cells[a] == page.End() || (a + cells[a] < page.End() && a + cells[a] in cells))
  }

  ghost predicate IsOnSomePage(a: Addr, pages: seq<HeapPage>) {
    exists i :: 0 <= i < |pages| && IsOnPage(a, pages[i])
  }

  ghost predicate AreOnPages(cells: map<Addr, nat>, pages: seq<HeapPage>) {
    forall a {:trigger IsOnSomePage(a, pages)} :: a in cells ==> IsOnSomePage(a, pages)
  }

  ghost predicate AreCells(cells: map<Addr, nat>) {
    forall a :: a in cells ==> a != 0 && IsAligned(a) && IsCellSize(cells[a])
  }

  /** The cells are an exact tiling of the pages. */
  ghost predicate Tiles(cells: map<Addr, nat>, pages: seq<HeapPage>) {
    && AreCells(cells)
    && AreOnPages(cells, pages)
    && (forall i :: 0 <= i < |pages| ==> Covers(cells, pages[i]))
    && AreApart(cells)
  }

  function Split(cells: map<Addr, nat>, p: Addr, size: nat): map<Addr, nat>
    requires p in cells && size < cells[p]
  {
    cells[p := size][p + size := cells[p] - size]
  }

  /** No cell starts inside another one. */
  lemma NoCellInside(cells: map<Addr, nat>, p: Addr, x: Addr)
    requires AreApart(cells) && p in cells && p < x < p + cells[p]
    ensures x !in cells
  {
  }

  lemma StartIsNotInside(cells: map<Addr, nat>, page: HeapPage, p: Addr, size: nat)
    requires Covers(cells, page) && AreApart(cells) && p in cells && size < cells[p] && IsOnPage(p + size, page)
    ensures IsOnPage(p, page)
  {
  }

  lemma SplitOnOnePage(cells: map<Addr, nat>, page: HeapPage, p: Addr, size: nat)
    requires Covers(cells, page) && AreApart(cells) && p in cells && 0 < size < cells[p]
    ensures Covers(Split(cells, p, size), page)
  {
    var cells' := Split(cells, p, size);
    NoCellInside(cells, p, p + size);
    forall a | a in cells' && IsOnPage(a, page)
      ensures IsFollowed(cells', a, page)
    {
      if a == p + size {
        StartIsNotInside(cells, page, p, size);
      }
      assert IsFollowed(cells, if a == p + size then p else a, page);
    }
  }

  lemma SplitPiecesAreCells(cells: map<Addr, nat>, p: Addr, size: nat)
    requires AreCells(cells) && p in cells && IsCellSize(size) && size < cells[p]
    ensures AreCells(Split(cells, p, size))
  {
    assert IsAligned(p) && IsCellSize(cells[p]);
    assert (p + size) % HEAP_OBJECT_ALIGN == 0 && IsCellSize(cells[p] - size);
  }

  lemma SplitPiecesAreApart(cells: map<Addr, nat>, p: Addr, size: nat)
    requires AreApart(cells) && p in cells && 0 < size < cells[p]
    ensures AreApart(Split(cells, p, size))
  {
    var cells' := Split(cells, p, size);
    forall a, b | a in cells' && b in cells' && a < b
      ensures a + cells'[a] <= b
    {
      var a', b' := if a == p + size then p else a, if b == p + size then p else b;
      assert a' < b' ==> a' + cells[a'] <= b';
    }
  }

  lemma CellEndsOnPage(cells: map<Addr, nat>, pages: seq<HeapPage>, a: Addr) returns (i: nat)
    requires Tiles(cells, pages) && a in cells
    ensures i < |pages| && IsOnPage(a, pages[i]) && a + cells[a] <= pages[i].End()
  {
    assert IsOnSomePage(a, pages);
    i :| 0 <= i < |pages| && IsOnPage(a, pages[i]);
    assert Covers(cells, pages[i]) && IsFollowed(cells, a, pages[i]);
  }

  lemma SplitKeepsTiling(cells: map<Addr, nat>, pages: seq<HeapPage>, p: Addr, size: nat)
    requires Tiles(cells, pages) && p in cells && IsCellSize(size) && size < cells[p]
    ensures p + size !in cells
    ensures Tiles(Split(cells, p, size), pages)
  {
    SplitPiecesAreCells(cells, p, size);
    assert 0 < size;
    hide IsCellSize, IsAligned, AreCells;
    SplitPiecesAreApart(cells, p, size);
    NoCellInside(cells, p, p + size);
    hide AreApart;
    var cells' := Split(cells, p, size);
    forall i | 0 <= i < |pages|
      ensures Covers(cells', pages[i])
    {
      assert Covers(cells, pages[i]);
      SplitOnOnePage(cells, pages[i], p, size);
    }
    var i := CellEndsOnPage(cells, pages, p);
    assert IsOnPage(p + size, pages[i]);
  }

  lemma CoverFrame(cells: map<Addr, nat>, page: HeapPage, start: Addr, size: nat)
    requires Covers(cells, page) && start !in cells && !IsOnPage(start, page)
    ensures Covers(cells[start := size], page)
  {
    forall a | a in cells[start := size] && IsOnPage(a, page)
      ensures IsFollowed(cells[start := size], a, page)
    {
      assert IsFollowed(cells, a, page);
    }
  }

  lemma OneCellCovers(cells: map<Addr, nat>, page: HeapPage)
    requires CELLS_OFFSET < page.size && forall a :: a in cells ==> !IsOnPage(a, page)
    ensures Covers(cells[page.First() := page.size - CELLS_OFFSET], page)
  {
  }

  lemma NewCellIsApart(cells: map<Addr, nat>, page: HeapPage)
    requires AreApart(cells) && CELLS_OFFSET <= page.size
    requires forall a :: a in cells ==> a + cells[a] <= page.base || page.End() <= a
    ensures AreApart(cells[page.First() := page.size - CELLS_OFFSET])
  {
  }

  lemma NewPageKeepsTiling(cells: map<Addr, nat>, pages: seq<HeapPage>, page: HeapPage)
    requires Tiles(cells, pages) && ArePages(pages + [page]) && CELLS_OFFSET <= page.size
    ensures page.First() !in cells
    ensures Tiles(cells[page.First() := page.size - CELLS_OFFSET], pages + [page])
  {
    hide HeapPage.CellsStart, HeapPage.CellsEnd, HeapPage.CellsSize, HeapPage.Body, HeapPage.BodySize;
    hide IsCellSize, IsAligned, AreCells, IsMapped, AreApart, Covers;
    var pages' := pages + [page];
    var start := page.First();
    var cells' := cells[start := page.size - CELLS_OFFSET];
    assert pages'[|pages|] == page;
    NewCellIsCell(cells, page);
    forall a | a in cells
      ensures IsOnSomePage(a, pages') && !IsOnPage(a, page)
      ensures a + cells[a] <= page.base || page.End() <= a
    {
      var i := CellEndsOnPage(cells, pages, a);
      ArePagesApartFrom(pages, page, i);
      assert IsOnPage(a, pages'[i]);
    }
    NewCellIsApart(cells, page);
    forall i | 0 <= i < |pages'|
      ensures Covers(cells', pages'[i])
    {
      if i < |pages| {
        ArePagesApartFrom(pages, page, i);
        CoverFrame(cells, pages[i], start, page.size - CELLS_OFFSET);
      } else {
        OneCellCovers(cells, page);
      }
    }
    assert IsOnSomePage(start, pages') by { assert IsOnPage(start, pages'[|pages|]); }
  }

  lemma ArePagesApartFrom(pages: seq<HeapPage>, page: HeapPage, i: nat)
    requires ArePages(pages + [page]) && i < |pages|
    ensures ArePagesApart(pages[i], page) && 0 < pages[i].size
  {
    var pages' := pages + [page];
    assert IsMapped(pages'[i]) && ArePagesApart(pages'[i], pages'[|pages|]);
  }

  lemma NewCellIsCell(cells: map<Addr, nat>, page: HeapPage)
    requires AreCells(cells) && IsMapped(page) && CELLS_OFFSET <= page.size
    ensures CELLS_OFFSET < page.size && AreCells(cells[page.First() := page.size - CELLS_OFFSET])
  {
    hide HeapPage.CellsStart, HeapPage.CellsEnd, HeapPage.CellsSize, HeapPage.Body, HeapPage.BodySize;
    PageArithmetic(page);
  }

  /** The pages an arbitrary operating system hands out never overlap what is mapped; 0 stands for MAP_FAILED. */
  ghost predicate IsMmap(mmap: seq<HeapPage> -> Addr) {
    forall pages :: mmap(pages) != 0 && ArePages(pages) ==> ArePages(pages + [MapHeapPage(mmap(pages), PAGE_SIZE)])
  }

  lemma FreeCellsAreApart(used: map<Addr, nat>, free: map<Addr, nat>, pages: seq<HeapPage>)
    requires used.Keys !! free.Keys && Tiles(used + free, pages)
    ensures AreApart(free)
  {
    var cells := used + free;
    forall a, b | a in free && b in free && a < b
      ensures a + free[a] <= b
    {
      assert a in cells && b in cells && cells[a] == free[a];
    }
  }

  /** Taking a free block moves it to the used cells, or splits it. */
  lemma TakeSplits(used: map<Addr, nat>, free: map<Addr, nat>, p: Addr, size: nat)
    requires used.Keys !! free.Keys && p in free && 0 < size <= free[p]
    requires size < free[p] ==> p + size !in used && p + size !in free
    ensures var free' := TakeFrom(free, p, size);
            && used[p := size].Keys !! free'.Keys
            && used[p := size] + free' == if size < free[p] then Split(used + free, p, size) else used + free
  {
  }

  lemma TakeKeepsTiling(used: map<Addr, nat>, free: map<Addr, nat>, pages: seq<HeapPage>, p: Addr, size: nat)
    requires used.Keys !! free.Keys && Tiles(used + free, pages)
    requires p in free && IsCellSize(size) && size <= free[p]
    ensures var free' := TakeFrom(free, p, size);
            used[p := size].Keys !! free'.Keys && Tiles(used[p := size] + free', pages)
  {
    assert 0 < size && p in used + free && (used + free)[p] == free[p];
    hide Tiles, IsCellSize;
    if size < free[p] {
      SplitKeepsTiling(used + free, pages, p, size);
    }
    TakeSplits(used, free, p, size);
  }

  /** Freeing a cell moves it to the free cells and leaves the tiling as it is. */
  lemma FreeMoves(used: map<Addr, nat>, free: map<Addr, nat>, pages: seq<HeapPage>, a: Addr)
    requires used.Keys !! free.Keys && Tiles(used + free, pages) && a in used
    ensures a != 0 && IsCellSize(used[a]) && a !in free
    ensures (used - {a}).Keys !! free[a := used[a]].Keys
    ensures (used - {a}) + free[a := used[a]] == used + free
  {
    assert a in used + free && (used + free)[a] == used[a];
  }

  lemma FirstPage(mmap: seq<HeapPage> -> Addr)
    requires IsMmap(mmap) && mmap([]) != 0
    ensures var page := MapHeapPage(mmap([]), PAGE_SIZE);
            && ArePages([page]) && Tiles(map[page.CellsStart() := page.CellsSize()], [page])
            && page.CellsStart() != 0 && IsCellSize(page.CellsSize()) && FREE_LIST_SIZE * HEAP_OBJECT_ALIGN <= page.CellsSize()
  {
    var page := MapHeapPage(mmap([]), PAGE_SIZE);
    assert [] + [page] == [page] && [page][0] == page && IsMapped(page);
    PageArithmetic(page);
    NewPageKeepsTiling(map[], [], page);
  }

  lemma NextPage(mmap: seq<HeapPage> -> Addr, used: map<Addr, nat>, free: map<Addr, nat>, pages: seq<HeapPage>)
    requires IsMmap(mmap) && mmap(pages) != 0 && ArePages(pages)
    requires used.Keys !! free.Keys && Tiles(used + free, pages)
    ensures var page := MapHeapPage(mmap(pages), PAGE_SIZE);
            && ArePages(pages + [page]) && page.CellsStart() !in used + free
            && Tiles((used + free)[page.CellsStart() := page.CellsSize()], pages + [page])
            && page.CellsStart() != 0 && IsCellSize(page.CellsSize())
            && page.CellsSize() == PAGE_SIZE - CELLS_OFFSET && IndexForSize(page.CellsSize()) == FREE_LIST_SIZE
  {
    var page := MapHeapPage(mmap(pages), PAGE_SIZE);
    assert page.size == PAGE_SIZE;
    hide MapHeapPage, Tiles;
    assert (pages + [page])[|pages|] == page && IsMapped(page);
    PageArithmetic(page);
    NewPageKeepsTiling(used + free, pages, page);
  }

  /** After a page is added because no block was found, only the new block can serve the request. */
  lemma NewPageServes(spaces: Spaces, chains: seq<seq<Addr>>, spaces': Spaces, chains': seq<seq<Addr>>,
                      start: Addr, available: nat, size: nat)
    requires AreBinned(spaces, chains) && !Finds(spaces, size) && start !in spaces && IsCellSize(size)
    requires AreBinned(spaces', chains') && SizesOf(spaces') == SizesOf(spaces)[start := available]
    requires IndexForSize(available) == FREE_LIST_SIZE
    requires chains' == chains[FREE_LIST_SIZE := [start] + chains[FREE_LIST_SIZE]]
    ensures Finds(spaces', size) <==> size <= available
    ensures FailsSplit(spaces', chains', size) <==> size == available
  {
    var large, large' := chains[FREE_LIST_SIZE], chains'[FREE_LIST_SIZE];
    assert large'[0] == start && forall a :: a in large' && a != start ==> a in large;
    BlockWithNewPage(spaces, spaces', start, available, start);
    BlockIsBinned(spaces', chains', start);
    SearchedServes(size, available);
    hide AreBinned, Serves, IndexForSize, IsCellSize;
    LargeBlocks(spaces', chains');
    forall a | a in spaces' && a != start
      ensures !Serves(size, spaces'[a].size) && (a in large' ==> spaces'[a].size < size)
    {
      BlockWithNewPage(spaces, spaces', start, available, a);
      BlockIsBinned(spaces', chains', a);
      SearchedServes(size, spaces'[a].size);
    }
  }

  lemma BlockWithNewPage(spaces: Spaces, spaces': Spaces, start: Addr, available: nat, a: Addr)
    requires SizesOf(spaces') == SizesOf(spaces)[start := available]
    ensures a == start ==> a in spaces' && spaces'[a].size == available
    ensures a != start ==> (a in spaces' <==> a in spaces) && (a in spaces ==> spaces'[a].size == spaces[a].size)
  {
    var sizes, sizes' := SizesOf(spaces), SizesOf(spaces');
    assert a in sizes' <==> a in spaces';
    assert a in sizes <==> a in spaces;
    assert a in sizes' ==> sizes'[a] == spaces'[a].size;
  }

  /** The sizes of the objects, computed from the instance shapes of their classes, are those of the used cells. */
  ghost predicate IsSized(cells: Cells, a: Addr, size: nat) {
    && a in cells && cells[a].cls in cells && IsClass(cells[cells[a].cls])
    && CellSize(ShapeOf(cells[cells[a].cls]), cells[a].size) == size
  }

  /** The operating system never runs out of pages. */
  ghost predicate HasPages(mmap: seq<HeapPage> -> Addr) {
    forall pages :: mmap(pages) != 0
  }

  class PageSpace {
    var pages: seq<HeapPage>
    const freeList: FreeList
    const mmap: seq<HeapPage> -> Addr
    /** The cells that are not free, with their sizes. */
    ghost var used: map<Addr, nat>

    /** The memory a method of this class may change. */
    ghost function Repr(): set<object>
      reads this
    {
      {this, freeList, freeList.freeSpaces, freeList.freeMap}
    }

    ghost function Extents(): map<Addr, nat>
      reads this, freeList
    {
      used + freeList.Sizes()
    }

    /** Used and free cells together tile the pages, so they are disjoint and conserve every byte. */
    ghost predicate Valid()
      reads Repr()
    {
      && freeList.Valid()
      && IsMmap(mmap)
      && ArePages(pages) && pages != []
      && used.Keys !! freeList.Sizes().Keys
      && Tiles(Extents(), pages)
    }

    /** The size of a cell as its header tells it, directly when it is free and else through its class. */
    function SizeAt(objects: Cells, a: Addr): (size: nat)
      requires Valid() && a in Extents()
      requires a in used ==> IsSized(objects, a, used[a])
      reads Repr()
      ensures size == Extents()[a]
    {
      if a in freeList.spaces then freeList.spaces[a].size
      else CellSize(ShapeOf(objects[objects[a].cls]), objects[a].size)
    }

    /** initPageSpace: the process exits when the first page cannot be mapped. */
    constructor (mmap: seq<HeapPage> -> Addr)
      requires IsMmap(mmap) && mmap([]) != 0
      ensures Valid() && fresh(freeList) && fresh(freeList.freeSpaces) && fresh(freeList.freeMap)
      ensures used == map[] && |pages| == 1 && this.mmap == mmap
    {
      hide MapHeapPage, Tiles, ArePages, IsMmap, FreeList.Valid, IsCellSize;
      var page := MapHeapPage(mmap([]), PAGE_SIZE);
      FirstPage(mmap);
      this.mmap := mmap;
      pages := [page];
      freeList := new FreeList(page.CellsStart(), page.CellsSize());
      used := map[];
      new;
      assert Extents() == freeList.Sizes();
    }

    method TryAllocate(size: nat) returns (r: Allocation)
      requires Valid() && IsCellSize(size)
      modifies this, freeList, freeList.freeSpaces, freeList.freeMap
      ensures pages == old(pages)
      ensures r.Allocated? ==> Valid() && r.p !in old(used) && used == old(used)[r.p := size]
      ensures r.Full? ==> Valid() && used == old(used)
      ensures r.Full? ==> freeList.spaces == old(freeList.spaces) && freeList.chains == old(freeList.chains)
      ensures r.Full? <==> !Finds(old(freeList.spaces), size)
      ensures r.AssertionFailed? <==> FailsSplit(old(freeList.spaces), old(freeList.chains), size)
      ensures r.AssertionFailed? ==> FREE_LIST_SIZE * HEAP_OBJECT_ALIGN <= size
    {
      hide IsCellSize, FreeList.Valid, Tiles, ArePages, IsMmap, Finds, FailsSplit;
      assert AreApart(freeList.Sizes()) by { FreeCellsAreApart(used, freeList.Sizes(), pages); }
      r := freeList.TryAllocate(size);
      if r.Allocated? {
        TakeKeepsTiling(used, old(freeList.Sizes()), pages, r.p, size);
        used := used[r.p := size];
      }
    }

    /** pageSpaceAllocate: maps a page when the free list finds no block. */
    method Allocate(size: nat) returns (r: Allocation)
      requires Valid() && IsCellSize(size)
      modifies this, freeList, freeList.freeSpaces, freeList.freeMap
      ensures !r.Full?
      ensures r.Allocated? && pages != old(pages) ==>
                forall a :: a in old(freeList.spaces) && size <= old(freeList.spaces)[a].size ==>
                  && 8 <= (size / 16 + 1) % 32 && size < 2032
                  && size < old(freeList.spaces)[a].size < ((size / 16 + 1) / 8 + 1) * 128
      ensures r.Allocated? ==> Valid() && r.p !in old(used) && used == old(used)[r.p := size] && old(pages) <= pages
      ensures r.Allocated? ==> |pages| == |old(pages)| + if Finds(old(freeList.spaces), size) then 0 else 1
      ensures r.AssertionFailed? <==>
                || FailsSplit(old(freeList.spaces), old(freeList.chains), size)
                || (!Finds(old(freeList.spaces), size)
                    && (mmap(old(pages)) == 0 || PAGE_SIZE - CELLS_OFFSET <= size))
      ensures HasPages(mmap) && size < FREE_LIST_SIZE * HEAP_OBJECT_ALIGN ==> !r.AssertionFailed?
    {
      hide IsCellSize, FreeList.Valid, Tiles, ArePages, IsMmap, MapHeapPage, IndexForSize, AreBinned, Finds, FailsSplit;
      r := TryAllocate(size);
      if r.Full? {
        var base := mmap(pages);
        if base == 0 {
          return AssertionFailed;
        }
        var page := MapHeapPage(base, PAGE_SIZE);
        NextPage(mmap, used, freeList.Sizes(), pages);
        MissedPlainly(freeList.spaces, size);
        ghost var spaces, chains := freeList.spaces, freeList.chains;
        freeList.Binned();
        pages := pages + [page];
        freeList.AddFreeSpace(page.CellsStart(), page.CellsSize());
        assert used + freeList.Sizes() == (used + SizesOf(spaces))[page.CellsStart() := page.CellsSize()];
        freeList.Binned();
        NewPageServes(spaces, chains, freeList.spaces, freeList.chains, page.CellsStart(), page.CellsSize(), size);
        r := TryAllocate(size);
        if r.Full? {
          return AssertionFailed;
        }
      }
    }

    /** tryAllocateOld. */
    method TryAllocateOld(size: nat, grow: bool) returns (r: Allocation)
      requires Valid() && IsCellSize(size)
      modifies this, freeList, freeList.freeSpaces, freeList.freeMap
      ensures r.Allocated? ==> Valid() && r.p !in old(used) && used == old(used)[r.p := size] && old(pages) <= pages
      ensures r.Allocated? ==> |pages| == |old(pages)| + if Finds(old(freeList.spaces), size) then 0 else 1
      ensures r.Full? ==> Valid() && used == old(used) && pages == old(pages)
      ensures r.Full? ==> freeList.spaces == old(freeList.spaces) && freeList.chains == old(freeList.chains)
      ensures r.Full? <==> !grow && !Finds(old(freeList.spaces), size)
      ensures r.AssertionFailed? <==>
                || FailsSplit(old(freeList.spaces), old(freeList.chains), size)
                || (grow && !Finds(old(freeList.spaces), size)
                    && (mmap(old(pages)) == 0 || PAGE_SIZE - CELLS_OFFSET <= size))
      ensures HasPages(mmap) && size < FREE_LIST_SIZE * HEAP_OBJECT_ALIGN ==> !r.AssertionFailed?
      ensures r.Allocated? ==> IsAligned(r.p)
    {
      hide FreeList.Valid, ArePages, IsMmap, FailsSplit, Finds, IsCellSize, AreApart, AreOnPages, Covers, IsAligned;
      r := TryAllocate(size);
      if r.Full? && grow {
        r := Allocate(size);
      }
    }

    /** freeObject's part of old space: the cell becomes a free block of the same size. */
    method FreeCell(a: Addr, size: nat)
      requires Valid() && a in used && used[a] == size
      modifies this, freeList, freeList.freeSpaces, freeList.freeMap
      ensures Valid() && used == old(used) - {a} && freeList.Sizes() == old(freeList.Sizes())[a := size]
      ensures Extents() == old(Extents()) && pages == old(pages)
      ensures freeList.spaces - {a} == old(freeList.spaces)
    {
      hide FreeList.Valid, Tiles, ArePages, IsMmap, IsCellSize, IndexForSize;
      FreeMoves(used, freeList.Sizes(), pages, a);
      freeList.AddFreeSpace(a, size);
      used := used - {a};
    }
  }

  /** The cells of earlier pages, and those of page `page` before `current`. */
  ghost predicate IsPassed(a: Addr, pages: seq<HeapPage>, page: nat, current: Addr)
    requires page < |pages|
  {
    IsOnSomePage(a, pages[..page]) || (IsOnPage(a, pages[page]) && a < current)
  }

  ghost predicate IsBoundary(cells: map<Addr, nat>, page: HeapPage, current: Addr) {
    (current in cells && IsOnPage(current, page)) || current == page.End()
  }

  /** Moving over one cell passes that cell and no other. */
  lemma StepPassesOne(cells: map<Addr, nat>, pages: seq<HeapPage>, page: nat, current: Addr)
    requires ArePages(pages) && Tiles(cells, pages) && page < |pages|
    requires current in cells && IsOnPage(current, pages[page])
    ensures IsBoundary(cells, pages[page], current + cells[current])
    ensures !IsPassed(current, pages, page, current)
    ensures forall a :: a in cells ==>
              (IsPassed(a, pages, page, current + cells[current]) <==> IsPassed(a, pages, page, current) || a == current)
  {
    assert Covers(cells, pages[page]) && IsFollowed(cells, current, pages[page]);
    assert 0 < cells[current];
    assert !IsOnSomePage(current, pages[..page]) by {
      forall i | 0 <= i < |pages[..page]|
        ensures !IsOnPage(current, pages[..page][i])
      {
        assert ArePagesApart(pages[i], pages[page]);
      }
    }
    hide Covers, AreOnPages, IsOnSomePage, IsMapped;
  }

  /** At the end of a page the iterator goes on at the start of the next one, having passed the same cells. */
  lemma PageTurnPassesNone(cells: map<Addr, nat>, pages: seq<HeapPage>, page: nat)
    requires ArePages(pages) && Tiles(cells, pages) && page + 1 < |pages|
    ensures pages[page + 1].CellsStart() == pages[page + 1].First() && pages[page + 1].First() != 0
    ensures pages[page + 1].First() in cells && IsOnPage(pages[page + 1].First(), pages[page + 1])
    ensures forall a {:trigger IsPassed(a, pages, page, pages[page].End())} ::
              IsPassed(a, pages, page, pages[page].End()) <==>
              IsPassed(a, pages, page + 1, pages[page + 1].First())
  {
    assert Covers(cells, pages[page + 1]) && IsMapped(pages[page + 1]);
    PageArithmetic(pages[page + 1]);
    hide Tiles, IsMapped, ArePages;
    forall a
      ensures IsOnSomePage(a, pages[..page + 1]) <==> IsOnSomePage(a, pages[..page]) || IsOnPage(a, pages[page])
    {
      if IsOnSomePage(a, pages[..page + 1]) {
        var i :| 0 <= i < |pages[..page + 1]| && IsOnPage(a, pages[..page + 1][i]);
        assert i < page ==> pages[..page][i] == pages[i];
      }
      if IsOnSomePage(a, pages[..page]) {
        var i :| 0 <= i < |pages[..page]| && IsOnPage(a, pages[..page][i]);
        assert pages[..page + 1][i] == pages[i];
      }
      if IsOnPage(a, pages[page]) {
        assert pages[..page + 1][page] == pages[page];
      }
    }
  }

  lemma EndPassesAll(cells: map<Addr, nat>, pages: seq<HeapPage>)
    requires Tiles(cells, pages) && pages != []
    ensures forall a :: a in cells ==>
              IsPassed(a, pages, |pages| - 1, pages[|pages| - 1].End())
  {
    var last := |pages| - 1;
    forall a | a in cells
      ensures IsPassed(a, pages, last, pages[last].End())
    {
      var i := CellEndsOnPage(cells, pages, a);
      assert i < last ==> pages[..last][i] == pages[i];
    }
  }

  /** The iterator's test `current >= body + bodySize` recognises the end of a page. */
  lemma EndTest(cells: map<Addr, nat>, pages: seq<HeapPage>, page: nat, current: Addr)
    requires ArePages(pages) && Tiles(cells, pages) && page < |pages| && IsBoundary(cells, pages[page], current)
    ensures if current < pages[page].Body() + pages[page].BodySize()
            then current in cells && IsOnPage(current, pages[page]) && current != 0
            else current == pages[page].End()
  {
    assert IsMapped(pages[page]);
    PageArithmetic(pages[page]);
    if current in cells && IsOnPage(current, pages[page]) {
      assert Covers(cells, pages[page]) && IsFollowed(cells, current, pages[page]);
    }
  }

  class PageSpaceIterator {
    var page: nat
    var current: Addr

    ghost predicate Valid(cells: map<Addr, nat>, pages: seq<HeapPage>)
      reads this
    {
      && page < |pages| && ArePages(pages) && Tiles(cells, pages)
      && IsBoundary(cells, pages[page], current)
    }

    ghost predicate HasPassed(a: Addr, pages: seq<HeapPage>)
      requires page < |pages|
      reads this
    {
      IsPassed(a, pages, page, current)
    }

    constructor (space: PageSpace)
      requires space.Valid() && space.pages != []
      ensures Valid(space.Extents(), space.pages)
      ensures forall a :: !HasPassed(a, space.pages)
    {
      page := 0;
      current := space.pages[0].CellsStart();
      new;
      assert IsMapped(space.pages[0]) && Covers(space.Extents(), space.pages[0]);
      PageArithmetic(space.pages[0]);
    }

    /** Goes to the start of the next page when the current one is finished; false when there is none. */
    method SkipToCell(space: PageSpace) returns (found: bool)
      requires space.Valid() && Valid(space.Extents(), space.pages)
      modifies this
      ensures Valid(space.Extents(), space.pages)
      ensures forall a :: HasPassed(a, space.pages) <==> old(HasPassed(a, space.pages))
      ensures found ==> current in space.Extents() && IsOnPage(current, space.pages[page]) && current != 0
      ensures !found ==> forall a :: a in space.Extents() ==> HasPassed(a, space.pages)
    {
      ghost var cells, pages := space.Extents(), space.pages;
      EndTest(cells, pages, page, current);
      hide Tiles, ArePages, IsMmap, FreeList.Valid, IsPassed, HeapPage.CellsStart, HeapPage.Body, HeapPage.BodySize;
      if current >= space.pages[page].Body() + space.pages[page].BodySize() {
        if page + 1 == |space.pages| {
          EndPassesAll(cells, pages);
          return false;
        }
        PageTurnPassesNone(cells, pages, page);
        page := page + 1;
        current := space.pages[page].CellsStart();
      }
      return true;
    }

    /**
     Returns each cell once, and NULL when all were returned.  The iterator has moved on before
     the caller rewrites the header of the cell.
     */
    method Next(space: PageSpace, objects: Cells) returns (cell: Addr)
      requires space.Valid() && Valid(space.Extents(), space.pages)
      requires forall a :: a in space.used && !HasPassed(a, space.pages) ==> IsSized(objects, a, space.used[a])
      modifies this
      ensures Valid(space.Extents(), space.pages)
      ensures cell == 0 ==> forall a :: a in space.Extents() ==> old(HasPassed(a, space.pages)) && HasPassed(a, space.pages)
      ensures cell != 0 ==> cell in space.Extents() && !old(HasPassed(cell, space.pages))
      ensures cell != 0 ==> forall a :: a in space.Extents() ==>
                (HasPassed(a, space.pages) <==> old(HasPassed(a, space.pages)) || a == cell)
    {
      hide PageSpace.SizeAt, CellSize, FreeList.Valid, IsMmap, Tiles, ArePages, IsPassed, IsBoundary, IsSized;
      var found := SkipToCell(space);
      if !found {
        return 0;
      }
      cell := current;
      StepPassesOne(space.Extents(), space.pages, page, cell);
      assert !HasPassed(cell, space.pages);
      assert cell in space.used ==> IsSized(objects, cell, space.used[cell]);
      current := cell + space.SizeAt(objects, cell);
    }
  }
}

/**
 The heap: objects in two semispaces and in old space, the remembered set, and the pointer slots
 outside of it (vm/Heap.h, vm/Scavenger.h, initHeap and initScavenger), with the invariant that
 verifyHeap (vm/Heap.c) checks in part.

 `cells` maps an address to the object that starts there.  When a collection ends, the model
 forgets the objects that did not survive it; the C code leaves their words where they are and
 never reads them again.
 */
module Heaps {
  import opened Collections
  import opened ObjectModel
  import opened FreeLists
  import opened PageSpaces
  import opened RememberedSets
  import opened Reachability

  const NEW_SPACE_SIZE: nat := 32 * 1024 * 1024

  /** `start | NEW_SPACE_TAG` for an address that is a multiple of 8. */
  function TagNew(start: Addr): Addr {
    if IsNew(start) then start else start + SPACE_TAG
  }

  /** The bytes that can be allocated in a semispace: whole units of 16 bytes from its tagged start. */
  function Capacity(start: Addr, size: nat): nat {
    if start + size < TagNew(start) then 0
    else (start + size - TagNew(start)) / HEAP_OBJECT_ALIGN * HEAP_OBJECT_ALIGN
  }

  predicate IsNewAligned(a: Addr) {
    a % HEAP_OBJECT_ALIGN == 8
  }

  lemma NewAlignedIsNew(a: Addr)
    requires IsNewAligned(a)
    ensures IsNew(a)
  {
    assert a == a / 16 * 16 + 8;
  }

  lemma AlignedIsOld(a: Addr)
    requires IsAligned(a)
    ensures IsOld(a)
  {
    assert a == a / 16 * 16;
  }

  lemma TagIsAligned(start: Addr)
    requires start % 8 == 0
    ensures IsNewAligned(TagNew(start)) && start <= TagNew(start)
  {
  }

  /** What is allocated in one half fits into the other. */
  lemma HalfFits(start: Addr, start': Addr, size: nat, top: Addr, lower: Addr)
    requires start % 8 == 0 && start' % 8 == 0 && Capacity(start, size) == Capacity(start', size)
    requires IsNewAligned(top) && IsNewAligned(lower) && TagNew(start) <= lower <= top <= start + size
    requires TagNew(start') <= start' + size
    ensures TagNew(start') + (top - lower) <= start' + size
  {
    TagIsAligned(start);
    var tag := TagNew(start);
    hide TagNew;
    assert (top - tag) % 16 == 0;
    assert top - tag <= Capacity(start, size);
  }

  lemma AddKeepsAlignment(a: Addr, size: nat)
    requires IsNewAligned(a) && size % HEAP_OBJECT_ALIGN == 0
    ensures IsNewAligned(a + size)
  {
  }

  class Scavenger {
    const size: nat
    var fromSpace: Addr
    var toSpace: Addr
    var top: Addr
    var end: Addr
    var survivorEnd: Addr
    var hasPromotionFailure: bool
    /** For each copy made by the last scavenge, the object it was made from. */
    ghost var origin: map<Addr, Addr>

    ghost predicate ValidSpaces()
      reads this
    {
      && fromSpace % 8 == 0 && toSpace % 8 == 0
      && (fromSpace + size <= toSpace || toSpace + size <= fromSpace)
      && Capacity(fromSpace, size) == Capacity(toSpace, size)
      && end == fromSpace + size && TagNew(toSpace) <= toSpace + size
      && IsNewAligned(top) && TagNew(fromSpace) <= top <= end
    }

    ghost predicate Valid()
      reads this
    {
      && ValidSpaces()
      && IsNewAligned(survivorEnd) && TagNew(fromSpace) <= survivorEnd <= top
    }

    /** initScavenger, on a page mapped by the operating system. */
    constructor (page: HeapPage)
      requires IsMapped(page)
      ensures Valid() && survivorEnd == top == TagNew(fromSpace) && !hasPromotionFailure
      ensures fromSpace == page.Body() && toSpace == page.Body() + size && size == page.BodySize() / 2
    {
      hide PageSpaces.HeapPage.Body, PageSpaces.HeapPage.BodySize, TagNew, Capacity, IsNewAligned, IsMapped;
      SemiSpacesAreEqual(page);
      var semiSpaceSize := page.BodySize() / 2;
      var start := page.Body();
      size := semiSpaceSize;
      fromSpace := start;
      toSpace := start + semiSpaceSize;
      top := TagNew(start);
      end := start + semiSpaceSize;
      survivorEnd := TagNew(start);
      hasPromotionFailure := false;
      origin := map[];
    }

    /** scavengerTryAllocate; 0 is NULL. */
    method TryAllocate(size: nat) returns (p: Addr)
      requires ValidSpaces() && size % HEAP_OBJECT_ALIGN == 0
      modifies this`top
      ensures ValidSpaces()
      ensures p == 0 <==> end - old(top) < size
      ensures p == 0 ==> top == old(top)
      ensures p != 0 ==> p == old(top) && top == p + size && IsNew(p)
    {
      hide TagNew, Capacity, IsNew, IsNewAligned;
      AddKeepsAlignment(top, size);
      NewAlignedIsNew(top);
      var available := end - top;
      if size > available {
        return 0;
      }
      p := top;
      top := top + size;
    }
  }

  /**
   Both halves of a page hold the same number of 16-byte units, although bit 3 is set at the start
   of one half and has to be added at the start of the other.
   */
  lemma SemiSpacesAreEqual(page: HeapPage)
    requires IsMapped(page)
    ensures var half := page.BodySize() / 2;
            && page.Body() % 8 == 0 && half % 8 == 0
            && TagNew(page.Body()) == page.Body() <= page.Body() + half
            && (page.Body() + half) % 8 == 0 && TagNew(page.Body() + half) <= page.Body() + half + half
            && IsNewAligned(TagNew(page.Body())) && IsNewAligned(TagNew(page.Body() + half))
            && Capacity(page.Body(), half) == Capacity(page.Body() + half, half)
  {
    var k, n := PageMultiples(page);
    assert page.Body() == 16 * (k + 2) + 8;
    Halves(k + 2, n - 3);
  }

  /** Two halves of this many bytes behind `body`. */
  ghost predicate AreHalves(body: Addr, half: nat) {
    && body % 8 == 0 && half % 8 == 0 && (body + half) % 8 == 0
    && TagNew(body) == body && IsNewAligned(body) && IsNewAligned(TagNew(body + half))
    && (0 < half ==> TagNew(body + half) <= body + half + half)
    && Capacity(body, half) == Capacity(body + half, half)
  }

  lemma Halves(k: nat, units: nat)
    ensures AreHalves(16 * k + 8, 16 * units / 2)
  {
    hide AreHalves;
    var m := units / 2;
    if units == 2 * m {
      EvenHalves(k, m);
      assert 16 * units / 2 == 16 * m;
    } else {
      OddHalves(k, m);
      assert 16 * units / 2 == 16 * m + 8;
    }
  }

  lemma EvenHalves(k: nat, m: nat)
    ensures AreHalves(16 * k + 8, 16 * m)
  {
    hide TagNew;
    TagOf(k);
    TagOf(k + m);
    Eights(2 * k + 1);
    Eights(2 * m);
    Eights(2 * (k + m) + 1);
    assert 16 * k + 8 + 16 * m == 16 * (k + m) + 8;
  }

  lemma OddHalves(k: nat, m: nat)
    ensures AreHalves(16 * k + 8, 16 * m + 8)
  {
    hide TagNew;
    TagOf(k);
    TagOf(k + m + 1);
    Eights(2 * k + 1);
    Eights(2 * m + 1);
    Eights(2 * (k + m + 1));
    assert 16 * k + 8 + (16 * m + 8) == 16 * (k + m + 1);
  }

  lemma Eights(n: nat)
    ensures 8 * n % 8 == 0
  {
  }

  lemma TagOf(m: nat)
    ensures TagNew(16 * m) == 16 * m + 8 && TagNew(16 * m + 8) == 16 * m + 8 && IsNewAligned(16 * m + 8)
  {
  }

  // ---------- The invariant ----------

  /** The class of an object is a class, as many variables as it says are there, and they point to objects. */
  predicate IsObjectOk(cells: Cells, o: Object) {
    && o.cls in cells && IsClass(cells[o.cls])
    && |o.vars| == VarsCount(ShapeOf(cells[o.cls]), o.size)
    && (forall i :: 0 <= i < |o.vars| && o.vars[i].Pointer? ==> o.vars[i].target in cells)
  }

  ghost predicate AreObjectsOk(cells: Cells) {
    forall a {:trigger IsObjectOk(cells, cells[a])} :: a in cells ==> IsObjectOk(cells, cells[a])
  }

  ghost predicate AreRootsOk(cells: Cells, roots: seq<Value>) {
    forall i :: 0 <= i < |roots| && roots[i].Pointer? ==> roots[i].target in cells
  }

  /** No edge leaves a heap of well-formed objects. */
  lemma ObjectsAreClosed(cells: Cells)
    requires AreObjectsOk(cells)
    ensures IsClosed(cells, cells.Keys)
  {
    forall a, b | a in cells && HasEdge(cells[a], b)
      ensures b in cells
    {
      assert IsObjectOk(cells, cells[a]);
      if b != cells[a].cls {
        var i :| 0 <= i < |cells[a].vars| && cells[a].vars[i] == Pointer(b);
      }
    }
  }

  /** computeRawObjectSize, rounded up to the alignment; 0 where there is no object with a class. */
  function SizeOf(cells: Cells, a: Addr): nat {
    if a in cells && cells[a].cls in cells && IsClass(cells[cells[a].cls])
    then CellSize(ShapeOf(cells[cells[a].cls]), cells[a].size)
    else 0
  }

  /** The objects of new space with the bytes their cells take. */
  ghost function NewSizes(cells: Cells): map<Addr, nat> {
    map a | a in cells && IsNew(a) :: SizeOf(cells, a)
  }

  ghost function OldSizes(cells: Cells): map<Addr, nat> {
    map a | a in cells && IsOld(a) :: SizeOf(cells, a)
  }

  /** The cells lie one beside the other between `from` and `to`. */
  ghost predicate AreWithin(sizes: map<Addr, nat>, from: Addr, to: Addr) {
    AreApart(sizes) && forall a :: a in sizes ==> IsNewAligned(a) && from <= a && a + sizes[a] <= to
  }

  lemma NewIsBelow(before: Cells, lo: Addr, limit: Addr, a: Addr)
    requires AreObjectsOk(before) && AreWithin(NewSizes(before), lo, limit) && a in before && IsNew(a)
    ensures lo <= a < limit
  {
    assert IsObjectOk(before, before[a]);
    CellSizeAligned(ShapeOf(before[before[a].cls]), before[a].size);
    hide IsNew, CellSize;
    assert a in NewSizes(before);
  }

  lemma SizeIsPositive(before: Cells, a: Addr)
    requires AreObjectsOk(before) && a in before
    ensures IsObjectOk(before, before[a]) && IsCellSize(SizeOf(before, a))
  {
    assert IsObjectOk(before, before[a]);
    CellSizeAligned(ShapeOf(before[before[a].cls]), before[a].size);
  }

  lemma CellSizeKeepsAlignment(a: Addr, size: nat)
    requires IsNewAligned(a) && IsCellSize(size)
    ensures IsNewAligned(a + size)
  {
    AddKeepsAlignment(a, size);
  }

  lemma AppendIsWithin(sizes: map<Addr, nat>, lo: Addr, top: Addr, size: nat)
    requires AreWithin(sizes, lo, top) && lo <= top && IsNewAligned(top)
    ensures AreWithin(sizes[top := size], lo, top + size)
  {
  }

  predicate HasPointerToNew(o: Object) {
    IsNew(o.cls) || exists v :: v in o.vars && PointsToNew(v)
  }

  /** What a loop over the variables knows after `i` of them. */
  predicate HasPointerToNewBelow(c: Object, i: nat)
    requires i <= |c.vars|
  {
    IsNew(c.cls) || exists j :: 0 <= j < i && PointsToNew(c.vars[j])
  }

  function Remembered(o: Object): Object {
    o.(tags := o.tags.(remembered := true))
  }

  /** TAG_REMEMBERED marks exactly the listed objects; they are old and listed once. */
  ghost predicate AreListed(cells: Cells, entries: seq<Addr>) {
    && HasNoDuplicates(entries)
    && (forall e :: e in entries ==> e in cells && IsOld(e) && cells[e].tags.remembered)
    && (forall a :: a in cells && cells[a].tags.remembered ==> a in entries)
  }

  /** Every old object that points to new space is remembered. */
  ghost predicate IsRememberedSetComplete(cells: Cells) {
    forall a :: a in cells && IsOld(a) && HasPointerToNew(cells[a]) ==> cells[a].tags.remembered
  }

  /** Between collections nothing is forwarded, and only new objects may still carry a mark. */
  ghost predicate AreTagsOk(cells: Cells) {
    forall a :: a in cells ==> !cells[a].tags.forwarded && (IsOld(a) ==> !cells[a].tags.marked)
  }

  lemma NoObjectsAreOk(roots: seq<Value>, lo: Addr, top: Addr)
    requires forall i :: 0 <= i < |roots| ==> !roots[i].Pointer?
    ensures AreObjectsOk(map[]) && AreRootsOk(map[], roots) && AreTagsOk(map[])
    ensures NewSizes(map[]) == map[] && OldSizes(map[]) == map[] && AreWithin(map[], lo, top)
    ensures AreListed(map[], []) && IsRememberedSetComplete(map[])
  {
  }

  class Heap {
    var cells: Cells
    /** The pointer slots of stack frames, the exception handler, handles and native code. */
    var roots: seq<Value>
    const newSpace: Scavenger
    const oldSpace: PageSpace
    const rememberedSet: RememberedSet

    ghost function Repr(): set<object>
      reads this, oldSpace
    {
      {this, newSpace, rememberedSet} + oldSpace.Repr()
    }

    ghost function RememberedEntries(): seq<Addr>
      reads rememberedSet
    {
      rememberedSet.Contents()
    }

    ghost predicate Valid()
      reads Repr()
    {
      && newSpace.Valid() && oldSpace.Valid() && rememberedSet.Valid()
      && AreObjectsOk(cells) && AreRootsOk(cells, roots) && AreTagsOk(cells)
      && AreWithin(NewSizes(cells), TagNew(newSpace.fromSpace), newSpace.top)
      && OldSizes(cells) == oldSpace.used
      && AreListed(cells, RememberedEntries()) && IsRememberedSetComplete(cells)
    }

    /** initHeap. */
    constructor (newSpacePage: HeapPage, mmap: seq<HeapPage> -> Addr, rootsSize: nat)
      requires IsMapped(newSpacePage) && IsMmap(mmap) && mmap([]) != 0
      ensures Valid() && fresh(Repr()) && cells == map[] && roots == seq(rootsSize, _ => Immediate(0))
      ensures newSpace.survivorEnd == newSpace.top == TagNew(newSpace.fromSpace) && newSpace.fromSpace == newSpacePage.Body()
      ensures newSpace.toSpace == newSpacePage.Body() + newSpace.size && newSpace.size == newSpacePage.BodySize() / 2
      ensures oldSpace.mmap == mmap
    {
      hide FreeList.Valid, Tiles, ArePages, Scavenger.ValidSpaces, TagNew, IsMapped, IsMmap, IsNewAligned, RememberedSet.Valid;
      hide AreObjectsOk, AreRootsOk, AreTagsOk, AreWithin, AreListed, IsRememberedSetComplete;
      cells := map[];
      roots := seq(rootsSize, _ => Immediate(0));
      newSpace := new Scavenger(newSpacePage);
      oldSpace := new PageSpace(mmap);
      rememberedSet := new RememberedSet();
      new;
      NoObjectsAreOk(roots, TagNew(newSpace.fromSpace), newSpace.top);
    }

    /** rememberedSetAdd. */
    method RememberedSetAdd(a: Addr)
      requires rememberedSet.Valid() && a in cells && !cells[a].tags.remembered
      modifies this`cells, rememberedSet
      ensures cells == old(cells)[a := Remembered(old(cells)[a])]
      ensures rememberedSet.Valid() && RememberedEntries() == old(RememberedEntries()) + [a]
      ensures Grows(old(rememberedSet.blocks), rememberedSet.blocks)
    {
      cells := cells[a := Remembered(cells[a])];
      rememberedSet.Add(a);
    }
  }
}

/**
 The copying scavenger (vm/Scavenger.c).

 The C functions stop the program when an assertion fails; here they return `ok == false`, and
 nothing is said about the heap then.
 */
module Scavenging {
  import opened Collections
  import opened ObjectModel
  import opened FreeLists
  import opened PageSpaces
  import opened RememberedSets
  import opened Heaps
  import opened Evacuations
  import opened Reachability
  import opened Isomorphisms
  import opened EvacuationStarts
  import opened EvacuationResults

  /** A pointer slot: one outside the heap, the class pointer of an object, or one of its variables. */
  datatype Slot = RootSlot(index: nat) | ClassSlot(holder: Addr) | VarSlot(holder: Addr, index: nat)

  ghost function Current(h: Heap): Evacuation
    reads h, h.newSpace, h.rememberedSet
  {
    Evacuation(h.cells, h.newSpace.origin, h.RememberedEntries())
  }

  ghost predicate AreActiveSurvivors(s: Scope, e: Evacuation) {
    forall x :: x in s.active ==> IsSurvivor(s.before, e, x)
  }

  ghost predicate IsRunning(h: Heap, s: Scope, l: Layout)
    reads h, h.oldSpace, h.Repr()
  {
    && h.newSpace.ValidSpaces() && h.oldSpace.Valid() && h.rememberedSet.Valid()
    && IsStart(s.before, s.live) && Invariant(s, Current(h)) && AreActiveSurvivors(s, Current(h))
    && IsLayout(s.before, l) && l.end == h.newSpace.end && l.survivorEnd == h.newSpace.survivorEnd
    && l.start == TagNew(h.newSpace.fromSpace) && ArePlaced(s, Current(h), l, h.oldSpace.used, h.newSpace.top)
    && (forall x :: x in s.pending ==> x in s.before && IsOld(x))
    && HasGrownOnFailure(h.newSpace.hasPromotionFailure, h.oldSpace.pages, l.pages)
  }

  /** A promotion has failed exactly when old space got a page that it did not have `before`. */
  predicate HasGrownOnFailure(hasFailed: bool, pages: seq<HeapPage>, before: seq<HeapPage>) {
    before <= pages && (hasFailed <==> |before| < |pages|)
  }

  /**
   No assertion fails when every object that is promoted takes less than 2048 bytes and the
   operating system has pages left.
   */
  ghost predicate CannotFail(before: Cells, survivorEnd: Addr, mmap: seq<HeapPage> -> Addr) {
    && (forall a :: a in before && IsNew(a) && a < survivorEnd ==> SizeOf(before, a) < FREE_LIST_SIZE * HEAP_OBJECT_ALIGN)
    && HasPages(mmap)
  }

  /** The allocation in forwardObject: a cell of old space for a survivor of an earlier scavenge, else one behind the copies. */
  method AllocateCopy(h: Heap, a: Addr, size: nat, ghost s: Scope, ghost l: Layout, ghost e: Evacuation) returns (ok: bool, b: Addr)
    requires h.newSpace.ValidSpaces() && h.oldSpace.Valid()
    requires IsStart(s.before, s.live) && Invariant(s, e) && IsLayout(s.before, l) && l.end == h.newSpace.end && l.survivorEnd == h.newSpace.survivorEnd
    requires ArePlaced(s, e, l, h.oldSpace.used, h.newSpace.top)
    requires a in s.before && IsNew(a) && a in e.cells && !e.cells[a].tags.forwarded && size == SizeOf(s.before, a)
    requires HasGrownOnFailure(h.newSpace.hasPromotionFailure, h.oldSpace.pages, l.pages)
    modifies h.newSpace`top, h.newSpace`hasPromotionFailure, h.oldSpace.Repr()
    ensures CannotFail(s.before, l.survivorEnd, h.oldSpace.mmap) ==> ok
    ensures ok ==> h.newSpace.ValidSpaces() && h.oldSpace.Valid() && b !in e.cells && HasGrownOnFailure(h.newSpace.hasPromotionFailure, h.oldSpace.pages, l.pages)
    ensures ok ==> if a < l.survivorEnd
                   then IsOld(b) && b !in old(h.oldSpace.used) && h.oldSpace.used == old(h.oldSpace.used)[b := size] && h.newSpace.top == old(h.newSpace.top)
                   else IsNew(b) && b == old(h.newSpace.top) && h.newSpace.top == b + size && h.oldSpace.used == old(h.oldSpace.used)
  {
    hide Invariant, IsStart, IsLayout, ArePlaced, AreObjectsOk, IsCellSize, IsNew, IsAligned, SizeOf, HasPages;
    hide FreeList.Valid, Tiles, ArePages, IsMmap, FailsSplit, Finds, TagNew, Capacity, IsNewAligned;
    ghost var used, top := h.oldSpace.used, h.newSpace.top;
    StartIsOk(s);
    SizeIsPositive(s.before, a);
    if a < h.newSpace.survivorEnd {
      var r := h.oldSpace.TryAllocateOld(size, h.newSpace.hasPromotionFailure);
      if r.Full? {
        h.newSpace.hasPromotionFailure := true;
        r := h.oldSpace.TryAllocateOld(size, true);
      }
      if !r.Allocated? {
        return false, 0;
      }
      b := r.p;
      AlignedIsOld(b);
      UnusedIsFresh(s, e, l, used, top, b);
    } else {
      TopIsFresh(s, e, l, used, top, a);
      CopyFits(s, e, l, used, top, a);
      b := h.newSpace.TryAllocate(size);
    }
    ok := true;
  }

  lemma ForwardInSteps(cells: Cells, o: Object, a: Addr, b: Addr)
    requires a != b
    ensures cells[a := CopyOf(o)][b := CopyOf(o)][a := Corpse(CopyOf(o), b)] == cells[a := Corpse(o, b)][b := CopyOf(o)]
  {
  }

  lemma ForwardKeepsActive(s: Scope, e: Evacuation, a: Addr, b: Addr)
    requires AreActiveSurvivors(s, e) && a in s.before
    ensures AreActiveSurvivors(Activate(s, b), Forward(s, e, a, b))
  {
  }

  /** The memcpy of forwardObject, and the forwarding pointer. */
  method InstallCopy(h: Heap, a: Addr, b: Addr, ghost o: Object, ghost cells: Cells)
    requires a in h.cells && h.cells == cells[a := CopyOf(o)] && a != b
    modifies h`cells, h.newSpace`origin
    ensures h.cells == cells[a := Corpse(o, b)][b := CopyOf(o)]
    ensures h.newSpace.origin == old(h.newSpace.origin)[b := a]
  {
    h.cells := h.cells[b := h.cells[a]];
    h.cells := h.cells[a := Corpse(h.cells[a], b)];
    h.newSpace.origin := h.newSpace.origin[b := a];
    ForwardInSteps(cells, o, a, b);
  }

  /** Forwarding with the memory that AllocateCopy found. */
  lemma ForwardKeepsAll(s: Scope, e: Evacuation, l: Layout, used: map<Addr, nat>, top: Addr, a: Addr, b: Addr, used': map<Addr, nat>, top': Addr)
    requires CanForward(s, e, a, b) && IsLayout(s.before, l) && ArePlaced(s, e, l, used, top) && AreActiveSurvivors(s, e)
    requires if a < l.survivorEnd
             then IsOld(b) && b !in used && used' == used[b := SizeOf(s.before, a)] && top' == top
             else IsNew(b) && b == top && top' == b + SizeOf(s.before, a) && used' == used
    ensures Invariant(Activate(s, b), Forward(s, e, a, b)) && ArePlaced(Activate(s, b), Forward(s, e, a, b), l, used', top')
    ensures AreActiveSurvivors(Activate(s, b), Forward(s, e, a, b))
  {
    hide Invariant, IsLayout, ArePlaced, AreActiveSurvivors, IsStart, SizeOf, IsNew, Forward;
    ForwardKeepsInvariant(s, e, a, b);
    ForwardKeepsActive(s, e, a, b);
    if a < l.survivorEnd {
      PromotedIsPlaced(s, e, l, used, top, a, b);
    } else {
      CopyIsPlaced(s, e, l, used, top, a);
    }
  }

  /** What forwardObject may change keeps the parts of a running scavenge that it does not look at. */
  lemma UntouchedParts(h: Heap, s: Scope, l: Layout, a: Addr)
    requires IsRunning(h, s, l) && a in s.before && IsNew(a) && a in h.cells && !h.cells[a].tags.forwarded
    ensures h.cells[a] == s.before[a] && a !in Current(h).origin
    ensures h.cells[a].cls in h.cells && IsClass(h.cells[h.cells[a].cls]) && SizeOf(h.cells, a) == SizeOf(s.before, a)
  {
    hide Invariant, IsLayout, ArePlaced, IsStart, AreActiveSurvivors, PageSpace.Valid, RememberedSet.Valid, SizeOf, IsClass;
    EvacueeIsUntouched(s, Current(h), a);
  }

  /** forwardObject: copies the object and leaves the address of the copy in its header. */
  method ForwardObject(h: Heap, a: Addr, ghost s: Scope, ghost l: Layout) returns (ok: bool)
    requires IsRunning(h, s, l)
    requires a in s.before && IsNew(a) && a in s.live && a in h.cells && !h.cells[a].tags.forwarded
    modifies h`cells, h.newSpace, h.oldSpace.Repr()
    ensures CannotFail(s.before, l.survivorEnd, h.oldSpace.mmap) ==> ok
    ensures ok ==> a in h.cells && h.cells[a].cls !in old(h.cells)
    ensures ok ==> IsRunning(h, Activate(s, h.cells[a].cls), l)
    ensures ok ==> Current(h) == Forward(s, old(Current(h)), a, h.cells[a].cls)
  {
    hide Invariant, IsLayout, ArePlaced, IsCellSize, IsNew, SizeOf, CannotFail, IsStart, AreActiveSurvivors;
    hide FreeList.Valid, Tiles, ArePages, IsMmap, TagNew, Capacity, IsNewAligned, CellSize, IsClass, ShapeOf, HasGrownOnFailure;
    ghost var e, used, top := Current(h), h.oldSpace.used, h.newSpace.top;
    UntouchedParts(h, s, l, a);
    var size := SizeOf(h.cells, a);
    h.cells := h.cells[a := CopyOf(h.cells[a])];
    var b;
    ok, b := AllocateCopy(h, a, size, s, l, e);
    if !ok {
      return;
    }
    InstallCopy(h, a, b, s.before[a], e.cells);
    ForwardKeepsAll(s, e, l, used, top, a, b, h.oldSpace.used, h.newSpace.top);
  }

  // ---------- Pointer slots ----------

  /** The slot is there and holds a pointer. */
  predicate HasSlot(cells: Cells, roots: seq<Value>, p: Slot) {
    match p
    case RootSlot(i) => i < |roots| && roots[i].Pointer?
    case ClassSlot(x) => x in cells
    case VarSlot(x, i) => x in cells && i < |cells[x].vars| && cells[x].vars[i].Pointer?
  }

  /** It belongs to no object but an active one. */
  predicate IsSlot(s: Scope, cells: Cells, roots: seq<Value>, p: Slot) {
    HasSlot(cells, roots, p) && (!p.RootSlot? ==> p.holder in s.active)
  }

  function Fetch(cells: Cells, roots: seq<Value>, p: Slot): Addr
    requires HasSlot(cells, roots, p)
  {
    match p
    case RootSlot(i) => roots[i].target
    case ClassSlot(x) => cells[x].cls
    case VarSlot(x, i) => cells[x].vars[i].target
  }

  /** The object `o` with `w` stored in its slot `p`. */
  function StoreIn(o: Object, p: Slot, w: Addr): Object {
    match p
    case RootSlot(i) => o
    case ClassSlot(x) => o.(cls := w)
    case VarSlot(x, i) => if i < |o.vars| then o.(vars := o.vars[i := Pointer(w)]) else o
  }

  predicate IsHolder(x: Addr, p: Slot) {
    !p.RootSlot? && p.holder == x
  }

  /** Of the roots and the active objects, only the slot `p` has changed: it holds `w`. */
  ghost predicate HasStored(active: set<Addr>, p: Slot, w: Addr, cells: Cells, roots: seq<Value>, cells': Cells, roots': seq<Value>) {
    && roots' == (if p.RootSlot? && p.index < |roots| then roots[p.index := Pointer(w)] else roots)
    && (forall x :: x in active ==>
          x in cells && x in cells' && cells'[x] == if IsHolder(x, p) then StoreIn(cells[x], p, w) else cells[x])
  }

  lemma StoreKeepsSkeleton(source: Object, o: Object, p: Slot, w: Addr)
    requires HasSameSkeleton(source, o)
    requires p.VarSlot? ==> p.index < |o.vars| && o.vars[p.index].Pointer?
    ensures HasSameSkeleton(source, StoreIn(o, p, w)) && StoreIn(o, p, w).tags == o.tags
  {
  }

  /** Storing into an active survivor keeps the invariant. */
  lemma StoreKeepsInvariant(s: Scope, e: Evacuation, p: Slot, w: Addr)
    requires IsStart(s.before, s.live) && Invariant(s, e) && AreActiveSurvivors(s, e)
    requires !p.RootSlot? && IsSlot(s, e.cells, [], p)
    ensures var e' := e.(cells := e.cells[p.holder := StoreIn(e.cells[p.holder], p, w)]);
            Invariant(s, e') && Progresses(s.before, e, e') && AreActiveSurvivors(s, e')
  {
    hide AreEvacueesOk, AreListed, IsImage, HasSameSkeleton, IsStart, StoreIn;
    var x := p.holder;
    assert IsSurvivor(s.before, e, x);
    assert if x in e.origin then IsCopyOk(s, e.cells, e.origin, x) else IsOldOk(s, e.cells, x);
    var source := if x in e.origin then s.before[e.origin[x]] else s.before[x];
    StoreKeepsSkeleton(source, e.cells[x], p, w);
    var e' := e.(cells := e.cells[x := StoreIn(e.cells[x], p, w)]);
    TagsKeepListed(e.cells, e'.cells, x, e.entries);
    ActiveStepKeepsInvariant(s, e, e', x, source);
  }

  lemma TagsKeepListed(cells: Cells, cells': Cells, x: Addr, entries: seq<Addr>)
    requires AreListed(cells, entries) && x in cells && x in cells'
    requires cells' == cells[x := cells'[x]] && cells'[x].tags == cells[x].tags
    ensures AreListed(cells', entries)
  {
  }

  lemma StoreKeepsPlaced(s: Scope, e: Evacuation, l: Layout, used: map<Addr, nat>, top: Addr, p: Slot, w: Addr)
    requires ArePlaced(s, e, l, used, top) && !p.RootSlot? && p.holder in e.cells
    ensures ArePlaced(s, e.(cells := e.cells[p.holder := StoreIn(e.cells[p.holder], p, w)]), l, used, top)
  {
    hide SizeOf, IsNew, AreWithin, CopySizes, PromotedSizes;
    var cells' := e.cells[p.holder := StoreIn(e.cells[p.holder], p, w)];
    assert MovedSizes(s.before, cells', l.survivorEnd) == MovedSizes(s.before, e.cells, l.survivorEnd);
  }

  method StoreSlot(h: Heap, p: Slot, w: Addr, ghost s: Scope, ghost l: Layout)
    requires IsRunning(h, s, l) && IsSlot(s, h.cells, h.roots, p)
    modifies h`cells, h`roots
    ensures IsRunning(h, s, l) && Progresses(s.before, old(Current(h)), Current(h))
    ensures HasStored(s.active, p, w, old(h.cells), old(h.roots), h.cells, h.roots)
  {
    hide Invariant, IsStart, ArePlaced, IsLayout, AreActiveSurvivors, FreeList.Valid, Tiles, ArePages, IsMmap, TagNew, Capacity, IsNewAligned, IsNew;
    ghost var e := Current(h);
    if p.RootSlot? {
      h.roots := h.roots[p.index := Pointer(w)];
    } else {
      StoreKeepsInvariant(s, e, p, w);
      StoreKeepsPlaced(s, e, l, h.oldSpace.used, h.newSpace.top, p, w);
      h.cells := h.cells[p.holder := StoreIn(h.cells[p.holder], p, w)];
    }
    ActiveAreCells(s, e);
  }

  lemma ActiveAreCells(s: Scope, e: Evacuation)
    requires Invariant(s, e) && AreActiveSurvivors(s, e)
    ensures s.active <= e.cells.Keys
  {
    hide IsSurvivorOk, AreListed, AreEvacueesOk, AreOldOk, AreCopiesOk;
  }

  // ---------- processPointer, processTaggedPointer and iterateObject ----------

  /** What a call of the recursion leaves alone and what it does not undo. */
  ghost predicate IsStep(s: Scope, e: Evacuation, e': Evacuation, blocks: Blocks, blocks': Blocks) {
    Progresses(s.before, e, e') && Grows(blocks, blocks')
  }

  ghost predicate AreKept(active: set<Addr>, cells: Cells, cells': Cells) {
    forall x :: x in active ==> x in cells && x in cells' && cells'[x] == cells[x]
  }

  lemma ProgressIsTransitive(s: Scope, e: Evacuation, e': Evacuation, e'': Evacuation)
    requires Progresses(s.before, e, e') && Progresses(s.before, e', e'')
    ensures Progresses(s.before, e, e'')
  {
  }

  lemma ProgressIsReflexive(s: Scope, e: Evacuation)
    ensures Progresses(s.before, e, e)
  {
  }

  lemma ResolvedStays(s: Scope, e: Evacuation, e': Evacuation, v: Addr, w: Addr)
    requires Resolves(e.cells, v, w) && Progresses(s.before, e, e') && (IsNew(v) ==> v in s.before)
    ensures Resolves(e'.cells, v, w)
  {
    hide IsNew;
  }

  lemma KeepingIsStoring(s: Scope, cells: Cells, roots: seq<Value>, p: Slot)
    requires IsSlot(s, cells, roots, p) && s.active <= cells.Keys
    ensures HasStored(s.active, p, Fetch(cells, roots, p), cells, roots, cells, roots)
  {
  }

  lemma StoredThenKept(active: set<Addr>, p: Slot, w: Addr, cells: Cells, roots: seq<Value>, cells': Cells, roots': seq<Value>, cells'': Cells)
    requires HasStored(active, p, w, cells, roots, cells', roots') && AreKept(active, cells', cells'')
    ensures HasStored(active, p, w, cells, roots, cells'', roots')
  {
    hide StoreIn, IsHolder;
  }

  /** What a slot of a live object points to is an old object, or an evacuated one with a readable header. */
  lemma TargetIsKnown(s: Scope, e: Evacuation, t: Addr)
    requires IsStart(s.before, s.live) && Invariant(s, e) && t in s.live
    ensures t in s.before && t in e.cells
    ensures IsNew(t) && e.cells[t].tags.forwarded ==> Resolves(e.cells, t, e.cells[t].cls)
  {
    hide IsNew, AreEvacueesOk, AreCopiesOk, AreOldOk, AreListed, AreTagsOk, AreObjectsOk;
  }

  /** Forwarding leaves the active objects, and so the slot, as they are. */
  lemma ForwardKeepsSlots(s: Scope, e: Evacuation, a: Addr, b: Addr, roots: seq<Value>, p: Slot)
    requires CanForward(s, e, a, b) && AreActiveSurvivors(s, e) && IsSlot(s, e.cells, roots, p)
    requires forall x :: x in s.pending ==> x in s.before && IsOld(x)
    ensures var e' := Forward(s, e, a, b);
            && b !in s.active && b !in s.pending && AreKept(s.active, e.cells, e'.cells)
            && IsSlot(Activate(s, b), e'.cells, roots, p) && !IsHolder(b, p)
            && Resolves(e'.cells, a, b) && Progresses(s.before, e, e')
            && |Unforwarded(s.before, e'.cells)| < |Unforwarded(s.before, e.cells)|
  {
    hide IsNew, AreEvacueesOk, AreOldOk, AreListed, IsSurvivorOk, IsStart;
    ForwardProgresses(s, e, a, b);
    ForwardShrinks(s, e, a, b);
    assert a !in s.active by {
      assert a in e.origin ==> IsCopyOk(s, e.cells, e.origin, a);
    }
  }

  lemma StoredKeepsOther(s: Scope, p: Slot, w: Addr, b: Addr, e: Evacuation, roots: seq<Value>, e': Evacuation, roots': seq<Value>)
    requires HasStored(Activate(s, b).active, p, w, e.cells, roots, e'.cells, roots') && !IsHolder(b, p)
    ensures b in e.cells && b in e'.cells && e'.cells[b] == e.cells[b]
    ensures HasStored(s.active, p, w, e.cells, roots, e'.cells, roots')
  {
  }

  lemma KeptThenStored(active: set<Addr>, p: Slot, w: Addr, cells: Cells, roots: seq<Value>, cells': Cells, cells'': Cells, roots'': seq<Value>)
    requires AreKept(active, cells, cells') && HasStored(active, p, w, cells', roots, cells'', roots'')
    ensures HasStored(active, p, w, cells, roots, cells'', roots'')
  {
    hide StoreIn, IsHolder;
  }

  /**
   processPointer and processTaggedPointer, which differ in the tag of the pointers they store.
   The slot holds where its target is found now; the call may copy any number of objects.
   */
  method ProcessPointer(h: Heap, p: Slot, ghost s: Scope, ghost l: Layout) returns (ok: bool, object': Addr)
    requires IsRunning(h, s, l) && IsSlot(s, h.cells, h.roots, p) && Fetch(h.cells, h.roots, p) in s.live
    modifies h.Repr()
    ensures CannotFail(s.before, l.survivorEnd, h.oldSpace.mmap) ==> ok
    ensures ok ==> IsRunning(h, s, l)
    ensures ok ==> IsStep(s, old(Current(h)), Current(h), old(h.rememberedSet.blocks), h.rememberedSet.blocks)
    ensures ok ==> HasStored(s.active, p, object', old(h.cells), old(h.roots), h.cells, h.roots)
    ensures ok ==> Resolves(h.cells, old(Fetch(h.cells, h.roots, p)), object')
    decreases |Unforwarded(s.before, h.cells)|, 0
  {
    hide Invariant, IsStart, ArePlaced, IsLayout, AreActiveSurvivors, FreeList.Valid, Tiles, ArePages, IsMmap, TagNew, Capacity, IsNewAligned, IsNew, CannotFail;
    hide Progresses, HasStored, HasSlot, AreKept, StoreIn;
    ghost var e, roots := Current(h), h.roots;
    object' := Fetch(h.cells, h.roots, p);
    ActiveAreCells(s, e);
    TargetIsKnown(s, e, object');
    if IsOld(object') {
      KeepingIsStoring(s, h.cells, h.roots, p);
      ProgressIsReflexive(s, e);
      return true, object';
    }
    if h.cells[object'].tags.forwarded {
      object' := h.cells[object'].cls;
      StoreSlot(h, p, object', s, l);
      ResolvedStays(s, e, Current(h), Fetch(e.cells, roots, p), object');
      return true, object';
    }
    ghost var a := object';
    ok := ForwardObject(h, object', s, l);
    if !ok {
      return;
    }
    object' := h.cells[object'].cls;
    ghost var e1 := Current(h);
    ForwardKeepsSlots(s, e, a, object', roots, p);
    StoreSlot(h, p, object', Activate(s, object'), l);
    ghost var e2 := Current(h);
    StoredKeepsOther(s, p, object', object', e1, roots, e2, h.roots);
    KeptThenStored(s.active, p, object', e.cells, roots, e1.cells, e2.cells, h.roots);
    UnforwardedShrinks(s, e1, e2);
    ok := IterateObject(h, object', s, l, s.before[a]);
    if ok {
      ProgressIsTransitive(s, e, e1, e2);
      ProgressIsTransitive(s, e, e2, Current(h));
      StoredThenKept(s.active, p, object', e.cells, roots, e2.cells, h.roots, h.cells);
      ResolvedStays(s, e1, e2, a, object');
      ResolvedStays(s, e2, Current(h), a, object');
    }
  }

  /** The survivor `root` is iterated over: its class and `i` of its variables are resolved. */
  ghost predicate IsIterating(h: Heap, root: Addr, s: Scope, l: Layout, source: Object, i: nat, remember: bool)
    reads h, h.oldSpace, h.Repr()
  {
    && IsRunning(h, Activate(s, root), l) && root in h.cells && IsSource(s.before, Current(h), root, source)
    && i <= |source.vars| && IsPartialImage(h.cells, source, h.cells[root], i)
    && (remember <==> HasPointerToNewBelow(h.cells[root], i))
  }

  /** What a call for the class of `root` does to the iteration. */
  lemma ClassIsResolved(s: Scope, e: Evacuation, e': Evacuation, root: Addr, source: Object, w: Addr, roots: seq<Value>, roots': seq<Value>)
    requires Invariant(Activate(s, root), e) && AreCopiesOk(Activate(s, root), e')
    requires IsSource(s.before, e, root, source) && Progresses(s.before, e, e') && root !in s.active
    requires HasStored(Activate(s, root).active, ClassSlot(root), w, e.cells, roots, e'.cells, roots')
    requires root in e.cells && e.cells[root].cls == source.cls && e.cells[root].vars == source.vars
    requires Resolves(e'.cells, source.cls, w)
    ensures IsSource(s.before, e', root, source) && AreKept(s.active, e.cells, e'.cells) && roots' == roots
    ensures root in e'.cells && IsPartialImage(e'.cells, source, e'.cells[root], 0) && e'.cells[root].tags == e.cells[root].tags
    ensures HasPointerToNewBelow(e'.cells[root], 0) <==> IsNew(w)
  {
    hide AreEvacueesOk, AreOldOk, AreListed, IsNew, IsCopyOk, Progresses;
    ActiveSkeleton(Activate(s, root), e, root, source);
    SourceIsStable(Activate(s, root), e, e', root, source);
  }

  /** What a call for a variable of `root` does to the iteration. */
  lemma VarIsResolved(s: Scope, e: Evacuation, e': Evacuation, root: Addr, source: Object, i: nat, w: Addr, roots: seq<Value>, roots': seq<Value>)
    requires IsObjectOk(s.before, source) && AreCopiesOk(Activate(s, root), e')
    requires IsSource(s.before, e, root, source) && Progresses(s.before, e, e') && root !in s.active
    requires HasStored(Activate(s, root).active, VarSlot(root, i), w, e.cells, roots, e'.cells, roots')
    requires i < |source.vars| && root in e.cells && IsPartialImage(e.cells, source, e.cells[root], i)
    requires source.vars[i].Pointer? && Resolves(e'.cells, source.vars[i].target, w)
    ensures IsSource(s.before, e', root, source) && AreKept(s.active, e.cells, e'.cells) && roots' == roots
    ensures root in e'.cells && IsPartialImage(e'.cells, source, e'.cells[root], i + 1) && e'.cells[root].tags == e.cells[root].tags
    ensures HasPointerToNewBelow(e'.cells[root], i + 1) <==> HasPointerToNewBelow(e.cells[root], i) || IsNew(w)
  {
    hide IsNew, IsCopyOk, IsPartialImage, IsObjectOk;
    assert |e.cells[root].vars| == |source.vars| by { PartialImageSize(e.cells, source, e.cells[root], i); }
    assert e'.cells[root] == e.cells[root].(vars := e.cells[root].vars[i := Pointer(w)]);
    PartialImageStep(s.before, e.cells, e'.cells, source, e.cells[root], e'.cells[root], i);
    SourceIsStable(Activate(s, root), e, e', root, source);
  }

  lemma PartialImageSize(cells: Cells, source: Object, c: Object, i: nat)
    requires i <= |source.vars| && IsPartialImage(cells, source, c, i)
    ensures |c.vars| == |source.vars| && c.size == source.size && (i < |c.vars| ==> c.vars[i] == source.vars[i])
    ensures Resolves(cells, source.cls, c.cls)
  {
  }

  lemma KeptIsTransitive(active: set<Addr>, cells: Cells, cells': Cells, cells'': Cells)
    requires AreKept(active, cells, cells') && AreKept(active, cells', cells'')
    ensures AreKept(active, cells, cells'')
  {
  }

  lemma FinishKeepsPlaced(s: Scope, e: Evacuation, l: Layout, used: map<Addr, nat>, top: Addr, x: Addr, pointsToNew: bool)
    requires ArePlaced(Activate(s, x), e, l, used, top) && AreActiveSurvivors(Activate(s, x), e)
    requires x in e.cells && x !in s.active && s.active <= e.cells.Keys
    ensures var e' := Finish(e, x, pointsToNew);
            ArePlaced(s, e', l, used, top) && AreActiveSurvivors(s, e') && AreKept(s.active, e.cells, e'.cells)
  {
    hide SizeOf, IsNew, AreWithin, CopySizes, PromotedSizes;
    var e' := Finish(e, x, pointsToNew);
    assert MovedSizes(s.before, e'.cells, l.survivorEnd) == MovedSizes(s.before, e.cells, l.survivorEnd);
  }

  /** The end of iterateObject: an old object that points to new space is remembered unless it is so already. */
  method FinishIteration(h: Heap, root: Addr, remember: bool, ghost s: Scope, ghost l: Layout, ghost source: Object)
    requires IsIterating(h, root, s, l, source, |source.vars|, remember) && root !in s.active && root !in s.pending
    modifies h`cells, h.rememberedSet
    ensures IsRunning(h, s, l)
    ensures IsStep(s, old(Current(h)), Current(h), old(h.rememberedSet.blocks), h.rememberedSet.blocks)
    ensures AreKept(s.active, old(h.cells), h.cells)
  {
    hide Invariant, IsStart, ArePlaced, IsLayout, AreActiveSurvivors, FreeList.Valid, Tiles, ArePages, IsMmap, TagNew, Capacity, IsNewAligned, IsNew;
    hide IsPartialImage, HasPointerToNewBelow, IsSource, Progresses, AreKept, AreBlocks;
    ghost var s1, e := Activate(s, root), Current(h);
    ActiveAreCells(s1, e);
    FinishKeepsInvariant(s, e, root, source);
    FinishKeepsPlaced(s, e, l, h.oldSpace.used, h.newSpace.top, root, remember);
    if remember && IsOld(root) && !h.cells[root].tags.remembered {
      h.RememberedSetAdd(root);
    }
    assert Current(h) == Finish(e, root, remember);
  }

  lemma KeptIsReflexive(active: set<Addr>, cells: Cells)
    requires active <= cells.Keys
    ensures AreKept(active, cells, cells)
  {
  }

  /** How many variables there are is read from the class, which may have moved. */
  lemma VarsToTrace(h: Heap, root: Addr, s: Scope, l: Layout, source: Object)
    requires IsRunning(h, Activate(s, root), l) && IsSource(s.before, Current(h), root, source) && root in h.cells
    requires IsPartialImage(h.cells, source, h.cells[root], 0)
    ensures h.cells[root].cls in h.cells && IsClass(h.cells[h.cells[root].cls])
    ensures VarsCount(ShapeOf(h.cells[h.cells[root].cls]), h.cells[root].size) == |source.vars|
  {
    hide Invariant, IsStart, ArePlaced, IsLayout, AreActiveSurvivors, PageSpace.Valid, Scavenger.ValidSpaces, RememberedSet.Valid, IsPartialImage, IsClass, ShapeOf, IsSource, Resolves;
    var s1, e := Activate(s, root), Current(h);
    SourceIsOk(s1, e, root, source);
    PartialImageSize(h.cells, source, h.cells[root], 0);
    ShapeMovesAlong(s1, e, source.cls, h.cells[root].cls);
  }

  /** One turn of the loop in iterateObject. */
  method ProcessVar(h: Heap, root: Addr, i: nat, remember: bool, ghost s: Scope, ghost l: Layout, ghost source: Object)
    returns (ok: bool, remember': bool)
    requires IsIterating(h, root, s, l, source, i, remember) && i < |source.vars| && root !in s.active && root !in s.pending
    modifies h.Repr()
    ensures CannotFail(s.before, l.survivorEnd, h.oldSpace.mmap) ==> ok
    ensures ok ==> IsIterating(h, root, s, l, source, i + 1, remember')
    ensures ok ==> IsStep(s, old(Current(h)), Current(h), old(h.rememberedSet.blocks), h.rememberedSet.blocks)
    ensures ok ==> AreKept(s.active, old(h.cells), h.cells) && h.roots == old(h.roots)
    decreases |Unforwarded(s.before, h.cells)|, 1
  {
    hide AreEvacueesOk, AreCopiesOk, AreOldOk, AreListed, IsStart, ArePlaced, IsLayout, AreActiveSurvivors, FreeList.Valid, Tiles, ArePages, IsMmap, TagNew, Capacity, IsNewAligned, IsNew, CannotFail;
    hide IsPartialImage, HasPointerToNewBelow, IsSource, Progresses, AreKept, HasStored, AreBlocks, IsClass, IsObjectOk, Resolves;
    ghost var s1, e, roots := Activate(s, root), Current(h), h.roots;
    SourceIsOk(s1, e, root, source);
    PartialImageSize(h.cells, source, h.cells[root], i);
    ok, remember' := true, remember;
    if h.cells[root].vars[i].Pointer? {
      var object';
      ok, object' := ProcessPointer(h, VarSlot(root, i), s1, l);
      if !ok {
        return;
      }
      VarIsResolved(s, e, Current(h), root, source, i, object', roots, h.roots);
      remember' := remember || IsNew(object');
    } else {
      NoPointerStep(s.before, h.cells, source, h.cells[root], i);
      ProgressIsReflexive(s, e);
      ActiveAreCells(s1, e);
      KeptIsReflexive(s.active, e.cells);
    }
  }

  /** The loop of iterateObject. */
  method IterateVars(h: Heap, root: Addr, remember: bool, ghost s: Scope, ghost l: Layout, ghost source: Object)
    returns (ok: bool, remember': bool)
    requires IsIterating(h, root, s, l, source, 0, remember) && root !in s.active && root !in s.pending
    modifies h.Repr()
    ensures CannotFail(s.before, l.survivorEnd, h.oldSpace.mmap) ==> ok
    ensures ok ==> IsIterating(h, root, s, l, source, |source.vars|, remember')
    ensures ok ==> IsStep(s, old(Current(h)), Current(h), old(h.rememberedSet.blocks), h.rememberedSet.blocks)
    ensures ok ==> AreKept(s.active, old(h.cells), h.cells) && h.roots == old(h.roots)
    decreases |Unforwarded(s.before, h.cells)|, 2
  {
    hide Invariant, IsStart, CannotFail, AreActiveSurvivors, IsLayout, ArePlaced, FreeList.Valid, Tiles, ArePages, IsMmap, TagNew, Capacity, IsNewAligned;
    hide IsPartialImage, HasPointerToNewBelow, IsSource, Progresses, AreKept, IsClass, IsNew, Unforwarded;
    VarsToTrace(h, root, s, l, source);
    var size := VarsCount(ShapeOf(h.cells[h.cells[root].cls]), h.cells[root].size);
    ok, remember' := true, remember;
    ghost var s1, e0, blocks0, roots0 := Activate(s, root), Current(h), h.rememberedSet.blocks, h.roots;
    ProgressIsReflexive(s, e0);
    ActiveAreCells(s1, e0);
    KeptIsReflexive(s.active, e0.cells);
    var i := 0;
    while i < size
      invariant i <= size == |source.vars| && ok
      invariant IsIterating(h, root, s, l, source, i, remember')
      invariant Progresses(s.before, e0, Current(h)) && Grows(blocks0, h.rememberedSet.blocks)
      invariant AreKept(s.active, e0.cells, h.cells) && h.roots == roots0
    {
      ghost var e, blocks := Current(h), h.rememberedSet.blocks;
      UnforwardedShrinks(s, e0, e);
      ok, remember' := ProcessVar(h, root, i, remember', s, l, source);
      if !ok {
        return;
      }
      ProgressIsTransitive(s, e0, e, Current(h));
      KeptIsTransitive(s.active, e0.cells, e.cells, h.cells);
      GrowsTransitive(blocks0, blocks, h.rememberedSet.blocks);
      i := i + 1;
    }
  }

  /** iterateObject: resolves the class pointer and the pointer variables, and remembers an old object that still points to new space. */
  method IterateObject(h: Heap, root: Addr, ghost s: Scope, ghost l: Layout, ghost source: Object) returns (ok: bool)
    requires IsRunning(h, Activate(s, root), l) && root !in s.active && root !in s.pending
    requires IsSource(s.before, Current(h), root, source) && root in h.cells
    requires h.cells[root].cls == source.cls && h.cells[root].vars == source.vars
    modifies h.Repr()
    ensures CannotFail(s.before, l.survivorEnd, h.oldSpace.mmap) ==> ok
    ensures ok ==> IsRunning(h, s, l)
    ensures ok ==> IsStep(s, old(Current(h)), Current(h), old(h.rememberedSet.blocks), h.rememberedSet.blocks)
    ensures ok ==> AreKept(s.active, old(h.cells), h.cells) && h.roots == old(h.roots)
    decreases |Unforwarded(s.before, h.cells)|, 3
  {
    hide AreEvacueesOk, AreCopiesOk, AreOldOk, AreListed, IsStart, ArePlaced, IsLayout, AreActiveSurvivors, FreeList.Valid, Tiles, ArePages, IsMmap, TagNew, Capacity, IsNewAligned, IsNew, CannotFail;
    hide IsPartialImage, HasPointerToNewBelow, IsSource, Progresses, AreKept, HasStored, AreBlocks, IsClass, IsObjectOk, Resolves;
    ghost var s1, e0, blocks0, roots0 := Activate(s, root), Current(h), h.rememberedSet.blocks, h.roots;
    SourceIsOk(s1, e0, root, source);
    var object';
    ok, object' := ProcessPointer(h, ClassSlot(root), s1, l);
    if !ok {
      return;
    }
    ghost var e1, blocks1 := Current(h), h.rememberedSet.blocks;
    ClassIsResolved(s, e0, e1, root, source, object', roots0, h.roots);
    UnforwardedShrinks(s, e0, e1);
    var remember;
    ok, remember := IterateVars(h, root, IsNew(object'), s, l, source);
    if !ok {
      return;
    }
    ghost var e2, blocks2 := Current(h), h.rememberedSet.blocks;
    FinishIteration(h, root, remember, s, l, source);
    StepsCompose(s, e0, e1, e2, Current(h), blocks0, blocks1, blocks2, h.rememberedSet.blocks);
  }

  lemma StepsCompose(s: Scope, e0: Evacuation, e1: Evacuation, e2: Evacuation, e3: Evacuation, b0: Blocks, b1: Blocks, b2: Blocks, b3: Blocks)
    requires IsStep(s, e0, e1, b0, b1) && IsStep(s, e1, e2, b1, b2) && IsStep(s, e2, e3, b2, b3)
    requires AreKept(s.active, e0.cells, e1.cells) && AreKept(s.active, e1.cells, e2.cells) && AreKept(s.active, e2.cells, e3.cells)
    ensures IsStep(s, e0, e3, b0, b3) && AreKept(s.active, e0.cells, e3.cells)
  {
    hide Progresses, AreKept, Grows;
    ProgressIsTransitive(s, e0, e1, e2);
    ProgressIsTransitive(s, e0, e2, e3);
    GrowsTransitive(b0, b1, b2);
    GrowsTransitive(b0, b2, b3);
    KeptIsTransitive(s.active, e0.cells, e1.cells, e2.cells);
    KeptIsTransitive(s.active, e0.cells, e2.cells, e3.cells);
  }

  lemma NoPointerStep(before: Cells, cells: Cells, source: Object, c: Object, i: nat)
    requires IsObjectOk(before, source) && i < |source.vars| && !source.vars[i].Pointer?
    requires IsPartialImage(cells, source, c, i)
    ensures IsPartialImage(cells, source, c, i + 1)
    ensures HasPointerToNewBelow(c, i + 1) <==> HasPointerToNewBelow(c, i)
  {
    hide IsObjectOk;
    PartialImageStep(before, cells, cells, source, c, c, i);
  }

  // ---------- The roots and the remembered set ----------

  /** One turn of the loop in iterateRememberedSet. */
  method IterateNext(h: Heap, remembered: RememberedSetIterator, ghost s: Scope, ghost l: Layout) returns (ok: bool)
    requires remembered !in h.Repr() && IsRunning(h, s, l) && s.active == {}
    requires remembered.Valid(h.rememberedSet.blocks) && remembered.Remaining(h.rememberedSet.blocks) != []
    requires HasNoDuplicates(remembered.Remaining(h.rememberedSet.blocks))
    requires s.pending == SetOf(remembered.Remaining(h.rememberedSet.blocks))
    modifies h.Repr(), remembered
    ensures CannotFail(s.before, l.survivorEnd, h.oldSpace.mmap) ==> ok
    ensures ok ==> h.rememberedSet.Valid() && remembered.Valid(h.rememberedSet.blocks) && h.roots == old(h.roots)
    ensures ok ==> remembered.Remaining(h.rememberedSet.blocks) == old(remembered.Remaining(h.rememberedSet.blocks))[1..]
    ensures ok ==> HasNoDuplicates(remembered.Remaining(h.rememberedSet.blocks))
    ensures ok ==> IsRunning(h, s.(pending := SetOf(remembered.Remaining(h.rememberedSet.blocks))), l)
  {
    hide Invariant, IsStart, ArePlaced, IsLayout, AreActiveSurvivors, FreeList.Valid, Tiles, ArePages, IsMmap, TagNew, Capacity, IsNewAligned, IsNew, CannotFail;
    hide Progresses, AreBlocks, HasNoDuplicates, IsSource, SetOf, Grows;
    var root := remembered.Next(h.rememberedSet);
    ghost var blocks := h.rememberedSet.blocks;
    ghost var rest := remembered.Remaining(blocks);
    FirstIsTaken(root, rest);
    TakeRemembered(h, s, l, root);
    ok := IterateObject(h, root, s.(pending := SetOf(rest)), l, s.before[root]);
    if !ok {
      return;
    }
    remembered.RemainingIsStable(blocks, h.rememberedSet.blocks);
  }

  /** iterateRememberedSet: each object remembered at the start is iterated over once, and none that is remembered meanwhile. */
  method IterateRememberedSet(h: Heap, ghost s: Scope, ghost l: Layout) returns (ok: bool)
    requires IsRunning(h, s, l) && s.active == {} && s.pending == SetOf(h.RememberedEntries())
    modifies h.Repr()
    ensures CannotFail(s.before, l.survivorEnd, h.oldSpace.mmap) ==> ok
    ensures ok ==> IsRunning(h, s.(pending := {}), l) && h.roots == old(h.roots)
  {
    hide Invariant, IsStart, ArePlaced, IsLayout, AreActiveSurvivors, PageSpace.Valid, FreeList.Valid, Scavenger.ValidSpaces, CannotFail, AreBlocks, HasNoDuplicates, SetOf;
    RememberedAreListed(h, s, l);
    IteratedEntries(h.cells, h.rememberedSet.blocks);
    EmptySet();
    var remembered := new RememberedSetIterator(h.rememberedSet);
    IteratorIsApart(h, remembered);
    ok := true;
    ghost var roots := h.roots;
    while remembered.HasNext(h.rememberedSet)
      invariant ok && h.roots == roots && fresh(remembered)
      invariant h.rememberedSet.Valid() && remembered.Valid(h.rememberedSet.blocks)
      invariant HasNoDuplicates(remembered.Remaining(h.rememberedSet.blocks))
      invariant IsRunning(h, s.(pending := SetOf(remembered.Remaining(h.rememberedSet.blocks))), l)
      decreases |remembered.Remaining(h.rememberedSet.blocks)|
    {
      IteratorIsApart(h, remembered);
      ghost var s' := s.(pending := SetOf(remembered.Remaining(h.rememberedSet.blocks)));
      ok := IterateNext(h, remembered, s', l);
      if !ok {
        return;
      }
      ghost var pending' := SetOf(remembered.Remaining(h.rememberedSet.blocks));
      assert s'.(pending := pending') == s.(pending := pending');
    }
  }

  lemma IteratorIsApart(h: Heap, remembered: RememberedSetIterator)
    ensures remembered !in h.Repr()
  {
  }

  lemma RememberedAreListed(h: Heap, s: Scope, l: Layout)
    requires IsRunning(h, s, l)
    ensures h.rememberedSet.Valid() && AreListed(h.cells, h.RememberedEntries())
  {
  }

  /** The iterator goes over the remembered objects, each once. */
  lemma IteratedEntries(cells: Cells, blocks: Blocks)
    requires AreListed(cells, Entries(blocks))
    ensures HasNoDuplicates(Backwards(blocks)) && SetOf(Backwards(blocks)) == SetOf(Entries(blocks))
  {
    EntriesAreDistinct(cells, Entries(blocks));
    BackwardsIsPermutation(blocks);
    PermutationHasNoDuplicates(Entries(blocks), Backwards(blocks));
    SameElements(Entries(blocks), Backwards(blocks));
  }

  lemma EmptySet()
    ensures SetOf<Addr>([]) == {}
  {
  }

  lemma EntriesAreDistinct(cells: Cells, entries: seq<Addr>)
    requires AreListed(cells, entries)
    ensures HasNoDuplicates(entries)
  {
  }

  lemma SameElements(a: seq<Addr>, b: seq<Addr>)
    requires multiset(a) == multiset(b)
    ensures SetOf(a) == SetOf(b)
  {
    forall x
      ensures x in a <==> x in b
    {
      assert x in a <==> x in multiset(a);
      assert x in b <==> x in multiset(b);
    }
  }

  lemma FirstIsTaken(root: Addr, rest: seq<Addr>)
    requires HasNoDuplicates([root] + rest)
    ensures HasNoDuplicates(rest) && ([root] + rest)[1..] == rest
    ensures root in SetOf([root] + rest) && SetOf([root] + rest) - {root} == SetOf(rest)
  {
    var all := [root] + rest;
    assert forall i :: 0 <= i < |rest| ==> rest[i] == all[i + 1] && all[0] != all[i + 1];
  }

  /** A remembered object whose turn has come is as it was when the scavenge started. */
  lemma TakeRemembered(h: Heap, s: Scope, l: Layout, root: Addr)
    requires IsRunning(h, s, l) && s.active == {} && root in s.pending
    ensures root in s.before && root in h.cells && h.cells[root] == s.before[root]
    ensures IsSource(s.before, Current(h), root, s.before[root])
    ensures IsRunning(h, Activate(s.(pending := s.pending - {root}), root), l)
  {
    hide IsStart, IsLayout, FreeList.Valid, Tiles, ArePages, IsMmap, TagNew, Capacity, IsNewAligned, IsNew, AreListed, IsSurvivorOk, AreEvacueesOk;
    hide CopySizes, PromotedSizes, MovedSizes, AreWithin, SizeOf;
    var e := Current(h);
    TakePendingKeepsInvariant(s, e, root);
    assert IsOldOk(s, e.cells, root);
    NoCopyIsOld(s, e, root);
  }

  lemma RootsStayResolved(s: Scope, e: Evacuation, e': Evacuation, roots: seq<Value>, now: seq<Value>, i: nat)
    requires IsStart(s.before, s.live) && RootTargets(roots) <= s.live && Progresses(s.before, e, e')
    requires i <= |roots| == |now| && forall j :: 0 <= j < i ==> ResolvesValue(e.cells, roots[j], now[j])
    ensures forall j :: 0 <= j < i ==> ResolvesValue(e'.cells, roots[j], now[j])
  {
    forall j | 0 <= j < i
      ensures ResolvesValue(e'.cells, roots[j], now[j])
    {
      assert ResolvesValue(e.cells, roots[j], now[j]);
      assert roots[j].Pointer? ==> roots[j].target in RootTargets(roots);
    }
  }

  /** iterateStack, iterateExceptionHandlers, iterateHandles and iterateNativeCode. */
  method IterateRoots(h: Heap, ghost s: Scope, ghost l: Layout) returns (ok: bool)
    requires IsRunning(h, s, l) && s.active == {} && s.pending == {} && RootTargets(h.roots) <= s.live
    modifies h.Repr()
    ensures CannotFail(s.before, l.survivorEnd, h.oldSpace.mmap) ==> ok
    ensures ok ==> IsRunning(h, s, l) && IsComplete(s, Current(h), old(h.roots), h.roots)
  {
    hide AreEvacueesOk, AreCopiesOk, AreOldOk, AreListed, IsStart, ArePlaced, IsLayout, AreActiveSurvivors, FreeList.Valid, Tiles, ArePages, IsMmap, TagNew, Capacity, IsNewAligned, IsNew, CannotFail;
    hide ResolvesValue, Progresses, AreBlocks;
    ok := true;
    ghost var roots := h.roots;
    var i := 0;
    while i < |h.roots|
      invariant i <= |h.roots| == |roots| && ok
      invariant IsRunning(h, s, l)
      invariant forall j :: 0 <= j < i ==> ResolvesValue(h.cells, roots[j], h.roots[j])
      invariant forall j :: i <= j < |roots| ==> h.roots[j] == roots[j]
    {
      if h.roots[i].Pointer? {
        var object';
        ghost var e, now := Current(h), h.roots;
        assert h.roots[i].target in RootTargets(roots) by { assert roots[i] in roots; }
        ok, object' := ProcessPointer(h, RootSlot(i), s, l);
        if !ok {
          return;
        }
        RootsStayResolved(s, e, Current(h), roots, now, i);
        ResolvedRoot(h.cells, roots[i], object');
      } else {
        ImmediateIsResolved(h.cells, roots[i]);
      }
      i := i + 1;
    }
  }

  lemma ResolvedRoot(cells: Cells, v: Value, w: Addr)
    requires v.Pointer? && Resolves(cells, v.target, w)
    ensures ResolvesValue(cells, v, Pointer(w))
  {
  }

  lemma ImmediateIsResolved(cells: Cells, v: Value)
    requires !v.Pointer?
    ensures ResolvesValue(cells, v, v)
  {
  }

  // ---------- scavengerScavenge ----------

  /** The effect of a scavenge on the object graph, `f` telling where each object has gone. */
  ghost predicate IsScavenged(cells: Cells, roots: seq<Value>, survivorEnd: Addr, cells': Cells, roots': seq<Value>, survivorEnd': Addr, f: Renaming) {
    && f.Keys == Kept(cells, roots)
    // Old objects stay; a new object goes to old space exactly when it has survived a scavenge before.
    && (forall a :: a in f && IsOld(a) ==> f[a] == a)
    && (forall a :: a in f && IsNew(a) ==> (IsOld(f[a]) <==> a < survivorEnd))
    // All survivors left in new space have survived one scavenge, and no object is marked.
    && (forall x :: x in cells' && IsNew(x) ==> x < survivorEnd')
    && (forall x :: x in cells' ==> !cells'[x].tags.marked)
    // What was remembered stays so, and apart from that exactly the old objects are that point to new space.
    && (forall a :: a in f ==>
          && a in cells && f[a] in cells'
          && (cells'[f[a]].tags.remembered <==> cells[a].tags.remembered || (IsOld(f[a]) && HasPointerToNew(cells'[f[a]]))))
    && IsIsomorphism(cells, roots, cells', roots', f)
  }

  /** How far the current half is filled, and where the other one lies. */
  datatype Bounds = Bounds(top: Addr, end: Addr, survivorEnd: Addr, otherStart: Addr, otherEnd: Addr)

  ghost function BoundsOf(h: Heap): Bounds
    reads h, h.newSpace
  {
    var space := h.newSpace;
    Bounds(space.top, space.end, space.survivorEnd, TagNew(space.toSpace), space.toSpace + space.size)
  }

  /** The bytes that can be allocated in new space after a scavenge. */
  ghost function RoomAfterwards(cells: Cells, roots: seq<Value>, b: Bounds): int {
    b.otherEnd - b.otherStart - YoungBytes(cells, roots, b.survivorEnd, b.top)
  }

  /** The layout and the scope of a scavenge of the heap as it is now. */
  ghost function LayoutOf(h: Heap): Layout
    reads h, h.newSpace, h.oldSpace
  {
    var space := h.newSpace;
    Layout(TagNew(space.fromSpace), space.top, space.survivorEnd, TagNew(space.toSpace), space.toSpace + space.size, h.oldSpace.pages)
  }

  ghost function ScopeOf(h: Heap): Scope
    reads h, h.rememberedSet
  {
    Scope(h.cells, Kept(h.cells, h.roots), {}, SetOf(h.RememberedEntries()))
  }

  lemma LayoutAtStart(h: Heap)
    requires h.Valid()
    ensures IsLayout(h.cells, LayoutOf(h)) && IsNewAligned(LayoutOf(h).start)
  {
    hide FreeList.Valid, PageSpace.Valid, RememberedSet.Valid, AreObjectsOk, AreTagsOk, AreListed, IsRememberedSetComplete, TagNew, Capacity, IsNewAligned, AreWithin;
    var space := h.newSpace;
    TagIsAligned(space.fromSpace);
    TagIsAligned(space.toSpace);
    HalfFits(space.fromSpace, space.toSpace, space.size, space.top, space.survivorEnd);
  }

  /** The start of scavengerScavenge: the halves change places. */
  method SwapSpaces(h: Heap)
    requires h.Valid()
    modifies h.newSpace
    ensures IsRunning(h, old(ScopeOf(h)), old(LayoutOf(h)))
    ensures h.newSpace.fromSpace == old(h.newSpace.toSpace)
  {
    hide FreeList.Valid, Tiles, ArePages, IsMmap, AreBlocks, AreObjectsOk, AreTagsOk, AreListed, IsRememberedSetComplete, TagNew, Capacity, IsNewAligned, AreWithin;
    hide Invariant, IsStart, ArePlaced, IsLayout, Kept, NewSizes, OldSizes, SetOf;
    ghost var s, l := ScopeOf(h), LayoutOf(h);
    LayoutAtStart(h);
    KeptIsStart(h.cells, h.roots);
    InvariantAtStart(h.cells, s.live, h.RememberedEntries());
    PlacedAtStart(s, l, h.RememberedEntries());
    PendingAreOld(h.cells, h.RememberedEntries());
    var space := h.newSpace;
    space.hasPromotionFailure := false;
    space.top := TagNew(space.toSpace);
    space.end := space.toSpace + space.size;
    space.fromSpace, space.toSpace := space.toSpace, space.fromSpace;
    space.origin := map[];
    TagIsAligned(space.fromSpace);
  }

  lemma PendingAreOld(cells: Cells, entries: seq<Addr>)
    requires AreListed(cells, entries)
    ensures forall x :: x in SetOf(entries) ==> x in cells && IsOld(x)
  {
    hide IsNew;
  }

  function WithoutEvacuated(cells: Cells, start: Addr, top: Addr): Cells {
    map a | a in cells && (IsOld(a) || start <= a < top) :: cells[a]
  }

  /** The objects told by their addresses from the evacuated ones. */
  lemma RemainingAreSurvivors(s: Scope, e: Evacuation, l: Layout, used: map<Addr, nat>, top: Addr)
    requires IsStart(s.before, s.live) && Invariant(s, e) && IsLayout(s.before, l) && ArePlaced(s, e, l, used, top) && top <= l.end
    ensures WithoutEvacuated(e.cells, l.start, top) == Survivors(s.before, e)
  {
    hide Invariant, IsStart, IsLayout, ArePlaced, IsNew, IsSurvivor;
    forall a | a in e.cells
      ensures IsSurvivor(s.before, e, a) <==> IsOld(a) || l.start <= a < top
    {
      SurvivorTest(s, e, l, used, top, a);
    }
  }

  /** The effect of the whole scavenge on the object graph. */
  lemma CompleteIsScavenged(s: Scope, e: Evacuation, l: Layout, used: map<Addr, nat>, top: Addr, roots: seq<Value>, roots': seq<Value>)
    requires IsComplete(s, e, roots, roots') && AreRootsOk(s.before, roots) && s.live == Kept(s.before, roots)
    requires ArePlaced(s, e, l, used, top)
    ensures IsScavenged(s.before, roots, l.survivorEnd, Survivors(s.before, e), roots', top, Forwarding(s.before, e))
  {
    hide Invariant, IsStart, AreWithin, Forwarding, Kept, IsIsomorphism, IsSurvivor, IsNew, HasPointerToNew, Survivors, AreTagsOk, AreListed, AreObjectsOk, IsRememberedSetComplete;
    var f, cells' := Forwarding(s.before, e), Survivors(s.before, e);
    ForwardedIsKept(s, e, roots, roots');
    ScavengeIsIsomorphism(s, e, roots, roots');
    SurvivorsAreOk(s, e, roots, roots');
    forall a | a in f
      ensures IsOld(a) ==> f[a] == a
      ensures IsNew(a) ==> (IsOld(f[a]) <==> a < l.survivorEnd)
    {
      PromotionFollowsAge(s, e, l, used, top, a);
    }
    forall a | a in f
      ensures a in s.before && f[a] in cells'
      ensures cells'[f[a]].tags.remembered <==> s.before[a].tags.remembered || (IsOld(f[a]) && HasPointerToNew(cells'[f[a]]))
    {
      ForwardingDomain(s, e, a);
      SurvivorIsOk(s, e, f[a], a);
    }
    forall x | x in cells' && IsNew(x)
      ensures x < top
    {
      NewSurvivorIsCopy(s, e, x);
      CopyIsSmaller(s.before, e.origin, l.start, top, x);
    }
  }

  /** What a scavenge adds to the list of remembered objects are exactly objects that point to new space. */
  lemma AddedPointToNew(cells: Cells, roots: seq<Value>, survivorEnd: Addr, entries: seq<Addr>,
                        cells': Cells, roots': seq<Value>, survivorEnd': Addr, entries': seq<Addr>, f: Renaming)
    requires IsScavenged(cells, roots, survivorEnd, cells', roots', survivorEnd', f)
    requires AreListed(cells, entries) && AreListed(cells', entries') && OldObjects(cells) <= Kept(cells, roots)
    ensures forall x :: x in cells' && IsOld(x) ==> (x in entries' <==> x in entries || HasPointerToNew(cells'[x]))
  {
    hide IsNew, HasPointerToNew, Kept, HasNoDuplicates, MapsObjects, MapsRoots, IsInjective, IsImageOfSome;
    forall x | x in cells' && IsOld(x)
      ensures x in entries' <==> x in entries || HasPointerToNew(cells'[x])
    {
      var a := SourceOf(f, cells', x);
      assert x in entries ==> x in OldObjects(cells) && f[x] == x;
    }
  }

  lemma SourceOf(f: Renaming, cells': Cells, x: Addr) returns (a: Addr)
    requires (forall b :: b in cells' ==> IsImageOfSome(f, b)) && x in cells'
    ensures a in f && f[a] == x
  {
    assert IsImageOfSome(f, x);
    a :| a in f && f[a] == x;
  }

  lemma NewSurvivorIsCopy(s: Scope, e: Evacuation, x: Addr)
    requires IsStart(s.before, s.live) && Invariant(s, e) && x in Survivors(s.before, e) && IsNew(x)
    ensures AreObjectsOk(s.before) && x in e.origin && e.origin[x] in s.before
  {
    hide IsNew, AreListed, AreOldOk, AreEvacueesOk, IsSurvivorOk, AreObjectsOk, AreTagsOk, IsClosed;
    assert IsCopyOk(s, e.cells, e.origin, x);
  }

  /** The end of scavengerScavenge; the model forgets the evacuated objects. */
  method FinishScavenge(h: Heap, ghost s: Scope, ghost l: Layout, ghost roots: seq<Value>) returns (ghost f: Renaming)
    requires IsRunning(h, s, l) && IsComplete(s, Current(h), roots, h.roots) && AreRootsOk(s.before, roots)
    requires s.live == Kept(s.before, roots)
    modifies h`cells, h.newSpace`survivorEnd
    ensures h.Valid() && HasGrownOnFailure(h.newSpace.hasPromotionFailure, h.oldSpace.pages, l.pages)
    ensures IsScavenged(s.before, roots, l.survivorEnd, h.cells, h.roots, h.newSpace.survivorEnd, f)
    ensures h.newSpace.survivorEnd == h.newSpace.top
    ensures h.newSpace.end == l.end && h.newSpace.top == l.start + YoungBytes(s.before, roots, l.survivorEnd, l.limit)
  {
    hide FreeList.Valid, Tiles, ArePages, IsMmap, AreBlocks, AreObjectsOk, AreTagsOk, AreListed, IsRememberedSetComplete, TagNew, Capacity, AreWithin, AreRootsOk;
    hide Invariant, IsStart, IsLayout, Kept, NewSizes, OldSizes, CopySizes, PromotedSizes, MovedSizes, YoungSizes, Survivors, Forwarding, IsScavenged, AreActiveSurvivors, WithoutEvacuated;
    ghost var e, used := Current(h), h.oldSpace.used;
    RemainingAreSurvivors(s, e, l, used, h.newSpace.top);
    CompleteIsScavenged(s, e, l, used, h.newSpace.top, roots, h.roots);
    SurvivorsAreOk(s, e, roots, h.roots);
    SurvivorSizes(s, e, l, used, h.newSpace.top);
    MovedAreYoung(s, e, roots, h.roots, l.survivorEnd);
    f := Forwarding(s.before, e);
    h.newSpace.survivorEnd := h.newSpace.top;
    var start, top := TagNew(h.newSpace.fromSpace), h.newSpace.top;
    h.cells := WithoutEvacuated(h.cells, start, top);
  }

  /**
   scavengerScavenge.  The heap is valid again and isomorphic to the part of it that is kept; the
   half that was evacuated holds no object any more.
   */
  method Scavenge(h: Heap) returns (ok: bool, ghost f: Renaming)
    requires h.Valid()
    modifies h.Repr()
    ensures CannotFail(old(h.cells), old(h.newSpace.survivorEnd), h.oldSpace.mmap) ==> ok
    ensures ok ==> h.Valid() && old(h.oldSpace.pages) <= h.oldSpace.pages
    ensures ok ==> (h.newSpace.hasPromotionFailure <==> |old(h.oldSpace.pages)| < |h.oldSpace.pages|)
    ensures ok ==> forall x :: x in h.cells && IsOld(x) ==>
              (x in h.RememberedEntries() <==> x in old(h.RememberedEntries()) || HasPointerToNew(h.cells[x]))
    ensures ok ==> IsScavenged(old(h.cells), old(h.roots), old(h.newSpace.survivorEnd), h.cells, h.roots, h.newSpace.survivorEnd, f)
    ensures ok ==> h.newSpace.survivorEnd == h.newSpace.top
    ensures ok ==> h.newSpace.end - h.newSpace.top == RoomAfterwards(old(h.cells), old(h.roots), old(BoundsOf(h)))
  {
    hide Heap.Valid, IsRunning, IsScavenged, CannotFail, IsComplete, Kept, YoungBytes, IsNew, HasPointerToNew, AreListed, OldObjects;
    ghost var s, l, roots, entries := ScopeOf(h), LayoutOf(h), h.roots, h.RememberedEntries();
    KeptRoots(h);
    ValidIsListed(h);
    SwapSpaces(h);
    f := map[];
    ok := IterateRememberedSet(h, s, l);
    if !ok {
      return;
    }
    ok := IterateRoots(h, s.(pending := {}), l);
    if !ok {
      return;
    }
    f := FinishScavenge(h, s.(pending := {}), l, roots);
    ValidIsListed(h);
    AddedPointToNew(s.before, roots, l.survivorEnd, entries, h.cells, h.roots, h.newSpace.survivorEnd, h.RememberedEntries(), f);
  }

  lemma ValidIsListed(h: Heap)
    requires h.Valid()
    ensures AreListed(h.cells, h.RememberedEntries()) && OldObjects(h.cells) <= Kept(h.cells, h.roots)
  {
    hide PageSpace.Valid, Scavenger.Valid, RememberedSet.Valid, IsRememberedSetComplete, AreWithin, NewSizes, OldSizes, AreObjectsOk, AreTagsOk, AreListed, Kept, IsNew;
    KeptIsStart(h.cells, h.roots);
  }

  lemma KeptRoots(h: Heap)
    requires h.Valid()
    ensures AreRootsOk(h.cells, h.roots) && RootTargets(h.roots) <= Kept(h.cells, h.roots)
  {
    hide PageSpace.Valid, Scavenger.Valid, RememberedSet.Valid, AreListed, IsRememberedSetComplete, AreWithin, NewSizes, OldSizes, AreObjectsOk, AreTagsOk, Kept;
    KeptIsStart(h.cells, h.roots);
  }
}

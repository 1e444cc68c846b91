/** Marking from the roots, with the queue it uses (vm/GarbageCollector.c). */
module GarbageCollection {
  import opened ObjectModel
  import opened FreeLists
  import opened PageSpaces
  import opened RememberedSets
  import opened Heaps
  import opened Reachability
  import opened Markings

  const QUEUE_INIT_SIZE: nat := 1024

  /** The length of `objects` is `size`. */
  class MarkingQueue {
    var objects: array<Addr>
    var index: nat
    /** Everything that was ever added, in that order. */
    ghost var added: seq<Addr>

    ghost predicate Valid()
      reads this
    {
      index <= objects.Length
    }

    ghost function Contents(): seq<Addr>
      requires Valid()
      reads this, objects
    {
      objects[..index]
    }

    constructor ()
      ensures Valid() && fresh(objects) && Contents() == [] && added == []
    {
      objects := new Addr[QUEUE_INIT_SIZE];
      index := 0;
      added := [];
    }

    /** realloc by QUEUE_INIT_SIZE entries. */
    method Grow()
      requires Valid()
      modifies this`objects
      ensures Valid() && fresh(objects) && Contents() == old(Contents()) && index < objects.Length
    {
      var source, size := objects, objects.Length;
      var grown := new Addr[size + QUEUE_INIT_SIZE];
      var i := 0;
      while i < size
        invariant i <= size && grown[..i] == source[..i] && objects == source
      {
        grown[i] := source[i];
        i := i + 1;
      }
      assert grown[..index] == grown[..size][..index];
      objects := grown;
    }

    method Add(object': Addr)
      requires Valid()
      modifies this, objects
      ensures Valid() && (objects == old(objects) || fresh(objects))
      ensures Contents() == old(Contents()) + [object'] && added == old(added) + [object']
    {
      if objects.Length == index {
        Grow();
      }
      objects[index] := object';
      index := index + 1;
      added := added + [object'];
    }

    method Pop() returns (object': Addr)
      requires Valid() && Contents() != []
      modifies this`index
      ensures Valid() && Contents() + [object'] == old(Contents())
      ensures Contents() == old(Contents())[..old(index) - 1] && object' == old(Contents())[old(index) - 1]
    {
      index := index - 1;
      object' := objects[index];
    }

    predicate IsEmpty()
      requires Valid()
      reads this, objects
      ensures IsEmpty() <==> Contents() == []
    {
      index == 0
    }
  }

  ghost function Current(h: Heap, queue: MarkingQueue): Marking
    requires queue.Valid()
    reads h, h.rememberedSet, queue, queue.objects
  {
    Marking(h.cells, queue.Contents(), queue.added, h.RememberedEntries())
  }

  /** The heap whose reachable part is being marked. */
  datatype Scope = Scope(before: Cells, start: set<Addr>)

  ghost predicate IsScope(space: Scavenger, s: Scope)
    reads space
  {
    && AreObjectsOk(s.before)
    && AreWithin(NewSizes(s.before), TagNew(space.fromSpace), space.top)
    && space.ValidSpaces() && s.start <= s.before.Keys
  }

  ghost predicate IsRunning(h: Heap, queue: MarkingQueue, s: Scope, active: set<Addr>)
    reads h, h.newSpace, h.rememberedSet, queue, queue.objects
  {
    && IsScope(h.newSpace, s) && h.rememberedSet.Valid() && queue.Valid()
    && Invariant(s.before, s.start, active, Current(h, queue))
  }

  /** The assertion of markObject. */
  lemma IsInHeap(h: Heap, s: Scope, a: Addr)
    requires IsScope(h.newSpace, s) && a in s.before
    ensures IsOld(a) || h.newSpace.fromSpace <= a <= h.newSpace.fromSpace + h.newSpace.size
  {
    hide SizeOf, IsNew, Capacity, AreObjectsOk;
    assert IsNew(a) ==> a in NewSizes(s.before);
  }

  lemma ReachableAreCells(s: Scope, active: set<Addr>, m: Marking, a: Addr)
    requires Invariant(s.before, s.start, active, m) && a in ReachableSet(s.before, s.start)
    ensures a in s.before && a in m.cells
  {
  }

  lemma RootIsCell(s: Scope, m: Marking, root: Addr)
    requires Invariant(s.before, s.start, {root}, m)
    ensures root in m.cells
  {
  }

  /** What markObject does: it marks the object and queues it, unless it is marked already. */
  ghost predicate IsMarkStep(m: Marking, a: Addr, m': Marking) {
    && a in m.cells && m' == Mark(m, a) && IsMarked(m'.cells, a) && HasSpread(m, m')
  }

  /** No mark is lost, and one is added unless nothing happens: the measure of the loop over the queue. */
  ghost predicate HasSpread(m: Marking, m': Marking) {
    AreMarksKept(m.cells, m'.cells) && (m' == m || Unmarked(m'.cells) < Unmarked(m.cells))
  }

  method MarkObject(h: Heap, queue: MarkingQueue, a: Addr, ghost s: Scope, ghost active: set<Addr>)
    requires IsRunning(h, queue, s, active) && a in ReachableSet(s.before, s.start)
    modifies h`cells, queue, queue.objects
    ensures IsRunning(h, queue, s, active) && (queue.objects == old(queue.objects) || fresh(queue.objects))
    ensures IsMarkStep(old(Current(h, queue)), a, Current(h, queue))
  {
    hide Invariant, IsScope, ReachableSet, AreBlocks, IsMarked, AreMarksKept, Unmarked;
    ghost var m := Current(h, queue);
    ReachableAreCells(s, active, m, a);
    MarkKeepsInvariant(s.before, s.start, active, m, a);
    assert IsOld(a) || h.newSpace.fromSpace <= a <= h.newSpace.fromSpace + h.newSpace.size by { IsInHeap(h, s, a); }
    if h.cells[a].tags.marked {
      return;
    }
    h.cells := h.cells[a := MarkedObject(h.cells[a])];
    queue.Add(a);
  }

  lemma EdgeIsReachable(s: Scope, a: Addr, b: Addr)
    requires AreObjectsOk(s.before) && s.start <= s.before.Keys && a in ReachableSet(s.before, s.start)
    requires a in s.before && HasEdge(s.before[a], b)
    ensures b in ReachableSet(s.before, s.start) && b in s.before
  {
    hide AreObjectsOk, ReachableSet, HasEdge;
    ObjectsAreClosed(s.before);
    ReachableIsClosed(s.before, s.start);
  }

  predicate AreMarkedBelow(cells: Cells, o: Object, i: nat)
    requires i <= |o.vars|
  {
    IsMarked(cells, o.cls) && forall j :: 0 <= j < i && o.vars[j].Pointer? ==> IsMarked(cells, o.vars[j].target)
  }

  lemma MarkedBelowIsKept(cells: Cells, cells': Cells, o: Object, i: nat)
    requires i <= |o.vars| && AreMarkedBelow(cells, o, i) && AreMarksKept(cells, cells')
    ensures AreMarkedBelow(cells', o, i)
  {
    hide IsMarked;
  }

  lemma AllAreMarked(cells: Cells, o: Object)
    requires AreMarkedBelow(cells, o, |o.vars|)
    ensures AreEdgesMarked(cells, o)
    ensures HasPointerToNewBelow(o, |o.vars|) <==> HasPointerToNew(o)
  {
    hide IsMarked, IsNew;
    if HasPointerToNew(o) && !IsNew(o.cls) {
      var v :| v in o.vars && PointsToNew(v);
      var i :| 0 <= i < |o.vars| && o.vars[i] == v;
    }
  }

  /** Contents are what they were, so the loop is over the variables that the class tells of. */
  lemma ContentsAreSame(s: Scope, active: set<Addr>, m: Marking, root: Addr)
    requires AreObjectsOk(s.before) && Invariant(s.before, s.start, active, m) && root in s.before
    ensures root in m.cells && m.cells[root].cls == s.before[root].cls && m.cells[root].vars == s.before[root].vars
    ensures m.cells[root].cls in m.cells && IsClass(m.cells[m.cells[root].cls])
    ensures VarsCount(ShapeOf(m.cells[m.cells[root].cls]), m.cells[root].size) == |m.cells[root].vars|
  {
    hide AreQueued, AreFinishedOk;
    assert IsObjectOk(s.before, s.before[root]);
    var cls := s.before[root].cls;
    assert HasSameContents(s.before[cls], m.cells[cls]) && HasSameContents(s.before[root], m.cells[root]);
  }

  lemma MarkStepsCompose(m: Marking, m': Marking, m'': Marking)
    requires HasSpread(m, m') && HasSpread(m', m'')
    ensures HasSpread(m, m'')
  {
  }

  /** The loop of iterateObject has marked the class and the first `i` variables of `root`. */
  ghost predicate IsIterating(h: Heap, queue: MarkingQueue, s: Scope, root: Addr, i: nat, remember: bool)
    reads h, h.newSpace, h.rememberedSet, queue, queue.objects
  {
    && IsRunning(h, queue, s, {root}) && root in s.before && root in ReachableSet(s.before, s.start)
    && i <= |s.before[root].vars| && AreMarkedBelow(h.cells, s.before[root], i)
    && (remember <==> HasPointerToNewBelow(s.before[root], i))
  }

  /** One turn of the loop in iterateObject. */
  method MarkVar(h: Heap, queue: MarkingQueue, root: Addr, i: nat, remember: bool, ghost s: Scope) returns (remember': bool)
    requires IsIterating(h, queue, s, root, i, remember) && i < |s.before[root].vars|
    modifies h`cells, queue, queue.objects
    ensures IsIterating(h, queue, s, root, i + 1, remember') && (queue.objects == old(queue.objects) || fresh(queue.objects))
    ensures HasSpread(old(Current(h, queue)), Current(h, queue))
  {
    hide Invariant, AreObjectsOk, AreWithin, NewSizes, Scavenger.ValidSpaces, TagNew, ReachableSet, AreBlocks, IsMarked, IsNew, Unmarked;
    ghost var m := Current(h, queue);
    ContentsAreSame(s, {root}, m, root);
    remember' := remember;
    if h.cells[root].vars[i].Pointer? {
      var object' := h.cells[root].vars[i].target;
      EdgeIsReachable(s, root, object');
      remember' := remember || IsNew(object');
      MarkObject(h, queue, object', s, {root});
      MarkedBelowIsKept(m.cells, h.cells, s.before[root], i);
    }
  }

  /** The end of iterateObject: TAG_REMEMBERED is cleared, and set again for an old object that points to new space. */
  method FinishIteration(h: Heap, queue: MarkingQueue, root: Addr, remember: bool, ghost s: Scope)
    requires IsRunning(h, queue, s, {root}) && root in s.before && AreEdgesMarked(h.cells, s.before[root])
    requires remember <==> HasPointerToNew(s.before[root])
    modifies h`cells, h.rememberedSet
    ensures IsRunning(h, queue, s, {})
    ensures Unmarked(h.cells) == Unmarked(old(h.cells)) && AreMarksKept(old(h.cells), h.cells)
  {
    hide Invariant, IsScope, ReachableSet, AreBlocks, HasPointerToNew, IsNew, AreEdgesMarked;
    ghost var m := Current(h, queue);
    FinishKeepsInvariant(s.before, s.start, m, root, remember && IsOld(root));
    RootIsCell(s, m, root);
    FinishKeepsMarks(m, root, remember && IsOld(root));
    h.cells := h.cells[root := WithRemembered(h.cells[root], false)];
    if remember && IsOld(root) {
      h.RememberedSetAdd(root);
    }
    assert Current(h, queue) == Finish(m, root, remember && IsOld(root));
  }

  /** iterateObject: marks what the object points to, and remembers it anew if it is old and points to new space. */
  method IterateObject(h: Heap, queue: MarkingQueue, root: Addr, ghost s: Scope)
    requires IsRunning(h, queue, s, {root}) && root in s.before && root in ReachableSet(s.before, s.start)
    modifies h`cells, h.rememberedSet, queue, queue.objects
    ensures IsRunning(h, queue, s, {}) && (queue.objects == old(queue.objects) || fresh(queue.objects))
    ensures Unmarked(h.cells) < Unmarked(old(h.cells)) || (Unmarked(h.cells) == Unmarked(old(h.cells)) && queue.Contents() == old(queue.Contents()))
    ensures AreMarksKept(old(h.cells), h.cells)
  {
    hide Invariant, AreObjectsOk, AreWithin, NewSizes, Scavenger.ValidSpaces, TagNew, ReachableSet, AreBlocks, IsMarked, IsNew, Unmarked;
    ghost var m := Current(h, queue);
    ContentsAreSame(s, {root}, m, root);
    var cls := h.cells[root].cls;
    EdgeIsReachable(s, root, cls);
    var remember := IsNew(cls);
    MarkObject(h, queue, cls, s, {root});
    ContentsAreSame(s, {root}, Current(h, queue), root);
    var size := VarsCount(ShapeOf(h.cells[cls]), h.cells[root].size);
    var i := 0;
    while i < size
      invariant i <= size == |s.before[root].vars|
      invariant IsIterating(h, queue, s, root, i, remember) && (queue.objects == old(queue.objects) || fresh(queue.objects))
      invariant HasSpread(m, Current(h, queue))
      invariant h.RememberedEntries() == m.entries
    {
      ghost var m' := Current(h, queue);
      remember := MarkVar(h, queue, root, i, remember, s);
      MarkStepsCompose(m, m', Current(h, queue));
      i := i + 1;
    }
    AllAreMarked(h.cells, s.before[root]);
    FinishIteration(h, queue, root, remember, s);
  }

  lemma RootIsReachable(h: Heap, s: Scope, i: nat)
    requires IsScope(h.newSpace, s) && s.start == RootTargets(h.roots) && i < |h.roots| && h.roots[i].Pointer?
    ensures h.roots[i].target in ReachableSet(s.before, s.start)
  {
    hide AreObjectsOk, ReachableSet, AreWithin, NewSizes, Scavenger.ValidSpaces, TagNew;
    ObjectsAreClosed(s.before);
    ReachableIsClosed(s.before, s.start);
    assert h.roots[i] in h.roots;
  }

  predicate AreRootsMarked(cells: Cells, roots: seq<Value>, i: nat)
    requires i <= |roots|
  {
    forall j :: 0 <= j < i && roots[j].Pointer? ==> IsMarked(cells, roots[j].target)
  }

  /** iterateStack, iterateHandles and iterateNativeCode. */
  method IterateRoots(h: Heap, queue: MarkingQueue, ghost s: Scope)
    requires IsRunning(h, queue, s, {}) && s.start == RootTargets(h.roots)
    modifies h`cells, queue, queue.objects
    ensures IsRunning(h, queue, s, {}) && (queue.objects == old(queue.objects) || fresh(queue.objects))
    ensures AreRootsMarked(h.cells, h.roots, |h.roots|) && h.RememberedEntries() == old(h.RememberedEntries())
  {
    hide Invariant, IsScope, ReachableSet, AreBlocks, IsMarked, Unmarked;
    var i := 0;
    while i < |h.roots|
      invariant i <= |h.roots| && AreRootsMarked(h.cells, h.roots, i)
      invariant IsRunning(h, queue, s, {}) && (queue.objects == old(queue.objects) || fresh(queue.objects))
    {
      if h.roots[i].Pointer? {
        RootIsReachable(h, s, i);
        MarkObject(h, queue, h.roots[i].target, s, {});
      }
      i := i + 1;
    }
  }

  lemma RootsAreMarked(space: Scavenger, s: Scope, cells: Cells, roots: seq<Value>)
    requires IsScope(space, s) && s.start == RootTargets(roots) && AreRootsMarked(cells, roots, |roots|)
    ensures IsClosed(s.before, s.before.Keys) && forall a :: a in s.start ==> IsMarked(cells, a)
  {
    hide AreObjectsOk, ReachableSet, AreWithin, NewSizes, Scavenger.ValidSpaces, TagNew, IsMarked;
    ObjectsAreClosed(s.before);
    forall a | a in s.start
      ensures IsMarked(cells, a)
    {
      var i :| 0 <= i < |roots| && roots[i] == Pointer(a);
    }
  }

  /**
   gcMarkRoots, after the remembered set was reset.  Exactly what is reachable gets marked and
   remembered anew, and `added` tells in which order it was queued.
   */
  method MarkRoots(h: Heap) returns (ghost added: seq<Addr>)
    requires h.rememberedSet.Valid() && h.RememberedEntries() == [] && (forall a :: a in h.cells ==> !h.cells[a].tags.marked)
    requires IsScope(h.newSpace, Scope(h.cells, RootTargets(h.roots)))
    modifies h`cells, h.rememberedSet
    ensures h.rememberedSet.Valid()
    ensures IsMarking(old(h.cells), RootTargets(h.roots), Marking(h.cells, [], added, h.RememberedEntries()))
  {
    hide Invariant, IsScope, ReachableSet, AreBlocks, IsMarked, IsMarking;
    ghost var s := Scope(h.cells, RootTargets(h.roots));
    NothingMarked(s.before, s.start);
    var queue := new MarkingQueue();
    assert Current(h, queue) == Marking(h.cells, [], [], []);
    IterateRoots(h, queue, s);
    while !queue.IsEmpty()
      invariant IsRunning(h, queue, s, {}) && fresh(queue) && fresh(queue.objects)
      invariant AreRootsMarked(h.cells, h.roots, |h.roots|)
      decreases Unmarked(h.cells), |queue.Contents()|
    {
      ghost var m := Current(h, queue);
      PopKeepsInvariant(s.before, s.start, m);
      var root := queue.Pop();
      assert Current(h, queue) == Pop(m);
      ReachableAreCells(s, {root}, Pop(m), root);
      IterateObject(h, queue, root, s);
    }
    RootsAreMarked(h.newSpace, s, h.cells, h.roots);
    EmptyQueueIsMarking(s.before, s.start, Current(h, queue));
    added := queue.added;
  }
}

/** The state of a mark phase, and what each of its steps keeps (the first half of vm/GarbageCollector.c). */
module Markings {
  import opened Collections
  import opened ObjectModel
  import opened Heaps
  import opened Reachability

  /**
   `queue` holds the objects that are still to be iterated over, `added` all that were ever queued,
   and `entries` the remembered set that is being rebuilt.
   */
  datatype Marking = Marking(cells: Cells, queue: seq<Addr>, added: seq<Addr>, entries: seq<Addr>)

  function MarkedObject(o: Object): Object {
    o.(tags := o.tags.(marked := true))
  }

  function WithRemembered(o: Object, remembered: bool): Object {
    o.(tags := o.tags.(remembered := remembered))
  }

  predicate IsMarked(cells: Cells, a: Addr) {
    a in cells && cells[a].tags.marked
  }

  /** Only the mark and TAG_REMEMBERED change. */
  predicate HasSameContents(o: Object, c: Object) {
    c == o.(tags := o.tags.(marked := c.tags.marked, remembered := c.tags.remembered))
  }

  ghost predicate AreSameContents(before: Cells, cells: Cells) {
    cells.Keys == before.Keys && forall a :: a in before ==> HasSameContents(before[a], cells[a])
  }

  /** Nothing unreachable is marked, and what is marked has been queued once. */
  ghost predicate AreQueued(before: Cells, start: set<Addr>, m: Marking) {
    && HasNoDuplicates(m.added)
    && (forall a :: a in m.added <==> IsMarked(m.cells, a))
    && (forall a :: a in m.added ==> a in ReachableSet(before, start))
    && HasNoDuplicates(m.queue) && (forall a :: a in m.queue ==> a in m.added)
  }

  ghost predicate AreEdgesMarked(cells: Cells, o: Object) {
    forall b :: HasEdge(o, b) ==> IsMarked(cells, b)
  }

  /** The object was taken from the queue and iterated over. */
  predicate IsFinished(m: Marking, active: set<Addr>, a: Addr) {
    a in m.added && a !in m.queue && a !in active
  }

  ghost predicate AreFinishedOk(before: Cells, active: set<Addr>, m: Marking) {
    && (forall a :: IsFinished(m, active, a) && a in before && a in m.cells ==>
          AreEdgesMarked(m.cells, before[a])
          && (m.cells[a].tags.remembered <==> IsOld(a) && HasPointerToNew(before[a])))
    && HasNoDuplicates(m.entries)
    && (forall a :: a in m.entries <==> IsFinished(m, active, a) && a in m.cells && m.cells[a].tags.remembered)
  }

  ghost predicate Invariant(before: Cells, start: set<Addr>, active: set<Addr>, m: Marking) {
    && AreSameContents(before, m.cells)
    && AreQueued(before, start, m)
    && (forall a :: a in active ==> a in m.added && a !in m.queue)
    && AreFinishedOk(before, active, m)
  }

  ghost function Unmarked(cells: Cells): set<Addr> {
    set a | a in cells && !cells[a].tags.marked
  }

  /** markObject. */
  function Mark(m: Marking, a: Addr): Marking
    requires a in m.cells
  {
    if m.cells[a].tags.marked then m
    else m.(cells := m.cells[a := MarkedObject(m.cells[a])], queue := m.queue + [a], added := m.added + [a])
  }

  lemma MarkKeepsQueued(before: Cells, start: set<Addr>, m: Marking, a: Addr)
    requires AreQueued(before, start, m) && a in ReachableSet(before, start) && a in m.cells && !IsMarked(m.cells, a)
    ensures AreQueued(before, start, Mark(m, a))
  {
    hide ReachableSet;
    assert a !in m.queue && a !in m.added;
  }

  lemma MarkKeepsFinished(before: Cells, start: set<Addr>, active: set<Addr>, m: Marking, a: Addr)
    requires AreQueued(before, start, m) && AreFinishedOk(before, active, m) && a in m.cells && !IsMarked(m.cells, a)
    ensures AreFinishedOk(before, active, Mark(m, a))
  {
    hide ReachableSet, HasPointerToNew, IsNew, HasEdge;
    var m' := Mark(m, a);
    assert a in m'.queue by { assert m'.queue[|m.queue|] == a; }
    forall b
      ensures IsFinished(m', active, b) <==> IsFinished(m, active, b)
      ensures IsFinished(m, active, b) ==> b != a
    {
      assert a !in m.added;
    }
  }

  /** Marking an object keeps all marks, and either adds one or changes nothing. */
  lemma MarkKeepsInvariant(before: Cells, start: set<Addr>, active: set<Addr>, m: Marking, a: Addr)
    requires Invariant(before, start, active, m) && a in ReachableSet(before, start) && a in m.cells
    ensures Invariant(before, start, active, Mark(m, a)) && IsMarked(Mark(m, a).cells, a)
    ensures AreMarksKept(m.cells, Mark(m, a).cells)
    ensures Mark(m, a) == m || Unmarked(Mark(m, a).cells) < Unmarked(m.cells)
  {
    hide ReachableSet, AreQueued, AreFinishedOk;
    if !IsMarked(m.cells, a) {
      MarkKeepsQueued(before, start, m, a);
      MarkKeepsFinished(before, start, active, m, a);
      assert a !in active by { AddedAreMarked(before, start, m); }
      assert a in Unmarked(m.cells);
    }
  }

  ghost predicate AreMarksKept(cells: Cells, cells': Cells) {
    forall b :: IsMarked(cells, b) ==> IsMarked(cells', b)
  }

  lemma AddedAreMarked(before: Cells, start: set<Addr>, m: Marking)
    requires AreQueued(before, start, m)
    ensures forall b :: b in m.added <==> IsMarked(m.cells, b)
  {
  }

  /** markingQueuePop: the object is iterated over next. */
  function Pop(m: Marking): Marking
    requires m.queue != []
  {
    m.(queue := m.queue[..|m.queue| - 1])
  }

  lemma PopKeepsInvariant(before: Cells, start: set<Addr>, m: Marking)
    requires Invariant(before, start, {}, m) && m.queue != []
    ensures var a := m.queue[|m.queue| - 1];
            && Invariant(before, start, {a}, Pop(m)) && a in m.cells && IsMarked(m.cells, a)
            && a in ReachableSet(before, start)
  {
    hide ReachableSet, HasPointerToNew, IsNew, AreEdgesMarked;
    var last := |m.queue| - 1;
    var a, m' := m.queue[last], Pop(m);
    forall b
      ensures b in m.queue <==> b in m'.queue || b == a
      ensures b in m'.queue ==> b != a
    {
      if b in m.queue {
        var i :| 0 <= i < |m.queue| && m.queue[i] == b;
        assert i < last ==> m'.queue[i] == b;
      }
    }
    assert forall b :: IsFinished(m', {a}, b) <==> IsFinished(m, {}, b);
  }

  /** The end of iterateObject: TAG_REMEMBERED is set anew. */
  function Finish(m: Marking, a: Addr, remember: bool): Marking
    requires a in m.cells
  {
    m.(cells := m.cells[a := WithRemembered(m.cells[a], remember)], entries := if remember then m.entries + [a] else m.entries)
  }

  lemma FinishKeepsFinished(before: Cells, start: set<Addr>, m: Marking, a: Addr, remember: bool)
    requires AreQueued(before, start, m) && AreFinishedOk(before, {a}, m) && a in m.added && a !in m.queue && a in m.cells
    requires a in before && AreEdgesMarked(m.cells, before[a]) && (remember <==> IsOld(a) && HasPointerToNew(before[a]))
    ensures AreFinishedOk(before, {}, Finish(m, a, remember))
  {
    hide ReachableSet, HasPointerToNew, IsNew, AreEdgesMarked, AreQueued, IsMarked;
    var m' := Finish(m, a, remember);
    assert forall b :: IsFinished(m', {}, b) <==> IsFinished(m, {a}, b) || b == a;
    assert a !in m.entries;
    FinishKeepsMarks(m, a, remember);
    forall b | b in before && AreEdgesMarked(m.cells, before[b])
      ensures AreEdgesMarked(m'.cells, before[b])
    {
      MarksKeepEdges(m.cells, m'.cells, before[b]);
    }
    AppendedEntries(m.entries, a);
  }

  lemma FinishKeepsMarks(m: Marking, a: Addr, remember: bool)
    requires a in m.cells
    ensures AreMarksKept(m.cells, Finish(m, a, remember).cells) && AreMarksKept(Finish(m, a, remember).cells, m.cells)
  {
  }

  lemma FinishKeepsInvariant(before: Cells, start: set<Addr>, m: Marking, a: Addr, remember: bool)
    requires Invariant(before, start, {a}, m) && a in before && AreEdgesMarked(m.cells, before[a])
    requires remember <==> IsOld(a) && HasPointerToNew(before[a])
    ensures Invariant(before, start, {}, Finish(m, a, remember))
  {
    hide ReachableSet, HasPointerToNew, IsNew, AreEdgesMarked, AreFinishedOk;
    FinishKeepsMarks(m, a, remember);
    FinishKeepsFinished(before, start, m, a, remember);
  }

  lemma AppendedEntries(entries: seq<Addr>, a: Addr)
    ensures forall b :: b in entries + [a] <==> b in entries || b == a
  {
  }

  lemma MarksKeepEdges(cells: Cells, cells': Cells, o: Object)
    requires AreEdgesMarked(cells, o) && AreMarksKept(cells, cells')
    ensures AreEdgesMarked(cells', o)
  {
    hide HasEdge, IsMarked;
  }

  /** The outcome of a mark phase. */
  ghost predicate IsMarking(before: Cells, start: set<Addr>, m: Marking) {
    && AreSameContents(before, m.cells)
    // Marked is exactly what is reachable, and each such object was queued once.
    && (forall a :: IsMarked(m.cells, a) <==> a in ReachableSet(before, start))
    && HasNoDuplicates(m.added) && (forall a :: a in m.added <==> a in ReachableSet(before, start))
    // Remembered is exactly which of these is old and points to new space.
    && HasNoDuplicates(m.entries)
    && (forall a :: a in m.entries <==> a in ReachableSet(before, start) && IsOld(a) && HasPointerToNew(before[a]))
    && (forall a :: a in ReachableSet(before, start) ==> (m.cells[a].tags.remembered <==> a in m.entries))
  }

  lemma NothingMarked(before: Cells, start: set<Addr>)
    requires forall a :: a in before ==> !before[a].tags.marked
    ensures Invariant(before, start, {}, Marking(before, [], [], []))
  {
  }

  lemma MarkedIsClosed(before: Cells, start: set<Addr>, m: Marking)
    requires Invariant(before, start, {}, m) && m.queue == [] && IsClosed(before, before.Keys)
    ensures IsClosed(before, set a | a in m.added)
  {
    hide ReachableSet, HasPointerToNew, IsNew, HasEdge;
    forall a, b | a in m.added && HasEdge(before[a], b)
      ensures b in m.added
    {
      assert IsFinished(m, {}, a) && IsMarked(m.cells, a);
      assert AreEdgesMarked(m.cells, before[a]);
    }
  }

  lemma EmptyQueueIsMarking(before: Cells, start: set<Addr>, m: Marking)
    requires Invariant(before, start, {}, m) && m.queue == [] && IsClosed(before, before.Keys)
    requires forall a :: a in start ==> IsMarked(m.cells, a)
    ensures IsMarking(before, start, m)
  {
    hide ReachableSet, HasPointerToNew, IsNew, HasEdge, AreEdgesMarked, IsClosed;
    MarkedIsClosed(before, start, m);
    ReachableIsLeast(before, start, set a | a in m.added);
    forall a
      ensures IsMarked(m.cells, a) <==> a in ReachableSet(before, start)
      ensures IsFinished(m, {}, a) <==> a in ReachableSet(before, start)
    {
      assert a in ReachableSet(before, start) ==> a in set b | b in m.added;
    }
  }
}

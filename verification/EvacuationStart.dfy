/** What holds when a scavenge starts. */
module EvacuationStarts {
  import opened Collections
  import opened ObjectModel
  import opened FreeLists
  import opened Heaps
  import opened Reachability
  import opened Evacuations

  ghost function OldObjects(cells: Cells): set<Addr> {
    set a | a in cells && IsOld(a)
  }

  /** What a scavenge keeps alive: what is reachable from the roots or from any old object, dead or not. */
  ghost function Kept(cells: Cells, roots: seq<Value>): set<Addr> {
    ReachableSet(cells, RootTargets(roots) + OldObjects(cells))
  }

  /** What a scavenge copies to the other half: all that it keeps of what was allocated since the one before. */
  ghost function YoungSizes(cells: Cells, roots: seq<Value>, survivorEnd: Addr): map<Addr, nat> {
    map a | a in cells && IsNew(a) && survivorEnd <= a && a in Kept(cells, roots) :: SizeOf(cells, a)
  }

  ghost function YoungBytes(cells: Cells, roots: seq<Value>, survivorEnd: Addr, top: Addr): nat {
    SumSizes(YoungSizes(cells, roots, survivorEnd), survivorEnd, top)
  }

  lemma KeptIsStart(cells: Cells, roots: seq<Value>)
    requires AreObjectsOk(cells) && AreTagsOk(cells) && AreRootsOk(cells, roots)
    ensures IsStart(cells, Kept(cells, roots)) && RootTargets(roots) <= Kept(cells, roots)
  {
    hide IsObjectOk, IsNew, ReachableSet, IsClosed;
    ObjectsAreClosed(cells);
    var start := RootTargets(roots) + OldObjects(cells);
    ReachableIsClosed(cells, start);
  }

  /** An object without pointers to new space is its own image. */
  lemma OldPointersResolve(cells: Cells, o: Object)
    requires !HasPointerToNew(o)
    ensures IsImage(cells, o, o)
  {
    forall i | 0 <= i < |o.vars|
      ensures ResolvesValue(cells, o.vars[i], o.vars[i])
    {
      assert !PointsToNew(o.vars[i]);
    }
  }

  lemma InvariantAtStart(before: Cells, live: set<Addr>, entries: seq<Addr>)
    requires AreTagsOk(before) && AreListed(before, entries) && IsRememberedSetComplete(before)
    ensures Invariant(Scope(before, live, {}, SetOf(entries)), Evacuation(before, map[], entries))
  {
    hide IsNew, HasPointerToNew, IsImage, HasSameSkeleton;
    var s, e := Scope(before, live, {}, SetOf(entries)), Evacuation(before, map[], entries);
    forall x | x in before && IsOld(x)
      ensures IsOldOk(s, before, x)
    {
      SkeletonIsReflexive(before[x]);
      if x !in entries {
        OldPointersResolve(before, before[x]);
      }
    }
  }

  lemma SkeletonIsReflexive(o: Object)
    ensures HasSameSkeleton(o, o)
  {
  }

  lemma SumOfNothing(lo: Addr, hi: Addr)
    ensures SumSizes(map[], lo, hi) == 0
    decreases hi
  {
  }

  lemma PlacedAtStart(s: Scope, l: Layout, entries: seq<Addr>)
    requires AreTagsOk(s.before) && IsNewAligned(l.start)
    ensures ArePlaced(s, Evacuation(s.before, map[], entries), l, OldSizes(s.before), l.start)
  {
    hide IsNew, SizeOf, IsNewAligned;
    assert MovedSizes(s.before, s.before, l.survivorEnd) == map[];
    SumOfNothing(l.survivorEnd, l.limit);
    assert CopySizes(s.before, map[]) == map[] && PromotedSizes(s.before, map[]) == map[];
  }
}

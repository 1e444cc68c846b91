/** What holds when a scavenge has come to its end. */
module EvacuationResults {
  import opened ObjectModel
  import opened FreeLists
  import opened Heaps
  import opened Reachability
  import opened Evacuations
  import opened EvacuationStarts
  import opened Isomorphisms

  /** Where each survivor is found now; the identity on old objects. */
  ghost function Forwarding(before: Cells, e: Evacuation): Renaming {
    map a | a in before && (IsOld(a) || (a in e.cells && e.cells[a].tags.forwarded)) ::
      if IsOld(a) then a else e.cells[a].cls
  }

  /** The heap without the evacuated objects. */
  ghost function Survivors(before: Cells, e: Evacuation): Cells {
    map x | x in e.cells && IsSurvivor(before, e, x) :: e.cells[x]
  }

  /** Every survivor is finished, and every root resolved. */
  ghost predicate IsComplete(s: Scope, e: Evacuation, roots: seq<Value>, roots': seq<Value>) {
    && IsStart(s.before, s.live) && Invariant(s, e) && s.active == {} && s.pending == {}
    && |roots'| == |roots| && forall i :: 0 <= i < |roots| ==> ResolvesValue(e.cells, roots[i], roots'[i])
  }

  lemma ResolvedIsMapped(s: Scope, e: Evacuation, v: Addr, w: Addr)
    requires Resolves(e.cells, v, w) && v in s.before
    ensures v in Forwarding(s.before, e) && Forwarding(s.before, e)[v] == w
  {
    hide IsNew;
  }

  lemma ResolvedValueIsMapped(s: Scope, e: Evacuation, v: Value, w: Value)
    requires ResolvesValue(e.cells, v, w) && (v.Pointer? ==> v.target in s.before)
    ensures MapsValue(Forwarding(s.before, e), v, w)
  {
    hide Forwarding;
    if v.Pointer? {
      ResolvedIsMapped(s, e, v.target, w.target);
    }
  }

  lemma ImageIsMapped(s: Scope, e: Evacuation, o: Object, c: Object)
    requires IsObjectOk(s.before, o) && IsImage(e.cells, o, c)
    ensures MapsObject(Forwarding(s.before, e), o, c)
  {
    hide Forwarding, ResolvesValue, MapsValue, Resolves;
    ResolvedIsMapped(s, e, o.cls, c.cls);
    forall i | 0 <= i < |o.vars|
      ensures MapsValue(Forwarding(s.before, e), o.vars[i], c.vars[i])
    {
      assert ResolvesValue(e.cells, o.vars[i], c.vars[i]);
      ResolvedValueIsMapped(s, e, o.vars[i], c.vars[i]);
    }
  }

  /** A forwarded or old object, its place now, and what is found there. */
  lemma SurvivorIsImage(s: Scope, e: Evacuation, a: Addr)
    requires IsStart(s.before, s.live) && Invariant(s, e) && s.active == {} && s.pending == {}
    requires a in Forwarding(s.before, e)
    ensures var x := Forwarding(s.before, e)[a];
            && x in e.cells && IsSurvivor(s.before, e, x) && IsSurvivorOk(e.cells, x, s.before[a], false)
            && IsObjectOk(s.before, s.before[a])
            && (if IsOld(a) then x == a else x in e.origin && e.origin[x] == a)
  {
    hide IsNew, IsSurvivorOk, IsObjectOk, AreListed, AreTagsOk, IsClosed;
    if IsOld(a) {
      assert IsOldOk(s, e.cells, a);
    } else {
      assert IsEvacueeOk(s.before, e.cells, e.origin, a);
      assert IsCopyOk(s, e.cells, e.origin, e.cells[a].cls);
    }
  }

  /** And every survivor is found that way. */
  lemma SurvivorHasSource(s: Scope, e: Evacuation, x: Addr) returns (a: Addr)
    requires IsStart(s.before, s.live) && Invariant(s, e) && s.active == {} && s.pending == {}
    requires IsSurvivor(s.before, e, x)
    ensures a in Forwarding(s.before, e) && Forwarding(s.before, e)[a] == x
    ensures a == if x in e.origin then e.origin[x] else x
  {
    hide IsNew, IsSurvivorOk, AreListed, AreTagsOk, IsClosed, AreEvacueesOk, AreOldOk;
    if x in e.origin {
      assert IsCopyOk(s, e.cells, e.origin, x);
      a := e.origin[x];
    } else {
      a := x;
    }
  }

  lemma ForwardingIsInjective(s: Scope, e: Evacuation)
    requires IsStart(s.before, s.live) && Invariant(s, e) && s.active == {} && s.pending == {}
    ensures IsInjective(Forwarding(s.before, e))
  {
    hide Forwarding, Invariant, IsStart, IsSurvivorOk;
    var f := Forwarding(s.before, e);
    forall a, b | a in f && b in f && f[a] == f[b]
      ensures a == b
    {
      SurvivorIsImage(s, e, a);
      SurvivorIsImage(s, e, b);
      ForwardingDomain(s, e, a);
      ForwardingDomain(s, e, b);
      NoCopyIsOld(s, e, f[a]);
    }
  }

  lemma NoCopyIsOld(s: Scope, e: Evacuation, x: Addr)
    requires Invariant(s, e)
    ensures x in e.origin ==> x !in s.before
  {
    assert x in e.origin ==> IsCopyOk(s, e.cells, e.origin, x);
  }

  /** The heap after a scavenge is isomorphic to the part of the heap that was reached. */
  lemma ScavengeIsIsomorphism(s: Scope, e: Evacuation, roots: seq<Value>, roots': seq<Value>)
    requires IsComplete(s, e, roots, roots') && AreRootsOk(s.before, roots)
    ensures IsIsomorphism(s.before, roots, Survivors(s.before, e), roots', Forwarding(s.before, e))
  {
    hide Forwarding, Invariant, IsStart, IsInjective, MapsObject, MapsValue, ResolvesValue, IsSurvivor, IsImage;
    var f, cells' := Forwarding(s.before, e), Survivors(s.before, e);
    ForwardingIsInjective(s, e);
    forall a | a in f
      ensures a in s.before && f[a] in cells' && MapsObject(f, s.before[a], cells'[f[a]])
    {
      ForwardingDomain(s, e, a);
      SurvivorIsImage(s, e, a);
      ImageIsMapped(s, e, s.before[a], e.cells[f[a]]);
    }
    forall x | x in cells'
      ensures IsImageOfSome(f, x)
    {
      var a := SurvivorHasSource(s, e, x);
    }
    forall i | 0 <= i < |roots|
      ensures MapsValue(f, roots[i], roots'[i])
    {
      ResolvedValueIsMapped(s, e, roots[i], roots'[i]);
    }
  }

  lemma ForwardingDomain(s: Scope, e: Evacuation, a: Addr)
    ensures a in Forwarding(s.before, e) ==> a in s.before
  {
  }

  /** The survivor `x` as an object of the heap without the evacuated objects. */
  lemma SurvivorIsOk(s: Scope, e: Evacuation, x: Addr, a: Addr)
    requires IsStart(s.before, s.live) && Invariant(s, e) && s.active == {} && s.pending == {}
    requires a in Forwarding(s.before, e) && Forwarding(s.before, e)[a] == x
    ensures var cells' := Survivors(s.before, e);
            && x in cells' && IsObjectOk(cells', cells'[x]) && SizeOf(cells', x) == SizeOf(s.before, a)
            && !cells'[x].tags.forwarded && !cells'[x].tags.marked
            && (cells'[x].tags.remembered <==> s.before[a].tags.remembered || (IsOld(x) && HasPointerToNew(cells'[x])))
  {
    hide Forwarding, Invariant, IsStart, HasPointerToNew, IsClass, IsObjectOk, SizeOf, IsImage, IsSurvivor;
    var cells' := Survivors(s.before, e);
    SurvivorIsImage(s, e, a);
    ForwardingDomain(s, e, a);
    ImageIsOk(s, e, s.before[a], cells'[x]);
    SizeIsKept(s.before, cells', a, x);
  }

  lemma SizeIsKept(before: Cells, cells': Cells, a: Addr, x: Addr)
    requires a in before && x in cells' && IsObjectOk(before, before[a]) && IsObjectOk(cells', cells'[x])
    requires cells'[x].size == before[a].size && ShapeOf(cells'[cells'[x].cls]) == ShapeOf(before[before[a].cls])
    ensures SizeOf(cells', x) == SizeOf(before, a)
  {
    hide IsClass, ShapeOf, CellSize;
  }

  lemma ResolvedIsSurvivor(s: Scope, e: Evacuation, v: Addr, w: Addr)
    requires IsStart(s.before, s.live) && Invariant(s, e) && s.active == {} && s.pending == {}
    requires Resolves(e.cells, v, w) && v in s.before
    ensures w in Survivors(s.before, e) && Survivors(s.before, e)[w] == e.cells[w]
    ensures HasSameSkeleton(s.before[v], e.cells[w])
  {
    hide IsNew, Invariant, IsStart, IsSurvivor, Forwarding, IsImage, HasSameSkeleton, IsObjectOk;
    ResolvedIsMapped(s, e, v, w);
    SurvivorIsImage(s, e, v);
  }

  lemma ImageIsOk(s: Scope, e: Evacuation, o: Object, c: Object)
    requires IsStart(s.before, s.live) && Invariant(s, e) && s.active == {} && s.pending == {}
    requires IsObjectOk(s.before, o) && IsImage(e.cells, o, c)
    ensures var cells' := Survivors(s.before, e);
            IsObjectOk(cells', c) && c.size == o.size && ShapeOf(cells'[c.cls]) == ShapeOf(s.before[o.cls])
  {
    hide Resolves, Invariant, IsStart, Survivors, IsClass, ShapeOf;
    var cells' := Survivors(s.before, e);
    ResolvedIsSurvivor(s, e, o.cls, c.cls);
    SkeletonKeepsShape(s.before[o.cls], cells'[c.cls]);
    forall i | 0 <= i < |c.vars| && c.vars[i].Pointer?
      ensures c.vars[i].target in cells'
    {
      assert ResolvesValue(e.cells, o.vars[i], c.vars[i]);
      ResolvedIsSurvivor(s, e, o.vars[i].target, c.vars[i].target);
    }
  }

  /** The heap after a scavenge, as far as it does not depend on where objects are placed. */
  lemma SurvivorsAreOk(s: Scope, e: Evacuation, roots: seq<Value>, roots': seq<Value>)
    requires IsComplete(s, e, roots, roots') && AreRootsOk(s.before, roots)
    ensures var cells' := Survivors(s.before, e);
            && AreObjectsOk(cells') && AreRootsOk(cells', roots') && AreTagsOk(cells')
            && AreListed(cells', e.entries) && IsRememberedSetComplete(cells')
            && (forall x :: x in cells' ==> !cells'[x].tags.marked)
  {
    hide Invariant, IsStart, HasPointerToNew, IsObjectOk, SizeOf, Forwarding, Resolves;
    var cells' := Survivors(s.before, e);
    forall x | x in cells'
      ensures IsObjectOk(cells', cells'[x]) && !cells'[x].tags.forwarded && !cells'[x].tags.marked
      ensures IsOld(x) && HasPointerToNew(cells'[x]) ==> cells'[x].tags.remembered
    {
      var a := SurvivorHasSource(s, e, x);
      SurvivorIsOk(s, e, x, a);
    }
    forall i | 0 <= i < |roots'| && roots'[i].Pointer?
      ensures roots'[i].target in cells'
    {
      assert ResolvesValue(e.cells, roots[i], roots'[i]);
      ResolvedIsSurvivor(s, e, roots[i].target, roots'[i].target);
    }
    ListedSurvive(s, e);
  }

  lemma ListedSurvive(s: Scope, e: Evacuation)
    requires Invariant(s, e)
    ensures AreListed(Survivors(s.before, e), e.entries)
  {
    hide AreEvacueesOk, AreOldOk, AreCopiesOk, IsNew;
  }

  lemma SurvivorSizes(s: Scope, e: Evacuation, l: Layout, used: map<Addr, nat>, top: Addr)
    requires IsStart(s.before, s.live) && Invariant(s, e) && s.active == {} && s.pending == {}
    requires ArePlaced(s, e, l, used, top)
    ensures NewSizes(Survivors(s.before, e)) == CopySizes(s.before, e.origin)
    ensures OldSizes(Survivors(s.before, e)) == used
  {
    hide Invariant, IsStart, SizeOf, AreWithin, MovedSizes, IsNew, Forwarding;
    var cells' := Survivors(s.before, e);
    forall x | x in cells'
      ensures SizeOf(cells', x) == SizeOf(s.before, if x in e.origin then e.origin[x] else x)
      ensures x in e.origin ==> e.origin[x] in s.before && x !in s.before
    {
      var a := SurvivorHasSource(s, e, x);
      SurvivorIsOk(s, e, x, a);
      ForwardingDomain(s, e, a);
      NoCopyIsOld(s, e, x);
    }
    forall x | IsSurvivor(s.before, e, x)
      ensures x in cells'
    {
      var a := SurvivorHasSource(s, e, x);
      SurvivorIsOk(s, e, x, a);
    }
  }

  /** The objects that a scavenge reaches are exactly those it has to keep. */
  lemma ForwardedIsKept(s: Scope, e: Evacuation, roots: seq<Value>, roots': seq<Value>)
    requires IsComplete(s, e, roots, roots') && AreRootsOk(s.before, roots) && s.live == Kept(s.before, roots)
    ensures Forwarding(s.before, e).Keys == Kept(s.before, roots)
  {
    hide Invariant, IsNew, IsSurvivorOk, ReachableSet, IsObjectOk, AreTagsOk, IsIsomorphism, MapsRoots, MapsObjects;
    var f := Forwarding(s.before, e);
    forall a | a in f
      ensures a in s.live
    {
      ForwardedIsLive(s, e, a);
    }
    ScavengeIsIsomorphism(s, e, roots, roots');
    IsomorphismMaps(s.before, roots, Survivors(s.before, e), roots', f);
    DomainIsClosed(s.before, roots, Survivors(s.before, e), roots', f);
    ReachableIsLeast(s.before, RootTargets(roots) + OldObjects(s.before), f.Keys);
  }

  /** The copies take the bytes of the young objects that are kept. */
  lemma MovedAreYoung(s: Scope, e: Evacuation, roots: seq<Value>, roots': seq<Value>, survivorEnd: Addr)
    requires IsComplete(s, e, roots, roots') && AreRootsOk(s.before, roots) && s.live == Kept(s.before, roots)
    ensures MovedSizes(s.before, e.cells, survivorEnd) == YoungSizes(s.before, roots, survivorEnd)
  {
    hide Invariant, IsNew, IsSurvivorOk, AreTagsOk, IsIsomorphism, Kept, SizeOf;
    ForwardedIsKept(s, e, roots, roots');
    forall a | a in s.before && IsNew(a)
      ensures a in Kept(s.before, roots) <==> a in e.cells && e.cells[a].tags.forwarded
    {
      ForwardedHasName(s, e, a);
    }
  }

  lemma ForwardedHasName(s: Scope, e: Evacuation, a: Addr)
    requires Invariant(s, e) && a in s.before && IsNew(a)
    ensures a in Forwarding(s.before, e) <==> a in e.cells && e.cells[a].tags.forwarded
  {
    hide IsNew, IsSurvivorOk, AreListed, AreOldOk, AreCopiesOk;
  }

  lemma IsomorphismMaps(cells: Cells, roots: seq<Value>, cells': Cells, roots': seq<Value>, f: Renaming)
    requires IsIsomorphism(cells, roots, cells', roots', f)
    ensures MapsObjects(f, cells, cells') && MapsRoots(f, roots, roots')
  {
  }

  lemma ForwardedIsLive(s: Scope, e: Evacuation, a: Addr)
    requires IsStart(s.before, s.live) && Invariant(s, e) && a in Forwarding(s.before, e)
    ensures a in s.live
  {
    hide IsNew, IsSurvivorOk, AreListed, AreOldOk, AreObjectsOk, AreTagsOk, IsClosed;
    if IsNew(a) {
      assert IsEvacueeOk(s.before, e.cells, e.origin, a);
      assert IsCopyOk(s, e.cells, e.origin, e.cells[a].cls);
    }
  }

  /** Survivors of an earlier scavenge are in old space now, all others in new space. */
  lemma PromotionFollowsAge(s: Scope, e: Evacuation, l: Layout, used: map<Addr, nat>, top: Addr, a: Addr)
    requires IsStart(s.before, s.live) && Invariant(s, e) && s.active == {} && s.pending == {} && ArePlaced(s, e, l, used, top)
    requires a in Forwarding(s.before, e)
    ensures if IsOld(a) then Forwarding(s.before, e)[a] == a
            else IsOld(Forwarding(s.before, e)[a]) <==> a < l.survivorEnd
  {
    hide Invariant, IsNew, IsStart, AreWithin, Forwarding, IsSurvivorOk;
    SurvivorIsImage(s, e, a);
  }

  /** By its address a survivor is told from an evacuated object. */
  lemma SurvivorTest(s: Scope, e: Evacuation, l: Layout, used: map<Addr, nat>, top: Addr, x: Addr)
    requires IsStart(s.before, s.live) && Invariant(s, e) && IsLayout(s.before, l) && ArePlaced(s, e, l, used, top)
    requires x in e.cells && top <= l.end
    ensures IsSurvivor(s.before, e, x) <==> IsOld(x) || l.start <= x < top
  {
    hide IsNew, AreListed, AreOldOk, AreEvacueesOk, IsSurvivorOk, AreTagsOk, IsClosed, AreWithin, IsNewAligned, MovedSizes, PromotedSizes, SizeOf, IsObjectOk;
    if x in e.origin {
      assert IsCopyOk(s, e.cells, e.origin, x);
      if IsNew(x) {
        CopyIsSmaller(s.before, e.origin, l.start, top, x);
      }
    } else if IsNew(x) {
      NewIsBelow(s.before, l.from, l.limit, x);
    }
  }
}

/**
 What holds while a scavenge runs (vm/Scavenger.c:62-84, 225-316), stated on values.

 `before` is the heap at the start of the scavenge.  New objects of `before` are evacuated: each is
 untouched, or forwarded, and then its header holds the address of its copy.  Survivors are the
 old objects of `before` and the copies; `origin` tells of a copy what it was made from.  A survivor
 in `active` is being iterated over, one in `pending` is remembered and still to be iterated over;
 every other survivor is finished: it is the image of its source.
 */
module Evacuations {
  import opened Collections
  import opened ObjectModel
  import opened FreeLists
  import opened PageSpaces
  import opened Heaps
  import opened Reachability

  datatype Scope = Scope(before: Cells, live: set<Addr>, active: set<Addr>, pending: set<Addr>)

  /** `w` is where the object `v` of the old heap is found now. */
  predicate Resolves(cells: Cells, v: Addr, w: Addr) {
    if IsNew(v) then v in cells && cells[v].tags.forwarded && cells[v].cls == w else w == v
  }

  predicate ResolvesValue(cells: Cells, v: Value, w: Value) {
    if v.Pointer? then w.Pointer? && Resolves(cells, v.target, w.target) else w == v
  }

  /** Everything that is no pointer agrees, and pointers are where pointers were. */
  predicate HasSameSkeleton(o: Object, c: Object) {
    && c.hash == o.hash && c.size == o.size && c.payload == o.payload && c.bytes == o.bytes
    && |c.vars| == |o.vars|
    && forall i :: 0 <= i < |o.vars| ==> if o.vars[i].Pointer? then c.vars[i].Pointer? else c.vars[i] == o.vars[i]
  }

  predicate IsImage(cells: Cells, o: Object, c: Object) {
    && HasSameSkeleton(o, c)
    && Resolves(cells, o.cls, c.cls)
    && forall i :: 0 <= i < |o.vars| ==> ResolvesValue(cells, o.vars[i], c.vars[i])
  }

  /** The header of an evacuated object holds the address of its copy. */
  function Corpse(o: Object, copy: Addr): Object {
    o.(cls := copy, tags := o.tags.(marked := false, forwarded := true))
  }

  function CopyOf(o: Object): Object {
    o.(tags := o.tags.(marked := false))
  }

  predicate IsEvacueeOk(before: Cells, cells: Cells, origin: map<Addr, Addr>, a: Addr)
    requires a in before
  {
    && a in cells
    && if cells[a].tags.forwarded
       then cells[a] == Corpse(before[a], cells[a].cls) && cells[a].cls in origin && origin[cells[a].cls] == a
       else cells[a] == before[a]
  }

  predicate IsSurvivorOk(cells: Cells, x: Addr, source: Object, active: bool) {
    && x in cells
    && HasSameSkeleton(source, cells[x]) && !cells[x].tags.forwarded && !cells[x].tags.marked
    && (!active ==> IsImage(cells, source, cells[x]))
    && (cells[x].tags.remembered <==> source.tags.remembered || (!active && IsOld(x) && HasPointerToNew(cells[x])))
  }

  predicate IsCopyOk(s: Scope, cells: Cells, origin: map<Addr, Addr>, x: Addr)
    requires x in origin
  {
    && x !in s.before && origin[x] in s.before && IsNew(origin[x]) && origin[x] in s.live
    && origin[x] in cells && cells[origin[x]].tags.forwarded && cells[origin[x]].cls == x
    && IsSurvivorOk(cells, x, s.before[origin[x]], x in s.active)
  }

  predicate IsOldOk(s: Scope, cells: Cells, x: Addr)
    requires x in s.before
  {
    if x in s.pending && x !in s.active then x in cells && cells[x] == s.before[x]
    else IsSurvivorOk(cells, x, s.before[x], x in s.active)
  }

  /** The changing part of a scavenge: the objects, where the copies came from, and the remembered objects. */
  datatype Evacuation = Evacuation(cells: Cells, origin: map<Addr, Addr>, entries: seq<Addr>)

  ghost predicate AreEvacueesOk(s: Scope, e: Evacuation) {
    forall a :: a in s.before && IsNew(a) ==> IsEvacueeOk(s.before, e.cells, e.origin, a)
  }

  ghost predicate AreCopiesOk(s: Scope, e: Evacuation) {
    forall x :: x in e.origin ==> IsCopyOk(s, e.cells, e.origin, x)
  }

  ghost predicate AreOldOk(s: Scope, e: Evacuation) {
    forall x :: x in s.before && IsOld(x) ==> IsOldOk(s, e.cells, x)
  }

  ghost predicate Invariant(s: Scope, e: Evacuation) {
    && e.cells.Keys == s.before.Keys + e.origin.Keys
    && AreEvacueesOk(s, e) && AreCopiesOk(s, e) && AreOldOk(s, e)
    && AreListed(e.cells, e.entries)
  }

  /** What the scavenge starts from. */
  ghost predicate IsStart(before: Cells, live: set<Addr>) {
    && AreObjectsOk(before) && AreTagsOk(before)
    && IsClosed(before, live)
    && (forall a :: a in before && IsOld(a) ==> a in live)
  }

  /** Forwarded objects stay forwarded to the same copies. */
  ghost predicate StayForwarded(before: Cells, cells: Cells, cells': Cells) {
    forall a :: a in before && IsNew(a) && a in cells && cells[a].tags.forwarded ==> a in cells' && cells'[a] == cells[a]
  }

  /** What a step does not undo. */
  ghost predicate Progresses(before: Cells, e: Evacuation, e': Evacuation) {
    && StayForwarded(before, e.cells, e'.cells)
    && (forall x :: x in e.origin ==> x in e'.origin && e'.origin[x] == e.origin[x])
  }

  lemma ImageIsStable(before: Cells, cells: Cells, cells': Cells, o: Object, c: Object)
    requires IsObjectOk(before, o) && IsImage(cells, o, c) && StayForwarded(before, cells, cells')
    ensures IsImage(cells', o, c)
  {
    forall i | 0 <= i < |o.vars|
      ensures ResolvesValue(cells', o.vars[i], c.vars[i])
    {
      assert ResolvesValue(cells, o.vars[i], c.vars[i]);
    }
  }

  lemma SurvivorIsStable(before: Cells, cells: Cells, cells': Cells, x: Addr, source: Object, active: bool)
    requires IsObjectOk(before, source) && IsSurvivorOk(cells, x, source, active)
    requires x in cells' && cells'[x] == cells[x] && StayForwarded(before, cells, cells')
    ensures IsSurvivorOk(cells', x, source, active)
  {
    hide IsImage;
    if !active {
      ImageIsStable(before, cells, cells', source, cells[x]);
    }
  }

  /** A survivor that a step leaves alone stays as it is; it may become active. */
  lemma SurvivorsAreStable(s: Scope, e: Evacuation, s': Scope, e': Evacuation, x: Addr)
    requires IsStart(s.before, s.live) && s'.before == s.before && s'.live == s.live && s'.pending == s.pending
    requires x in s'.active <==> x in s.active
    requires x in e.cells && x in e'.cells && e'.cells[x] == e.cells[x] && Progresses(s.before, e, e')
    ensures x in e.origin && IsCopyOk(s, e.cells, e.origin, x) ==> IsCopyOk(s', e'.cells, e'.origin, x)
    ensures x in s.before && IsOldOk(s, e.cells, x) ==> IsOldOk(s', e'.cells, x)
  {
    hide IsSurvivorOk;
    if x in e.origin && IsCopyOk(s, e.cells, e.origin, x) {
      SurvivorIsStable(s.before, e.cells, e'.cells, x, s.before[e.origin[x]], x in s.active);
    }
    if x in s.before && IsOldOk(s, e.cells, x) && !(x in s.pending && x !in s.active) {
      SurvivorIsStable(s.before, e.cells, e'.cells, x, s.before[x], x in s.active);
    }
  }

  function Activate(s: Scope, x: Addr): Scope {
    s.(active := s.active + {x})
  }

  function Forward(s: Scope, e: Evacuation, a: Addr, b: Addr): Evacuation
    requires a in s.before
  {
    Evacuation(e.cells[a := Corpse(s.before[a], b)][b := CopyOf(s.before[a])], e.origin[b := a], e.entries)
  }

  ghost predicate CanForward(s: Scope, e: Evacuation, a: Addr, b: Addr) {
    && IsStart(s.before, s.live) && Invariant(s, e)
    && a in s.before && IsNew(a) && a in s.live && a in e.cells && !e.cells[a].tags.forwarded && b !in e.cells
  }

  lemma ForwardProgresses(s: Scope, e: Evacuation, a: Addr, b: Addr)
    requires CanForward(s, e, a, b)
    ensures Progresses(s.before, e, Forward(s, e, a, b))
  {
    hide AreEvacueesOk, AreCopiesOk, AreOldOk, AreListed, IsStart, IsNew;
  }

  lemma ForwardKeepsEvacuees(s: Scope, e: Evacuation, a: Addr, b: Addr)
    requires CanForward(s, e, a, b)
    ensures AreEvacueesOk(Activate(s, b), Forward(s, e, a, b))
  {
    hide AreCopiesOk, AreOldOk, AreListed, IsStart, IsNew;
    var e' := Forward(s, e, a, b);
    forall c | c in s.before && IsNew(c)
      ensures IsEvacueeOk(s.before, e'.cells, e'.origin, c)
    {
      assert IsEvacueeOk(s.before, e.cells, e.origin, c) && IsEvacueeOk(s.before, e.cells, e.origin, a);
    }
  }

  lemma ForwardKeepsCopies(s: Scope, e: Evacuation, a: Addr, b: Addr)
    requires CanForward(s, e, a, b)
    ensures AreCopiesOk(Activate(s, b), Forward(s, e, a, b))
  {
    hide AreEvacueesOk, AreOldOk, AreListed, IsSurvivorOk, IsNew, IsObjectOk, Progresses;
    var s', e' := Activate(s, b), Forward(s, e, a, b);
    ForwardProgresses(s, e, a, b);
    forall x | x in e'.origin
      ensures IsCopyOk(s', e'.cells, e'.origin, x)
    {
      if x == b {
        FreshCopyIsOk(e'.cells, b, s.before[a]);
      } else {
        assert IsCopyOk(s, e.cells, e.origin, x);
        SurvivorsAreStable(s, e, s', e', x);
      }
    }
  }

  lemma ForwardKeepsOld(s: Scope, e: Evacuation, a: Addr, b: Addr)
    requires CanForward(s, e, a, b)
    ensures AreOldOk(Activate(s, b), Forward(s, e, a, b))
  {
    hide AreEvacueesOk, AreCopiesOk, AreListed, IsOldOk, IsCopyOk, IsNew, Progresses, IsStart;
    var s', e' := Activate(s, b), Forward(s, e, a, b);
    ForwardProgresses(s, e, a, b);
    forall x | x in s.before && IsOld(x)
      ensures IsOldOk(s', e'.cells, x)
    {
      assert IsOldOk(s, e.cells, x);
      SurvivorsAreStable(s, e, s', e', x);
    }
  }

  /** forwardObject: `b` becomes the copy of `a`, and the active object that is iterated over next. */
  lemma ForwardKeepsInvariant(s: Scope, e: Evacuation, a: Addr, b: Addr)
    requires CanForward(s, e, a, b)
    ensures Invariant(Activate(s, b), Forward(s, e, a, b))
    ensures Progresses(s.before, e, Forward(s, e, a, b))
  {
    hide AreEvacueesOk, AreCopiesOk, AreOldOk, Progresses, IsStart;
    ForwardKeepsEvacuees(s, e, a, b);
    ForwardKeepsCopies(s, e, a, b);
    ForwardKeepsOld(s, e, a, b);
    ForwardProgresses(s, e, a, b);
    assert AreListed(Forward(s, e, a, b).cells, e.entries) by { ForwardKeepsListed(s, e, a, b); }
  }

  /** New objects are never remembered, so neither the corpse nor the copy is. */
  lemma ForwardKeepsListed(s: Scope, e: Evacuation, a: Addr, b: Addr)
    requires CanForward(s, e, a, b)
    ensures AreListed(Forward(s, e, a, b).cells, e.entries)
  {
    hide AreCopiesOk, AreOldOk, IsStart, IsNew;
    assert IsEvacueeOk(s.before, e.cells, e.origin, a);
    assert a !in e.entries && !s.before[a].tags.remembered;
  }

  lemma FreshCopyIsOk(cells: Cells, b: Addr, o: Object)
    requires b in cells && cells[b] == CopyOf(o) && !o.tags.forwarded
    ensures IsSurvivorOk(cells, b, o, true)
  {
  }

  // ---------- Iterating over a survivor ----------

  predicate IsSurvivor(before: Cells, e: Evacuation, x: Addr) {
    x in e.origin || (x in before && IsOld(x))
  }

  /** The survivor `x` was the object `source` when the scavenge started. */
  predicate IsSource(before: Cells, e: Evacuation, x: Addr, source: Object) {
    if x in e.origin then e.origin[x] in before && source == before[e.origin[x]]
    else x in before && IsOld(x) && source == before[x]
  }

  lemma SourceIsOk(s: Scope, e: Evacuation, x: Addr, source: Object)
    requires IsStart(s.before, s.live) && Invariant(s, e) && IsSource(s.before, e, x, source)
    ensures IsObjectOk(s.before, source) && source.cls in s.live
    ensures forall i :: 0 <= i < |source.vars| && source.vars[i].Pointer? ==> source.vars[i].target in s.live
    ensures x in e.cells && IsSurvivor(s.before, e, x)
  {
    hide IsImage, AreEvacueesOk, AreOldOk, AreListed, IsObjectOk, IsNew, AreTagsOk;
    var a := if x in e.origin then e.origin[x] else x;
    assert x in e.origin ==> IsCopyOk(s, e.cells, e.origin, x);
    assert a in s.live && IsObjectOk(s.before, s.before[a]);
    assert HasEdge(s.before[a], source.cls);
    forall i | 0 <= i < |source.vars| && source.vars[i].Pointer?
      ensures source.vars[i].target in s.live
    {
      assert source.vars[i] == Pointer(source.vars[i].target);
      assert HasEdge(s.before[a], source.vars[i].target);
    }
  }

  lemma SourceIsStable(s: Scope, e: Evacuation, e': Evacuation, x: Addr, source: Object)
    requires IsSource(s.before, e, x, source) && Progresses(s.before, e, e') && AreCopiesOk(s, e')
    ensures IsSource(s.before, e', x, source)
  {
    hide IsSurvivorOk;
    assert x in e'.origin ==> IsCopyOk(s, e'.cells, e'.origin, x);
  }

  /** A step that changes only an active survivor, and keeps its skeleton. */
  lemma ActiveStepKeepsInvariant(s: Scope, e: Evacuation, e': Evacuation, x: Addr, source: Object)
    requires IsStart(s.before, s.live) && Invariant(s, e) && x in s.active && x in e.cells && IsSource(s.before, e, x, source)
    requires x in e'.cells && e'.cells == e.cells[x := e'.cells[x]] && e'.origin == e.origin
    requires IsSurvivorOk(e'.cells, x, source, true) && AreListed(e'.cells, e'.entries)
    ensures Invariant(s, e') && Progresses(s.before, e, e')
  {
    hide IsSurvivorOk, IsObjectOk, IsNew, AreListed, AreObjectsOk, AreTagsOk, IsClosed;
    assert !(x in s.before && IsNew(x)) by {
      assert x in e.origin ==> IsCopyOk(s, e.cells, e.origin, x);
    }
    assert Progresses(s.before, e, e');
    forall a | a in s.before && IsNew(a)
      ensures IsEvacueeOk(s.before, e'.cells, e'.origin, a)
    {
      assert IsEvacueeOk(s.before, e.cells, e.origin, a);
    }
    forall y | y in e.origin
      ensures IsCopyOk(s, e'.cells, e'.origin, y)
    {
      assert IsCopyOk(s, e.cells, e.origin, y);
      if y != x {
        SurvivorsAreStable(s, e, s, e', y);
      }
    }
    forall y | y in s.before && IsOld(y)
      ensures IsOldOk(s, e'.cells, y)
    {
      assert IsOldOk(s, e.cells, y);
      if y != x {
        SurvivorsAreStable(s, e, s, e', y);
      }
    }
  }

  /** An active survivor whose iteration has come to its end is finished; the last step may have changed it. */
  lemma DeactivateKeepsInvariant(s: Scope, e: Evacuation, e': Evacuation, x: Addr, source: Object)
    requires IsStart(s.before, s.live) && Invariant(Activate(s, x), e) && x !in s.active && x !in s.pending
    requires IsSource(s.before, e, x, source) && x in e.cells
    requires x in e'.cells && e'.cells == e.cells[x := e'.cells[x]] && e'.origin == e.origin
    requires IsSurvivorOk(e'.cells, x, source, false) && AreListed(e'.cells, e'.entries)
    ensures Invariant(s, e') && Progresses(s.before, e, e')
  {
    hide IsSurvivorOk, IsObjectOk, IsNew, AreListed, AreObjectsOk, AreTagsOk, IsClosed;
    var s' := Activate(s, x);
    assert !(x in s.before && IsNew(x)) by {
      assert x in e.origin ==> IsCopyOk(s', e.cells, e.origin, x);
    }
    assert Progresses(s.before, e, e');
    forall a | a in s.before && IsNew(a)
      ensures IsEvacueeOk(s.before, e'.cells, e'.origin, a)
    {
      assert IsEvacueeOk(s.before, e.cells, e.origin, a);
    }
    forall y | y in e.origin
      ensures IsCopyOk(s, e'.cells, e'.origin, y)
    {
      assert IsCopyOk(s', e.cells, e.origin, y);
      if y != x {
        SurvivorsAreStable(s', e, s, e', y);
      }
    }
    forall y | y in s.before && IsOld(y)
      ensures IsOldOk(s, e'.cells, y)
    {
      assert IsOldOk(s', e.cells, y);
      if y != x {
        SurvivorsAreStable(s', e, s, e', y);
      }
    }
  }

  lemma UntouchedIsOk(cells: Cells, x: Addr)
    requires x in cells && !cells[x].tags.forwarded && !cells[x].tags.marked
    ensures IsSurvivorOk(cells, x, cells[x], true)
  {
  }

  /** A remembered object becomes active when its turn comes. */
  lemma TakePendingKeepsInvariant(s: Scope, e: Evacuation, x: Addr)
    requires IsStart(s.before, s.live) && Invariant(s, e)
    requires x in s.pending && x !in s.active && x in s.before && IsOld(x)
    ensures Invariant(Activate(s.(pending := s.pending - {x}), x), e)
  {
    hide AreListed, IsSurvivorOk, AreObjectsOk, IsClosed;
    var s' := Activate(s.(pending := s.pending - {x}), x);
    assert IsOldOk(s, e.cells, x);
    UntouchedIsOk(e.cells, x);
    forall y | y in e.origin
      ensures IsCopyOk(s', e.cells, e.origin, y)
    {
      assert IsCopyOk(s, e.cells, e.origin, y);
    }
    forall y | y in s.before && IsOld(y)
      ensures IsOldOk(s', e.cells, y)
    {
      assert IsOldOk(s, e.cells, y);
    }
  }

  /** The iteration over a survivor has resolved its class and its first `i` variables. */
  predicate IsPartialImage(cells: Cells, source: Object, c: Object, i: nat)
    requires i <= |source.vars|
  {
    && HasSameSkeleton(source, c)
    && Resolves(cells, source.cls, c.cls)
    && (forall j :: 0 <= j < i ==> ResolvesValue(cells, source.vars[j], c.vars[j]))
    && (forall j :: i <= j < |source.vars| ==> c.vars[j] == source.vars[j])
  }

  /** Resolving variable `i`, or finding that it is no pointer, takes the iteration one variable further. */
  lemma PartialImageStep(before: Cells, cells: Cells, cells': Cells, source: Object, c: Object, c': Object, i: nat)
    requires IsObjectOk(before, source) && i < |source.vars|
    requires IsPartialImage(cells, source, c, i) && StayForwarded(before, cells, cells')
    requires if source.vars[i].Pointer?
             then exists w :: c' == c.(vars := c.vars[i := Pointer(w)]) && Resolves(cells', source.vars[i].target, w)
             else c' == c
    ensures IsPartialImage(cells', source, c', i + 1)
    ensures HasPointerToNewBelow(c', i + 1) <==> HasPointerToNewBelow(c, i) || PointsToNew(c'.vars[i])
  {
    assert forall j :: 0 <= j < i ==> c'.vars[j] == c.vars[j];
    forall j | 0 <= j < i + 1
      ensures ResolvesValue(cells', source.vars[j], c'.vars[j])
    {
      if j < i {
        assert ResolvesValue(cells, source.vars[j], c.vars[j]);
      }
    }
    if HasPointerToNewBelow(c, i) && !IsNew(c.cls) {
      var j :| 0 <= j < i && PointsToNew(c.vars[j]);
      assert PointsToNew(c'.vars[j]);
    }
  }

  lemma ActiveSkeleton(s: Scope, e: Evacuation, x: Addr, source: Object)
    requires Invariant(s, e) && x in s.active && IsSource(s.before, e, x, source)
    ensures x in e.cells && HasSameSkeleton(source, e.cells[x]) && !e.cells[x].tags.forwarded
  {
    hide AreEvacueesOk, IsImage, HasPointerToNew, AreListed, HasSameSkeleton;
    assert if x in e.origin then IsCopyOk(s, e.cells, e.origin, x) else IsOldOk(s, e.cells, x);
  }

  /** When all variables are resolved, the survivor is the image of its source. */
  lemma PartialImageIsImage(cells: Cells, source: Object, c: Object)
    requires IsPartialImage(cells, source, c, |source.vars|)
    ensures IsImage(cells, source, c)
    ensures HasPointerToNew(c) <==> HasPointerToNewBelow(c, |source.vars|)
  {
    if HasPointerToNew(c) && !IsNew(c.cls) {
      var v :| v in c.vars && PointsToNew(v);
      var j :| 0 <= j < |c.vars| && c.vars[j] == v;
    }
  }

  lemma PartialImageIsStable(before: Cells, cells: Cells, cells': Cells, source: Object, c: Object, i: nat)
    requires IsObjectOk(before, source) && i <= |source.vars|
    requires IsPartialImage(cells, source, c, i) && StayForwarded(before, cells, cells')
    ensures IsPartialImage(cells', source, c, i)
  {
    forall j | 0 <= j < i
      ensures ResolvesValue(cells', source.vars[j], c.vars[j])
    {
      assert ResolvesValue(cells, source.vars[j], c.vars[j]);
    }
  }

  function Remember(e: Evacuation, x: Addr): Evacuation
    requires x in e.cells
  {
    e.(cells := e.cells[x := Remembered(e.cells[x])], entries := e.entries + [x])
  }

  /** The end of the iteration over `x`: it is remembered if it is old, points to new space and is not remembered yet. */
  function Finish(e: Evacuation, x: Addr, pointsToNew: bool): Evacuation
    requires x in e.cells
  {
    if pointsToNew && IsOld(x) && !e.cells[x].tags.remembered then Remember(e, x) else e
  }

  lemma FinishKeepsInvariant(s: Scope, e: Evacuation, x: Addr, source: Object)
    requires IsStart(s.before, s.live) && Invariant(Activate(s, x), e) && x !in s.active && x !in s.pending
    requires IsSource(s.before, e, x, source) && x in e.cells
    requires IsPartialImage(e.cells, source, e.cells[x], |source.vars|)
    ensures var e' := Finish(e, x, HasPointerToNewBelow(e.cells[x], |source.vars|));
            Invariant(s, e') && Progresses(s.before, e, e')
  {
    hide IsStart, AreEvacueesOk, HasPointerToNew, HasPointerToNewBelow, IsImage, IsPartialImage;
    var s', e' := Activate(s, x), Finish(e, x, HasPointerToNewBelow(e.cells[x], |source.vars|));
    SourceIsOk(s', e, x, source);
    FinishIsProgress(s', e, x, source);
    PartialImageIsStable(s.before, e.cells, e'.cells, source, e.cells[x], |source.vars|);
    PartialImageIsImage(e'.cells, source, e.cells[x]);
    TagsKeepImage(e'.cells, source, e.cells[x], e'.cells[x]);
    assert if x in e.origin then IsCopyOk(s', e.cells, e.origin, x) else IsOldOk(s', e.cells, x);
    assert AreListed(e'.cells, e'.entries);
    DeactivateKeepsInvariant(s, e, e', x, source);
  }

  /** Remembering changes no evacuated object. */
  lemma FinishIsProgress(s: Scope, e: Evacuation, x: Addr, source: Object)
    requires Invariant(s, e) && IsSource(s.before, e, x, source) && x in e.cells
    ensures StayForwarded(s.before, e.cells, e.cells[x := Remembered(e.cells[x])])
  {
    hide AreEvacueesOk, AreOldOk, AreListed, IsSurvivorOk, IsNew;
    assert x in e.origin ==> IsCopyOk(s, e.cells, e.origin, x);
  }

  lemma TagsKeepImage(cells: Cells, source: Object, c: Object, c': Object)
    requires IsImage(cells, source, c) && c' == c.(tags := c'.tags)
    ensures IsImage(cells, source, c') && (HasPointerToNew(c') <==> HasPointerToNew(c))
  {
  }

  // ---------- Reading a class while objects move ----------

  lemma SkeletonKeepsShape(o: Object, c: Object)
    requires HasSameSkeleton(o, c) && IsClass(o)
    ensures IsClass(c) && ShapeOf(c) == ShapeOf(o)
  {
    assert c.vars[INSTANCE_SHAPE_VAR] == o.vars[INSTANCE_SHAPE_VAR];
  }

  lemma SurvivorKeepsShape(cells: Cells, x: Addr, source: Object, active: bool)
    requires IsSurvivorOk(cells, x, source, active) && IsClass(source)
    ensures x in cells && IsClass(cells[x]) && ShapeOf(cells[x]) == ShapeOf(source)
  {
    hide HasSameSkeleton, IsClass, ShapeOf, IsImage;
    SkeletonKeepsShape(source, cells[x]);
  }

  /** The instance shape of a class can be read at its old address, even after the class was forwarded. */
  lemma ShapeStaysReadable(s: Scope, e: Evacuation, c: Addr)
    requires IsStart(s.before, s.live) && Invariant(s, e) && c in s.before && IsClass(s.before[c])
    ensures c in e.cells && IsClass(e.cells[c]) && ShapeOf(e.cells[c]) == ShapeOf(s.before[c])
  {
    hide IsNew, AreCopiesOk, AreListed, IsSurvivorOk, IsStart;
    if IsNew(c) {
      assert IsEvacueeOk(s.before, e.cells, e.origin, c);
    } else {
      assert IsOldOk(s, e.cells, c);
      if !(c in s.pending && c !in s.active) {
        SurvivorKeepsShape(e.cells, c, s.before[c], c in s.active);
      }
    }
  }

  /** And at the address where the class is found now. */
  lemma ShapeMovesAlong(s: Scope, e: Evacuation, c: Addr, w: Addr)
    requires IsStart(s.before, s.live) && Invariant(s, e) && c in s.before && IsClass(s.before[c]) && Resolves(e.cells, c, w)
    ensures w in e.cells && IsClass(e.cells[w]) && ShapeOf(e.cells[w]) == ShapeOf(s.before[c])
  {
    hide IsNew, AreOldOk, AreListed, IsSurvivorOk, IsStart, IsClass, ShapeOf;
    if IsNew(c) {
      assert IsEvacueeOk(s.before, e.cells, e.origin, c) && IsCopyOk(s, e.cells, e.origin, w);
      SurvivorKeepsShape(e.cells, w, s.before[c], w in s.active);
    } else {
      ShapeStaysReadable(s, e, c);
    }
  }

  /** An evacuated object that is not forwarded is as it was, and its size can be computed. */
  lemma EvacueeIsUntouched(s: Scope, e: Evacuation, a: Addr)
    requires IsStart(s.before, s.live) && Invariant(s, e) && a in s.before && IsNew(a) && a in e.cells && !e.cells[a].tags.forwarded
    ensures e.cells[a] == s.before[a] && a !in e.origin
    ensures e.cells[a].cls in e.cells && IsClass(e.cells[e.cells[a].cls]) && SizeOf(e.cells, a) == SizeOf(s.before, a)
  {
    hide IsNew, AreOldOk, AreListed, IsImage, IsClass, ShapeOf, CellSize, IsClosed;
    assert IsEvacueeOk(s.before, e.cells, e.origin, a);
    assert a in e.origin ==> IsCopyOk(s, e.cells, e.origin, a);
    assert IsObjectOk(s.before, s.before[a]);
    ShapeStaysReadable(s, e, s.before[a].cls);
  }

  // ---------- Where survivors are placed ----------

  /**
   The evacuated objects lie between `from` and `limit`; those below `survivorEnd` are promoted and
   the others are copied to the space between `start` and `end`.  `pages` are those that old space
   had at the start.
   */
  datatype Layout = Layout(from: Addr, limit: Addr, survivorEnd: Addr, start: Addr, end: Addr, pages: seq<HeapPage>)

  ghost predicate IsLayout(before: Cells, l: Layout) {
    && AreWithin(NewSizes(before), l.from, l.limit)
    && IsNewAligned(l.start) && l.from <= l.survivorEnd <= l.limit
    && (l.limit <= l.start || l.end <= l.from)
    && l.start + (l.limit - l.survivorEnd) <= l.end
  }

  /** The cells of the copies in new space, with the sizes of the objects they were made from. */
  ghost function CopySizes(before: Cells, origin: map<Addr, Addr>): map<Addr, nat> {
    map x | x in origin && IsNew(x) && origin[x] in before :: SizeOf(before, origin[x])
  }

  ghost function PromotedSizes(before: Cells, origin: map<Addr, Addr>): map<Addr, nat> {
    map x | x in origin && IsOld(x) && origin[x] in before :: SizeOf(before, origin[x])
  }

  /** The evacuated objects that were copied to new space. */
  ghost function MovedSizes(before: Cells, cells: Cells, survivorEnd: Addr): map<Addr, nat> {
    map a | a in before && IsNew(a) && survivorEnd <= a && a in cells && cells[a].tags.forwarded :: SizeOf(before, a)
  }

  ghost function SumSizes(sizes: map<Addr, nat>, lo: Addr, hi: Addr): nat
    decreases hi
  {
    if hi <= lo then 0 else SumSizes(sizes, lo, hi - 1) + (if hi - 1 in sizes then sizes[hi - 1] else 0)
  }

  lemma {:induction false} SumOfAdded(sizes: map<Addr, nat>, a: Addr, size: nat, lo: Addr, hi: Addr)
    requires a !in sizes
    ensures SumSizes(sizes[a := size], lo, hi) == SumSizes(sizes, lo, hi) + (if lo <= a < hi then size else 0)
    decreases hi
  {
    if lo < hi {
      SumOfAdded(sizes, a, size, lo, hi - 1);
    }
  }

  /** Cells that lie one beside the other take no more bytes than the range that holds them. */
  lemma {:induction false} SumIsBounded(sizes: map<Addr, nat>, lo: Addr, hi: Addr, limit: Addr)
    requires AreApart(sizes) && lo <= limit
    requires forall a :: a in sizes && lo <= a < hi ==> a + sizes[a] <= limit
    ensures SumSizes(sizes, lo, hi) <= limit - lo
    decreases hi
  {
    if lo < hi {
      if hi - 1 in sizes {
        SumIsBounded(sizes, lo, hi - 1, hi - 1);
      } else {
        SumIsBounded(sizes, lo, hi - 1, limit);
      }
    }
  }

  ghost predicate ArePlaced(s: Scope, e: Evacuation, l: Layout, used: map<Addr, nat>, top: Addr) {
    && used == OldSizes(s.before) + PromotedSizes(s.before, e.origin)
    && IsNewAligned(top) && AreWithin(CopySizes(s.before, e.origin), l.start, top)
    && top == l.start + SumSizes(MovedSizes(s.before, e.cells, l.survivorEnd), l.survivorEnd, l.limit)
    && (forall x :: x in e.origin ==> (IsOld(x) <==> e.origin[x] < l.survivorEnd))
  }

  ghost predicate IsSubmap(sub: map<Addr, nat>, sizes: map<Addr, nat>) {
    forall a :: a in sub ==> a in sizes && sub[a] == sizes[a]
  }

  lemma SubmapIsBounded(sub: map<Addr, nat>, sizes: map<Addr, nat>, lo: Addr, limit: Addr, mid: Addr)
    requires IsSubmap(sub, sizes) && AreWithin(sizes, lo, limit) && mid <= limit
    ensures SumSizes(sub, mid, limit) <= limit - mid
  {
    hide IsNewAligned;
    SumIsBounded(sub, mid, limit, limit);
  }

  lemma MovedIsSubmap(before: Cells, cells: Cells, survivorEnd: Addr, a: Addr)
    requires AreObjectsOk(before) && a in before && IsNew(a) && a in cells && !cells[a].tags.forwarded
    ensures var sizes := MovedSizes(before, cells, survivorEnd);
            IsObjectOk(before, before[a]) && a !in sizes && IsSubmap(sizes[a := SizeOf(before, a)], NewSizes(before))
  {
    hide IsNew, CellSize, IsObjectOk, SizeOf;
  }

  /** The half that receives the copies never runs full: there is room for every object not yet copied. */
  lemma CopyFits(s: Scope, e: Evacuation, l: Layout, used: map<Addr, nat>, top: Addr, a: Addr)
    requires AreObjectsOk(s.before) && IsLayout(s.before, l) && ArePlaced(s, e, l, used, top)
    requires a in s.before && IsNew(a) && a in e.cells && !e.cells[a].tags.forwarded && l.survivorEnd <= a
    ensures IsObjectOk(s.before, s.before[a])
    ensures top + SizeOf(s.before, a) <= l.end
  {
    MovedIsSubmap(s.before, e.cells, l.survivorEnd, a);
    hide AreObjectsOk, IsNewAligned, AreWithin, IsSubmap, CellSize;
    var sizes := MovedSizes(s.before, e.cells, l.survivorEnd);
    var size := SizeOf(s.before, a);
    assert a < l.limit by { NewIsBelow(s.before, l.from, l.limit, a); }
    SumOfAdded(sizes, a, size, l.survivorEnd, l.limit);
    SubmapIsBounded(sizes[a := size], NewSizes(s.before), l.from, l.limit, l.survivorEnd);
  }

  lemma CopyIsSmaller(before: Cells, origin: map<Addr, Addr>, start: Addr, top: Addr, x: Addr)
    requires AreObjectsOk(before) && AreWithin(CopySizes(before, origin), start, top)
    requires x in origin && IsNew(x) && origin[x] in before
    ensures start <= x < top
  {
    assert IsObjectOk(before, before[origin[x]]);
    CellSizeAligned(ShapeOf(before[before[origin[x]].cls]), before[origin[x]].size);
    hide IsNew, CellSize, SizeOf;
    assert x in CopySizes(before, origin);
  }

  /** The address at which the next copy is put holds nothing yet. */
  lemma TopIsFresh(s: Scope, e: Evacuation, l: Layout, used: map<Addr, nat>, top: Addr, a: Addr)
    requires IsStart(s.before, s.live) && Invariant(s, e) && IsLayout(s.before, l) && ArePlaced(s, e, l, used, top)
    requires a in s.before && IsNew(a) && a in e.cells && !e.cells[a].tags.forwarded && l.survivorEnd <= a
    ensures IsNew(top) && top !in e.cells
  {
    hide IsNew, CellSize, SizeOf, AreEvacueesOk, AreOldOk, AreListed, IsSurvivorOk, AreObjectsOk, AreTagsOk, IsClosed;
    NewAlignedIsNew(top);
    CopyFits(s, e, l, used, top, a);
    SizeIsPositive(s.before, a);
    if top in s.before {
      NewIsBelow(s.before, l.from, l.limit, top);
    } else if top in e.origin {
      assert IsCopyOk(s, e.cells, e.origin, top);
      CopyIsSmaller(s.before, e.origin, l.start, top, top);
    }
  }

  /** A cell of old space that is not in use is not the address of an object. */
  lemma UnusedIsFresh(s: Scope, e: Evacuation, l: Layout, used: map<Addr, nat>, top: Addr, b: Addr)
    requires Invariant(s, e) && ArePlaced(s, e, l, used, top)
    ensures IsOld(b) && b !in used ==> b !in e.cells
  {
    hide IsNew, SizeOf, AreEvacueesOk, AreOldOk, AreListed, IsSurvivorOk;
    if IsOld(b) && b in s.before {
      assert b in OldSizes(s.before);
    } else if IsOld(b) && b in e.origin {
      assert IsCopyOk(s, e.cells, e.origin, b);
      assert b in PromotedSizes(s.before, e.origin);
    }
  }

  lemma ForwardCopySizes(before: Cells, origin: map<Addr, Addr>, a: Addr, b: Addr)
    requires a in before && b !in origin
    ensures IsNew(b) ==> CopySizes(before, origin[b := a]) == CopySizes(before, origin)[b := SizeOf(before, a)]
    ensures IsOld(b) ==> CopySizes(before, origin[b := a]) == CopySizes(before, origin)
  {
    hide IsNew, SizeOf;
  }

  lemma ForwardPromotedSizes(before: Cells, origin: map<Addr, Addr>, a: Addr, b: Addr)
    requires a in before && b !in origin
    ensures IsNew(b) ==> PromotedSizes(before, origin[b := a]) == PromotedSizes(before, origin)
    ensures IsOld(b) ==> PromotedSizes(before, origin[b := a]) == PromotedSizes(before, origin)[b := SizeOf(before, a)]
  {
    hide IsNew, SizeOf;
  }

  lemma ForwardMovedSizes(before: Cells, cells: Cells, a: Addr, b: Addr, survivorEnd: Addr)
    requires a in before && IsNew(a) && a in cells && !cells[a].tags.forwarded && b !in before && b !in cells
    ensures var cells' := cells[a := Corpse(before[a], b)][b := CopyOf(before[a])];
            && a !in MovedSizes(before, cells, survivorEnd)
            && MovedSizes(before, cells', survivorEnd) ==
               if survivorEnd <= a then MovedSizes(before, cells, survivorEnd)[a := SizeOf(before, a)]
               else MovedSizes(before, cells, survivorEnd)
  {
    hide IsNew, SizeOf;
  }

  /** What forwarding does to the three groups of sizes. */
  lemma ForwardSizes(s: Scope, e: Evacuation, a: Addr, b: Addr, survivorEnd: Addr)
    requires CanForward(s, e, a, b)
    ensures b !in s.before && b !in e.origin
    ensures var size, e' := SizeOf(s.before, a), Forward(s, e, a, b);
            && CopySizes(s.before, e'.origin) == (if IsNew(b) then CopySizes(s.before, e.origin)[b := size] else CopySizes(s.before, e.origin))
            && PromotedSizes(s.before, e'.origin) == (if IsNew(b) then PromotedSizes(s.before, e.origin) else PromotedSizes(s.before, e.origin)[b := size])
            && a !in MovedSizes(s.before, e.cells, survivorEnd)
            && MovedSizes(s.before, e'.cells, survivorEnd) ==
               if survivorEnd <= a then MovedSizes(s.before, e.cells, survivorEnd)[a := size]
               else MovedSizes(s.before, e.cells, survivorEnd)
  {
    hide IsNew, SizeOf, AreEvacueesOk, AreOldOk, AreListed, AreCopiesOk, IsStart, CopySizes, PromotedSizes, MovedSizes;
    ForwardCopySizes(s.before, e.origin, a, b);
    ForwardPromotedSizes(s.before, e.origin, a, b);
    ForwardMovedSizes(s.before, e.cells, a, b, survivorEnd);
  }

  /** An object that survived a scavenge before is promoted: its copy takes a cell of old space. */
  lemma PromotedIsPlaced(s: Scope, e: Evacuation, l: Layout, used: map<Addr, nat>, top: Addr, a: Addr, b: Addr)
    requires CanForward(s, e, a, b) && ArePlaced(s, e, l, used, top)
    requires a < l.survivorEnd && IsOld(b) && b !in used
    ensures ArePlaced(Activate(s, b), Forward(s, e, a, b), l, used[b := SizeOf(s.before, a)], top)
  {
    hide IsNew, SizeOf, Invariant, IsStart, AreWithin, CopySizes, PromotedSizes, MovedSizes;
    ForwardSizes(s, e, a, b, l.survivorEnd);
  }

  lemma StartIsOk(s: Scope)
    requires IsStart(s.before, s.live)
    ensures AreObjectsOk(s.before)
  {
  }

  /** An object allocated since the last scavenge is copied behind the copies made so far. */
  lemma CopyIsPlaced(s: Scope, e: Evacuation, l: Layout, used: map<Addr, nat>, top: Addr, a: Addr)
    requires CanForward(s, e, a, top) && IsLayout(s.before, l) && ArePlaced(s, e, l, used, top)
    requires l.survivorEnd <= a && IsNew(top)
    ensures ArePlaced(Activate(s, top), Forward(s, e, a, top), l, used, top + SizeOf(s.before, a))
  {
    hide IsNew, IsNewAligned, SizeOf, Invariant, IsStart, AreWithin, CopySizes, PromotedSizes, MovedSizes, AreObjectsOk, IsCellSize;
    StartIsOk(s);
    ForwardSizes(s, e, a, top, l.survivorEnd);
    SizeIsPositive(s.before, a);
    var size := SizeOf(s.before, a);
    CellSizeKeepsAlignment(top, size);
    NewIsBelow(s.before, l.from, l.limit, a);
    SumOfAdded(MovedSizes(s.before, e.cells, l.survivorEnd), a, size, l.survivorEnd, l.limit);
    AppendIsWithin(CopySizes(s.before, e.origin), l.start, top, size);
  }

  // ---------- Termination ----------

  ghost function Unforwarded(before: Cells, cells: Cells): set<Addr> {
    set a | a in before && IsNew(a) && !(a in cells && cells[a].tags.forwarded)
  }

  lemma UnforwardedShrinks(s: Scope, e: Evacuation, e': Evacuation)
    requires Progresses(s.before, e, e')
    ensures |Unforwarded(s.before, e'.cells)| <= |Unforwarded(s.before, e.cells)|
  {
    hide IsNew;
    SubsetIsSmaller(Unforwarded(s.before, e'.cells), Unforwarded(s.before, e.cells));
  }

  lemma ForwardShrinks(s: Scope, e: Evacuation, a: Addr, b: Addr)
    requires a in s.before && IsNew(a) && !(a in e.cells && e.cells[a].tags.forwarded)
    requires b !in s.before
    ensures |Unforwarded(s.before, Forward(s, e, a, b).cells)| < |Unforwarded(s.before, e.cells)|
  {
    hide IsNew;
    SubsetIsSmaller(Unforwarded(s.before, Forward(s, e, a, b).cells), Unforwarded(s.before, e.cells) - {a});
  }
}

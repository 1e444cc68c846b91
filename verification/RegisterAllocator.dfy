/**
 The linear scan over live intervals (scanRegisters in vm/RegisterAllocator.c).

 A variable is its index among the 256 variables of the code, and 256 stands for NULL.
 */
module RegisterAllocation {
  import opened Collections

  const SPILLED_REG: int := -1
  const SORTED_VARS_SIZE: nat := 256
  const POOL_SIZE: nat := 512
  const VARS_SIZE: nat := 256
  const NO_VAR: nat := VARS_SIZE
  const CONTEXT_INDEX: nat := 0
  const CONTEXT_REG: int := 12

  datatype Interval = Interval(start: nat, end: nat)

  predicate Intersect(a: Interval, b: Interval) {
    a.start <= b.end && b.start <= a.end
  }

  /** Which register each variable has, which variables are in the window, and which registers are free. */
  datatype Scan = Scan(regs: seq<int>, window: seq<nat>, pool: seq<int>)

  function RegOf(regs: seq<int>, v: nat): int {
    if v < |regs| then regs[v] else SPILLED_REG
  }

  function WithReg(regs: seq<int>, v: nat, reg: int): (regs': seq<int>)
    ensures |regs'| == |regs|
  {
    if v < |regs| then regs[v := reg] else regs
  }

  function RegsOf(regs: seq<int>, window: seq<nat>): seq<int> {
    seq(|window|, i requires 0 <= i < |window| => RegOf(regs, window[i]))
  }

  /** The registers that can be given out: no two are the same, and none is the mark of a spilled variable. */
  ghost predicate AreAvailable(available: seq<int>) {
    HasNoDuplicates(available) && SPILLED_REG !in available && |available| <= POOL_SIZE
  }

  /** Free registers and those of the variables in the window together are the available ones. */
  ghost predicate IsPermutation(available: seq<int>, s: Scan) {
    && HasNoDuplicates(s.window) && (forall v :: v in s.window ==> v < |s.regs|)
    && multiset(s.pool) + multiset(RegsOf(s.regs, s.window)) == multiset(available)
  }

  /** No two variables that are alive at the same time have the same register. */
  ghost predicate AreCompatible(intervals: seq<Interval>, regs: seq<int>, done: set<nat>) {
    forall u, v :: u in done && v in done && u < |intervals| && v < |intervals| && u != v ==>
      Intersect(intervals[u], intervals[v]) && RegOf(regs, u) != SPILLED_REG && RegOf(regs, v) != SPILLED_REG ==> RegOf(regs, u) != RegOf(regs, v)
  }

  /** A variable that has a register and has left the window ends before `offset`. */
  ghost predicate AreExpired(intervals: seq<Interval>, s: Scan, done: set<nat>, offset: nat) {
    forall u :: u in done && u < |intervals| && u !in s.window && RegOf(s.regs, u) != SPILLED_REG ==> intervals[u].end < offset
  }

  /** Variables have available registers only. */
  ghost predicate AreFromPool(available: seq<int>, regs: seq<int>, done: set<nat>) {
    forall u :: u in done ==> RegOf(regs, u) == SPILLED_REG || RegOf(regs, u) in available
  }

  ghost function Holding(regs: seq<int>, done: set<nat>): set<nat> {
    set u | u in done && RegOf(regs, u) != SPILLED_REG
  }

  /** Every variable has a register, or at least as many of them have one as there are registers. */
  ghost predicate AreServed(available: seq<int>, regs: seq<int>, done: set<nat>) {
    Holding(regs, done) == done || |available| <= |Holding(regs, done)|
  }

  /** The variables whose intervals contain `offset`. */
  ghost function AliveAt(intervals: seq<Interval>, among: set<nat>, offset: nat): set<nat> {
    set u | u in among && u < |intervals| && intervals[u].start <= offset <= intervals[u].end
  }

  /** At every offset there are registers for all variables that are alive. */
  ghost predicate AreFew(intervals: seq<Interval>, available: seq<int>, among: set<nat>) {
    forall offset: nat :: |AliveAt(intervals, among, offset)| <= |available|
  }

  ghost predicate AreIntervals(intervals: seq<Interval>, among: set<nat>) {
    forall u :: u in among && u < |intervals| ==> intervals[u].start <= intervals[u].end
  }

  /** Nobody is spilled without need. */
  ghost predicate AreSpilledForNeed(intervals: seq<Interval>, available: seq<int>, regs: seq<int>, done: set<nat>) {
    AreIntervals(intervals, done) && AreFew(intervals, available, done) ==> Holding(regs, done) == done
  }

  ghost predicate Invariant(intervals: seq<Interval>, available: seq<int>, done: set<nat>, offset: nat, s: Scan) {
    && |s.regs| == |intervals| && AreAvailable(available) && IsPermutation(available, s)
    && (forall u :: u in done ==> u < |intervals| && intervals[u].start <= offset)
    && (forall v :: v in s.window ==> v in done)
    && AreExpired(intervals, s, done, offset) && AreCompatible(intervals, s.regs, done) && AreFromPool(available, s.regs, done)
    && AreServed(available, s.regs, done) && AreSpilledForNeed(intervals, available, s.regs, done)
  }

  function WithoutAt(window: seq<nat>, k: nat): seq<nat> {
    if k < |window| then window[..k] + window[k + 1..] else window
  }

  lemma WithoutOne(window: seq<nat>, regs: seq<int>, k: nat)
    requires HasNoDuplicates(window) && k < |window|
    ensures HasNoDuplicates(WithoutAt(window, k)) && (forall v :: v in WithoutAt(window, k) <==> v in window && v != window[k])
    ensures multiset(RegsOf(regs, window)) == multiset(RegsOf(regs, WithoutAt(window, k))) + multiset{RegOf(regs, window[k])}
  {
    var rest := WithoutAt(window, k);
    forall v | v in window && v != window[k]
      ensures v in rest
    {
      var i :| 0 <= i < |window| && window[i] == v;
      assert rest[if i < k then i else i - 1] == v;
    }
    forall v | v in rest
      ensures v in window && v != window[k]
    {
      var i :| 0 <= i < |rest| && rest[i] == v;
      assert window[if i < k then i else i + 1] == v;
    }
    var all := RegsOf(regs, window);
    assert all == all[..k] + [all[k]] + all[k + 1..];
    assert RegsOf(regs, rest) == all[..k] + all[k + 1..];
  }

  /** reuseVarReg and removeVar for a variable that is dead at `offset`. */
  function Release(s: Scan, k: nat): Scan
    requires k < |s.window|
  {
    s.(window := WithoutAt(s.window, k), pool := [RegOf(s.regs, s.window[k])] + s.pool)
  }

  lemma ReleaseKeepsInvariant(intervals: seq<Interval>, available: seq<int>, done: set<nat>, offset: nat, s: Scan, k: nat)
    requires Invariant(intervals, available, done, offset, s) && k < |s.window| && s.window[k] < |intervals|
    requires intervals[s.window[k]].end < offset
    ensures Invariant(intervals, available, done, offset, Release(s, k))
  {
    hide AreCompatible, AreServed, AreSpilledForNeed;
    WithoutOne(s.window, s.regs, k);
    var s' := Release(s, k);
    assert multiset(s'.pool) == multiset{RegOf(s.regs, s.window[k])} + multiset(s.pool);
  }

  /** A later offset. */
  lemma LaterKeepsInvariant(intervals: seq<Interval>, available: seq<int>, done: set<nat>, offset: nat, offset': nat, s: Scan)
    requires Invariant(intervals, available, done, offset, s) && offset <= offset'
    ensures Invariant(intervals, available, done, offset', s)
  {
    hide AreCompatible, IsPermutation, AreAvailable, AreServed, AreSpilledForNeed;
  }

  /** A variable in the window has an available register, and no other one in the window has it. */
  lemma WindowRegister(available: seq<int>, s: Scan, v: nat)
    requires AreAvailable(available) && IsPermutation(available, s) && v in s.window
    ensures RegOf(s.regs, v) in available && RegOf(s.regs, v) !in s.pool
    ensures forall u :: u in s.window && u != v ==> RegOf(s.regs, u) != RegOf(s.regs, v)
  {
    var k :| 0 <= k < |s.window| && s.window[k] == v;
    WithoutOne(s.window, s.regs, k);
    var rest := WithoutAt(s.window, k);
    CountOfDistinct(available, RegOf(s.regs, v));
    assert RegOf(s.regs, v) in multiset(available);
    forall u | u in s.window && u != v
      ensures RegOf(s.regs, u) != RegOf(s.regs, v)
    {
      assert u in rest;
      var i :| 0 <= i < |rest| && rest[i] == u;
      assert RegsOf(s.regs, rest)[i] == RegOf(s.regs, u);
      assert RegOf(s.regs, u) in multiset(RegsOf(s.regs, rest));
    }
  }

  /** The window with the variable added at its front or its end. */
  function Added(window: seq<nat>, v: nat, isFirst: bool): seq<nat> {
    if isFirst then [v] + window else window + [v]
  }

  /** A free register for the variable, or that of the first variable in the window, which is spilled. */
  function Give(s: Scan, v: nat, isFirst: bool): Scan
  {
    var window := Added(s.window, v, isFirst);
    if s.pool != [] then Scan(WithReg(s.regs, v, s.pool[0]), window, s.pool[1..])
    else if window[0] == v then Scan(WithReg(s.regs, v, SPILLED_REG), window[1..], [])
    else Scan(WithReg(WithReg(s.regs, v, RegOf(s.regs, window[0])), window[0], SPILLED_REG), window[1..], [])
  }

  /** No variable of the window is dead. */
  ghost predicate AreAlive(intervals: seq<Interval>, window: seq<nat>, offset: nat) {
    forall u :: u in window && u < |intervals| ==> offset <= intervals[u].end
  }

  /** A register can be given to `v`; when none is free, no dead variable has one. */
  ghost predicate CanGive(intervals: seq<Interval>, available: seq<int>, done: set<nat>, s: Scan, v: nat) {
    && v < |intervals| && v !in done && Invariant(intervals, available, done, intervals[v].start, s)
    && (s.pool == [] ==> AreAlive(intervals, s.window, intervals[v].start))
  }

  lemma FreeRegisterIsGiven(intervals: seq<Interval>, available: seq<int>, done: set<nat>, s: Scan, v: nat, isFirst: bool)
    requires CanGive(intervals, available, done, s, v) && s.pool != []
    ensures IsPermutation(available, Give(s, v, isFirst)) && s.pool[0] != SPILLED_REG
  {
    hide AreCompatible, AreExpired, AreServed, AreSpilledForNeed;
    var s' := Give(s, v, isFirst);
    assert s.pool == [s.pool[0]] + s.pool[1..];
    var others := RegsOf(s.regs, s.window);
    assert RegsOf(s'.regs, s'.window) == if isFirst then [s.pool[0]] + others else others + [s.pool[0]];
    assert s.pool[0] in multiset(available);
  }

  lemma RegisterIsTakenOver(intervals: seq<Interval>, available: seq<int>, done: set<nat>, s: Scan, v: nat, isFirst: bool)
    requires CanGive(intervals, available, done, s, v) && s.pool == []
    ensures IsPermutation(available, Give(s, v, isFirst))
  {
    hide AreCompatible, AreExpired, AreServed, AreSpilledForNeed;
    var s', window := Give(s, v, isFirst), Added(s.window, v, isFirst);
    if window[0] == v {
      assert s'.window == s.window;
      assert RegsOf(s'.regs, s'.window) == RegsOf(s.regs, s.window);
    } else {
      FirstIsReplaced(s.regs, s.window, v);
    }
  }

  /** The register of the first variable goes to one that comes last. */
  lemma FirstIsReplaced(regs: seq<int>, window: seq<nat>, v: nat)
    requires HasNoDuplicates(window) && window != [] && v !in window && v < |regs| && (forall u :: u in window ==> u < |regs|)
    ensures var regs' := WithReg(WithReg(regs, v, RegOf(regs, window[0])), window[0], SPILLED_REG);
            var window' := (window + [v])[1..];
            && HasNoDuplicates(window') && (forall u :: u in window' ==> u < |regs'|)
            && multiset(RegsOf(regs', window')) == multiset(RegsOf(regs, window))
  {
    var regs' := WithReg(WithReg(regs, v, RegOf(regs, window[0])), window[0], SPILLED_REG);
    var rest, first := window[1..], RegOf(regs, window[0]);
    assert (window + [v])[1..] == rest + [v];
    assert RegsOf(regs, window) == [first] + RegsOf(regs, rest);
    assert RegsOf(regs', rest + [v]) == RegsOf(regs, rest) + [first];
    assert forall u :: u in rest + [v] ==> u in window || u == v;
    assert multiset([first] + RegsOf(regs, rest)) == multiset(RegsOf(regs, rest) + [first]);
  }

  /** What is alive together with the new variable and has a register is still in the window. */
  lemma AliveIsInWindow(intervals: seq<Interval>, available: seq<int>, done: set<nat>, s: Scan, v: nat, u: nat)
    requires CanGive(intervals, available, done, s, v) && u in done && Intersect(intervals[u], intervals[v]) && RegOf(s.regs, u) != SPILLED_REG
    ensures u in s.window
  {
    hide AreCompatible, IsPermutation, AreAvailable, AreServed, AreSpilledForNeed;
  }

  lemma GiveIsCompatible(intervals: seq<Interval>, available: seq<int>, done: set<nat>, s: Scan, v: nat, isFirst: bool)
    requires CanGive(intervals, available, done, s, v)
    ensures AreCompatible(intervals, Give(s, v, isFirst).regs, done + {v})
  {
    hide IsPermutation, AreAvailable, AreExpired, Intersect, AreServed, AreSpilledForNeed;
    var s', window := Give(s, v, isFirst), Added(s.window, v, isFirst);
    forall u | u in done && u < |intervals| && Intersect(intervals[u], intervals[v]) && RegOf(s'.regs, u) != SPILLED_REG
      ensures RegOf(s'.regs, u) != RegOf(s'.regs, v) || RegOf(s'.regs, v) == SPILLED_REG
    {
      AliveIsInWindow(intervals, available, done, s, v, u);
      WindowRegister(available, s, u);
    }
    forall u | u in done && u < |intervals|
      ensures Intersect(intervals[u], intervals[v]) <==> Intersect(intervals[v], intervals[u])
    {
      IntersectIsSymmetric(intervals[u], intervals[v]);
    }
  }

  lemma IntersectIsSymmetric(a: Interval, b: Interval)
    ensures Intersect(a, b) <==> Intersect(b, a)
  {
  }

  lemma GiveKeepsWindow(intervals: seq<Interval>, available: seq<int>, done: set<nat>, s: Scan, v: nat, isFirst: bool)
    requires CanGive(intervals, available, done, s, v)
    ensures forall u :: u in Give(s, v, isFirst).window ==> u in done + {v}
    ensures AreExpired(intervals, Give(s, v, isFirst), done + {v}, intervals[v].start)
  {
    hide AreCompatible, IsPermutation, AreAvailable, AreServed, AreSpilledForNeed;
    var s', window := Give(s, v, isFirst), Added(s.window, v, isFirst);
    assert forall u :: u in window <==> u in s.window || u == v;
    assert window == [window[0]] + window[1..];
  }

  lemma GiveIsFromPool(intervals: seq<Interval>, available: seq<int>, done: set<nat>, s: Scan, v: nat, isFirst: bool)
    requires CanGive(intervals, available, done, s, v)
    ensures AreFromPool(available, Give(s, v, isFirst).regs, done + {v})
  {
    hide AreCompatible, AreExpired, AreServed, AreSpilledForNeed;
    if s.pool != [] {
      assert s.pool[0] in multiset(available);
    } else if s.window != [] {
      WindowRegister(available, s, s.window[0]);
    }
  }

  /** As many registers have been taken from the pool as there are variables in the window. */
  lemma TakenRegisters(available: seq<int>, s: Scan)
    requires IsPermutation(available, s)
    ensures |s.pool| + |s.window| == |available|
  {
    assert |multiset(s.pool) + multiset(RegsOf(s.regs, s.window))| == |multiset(available)|;
  }

  lemma WindowHolds(intervals: seq<Interval>, available: seq<int>, done: set<nat>, s: Scan, v: nat)
    requires CanGive(intervals, available, done, s, v) && s.pool == []
    ensures |available| <= |Holding(s.regs, done)| && SetOf(s.window) <= Holding(s.regs, done)
  {
    hide AreCompatible, AreExpired, AreFromPool, AreServed, AreSpilledForNeed;
    TakenRegisters(available, s);
    forall u | u in s.window
      ensures RegOf(s.regs, u) != SPILLED_REG
    {
      WindowRegister(available, s, u);
    }
    SizeOfDistinct(s.window);
    SubsetIsSmaller(SetOf(s.window), Holding(s.regs, done));
  }

  lemma HoldingOne(regs: seq<int>, done: set<nat>, v: nat, reg: int)
    requires v < |regs| && v !in done
    ensures Holding(WithReg(regs, v, reg), done + {v}) == Holding(regs, done) + if reg == SPILLED_REG then {} else {v}
  {
  }

  lemma HoldingInstead(regs: seq<int>, done: set<nat>, v: nat, spilled: nat)
    requires v < |regs| && v !in done && spilled in Holding(regs, done)
    ensures var holding := Holding(WithReg(WithReg(regs, v, RegOf(regs, spilled)), spilled, SPILLED_REG), done + {v});
            holding == Holding(regs, done) - {spilled} + {v} && |holding| == |Holding(regs, done)|
  {
    HoldingOne(regs, done, v, RegOf(regs, spilled));
    assert Holding(WithReg(WithReg(regs, v, RegOf(regs, spilled)), spilled, SPILLED_REG), done + {v})
        == Holding(WithReg(regs, v, RegOf(regs, spilled)), done + {v}) - {spilled};
  }

  /** A variable is spilled only when all registers are in use, and then just one. */
  lemma GiveServes(intervals: seq<Interval>, available: seq<int>, done: set<nat>, s: Scan, v: nat, isFirst: bool)
    requires CanGive(intervals, available, done, s, v)
    ensures AreServed(available, Give(s, v, isFirst).regs, done + {v})
  {
    hide AreCompatible, AreExpired, AreFromPool, IsPermutation, AreAvailable, Holding, WithReg, RegOf;
    if s.pool != [] {
      FreeRegisterIsGiven(intervals, available, done, s, v, isFirst);
      HoldingOne(s.regs, done, v, s.pool[0]);
      SubsetIsSmaller(Holding(s.regs, done), Holding(s.regs, done) + {v});
    } else {
      WindowHolds(intervals, available, done, s, v);
      var spilled := Added(s.window, v, isFirst)[0];
      if spilled == v {
        HoldingOne(s.regs, done, v, SPILLED_REG);
      } else {
        assert spilled in SetOf(s.window);
        HoldingInstead(s.regs, done, v, spilled);
      }
    }
  }

  /** When the pool has run out, the variables of the window and the new one are alive at its start. */
  lemma AllAreAlive(intervals: seq<Interval>, available: seq<int>, done: set<nat>, s: Scan, v: nat)
    requires CanGive(intervals, available, done, s, v) && s.pool == [] && intervals[v].start <= intervals[v].end
    ensures |available| < |AliveAt(intervals, done + {v}, intervals[v].start)|
  {
    hide AreCompatible, AreExpired, AreFromPool, AreServed, AreSpilledForNeed, AreAvailable;
    TakenRegisters(available, s);
    SizeOfDistinct(s.window);
    SubsetIsSmaller(SetOf(s.window) + {v}, AliveAt(intervals, done + {v}, intervals[v].start));
  }

  lemma FewerAreFew(intervals: seq<Interval>, available: seq<int>, done: set<nat>, v: nat)
    requires AreFew(intervals, available, done + {v})
    ensures AreFew(intervals, available, done)
  {
    forall offset: nat
      ensures |AliveAt(intervals, done, offset)| <= |available|
    {
      SubsetIsSmaller(AliveAt(intervals, done, offset), AliveAt(intervals, done + {v}, offset));
      assert |AliveAt(intervals, done + {v}, offset)| <= |available|;
    }
  }

  /** A variable is spilled only where more variables are alive than there are registers. */
  lemma GiveSpillsForNeed(intervals: seq<Interval>, available: seq<int>, done: set<nat>, s: Scan, v: nat, isFirst: bool)
    requires CanGive(intervals, available, done, s, v)
    ensures AreSpilledForNeed(intervals, available, Give(s, v, isFirst).regs, done + {v})
  {
    hide AreCompatible, AreExpired, AreFromPool, AreServed, IsPermutation, AreAvailable, Holding, WithReg, RegOf, AliveAt;
    if AreIntervals(intervals, done + {v}) && AreFew(intervals, available, done + {v}) {
      FewerAreFew(intervals, available, done, v);
      if s.pool == [] {
        AllAreAlive(intervals, available, done, s, v);
        assert false;
      } else {
        FreeRegisterIsGiven(intervals, available, done, s, v, isFirst);
        HoldingOne(s.regs, done, v, s.pool[0]);
      }
    }
  }

  ghost function RegsIn(regs: seq<int>, among: set<nat>): set<int> {
    set u | u in among :: RegOf(regs, u)
  }

  lemma {:induction false} EachHasItsOwn(regs: seq<int>, among: set<nat>)
    requires forall u, v :: u in among && v in among && u != v ==> RegOf(regs, u) != RegOf(regs, v)
    ensures |RegsIn(regs, among)| == |among|
    decreases among
  {
    if among != {} {
      var u :| u in among;
      EachHasItsOwn(regs, among - {u});
      assert RegsIn(regs, among) == RegsIn(regs, among - {u}) + {RegOf(regs, u)};
    }
  }

  /** Somebody is spilled exactly when at some offset more variables are alive than there are registers. */
  lemma SpilledExactlyForNeed(intervals: seq<Interval>, available: seq<int>, regs: seq<int>, done: set<nat>)
    requires AreCompatible(intervals, regs, done) && AreFromPool(available, regs, done) && AreSpilledForNeed(intervals, available, regs, done)
    requires AreIntervals(intervals, done)
    ensures Holding(regs, done) == done <==> AreFew(intervals, available, done)
  {
    if Holding(regs, done) == done {
      forall offset: nat
        ensures |AliveAt(intervals, done, offset)| <= |available|
      {
        var alive := AliveAt(intervals, done, offset);
        forall u | u in alive
          ensures RegOf(regs, u) != SPILLED_REG
        {
          assert u in Holding(regs, done);
        }
        EachHasItsOwn(regs, alive);
        SubsetIsSmaller(RegsIn(regs, alive), SetOf(available));
        SetIsNotLarger(available);
      }
    }
  }

  lemma GiveKeepsInvariant(intervals: seq<Interval>, available: seq<int>, done: set<nat>, s: Scan, v: nat, isFirst: bool)
    requires CanGive(intervals, available, done, s, v)
    ensures Invariant(intervals, available, done + {v}, intervals[v].start, Give(s, v, isFirst))
  {
    hide AreCompatible, IsPermutation, AreAvailable, AreExpired, AreFromPool, AreServed, AreSpilledForNeed;
    if s.pool != [] {
      FreeRegisterIsGiven(intervals, available, done, s, v, isFirst);
    } else {
      RegisterIsTakenOver(intervals, available, done, s, v, isFirst);
    }
    GiveIsCompatible(intervals, available, done, s, v, isFirst);
    GiveIsFromPool(intervals, available, done, s, v, isFirst);
    GiveKeepsWindow(intervals, available, done, s, v, isFirst);
    GiveServes(intervals, available, done, s, v, isFirst);
    GiveSpillsForNeed(intervals, available, done, s, v, isFirst);
    assert |Give(s, v, isFirst).regs| == |s.regs|;
  }

  // ---------- The data of the scan ----------

  datatype Variable = Variable(isDefined: bool, start: nat, end: nat, reg: int)

  function IntervalsOf(vars: seq<Variable>): seq<Interval> {
    seq(|vars|, i requires 0 <= i < |vars| => Interval(vars[i].start, vars[i].end))
  }

  function RegistersOf(vars: seq<Variable>): seq<int> {
    seq(|vars|, i requires 0 <= i < |vars| => vars[i].reg)
  }

  /** What lies behind the window is NULL, which is how getFirstVar recognises an empty one. */
  ghost predicate IsWindow(vars: seq<nat>, first: nat, last: nat) {
    && |vars| == SORTED_VARS_SIZE && first <= last <= SORTED_VARS_SIZE
    && (forall k :: first <= k < last ==> vars[k] < NO_VAR)
    && (forall k :: last <= k < SORTED_VARS_SIZE ==> vars[k] == NO_VAR)
  }

  /** Pointers into the middle of an array, which `first` and `last` delimit. */
  class SortedVars {
    const vars: array<nat>
    var first: nat
    var last: nat

    ghost predicate Valid()
      reads this, vars
    {
      IsWindow(vars[..], first, last)
    }

    ghost function Window(): seq<nat>
      requires Valid()
      reads this, vars
    {
      vars[first..last]
    }

    constructor ()
      ensures Valid() && Window() == [] && fresh(vars) && first == last == SORTED_VARS_SIZE / 2
    {
      vars := new nat[SORTED_VARS_SIZE](_ => NO_VAR);
      first := SORTED_VARS_SIZE / 2;
      last := SORTED_VARS_SIZE / 2;
    }

    function GetFirstVar(): (v: nat)
      requires Valid() && first < SORTED_VARS_SIZE
      reads this, vars
      ensures v == NO_VAR <==> Window() == []
      ensures v != NO_VAR ==> v == Window()[0]
    {
      vars[first]
    }

    method AddFirstVar(v: nat)
      requires Valid() && 0 < first && v < NO_VAR
      modifies this`first, vars
      ensures Valid() && Window() == [v] + old(Window()) && first == old(first) - 1
    {
      first := first - 1;
      vars[first] := v;
    }

    method AddLastVar(v: nat)
      requires Valid() && last < SORTED_VARS_SIZE && v < NO_VAR
      modifies this`last, vars
      ensures Valid() && Window() == old(Window()) + [v] && last == old(last) + 1
    {
      vars[last] := v;
      last := last + 1;
    }

    /** removeVar: the memmove takes one more slot than the window has, the NULL behind it. */
    method RemoveVar(pos: nat)
      requires Valid() && first <= pos < last < SORTED_VARS_SIZE
      modifies this`last, vars
      ensures Valid() && Window() == WithoutAt(old(Window()), pos - first) && last == old(last) - 1
    {
      hide WithoutAt, Moved, IsWindow;
      MovedWindow(vars[..], first, pos, last);
      Memmove(vars, pos, last);
      last := last - 1;
    }
  }

  /** The items behind `pos` have moved down by one place, up to the one at `last`. */
  function Moved(s: seq<nat>, pos: nat, last: nat): (moved: seq<nat>)
    requires pos <= last < |s|
    ensures |moved| == |s|
  {
    seq(|s|, k requires 0 <= k < |s| => s[if pos <= k < last then k + 1 else k])
  }

  method Memmove(vars: array<nat>, pos: nat, last: nat)
    requires pos <= last < vars.Length
    modifies vars
    ensures vars[..] == Moved(old(vars[..]), pos, last)
  {
    ghost var before := vars[..];
    var i := pos;
    while i < last
      invariant pos <= i <= last
      invariant forall k :: 0 <= k < vars.Length ==> vars[k] == before[if pos <= k < i then k + 1 else k]
    {
      vars[i] := vars[i + 1];
      i := i + 1;
    }
  }

  lemma MovedWindow(before: seq<nat>, first: nat, pos: nat, last: nat)
    requires IsWindow(before, first, last) && first <= pos < last < SORTED_VARS_SIZE
    ensures IsWindow(Moved(before, pos, last), first, last - 1)
    ensures Moved(before, pos, last)[first..last - 1] == WithoutAt(before[first..last], pos - first)
  {
    var after, window, i := Moved(before, pos, last), before[first..last], pos - first;
    assert window[..i] == before[first..pos];
    assert window[i + 1..] == before[pos + 1..last];
    assert after[first..pos] == before[first..pos];
    assert after[pos..last - 1] == before[pos + 1..last];
    assert after[first..last - 1] == after[first..pos] + after[pos..last - 1];
  }

  class RegsPool {
    const regs: array<int>
    var tmp: nat
    const end: nat

    ghost predicate Valid()
      reads this
    {
      tmp <= end <= regs.Length
    }

    ghost function Contents(): seq<int>
      requires Valid()
      reads this, regs
    {
      regs[tmp..end]
    }

    constructor (available: seq<int>)
      requires |available| <= POOL_SIZE
      ensures Valid() && Contents() == available && tmp == 0 && fresh(regs)
    {
      regs := new int[POOL_SIZE](i => if 0 <= i < |available| then available[i] else 0);
      tmp := 0;
      end := |available|;
      new;
      assert regs[..end] == available;
    }

    method NextReg() returns (reg: int)
      requires Valid()
      modifies this`tmp
      ensures Valid()
      ensures if old(Contents()) == [] then reg == SPILLED_REG && tmp == old(tmp) else [reg] + Contents() == old(Contents()) && tmp == old(tmp) + 1
    {
      if tmp < end {
        reg := regs[tmp];
        tmp := tmp + 1;
      } else {
        reg := SPILLED_REG;
      }
    }

    method ReuseVarReg(reg: int)
      requires Valid() && 0 < tmp
      modifies this`tmp, regs
      ensures Valid() && Contents() == [reg] + old(Contents()) && tmp == old(tmp) - 1
    {
      tmp := tmp - 1;
      regs[tmp] := reg;
    }
  }

  ghost function StateOf(vars: array<Variable>, window: SortedVars, pool: RegsPool): Scan
    requires window.Valid() && pool.Valid()
    reads vars, window, window.vars, pool, pool.regs
  {
    Scan(RegistersOf(vars[..]), window.Window(), pool.Contents())
  }

  /** `count` variables were given registers up to now, the last one at `offset`. */
  ghost predicate IsScanning(vars: array<Variable>, window: SortedVars, pool: RegsPool, available: seq<int>, done: set<nat>, offset: nat, count: nat)
    reads vars, window, window.vars, pool, pool.regs
  {
    && window.Valid() && pool.Valid() && vars.Length == VARS_SIZE && pool.end == |available|
    && SORTED_VARS_SIZE / 2 - count <= window.first && window.last <= SORTED_VARS_SIZE / 2 + count && window.last < SORTED_VARS_SIZE
    && Invariant(IntervalsOf(vars[..]), available, done, offset, StateOf(vars, window, pool))
  }

  lemma InvariantParts(intervals: seq<Interval>, available: seq<int>, done: set<nat>, offset: nat, s: Scan)
    requires Invariant(intervals, available, done, offset, s)
    ensures IsPermutation(available, s) && |s.regs| == |intervals| && forall v :: v in s.window ==> v in done && v < |intervals|
  {
    hide AreCompatible, AreExpired, AreAvailable, AreServed, AreSpilledForNeed;
  }

  /** reuseVarReg and removeVar for the dead variable at `pVar`. */
  method ReleaseVar(vars: array<Variable>, window: SortedVars, pool: RegsPool, pVar: nat, offset: nat, ghost available: seq<int>, ghost done: set<nat>, ghost count: nat)
    requires IsScanning(vars, window, pool, available, done, offset, count) && window.first <= pVar < window.last
    requires window.vars[pVar] < VARS_SIZE && vars[window.vars[pVar]].end < offset
    modifies window`last, window.vars, pool`tmp, pool.regs
    ensures IsScanning(vars, window, pool, available, done, offset, count) && window.last == old(window.last) - 1
    ensures pool.Contents() == [old(vars[window.vars[pVar]].reg)] + old(pool.Contents())
  {
    hide Invariant, IntervalsOf, RegOf, RegistersOf, WithoutAt, IsPermutation;
    ghost var s, intervals := StateOf(vars, window, pool), IntervalsOf(vars[..]);
    var v := window.vars[pVar];
    IntervalOf(vars[..], v);
    RegisterIsSet(vars[..], v, 0);
    InvariantParts(intervals, available, done, offset, s);
    TakenRegisters(available, s);
    assert v == window.Window()[pVar - window.first];
    ReleaseKeepsInvariant(intervals, available, done, offset, s, pVar - window.first);
    pool.ReuseVarReg(vars[v].reg);
    window.RemoveVar(pVar);
    assert StateOf(vars, window, pool) == Release(s, pVar - window.first);
  }

  /**
   removeDeadVars: the variable that moves into the place of a removed one is not looked at.  But if
   any variable is dead, one is removed, and the pool is not empty.
   */
  method RemoveDeadVars(vars: array<Variable>, window: SortedVars, pool: RegsPool, offset: nat, ghost available: seq<int>, ghost done: set<nat>, ghost count: nat)
    requires IsScanning(vars, window, pool, available, done, offset, count)
    modifies window`last, window.vars, pool`tmp, pool.regs
    ensures IsScanning(vars, window, pool, available, done, offset, count)
    ensures pool.Contents() == [] ==> forall u :: u in window.Window() ==> offset <= vars[u].end
  {
    hide Invariant;
    var pVar := window.first;
    while pVar < window.last
      invariant IsScanning(vars, window, pool, available, done, offset, count) && window.first <= pVar
      invariant pool.Contents() == [] ==>
                forall k :: window.first <= k < pVar && k < window.last ==> offset <= vars[window.vars[k]].end
      decreases SORTED_VARS_SIZE - pVar
    {
      if vars[window.vars[pVar]].end < offset {
        ReleaseVar(vars, window, pool, pVar, offset, available, done, count);
      }
      pVar := pVar + 1;
    }
  }

  function WithRegister(vars: seq<Variable>, v: nat, reg: int): seq<Variable> {
    if v < |vars| then vars[v := vars[v].(reg := reg)] else vars
  }

  ghost predicate OnlyRegsDiffer(vars: seq<Variable>, vars': seq<Variable>) {
    |vars'| == |vars| && forall v :: 0 <= v < |vars| ==> vars'[v] == vars[v].(reg := vars'[v].reg)
  }

  lemma DiffersTwice(a: seq<Variable>, b: seq<Variable>, c: seq<Variable>)
    requires OnlyRegsDiffer(a, b) && OnlyRegsDiffer(b, c)
    ensures OnlyRegsDiffer(a, c)
  {
    forall v | 0 <= v < |a|
      ensures c[v] == a[v].(reg := c[v].reg)
    {
      assert b[v] == a[v].(reg := b[v].reg) && c[v] == b[v].(reg := c[v].reg);
    }
  }

  lemma NothingDiffers(vars: seq<Variable>)
    ensures OnlyRegsDiffer(vars, vars)
  {
  }

  lemma RegisterIsSet(vars: seq<Variable>, v: nat, reg: int)
    ensures IntervalsOf(WithRegister(vars, v, reg)) == IntervalsOf(vars)
    ensures RegistersOf(WithRegister(vars, v, reg)) == WithReg(RegistersOf(vars), v, reg)
    ensures OnlyRegsDiffer(vars, WithRegister(vars, v, reg))
    ensures |RegistersOf(vars)| == |vars| && (v < |vars| ==> RegOf(RegistersOf(vars), v) == vars[v].reg)
  {
  }

  method SetRegister(vars: array<Variable>, v: nat, reg: int)
    requires v < vars.Length
    modifies vars
    ensures vars[..] == WithRegister(old(vars[..]), v, reg) && OnlyRegsDiffer(old(vars[..]), vars[..])
    ensures IntervalsOf(vars[..]) == IntervalsOf(old(vars[..])) && RegistersOf(vars[..]) == WithReg(RegistersOf(old(vars[..])), v, reg)
  {
    RegisterIsSet(vars[..], v, reg);
    vars[v] := vars[v].(reg := reg);
  }

  /** The window before a register is looked for. */
  method AddVar(vars: array<Variable>, window: SortedVars, v: nat) returns (isFirst: bool)
    requires window.Valid() && vars.Length == VARS_SIZE && v < VARS_SIZE && 0 < window.first && window.last < SORTED_VARS_SIZE
    modifies window, window.vars
    ensures window.Valid() && window.Window() == Added(old(window.Window()), v, isFirst)
    ensures old(window.first) - 1 <= window.first && window.last <= old(window.last) + 1
    // A variable that ends before the first one goes to the other end.
    ensures isFirst <==> old(window.Window()) == [] || vars[v].end >= vars[old(window.Window())[0]].end
  {
    var first := window.GetFirstVar();
    isFirst := first == NO_VAR || vars[v].end >= vars[first].end;
    if isFirst {
      window.AddFirstVar(v);
    } else {
      window.AddLastVar(v);
    }
  }

  /** When no register is free, `v` takes over that of the first variable in the window, which may be `v` itself. */
  method Spill(vars: array<Variable>, window: SortedVars, v: nat)
    requires window.Valid() && window.Window() != [] && window.last < SORTED_VARS_SIZE && vars.Length == VARS_SIZE && v < VARS_SIZE
    modifies vars, window`last, window.vars
    ensures window.Valid() && window.Window() == old(window.Window())[1..] && window.last == old(window.last) - 1
    ensures var spilled := old(window.Window())[0];
            && spilled < VARS_SIZE
            && vars[..] == WithRegister(WithRegister(old(vars[..]), v, old(vars[spilled].reg)), spilled, SPILLED_REG)
    ensures OnlyRegsDiffer(old(vars[..]), vars[..])
  {
    hide OnlyRegsDiffer;
    var spilled := window.GetFirstVar();
    assert spilled == window.Window()[0];
    window.RemoveVar(window.first);
    ghost var before := vars[..];
    SetRegister(vars, v, vars[spilled].reg);
    ghost var between := vars[..];
    SetRegister(vars, spilled, SPILLED_REG);
    DiffersTwice(before, between, vars[..]);
  }

  lemma SpillIsGiven(vars: seq<Variable>, s: Scan, v: nat, isFirst: bool)
    requires v < |vars| && vars[v].reg == SPILLED_REG && s.regs == RegistersOf(vars) && s.pool == []
    requires Added(s.window, v, isFirst)[0] < |vars|
    ensures var spilled := Added(s.window, v, isFirst)[0];
            var vars' := WithRegister(WithRegister(vars, v, vars[spilled].reg), spilled, SPILLED_REG);
            && Give(s, v, isFirst) == Scan(RegistersOf(vars'), Added(s.window, v, isFirst)[1..], [])
            && IntervalsOf(vars') == IntervalsOf(vars)
  {
    var spilled := Added(s.window, v, isFirst)[0];
    RegisterIsSet(vars, spilled, 0);
    RegisterIsSet(vars, v, vars[spilled].reg);
    RegisterIsSet(WithRegister(vars, v, vars[spilled].reg), spilled, SPILLED_REG);
    if spilled == v {
      assert WithReg(WithReg(s.regs, v, RegOf(s.regs, v)), v, SPILLED_REG) == WithReg(s.regs, v, SPILLED_REG);
    }
  }

  lemma SpilledIsSpilled(vars: seq<Variable>, v: nat)
    requires v < |vars| && vars[v].reg == SPILLED_REG
    ensures WithRegister(vars, v, SPILLED_REG) == vars
  {
  }

  /** A register for `v`, which has just been added to the window `s.window`. */
  method TakeRegister(vars: array<Variable>, window: SortedVars, pool: RegsPool, v: nat, ghost s: Scan, ghost isFirst: bool)
    requires window.Valid() && pool.Valid() && v < VARS_SIZE && vars.Length == VARS_SIZE && vars[v].reg == SPILLED_REG
    requires s.regs == RegistersOf(vars[..]) && s.pool == pool.Contents() && window.Window() == Added(s.window, v, isFirst)
    requires (forall u :: u in s.window ==> u < VARS_SIZE) && (s.pool != [] ==> s.pool[0] != SPILLED_REG) && window.last < SORTED_VARS_SIZE
    modifies vars, window`last, window.vars, pool`tmp
    ensures window.Valid() && pool.Valid() && StateOf(vars, window, pool) == Give(s, v, isFirst) && window.last <= old(window.last)
    ensures IntervalsOf(vars[..]) == IntervalsOf(old(vars[..])) && OnlyRegsDiffer(old(vars[..]), vars[..])
    ensures forall u :: 0 <= u < VARS_SIZE && u !in s.window && u != v ==> vars[u] == old(vars[u])
  {
    hide RegOf, WithReg, IntervalsOf, RegistersOf, Give, SortedVars.Valid, OnlyRegsDiffer;
    ghost var before := vars[..];
    if s.pool != [] {
      FreeIsGiven(before, s, v, isFirst);
    }
    SpilledIsSpilled(before, v);
    var reg := pool.NextReg();
    SetRegister(vars, v, reg);
    if reg == SPILLED_REG {
      WindowIsInRange(before, s, v, isFirst);
      SpillIsGiven(before, s, v, isFirst);
      ghost var between := vars[..];
      Spill(vars, window, v);
      DiffersTwice(before, between, vars[..]);
    }
  }

  /**
   The part of scanRegisters for one variable, after dead ones were removed; false when the window
   comes to an end of its array, behind which there is no NULL any more.
   */
  method GiveRegister(vars: array<Variable>, window: SortedVars, pool: RegsPool, v: nat, ghost available: seq<int>, ghost done: set<nat>, ghost count: nat)
    returns (ok: bool)
    requires v < VARS_SIZE && vars.Length == VARS_SIZE && v !in done && vars[v].reg == SPILLED_REG
    requires IsScanning(vars, window, pool, available, done, vars[v].start, count)
    requires pool.Contents() == [] ==> forall u :: u in window.Window() ==> u < VARS_SIZE ==> vars[v].start <= vars[u].end
    modifies vars, window, window.vars, pool`tmp
    ensures ok <==> 0 < old(window.first) && old(window.last) < SORTED_VARS_SIZE - 1
    ensures count + 1 < SORTED_VARS_SIZE / 2 ==> ok
    ensures ok ==> IsScanning(vars, window, pool, available, done + {v}, old(vars[v].start), count + 1)
    ensures IntervalsOf(vars[..]) == IntervalsOf(old(vars[..])) && OnlyRegsDiffer(old(vars[..]), vars[..])
    ensures forall u :: 0 <= u < VARS_SIZE && u !in done && u != v ==> vars[u] == old(vars[u])
  {
    hide Invariant, RegOf, WithReg, IntervalsOf, RegistersOf, Give, SortedVars.Valid, RegsPool.Valid, OnlyRegsDiffer;
    ghost var s, intervals := StateOf(vars, window, pool), IntervalsOf(vars[..]);
    ok := 0 < window.first && window.last < SORTED_VARS_SIZE - 1;
    IntervalOf(vars[..], v);
    NothingDiffers(vars[..]);
    if !ok {
      return;
    }
    InvariantParts(intervals, available, done, vars[v].start, s);
    WindowIsAlive(vars[..], s.window, vars[v].start);
    if s.pool != [] {
      FreeRegister(intervals, available, done, s, v);
    }
    var isFirst := AddVar(vars, window, v);
    GiveKeepsInvariant(intervals, available, done, s, v, isFirst);
    TakeRegister(vars, window, pool, v, s, isFirst);
  }

  lemma WindowIsAlive(vars: seq<Variable>, window: seq<nat>, offset: nat)
    requires forall u :: u in window ==> u < |vars|
    ensures (forall u :: u in window ==> offset <= vars[u].end) ==> AreAlive(IntervalsOf(vars), window, offset)
  {
  }

  lemma IntervalOf(vars: seq<Variable>, v: nat)
    requires v < |vars|
    ensures |IntervalsOf(vars)| == |RegistersOf(vars)| == |vars| && IntervalsOf(vars)[v] == Interval(vars[v].start, vars[v].end)
  {
  }

  lemma FreeIsGiven(vars: seq<Variable>, s: Scan, v: nat, isFirst: bool)
    requires v < |vars| && s.regs == RegistersOf(vars) && s.pool != []
    ensures Give(s, v, isFirst) == Scan(RegistersOf(WithRegister(vars, v, s.pool[0])), Added(s.window, v, isFirst), s.pool[1..])
    ensures IntervalsOf(WithRegister(vars, v, s.pool[0])) == IntervalsOf(vars)
  {
    RegisterIsSet(vars, v, s.pool[0]);
  }

  lemma WindowIsInRange(vars: seq<Variable>, s: Scan, v: nat, isFirst: bool)
    requires v < |vars| && forall u :: u in s.window ==> u < |vars|
    ensures Added(s.window, v, isFirst)[0] < |vars|
  {
    assert s.window != [] ==> s.window[0] in s.window;
  }

  lemma FreeRegister(intervals: seq<Interval>, available: seq<int>, done: set<nat>, s: Scan, v: nat)
    requires CanGive(intervals, available, done, s, v) && s.pool != []
    ensures s.pool[0] != SPILLED_REG
  {
    FreeRegisterIsGiven(intervals, available, done, s, v, true);
  }

  // ---------- scanRegisters ----------

  ghost predicate AreOrderedByStart(vars: seq<Variable>, order: seq<nat>) {
    && HasNoDuplicates(order) && (forall i :: 0 <= i < |order| ==> order[i] < |vars|)
    && (forall i, j :: 0 <= i < j < |order| && order[i] < |vars| && order[j] < |vars| ==> vars[order[i]].start <= vars[order[j]].start)
  }

  ghost function Allocated(order: seq<nat>, i: nat): set<nat>
    requires i <= |order|
  {
    set v | v in order[..i] && v != CONTEXT_INDEX
  }

  lemma NothingIsAllocated(intervals: seq<Interval>, available: seq<int>, regs: seq<int>, offset: nat)
    requires AreAvailable(available) && |regs| == |intervals|
    ensures Invariant(intervals, available, {}, offset, Scan(regs, [], available))
  {
  }

  /** One turn of the loop in scanRegisters. */
  method ScanVar(vars: array<Variable>, window: SortedVars, pool: RegsPool, v: nat, ghost available: seq<int>, ghost done: set<nat>, ghost offset: nat, ghost count: nat)
    returns (ok: bool, ghost offset': nat)
    requires v < VARS_SIZE && vars.Length == VARS_SIZE && v !in done && vars[v].reg == SPILLED_REG
    requires IsScanning(vars, window, pool, available, done, offset, count) && offset <= vars[v].start
    modifies vars, window, window.vars, pool`tmp, pool.regs
    ensures count + 1 < SORTED_VARS_SIZE / 2 ==> ok
    ensures offset' == old(vars[v].start) && (ok ==> IsScanning(vars, window, pool, available, done + {v}, offset', count + 1))
    ensures IntervalsOf(vars[..]) == IntervalsOf(old(vars[..])) && OnlyRegsDiffer(old(vars[..]), vars[..])
    ensures forall u :: 0 <= u < VARS_SIZE && u !in done && u != v ==> vars[u] == old(vars[u])
  {
    hide Invariant, IntervalsOf, RegistersOf, SortedVars.Valid, RegsPool.Valid, OnlyRegsDiffer;
    LaterKeepsInvariant(IntervalsOf(vars[..]), available, done, offset, vars[v].start, StateOf(vars, window, pool));
    RemoveDeadVars(vars, window, pool, vars[v].start, available, done, count);
    offset' := vars[v].start;
    ok := GiveRegister(vars, window, pool, v, available, done, count);
  }

  /**
   scanRegisters, for variables in the order of their starts.  Two variables with intersecting
   intervals that both keep a register have different ones, in spite of all spilling; and the
   context keeps its register for itself when it is not among the available ones.  It fails when the
   window runs out of its array, which takes more than 127 variables besides the context.
   */
  method ScanRegisters(vars: array<Variable>, order: seq<nat>, available: seq<int>) returns (ok: bool)
    requires vars.Length == VARS_SIZE && AreAvailable(available) && AreOrderedByStart(vars[..], order) && CONTEXT_INDEX in order
    requires forall i :: 0 <= i < |order| ==> order[i] < VARS_SIZE && vars[order[i]].reg == SPILLED_REG
    modifies vars
    ensures |order| <= SORTED_VARS_SIZE / 2 ==> ok
    ensures IntervalsOf(vars[..]) == IntervalsOf(old(vars[..])) && (ok ==> vars[CONTEXT_INDEX].reg == CONTEXT_REG)
    ensures OnlyRegsDiffer(old(vars[..]), vars[..])
    ensures ok ==> AreCompatible(IntervalsOf(vars[..]), RegistersOf(vars[..]), Allocated(order, |order|))
    ensures ok ==> AreFromPool(available, RegistersOf(vars[..]), Allocated(order, |order|))
    ensures ok ==> AreServed(available, RegistersOf(vars[..]), Allocated(order, |order|))
    // A variable is spilled if and only if at some offset more of them are alive than there are registers.
    ensures ok && (forall u :: u in order ==> vars[u].start <= vars[u].end) ==>
              ((forall u :: u in order && u != CONTEXT_INDEX ==> vars[u].reg != SPILLED_REG) <==>
               (forall offset: nat :: |VarsAlive(vars[..], order, offset)| <= |available|))
  {
    hide AreServed, AreSpilledForNeed, Invariant, IntervalsOf, RegistersOf, AreOrderedByStart, AreCompatible, AreFromPool, Allocated, SortedVars.Valid, RegsPool.Valid, IsScanning, HasNoDuplicates, WithReg, OnlyRegsDiffer;
    ghost var intervals, before := IntervalsOf(vars[..]), vars[..];
    ghost var offset: nat := FirstStart(intervals, order);
    OrderOfStarts(vars[..], order);
    AvailableFit(available);
    SetRegister(vars, CONTEXT_INDEX, CONTEXT_REG);
    var window := new SortedVars();
    var pool := new RegsPool(available);
    NoneIsAllocated(order);
    ScanStarts(vars, window, pool, available, offset);
    ok := true;
    var i := 0;
    while i < |order|
      invariant ok && i <= |order| && fresh(window) && fresh(window.vars) && fresh(pool) && fresh(pool.regs)
      invariant IsScanning(vars, window, pool, available, Allocated(order, i), offset, |Allocated(order, i)|)
      invariant IntervalsOf(vars[..]) == intervals && vars[CONTEXT_INDEX].reg == CONTEXT_REG && OnlyRegsDiffer(before, vars[..])
      invariant forall j :: i <= j < |order| && order[j] != CONTEXT_INDEX ==> vars[order[j]].reg == SPILLED_REG
      invariant i < |order| ==> offset <= intervals[order[i]].start
    {
      var v := order[i];
      IntervalOf(vars[..], v);
      OneMoreIsAllocated(order, i);
      if vars[v].reg == SPILLED_REG {
        ghost var between := vars[..];
        ok, offset := ScanVar(vars, window, pool, v, available, Allocated(order, i), offset, |Allocated(order, i)|);
        DiffersTwice(before, between, vars[..]);
        if !ok {
          return;
        }
      }
      i := i + 1;
    }
    ScanEnds(vars, window, pool, available, Allocated(order, i), offset, |Allocated(order, i)|);
    SpilledForNeed(vars[..], order, available);
  }

  /** The variables besides the context whose intervals contain `offset`. */
  ghost function VarsAlive(vars: seq<Variable>, order: seq<nat>, offset: nat): set<nat> {
    set u | u in order && u < |vars| && u != CONTEXT_INDEX && vars[u].start <= offset <= vars[u].end
  }

  lemma SpilledForNeed(vars: seq<Variable>, order: seq<nat>, available: seq<int>)
    requires forall i :: 0 <= i < |order| ==> order[i] < |vars|
    requires var done := Allocated(order, |order|);
             && AreCompatible(IntervalsOf(vars), RegistersOf(vars), done) && AreFromPool(available, RegistersOf(vars), done)
             && AreSpilledForNeed(IntervalsOf(vars), available, RegistersOf(vars), done)
    ensures (forall u :: u in order ==> vars[u].start <= vars[u].end) ==>
              ((forall u :: u in order && u != CONTEXT_INDEX ==> vars[u].reg != SPILLED_REG) <==>
               (forall offset: nat :: |VarsAlive(vars, order, offset)| <= |available|))
  {
    hide AreCompatible, AreFromPool, AreSpilledForNeed;
    if forall u :: u in order ==> vars[u].start <= vars[u].end {
      var done, intervals, regs := Allocated(order, |order|), IntervalsOf(vars), RegistersOf(vars);
      SpilledExactlyForNeed(intervals, available, regs, done);
      HoldingAll(vars, order);
      forall offset: nat
        ensures AliveAt(intervals, done, offset) == VarsAlive(vars, order, offset)
      {
        assert order[..|order|] == order;
      }
      assert AreFew(intervals, available, done) <==> forall offset: nat :: |VarsAlive(vars, order, offset)| <= |available|;
    }
  }

  lemma HoldingAll(vars: seq<Variable>, order: seq<nat>)
    requires forall i :: 0 <= i < |order| ==> order[i] < |vars|
    ensures var done := Allocated(order, |order|);
            Holding(RegistersOf(vars), done) == done <==> forall u :: u in order && u != CONTEXT_INDEX ==> vars[u].reg != SPILLED_REG
  {
    assert order[..|order|] == order;
    var done := Allocated(order, |order|);
    assert Holding(RegistersOf(vars), done) == done <==> forall u :: u in done ==> u in Holding(RegistersOf(vars), done);
    assert forall u :: u in done <==> u in order && u != CONTEXT_INDEX;
  }

  lemma AvailableFit(available: seq<int>)
    requires AreAvailable(available)
    ensures |available| <= POOL_SIZE
  {
  }

  lemma ScanStarts(vars: array<Variable>, window: SortedVars, pool: RegsPool, available: seq<int>, offset: nat)
    requires window.Valid() && window.Window() == [] && window.first == window.last == SORTED_VARS_SIZE / 2
    requires pool.Valid() && pool.Contents() == available && pool.tmp == 0 && vars.Length == VARS_SIZE && AreAvailable(available)
    ensures IsScanning(vars, window, pool, available, {}, offset, 0)
  {
    hide Invariant, AreAvailable, IntervalsOf, RegistersOf;
    IntervalOf(vars[..], 0);
    NothingIsAllocated(IntervalsOf(vars[..]), available, RegistersOf(vars[..]), offset);
    assert StateOf(vars, window, pool) == Scan(RegistersOf(vars[..]), [], available);
  }

  lemma ScanEnds(vars: array<Variable>, window: SortedVars, pool: RegsPool, available: seq<int>, done: set<nat>, offset: nat, count: nat)
    requires IsScanning(vars, window, pool, available, done, offset, count)
    ensures AreCompatible(IntervalsOf(vars[..]), RegistersOf(vars[..]), done) && AreFromPool(available, RegistersOf(vars[..]), done)
    ensures AreServed(available, RegistersOf(vars[..]), done)
    ensures AreSpilledForNeed(IntervalsOf(vars[..]), available, RegistersOf(vars[..]), done)
  {
    hide AreCompatible, AreFromPool, AreServed, AreSpilledForNeed, AreExpired, IsPermutation, AreAvailable;
  }

  ghost function FirstStart(intervals: seq<Interval>, order: seq<nat>): nat {
    if order != [] && order[0] < |intervals| then intervals[order[0]].start else 0
  }

  lemma OrderOfStarts(vars: seq<Variable>, order: seq<nat>)
    requires AreOrderedByStart(vars, order)
    ensures HasNoDuplicates(order) && |IntervalsOf(vars)| == |vars| && forall i :: 0 <= i < |order| ==> order[i] < |vars|
    ensures forall i, j :: 0 <= i < j < |order| ==> IntervalsOf(vars)[order[i]].start <= IntervalsOf(vars)[order[j]].start
  {
  }

  lemma NoneIsAllocated(order: seq<nat>)
    ensures Allocated(order, 0) == {}
  {
  }

  lemma OneMoreIsAllocated(order: seq<nat>, i: nat)
    requires HasNoDuplicates(order) && i < |order| && CONTEXT_INDEX in order
    ensures order[i] !in Allocated(order, i) && CONTEXT_INDEX !in Allocated(order, i)
    ensures Allocated(order, i + 1) == if order[i] == CONTEXT_INDEX then Allocated(order, i) else Allocated(order, i) + {order[i]}
    ensures order[i] != CONTEXT_INDEX ==> |Allocated(order, i)| + 2 <= |order|
    ensures forall j :: i < j < |order| ==> order[j] !in Allocated(order, i + 1)
  {
    NotAllocated(order, i);
    AllocatedGrows(order, i);
    if order[i] != CONTEXT_INDEX {
      hide HasNoDuplicates;
      AllocatedAreFew(order, i);
    }
  }

  lemma NotAllocated(order: seq<nat>, i: nat)
    requires HasNoDuplicates(order) && i < |order|
    ensures forall j :: i <= j < |order| ==> order[j] !in Allocated(order, i)
    ensures forall j :: i < j < |order| ==> order[j] !in Allocated(order, i + 1)
  {
  }

  lemma AllocatedGrows(order: seq<nat>, i: nat)
    requires i < |order|
    ensures Allocated(order, i + 1) == if order[i] == CONTEXT_INDEX then Allocated(order, i) else Allocated(order, i) + {order[i]}
  {
    assert order[..i + 1] == order[..i] + [order[i]];
  }

  lemma AllocatedAreFew(order: seq<nat>, i: nat)
    requires i < |order| && CONTEXT_INDEX in order && order[i] !in Allocated(order, i) && order[i] != CONTEXT_INDEX
    ensures |Allocated(order, i)| + 2 <= |order|
  {
    var some := Allocated(order, i) + {order[i]} + {CONTEXT_INDEX};
    SetIsNotLarger(order);
    SubsetIsSmaller(some, SetOf(order));
  }
}

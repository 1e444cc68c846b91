/** The live intervals of variables (scanCode in vm/RegisterAllocator.c), and register allocation on top of them. */
module LiveIntervals {
  import opened Collections
  import opened Bytecodes
  import opened RegisterAllocation

  const SELF_INDEX: nat := 1
  const SUPER_INDEX: nat := 1
  /** The assertion of defineVar: the array of defined variables must not be filled up to its last place. */
  const ORDER_SIZE: nat := 255
  /** As long as there are fewer variables than this, no table overflows in scanCode. */
  const TABLE_SIZE: nat := ORDER_SIZE - 1

  datatype SpecialType = ContextType | ClassType | AssocType

  /** A variable that the code does not name: a context at a level, the class of a variable, an association. */
  datatype Special = Special(kind: SpecialType, index: nat)

  const CONTEXT := Special(ContextType, 0)

  /** A use of a variable at an offset, which is the number of an instruction. */
  datatype Use = Named(index: nat, offset: nat) | Unnamed(special: Special, offset: nat)

  /** A variable together with an offset that its interval has to contain. */
  datatype Touch = Touch(v: nat, offset: nat)

  /** `uses` and `touched` tell what the state of the scan was made from. */
  datatype Vars = Vars(vars: seq<Variable>, specials: map<Special, nat>, order: seq<nat>, varsSize: nat, uses: set<Use>, touched: set<Touch>)

  /** The variable that a use is of, or NULL. */
  function SlotOf(s: Vars, use: Use): nat {
    match use
    case Named(index, _) => index
    case Unnamed(special, _) => if special in s.specials then s.specials[special] else NO_VAR
  }

  /** The interval of each defined variable is the smallest one that contains its offsets. */
  ghost predicate AreHulls(vars: seq<Variable>, touched: set<Touch>) {
    && (forall t :: t in touched ==> t.v < |vars| && vars[t.v].isDefined && vars[t.v].start <= t.offset <= vars[t.v].end)
    && (forall v :: 0 <= v < |vars| && vars[v].isDefined ==> Touch(v, vars[v].start) in touched && Touch(v, vars[v].end) in touched)
  }

  /** A named variable is touched by its uses only, apart from the arguments, which are defined at the start. */
  ghost predicate IsExplained(s: Vars, argsSize: nat, t: Touch) {
    || t.v == CONTEXT_INDEX || (t.v <= argsSize + 1 && t.offset == 0)
    || exists u :: u in s.uses && SlotOf(s, u) == t.v && u.offset == t.offset
  }

  ghost predicate AreUsesTouched(s: Vars, argsSize: nat) {
    && (forall u :: u in s.uses ==> SlotOf(s, u) < VARS_SIZE && Touch(SlotOf(s, u), u.offset) in s.touched)
    && (forall t :: t in s.touched ==> IsExplained(s, argsSize, t))
  }

  /** The variables that are named by the code come first, `base` of them; special ones follow. */
  ghost predicate AreSlots(s: Vars, base: nat) {
    && |s.vars| == VARS_SIZE && SELF_INDEX < base <= s.varsSize <= VARS_SIZE && s.varsSize <= base + |s.uses|
    && CONTEXT in s.specials && s.specials[CONTEXT] == CONTEXT_INDEX && s.vars[CONTEXT_INDEX].isDefined && s.vars[SELF_INDEX].isDefined
    && (forall x :: x in s.specials && x != CONTEXT ==> base <= s.specials[x] < s.varsSize && s.vars[s.specials[x]].isDefined)
    && (forall x, y :: x in s.specials && y in s.specials && s.specials[x] == s.specials[y] ==> x == y)
    && (forall v :: s.varsSize <= v < VARS_SIZE ==> !s.vars[v].isDefined)
  }

  /** Defined variables are listed once, in the order of their starts, and have no register yet. */
  ghost predicate IsListed(s: Vars, offset: nat) {
    && (forall v :: 0 <= v < |s.vars| ==> (v in s.order <==> s.vars[v].isDefined))
    && HasNoDuplicates(s.order) && (forall i :: 0 <= i < |s.order| ==> s.order[i] < |s.vars|)
    && (forall v :: 0 <= v < |s.vars| && s.vars[v].isDefined ==> s.vars[v].start <= s.vars[v].end <= offset && s.vars[v].reg == SPILLED_REG)
    && (forall i, j :: 0 <= i < j < |s.order| && s.order[i] < |s.vars| && s.order[j] < |s.vars| ==>
          s.vars[s.order[i]].start <= s.vars[s.order[j]].start)
  }

  /** The context, the receiver and the arguments are alive from the start. */
  ghost predicate AreFromStart(vars: seq<Variable>, argsSize: nat) {
    argsSize + 1 < |vars| && forall v :: 0 <= v <= argsSize + 1 ==> vars[v].isDefined && vars[v].start == 0
  }

  /** The current context is alive where an outer one is first used, because it is found from there. */
  ghost predicate AreReached(s: Vars) {
    forall x :: x in s.specials && x.kind.ContextType? && s.specials[x] < |s.vars| ==>
      Touch(CONTEXT_INDEX, s.vars[s.specials[x]].start) in s.touched
  }

  ghost predicate IsVars(s: Vars, argsSize: nat, base: nat, offset: nat) {
    AreSlots(s, base) && IsListed(s, offset) && AreHulls(s.vars, s.touched) && AreUsesTouched(s, argsSize)
    && AreFromStart(s.vars, argsSize) && AreReached(s)
  }

  // ---------- Steps ----------

  /** defineVar. */
  function Define(s: Vars, v: nat, offset: nat): Vars {
    if v < |s.vars|
    then s.(vars := s.vars[v := Variable(true, offset, offset, SPILLED_REG)], order := s.order + [v], touched := s.touched + {Touch(v, offset)})
    else s
  }

  function Extend(s: Vars, v: nat, offset: nat): Vars {
    if v < |s.vars| then s.(vars := s.vars[v := s.vars[v].(end := offset)], touched := s.touched + {Touch(v, offset)}) else s
  }

  /** defineTmpVar, for a use of a named variable. */
  function UseNamed(s: Vars, v: nat, offset: nat): Vars
    requires v < |s.vars|
  {
    (if s.vars[v].isDefined then Extend(s, v, offset) else Define(s, v, offset)).(uses := s.uses + {Named(v, offset)})
  }

  /** A special variable gets the next free place. */
  function AddSpecial(s: Vars, x: Special, offset: nat): Vars {
    Define(s, s.varsSize, offset).(specials := s.specials[x := s.varsSize], varsSize := s.varsSize + 1)
  }

  /** defineSpecialVar: the first use of a context also extends the interval of the current context. */
  function UseSpecial(s: Vars, x: Special, offset: nat): Vars {
    var s' := if x in s.specials then Extend(s, s.specials[x], offset)
              else
                var s1 := if x.kind.ContextType? then Extend(s, CONTEXT_INDEX, offset) else s;
                AddSpecial(s1, x, offset);
    s'.(uses := s.uses + {Unnamed(x, offset)})
  }

  lemma DefineKeepsList(s: Vars, offset: nat, v: nat, offset': nat)
    requires IsListed(s, offset) && offset <= offset' && v < |s.vars| && !s.vars[v].isDefined
    ensures IsListed(Define(s, v, offset'), offset')
  {
    var s' := Define(s, v, offset');
    assert v !in s.order;
    assert forall u :: u in s'.order <==> u in s.order || u == v;
    forall i | 0 <= i < |s'.order|
      ensures s'.order[i] < |s.vars| && (i < |s.order| ==> s'.order[i] == s.order[i] != v)
    {
      assert i < |s.order| ==> s.order[i] in s.order;
    }
  }

  lemma ExtendKeepsList(s: Vars, offset: nat, v: nat, offset': nat)
    requires IsListed(s, offset) && offset <= offset' && v < |s.vars| && s.vars[v].isDefined
    ensures IsListed(Extend(s, v, offset'), offset')
  {
    var s' := Extend(s, v, offset');
    assert forall u :: 0 <= u < |s.vars| ==> s'.vars[u].start == s.vars[u].start && s'.vars[u].isDefined == s.vars[u].isDefined;
  }

  lemma DefineKeepsHulls(s: Vars, v: nat, offset: nat)
    requires AreHulls(s.vars, s.touched) && v < |s.vars| && !s.vars[v].isDefined
    ensures AreHulls(Define(s, v, offset).vars, Define(s, v, offset).touched)
  {
  }

  lemma ExtendKeepsHulls(s: Vars, v: nat, offset: nat)
    requires AreHulls(s.vars, s.touched) && v < |s.vars| && s.vars[v].isDefined && s.vars[v].end <= offset && s.vars[v].start <= offset
    ensures AreHulls(Extend(s, v, offset).vars, Extend(s, v, offset).touched)
  {
  }

  lemma StartsStay(s: Vars, argsSize: nat, v: nat, offset: nat)
    requires AreFromStart(s.vars, argsSize)
    ensures AreFromStart(Extend(s, v, offset).vars, argsSize)
    ensures v < |s.vars| && !s.vars[v].isDefined ==> AreFromStart(Define(s, v, offset).vars, argsSize)
  {
  }

  lemma ExtendKeepsReached(s: Vars, v: nat, offset: nat)
    requires AreReached(s)
    ensures AreReached(Extend(s, v, offset))
  {
  }

  lemma DefineKeepsReached(s: Vars, base: nat, v: nat, offset: nat)
    requires AreReached(s) && AreSlots(s, base) && v < |s.vars| && !s.vars[v].isDefined
    ensures AreReached(Define(s, v, offset))
  {
  }

  lemma AddSpecialKeepsReached(s: Vars, base: nat, x: Special, offset: nat)
    requires AreReached(s) && AreSlots(s, base) && x !in s.specials && s.varsSize < VARS_SIZE
    requires x.kind.ContextType? ==> Touch(CONTEXT_INDEX, offset) in s.touched
    ensures AreReached(AddSpecial(s, x, offset))
  {
  }

  lemma UsesDoNotReach(s: Vars, s': Vars)
    requires AreReached(s) && s'.vars == s.vars && s'.specials == s.specials && s'.touched == s.touched
    ensures AreReached(s')
  {
  }

  /** What is explained stays explained while uses and special variables are added. */
  lemma ExplainedIsStable(s: Vars, s': Vars, argsSize: nat, t: Touch)
    requires IsExplained(s, argsSize, t) && s.uses <= s'.uses && (forall x :: x in s.specials ==> x in s'.specials && s'.specials[x] == s.specials[x])
    requires forall u :: u in s.uses ==> SlotOf(s, u) < VARS_SIZE
    ensures IsExplained(s', argsSize, t)
  {
    if t.v != CONTEXT_INDEX && !(t.v <= argsSize + 1 && t.offset == 0) {
      var u :| u in s.uses && SlotOf(s, u) == t.v && u.offset == t.offset;
      assert u in s'.uses && SlotOf(s', u) == t.v;
    }
  }

  lemma UseIsTouched(s: Vars, s': Vars, argsSize: nat, use: Use)
    requires AreUsesTouched(s, argsSize) && s'.uses == s.uses + {use} && s.touched <= s'.touched
    requires forall x :: x in s.specials ==> x in s'.specials && s'.specials[x] == s.specials[x]
    requires SlotOf(s', use) < VARS_SIZE && Touch(SlotOf(s', use), use.offset) in s'.touched
    requires forall t :: t in s'.touched ==> t in s.touched || t.v == CONTEXT_INDEX || t == Touch(SlotOf(s', use), use.offset)
    ensures AreUsesTouched(s', argsSize)
  {
    forall t | t in s'.touched
      ensures IsExplained(s', argsSize, t)
    {
      if t in s.touched {
        ExplainedIsStable(s, s', argsSize, t);
      } else if t.v != CONTEXT_INDEX {
        assert use in s'.uses;
      }
    }
    forall u | u in s'.uses
      ensures SlotOf(s', u) < VARS_SIZE && Touch(SlotOf(s', u), u.offset) in s'.touched
    {
      assert u in s.uses ==> SlotOf(s', u) == SlotOf(s, u);
    }
  }

  lemma NamedKeepsSlots(s: Vars, base: nat, v: nat, offset: nat)
    requires AreSlots(s, base) && v < base
    ensures v < |s.vars| && AreSlots(UseNamed(s, v, offset), base)
  {
    SubsetIsSmaller(s.uses, UseNamed(s, v, offset).uses);
  }

  lemma NamedKeepsInvariant(s: Vars, argsSize: nat, base: nat, offset: nat, v: nat, offset': nat)
    requires IsVars(s, argsSize, base, offset) && offset <= offset' && v < base
    ensures v < |s.vars| && IsVars(UseNamed(s, v, offset'), argsSize, base, offset')
  {
    hide AreHulls, IsListed, AreUsesTouched, AreSlots, AreFromStart, AreReached;
    NamedKeepsSlots(s, base, v, offset');
    StartsStay(s, argsSize, v, offset');
    BaseIsBig(s, argsSize, base, offset);
    var s' := UseNamed(s, v, offset');
    if s.vars[v].isDefined {
      EndIsBefore(s, offset, v);
      ExtendKeepsList(s, offset, v, offset');
      ExtendKeepsHulls(s, v, offset');
      UsesDoNotMatter(Extend(s, v, offset'), s', offset');
      ExtendKeepsReached(s, v, offset');
      UsesDoNotReach(Extend(s, v, offset'), s');
    } else {
      DefineKeepsList(s, offset, v, offset');
      DefineKeepsHulls(s, v, offset');
      DefineKeepsReached(s, base, v, offset');
      UsesDoNotReach(Define(s, v, offset'), s');
      UsesDoNotMatter(Define(s, v, offset'), s', offset');
    }
    UseIsTouched(s, s', argsSize, Named(v, offset'));
  }

  lemma EndIsBefore(s: Vars, offset: nat, v: nat)
    requires IsListed(s, offset) && v < |s.vars| && s.vars[v].isDefined
    ensures s.vars[v].start <= s.vars[v].end <= offset
  {
  }

  lemma UsesDoNotMatter(s: Vars, s': Vars, offset: nat)
    requires IsListed(s, offset) && s'.vars == s.vars && s'.order == s.order
    ensures IsListed(s', offset)
  {
  }

  lemma ContextIsExtended(s: Vars, argsSize: nat, base: nat, offset: nat, offset': nat)
    requires IsVars(s, argsSize, base, offset) && offset <= offset'
    ensures IsVars(Extend(s, CONTEXT_INDEX, offset'), argsSize, base, offset')
  {
    hide AreHulls, IsListed, AreFromStart, AreReached;
    ExtendKeepsReached(s, CONTEXT_INDEX, offset');
    StartsStay(s, argsSize, CONTEXT_INDEX, offset');
    EndIsBefore(s, offset, CONTEXT_INDEX);
    ExtendKeepsList(s, offset, CONTEXT_INDEX, offset');
    ExtendKeepsHulls(s, CONTEXT_INDEX, offset');
    var s' := Extend(s, CONTEXT_INDEX, offset');
    forall t | t in s'.touched
      ensures IsExplained(s', argsSize, t)
    {
      if t in s.touched {
        ExplainedIsStable(s, s', argsSize, t);
      }
    }
    assert forall u :: SlotOf(s', u) == SlotOf(s, u);
  }

  lemma KnownSpecialKeepsSlots(s: Vars, base: nat, x: Special, offset: nat)
    requires AreSlots(s, base) && x in s.specials
    ensures s.specials[x] < |s.vars| == VARS_SIZE && s.vars[s.specials[x]].isDefined && AreSlots(UseSpecial(s, x, offset), base)
  {
    SubsetIsSmaller(s.uses, UseSpecial(s, x, offset).uses);
  }

  lemma KnownSpecialKeepsInvariant(s: Vars, argsSize: nat, base: nat, offset: nat, x: Special, offset': nat)
    requires IsVars(s, argsSize, base, offset) && offset <= offset' && x in s.specials
    ensures IsVars(UseSpecial(s, x, offset'), argsSize, base, offset')
  {
    hide AreHulls, IsListed, AreUsesTouched, AreFromStart, AreReached, AreSlots;
    KnownSpecialKeepsSlots(s, base, x, offset');
    var s', v := UseSpecial(s, x, offset'), s.specials[x];
    StartsStay(s, argsSize, v, offset');
    ExtendKeepsReached(s, v, offset');
    UsesDoNotReach(Extend(s, v, offset'), s');
    EndIsBefore(s, offset, v);
    ExtendKeepsList(s, offset, v, offset');
    ExtendKeepsHulls(s, v, offset');
    UsesDoNotMatter(Extend(s, v, offset'), s', offset');
    UseIsTouched(s, s', argsSize, Unnamed(x, offset'));
  }

  lemma AddSpecialKeepsSlots(s: Vars, base: nat, x: Special, offset: nat, uses: set<Use>)
    requires AreSlots(s, base) && x !in s.specials && s.varsSize < VARS_SIZE && |s.uses| < |uses|
    ensures AreSlots(AddSpecial(s, x, offset).(uses := uses), base)
    ensures forall y :: y in s.specials ==> y in AddSpecial(s, x, offset).specials && AddSpecial(s, x, offset).specials[y] == s.specials[y]
  {
  }

  lemma AddSpecialKeepsInvariant(s: Vars, argsSize: nat, base: nat, offset: nat, x: Special, uses: set<Use>)
    requires IsVars(s, argsSize, base, offset) && x !in s.specials && s.varsSize < VARS_SIZE && uses == s.uses + {Unnamed(x, offset)}
    requires x.kind.ContextType? ==> Touch(CONTEXT_INDEX, offset) in s.touched
    ensures IsVars(AddSpecial(s, x, offset).(uses := uses), argsSize, base, offset)
  {
    hide AreHulls, IsListed, AreUsesTouched, AreSlots, AreFromStart, AreReached;
    StartsStay(s, argsSize, s.varsSize, offset);
    AddSpecialKeepsReached(s, base, x, offset);
    UsesDoNotReach(AddSpecial(s, x, offset), AddSpecial(s, x, offset).(uses := uses));
    var v, s' := s.varsSize, AddSpecial(s, x, offset).(uses := uses);
    NextIsFree(s, base);
    SpecialIsUnused(s, argsSize, x, offset);
    AddSpecialKeepsSlots(s, base, x, offset, uses);
    DefineKeepsList(s, offset, v, offset);
    DefineKeepsHulls(s, v, offset);
    UsesDoNotMatter(Define(s, v, offset), s', offset);
    UseIsTouched(s, s', argsSize, Unnamed(x, offset));
  }

  lemma SpecialIsUnused(s: Vars, argsSize: nat, x: Special, offset: nat)
    requires AreUsesTouched(s, argsSize) && x !in s.specials
    ensures Unnamed(x, offset) !in s.uses
  {
  }

  lemma NextIsFree(s: Vars, base: nat)
    requires AreSlots(s, base) && s.varsSize < VARS_SIZE
    ensures |s.vars| == VARS_SIZE && !s.vars[s.varsSize].isDefined
  {
  }

  lemma NewSpecialKeepsInvariant(s: Vars, argsSize: nat, base: nat, offset: nat, x: Special, offset': nat)
    requires IsVars(s, argsSize, base, offset) && offset <= offset' && x !in s.specials && s.varsSize < VARS_SIZE
    ensures IsVars(UseSpecial(s, x, offset'), argsSize, base, offset')
  {
    hide AreHulls, IsListed, AreUsesTouched, AreSlots, AreReached, AreFromStart;
    if x.kind.ContextType? {
      SlotsHaveSize(s, base);
      ContextIsExtended(s, argsSize, base, offset, offset');
    } else {
      LaterKeepsList(s, offset, offset');
    }
    var s1 := if x.kind.ContextType? then Extend(s, CONTEXT_INDEX, offset') else s;
    AddSpecialKeepsInvariant(s1, argsSize, base, offset', x, s.uses + {Unnamed(x, offset')});
  }

  lemma SlotsHaveSize(s: Vars, base: nat)
    requires AreSlots(s, base)
    ensures |s.vars| == VARS_SIZE
  {
  }

  lemma LaterKeepsList(s: Vars, offset: nat, offset': nat)
    requires IsListed(s, offset) && offset <= offset'
    ensures IsListed(s, offset')
  {
  }

  lemma LaterKeepsScan(s: Vars, argsSize: nat, base: nat, offset: nat, offset': nat)
    requires IsVars(s, argsSize, base, offset) && offset <= offset'
    ensures IsVars(s, argsSize, base, offset')
  {
    hide AreSlots, AreHulls, AreUsesTouched, IsListed;
    LaterKeepsList(s, offset, offset');
  }

  // ---------- The uses of an instruction ----------

  function UsesOf(o: Operand, offset: nat): set<Use> {
    match o
    case TempVar(index) => {Named(index, offset)}
    case ArgVar(index) => {Named(index, offset)}
    case Super => {Named(SUPER_INDEX, offset)}
    case ContextVar(_, level) => {Unnamed(Special(ContextType, level), offset)}
    case Assoc(index) => {Unnamed(Special(AssocType, index), offset)}
    case Block(_) => {Named(SELF_INDEX, offset), Unnamed(CONTEXT, offset)}
    case InstVar(_) => {Named(SELF_INDEX, offset)}
    case _ => {}
  }

  /** The class of the receiver of a send. */
  function ClassUsesOf(o: Operand, offset: nat): set<Use> {
    match o
    case TempVar(index) => {Unnamed(Special(ClassType, index), offset)}
    case ArgVar(index) => {Unnamed(Special(ClassType, index), offset)}
    case _ => {}
  }

  function UsesOfAll(operands: seq<Operand>, offset: nat): set<Use> {
    if operands == [] then {} else UsesOfAll(operands[..|operands| - 1], offset) + UsesOf(operands[|operands| - 1], offset)
  }

  /** The result of a send is stored when the next instruction is reached. */
  function UsesOfInstruction(inst: Instruction, n: nat): set<Use> {
    match inst
    case Copy(source, dest) => UsesOf(source, n) + UsesOf(dest, n)
    case Send(_, receiver, args) => ClassUsesOf(receiver, n) + UsesOf(receiver, n) + UsesOfAll(args, n)
    case SendWithStore(_, receiver, args, result) =>
      ClassUsesOf(receiver, n) + UsesOf(receiver, n) + UsesOfAll(args, n) + UsesOf(result, n + 1)
    case Return(operand) => UsesOf(operand, n)
    case OuterReturn(operand) => UsesOf(operand, n)
  }

  function UsesOfCode(insts: seq<Instruction>): set<Use> {
    if insts == [] then {} else UsesOfCode(insts[..|insts| - 1]) + UsesOfInstruction(insts[|insts| - 1], |insts| - 1)
  }

  /** Temporaries and arguments are numbered from 1 up to `base`, the receiver being the first. */
  predicate IsNamedBelow(o: Operand, base: nat) {
    o.TempVar? || o.ArgVar? ==> o.index < base
  }

  predicate AreNamedBelow(operands: seq<Operand>, base: nat) {
    forall i :: 0 <= i < |operands| ==> IsNamedBelow(operands[i], base)
  }

  predicate IsInstructionBelow(inst: Instruction, base: nat) {
    match inst
    case Copy(source, dest) => IsNamedBelow(source, base) && IsNamedBelow(dest, base)
    case Send(_, receiver, args) => IsNamedBelow(receiver, base) && AreNamedBelow(args, base)
    case SendWithStore(_, receiver, args, result) => IsNamedBelow(receiver, base) && AreNamedBelow(args, base) && IsNamedBelow(result, base)
    case Return(operand) => IsNamedBelow(operand, base)
    case OuterReturn(operand) => IsNamedBelow(operand, base)
  }

  lemma {:induction false} ReversedUses(operands: seq<Operand>, offset: nat)
    ensures forall u :: u in UsesOfAll(operands, offset) <==> exists i :: 0 <= i < |operands| && u in UsesOf(operands[i], offset)
  {
    hide UsesOf;
    if operands != [] {
      var init, last := operands[..|operands| - 1], operands[|operands| - 1];
      ReversedUses(init, offset);
      forall u
        ensures u in UsesOfAll(operands, offset) <==> exists i :: 0 <= i < |operands| && u in UsesOf(operands[i], offset)
      {
        if u in UsesOfAll(init, offset) {
          var i :| 0 <= i < |init| && u in UsesOf(init[i], offset);
          assert operands[i] == init[i];
        }
        if i :| 0 <= i < |operands| && u in UsesOf(operands[i], offset) {
          assert i < |init| ==> init[i] == operands[i];
        }
      }
    }
  }

  /** The order of the arguments makes no difference. */
  lemma DecodedUses(inst: Instruction, n: nat)
    ensures UsesOfInstruction(AsDecoded(inst), n) == UsesOfInstruction(inst, n)
  {
    hide UsesOfAll, UsesOf, ClassUsesOf;
    if inst.Send? || inst.SendWithStore? {
      SameUses(inst.args, n);
    }
  }

  lemma SameUses(operands: seq<Operand>, offset: nat)
    ensures UsesOfAll(Reversed(operands), offset) == UsesOfAll(operands, offset)
  {
    hide UsesOf, UsesOfAll;
    ReversedUses(operands, offset);
    ReversedUses(Reversed(operands), offset);
    forall u
      ensures u in UsesOfAll(operands, offset) <==> u in UsesOfAll(Reversed(operands), offset)
    {
      if i :| 0 <= i < |operands| && u in UsesOf(operands[i], offset) {
        assert Reversed(operands)[|operands| - 1 - i] == operands[i];
      }
      if i :| 0 <= i < |operands| && u in UsesOf(Reversed(operands)[i], offset) {
        assert operands[|operands| - 1 - i] == Reversed(operands)[i];
      }
    }
  }

  lemma DecodedIsBelow(inst: Instruction, base: nat)
    requires IsInstructionBelow(inst, base)
    ensures IsInstructionBelow(AsDecoded(inst), base)
  {
    hide IsNamedBelow;
  }

  class VarsTable {
    const vars: array<Variable>
    var specials: map<Special, nat>
    var order: seq<nat>
    var varsSize: nat
    ghost var uses: set<Use>
    ghost var touched: set<Touch>

    ghost function State(): Vars
      reads this, vars
    {
      Vars(vars[..], specials, order, varsSize, uses, touched)
    }

    ghost predicate Valid(argsSize: nat, base: nat, offset: nat)
      reads this, vars
    {
      IsVars(State(), argsSize, base, offset)
    }

    /** There are so many uses that the tables may be full. */
    ghost predicate IsFull(base: nat)
      reads this
    {
      TABLE_SIZE <= base + |uses|
    }

    /** memset: no variable is defined. */
    constructor (varsSize: nat)
      ensures fresh(vars) && vars.Length == VARS_SIZE && order == [] && specials == map[] && this.varsSize == varsSize && uses == {} && touched == {}
      ensures forall v :: 0 <= v < VARS_SIZE ==> !vars[v].isDefined
    {
      vars := new Variable[VARS_SIZE](_ => Variable(false, 0, 0, 0));
      order, specials, this.varsSize, uses, touched := [], map[], varsSize, {}, {};
    }

    /** defineVar; false when its assertion fails. */
    method DefineVar(v: nat, offset: nat) returns (ok: bool)
      requires v < vars.Length
      modifies this`order, this`touched, vars
      ensures State() == Define(old(State()), v, offset) && (ok <==> |order| < ORDER_SIZE)
    {
      vars[v] := Variable(true, offset, offset, SPILLED_REG);
      order := order + [v];
      touched := touched + {Touch(v, offset)};
      ok := |order| < ORDER_SIZE;
    }

    method ExtendVar(v: nat, offset: nat)
      requires v < vars.Length
      modifies this`touched, vars
      ensures State() == Extend(old(State()), v, offset)
    {
      vars[v] := vars[v].(end := offset);
      touched := touched + {Touch(v, offset)};
    }

    method DefineTmpVar(v: nat, offset: nat) returns (ok: bool)
      requires v < vars.Length
      modifies this`order, this`uses, this`touched, vars
      ensures State() == UseNamed(old(State()), v, offset) && (ok <==> old(vars[v].isDefined) || |order| < ORDER_SIZE)
    {
      ok := true;
      if !vars[v].isDefined {
        ok := DefineVar(v, offset);
      } else {
        ExtendVar(v, offset);
      }
      uses := uses + {Named(v, offset)};
    }

    /** defineSpecialVar.  The counter of variables has eight bits; the model stops where it would start anew at 0. */
    method DefineSpecialVar(x: Special, offset: nat) returns (ok: bool)
      requires vars.Length == VARS_SIZE && varsSize <= VARS_SIZE && (forall y :: y in specials ==> specials[y] < VARS_SIZE)
      modifies this, vars
      ensures ok ==> State() == UseSpecial(old(State()), x, offset)
      ensures ok <==> x in old(specials) || (old(varsSize) < VARS_SIZE && |old(order)| + 1 < ORDER_SIZE)
      ensures old(uses) <= uses <= old(uses) + {Unnamed(x, offset)}
    {
      ok := true;
      if x !in specials {
        if varsSize == VARS_SIZE {
          return false;
        }
        if x.kind.ContextType? {
          ExtendVar(CONTEXT_INDEX, offset);
        }
        specials := specials[x := varsSize];
        ok := DefineVar(varsSize, offset);
        varsSize := varsSize + 1;
      } else {
        ExtendVar(specials[x], offset);
      }
      uses := uses + {Unnamed(x, offset)};
    }

    method UseTmpVar(v: nat, offset: nat, ghost argsSize: nat, ghost base: nat, ghost offset0: nat) returns (ok: bool)
      requires Valid(argsSize, base, offset0) && offset0 <= offset && v < base
      modifies this`order, this`uses, this`touched, vars
      ensures ok ==> Valid(argsSize, base, offset) && uses == old(uses) + {Named(v, offset)}
      ensures uses <= old(uses) + {Named(v, offset)} && (!ok ==> IsFull(base))
    {
      hide IsVars;
      ListIsShort(State(), argsSize, base, offset0);
      SlotsAreVars(State(), argsSize, base, offset0);
      NamedKeepsInvariant(State(), argsSize, base, offset0, v, offset);
      ghost var before := uses;
      ok := DefineTmpVar(v, offset);
      SubsetIsSmaller(before, uses);
    }

    method UseSpecialVar(x: Special, offset: nat, ghost argsSize: nat, ghost base: nat, ghost offset0: nat) returns (ok: bool)
      requires Valid(argsSize, base, offset0) && offset0 <= offset
      modifies this, vars
      ensures ok ==> Valid(argsSize, base, offset) && uses == old(uses) + {Unnamed(x, offset)}
      ensures uses <= old(uses) + {Unnamed(x, offset)} && (!ok ==> IsFull(base))
    {
      hide IsVars;
      ListIsShort(State(), argsSize, base, offset0);
      SlotsAreVars(State(), argsSize, base, offset0);
      if x in specials {
        KnownSpecialKeepsInvariant(State(), argsSize, base, offset0, x, offset);
      } else if varsSize < VARS_SIZE {
        NewSpecialKeepsInvariant(State(), argsSize, base, offset0, x, offset);
      }
      ghost var before := uses;
      ok := DefineSpecialVar(x, offset);
      SubsetIsSmaller(before, uses);
    }

    method ExamineOperandClass(o: Operand, offset: nat, ghost argsSize: nat, ghost base: nat, ghost offset0: nat) returns (ok: bool)
      requires Valid(argsSize, base, offset0) && offset0 <= offset
      modifies this, vars
      ensures ok ==> Valid(argsSize, base, offset) && uses == old(uses) + ClassUsesOf(o, offset)
      ensures uses <= old(uses) + ClassUsesOf(o, offset) && (!ok ==> IsFull(base))
    {
      hide IsVars;
      LaterKeepsScan(State(), argsSize, base, offset0, offset);
      ok := true;
      if o.TempVar? || o.ArgVar? {
        ok := UseSpecialVar(Special(ClassType, o.index), offset, argsSize, base, offset0);
      }
    }

    /** A block is created from the receiver and the current context. */
    method UseForBlock(offset: nat, ghost argsSize: nat, ghost base: nat, ghost offset0: nat) returns (ok: bool)
      requires Valid(argsSize, base, offset0) && offset0 <= offset && SELF_INDEX < base
      modifies this, vars
      ensures ok ==> Valid(argsSize, base, offset) && uses == old(uses) + {Named(SELF_INDEX, offset), Unnamed(CONTEXT, offset)}
      ensures uses <= old(uses) + {Named(SELF_INDEX, offset), Unnamed(CONTEXT, offset)} && (!ok ==> IsFull(base))
    {
      hide IsVars;
      ok := UseTmpVar(SELF_INDEX, offset, argsSize, base, offset0);
      if ok {
        ok := UseSpecialVar(CONTEXT, offset, argsSize, base, offset);
      }
    }

    method ExamineOperand(o: Operand, offset: nat, ghost argsSize: nat, ghost base: nat, ghost offset0: nat) returns (ok: bool)
      requires Valid(argsSize, base, offset0) && offset0 <= offset && IsNamedBelow(o, base)
      modifies this, vars
      ensures ok ==> Valid(argsSize, base, offset) && uses == old(uses) + UsesOf(o, offset)
      ensures uses <= old(uses) + UsesOf(o, offset) && (!ok ==> IsFull(base))
    {
      hide IsVars;
      LaterKeepsScan(State(), argsSize, base, offset0, offset);
      BaseIsBig(State(), argsSize, base, offset0);
      ok := true;
      match o
      case TempVar(index) => ok := UseTmpVar(index, offset, argsSize, base, offset0);
      case ArgVar(index) => ok := UseTmpVar(index, offset, argsSize, base, offset0);
      case Super => ok := UseTmpVar(SUPER_INDEX, offset, argsSize, base, offset0);
      case ContextVar(_, level) => ok := UseSpecialVar(Special(ContextType, level), offset, argsSize, base, offset0);
      case Assoc(index) => ok := UseSpecialVar(Special(AssocType, index), offset, argsSize, base, offset0);
      case Block(_) => ok := UseForBlock(offset, argsSize, base, offset0);
      case InstVar(_) => ok := UseTmpVar(SELF_INDEX, offset, argsSize, base, offset0);
      case _ =>
    }

    /** The operands of a send that are not its receiver. */
    method ExamineArgs(args: seq<Operand>, offset: nat, ghost argsSize: nat, ghost base: nat) returns (ok: bool)
      requires Valid(argsSize, base, offset) && AreNamedBelow(args, base)
      modifies this, vars
      ensures ok ==> Valid(argsSize, base, offset) && uses == old(uses) + UsesOfAll(args, offset)
      ensures uses <= old(uses) + UsesOfAll(args, offset) && (!ok ==> IsFull(base))
    {
      hide IsVars, UsesOf, IsNamedBelow;
      ok := true;
      var i := 0;
      while i < |args|
        invariant i <= |args| && ok && Valid(argsSize, base, offset) && uses == old(uses) + UsesOfAll(args[..i], offset)
      {
        ok := ExamineOperand(args[i], offset, argsSize, base, offset);
        assert args[..i + 1][..i] == args[..i];
        MoreOperands(args, i + 1, offset);
        if !ok {
          return;
        }
        i := i + 1;
      }
      assert args[..i] == args;
    }

    method ExamineSend(receiver: Operand, args: seq<Operand>, n: nat, ghost argsSize: nat, ghost base: nat) returns (ok: bool)
      requires Valid(argsSize, base, n) && IsNamedBelow(receiver, base) && AreNamedBelow(args, base)
      modifies this, vars
      ensures ok ==> Valid(argsSize, base, n) && uses == old(uses) + (ClassUsesOf(receiver, n) + UsesOf(receiver, n) + UsesOfAll(args, n))
      ensures uses <= old(uses) + (ClassUsesOf(receiver, n) + UsesOf(receiver, n) + UsesOfAll(args, n)) && (!ok ==> IsFull(base))
    {
      hide IsVars, UsesOf, UsesOfAll, ClassUsesOf, IsNamedBelow, AreNamedBelow;
      ok := ExamineOperandClass(receiver, n, argsSize, base, n);
      if ok {
        ok := ExamineOperand(receiver, n, argsSize, base, n);
      }
      if ok {
        ok := ExamineArgs(args, n, argsSize, base);
      }
    }

    /** One turn of the loop in scanCode, for the instruction with the number `n`. */
    method ExamineInstruction(inst: Instruction, n: nat, ghost argsSize: nat, ghost base: nat) returns (ok: bool)
      requires Valid(argsSize, base, n) && IsInstructionBelow(inst, base)
      modifies this, vars
      ensures ok ==> Valid(argsSize, base, n + 1) && uses == old(uses) + UsesOfInstruction(inst, n)
      ensures uses <= old(uses) + UsesOfInstruction(inst, n) && (!ok ==> IsFull(base))
    {
      hide IsVars, UsesOf, UsesOfAll, ClassUsesOf, IsNamedBelow, AreNamedBelow;
      match inst {
        case Copy(source, dest) =>
          ok := ExamineOperand(source, n, argsSize, base, n);
          if ok {
            ok := ExamineOperand(dest, n, argsSize, base, n);
          }
        case Send(_, receiver, args) =>
          ok := ExamineSend(receiver, args, n, argsSize, base);
        case SendWithStore(_, receiver, args, result) =>
          ok := ExamineSend(receiver, args, n, argsSize, base);
          if ok {
            ok := ExamineOperand(result, n + 1, argsSize, base, n);
          }
        case Return(operand) =>
          ok := ExamineOperand(operand, n, argsSize, base, n);
        case OuterReturn(operand) =>
          ok := ExamineOperand(operand, n, argsSize, base, n);
      }
      if ok && !inst.SendWithStore? {
        LaterKeepsScan(State(), argsSize, base, n, n + 1);
      }
    }

    /**
     scanCode.  `scanned` is the state before the last step, which makes the receiver live up to the
     last instruction when the code returns it implicitly.
     */
    method ScanCode(bytes: seq<nat>, ghost insts: seq<Instruction>, ghost argsSize: nat, ghost base: nat) returns (ok: bool, ghost scanned: Vars)
      requires Valid(argsSize, base, 0) && bytes == EncodeAll(insts) && AreInstructionsOk(insts)
      requires forall i :: 0 <= i < |insts| ==> IsInstructionBelow(insts[i], base)
      modifies this, vars
      ensures ok ==> IsVars(scanned, argsSize, base, |insts|) && scanned.uses == old(uses) + UsesOfCode(insts)
      ensures ok ==> IsScanned(scanned, insts, State())
      ensures !ok ==> TABLE_SIZE <= base + |old(uses) + UsesOfCode(insts)|
    {
      hide IsVars, UsesOfInstruction, EncodeInstruction, EncodeAll, IsInstructionOk, IsInstructionBelow, IsNext;
      AllIsNext(insts);
      var decoder := new BytecodesIterator(bytes);
      var returns' := false;
      ghost var i := 0;
      ok := true;
      while decoder.HasNext()
        invariant fresh(decoder) && decoder.bytes == bytes && i <= |insts| && ok
        invariant decoder.p == |EncodeAll(insts[..i])| && decoder.bytecodeNumber == i - 1
        invariant Valid(argsSize, base, i) && uses == old(uses) + UsesOfCode(insts[..i]) && (returns' <==> Returns(insts[..i]))
        decreases |insts| - i
      {
        EndIsReached(insts, i);
        InstructionIsNext(bytes, insts, i);
        DecodedUses(insts[i], i);
        DecodedIsBelow(insts[i], base);
        var inst := decoder.NextInstruction(insts[i]);
        returns' := returns' || inst.Return? || inst.OuterReturn?;
        ok := ExamineInstruction(inst, decoder.bytecodeNumber, argsSize, base);
        assert insts[..i + 1][..i] == insts[..i];
        if !ok {
          scanned := State();
          MoreUses(insts, i + 1);
          SubsetIsSmaller(uses, old(uses) + UsesOfCode(insts));
          return;
        }
        i := i + 1;
      }
      EndIsReached(insts, i);
      assert insts[..i] == insts;
      scanned := State();
      BaseIsBig(State(), argsSize, base, |insts|);
      if !returns' {
        var offset := decoder.bytecodeNumber;
        var _ := DefineTmpVar(SELF_INDEX, if offset == -1 then 0 else offset);
      }
    }

    /** The start of computeRegsAlloc: arguments from the last one to the receiver, then the current context. */
    method DefineArguments(argsSize: nat)
      requires argsSize + 1 < varsSize < VARS_SIZE && vars.Length == VARS_SIZE && argsSize + 2 < ORDER_SIZE
      requires order == [] && specials == map[] && uses == {} && touched == {} && forall v :: 0 <= v < VARS_SIZE ==> !vars[v].isDefined
      modifies this, vars
      ensures Valid(argsSize, varsSize, 0) && uses == {} && varsSize == old(varsSize)
    {
      hide AreUsesTouched, AreSlots, IsListed, AreHulls;
      NothingIsListed(State());
      var i: int := argsSize;
      while i >= 0
        invariant -1 <= i <= argsSize && specials == map[] && uses == {} && varsSize == old(varsSize)
        invariant AreArguments(State(), i + 2, argsSize + 1) && IsListed(State(), 0) && AreHulls(vars[..], touched)
      {
        DefineKeepsList(State(), 0, i + 1, 0);
        DefineKeepsHulls(State(), i + 1, 0);
        var _ := DefineVar(i + 1, 0);
        i := i - 1;
      }
      ArgumentsAreVars(State(), argsSize);
      var _ := DefineVar(CONTEXT_INDEX, 0);
      specials := specials[CONTEXT := CONTEXT_INDEX];
    }
  }

  /** Exactly the variables from `lo` to `hi` are defined, and that at offset 0. */
  ghost predicate AreArguments(s: Vars, lo: nat, hi: nat) {
    && (forall v :: 0 <= v < |s.vars| ==> (s.vars[v].isDefined <==> lo <= v <= hi))
    && (forall t :: t in s.touched ==> lo <= t.v <= hi && t.offset == 0)
  }

  lemma NothingIsListed(s: Vars)
    requires s.order == [] && s.touched == {} && forall v :: 0 <= v < |s.vars| ==> !s.vars[v].isDefined
    ensures IsListed(s, 0) && AreHulls(s.vars, s.touched)
  {
  }

  lemma ArgumentsAreVars(s: Vars, argsSize: nat)
    requires AreArguments(s, 1, argsSize + 1) && |s.vars| == VARS_SIZE && argsSize + 1 < s.varsSize < VARS_SIZE && s.specials == map[] && s.uses == {}
    requires IsListed(s, 0) && AreHulls(s.vars, s.touched)
    ensures IsVars(Define(s, CONTEXT_INDEX, 0).(specials := s.specials[CONTEXT := CONTEXT_INDEX]), argsSize, s.varsSize, 0)
  {
    hide IsListed, AreHulls;
    DefineKeepsList(s, 0, CONTEXT_INDEX, 0);
    DefineKeepsHulls(s, CONTEXT_INDEX, 0);
    var s' := Define(s, CONTEXT_INDEX, 0);
    UsesDoNotMatter(s', s'.(specials := s.specials[CONTEXT := CONTEXT_INDEX]), 0);
  }

  lemma {:induction false} MoreUses(insts: seq<Instruction>, i: nat)
    requires i <= |insts|
    ensures UsesOfCode(insts[..i]) <= UsesOfCode(insts)
  {
    hide UsesOfInstruction;
    if i == |insts| {
      assert insts[..i] == insts;
    } else {
      MoreUses(insts[..|insts| - 1], i);
      assert insts[..|insts| - 1][..i] == insts[..i];
    }
  }

  lemma {:induction false} MoreOperands(operands: seq<Operand>, i: nat, offset: nat)
    requires i <= |operands|
    ensures UsesOfAll(operands[..i], offset) <= UsesOfAll(operands, offset)
  {
    hide UsesOf;
    if i == |operands| {
      assert operands[..i] == operands;
    } else {
      MoreOperands(operands[..|operands| - 1], i, offset);
      assert operands[..|operands| - 1][..i] == operands[..i];
    }
  }

  lemma SlotsAreVars(s: Vars, argsSize: nat, base: nat, offset: nat)
    requires IsVars(s, argsSize, base, offset)
    ensures |s.vars| == VARS_SIZE && base <= s.varsSize <= VARS_SIZE && forall x :: x in s.specials ==> s.specials[x] < VARS_SIZE
  {
    hide AreHulls, AreUsesTouched, IsListed;
  }

  /** There are no more defined variables than slots. */
  lemma ListIsShort(s: Vars, argsSize: nat, base: nat, offset: nat)
    requires IsVars(s, argsSize, base, offset)
    ensures |s.order| <= s.varsSize <= base + |s.uses|
  {
    hide AreHulls, AreUsesTouched;
    forall v | v in s.order
      ensures v < s.varsSize
    {
      assert s.vars[v].isDefined;
    }
    PigeonsFit(s.order, s.varsSize);
  }

  lemma {:induction false} PigeonsFit(list: seq<nat>, n: nat)
    requires HasNoDuplicates(list) && forall v :: v in list ==> v < n
    ensures |list| <= n
  {
    if list != [] {
      assert list[0] in list;
      if n - 1 in list {
        var k :| 0 <= k < |list| && list[k] == n - 1;
        WithoutOne(list, [], k);
        PigeonsFit(WithoutAt(list, k), n - 1);
      } else {
        PigeonsFit(list, n - 1);
      }
    }
  }

  ghost predicate Returns(insts: seq<Instruction>) {
    exists i :: 0 <= i < |insts| && (insts[i].Return? || insts[i].OuterReturn?)
  }

  /** The number of the last instruction. */
  function LastOffset(insts: seq<Instruction>): nat {
    if insts == [] then 0 else |insts| - 1
  }

  ghost predicate IsScanned(scanned: Vars, insts: seq<Instruction>, s: Vars) {
    && SELF_INDEX < |scanned.vars|
    && s == if Returns(insts) then scanned else UseNamed(scanned, SELF_INDEX, LastOffset(insts))
  }

  lemma BaseIsBig(s: Vars, argsSize: nat, base: nat, offset: nat)
    requires IsVars(s, argsSize, base, offset)
    ensures SELF_INDEX < base <= VARS_SIZE && SUPER_INDEX < base && |s.vars| == VARS_SIZE && s.vars[SELF_INDEX].isDefined
  {
    hide AreHulls, IsListed, AreUsesTouched;
  }

  // ---------- What the intervals are good for ----------

  predicate IsCovered(vars: seq<Variable>, v: nat, offset: nat) {
    v < |vars| && vars[v].isDefined && vars[v].start <= offset <= vars[v].end
  }

  predicate Covers(s: Vars, u: Use) {
    IsCovered(s.vars, SlotOf(s, u), u.offset)
  }

  predicate UsesSelf(o: Operand) {
    o.Super? || o.Block? || o.InstVar? || ((o.TempVar? || o.ArgVar?) && o.index == SELF_INDEX)
  }

  /** The last instruction stores a result through the receiver, such as into an instance variable. */
  predicate EndsWithSelfStore(insts: seq<Instruction>) {
    insts != [] && insts[|insts| - 1].SendWithStore? && UsesSelf(insts[|insts| - 1].result)
  }

  lemma SelfIsUsed(o: Operand, offset: nat, offset': nat)
    ensures Named(SELF_INDEX, offset') in UsesOf(o, offset) <==> UsesSelf(o) && offset' == offset
    ensures forall u :: u in UsesOf(o, offset) ==> u.offset == offset
  {
  }

  lemma {:induction false} OffsetsOfAll(operands: seq<Operand>, offset: nat)
    ensures forall u :: u in UsesOfAll(operands, offset) ==> u.offset == offset
  {
    if operands != [] {
      OffsetsOfAll(operands[..|operands| - 1], offset);
      SelfIsUsed(operands[|operands| - 1], offset, offset);
    }
  }

  lemma OffsetsOfInstruction(inst: Instruction, n: nat)
    ensures forall u :: u in UsesOfInstruction(inst, n) ==> n <= u.offset <= n + 1
    ensures Named(SELF_INDEX, n + 1) in UsesOfInstruction(inst, n) <==> inst.SendWithStore? && UsesSelf(inst.result)
  {
    if inst.SendWithStore? {
      SelfIsUsed(inst.result, n + 1, n + 1);
    }
    if inst.Send? || inst.SendWithStore? {
      OffsetsOfAll(inst.args, n);
    }
  }

  /** Only a store by the last instruction is a use behind the last instruction. */
  lemma {:induction false} LateUse(insts: seq<Instruction>)
    ensures forall u :: u in UsesOfCode(insts) ==> u.offset <= |insts|
    ensures insts != [] ==> (Named(SELF_INDEX, |insts|) in UsesOfCode(insts) <==> EndsWithSelfStore(insts))
  {
    hide UsesOfInstruction, UsesSelf;
    if insts != [] {
      LateUse(insts[..|insts| - 1]);
      OffsetsOfInstruction(insts[|insts| - 1], |insts| - 1);
    }
  }

  /** A use of an instruction is a use of the code. */
  lemma {:induction false} UseIsOfCode(insts: seq<Instruction>, n: nat, u: Use)
    requires n < |insts| && u in UsesOfInstruction(insts[n], n)
    ensures u in UsesOfCode(insts)
  {
    hide UsesOfInstruction;
    if n < |insts| - 1 {
      UseIsOfCode(insts[..|insts| - 1], n, u);
    }
  }

  lemma UseIsCovered(scanned: Vars, insts: seq<Instruction>, s: Vars, argsSize: nat, base: nat, u: Use)
    requires IsVars(scanned, argsSize, base, |insts|) && scanned.uses == UsesOfCode(insts) && IsScanned(scanned, insts, s)
    requires u in UsesOfCode(insts)
    ensures Covers(s, u) <==> Returns(insts) || u != Named(SELF_INDEX, |insts|)
  {
    hide UsesOfCode, IsListed, Returns;
    LateUse(insts);
    NoUses();
    assert Touch(SlotOf(scanned, u), u.offset) in scanned.touched;
    if !Returns(insts) {
      assert s.vars == Extend(scanned, SELF_INDEX, |insts| - 1).vars;
      assert SlotOf(s, u) == SlotOf(scanned, u);
      assert u.Unnamed? ==> SlotOf(s, u) != SELF_INDEX;
    }
  }

  /**
   The interval of each variable covers all its uses, except in one case: code that ends with a
   store through the receiver and returns it implicitly.  There the last step moves the end of the
   receiver's interval back.
   */
  lemma AllUsesAreCovered(scanned: Vars, insts: seq<Instruction>, s: Vars, argsSize: nat, base: nat)
    requires IsVars(scanned, argsSize, base, |insts|) && scanned.uses == UsesOfCode(insts) && IsScanned(scanned, insts, s)
    ensures (forall u :: u in UsesOfCode(insts) ==> Covers(s, u)) <==> Returns(insts) || !EndsWithSelfStore(insts)
    ensures forall u :: u in UsesOfCode(insts) && SlotOf(s, u) != SELF_INDEX ==> Covers(s, u)
  {
    hide UsesOfCode, IsVars, IsScanned, Returns, Covers, EndsWithSelfStore;
    LateUse(insts);
    forall u | u in UsesOfCode(insts)
      ensures Covers(s, u) <==> Returns(insts) || u != Named(SELF_INDEX, |insts|)
    {
      UseIsCovered(scanned, insts, s, argsSize, base, u);
    }
    if insts == [] {
      NoUses();
    }
  }

  lemma NoUses()
    ensures UsesOfCode([]) == {} && !EndsWithSelfStore([])
  {
  }

  /** Intervals are not longer than their uses require: they start and end with a use, but those of arguments at the start of the code. */
  lemma IntervalsAreTight(scanned: Vars, insts: seq<Instruction>, s: Vars, argsSize: nat, base: nat, v: nat)
    requires IsVars(scanned, argsSize, base, |insts|) && scanned.uses == UsesOfCode(insts) && IsScanned(scanned, insts, s)
    requires SELF_INDEX < v < VARS_SIZE && s.vars[v].isDefined
    ensures (v <= argsSize + 1 && s.vars[v].start == 0) || exists u :: u in UsesOfCode(insts) && SlotOf(s, u) == v && u.offset == s.vars[v].start
    ensures (v <= argsSize + 1 && s.vars[v].end == 0) || exists u :: u in UsesOfCode(insts) && SlotOf(s, u) == v && u.offset == s.vars[v].end
  {
    hide UsesOfCode, IsListed, Returns, AreSlots, AreReached, AreFromStart;
    BaseIsBig(scanned, argsSize, base, |insts|);
    BoundIsExplained(scanned, s, argsSize, v, scanned.vars[v].start);
    BoundIsExplained(scanned, s, argsSize, v, scanned.vars[v].end);
  }

  lemma BoundIsExplained(scanned: Vars, s: Vars, argsSize: nat, v: nat, offset: nat)
    requires AreUsesTouched(scanned, argsSize) && Touch(v, offset) in scanned.touched && v != CONTEXT_INDEX && s.specials == scanned.specials
    ensures (v <= argsSize + 1 && offset == 0) || exists u :: u in scanned.uses && SlotOf(s, u) == v && u.offset == offset
  {
    assert IsExplained(scanned, argsSize, Touch(v, offset));
    if !(v <= argsSize + 1 && offset == 0) {
      var u :| u in scanned.uses && SlotOf(scanned, u) == v && u.offset == offset;
      assert SlotOf(s, u) == v;
    }
  }

  // ---------- The same, told by the instructions ----------

  predicate IsSpecialCovered(vars: seq<Variable>, specials: map<Special, nat>, x: Special, offset: nat) {
    x in specials && IsCovered(vars, specials[x], offset)
  }

  /** All variables that are read or written where the operand is fetched or stored are alive. */
  predicate IsAlive(vars: seq<Variable>, specials: map<Special, nat>, o: Operand, offset: nat) {
    match o
    case TempVar(index) => IsCovered(vars, index, offset)
    case ArgVar(index) => IsCovered(vars, index, offset)
    case Super => IsCovered(vars, SELF_INDEX, offset)
    case InstVar(_) => IsCovered(vars, SELF_INDEX, offset)
    case Block(_) => IsCovered(vars, SELF_INDEX, offset) && IsCovered(vars, CONTEXT_INDEX, offset)
    case ContextVar(_, level) => IsSpecialCovered(vars, specials, Special(ContextType, level), offset)
    case Assoc(index) => IsSpecialCovered(vars, specials, Special(AssocType, index), offset)
    case _ => true
  }

  /** A receiver that is a variable has another variable for its class. */
  predicate IsClassAlive(vars: seq<Variable>, specials: map<Special, nat>, receiver: Operand, offset: nat) {
    receiver.TempVar? || receiver.ArgVar? ==> IsSpecialCovered(vars, specials, Special(ClassType, receiver.index), offset)
  }

  lemma OperandIsAlive(s: Vars, base: nat, vars: seq<Variable>, o: Operand, offset: nat)
    requires AreSlots(s, base) && OnlyRegsDiffer(s.vars, vars)
    ensures IsAlive(vars, s.specials, o, offset) <==> forall u :: u in UsesOf(o, offset) ==> Covers(s, u)
    ensures IsClassAlive(vars, s.specials, o, offset) <==> forall u :: u in ClassUsesOf(o, offset) ==> Covers(s, u)
  {
    hide Covers;
    forall u
      ensures Covers(s, u) <==> IsCovered(vars, SlotOf(s, u), u.offset)
    {
      UseIsCoveredNow(s, vars, u);
    }
    match o
    case TempVar(index) => assert Named(index, offset) in UsesOf(o, offset) && Unnamed(Special(ClassType, index), offset) in ClassUsesOf(o, offset);
    case ArgVar(index) => assert Named(index, offset) in UsesOf(o, offset) && Unnamed(Special(ClassType, index), offset) in ClassUsesOf(o, offset);
    case Super => assert Named(SELF_INDEX, offset) in UsesOf(o, offset);
    case InstVar(_) => assert Named(SELF_INDEX, offset) in UsesOf(o, offset);
    case Block(_) => assert Named(SELF_INDEX, offset) in UsesOf(o, offset) && Unnamed(CONTEXT, offset) in UsesOf(o, offset);
    case ContextVar(_, level) => assert Unnamed(Special(ContextType, level), offset) in UsesOf(o, offset);
    case Assoc(index) => assert Unnamed(Special(AssocType, index), offset) in UsesOf(o, offset);
    case _ =>
  }

  lemma UseIsCoveredNow(s: Vars, vars: seq<Variable>, u: Use)
    requires OnlyRegsDiffer(s.vars, vars)
    ensures Covers(s, u) <==> IsCovered(vars, SlotOf(s, u), u.offset)
  {
    var v := SlotOf(s, u);
    assert v < |vars| ==> vars[v] == s.vars[v].(reg := vars[v].reg);
  }

  lemma ScannedHasSlots(scanned: Vars, insts: seq<Instruction>, s: Vars, argsSize: nat, base: nat)
    requires IsVars(scanned, argsSize, base, |insts|) && IsScanned(scanned, insts, s)
    ensures AreSlots(s, base) && |s.vars| == VARS_SIZE && base <= VARS_SIZE
  {
    hide AreHulls, IsListed, AreUsesTouched, AreFromStart, Returns;
    NamedKeepsSlots(scanned, base, SELF_INDEX, LastOffset(insts));
  }

  /** Uses that are not those of the last result are covered in any case. */
  lemma EarlyUsesAreCovered(scanned: Vars, insts: seq<Instruction>, s: Vars, argsSize: nat, base: nat, n: nat, uses: set<Use>, offset: nat)
    requires IsVars(scanned, argsSize, base, |insts|) && scanned.uses == UsesOfCode(insts) && IsScanned(scanned, insts, s)
    requires n < |insts| && uses <= UsesOfInstruction(insts[n], n) && forall u :: u in uses ==> u.offset == offset
    ensures (forall u :: u in uses ==> Covers(s, u)) <==> Returns(insts) || offset != |insts| || Named(SELF_INDEX, |insts|) !in uses
  {
    hide IsVars, IsScanned, Returns, Covers, UsesOfCode, UsesOfInstruction;
    forall u | u in uses
      ensures Covers(s, u) <==> Returns(insts) || u != Named(SELF_INDEX, |insts|)
    {
      UseIsOfCode(insts, n, u);
      UseIsCovered(scanned, insts, s, argsSize, base, u);
    }
  }

  /** An operand at the offset of its instruction, or the result of a send one behind it. */
  lemma OperandOfCode(scanned: Vars, insts: seq<Instruction>, s: Vars, argsSize: nat, base: nat, vars: seq<Variable>, n: nat, o: Operand, offset: nat)
    requires IsVars(scanned, argsSize, base, |insts|) && scanned.uses == UsesOfCode(insts) && IsScanned(scanned, insts, s)
    requires OnlyRegsDiffer(s.vars, vars) && n < |insts|
    ensures UsesOf(o, offset) <= UsesOfInstruction(insts[n], n) ==>
              (IsAlive(vars, s.specials, o, offset) <==> Returns(insts) || offset != |insts| || !UsesSelf(o))
    ensures ClassUsesOf(o, offset) <= UsesOfInstruction(insts[n], n) ==> IsClassAlive(vars, s.specials, o, offset)
  {
    hide IsVars, IsScanned, Returns, Covers, UsesOfCode, UsesOfInstruction, AreSlots, OnlyRegsDiffer, IsAlive, IsClassAlive;
    ScannedHasSlots(scanned, insts, s, argsSize, base);
    OperandIsAlive(s, base, vars, o, offset);
    SelfIsUsed(o, offset, |insts|);
    if UsesOf(o, offset) <= UsesOfInstruction(insts[n], n) {
      EarlyUsesAreCovered(scanned, insts, s, argsSize, base, n, UsesOf(o, offset), offset);
    }
    if ClassUsesOf(o, offset) <= UsesOfInstruction(insts[n], n) {
      EarlyUsesAreCovered(scanned, insts, s, argsSize, base, n, ClassUsesOf(o, offset), offset);
    }
  }

  lemma ArgumentIsUsed(operands: seq<Operand>, i: nat, offset: nat)
    requires i < |operands|
    ensures UsesOf(operands[i], offset) <= UsesOfAll(operands, offset)
  {
    ReversedUses(operands, offset);
  }

  /**
   Each operand of each instruction is alive where it is fetched or stored, and so is the class of
   each receiver.  The only exception is a last result that is stored through the receiver, when the
   code returns implicitly.
   */
  lemma OperandsAreAlive(scanned: Vars, insts: seq<Instruction>, s: Vars, argsSize: nat, base: nat, vars: seq<Variable>, n: nat)
    requires IsVars(scanned, argsSize, base, |insts|) && scanned.uses == UsesOfCode(insts) && IsScanned(scanned, insts, s)
    requires OnlyRegsDiffer(s.vars, vars) && n < |insts|
    ensures match insts[n]
            case Copy(source, dest) => IsAlive(vars, s.specials, source, n) && IsAlive(vars, s.specials, dest, n)
            case Send(_, receiver, args) =>
              && IsAlive(vars, s.specials, receiver, n) && IsClassAlive(vars, s.specials, receiver, n)
              && (forall i :: 0 <= i < |args| ==> IsAlive(vars, s.specials, args[i], n))
            case SendWithStore(_, receiver, args, result) =>
              && IsAlive(vars, s.specials, receiver, n) && IsClassAlive(vars, s.specials, receiver, n)
              && (forall i :: 0 <= i < |args| ==> IsAlive(vars, s.specials, args[i], n))
              && (IsAlive(vars, s.specials, result, n + 1) <==> Returns(insts) || n + 1 < |insts| || !UsesSelf(result))
            case Return(operand) => IsAlive(vars, s.specials, operand, n)
            case OuterReturn(operand) => IsAlive(vars, s.specials, operand, n)
  {
    hide IsVars, IsScanned, Returns, UsesOfCode, OnlyRegsDiffer, IsAlive, IsClassAlive, UsesOf, ClassUsesOf, UsesOfAll, UsesSelf;
    forall o, offset
      ensures UsesOf(o, offset) <= UsesOfInstruction(insts[n], n) ==>
                (IsAlive(vars, s.specials, o, offset) <==> Returns(insts) || offset != |insts| || !UsesSelf(o))
      ensures ClassUsesOf(o, offset) <= UsesOfInstruction(insts[n], n) ==> IsClassAlive(vars, s.specials, o, offset)
    {
      OperandOfCode(scanned, insts, s, argsSize, base, vars, n, o, offset);
    }
    if insts[n].Send? || insts[n].SendWithStore? {
      var args := insts[n].args;
      forall i | 0 <= i < |args|
        ensures UsesOf(args[i], n) <= UsesOfInstruction(insts[n], n)
      {
        ArgumentIsUsed(args, i, n);
      }
    }
  }

  /** An outer context is found from the current one, which is still alive when the variable of the outer one begins. */
  lemma ContextIsReached(scanned: Vars, insts: seq<Instruction>, s: Vars, argsSize: nat, base: nat, vars: seq<Variable>, level: nat)
    requires IsVars(scanned, argsSize, base, |insts|) && IsScanned(scanned, insts, s) && OnlyRegsDiffer(s.vars, vars)
    requires Special(ContextType, level) in s.specials
    ensures var v := s.specials[Special(ContextType, level)];
            v < |vars| && vars[v].isDefined && IsCovered(vars, CONTEXT_INDEX, vars[v].start)
  {
    hide IsListed, AreUsesTouched, AreFromStart, Returns;
    var v := s.specials[Special(ContextType, level)];
    assert Touch(CONTEXT_INDEX, scanned.vars[v].start) in scanned.touched;
    assert vars[v] == s.vars[v].(reg := vars[v].reg) && vars[CONTEXT_INDEX] == s.vars[CONTEXT_INDEX].(reg := vars[CONTEXT_INDEX].reg);
  }

  predicate IsVar(o: Operand, v: nat) {
    (o.TempVar? || o.ArgVar?) && o.index == v
  }

  /** The variable `v` is an operand that instruction `n` fetches or stores at `offset`. */
  predicate Mentions(inst: Instruction, n: nat, v: nat, offset: nat) {
    match inst
    case Copy(source, dest) => offset == n && (IsVar(source, v) || IsVar(dest, v))
    case Send(_, receiver, args) => offset == n && (IsVar(receiver, v) || exists i :: 0 <= i < |args| && IsVar(args[i], v))
    case SendWithStore(_, receiver, args, result) =>
      || (offset == n && (IsVar(receiver, v) || exists i :: 0 <= i < |args| && IsVar(args[i], v)))
      || (offset == n + 1 && IsVar(result, v))
    case Return(operand) => offset == n && IsVar(operand, v)
    case OuterReturn(operand) => offset == n && IsVar(operand, v)
  }

  lemma NamedIsVar(o: Operand, offset: nat, v: nat, offset': nat)
    requires SELF_INDEX < v
    ensures Named(v, offset') in UsesOf(o, offset) <==> IsVar(o, v) && offset' == offset
    ensures Named(v, offset') !in ClassUsesOf(o, offset)
  {
  }

  lemma NamedIsMentioned(inst: Instruction, n: nat, v: nat, offset: nat)
    requires SELF_INDEX < v
    ensures Named(v, offset) in UsesOfInstruction(inst, n) <==> Mentions(inst, n, v, offset)
  {
    hide UsesOf, ClassUsesOf, IsVar, UsesOfAll;
    forall o, offset'
      ensures Named(v, offset) in UsesOf(o, offset') <==> IsVar(o, v) && offset == offset'
      ensures Named(v, offset) !in ClassUsesOf(o, offset')
    {
      NamedIsVar(o, offset', v, offset);
    }
    if inst.Send? || inst.SendWithStore? {
      ReversedUses(inst.args, n);
    }
  }

  lemma {:induction false} UseHasInstruction(insts: seq<Instruction>, u: Use) returns (n: nat)
    requires u in UsesOfCode(insts)
    ensures n < |insts| && u in UsesOfInstruction(insts[n], n)
  {
    hide UsesOfInstruction;
    n := |insts| - 1;
    if u !in UsesOfInstruction(insts[n], n) {
      n := UseHasInstruction(insts[..n], u);
    }
  }

  /**
   The interval of a temporary begins with the first instruction that mentions it and ends with the
   last one; that of an argument begins at 0 and ends with the last one, if any.
   */
  lemma NamedAreTight(scanned: Vars, insts: seq<Instruction>, s: Vars, argsSize: nat, base: nat, vars: seq<Variable>, v: nat)
    requires IsVars(scanned, argsSize, base, |insts|) && scanned.uses == UsesOfCode(insts) && IsScanned(scanned, insts, s)
    requires OnlyRegsDiffer(s.vars, vars) && SELF_INDEX < v < base
    ensures v < |vars|
    ensures vars[v].isDefined <==> v <= argsSize + 1 || exists n: nat, offset: nat :: n < |insts| && Mentions(insts[n], n, v, offset)
    ensures v <= argsSize + 1 ==> vars[v].start == 0
    ensures argsSize + 1 < v && vars[v].isDefined ==> exists n: nat :: n < |insts| && Mentions(insts[n], n, v, vars[v].start)
    ensures vars[v].isDefined ==>
              (v <= argsSize + 1 && vars[v].end == 0) || exists n: nat :: n < |insts| && Mentions(insts[n], n, v, vars[v].end)
    ensures forall n: nat, offset: nat :: n < |insts| && Mentions(insts[n], n, v, offset) ==> vars[v].start <= offset <= vars[v].end
  {
    hide IsVars, IsScanned, Returns, UsesOfCode, UsesOfInstruction, AreSlots, Mentions, AreFromStart;
    ScannedHasSlots(scanned, insts, s, argsSize, base);
    ScannedIsOrdered(scanned, insts, s, argsSize, base);
    if v <= argsSize + 1 {
      ArgumentIsFromStart(s.vars, argsSize, v);
    }
    forall n: nat, offset: nat | n < |insts| && Mentions(insts[n], n, v, offset)
      ensures vars[v].isDefined && vars[v].start <= offset <= vars[v].end
    {
      NamedIsMentioned(insts[n], n, v, offset);
      UseIsOfCode(insts, n, Named(v, offset));
      UseIsCovered(scanned, insts, s, argsSize, base, Named(v, offset));
    }
    if vars[v].isDefined {
      IntervalsAreTight(scanned, insts, s, argsSize, base, v);
      forall u | u in UsesOfCode(insts) && SlotOf(s, u) == v
        ensures exists n: nat :: n < |insts| && Mentions(insts[n], n, v, u.offset)
      {
        UseOfNamed(s, base, u, v);
        var n := UseHasInstruction(insts, u);
        NamedIsMentioned(insts[n], n, v, u.offset);
      }
    }
  }

  lemma ArgumentIsFromStart(vars: seq<Variable>, argsSize: nat, v: nat)
    requires AreFromStart(vars, argsSize) && v <= argsSize + 1
    ensures v < |vars| && vars[v].isDefined && vars[v].start == 0
  {
  }

  lemma UseOfNamed(s: Vars, base: nat, u: Use, v: nat)
    requires AreSlots(s, base) && SlotOf(s, u) == v && SELF_INDEX < v < base
    ensures u == Named(v, u.offset)
  {
  }

  // ---------- computeRegsAlloc ----------

  lemma ScannedIsOrdered(scanned: Vars, insts: seq<Instruction>, s: Vars, argsSize: nat, base: nat)
    requires IsVars(scanned, argsSize, base, |insts|) && IsScanned(scanned, insts, s)
    ensures |s.vars| == VARS_SIZE && AreOrderedByStart(s.vars, s.order) && CONTEXT_INDEX in s.order
    ensures forall i :: 0 <= i < |s.order| ==> s.order[i] < VARS_SIZE && s.vars[s.order[i]].reg == SPILLED_REG
    ensures forall v :: 0 <= v < VARS_SIZE ==> (v in s.order <==> s.vars[v].isDefined)
    ensures forall v :: v in s.order ==> v < VARS_SIZE && s.vars[v].start <= s.vars[v].end
    ensures AreFromStart(s.vars, argsSize)
  {
    hide AreHulls, AreUsesTouched, Returns, AreFromStart;
    StartsStay(scanned, argsSize, SELF_INDEX, LastOffset(insts));
    ReceiverIsFromStart(scanned, argsSize);
    forall i | 0 <= i < |s.order|
      ensures s.order[i] < VARS_SIZE && s.vars[s.order[i]].reg == SPILLED_REG
    {
      assert s.order[i] in s.order;
    }
  }

  lemma ReceiverIsFromStart(s: Vars, argsSize: nat)
    requires AreFromStart(s.vars, argsSize)
    ensures SELF_INDEX < |s.vars| && s.vars[SELF_INDEX].isDefined && s.vars[SELF_INDEX].start == 0
  {
  }

  /** The variables `v` and `w` are alive at the same instruction, and have registers. */
  predicate Compete(vars: seq<Variable>, v: nat, w: nat, offset: nat) {
    v != w && IsCovered(vars, v, offset) && IsCovered(vars, w, offset) && vars[v].reg != SPILLED_REG && vars[w].reg != SPILLED_REG
  }

  /** Variables that are alive at the same instruction do not share a register. */
  ghost predicate AreNeverShared(vars: seq<Variable>) {
    forall v: nat, w: nat, offset: nat :: Compete(vars, v, w, offset) ==> vars[v].reg != vars[w].reg
  }

  /** The variables of the code, without the context. */
  ghost function VarsOf(vars: seq<Variable>): set<nat> {
    set v: nat | v < |vars| && vars[v].isDefined && v != CONTEXT_INDEX
  }

  /** No variable is spilled, or at least `count` of them have registers. */
  ghost predicate AreRegistersUsed(vars: seq<Variable>, count: nat) {
    var holding := set v | v in VarsOf(vars) && vars[v].reg != SPILLED_REG;
    holding == VarsOf(vars) || count <= |holding|
  }

  lemma ServedUseRegisters(vars: seq<Variable>, before: seq<Variable>, order: seq<nat>, available: seq<int>)
    requires |vars| == |before| == VARS_SIZE && OnlyRegsDiffer(before, vars)
    requires (forall i :: 0 <= i < |order| ==> order[i] < VARS_SIZE)
    requires forall u :: 0 <= u < VARS_SIZE ==> (u in order <==> before[u].isDefined)
    requires AreServed(available, RegistersOf(vars), Allocated(order, |order|))
    ensures AreRegistersUsed(vars, |available|)
  {
    assert order[..|order|] == order;
    forall u: nat | u < VARS_SIZE
      ensures vars[u].isDefined == before[u].isDefined && RegOf(RegistersOf(vars), u) == vars[u].reg
    {
      assert vars[u] == before[u].(reg := vars[u].reg);
    }
    assert VarsOf(vars) == Allocated(order, |order|);
    assert Holding(RegistersOf(vars), VarsOf(vars)) == set v | v in VarsOf(vars) && vars[v].reg != SPILLED_REG;
  }

  /** The variables besides the context that are alive at `offset`. */
  ghost function Alive(vars: seq<Variable>, offset: nat): set<nat> {
    set v: nat | v < |vars| && v != CONTEXT_INDEX && IsCovered(vars, v, offset)
  }

  lemma SpilledWhenCrowded(vars: seq<Variable>, before: seq<Variable>, order: seq<nat>, available: seq<int>)
    requires |vars| == |before| == VARS_SIZE && OnlyRegsDiffer(before, vars)
    requires forall i :: 0 <= i < |order| ==> order[i] < VARS_SIZE
    requires forall u :: 0 <= u < VARS_SIZE ==> (u in order <==> before[u].isDefined)
    requires (forall u :: u in order && u != CONTEXT_INDEX ==> vars[u].reg != SPILLED_REG) <==>
             (forall offset: nat :: |VarsAlive(vars, order, offset)| <= |available|)
    ensures (forall v: nat :: v < VARS_SIZE && vars[v].isDefined && v != CONTEXT_INDEX ==> vars[v].reg != SPILLED_REG) <==>
            (forall offset: nat :: |Alive(vars, offset)| <= |available|)
  {
    forall u: nat | u < VARS_SIZE
      ensures vars[u].isDefined <==> u in order
    {
      assert vars[u] == before[u].(reg := vars[u].reg);
    }
    forall offset: nat
      ensures Alive(vars, offset) == VarsAlive(vars, order, offset)
    {
    }
  }

  lemma StartsAreKept(vars: seq<Variable>, before: seq<Variable>, order: seq<nat>, argsSize: nat)
    requires OnlyRegsDiffer(before, vars) && AreFromStart(before, argsSize)
    requires forall v :: v in order ==> v < |before| && before[v].start <= before[v].end
    ensures AreFromStart(vars, argsSize) && forall v :: v in order ==> vars[v].start <= vars[v].end
  {
    forall v: nat | v < |vars|
      ensures vars[v].isDefined == before[v].isDefined && vars[v].start == before[v].start && vars[v].end == before[v].end
    {
      assert vars[v] == before[v].(reg := vars[v].reg);
    }
  }

  lemma CompetitorsDiffer(vars: seq<Variable>, before: seq<Variable>, order: seq<nat>, available: seq<int>, v: nat, w: nat, offset: nat)
    requires |vars| == |before| == VARS_SIZE && OnlyRegsDiffer(before, vars)
    requires (forall u :: 0 <= u < VARS_SIZE ==> (u in order <==> before[u].isDefined)) && vars[CONTEXT_INDEX].reg == CONTEXT_REG
    requires AreCompatible(IntervalsOf(vars), RegistersOf(vars), Allocated(order, |order|))
    requires AreFromPool(available, RegistersOf(vars), Allocated(order, |order|))
    requires Compete(vars, v, w, offset) && CONTEXT_REG !in available
    ensures vars[v].reg != vars[w].reg
  {
    assert vars[v].isDefined == before[v].isDefined && vars[w].isDefined == before[w].isDefined;
    assert order[..|order|] == order;
    assert v != CONTEXT_INDEX ==> v in Allocated(order, |order|);
    assert w != CONTEXT_INDEX ==> w in Allocated(order, |order|);
    assert RegOf(RegistersOf(vars), v) == vars[v].reg && RegOf(RegistersOf(vars), w) == vars[w].reg;
    assert Intersect(IntervalsOf(vars)[v], IntervalsOf(vars)[w]);
  }

  /**
   computeRegsAlloc.  It fails when variables get too many for its tables.  Else variables that are
   alive at the same instruction never share a register, and none is spilled while registers are left.
   */
  method ComputeRegsAlloc(bytes: seq<nat>, argsSize: nat, tempsSize: nat, available: seq<int>, ghost insts: seq<Instruction>)
    returns (ok: bool, table: VarsTable, ghost scanned: Vars, ghost s: Vars)
    requires AreAvailable(available) && CONTEXT_REG !in available && tempsSize <= SORTED_VARS_SIZE / 2
    requires bytes == EncodeAll(insts) && AreInstructionsOk(insts)
    requires forall i :: 0 <= i < |insts| ==> IsInstructionBelow(insts[i], argsSize + tempsSize + 2)
    ensures ok ==> table.vars.Length == VARS_SIZE && IsVars(scanned, argsSize, argsSize + tempsSize + 2, |insts|)
    ensures ok ==> scanned.uses == UsesOfCode(insts) && IsScanned(scanned, insts, s) && OnlyRegsDiffer(s.vars, table.vars[..])
    ensures ok ==> AreNeverShared(table.vars[..]) && AreRegistersUsed(table.vars[..], |available|)
    ensures ok ==> table.specials == s.specials && AreFromStart(table.vars[..], argsSize)
    // A variable is spilled if and only if at some offset more are alive than there are registers.
    ensures ok ==>
              ((forall v: nat :: v < VARS_SIZE && table.vars[v].isDefined && v != CONTEXT_INDEX ==> table.vars[v].reg != SPILLED_REG) <==>
               (forall offset: nat :: |Alive(table.vars[..], offset)| <= |available|))
    ensures argsSize + tempsSize + 2 + |UsesOfCode(insts)| <= SORTED_VARS_SIZE / 2 ==> ok
  {
    hide AreServed, AreRegistersUsed, AreFromStart, Alive, VarsAlive, IsVars, IsScanned, OnlyRegsDiffer, AreNeverShared, AreCompatible, AreFromPool, AreAvailable, IntervalsOf, RegistersOf, AreOrderedByStart, IsInstructionBelow, AreInstructionsOk, UsesOfCode, Compete, EncodeAll;
    ok := argsSize + tempsSize + 2 < VARS_SIZE && argsSize + 2 < ORDER_SIZE;
    table := new VarsTable(argsSize + tempsSize + 2);
    scanned, s := table.State(), table.State();
    if !ok {
      return;
    }
    table.DefineArguments(argsSize);
    ok, scanned := table.ScanCode(bytes, insts, argsSize, argsSize + tempsSize + 2);
    if ok {
      TableIsSmall(scanned, insts, table.State(), argsSize, argsSize + tempsSize + 2);
    }
    assert {} + UsesOfCode(insts) == UsesOfCode(insts);
    if !ok {
      return;
    }
    s := table.State();
    ScannedIsOrdered(scanned, insts, s, argsSize, argsSize + tempsSize + 2);
    ok := ScanRegisters(table.vars, table.order, available);
    if !ok {
      return;
    }
    RegistersAreNotShared(table.vars[..], s.vars, table.order, available);
    ServedUseRegisters(table.vars[..], s.vars, table.order, available);
    StartsAreKept(table.vars[..], s.vars, table.order, argsSize);
    SpilledWhenCrowded(table.vars[..], s.vars, table.order, available);
  }

  lemma TableIsSmall(scanned: Vars, insts: seq<Instruction>, s: Vars, argsSize: nat, base: nat)
    requires IsVars(scanned, argsSize, base, |insts|) && IsScanned(scanned, insts, s)
    ensures |s.order| <= base + |scanned.uses|
  {
    hide IsListed, AreHulls, AreUsesTouched, Returns;
    ListIsShort(scanned, argsSize, base, |insts|);
  }

  lemma RegistersAreNotShared(vars: seq<Variable>, before: seq<Variable>, order: seq<nat>, available: seq<int>)
    requires |vars| == |before| == VARS_SIZE && OnlyRegsDiffer(before, vars)
    requires (forall u :: 0 <= u < VARS_SIZE ==> (u in order <==> before[u].isDefined)) && vars[CONTEXT_INDEX].reg == CONTEXT_REG
    requires AreCompatible(IntervalsOf(vars), RegistersOf(vars), Allocated(order, |order|))
    requires AreFromPool(available, RegistersOf(vars), Allocated(order, |order|)) && CONTEXT_REG !in available
    ensures AreNeverShared(vars)
  {
    hide AreCompatible, AreFromPool, IntervalsOf, RegistersOf, OnlyRegsDiffer;
    forall v: nat, w: nat, offset: nat | Compete(vars, v, w, offset)
      ensures vars[v].reg != vars[w].reg
    {
      CompetitorsDiffer(vars, before, order, available, v, w, offset);
    }
  }

  /** Code whose only instruction stores the result of a send into an instance variable: the receiver is not alive where that is done. */
  method MissUse(available: seq<int>) returns (table: VarsTable)
    requires AreAvailable(available) && CONTEXT_REG !in available
    ensures !IsCovered(table.vars[..], SELF_INDEX, 1)
  {
    hide IsVars, AreNeverShared, AreRegistersUsed, AreAvailable, EncodeAll, AreInstructionsOk;
    var inst := SendWithStore(0, Nil, [], InstVar(0));
    StoreIsOk(inst);
    var bytes := Assemble([inst]);
    var ok;
    ghost var scanned, s;
    ok, table, scanned, s := ComputeRegsAlloc(bytes, 0, 0, available, [inst]);
    UseIsCovered(scanned, [inst], s, 0, 2, Named(SELF_INDEX, 1));
    BaseIsBig(scanned, 0, 2, 1);
    assert table.vars[..][SELF_INDEX] == s.vars[SELF_INDEX].(reg := table.vars[SELF_INDEX].reg);
  }

  lemma StoreIsOk(inst: Instruction)
    requires inst == SendWithStore(0, Nil, [], InstVar(0))
    ensures AreInstructionsOk([inst]) && IsInstructionBelow(inst, 2)
    ensures UsesOfCode([inst]) == {Named(SELF_INDEX, 1)} && !Returns([inst])
  {
    assert [inst][..0] == [];
    NoUses();
    assert UsesOfAll([], 0) == {};
  }
}

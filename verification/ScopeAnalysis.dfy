/**
 The analysis of a method (vm/Scope.c): each block gets a scope, each name that is used gets an address
 in the scope of the block that uses it, and each scope remembers an error.
 */
module ScopeAnalyses {
  import opened Collections
  import opened Scopes
  import opened Blocks
  import opened ScopeDefinitions
  import opened Visibility
  import opened AnalyzedBlocks

  datatype Result = Resolved | Unresolved | Overflow

  /** A level, or the number of a context slot, does not fit into its byte. */
  ghost predicate IsOverflowing(st: State) {
    BYTE_SIZE < |st.scopes| || IsSomeContextFull(st.scopes)
  }

  /** The context itself has the index that analyzeVar looks for. */
  predicate HasContextVar(st: State, s: nat) {
    && s < |st.scopes| && THIS_CONTEXT in st.scopes[s].vars
    && st.scopes[s].vars[THIS_CONTEXT].kind.ThisContext? && st.scopes[s].vars[THIS_CONTEXT].index == CONTEXT_INDEX
  }

  /** What a step of the analysis in scope `s` starts from and leaves. */
  ghost predicate IsInside(st: State, s: nat, env: Env) {
    Invariant(st) && s < |st.scopes| && AreVisible(st, s, env) && HasContextVar(st, s)
  }

  lemma InsideIsStable(st: State, st': State, s: nat, env: Env)
    requires IsInside(st, s, env) && Invariant(st') && Grows(st, st')
    ensures IsInside(st', s, env)
  {
    hide AreVisible, Invariant, IsLater;
    VisibleIsStable(st, st', s, env);
    VarsAreKept(st, st', s, THIS_CONTEXT);
    ContextVarIsFinal(st.scopes[s].vars[THIS_CONTEXT], st'.scopes[s].vars[THIS_CONTEXT]);
  }

  lemma InsideIsThere(st: State, s: nat, env: Env)
    requires IsInside(st, s, env)
    ensures s < |st.scopes|
  {
  }

  lemma ContextVarIsFinal(v: Variable, w: Variable)
    requires IsLater(v, w) && v.kind.ThisContext?
    ensures w == v
  {
  }

  lemma ContextOf(st: State, block: Block, s: nat, parent: int)
    requires IsScopeOf(st, block, s, parent)
    ensures HasContextVar(st, s)
  {
    assert OwnNames(block)[0] == THIS_CONTEXT;
    assert IsLater(OwnVariable(block, 0), st.scopes[s].vars[THIS_CONTEXT]);
  }

  /** Only the error of scope `s` may have changed, and scopes may have been added. */
  ghost predicate IsErrorOf(errors: seq<Error>, errors': seq<Error>, s: nat) {
    |errors| <= |errors'| && forall t :: 0 <= t < |errors| && t != s ==> errors'[t] == errors[t]
  }

  lemma GrowsAgain(a: State, b: State, c: State)
    requires Invariant(a) && Grows(a, b) && Grows(b, c)
    ensures Grows(a, c)
  {
    hide AreVariablesOk, AreScopesOk, AreOutersOk, Grows;
    GrowsTwice(a, b, c);
  }

  lemma GrowsInSize(a: State, b: State)
    requires Grows(a, b)
    ensures |a.scopes| <= |b.scopes|
  {
  }

  class ScopeAnalysis {
    var scopes: seq<Scope>
    /** The error of each scope. */
    var errors: seq<Error>
    ghost var declared: seq<set<string>>
    const instVars: seq<string>
    /** The names that a class variable, a global or a capital first letter resolves, and the literals for them. */
    const isGlobal: string -> bool
    const literal: string -> nat

    ghost function Now(): State
      reads this
    {
      State(scopes, declared, Outer(InstVarsOf(instVars), isGlobal, literal))
    }

    ghost predicate Valid()
      reads this
    {
      Invariant(Now()) && |errors| == |scopes|
    }

    constructor (instVars: seq<string>, isGlobal: string -> bool, literal: string -> nat)
      ensures Valid() && scopes == [] && this.instVars == instVars && this.isGlobal == isGlobal && this.literal == literal
    {
      this.instVars := instVars;
      this.isGlobal := isGlobal;
      this.literal := literal;
      scopes := [];
      errors := [];
      declared := [];
    }

    /** setupBlockMetasAsContexts, from `s` up to the scope that is `level` parents away. */
    method SetupBlockMetasAsContexts(s: nat, upTo: nat, ghost level: nat)
      requires Invariant(Now()) && s < |scopes| && 0 < level && Ancestor(scopes, s, level) == upTo
      modifies this`scopes
      ensures Invariant(Now()) && Grows(old(Now()), Now()) && HaveSameVars(old(Now()), Now()) && HaveContexts(Now(), s, level)
    {
      hide AreVariablesOk, AreScopesOk, AreOutersOk, Grows, Ancestor;
      ghost var st := Now();
      GrowsNot(st);
      SameVars(st);
      var t: int := s;
      ghost var j := 0;
      OnTheWay(st, s, level, 0);
      var more := true;
      while more
        invariant Invariant(Now()) && Grows(st, Now()) && HaveSameVars(st, Now())
        invariant j <= level && t == Ancestor(scopes, s, j) && 0 <= t < |scopes| && (more <==> j < level)
        invariant Ancestor(scopes, s, level) == upTo && (j > 0 ==> HaveContexts(Now(), s, j - 1))
        decreases level - j
      {
        ghost var before := Now();
        ContextKeepsInvariant(before, t);
        scopes := scopes[t := scopes[t].(hasContext := true)];
        GrowsTwice(st, before, Now());
        SameVarsTwice(st, before, Now());
        ContextsGrow(before, s, j);
        AncestorsAreSame(before, Now());
        OnTheWay(Now(), s, level, j);
        OnTheWay(Now(), s, level, j + 1);
        t := scopes[t].parent;
        j := j + 1;
        more := t != upTo;
      }
      ghost var before := Now();
      ContextKeepsInvariant(before, t);
      scopes := scopes[t := scopes[t].(hasContext := true)];
      GrowsTwice(st, before, Now());
      SameVarsTwice(st, before, Now());
      ContextsGrow(before, s, j);
    }

    /** The part of analyzeContextVar that gives a variable of scope `ctx` a context slot, if it needs one; false when there is none left. */
    method CaptureVar(ctx: nat, name: string) returns (ok: bool)
      requires Invariant(Now()) && ctx < |scopes| && name in scopes[ctx].vars
      modifies this`scopes
      ensures ok <==> !NeedsSlot(old(scopes[ctx].vars[name])) || old(scopes[ctx].contextSize) < BYTE_SIZE - 1
      ensures Invariant(Now()) && Grows(old(Now()), Now()) && HaveSameParents(old(Now()), Now())
      ensures name in scopes[ctx].vars && (ok ==> !NeedsSlot(scopes[ctx].vars[name])) && (!ok ==> scopes == old(scopes))
      ensures forall t :: 0 <= t < |scopes| ==> scopes[t].vars.Keys == old(scopes)[t].vars.Keys && (t != ctx ==> scopes[t] == old(scopes)[t])
      ensures ok ==> Now() == if NeedsSlot(old(scopes[ctx].vars[name])) then Capture(old(Now()), ctx, name) else old(Now())
    {
      hide Invariant, Grows;
      ok := true;
      GrowsNot(Now());
      var sc, v := scopes[ctx], scopes[ctx].vars[name];
      if NeedsSlot(v) {
        if sc.contextSize == BYTE_SIZE - 1 {
          return false;
        }
        SizeIsByte(Now(), ctx);
        CaptureKeepsInvariant(Now(), ctx, name);
        SlotOfCaptured(v, sc.contextSize);
        if v.kind.ArgVar? {
          v := SetCtxCopy(v, sc.contextSize);
        } else {
          v := v.(kind := ContextVar, index := sc.contextSize);
        }
        scopes := scopes[ctx := sc.(vars := sc.vars[name := v], contextSize := sc.contextSize + 1)];
      }
    }

    /** analyzeContextVar; `ok` is false when a byte of a descriptor would overflow. */
    method AnalyzeContextVar(s: nat, name: string) returns (ok: bool, found: bool)
      requires Invariant(Now()) && s < |scopes| && name !in scopes[s].vars
      modifies this`scopes
      ensures Invariant(Now()) && Grows(old(Now()), Now()) && HaveSameParents(old(Now()), Now())
      ensures ok && found ==> name in scopes[s].vars
      ensures ok && !found ==> Now() == old(Now()) && IsNotDeclared(Now(), s, name) && name !in Now().outer.instVars
      ensures !ok ==> BYTE_SIZE <= s || IsSomeContextFull(scopes)
    {
      hide AreVariablesOk, AreScopesOk, AreOutersOk, IsOuterOk, Grows, Ancestor, IsUnknownBelow, HasSlot, IsNotDeclared, NeedsSlot;
      ghost var st := Now();
      GrowsNot(st);
      VariablesAreKnown(st, s, name);
      var level := 1;
      var ctx := scopes[s].parent;
      FirstIsUnknown(st, s, name);
      while ctx != NO_PARENT
        invariant ctx == Ancestor(scopes, s, level) && 0 < level && Now() == st && IsUnknownBelow(st, s, name, level)
        invariant ctx == NO_PARENT || 0 <= ctx < s
        decreases ctx
      {
        if name in scopes[ctx].vars {
          SizeIsByte(st, ctx);
          ok := CaptureVar(ctx, name);
          if !ok {
            assert st.scopes[ctx].contextSize == BYTE_SIZE - 1;
            return ok, true;
          }
          ghost var captured := Now();
          UnknownIsStable(st, captured, s, name, level);
          var v := Seen(scopes[ctx].vars[name], level);
          LevelIsBelow(captured, s, name, level);
          if BYTE_SIZE <= v.level {
            return false, true;
          }
          SetupBlockMetasAsContexts(s, ctx, level);
          ghost var before := Now();
          GrowsTwice(st, captured, before);
          ParentsTwice(st, captured, before);
          UnknownIsStable(captured, before, s, name, level);
          FoundIsOk(before, s, name, level, v);
          CacheKeepsInvariant(before, s, name, v);
          scopes := scopes[s := scopes[s].(vars := scopes[s].vars[name := v])];
          GrowsTwice(st, before, Now());
          ParentsTwice(st, before, Now());
          return true, true;
        }
        NextIsUnknown(st, s, name, level);
        level := level + 1;
        ctx := scopes[ctx].parent;
      }
      NotFoundIsNotDeclared(st, s, name, level);
      return true, false;
    }

    /** The search of analyzeVar: in the scope, in those around it and among the globals. */
    method ResolveVar(s: nat, name: string) returns (result: Result)
      requires Invariant(Now()) && s < |scopes|
      modifies this`scopes
      ensures Invariant(Now()) && Grows(old(Now()), Now()) && HaveSameParents(old(Now()), Now())
      ensures result.Resolved? ==> name in scopes[s].vars
      ensures name in old(scopes[s].vars) && old(scopes[s].vars[name].index) == CONTEXT_INDEX ==> scopes[s].hasContext
      ensures result.Unresolved? ==> name !in scopes[s].vars && !isGlobal(name) && IsNotDeclared(Now(), s, name) && name !in Now().outer.instVars
      ensures result.Overflow? ==> BYTE_SIZE <= s || IsSomeContextFull(scopes)
    {
      hide AreVariablesOk, AreScopesOk, AreOutersOk, Grows, Ancestor, IsNotDeclared;
      GrowsNot(Now());
      if name in scopes[s].vars {
        if scopes[s].vars[name].index == CONTEXT_INDEX {
          ContextKeepsInvariant(Now(), s);
          scopes := scopes[s := scopes[s].(hasContext := true)];
        }
        return Resolved;
      }
      var ok, found := AnalyzeContextVar(s, name);
      if !ok {
        return Overflow;
      }
      if found {
        return Resolved;
      }
      if isGlobal(name) {
        var v := DefineVariable(Assoc, literal(name), 0);
        CacheKeepsInvariant(Now(), s, name, v);
        scopes := scopes[s := scopes[s].(vars := scopes[s].vars[name := v])];
        return Resolved;
      }
      return Unresolved;
    }

    /** analyzeVar: the name gets an address, or else the scope an error; false when a byte would overflow. */
    method AnalyzeVar(s: nat, name: string, ghost env: Env) returns (ok: bool)
      requires Valid() && IsInside(Now(), s, env)
      modifies this`scopes, this`errors
      ensures Valid() && IsInside(Now(), s, env) && Grows(old(Now()), Now()) && |scopes| == |old(scopes)|
      ensures ok ==> if IsKnown(name, env) then errors == old(errors) && HasAddress(Now(), s, name)
                     else errors == old(errors)[s := Undefined] && name !in scopes[s].vars
      ensures !ok ==> IsOverflowing(Now()) && errors == old(errors)
    {
      hide Invariant, AreVisible, Grows, HaveSameParents, HasCtxCopy, IsNotDeclared;
      ghost var before := Now();
      var result := ResolveVar(s, name);
      SameSize(before, Now());
      InsideIsStable(before, Now(), s, env);
      ok := !result.Overflow?;
      if result.Resolved? {
        ResolvedIsKnown(Now(), s, name, env);
      } else if result.Unresolved? {
        UnresolvedIsUnknown(Now(), s, name, env);
        errors := errors[s := Undefined];
      }
    }

    /** analyzeAssigment. */
    method AnalyzeTarget(s: nat, t: Target, ghost env: Env) returns (ok: bool)
      requires Valid() && IsInside(Now(), s, env)
      modifies this`scopes, this`errors
      ensures Valid() && IsInside(Now(), s, env) && Grows(old(Now()), Now()) && |scopes| == |old(scopes)|
      ensures ok ==> if Fails(t, env) then errors == old(errors)[s := errors[s]] && errors[s] != NoError && IsFlawOf(t, env, errors[s])
                     else errors == old(errors) && t.Assignable? && HasAddress(Now(), s, t.name)
      ensures !ok ==> IsOverflowing(Now()) && errors == old(errors)
    {
      hide Invariant, AreVisible, Grows, HasCtxCopy, HasContextVar;
      GrowsNot(Now());
      match t {
        case NotAssignable =>
          errors := errors[s := Readonly];
          ok := true;
        case Assignable(name) =>
          ok := AnalyzeVar(s, name, env);
          if ok && name in scopes[s].vars {
            LooksAreRight(Now(), s, name, env);
            var v := scopes[s].vars[name];
            if v.kind.ArgVar? || v.kind.Super? || HasCtxCopy(v) {
              errors := errors[s := Readonly];
            }
          }
      }
    }

    /** analyzeAssigments: stops at the first error, or after the first target when there was one before. */
    method AnalyzeTargets(s: nat, targets: seq<Target>, ghost env: Env) returns (ok: bool)
      requires Valid() && IsInside(Now(), s, env)
      modifies this`scopes, this`errors
      ensures Valid() && IsInside(Now(), s, env) && Grows(old(Now()), Now()) && |scopes| == |old(scopes)|
      ensures errors == old(errors)[s := errors[s]]
      ensures ok ==> IsTargetsResult(targets, env, old(errors[s]), Now(), s, errors[s])
      ensures !ok ==> IsOverflowing(Now())
    {
      hide Invariant, IsInside, Grows, SomeFails, AreTargetsFound, HasAddress, IsFlawOf;
      InsideIsThere(Now(), s, env);
      ghost var st, pending := Now(), errors[s];
      GrowsNot(st);
      NoTargets(st, s, targets, env);
      ok := true;
      var i := 0;
      while i < |targets|
        invariant i <= |targets| && Valid() && IsInside(Now(), s, env) && Grows(st, Now()) && |scopes| == |old(scopes)| && errors == old(errors)
        invariant i > 0 ==> pending == NoError
        invariant !SomeFails(targets[..i], env) && AreTargetsFound(Now(), s, targets[..i], env)
      {
        ghost var before := Now();
        ok := AnalyzeTarget(s, targets[i], env);
        GrowsAgain(st, before, Now());
        if !ok {
          return;
        }
        TargetsAreStable(before, Now(), s, targets[..i], env);
        OneMoreTarget(targets, i, env);
        OneMoreIsFound(Now(), s, targets, i, env);
        if errors[s] != NoError {
          if SomeFails(targets[..i + 1], env) {
            RestIsNotFound(Now(), s, targets, i + 1, env);
          }
          return;
        }
        i := i + 1;
      }
      assert targets[..|targets|] == targets;
    }

    /** createBlockScope and analyzeDefinitions. */
    method CreateScope(parent: int, block: Block, instVars: map<string, Variable>, ghost env: Env) returns (s: nat)
      requires Valid() && NO_PARENT <= parent < |scopes| && AreVisible(Now(), parent, env)
      requires if parent == NO_PARENT then AreInstVarsOf(instVars, Now().outer.instVars) else instVars == map[]
      modifies this
      ensures Valid() && Grows(old(Now()), Now()) && s == |old(scopes)| && |scopes| == s + 1
      ensures declared == old(declared) + [SetOf(OwnNames(block))]
      ensures errors == old(errors) + [if HasNoDuplicates(OwnNames(block)) then NoError else Redefined]
      ensures errors[s] == NoError ==> IsScopeOf(Now(), block, s, parent) && IsInside(Now(), s, Inside(env, block))
    {
      hide AreVariablesOk, AreScopesOk, AreOutersOk, Grows, Ancestor, IsNotDeclared, AreVisible, AreOwn, HasNoDuplicates, Inside;
      ghost var st := Now();
      var ok, vars, argsSize := AnalyzeDefinitions(block, instVars);
      s := |scopes|;
      var sc := Scope(parent, vars, false, argsSize, 0);
      NewScopeKeepsInvariant(st, sc, OwnNames(block), instVars);
      scopes := scopes + [sc];
      declared := declared + [SetOf(OwnNames(block))];
      errors := errors + [if ok then NoError else Redefined];
      VisibleInGrown(st, Now(), parent, env);
      if ok {
        VisibleInside(Now(), s, env, block);
        ContextOf(Now(), block, s, parent);
      }
    }

    /** analyzeBlock, on a scope of its own. */
    method AnalyzeBlock(parent: int, block: Block, instVars: map<string, Variable>, ghost env: Env) returns (ok: bool, s: nat)
      requires Valid() && NO_PARENT <= parent < |scopes| && AreVisible(Now(), parent, env)
      requires if parent == NO_PARENT then AreInstVarsOf(instVars, Now().outer.instVars) else instVars == map[]
      modifies this
      ensures Valid() && Grows(old(Now()), Now()) && s == |old(scopes)| < |scopes| && errors[..s] == old(errors)
      ensures IsBounded(old(Now()), Now(), ScopesOf(block), BlockIsSmall(block))
      ensures ok ==> IsBlockResult(block, env, Now(), s, parent, errors[s])
      ensures !ok ==> IsOverflowing(Now())
      decreases block, 0
    {
      hide Invariant, IsInside, Grows, AreVisible, IsScopeOf, Inside, HasNoDuplicates, IsBlockResult, AreAnalyzed, IsRejected, ExpressionHasFlaw, IsExpressionAnalyzed, ScopesOfBody, BlockIsSmall, ExpressionIsSmall, AreFew, IsOverflowing;
      ghost var st, inside := Now(), Inside(env, block);
      s := CreateScope(parent, block, instVars, env);
      ok := true;
      FewMore(st.declared, block);
      if errors[s] != NoError {
        NamesAreRedefined(block, env, Now(), s, parent);
        return;
      }
      NoStatement(Now(), block.body, s, inside);
      var i := 0;
      while i < |block.body|
        invariant i <= |block.body| && Valid() && IsInside(Now(), s, inside) && Grows(st, Now())
        invariant s < |scopes| == s + 1 + ScopesOfBody(block.body[..i]) && errors[..s] == old(errors) && errors[s] == NoError
        invariant IsScopeOf(Now(), block, s, parent) && AreAnalyzed(Now(), block.body[..i], s, inside)
        invariant AreFew(st.declared) && BlockIsSmall(block) ==> AreFew(declared)
        invariant forall j :: 0 <= j < i ==> !IsRejected(block.body[j], inside)
      {
        ghost var before, next := Now(), |scopes|;
        ok := AnalyzeExpression(s, block.body[i], inside);
        GrowsAgain(st, before, Now());
        ScopesOfPart(block.body, i);
        ScopesOfPart(block.body, i + 1);
        SmallStatement(block, i);
        GrowsInSize(before, Now());
        if !ok {
          return;
        }
        StatementResult(block.body[i], inside, Now(), s, next, errors[s]);
        if errors[s] != NoError {
          StatementFails(block, i, env, Now(), s, parent, errors[s]);
          return;
        }
        ScopeIsStable(before, Now(), block, s, parent);
        OneMoreStatement(before, Now(), block.body, i, s, inside);
        i := i + 1;
      }
      ScopesOfPart(block.body, i);
      AllStatements(block, env, Now(), s, parent);
    }

    /** analyzeExpression; the scope may have an error before, from the assignments of an expression around this one. */
    method AnalyzeExpression(s: nat, e: Expression, ghost env: Env) returns (ok: bool)
      requires Valid() && IsInside(Now(), s, env)
      modifies this
      ensures Valid() && IsInside(Now(), s, env) && Grows(old(Now()), Now()) && IsErrorOf(old(errors), errors, s)
      ensures IsBounded(old(Now()), Now(), ScopesOfExpression(e), ExpressionIsSmall(e))
      ensures ok ==> IsExpressionResult(e, env, old(errors[s]), Now(), s, |old(scopes)|, errors[s])
      ensures !ok ==> IsOverflowing(Now())
      decreases e, 1
    {
      hide Invariant, Grows, AreVisible, IsInside, IsTargetsResult, IsLiteralResult, IsExpressionResult, IsArgsResult, ReceiverFails, SomeFails, AreTargetsFound, IsReceiverAnalyzed, LiteralIsSmall, AreFew, IsOverflowing;
      InsideIsThere(Now(), s, env);
      ghost var st, pending, next := Now(), errors[s], |scopes|;
      ok := AnalyzeTargets(s, e.targets, env);
      SameDeclared(st, Now());
      if !ok {
        return;
      }
      ghost var st1, between := Now(), errors[s];
      ok := AnalyzeLiteral(s, e.receiver, env);
      GrowsAgain(st, st1, Now());
      if !ok {
        return;
      }
      ghost var st2 := Now();
      ReceiverIsDone(e, env, pending, st1, between, st2, s, next, errors[s]);
      if errors[s] != NoError {
        return;
      }
      LiteralIsDone(e.receiver, env, between, st2, s, next);
      ok := AnalyzeArgs(s, e.args, env);
      GrowsAgain(st, st2, Now());
      if !ok {
        return;
      }
      ExpressionIsDone(e, env, pending, st2, Now(), s, next, errors[s]);
    }

    /** analyzeMessageExpression, for the arguments of all messages. */
    method AnalyzeArgs(s: nat, args: seq<Literal>, ghost env: Env) returns (ok: bool)
      requires Valid() && IsInside(Now(), s, env) && s < |errors| && errors[s] == NoError
      modifies this
      ensures Valid() && IsInside(Now(), s, env) && Grows(old(Now()), Now()) && IsErrorOf(old(errors), errors, s)
      ensures IsBounded(old(Now()), Now(), ScopesOfAll(args), forall i :: 0 <= i < |args| ==> LiteralIsSmall(args[i]))
      ensures ok ==> IsArgsResult(args, env, Now(), s, |old(scopes)|, errors[s])
      ensures !ok ==> IsOverflowing(Now())
      decreases args, 0
    {
      hide Invariant, Grows, AreVisible, IsInside, IsLiteralResult, IsArgsResult, LiteralFails, LiteralHasFlaw, AreArgsAnalyzed, IsLiteralAnalyzed, LiteralIsSmall, ScopesOfAll, AreFew, IsOverflowing;
      ghost var st, next := Now(), |scopes|;
      GrowsNot(st);
      NoArgument(st, args, s, next, env);
      ok := true;
      var i := 0;
      while i < |args|
        invariant i <= |args| && ok && Valid() && IsInside(Now(), s, env) && Grows(st, Now()) && IsErrorOf(old(errors), errors, s)
        invariant |scopes| == next + ScopesOfAll(args[..i]) && errors[s] == NoError && AreArgsAnalyzed(Now(), args[..i], s, next, env)
        invariant AreFew(st.declared) && (forall j :: 0 <= j < i ==> LiteralIsSmall(args[j])) ==> AreFew(declared)
        invariant forall j :: 0 <= j < i ==> !LiteralFails(args[j], env)
      {
        ghost var before, next' := Now(), |scopes|;
        ok := AnalyzeLiteral(s, args[i], env);
        GrowsAgain(st, before, Now());
        ScopesOfSome(args, i);
        ScopesOfSome(args, i + 1);
        if !ok {
          return;
        }
        ArgumentResult(args[i], env, Now(), s, next', errors[s]);
        if errors[s] != NoError {
          ArgumentFails(args, i, env, Now(), s, next, errors[s]);
          return;
        }
        OneMoreArgument(before, Now(), args, i, s, next, env);
        i := i + 1;
      }
      ScopesOfSome(args, i);
      AllArguments(args, env, Now(), s, next);
    }

    /** analyzeLiteral: the error of a nested block replaces that of the scope, also when there is none. */
    method AnalyzeLiteral(s: nat, lit: Literal, ghost env: Env) returns (ok: bool)
      requires Valid() && IsInside(Now(), s, env)
      modifies this
      ensures Valid() && IsInside(Now(), s, env) && Grows(old(Now()), Now()) && IsErrorOf(old(errors), errors, s)
      ensures IsBounded(old(Now()), Now(), ScopesOfLiteral(lit), LiteralIsSmall(lit))
      ensures ok ==> IsLiteralResult(lit, env, old(errors[s]), Now(), s, |old(scopes)|, errors[s])
      ensures !ok ==> IsOverflowing(Now())
      decreases lit, 0
    {
      hide Invariant, Grows, AreVisible, HasContextVar, HasError, PartsFail, ExpressionHasFlaw, BlockHasFlaw, ArePartsAnalyzed, IsAnalyzed, HasAddress, AreFew, ExpressionIsSmall, BlockIsSmall, IsOverflowing;
      ghost var st, pending, next := Now(), errors[s], |scopes|;
      match lit {
        case Name(name) =>
          ok := AnalyzeVar(s, name, env);
          SameDeclared(st, Now());
          NoTargets(Now(), s, [], env);
        case Parenthesized(e) =>
          ok := AnalyzeExpression(s, e, env);
        case Nested(block) =>
          var child;
          ok, child := AnalyzeBlock(s, block, map[], env);
          InsideIsStable(st, Now(), s, env);
          ghost var before := errors;
          errors := errors[s := errors[child]];
          assert forall t :: 0 <= t < next ==> before[t] == before[..next][t];
          NoTargets(Now(), s, [], env);
        case Constant =>
          ok := true;
          GrowsNot(st);
          NoTargets(st, s, [], env);
      }
    }

    /** analyzeInstanceVars. */
    method AnalyzeInstanceVars(names: seq<string>) returns (vars: map<string, Variable>)
      ensures AreInstVarsOf(vars, InstVarsOf(names))
    {
      vars := map[];
      var i := 0;
      while i < |names|
        invariant i <= |names| && AreInstVarsOf(vars, InstVarsOf(names[..i]))
      {
        assert names[..i + 1][..i] == names[..i];
        vars := vars[names[i] := DefineVariable(InstVar, i, 0)];
        i := i + 1;
      }
      assert names[..i] == names;
    }

    /**
     analyzeMethod, on a fresh analysis.  It ends without an error exactly for the methods that the
     definition of HasError accepts, and then every use has an address in the scope of its block.  Only
     methods with more than 256 blocks or a block of 255 names can make a byte overflow.
     */
    method AnalyzeMethod(body: Block, ghost env: Env) returns (ok: bool)
      requires Valid() && scopes == [] && env == Env(SetOf(instVars), {}, isGlobal)
      modifies this
      ensures Valid() && scopes != []
      ensures ok ==> IsBlockResult(body, env, Now(), 0, NO_PARENT, errors[0])
      ensures ScopesOf(body) <= BYTE_SIZE && BlockIsSmall(body) ==> ok
    {
      hide Invariant, Grows, AreVisible, IsBlockResult, BlockIsSmall, ScopesOf;
      var vars := AnalyzeInstanceVars(instVars);
      InstVarNames(instVars);
      NothingIsVisible(Now(), env);
      ghost var st := Now();
      TreeOf(st);
      var root;
      ok, root := AnalyzeBlock(NO_PARENT, body, vars, env);
      if ScopesOf(body) <= BYTE_SIZE && BlockIsSmall(body) {
        SmallIsNoOverflow(st, Now(), body);
      }
    }
  }

  lemma SmallIsNoOverflow(st: State, st': State, body: Block)
    requires st.scopes == [] && st.declared == [] && IsBounded(st, st', ScopesOf(body), BlockIsSmall(body)) && Invariant(st')
    requires ScopesOf(body) <= BYTE_SIZE && BlockIsSmall(body)
    ensures !IsOverflowing(st')
  {
    hide Invariant, BlockIsSmall, ScopesOf;
    FewNeverFill(st');
  }

  lemma SameSize(st: State, st': State)
    requires HaveSameParents(st, st')
    ensures |st'.scopes| == |st.scopes| && st'.declared == st.declared
  {
  }

  lemma SameDeclared(st: State, st': State)
    requires Invariant(st) && Invariant(st') && Grows(st, st') && |st'.scopes| == |st.scopes|
    ensures st'.declared == st.declared
  {
    hide AreVariablesOk, AreScopesOk, AreOutersOk;
  }

  lemma NoTargets(st: State, s: nat, targets: seq<Target>, env: Env)
    ensures targets[..0] == [] && !SomeFails([], env) && AreTargetsFound(st, s, [], env)
  {
  }

  lemma LiteralIsDone(lit: Literal, env: Env, pending: Error, st: State, s: nat, next: nat)
    requires IsLiteralResult(lit, env, pending, st, s, next, NoError)
    ensures |st.scopes| == next + ScopesOfLiteral(lit) && IsReceiverAnalyzed(st, lit, s, next, env)
  {
  }

  lemma FewMore(declared: seq<set<string>>, block: Block)
    ensures BlockIsSmall(block) && AreFew(declared) ==> AreFew(declared + [SetOf(OwnNames(block))])
  {
    SetIsNotLarger(OwnNames(block));
  }

  lemma SmallStatement(block: Block, i: nat)
    requires i < |block.body|
    ensures BlockIsSmall(block) ==> ExpressionIsSmall(block.body[i])
  {
  }

  lemma VisibleInGrown(st: State, st': State, parent: int, env: Env)
    requires Invariant(st) && Grows(st, st') && parent < |st.scopes| && AreVisible(st, parent, env)
    ensures AreVisible(st', parent, env)
  {
    hide Invariant, Grows, AreVisible;
    VisibleIsStable(st, st', parent, env);
  }

  lemma UnresolvedIsUnknown(st: State, s: nat, name: string, env: Env)
    requires AreVisible(st, s, env) && IsNotDeclared(st, s, name) && name !in st.outer.instVars && !st.outer.isGlobal(name)
    ensures !IsKnown(name, env)
  {
    hide IsNotDeclared, IsFixed;
  }

  lemma {:induction false} InstVarNames(names: seq<string>)
    ensures InstVarsOf(names).Keys == SetOf(names)
  {
    if names != [] {
      InstVarNames(names[..|names| - 1]);
      assert names == names[..|names| - 1] + [names[|names| - 1]];
    }
  }

  lemma NothingIsVisible(st: State, env: Env)
    requires env == Env(st.outer.instVars.Keys, {}, st.outer.isGlobal)
    ensures AreVisible(st, NO_PARENT, env)
  {
    assert forall name :: IsNotDeclared(st, NO_PARENT, name);
  }

  // ---------- An error that is lost ----------

  /** `x := [ ]` with a name that nobody declares. */
  const LOST := Block([], [], [Expression([Assignable("x")], Nested(Block([], [], [])), [])])

  /** The method is accepted, and the name that is assigned to has no address. */
  method LoseError() returns (analysis: ScopeAnalysis, ok: bool)
    ensures ok && analysis.scopes != [] && |analysis.errors| == |analysis.scopes| && analysis.errors[0] == NoError
    ensures "x" !in analysis.scopes[0].vars
  {
    hide Invariant, IsBlockResult, HasError, BlockIsSmall;
    analysis := new ScopeAnalysis([], _ => false, _ => 0);
    ghost var env := Env(SetOf([]), {}, analysis.isGlobal);
    LostIsSmall();
    LostIsAccepted(env);
    ok := analysis.AnalyzeMethod(LOST, env);
    LostHasNoAddress(analysis.Now(), env, analysis.errors[0]);
  }

  lemma LostIsSmall()
    ensures ScopesOf(LOST) <= BYTE_SIZE && BlockIsSmall(LOST)
  {
  }

  lemma LostIsAccepted(env: Env)
    requires env.known == {} && forall name :: !env.isGlobal(name)
    ensures !HasError(LOST, env) && BlockHasFlaw(LOST, env, Undefined)
  {
    var e, env' := LOST.body[0], Inside(env, LOST);
    assert OwnNames(LOST) == [THIS_CONTEXT, SUPER, SELF] && "x" !in OwnNames(LOST);
    assert IsFlawOf(e.targets[0], env', Undefined);
    assert ExpressionHasFlaw(e, env', Undefined);
  }

  lemma LostHasNoAddress(st: State, env: Env, error: Error)
    requires Invariant(st) && IsBlockResult(LOST, env, st, 0, NO_PARENT, error) && !HasError(LOST, env)
    requires env == Env({}, {}, st.outer.isGlobal) && st.outer.instVars == map[] && forall name :: !env.isGlobal(name)
    ensures error == NoError && st.scopes != [] && "x" !in st.scopes[0].vars
  {
    hide Invariant, HasError, BlockHasFlaw, AreOwn, AreAnalyzed, HasNoDuplicates;
    assert OwnNames(LOST) == [THIS_CONTEXT, SUPER, SELF] && "x" !in OwnNames(LOST);
    if "x" in st.scopes[0].vars {
      RootDeclaresNothing(st, 0, "x");
      NotDeclaredIsOuter(st, 0, "x");
      OuterIsEmpty(st.outer, "x", st.scopes[0].vars["x"]);
      assert false;
    }
  }

  lemma OuterIsEmpty(outer: Outer, name: string, v: Variable)
    requires outer.instVars == map[] && !outer.isGlobal(name)
    ensures IsOuterOk(outer, name, v) ==> !v.kind.InstVar? && !v.kind.Assoc?
  {
  }
}

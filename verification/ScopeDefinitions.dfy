/** The variables that a block declares, and the scope that is made for it (createBlockScope, analyzeDefinitions and analyzeInstanceVars in vm/Scope.c). */
module ScopeDefinitions {
  import opened Collections
  import opened Scopes
  import opened Blocks

  ghost predicate AreInstVars(vars: map<string, Variable>) {
    forall name :: name in vars ==> vars[name].kind.InstVar? && vars[name].level == 0
  }

  /** Instance variables are numbered in their order; of two with the same name the later one counts. */
  function InstVarsOf(names: seq<string>): map<string, nat> {
    if names == [] then map[] else InstVarsOf(names[..|names| - 1])[names[|names| - 1] := (|names| - 1) % BYTE_SIZE]
  }

  ghost predicate AreInstVarsOf(vars: map<string, Variable>, numbers: map<string, nat>) {
    vars.Keys == numbers.Keys && forall name :: name in vars ==> vars[name] == Variable(InstVar, numbers[name], 0, 0)
  }

  /** The descriptor that the name number `i` of a block starts with. */
  function OwnVariable(block: Block, i: nat): Variable {
    if i == 0 then Variable(ThisContext, 0, 0, 0)
    else if i == 1 then Variable(Super, 1, 0, 0)
    else if i < 3 + |block.args| then Variable(ArgVar, (i - 1) % BYTE_SIZE, 0, 0)
    else Variable(TempVar, (i - 1) % BYTE_SIZE, 0, 0)
  }

  predicate AreOwn(block: Block, vars: map<string, Variable>) {
    forall i :: 0 <= i < |OwnNames(block)| ==> OwnNames(block)[i] in vars && IsLater(OwnVariable(block, i), vars[OwnNames(block)[i]])
  }

  // ---------- Definitions ----------

  /** The variables of a scope when `names` are declared, all of them free of context slots, and what was there before. */
  ghost predicate AreDefined(names: seq<string>, before: map<string, Variable>, vars: map<string, Variable>) {
    && (forall x :: x in vars <==> x in names || x in before)
    && (forall x :: x in names && x in vars ==> IsFresh(x, vars[x]))
    && (forall x :: x in before && x !in names && x in vars ==> vars[x] == before[x])
  }

  predicate IsFresh(name: string, v: Variable) {
    && v.level == 0 && v.ctxCopy == 0
    && (v.kind.TempVar? || v.kind.ArgVar? || (v.kind.ThisContext? && name == THIS_CONTEXT) || (v.kind.Super? && name == SUPER))
  }

  lemma OneMoreIsDefined(names: seq<string>, before: map<string, Variable>, vars: map<string, Variable>, name: string, v: Variable)
    requires AreDefined(names, before, vars) && IsFresh(name, v)
    ensures AreDefined(names + [name], before, vars[name := v])
  {
    hide IsFresh;
  }

  /** isDuplicateVariable. */
  predicate IsDuplicate(vars: map<string, Variable>, name: string) {
    name in vars && (vars[name].kind.ThisContext? || vars[name].kind.TempVar? || vars[name].kind.ArgVar? || vars[name].kind.Super? || vars[name].kind.ContextVar?)
  }

  lemma DuplicateIsDeclared(names: seq<string>, before: map<string, Variable>, vars: map<string, Variable>, name: string)
    requires AreDefined(names, before, vars) && AreInstVars(before)
    ensures IsDuplicate(vars, name) <==> name in names
  {
  }

  lemma OneMoreIsDistinct(names: seq<string>, name: string)
    ensures HasNoDuplicates(names + [name]) <==> HasNoDuplicates(names) && name !in names
  {
    var all := names + [name];
    assert all[|names|] == name && forall i :: 0 <= i < |names| ==> all[i] == names[i];
    if HasNoDuplicates(all) {
      assert forall i :: 0 <= i < |names| ==> names[i] != name;
      assert HasNoDuplicates(names);
    }
    if HasNoDuplicates(names) && name !in names {
      forall i, j | 0 <= i < j < |all|
        ensures all[i] != all[j]
      {
        assert all[i] == names[i] && names[i] in names;
      }
    }
  }

  /** What the loop adds: consecutive numbers for names that are not given twice. */
  ghost predicate AreNumbered(vars: map<string, Variable>, vars': map<string, Variable>, names: seq<string>, kind: Kind, start: nat) {
    && (forall x :: x in vars && x !in names ==> x in vars' && vars'[x] == vars[x])
    && (HasNoDuplicates(names) ==> forall i :: 0 <= i < |names| ==> names[i] in vars' && vars'[names[i]] == Variable(kind, (start + i) % BYTE_SIZE, 0, 0))
  }

  lemma NoneIsNumbered(vars: map<string, Variable>, kind: Kind, start: nat)
    ensures AreNumbered(vars, vars, [], kind, start)
  {
  }

  lemma OneMoreIsNumbered(vars: map<string, Variable>, vars': map<string, Variable>, names: seq<string>, i: nat, kind: Kind, start: nat)
    requires i < |names| && AreNumbered(vars, vars', names[..i], kind, start)
    ensures AreNumbered(vars, vars'[names[i] := DefineVariable(kind, start + i, 0)], names[..i + 1], kind, start)
  {
    assert names[..i + 1] == names[..i] + [names[i]];
    OneMoreIsDistinct(names[..i], names[i]);
  }

  /** The loop over the arguments or temporaries of a block. */
  method DefineAll(vars: map<string, Variable>, names: seq<string>, kind: Kind, start: nat, ghost before: map<string, Variable>, ghost declared: seq<string>)
    returns (ok: bool, vars': map<string, Variable>)
    requires AreDefined(declared, before, vars) && AreInstVars(before) && (kind.ArgVar? || kind.TempVar?)
    ensures AreDefined(declared + names, before, vars')
    ensures HasNoDuplicates(declared) ==> (ok <==> HasNoDuplicates(declared + names))
    ensures AreNumbered(vars, vars', names, kind, start)
  {
    hide AreDefined, IsDuplicate, HasNoDuplicates, AreNumbered;
    ok, vars' := true, vars;
    var i := 0;
    assert declared + names[..0] == declared;
    NoneIsNumbered(vars, kind, start);
    while i < |names|
      invariant i <= |names| && AreDefined(declared + names[..i], before, vars')
      invariant HasNoDuplicates(declared) ==> (ok <==> HasNoDuplicates(declared + names[..i]))
      invariant AreNumbered(vars, vars', names[..i], kind, start)
    {
      DuplicateIsDeclared(declared + names[..i], before, vars', names[i]);
      OneMoreIsDistinct(declared + names[..i], names[i]);
      OneMoreIsDefined(declared + names[..i], before, vars', names[i], DefineVariable(kind, start + i, 0));
      assert declared + names[..i + 1] == declared + names[..i] + [names[i]];
      OneMoreIsNumbered(vars, vars', names, i, kind, start);
      if IsDuplicate(vars', names[i]) {
        ok := false;
      }
      vars' := vars'[names[i] := DefineVariable(kind, start + i, 0)];
      i := i + 1;
    }
    assert names[..i] == names;
  }

  /** analyzeDefinitions: the pseudo-variables, then arguments, then temporaries. */
  method AnalyzeDefinitions(block: Block, instVars: map<string, Variable>) returns (ok: bool, vars: map<string, Variable>, argsSize: nat)
    requires AreInstVars(instVars)
    ensures AreDefined(OwnNames(block), instVars, vars) && argsSize == |block.args|
    ensures ok <==> HasNoDuplicates(OwnNames(block))
    ensures ok ==> AreOwn(block, vars)
  {
    hide HasNoDuplicates, AreNumbered, AreOwn;
    vars := instVars[THIS_CONTEXT := DefineVariable(ThisContext, 0, 0)];
    vars := vars[SUPER := DefineVariable(Super, 1, 0)];
    vars := vars[SELF := DefineVariable(ArgVar, 1, 0)];
    ghost var pseudo := [THIS_CONTEXT, SUPER, SELF];
    PseudoVariables(instVars, vars);
    var argsOk, tempsOk;
    ghost var vars0 := vars;
    argsOk, vars := DefineAll(vars, block.args, ArgVar, 2, instVars, pseudo);
    argsSize := |block.args|;
    ghost var vars1 := vars;
    tempsOk, vars := DefineAll(vars, block.temps, TempVar, 2 + argsSize, instVars, pseudo + block.args);
    PrefixIsDistinct(pseudo + block.args, block.temps);
    ok := argsOk && tempsOk;
    if ok {
      AllAreOwn(block, instVars, vars0, vars1, vars);
    }
  }

  lemma AllAreOwn(block: Block, before: map<string, Variable>, vars0: map<string, Variable>, vars1: map<string, Variable>, vars: map<string, Variable>)
    requires vars0 == before[THIS_CONTEXT := DefineVariable(ThisContext, 0, 0)][SUPER := DefineVariable(Super, 1, 0)][SELF := DefineVariable(ArgVar, 1, 0)]
    requires AreNumbered(vars0, vars1, block.args, ArgVar, 2) && AreNumbered(vars1, vars, block.temps, TempVar, 2 + |block.args|)
    requires HasNoDuplicates(OwnNames(block))
    ensures AreOwn(block, vars)
  {
    hide AreNumbered, IsLater;
    NothingIsLater();
    forall i | 0 <= i < |OwnNames(block)|
      ensures OwnNames(block)[i] in vars && vars[OwnNames(block)[i]] == OwnVariable(block, i)
    {
      if i < 3 {
        PseudoIsOwn(block, before, vars0, vars1, vars, i);
      } else if i < 3 + |block.args| {
        ArgIsOwn(block, vars0, vars1, vars, i - 3);
      } else {
        TempIsOwn(block, vars1, vars, i - 3 - |block.args|);
      }
    }
  }

  lemma NamesAreDistinct(block: Block)
    requires HasNoDuplicates(OwnNames(block))
    ensures HasNoDuplicates(block.args) && HasNoDuplicates(block.temps)
    ensures forall i :: 0 <= i < 3 ==> OwnNames(block)[i] !in block.args && OwnNames(block)[i] !in block.temps
    ensures forall i :: 0 <= i < |block.args| ==> OwnNames(block)[3 + i] == block.args[i] && block.args[i] !in block.temps
    ensures forall i :: 0 <= i < |block.temps| ==> OwnNames(block)[3 + |block.args| + i] == block.temps[i]
  {
    var names, n := OwnNames(block), |block.args|;
    assert forall i :: 0 <= i < n ==> names[3 + i] == block.args[i];
    assert forall i :: 0 <= i < |block.temps| ==> names[3 + n + i] == block.temps[i];
  }

  lemma PseudoIsOwn(block: Block, before: map<string, Variable>, vars0: map<string, Variable>, vars1: map<string, Variable>, vars: map<string, Variable>, i: nat)
    requires vars0 == before[THIS_CONTEXT := DefineVariable(ThisContext, 0, 0)][SUPER := DefineVariable(Super, 1, 0)][SELF := DefineVariable(ArgVar, 1, 0)]
    requires AreNumbered(vars0, vars1, block.args, ArgVar, 2) && AreNumbered(vars1, vars, block.temps, TempVar, 2 + |block.args|)
    requires HasNoDuplicates(OwnNames(block)) && i < 3
    ensures OwnNames(block)[i] in vars && vars[OwnNames(block)[i]] == OwnVariable(block, i)
  {
    hide HasNoDuplicates;
    NamesAreDistinct(block);
    PseudoVariables(before, vars0);
  }

  lemma ArgIsOwn(block: Block, vars0: map<string, Variable>, vars1: map<string, Variable>, vars: map<string, Variable>, i: nat)
    requires AreNumbered(vars0, vars1, block.args, ArgVar, 2) && AreNumbered(vars1, vars, block.temps, TempVar, 2 + |block.args|)
    requires HasNoDuplicates(OwnNames(block)) && i < |block.args|
    ensures OwnNames(block)[3 + i] in vars && vars[OwnNames(block)[3 + i]] == OwnVariable(block, 3 + i)
  {
    hide HasNoDuplicates, DefineVariable;
    NamesAreDistinct(block);
    assert OwnNames(block)[3 + i] == block.args[i] && block.args[i] !in block.temps;
    assert vars1[block.args[i]] == Variable(ArgVar, (2 + i) % BYTE_SIZE, 0, 0);
  }

  lemma TempIsOwn(block: Block, vars1: map<string, Variable>, vars: map<string, Variable>, i: nat)
    requires AreNumbered(vars1, vars, block.temps, TempVar, 2 + |block.args|)
    requires HasNoDuplicates(OwnNames(block)) && i < |block.temps|
    ensures var k := 3 + |block.args| + i;
            OwnNames(block)[k] in vars && vars[OwnNames(block)[k]] == OwnVariable(block, k)
  {
    hide HasNoDuplicates, DefineVariable;
    NamesAreDistinct(block);
    assert OwnNames(block)[3 + |block.args| + i] == block.temps[i];
    assert vars[block.temps[i]] == Variable(TempVar, (2 + |block.args| + i) % BYTE_SIZE, 0, 0);
  }

  lemma PseudoVariables(before: map<string, Variable>, vars: map<string, Variable>)
    requires vars == before[THIS_CONTEXT := DefineVariable(ThisContext, 0, 0)][SUPER := DefineVariable(Super, 1, 0)][SELF := DefineVariable(ArgVar, 1, 0)]
    ensures AreDefined([THIS_CONTEXT, SUPER, SELF], before, vars) && HasNoDuplicates([THIS_CONTEXT, SUPER, SELF])
  {
    assert THIS_CONTEXT[0] == 't' && SUPER[1] == 'u' && SELF[1] == 'e';
    assert THIS_CONTEXT != SUPER && THIS_CONTEXT != SELF && SUPER != SELF;
  }

  lemma PrefixIsDistinct(a: seq<string>, b: seq<string>)
    ensures HasNoDuplicates(a + b) ==> HasNoDuplicates(a)
  {
    assert forall i :: 0 <= i < |a| ==> (a + b)[i] == a[i];
  }

  // A new scope.

  lemma {:induction false} AncestorWithMore(st: State, scopes': seq<Scope>, s: int, level: nat)
    requires IsTree(st) && st.scopes <= scopes' && s < |st.scopes|
    ensures Ancestor(scopes', s, level) == Ancestor(st.scopes, s, level)
    decreases level
  {
    if 0 <= s < |st.scopes| && level != 0 {
      AncestorWithMore(st, scopes', st.scopes[s].parent, level - 1);
    }
  }

  function WithScope(st: State, sc: Scope, names: set<string>): State {
    State(st.scopes + [sc], st.declared + [names], st.outer)
  }

  lemma OldVariablesStayOk(st: State, sc: Scope, names: set<string>, s: nat, name: string, v: Variable)
    requires IsTree(st) && s < |st.scopes| && IsVariableOk(st, s, name, v)
    ensures IsVariableOk(WithScope(st, sc, names), s, name, v)
  {
    hide Ancestor, HasSlot, IsOwn;
    var st' := WithScope(st, sc, names);
    forall t: int, level: nat | t < |st.scopes|
      ensures Ancestor(st'.scopes, t, level) == Ancestor(st.scopes, t, level)
    {
      AncestorWithMore(st, st'.scopes, t, level);
    }
  }

  lemma NewScopeKeepsInvariant(st: State, sc: Scope, names: seq<string>, instVars: map<string, Variable>)
    requires Invariant(st) && NO_PARENT <= sc.parent < |st.scopes| && AreDefined(names, instVars, sc.vars) && AreInstVars(instVars)
    requires sc.contextSize == 0 && if sc.parent == NO_PARENT then AreInstVarsOf(instVars, st.outer.instVars) else instVars == map[]
    requires THIS_CONTEXT in names && SUPER in names && SELF in names
    ensures Invariant(WithScope(st, sc, SetOf(names))) && Grows(st, WithScope(st, sc, SetOf(names)))
  {
    hide HasSlot, IsOwn, IsCaptured, IsNotDeclared, AreSlotsOk, IsFresh, Ancestor, IsOuterOk, IsLater;
    var st', new' := WithScope(st, sc, SetOf(names)), |st.scopes|;
    NewSlotsAreOk(sc, names, instVars);
    NothingIsLater();
    NewOutersAreOk(st.outer, sc, names, instVars);
    forall s, name | 0 <= s < |st'.scopes| && name in st'.scopes[s].vars
      ensures IsVariableOk(st', s, name, st'.scopes[s].vars[name])
    {
      if s < new' {
        assert IsVariableOk(st, s, name, st.scopes[s].vars[name]);
        OldVariablesStayOk(st, sc, SetOf(names), s, name, st.scopes[s].vars[name]);
      } else if name in names {
        FreshIsOwn(name, sc.vars[name]);
      } else {
        RootDeclaresNothing(st', new', name);
      }
    }
  }

  lemma NewOutersAreOk(outer: Outer, sc: Scope, names: seq<string>, instVars: map<string, Variable>)
    requires AreDefined(names, instVars, sc.vars)
    requires if sc.parent == NO_PARENT then AreInstVarsOf(instVars, outer.instVars) else instVars == map[]
    ensures forall name :: name in sc.vars ==> IsOuterOk(outer, name, sc.vars[name])
    ensures sc.parent == NO_PARENT ==> forall name :: name in outer.instVars ==> name in sc.vars
  {
  }

  lemma FreshIsOwn(name: string, v: Variable)
    requires IsFresh(name, v)
    ensures IsOwn(v) && ((v.kind.Super? || v.kind.ThisContext?) ==> name == SUPER || name == THIS_CONTEXT)
    ensures !HasSomeSlot(v) && forall slot: nat :: !HasSlot(v, slot)
  {
  }

  lemma NewSlotsAreOk(sc: Scope, names: seq<string>, instVars: map<string, Variable>)
    requires AreDefined(names, instVars, sc.vars) && sc.contextSize == 0
    ensures AreSlotsOk(sc, SetOf(names))
  {
    hide HasSlot, IsFresh, HasSomeSlot;
    forall x | x in names && x in sc.vars
      ensures !HasSomeSlot(sc.vars[x]) && forall slot: nat :: !HasSlot(sc.vars[x], slot)
    {
      FreshIsOwn(x, sc.vars[x]);
    }
    assert Slotted(sc, SetOf(names)) == {};
  }

  lemma RootDeclaresNothing(st: State, s: nat, name: string)
    requires s < |st.scopes| && st.scopes[s].parent == NO_PARENT && s < |st.declared| && name !in st.declared[s]
    ensures IsNotDeclared(st, s, name)
  {
  }
}

/** What the names mean in the scopes, without the analysis, and that the scopes agree with it. */
module Visibility {
  import opened Collections
  import opened Scopes
  import opened Blocks
  import opened ScopeDefinitions

  lemma {:induction false} AncestorInGrown(st: State, st': State, s: int, level: nat)
    requires IsTree(st) && s < |st.scopes| && Grows(st, st')
    ensures Ancestor(st'.scopes, s, level) == Ancestor(st.scopes, s, level)
    decreases level
  {
    if 0 <= s < |st.scopes| && level != 0 {
      AncestorInGrown(st, st', st.scopes[s].parent, level - 1);
    }
  }

  lemma AncestorOfScope(scopes: seq<Scope>, s: nat)
    requires s < |scopes|
    ensures Ancestor(scopes, s, 0) == s
    ensures forall j: nat :: Ancestor(scopes, s, j + 1) == Ancestor(scopes, scopes[s].parent, j)
    ensures forall j: nat :: 0 < j ==> Ancestor(scopes, s, j) == Ancestor(scopes, scopes[s].parent, j - 1)
  {
  }

  // ---------- What the addresses mean ----------

  /**
   The variable that `name` denotes in scope `s`, without the analysis: the one of the innermost
   block that declares the name; or the instance variable, or else the global of that name.
   */
  ghost predicate IsAddress(st: State, s: nat, name: string, v: Variable) {
    && (forall level: nat :: IsDeclaredAt(st, s, name, level) ==>
          if level == 0 then IsOwn(v) else v.kind.ContextVar? && v.level == level && IsSlotAt(st, Ancestor(st.scopes, s, level), name, v.index))
    && (IsNotDeclared(st, s, name) ==>
          if name in st.outer.instVars then v.kind.InstVar? && v.index == st.outer.instVars[name]
          else v.kind.Assoc? && st.outer.isGlobal(name) && v.index == st.outer.literal(name) % BYTE_SIZE)
  }

  ghost predicate IsSlotAt(st: State, d: int, name: string, slot: nat) {
    0 <= d < |st.scopes| && name in st.scopes[d].vars && HasSlot(st.scopes[d].vars[name], slot) && slot < st.scopes[d].contextSize
  }

  lemma DeclaredOnce(st: State, s: int, name: string, level: nat, level': nat)
    requires IsDeclaredAt(st, s, name, level) && IsDeclaredAt(st, s, name, level')
    ensures level == level'
  {
    hide Ancestor;
  }

  /** Every address in every scope is right. */
  lemma AddressIsRight(st: State, s: nat, name: string)
    requires Invariant(st) && s < |st.scopes| && name in st.scopes[s].vars
    ensures IsAddress(st, s, name, st.scopes[s].vars[name])
  {
    hide Ancestor, HasSlot, IsDeclaredAt, IsNotDeclared, IsOwn;
    var v := st.scopes[s].vars[name];
    assert IsVariableOk(st, s, name, v) && IsOuterOk(st.outer, name, v);
    forall level: nat | IsDeclaredAt(st, s, name, level)
      ensures if level == 0 then IsOwn(v) else v.kind.ContextVar? && v.level == level && IsSlotAt(st, Ancestor(st.scopes, s, level), name, v.index)
    {
      DeclaredIsOwnOrCaptured(st, s, name, level);
    }
    if IsNotDeclared(st, s, name) {
      NotDeclaredIsOuter(st, s, name);
    }
  }

  lemma DeclaredIsOwnOrCaptured(st: State, s: nat, name: string, level: nat)
    requires Invariant(st) && s < |st.scopes| && name in st.scopes[s].vars && IsDeclaredAt(st, s, name, level)
    ensures var v := st.scopes[s].vars[name];
            if level == 0 then IsOwn(v) else v.kind.ContextVar? && v.level == level && IsSlotAt(st, Ancestor(st.scopes, s, level), name, v.index)
  {
    hide Ancestor, HasSlot, IsOwn, AreOutersOk;
    var v := st.scopes[s].vars[name];
    assert IsVariableOk(st, s, name, v);
    AncestorOfScope(st.scopes, s);
    if name in st.declared[s] {
      assert level == 0;
    } else if IsCaptured(st, s, name, v) {
      DeclaredOnce(st, s, name, level, v.level);
      var d := Ancestor(st.scopes, s, level);
      assert AreSlotsOk(st.scopes[d], st.declared[d]);
    }
  }

  lemma NotDeclaredIsOuter(st: State, s: nat, name: string)
    requires Invariant(st) && s < |st.scopes| && name in st.scopes[s].vars && IsNotDeclared(st, s, name)
    ensures var v := st.scopes[s].vars[name];
            && (v.kind.InstVar? || v.kind.Assoc?) && IsOuterOk(st.outer, name, v) && (name in st.outer.instVars <==> v.kind.InstVar?)
  {
    hide Ancestor, HasSlot, IsOwn, AreScopesOk;
    var v := st.scopes[s].vars[name];
    assert IsVariableOk(st, s, name, v) && IsOuterOk(st.outer, name, v);
    AncestorOfScope(st.scopes, s);
    assert 0 <= Ancestor(st.scopes, s, 0) < |st.declared|;
  }

  // ---------- Names that are known, and names that are fixed ----------

  predicate IsFixedKind(v: Variable) {
    v.kind.ArgVar? || v.kind.Super?
  }

  /** The innermost declaration is `level` scopes up, and that of an argument. */
  ghost predicate IsFixedAt(st: State, s: int, name: string, level: nat) {
    && IsDeclaredAt(st, s, name, level) && Ancestor(st.scopes, s, level) < |st.scopes|
    && name in st.scopes[Ancestor(st.scopes, s, level)].vars && IsFixedKind(st.scopes[Ancestor(st.scopes, s, level)].vars[name])
  }

  ghost predicate IsFixed(st: State, s: int, name: string) {
    exists level: nat :: IsFixedAt(st, s, name, level)
  }

  /** The scopes from `s` upwards make the names of `env` known, and fix those that are fixed there. */
  ghost predicate AreVisible(st: State, s: int, env: Env) {
    && env.isGlobal == st.outer.isGlobal
    && (forall name :: name in env.known <==> name in st.outer.instVars || !IsNotDeclared(st, s, name))
    && (forall name :: name in env.fixed <==> IsFixed(st, s, name))
  }

  lemma LaterIsFixed(v: Variable, w: Variable)
    requires IsLater(v, w)
    ensures IsFixedKind(w) <==> IsFixedKind(v)
  {
  }

  lemma DeclaredAreVars(st: State, d: int, name: string)
    requires Invariant(st) && 0 <= d < |st.declared| && name in st.declared[d]
    ensures d < |st.scopes| && name in st.scopes[d].vars
  {
    hide AreVariablesOk, AreOutersOk, AreSlotsOk;
  }

  lemma VarsAreKept(st: State, st': State, d: nat, name: string)
    requires Grows(st, st') && d < |st.scopes| && name in st.scopes[d].vars
    ensures d < |st'.scopes| && name in st'.scopes[d].vars && IsLater(st.scopes[d].vars[name], st'.scopes[d].vars[name])
  {
    hide IsLater;
  }

  lemma GrowsKeepsDeclared(st: State, st': State)
    requires Grows(st, st')
    ensures st.declared <= st'.declared && st'.outer == st.outer && |st.scopes| <= |st'.scopes|
  {
  }

  lemma TreeOf(st: State)
    requires Invariant(st)
    ensures IsTree(st) && |st.declared| == |st.scopes|
  {
  }

  lemma FixedIsStable(st: State, st': State, s: int, name: string, level: nat)
    requires Invariant(st) && s < |st.scopes| && Grows(st, st')
    ensures IsFixedAt(st', s, name, level) <==> IsFixedAt(st, s, name, level)
  {
    hide Invariant, Grows, Ancestor, IsFixedKind, IsLater;
    TreeOf(st);
    GrowsKeepsDeclared(st, st');
    forall j: nat
      ensures Ancestor(st'.scopes, s, j) == Ancestor(st.scopes, s, j)
    {
      AncestorInGrown(st, st', s, j);
    }
    var d := Ancestor(st.scopes, s, level);
    if 0 <= d < |st.declared| && name in st.declared[d] {
      DeclaredAreVars(st, d, name);
      VarsAreKept(st, st', d, name);
      LaterIsFixed(st.scopes[d].vars[name], st'.scopes[d].vars[name]);
    }
  }

  lemma NotDeclaredInGrown(st: State, st': State, s: int, name: string)
    requires Invariant(st) && s < |st.scopes| && Grows(st, st')
    ensures IsNotDeclared(st', s, name) <==> IsNotDeclared(st, s, name)
  {
    hide Invariant, Grows, Ancestor;
    TreeOf(st);
    GrowsKeepsDeclared(st, st');
    forall j: nat
      ensures Ancestor(st'.scopes, s, j) == Ancestor(st.scopes, s, j)
    {
      AncestorInGrown(st, st', s, j);
    }
  }

  lemma VisibleIsStable(st: State, st': State, s: int, env: Env)
    requires AreVisible(st, s, env) && Invariant(st) && s < |st.scopes| && Grows(st, st')
    ensures AreVisible(st', s, env)
  {
    hide Invariant, Grows, IsNotDeclared, IsFixedAt;
    GrowsKeepsDeclared(st, st');
    forall name
      ensures IsNotDeclared(st', s, name) <==> IsNotDeclared(st, s, name)
      ensures IsFixed(st', s, name) <==> IsFixed(st, s, name)
    {
      NotDeclaredInGrown(st, st', s, name);
      forall level: nat
        ensures IsFixedAt(st', s, name, level) <==> IsFixedAt(st, s, name, level)
      {
        FixedIsStable(st, st', s, name, level);
      }
    }
  }

  // Inside a block.

  lemma NotDeclaredInside(st: State, s: nat, name: string)
    requires s < |st.scopes| == |st.declared|
    ensures IsNotDeclared(st, s, name) <==> IsNotDeclared(st, st.scopes[s].parent, name) && name !in st.declared[s]
  {
    hide Ancestor;
    var parent := st.scopes[s].parent;
    AncestorOfScope(st.scopes, s);
    if IsNotDeclared(st, s, name) {
      assert name !in st.declared[Ancestor(st.scopes, s, 0)];
      forall j: nat | 0 <= Ancestor(st.scopes, parent, j) < |st.declared|
        ensures name !in st.declared[Ancestor(st.scopes, parent, j)]
      {
        assert Ancestor(st.scopes, s, j + 1) == Ancestor(st.scopes, parent, j);
      }
    } else {
      var j: nat :| 0 <= Ancestor(st.scopes, s, j) < |st.declared| && name in st.declared[Ancestor(st.scopes, s, j)];
      assert j > 0 ==> Ancestor(st.scopes, parent, j - 1) == Ancestor(st.scopes, s, j);
    }
  }

  lemma DeclaredInside(st: State, s: nat, name: string, level: nat)
    requires s < |st.scopes| == |st.declared|
    ensures name in st.declared[s] ==> (IsDeclaredAt(st, s, name, level) <==> level == 0)
    ensures name !in st.declared[s] ==> (IsDeclaredAt(st, s, name, level) <==> level > 0 && IsDeclaredAt(st, st.scopes[s].parent, name, level - 1))
  {
    hide Ancestor;
    var parent := st.scopes[s].parent;
    AncestorOfScope(st.scopes, s);
    if name in st.declared[s] {
      assert name in st.declared[Ancestor(st.scopes, s, 0)];
    } else if level > 0 {
      assert forall j: nat :: Ancestor(st.scopes, s, j + 1) == Ancestor(st.scopes, parent, j);
      if IsDeclaredAt(st, s, name, level) {
        forall j: nat | j < level - 1 && 0 <= Ancestor(st.scopes, parent, j) < |st.declared|
          ensures name !in st.declared[Ancestor(st.scopes, parent, j)]
        {
          assert Ancestor(st.scopes, s, j + 1) == Ancestor(st.scopes, parent, j);
        }
      }
      if IsDeclaredAt(st, parent, name, level - 1) {
        forall j: nat | j < level && 0 <= Ancestor(st.scopes, s, j) < |st.declared|
          ensures name !in st.declared[Ancestor(st.scopes, s, j)]
        {
          assert j > 0 ==> Ancestor(st.scopes, parent, j - 1) == Ancestor(st.scopes, s, j);
        }
      }
    }
  }

  lemma FixedInside(st: State, s: nat, name: string)
    requires s < |st.scopes| == |st.declared| && st.declared[s] <= st.scopes[s].vars.Keys
    ensures IsFixed(st, s, name) <==> if name in st.declared[s] then IsFixedKind(st.scopes[s].vars[name]) else IsFixed(st, st.scopes[s].parent, name)
  {
    hide Ancestor, IsFixedKind, IsDeclaredAt;
    var parent := st.scopes[s].parent;
    AncestorOfScope(st.scopes, s);
    forall level: nat
      ensures name in st.declared[s] ==> (IsDeclaredAt(st, s, name, level) <==> level == 0)
      ensures name !in st.declared[s] ==> (IsDeclaredAt(st, s, name, level) <==> level > 0 && IsDeclaredAt(st, parent, name, level - 1))
    {
      DeclaredInside(st, s, name, level);
    }
    if name in st.declared[s] {
      assert IsFixedAt(st, s, name, 0) <==> IsFixedKind(st.scopes[s].vars[name]);
    } else {
      if level: nat :| IsFixedAt(st, s, name, level) {
        assert IsFixedAt(st, parent, name, level - 1);
      }
      if level: nat :| IsFixedAt(st, parent, name, level) {
        assert Ancestor(st.scopes, s, level + 1) == Ancestor(st.scopes, parent, level);
        assert IsFixedAt(st, s, name, level + 1);
      }
    }
  }

  /** The arguments, self and super are the fixed ones among the names of a block. */
  lemma FixedPlaces(block: Block, name: string)
    ensures name in FixedNames(block) <==> exists k :: 0 < k < 3 + |block.args| && OwnNames(block)[k] == name
  {
    var names, n := OwnNames(block), |block.args|;
    assert names[1] == SUPER && names[2] == SELF;
    assert forall k :: 0 <= k < n ==> names[3 + k] == block.args[k];
    if k :| 0 <= k < n && block.args[k] == name {
      assert names[3 + k] == name;
    }
    if k :| 3 <= k < 3 + n && names[k] == name {
      assert block.args[k - 3] == name;
    }
  }

  lemma FixedByPlace(block: Block, i: nat)
    requires HasNoDuplicates(OwnNames(block)) && i < |OwnNames(block)|
    ensures OwnNames(block)[i] in FixedNames(block) <==> 0 < i < 3 + |block.args|
  {
    hide FixedNames;
    FixedPlaces(block, OwnNames(block)[i]);
  }

  lemma OwnIsFixed(block: Block, vars: map<string, Variable>, name: string)
    requires AreOwn(block, vars) && HasNoDuplicates(OwnNames(block)) && name in OwnNames(block)
    ensures name in vars && (IsFixedKind(vars[name]) <==> name in FixedNames(block))
  {
    hide HasNoDuplicates, IsLater, FixedNames, OwnNames;
    var i :| 0 <= i < |OwnNames(block)| && OwnNames(block)[i] == name;
    LaterIsFixed(OwnVariable(block, i), vars[name]);
    FixedByPlace(block, i);
  }

  lemma VisibleInside(st: State, s: nat, env: Env, block: Block)
    requires s < |st.scopes| == |st.declared| && AreVisible(st, st.scopes[s].parent, env)
    requires st.declared[s] == SetOf(OwnNames(block)) && AreOwn(block, st.scopes[s].vars) && HasNoDuplicates(OwnNames(block))
    ensures AreVisible(st, s, Inside(env, block))
  {
    hide HasNoDuplicates, IsNotDeclared, IsFixed, OwnNames, AreOwn, FixedNames;
    forall name
      ensures IsNotDeclared(st, s, name) <==> IsNotDeclared(st, st.scopes[s].parent, name) && name !in st.declared[s]
      ensures name in st.declared[s] ==> name in st.scopes[s].vars && (IsFixedKind(st.scopes[s].vars[name]) <==> name in FixedNames(block))
    {
      NotDeclaredInside(st, s, name);
      if name in st.declared[s] {
        OwnIsFixed(block, st.scopes[s].vars, name);
      }
    }
    FixedAreOwn(block);
    forall name
      ensures IsFixed(st, s, name) <==> if name in st.declared[s] then name in FixedNames(block) else IsFixed(st, st.scopes[s].parent, name)
    {
      FixedInside(st, s, name);
    }
  }

  lemma FixedAreOwn(block: Block)
    ensures FixedNames(block) <= SetOf(OwnNames(block))
  {
    var names := OwnNames(block);
    assert names[1] == SUPER && names[2] == SELF;
    forall name | name in block.args
      ensures name in names
    {
      var i :| 0 <= i < |block.args| && block.args[i] == name;
      assert names[3 + i] == name;
    }
  }

  // Names with an address.

  /** A name that has an address is known. */
  lemma ResolvedIsKnown(st: State, s: nat, name: string, env: Env)
    requires Invariant(st) && AreVisible(st, s, env) && s < |st.scopes| && name in st.scopes[s].vars
    ensures IsKnown(name, env)
  {
    hide Ancestor, HasSlot, AreScopesOk;
    var v := st.scopes[s].vars[name];
    assert IsVariableOk(st, s, name, v) && IsOuterOk(st.outer, name, v);
    AncestorOfScope(st.scopes, s);
    if name in st.declared[s] {
      assert name in st.declared[Ancestor(st.scopes, s, 0)];
    }
  }

  /** The descriptor tells of an address that it is fixed. */
  predicate LooksFixed(v: Variable) {
    IsFixedKind(v) || HasCtxCopy(v)
  }

  lemma LooksAreRight(st: State, s: nat, name: string, env: Env)
    requires Invariant(st) && AreVisible(st, s, env) && s < |st.scopes| && name in st.scopes[s].vars
    ensures LooksFixed(st.scopes[s].vars[name]) <==> name in env.fixed
  {
    hide Invariant, HasCtxCopy, Ancestor, HasSlot, IsDeclaredAt, IsNotDeclared;
    var v := st.scopes[s].vars[name];
    TreeOf(st);
    if IsNotDeclared(st, s, name) {
      OuterLooksFree(st, s, name);
    } else {
      var level := InnermostDeclaration(st, s, name);
      DeclaredLooks(st, s, name, level);
      forall level': nat | IsFixedAt(st, s, name, level')
        ensures level' == level
      {
        DeclaredOnce(st, s, name, level, level');
      }
    }
  }

  lemma OuterLooksFree(st: State, s: nat, name: string)
    requires Invariant(st) && s < |st.scopes| && name in st.scopes[s].vars && IsNotDeclared(st, s, name)
    ensures !LooksFixed(st.scopes[s].vars[name]) && !IsFixed(st, s, name)
  {
    hide Ancestor, HasSlot, AreScopesOk, HasCtxCopy;
    var v := st.scopes[s].vars[name];
    assert IsVariableOk(st, s, name, v) && IsOuterOk(st.outer, name, v);
    NotDeclaredIsOuter(st, s, name);
  }

  lemma {:induction false} InnermostDeclaration(st: State, s: int, name: string) returns (level: nat)
    requires IsTree(st) && s < |st.scopes| && !IsNotDeclared(st, s, name)
    ensures IsDeclaredAt(st, s, name, level)
    decreases s
  {
    hide IsNotDeclared, IsDeclaredAt;
    if s < 0 {
      NothingAbove(st, s, name);
    } else {
      NotDeclaredInside(st, s, name);
      if name in st.declared[s] {
        level := 0;
      } else {
        level := InnermostDeclaration(st, st.scopes[s].parent, name);
        level := level + 1;
      }
      DeclaredInside(st, s, name, level);
    }
  }

  lemma NothingAbove(st: State, s: int, name: string)
    requires s < 0
    ensures IsNotDeclared(st, s, name)
  {
  }

  lemma DeclaredLooks(st: State, s: nat, name: string, level: nat)
    requires Invariant(st) && s < |st.scopes| && name in st.scopes[s].vars && IsDeclaredAt(st, s, name, level)
    ensures LooksFixed(st.scopes[s].vars[name]) <==> IsFixedAt(st, s, name, level)
  {
    hide Ancestor, HasSlot, HasCtxCopy, AreOutersOk, AreSlotsOk;
    var v := st.scopes[s].vars[name];
    assert IsVariableOk(st, s, name, v);
    AncestorOfScope(st.scopes, s);
    if name in st.declared[s] {
      assert level == 0;
    } else if IsCaptured(st, s, name, v) {
      DeclaredOnce(st, s, name, level, v.level);
      var d := Ancestor(st.scopes, s, level);
      assert IsVariableOk(st, d, name, st.scopes[d].vars[name]);
      assert name != SUPER && name != THIS_CONTEXT;
    }
  }
}

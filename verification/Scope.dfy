/**
 Resolving names across nested blocks (vm/Scope.c), and the packed variable descriptors it stores
 (vm/Variable.h).

 A scope is known by its number; the scopes of a method are numbered in the order in which they are
 created, so a parent has a smaller number than its children.
 */
module Scopes {
  import opened Collections

  // ---------- Variable descriptors ----------

  datatype Kind = ThisContext | TempVar | ArgVar | Super | ContextVar | InstVar | Assoc

  /** Every field is a byte; `ctxCopy` holds an index plus one, so that 0 means that there is none. */
  datatype Variable = Variable(kind: Kind, index: nat, level: nat, ctxCopy: nat)

  const BYTE_SIZE: nat := 0x100

  function DefineVariable(kind: Kind, index: nat, level: nat): Variable {
    Variable(kind, index % BYTE_SIZE, level % BYTE_SIZE, 0)
  }

  function SetCtxCopy(v: Variable, index: nat): Variable {
    v.(ctxCopy := (index + 1) % BYTE_SIZE)
  }

  predicate HasCtxCopy(v: Variable) {
    v.ctxCopy != 0
  }

  function GetCtxCopy(v: Variable): nat {
    (v.ctxCopy + BYTE_SIZE - 1) % BYTE_SIZE
  }

  /** A context index can be remembered exactly when it is not 255. */
  lemma CtxCopyRoundTrip(v: Variable, index: nat)
    requires index < BYTE_SIZE
    ensures HasCtxCopy(SetCtxCopy(v, index)) && GetCtxCopy(SetCtxCopy(v, index)) == index <==> index != BYTE_SIZE - 1
  {
    if index != BYTE_SIZE - 1 {
      assert (index + 1) % BYTE_SIZE == index + 1;
      assert (index + BYTE_SIZE) % BYTE_SIZE == index;
    }
  }

  // ---------- Scopes ----------

  const NO_PARENT: int := -1

  datatype Scope = Scope(parent: int, vars: map<string, Variable>, hasContext: bool, argsSize: nat, contextSize: nat)

  /**
   What lies outside of a method: the instance variables of its class with their numbers, and the
   names that a class variable, a global or a capital first letter resolves, with their literals.
   */
  datatype Outer = Outer(instVars: map<string, nat>, isGlobal: string -> bool, literal: string -> nat)

  /** All scopes, and the names that the block of each of them declares. */
  datatype State = State(scopes: seq<Scope>, declared: seq<set<string>>, outer: Outer)

  const THIS_CONTEXT := "thisContext"
  const SUPER := "super"
  const SELF := "self"

  /** `level` parents up from `s`, or NO_PARENT. */
  function Ancestor(scopes: seq<Scope>, s: int, level: nat): (a: int)
    ensures a == NO_PARENT || 0 <= a < |scopes|
    ensures level == 0 && 0 <= s < |scopes| ==> a == s
    decreases level
  {
    if !(0 <= s < |scopes|) then NO_PARENT
    else if level == 0 then s
    else Ancestor(scopes, scopes[s].parent, level - 1)
  }

  ghost predicate IsTree(st: State) {
    && |st.declared| == |st.scopes|
    && (forall s :: 0 <= s < |st.scopes| ==> NO_PARENT <= st.scopes[s].parent < s)
  }

  /** The scope `level` parents up is the innermost one, from `s`, that declares the name. */
  ghost predicate IsDeclaredAt(st: State, s: int, name: string, level: nat) {
    && 0 <= Ancestor(st.scopes, s, level) < |st.declared| && name in st.declared[Ancestor(st.scopes, s, level)]
    && (forall j: nat :: j < level ==> 0 <= Ancestor(st.scopes, s, j) < |st.declared| ==> name !in st.declared[Ancestor(st.scopes, s, j)])
  }

  ghost predicate IsNotDeclared(st: State, s: int, name: string) {
    forall j: nat :: 0 <= Ancestor(st.scopes, s, j) < |st.declared| ==> name !in st.declared[Ancestor(st.scopes, s, j)]
  }

  /** The context slot of a variable that its scope declares, if it has been captured. */
  predicate HasSlot(v: Variable, slot: nat) {
    (v.kind.ContextVar? && v.level == 0 && v.index == slot) || (v.kind.ArgVar? && HasCtxCopy(v) && GetCtxCopy(v) == slot)
  }

  /** A variable as the scope that declares it holds it. */
  predicate IsOwn(v: Variable) {
    && v.level == 0 && (v.kind.ThisContext? || v.kind.Super? || v.kind.TempVar? || v.kind.ArgVar? || v.kind.ContextVar?)
    && (HasCtxCopy(v) ==> v.kind.ArgVar?)
  }

  /** A captured variable: following `level` parents leads to its innermost declaration, and `index` is its slot there. */
  ghost predicate IsCaptured(st: State, s: int, name: string, v: Variable) {
    && v.kind.ContextVar? && 0 < v.level && IsDeclaredAt(st, s, name, v.level)
    && name in st.scopes[Ancestor(st.scopes, s, v.level)].vars
    && HasSlot(st.scopes[Ancestor(st.scopes, s, v.level)].vars[name], v.index)
    && (HasCtxCopy(v) <==> st.scopes[Ancestor(st.scopes, s, v.level)].vars[name].kind.ArgVar?)
    // Contexts are set up all the way.
    && (forall j: nat :: j <= v.level ==> 0 <= Ancestor(st.scopes, s, j) < |st.scopes| && st.scopes[Ancestor(st.scopes, s, j)].hasContext)
  }

  ghost predicate IsVariableOk(st: State, s: int, name: string, v: Variable)
    requires 0 <= s < |st.declared|
  {
    if name in st.declared[s] then IsOwn(v) && ((v.kind.Super? || v.kind.ThisContext?) ==> name == SUPER || name == THIS_CONTEXT)
    else v.level <= s && (IsCaptured(st, s, name, v) || ((v.kind.InstVar? || v.kind.Assoc?) && IsNotDeclared(st, s, name)))
  }

  ghost predicate AreVariablesOk(st: State) {
    forall s, name :: 0 <= s < |st.scopes| && s < |st.declared| && name in st.scopes[s].vars ==> IsVariableOk(st, s, name, st.scopes[s].vars[name])
  }

  /** The variables that a scope has given a slot. */
  ghost function Slotted(sc: Scope, declared: set<string>): set<string> {
    set name | name in declared && name in sc.vars && HasSomeSlot(sc.vars[name])
  }

  predicate HasSomeSlot(v: Variable) {
    (v.kind.ContextVar? && v.level == 0) || (v.kind.ArgVar? && HasCtxCopy(v))
  }

  /** The slots that a scope has given away are different ones below its context size, which never reaches 256; none is left out. */
  ghost predicate AreSlotsOk(sc: Scope, declared: set<string>) {
    && sc.contextSize < BYTE_SIZE && sc.contextSize == |Slotted(sc, declared)|
    && (forall name, slot: nat :: name in declared && name in sc.vars && HasSlot(sc.vars[name], slot) ==> slot < sc.contextSize)
    && (forall x, y, slot: nat :: x in declared && y in declared && x in sc.vars && y in sc.vars && HasSlot(sc.vars[x], slot) && HasSlot(sc.vars[y], slot) ==> x == y)
  }

  ghost predicate AreScopesOk(st: State) {
    forall s :: 0 <= s < |st.scopes| && s < |st.declared| ==>
      && AreSlotsOk(st.scopes[s], st.declared[s]) && st.declared[s] <= st.scopes[s].vars.Keys
      && THIS_CONTEXT in st.declared[s] && SUPER in st.declared[s] && SELF in st.declared[s]
  }

  /** An instance variable has its number, and hides globals of the same name. */
  ghost predicate IsOuterOk(outer: Outer, name: string, v: Variable) {
    if v.kind.InstVar? then !HasCtxCopy(v) && name in outer.instVars && v.index == outer.instVars[name]
    else v.kind.Assoc? ==> !HasCtxCopy(v) && name !in outer.instVars && outer.isGlobal(name) && v.index == outer.literal(name) % BYTE_SIZE
  }

  ghost predicate AreOutersOk(st: State) {
    && (forall s, name :: 0 <= s < |st.scopes| && name in st.scopes[s].vars ==> IsOuterOk(st.outer, name, st.scopes[s].vars[name]))
    && (forall s, name :: 0 <= s < |st.scopes| && name in st.outer.instVars && st.scopes[s].parent == NO_PARENT ==> name in st.scopes[s].vars)
  }

  ghost predicate Invariant(st: State) {
    IsTree(st) && AreVariablesOk(st) && AreScopesOk(st) && AreOutersOk(st)
  }

  // ---------- Steps ----------

  ghost predicate HaveSameParents(st: State, st': State) {
    && |st'.scopes| == |st.scopes| && st'.declared == st.declared && st'.outer == st.outer
    && forall s :: 0 <= s < |st.scopes| ==> st'.scopes[s].parent == st.scopes[s].parent
  }

  lemma {:induction false} AncestorIsSame(scopes: seq<Scope>, scopes': seq<Scope>, s: int, level: nat)
    requires |scopes'| == |scopes| && forall s :: 0 <= s < |scopes| ==> scopes'[s].parent == scopes[s].parent
    ensures Ancestor(scopes', s, level) == Ancestor(scopes, s, level)
    decreases level
  {
    if 0 <= s < |scopes| && level != 0 {
      AncestorIsSame(scopes, scopes', scopes[s].parent, level - 1);
    }
  }

  lemma AncestorsAreSame(st: State, st': State)
    requires HaveSameParents(st, st')
    ensures forall s, level :: Ancestor(st'.scopes, s, level) == Ancestor(st.scopes, s, level)
  {
    forall s, level
      ensures Ancestor(st'.scopes, s, level) == Ancestor(st.scopes, s, level)
    {
      AncestorIsSame(st.scopes, st'.scopes, s, level);
    }
  }

  predicate NeedsSlot(v: Variable) {
    v.kind.TempVar? || (v.kind.ArgVar? && !HasCtxCopy(v))
  }

  /** `w` is `v`, or `v` has been given a context slot since. */
  predicate IsLater(v: Variable, w: Variable) {
    w == v || (NeedsSlot(v) && if v.kind.ArgVar? then HasCtxCopy(w) && w == v.(ctxCopy := w.ctxCopy) else w == v.(kind := ContextVar, index := w.index))
  }

  lemma LaterKeepsSlot(v: Variable, w: Variable, slot: nat)
    requires IsLater(v, w) && HasSlot(v, slot)
    ensures w == v
  {
  }

  lemma NothingIsLater()
    ensures forall v :: IsLater(v, v)
  {
  }

  lemma LaterTwice(v: Variable, w: Variable, x: Variable)
    requires IsLater(v, w) && IsLater(w, x)
    ensures IsLater(v, x)
  {
  }

  /** Nothing that was resolved is changed any more: addresses that are cached, slots that are given away. */
  ghost predicate Grows(st: State, st': State) {
    && |st.scopes| <= |st'.scopes| && st.declared <= st'.declared && st'.outer == st.outer
    && (forall s :: 0 <= s < |st.scopes| ==> IsScopeKept(st.scopes[s], st'.scopes[s]))
    && (forall s, name :: 0 <= s < |st.scopes| && name in st.scopes[s].vars ==>
          name in st'.scopes[s].vars && IsLater(st.scopes[s].vars[name], st'.scopes[s].vars[name]))
    && (forall s, name :: 0 <= s < |st.scopes| && name in st.scopes[s].vars && s < |st.declared| && name !in st.declared[s] ==>
          name in st'.scopes[s].vars && st'.scopes[s].vars[name] == st.scopes[s].vars[name])
  }

  predicate IsScopeKept(sc: Scope, sc': Scope) {
    sc'.parent == sc.parent && sc'.argsSize == sc.argsSize && (sc.hasContext ==> sc'.hasContext)
  }

  lemma GrowsTwice(a: State, b: State, c: State)
    requires Grows(a, b) && Grows(b, c) && |a.declared| == |a.scopes|
    ensures Grows(a, c)
  {
    hide IsLater;
    forall s, name | 0 <= s < |a.scopes| && name in a.scopes[s].vars
      ensures name in c.scopes[s].vars && IsLater(a.scopes[s].vars[name], c.scopes[s].vars[name])
    {
      LaterTwice(a.scopes[s].vars[name], b.scopes[s].vars[name], c.scopes[s].vars[name]);
    }
    forall s, name | 0 <= s < |a.scopes| && name in a.scopes[s].vars && s < |a.declared| && name !in a.declared[s]
      ensures name in c.scopes[s].vars && c.scopes[s].vars[name] == a.scopes[s].vars[name]
    {
      assert b.declared[s] == a.declared[s];
    }
  }

  lemma GrowsNot(st: State)
    ensures Grows(st, st)
  {
    hide HasSlot;
  }

  /** A captured variable stays what it is while scopes only grow. */
  lemma CapturedIsStable(st: State, st': State, s: int, name: string, v: Variable)
    requires IsCaptured(st, s, name, v) && HaveSameParents(st, st') && Grows(st, st') && |st.declared| == |st.scopes|
    ensures IsCaptured(st', s, name, v)
  {
    hide HasSlot, Ancestor, IsLater;
    AncestorsAreSame(st, st');
    var d := Ancestor(st.scopes, s, v.level);
    LaterKeepsSlot(st.scopes[d].vars[name], st'.scopes[d].vars[name], v.index);
  }

  lemma NotDeclaredIsStable(st: State, st': State, s: int, name: string)
    requires IsNotDeclared(st, s, name) && HaveSameParents(st, st')
    ensures IsNotDeclared(st', s, name)
  {
    hide Ancestor;
    AncestorsAreSame(st, st');
  }

  lemma OthersStayOk(st: State, st': State)
    requires IsTree(st) && AreVariablesOk(st) && HaveSameParents(st, st') && Grows(st, st')
    ensures forall s, name :: 0 <= s < |st.scopes| && name in st.scopes[s].vars && name !in st.declared[s] ==>
              name in st'.scopes[s].vars && IsVariableOk(st', s, name, st'.scopes[s].vars[name])
  {
    hide IsCaptured, IsNotDeclared, HasSlot, Ancestor, IsOwn;
    forall s, name | 0 <= s < |st.scopes| && name in st.scopes[s].vars && name !in st.declared[s]
      ensures name in st'.scopes[s].vars && IsVariableOk(st', s, name, st'.scopes[s].vars[name])
    {
      var v := st.scopes[s].vars[name];
      assert IsVariableOk(st, s, name, v);
      if IsCaptured(st, s, name, v) {
        CapturedIsStable(st, st', s, name, v);
      } else {
        NotDeclaredIsStable(st, st', s, name);
      }
    }
  }

  // Capturing a variable.

  function WithSlot(v: Variable, slot: nat): Variable {
    if v.kind.ArgVar? then SetCtxCopy(v, slot) else v.(kind := ContextVar, index := slot)
  }

  /** The next context slot of scope `d` is given to one of its variables. */
  function Capture(st: State, d: nat, name: string): State
    requires d < |st.scopes| && name in st.scopes[d].vars
  {
    var sc := st.scopes[d];
    st.(scopes := st.scopes[d := sc.(vars := sc.vars[name := WithSlot(sc.vars[name], sc.contextSize)], contextSize := sc.contextSize + 1)])
  }

  lemma SlotOfCaptured(v: Variable, slot: nat)
    requires NeedsSlot(v) && slot < BYTE_SIZE - 1 && v.level == 0
    ensures forall x: nat :: HasSlot(WithSlot(v, slot), x) <==> x == slot
    ensures forall x: nat :: !HasSlot(v, x)
    ensures !HasSomeSlot(v) && HasSomeSlot(WithSlot(v, slot))
    ensures IsOwn(v) ==> IsOwn(WithSlot(v, slot))
    ensures !NeedsSlot(WithSlot(v, slot)) && IsLater(v, WithSlot(v, slot))
    ensures (WithSlot(v, slot).kind.ContextVar? || WithSlot(v, slot).kind.ArgVar?)
  {
    CtxCopyRoundTrip(v, slot);
  }

  lemma CaptureKeepsSlots(sc: Scope, declared: set<string>, name: string)
    requires AreSlotsOk(sc, declared) && name in declared && name in sc.vars && NeedsSlot(sc.vars[name]) && sc.vars[name].level == 0
    requires sc.contextSize < BYTE_SIZE - 1
    ensures AreSlotsOk(sc.(vars := sc.vars[name := WithSlot(sc.vars[name], sc.contextSize)], contextSize := sc.contextSize + 1), declared)
  {
    hide HasSlot, NeedsSlot, WithSlot, HasSomeSlot, IsLater, IsOwn;
    SlotOfCaptured(sc.vars[name], sc.contextSize);
    var sc' := sc.(vars := sc.vars[name := WithSlot(sc.vars[name], sc.contextSize)], contextSize := sc.contextSize + 1);
    assert Slotted(sc', declared) == Slotted(sc, declared) + {name};
  }

  lemma CaptureGrows(st: State, d: nat, name: string)
    requires d < |st.scopes| && name in st.scopes[d].vars && d < |st.declared| && name in st.declared[d]
    requires NeedsSlot(st.scopes[d].vars[name]) && st.scopes[d].vars[name].level == 0 && st.scopes[d].contextSize < BYTE_SIZE - 1
    ensures Grows(st, Capture(st, d, name)) && HaveSameParents(st, Capture(st, d, name))
  {
    hide HasSlot, NeedsSlot, WithSlot, IsLater;
    SlotOfCaptured(st.scopes[d].vars[name], st.scopes[d].contextSize);
    NothingIsLater();
  }

  lemma CaptureKeepsInvariant(st: State, d: nat, name: string)
    requires Invariant(st) && d < |st.scopes| && name in st.scopes[d].vars && NeedsSlot(st.scopes[d].vars[name])
    requires st.scopes[d].contextSize < BYTE_SIZE - 1
    ensures name in st.declared[d] && st.scopes[d].vars[name].level == 0
    ensures var st' := Capture(st, d, name);
            && Invariant(st') && Grows(st, st') && HaveSameParents(st, st')
            && HasSlot(st'.scopes[d].vars[name], st.scopes[d].contextSize)
  {
    hide IsCaptured, IsNotDeclared, HasSlot, Ancestor, NeedsSlot, WithSlot, AreSlotsOk, Grows, IsOwn, IsLater;
    var st' := Capture(st, d, name);
    NeedingIsOwn(st, d, name);
    SlotOfCaptured(st.scopes[d].vars[name], st.scopes[d].contextSize);
    CaptureKeepsSlots(st.scopes[d], st.declared[d], name);
    CaptureGrows(st, d, name);
    OthersStayOk(st, st');
    forall s, x | 0 <= s < |st'.scopes| && x in st'.scopes[s].vars
      ensures IsVariableOk(st', s, x, st'.scopes[s].vars[x])
    {
      if x in st.declared[s] {
        assert IsVariableOk(st, s, x, st.scopes[s].vars[x]);
      }
    }
  }

  lemma NeedingIsOwn(st: State, d: nat, name: string)
    requires Invariant(st) && d < |st.scopes| && name in st.scopes[d].vars && NeedsSlot(st.scopes[d].vars[name])
    ensures name in st.declared[d] && IsOwn(st.scopes[d].vars[name]) && st.scopes[d].vars[name].level == 0
  {
    hide IsNotDeclared, HasSlot, Ancestor, AreScopesOk;
    assert IsVariableOk(st, d, name, st.scopes[d].vars[name]);
  }

  // Caching an address in the scope that uses it.

  function Cache(st: State, s: nat, name: string, v: Variable): State
    requires s < |st.scopes|
  {
    st.(scopes := st.scopes[s := st.scopes[s].(vars := st.scopes[s].vars[name := v])])
  }

  lemma CacheKeepsSlots(sc: Scope, declared: set<string>, name: string, v: Variable)
    requires AreSlotsOk(sc, declared) && name !in declared
    ensures AreSlotsOk(sc.(vars := sc.vars[name := v]), declared)
  {
    hide HasSlot, HasSomeSlot;
    assert Slotted(sc.(vars := sc.vars[name := v]), declared) == Slotted(sc, declared);
  }

  lemma CacheKeepsInvariant(st: State, s: nat, name: string, v: Variable)
    requires Invariant(st) && s < |st.scopes| && name !in st.scopes[s].vars
    requires v.level <= s && (IsCaptured(st, s, name, v) || ((v.kind.InstVar? || v.kind.Assoc?) && IsNotDeclared(st, s, name)))
    requires IsOuterOk(st.outer, name, v)
    ensures Invariant(Cache(st, s, name, v)) && Grows(st, Cache(st, s, name, v)) && HaveSameParents(st, Cache(st, s, name, v))
    ensures IsVariableOk(Cache(st, s, name, v), s, name, v)
  {
    hide IsCaptured, IsNotDeclared, HasSlot, Ancestor, IsOwn, IsLater, IsOuterOk, AreSlotsOk;
    var st' := Cache(st, s, name, v);
    assert name !in st.declared[s];
    NothingIsLater();
    CacheKeepsSlots(st.scopes[s], st.declared[s], name, v);
    OthersStayOk(st, st');
    if IsCaptured(st, s, name, v) {
      CapturedIsStable(st, st', s, name, v);
    } else {
      NotDeclaredIsStable(st, st', s, name);
    }
    forall t, x | 0 <= t < |st'.scopes| && x in st'.scopes[t].vars
      ensures IsVariableOk(st', t, x, st'.scopes[t].vars[x])
    {
      if x in st.declared[t] {
        assert IsVariableOk(st, t, x, st.scopes[t].vars[x]);
      }
    }
  }

  // Contexts.

  function WithContext(st: State, s: nat): State
    requires s < |st.scopes|
  {
    st.(scopes := st.scopes[s := st.scopes[s].(hasContext := true)])
  }

  lemma ContextKeepsInvariant(st: State, s: nat)
    requires Invariant(st) && s < |st.scopes|
    ensures Invariant(WithContext(st, s)) && Grows(st, WithContext(st, s)) && HaveSameParents(st, WithContext(st, s))
  {
    hide IsCaptured, IsNotDeclared, HasSlot, Ancestor, IsOwn, IsLater, IsOuterOk;
    var st' := WithContext(st, s);
    NothingIsLater();
    OthersStayOk(st, st');
    forall t, x | 0 <= t < |st'.scopes| && x in st'.scopes[t].vars
      ensures IsVariableOk(st', t, x, st'.scopes[t].vars[x])
    {
      if x in st.declared[t] {
        assert IsVariableOk(st, t, x, st.scopes[t].vars[x]);
      }
    }
  }

  // ---------- Looking a name up ----------

  lemma {:induction false} AncestorOfAncestor(scopes: seq<Scope>, s: int, level: nat, more: nat)
    ensures Ancestor(scopes, Ancestor(scopes, s, level), more) == Ancestor(scopes, s, level + more)
    decreases level
  {
    if 0 <= s < |scopes| && level != 0 {
      AncestorOfAncestor(scopes, scopes[s].parent, level - 1, more);
    }
  }

  /** None of the scopes below `level` knows the name. */
  ghost predicate IsUnknownBelow(st: State, s: int, name: string, level: nat) {
    forall j: nat :: j < level && 0 <= Ancestor(st.scopes, s, j) < |st.scopes| ==> name !in st.scopes[Ancestor(st.scopes, s, j)].vars
  }

  lemma UnknownIsNotDeclared(st: State, s: int, name: string, level: nat, j: nat)
    requires Invariant(st) && IsUnknownBelow(st, s, name, level) && j < level && 0 <= Ancestor(st.scopes, s, j) < |st.declared|
    ensures name !in st.declared[Ancestor(st.scopes, s, j)]
  {
    hide AreVariablesOk, AreSlotsOk, Ancestor;
  }

  /** The search came to the end of the chain. */
  lemma NotFoundIsNotDeclared(st: State, s: int, name: string, level: nat)
    requires Invariant(st) && IsUnknownBelow(st, s, name, level) && Ancestor(st.scopes, s, level) == NO_PARENT
    ensures IsNotDeclared(st, s, name)
    ensures 0 <= s < |st.scopes| ==> name !in st.outer.instVars
  {
    hide Invariant, IsUnknownBelow, Ancestor;
    forall j: nat | 0 <= Ancestor(st.scopes, s, j) < |st.declared|
      ensures name !in st.declared[Ancestor(st.scopes, s, j)]
    {
      if j < level {
        UnknownIsNotDeclared(st, s, name, level, j);
      } else {
        AncestorOfAncestor(st.scopes, s, level, j - level);
        NoAncestor(st.scopes, j - level);
      }
    }
    if 0 <= s < |st.scopes| {
      UnknownIsNoInstVar(st, s, name, level);
    }
  }

  /** The chain ends with the scope of the method, which has the instance variables. */
  lemma {:induction false} RootIsReached(st: State, s: nat, level: nat) returns (j: nat)
    requires IsTree(st) && s < |st.scopes| && Ancestor(st.scopes, s, level) == NO_PARENT
    ensures j < level && 0 <= Ancestor(st.scopes, s, j) < |st.scopes| && st.scopes[Ancestor(st.scopes, s, j)].parent == NO_PARENT
    decreases level
  {
    var parent := st.scopes[s].parent;
    if parent == NO_PARENT {
      return 0;
    }
    j := RootIsReached(st, parent, level - 1);
    j := j + 1;
  }

  lemma UnknownIsNoInstVar(st: State, s: nat, name: string, level: nat)
    requires Invariant(st) && IsUnknownBelow(st, s, name, level) && s < |st.scopes| && Ancestor(st.scopes, s, level) == NO_PARENT
    ensures name !in st.outer.instVars
  {
    hide AreVariablesOk, AreScopesOk, Ancestor;
    var j := RootIsReached(st, s, level);
    assert name !in st.scopes[Ancestor(st.scopes, s, j)].vars;
  }

  lemma NoAncestor(scopes: seq<Scope>, level: nat)
    ensures Ancestor(scopes, NO_PARENT, level) == NO_PARENT
  {
  }

  /** A scope further up knows the name as a global or an instance variable. */
  lemma GlobalIsNotDeclared(st: State, s: int, name: string, level: nat)
    requires Invariant(st) && IsUnknownBelow(st, s, name, level) && IsNotDeclared(st, Ancestor(st.scopes, s, level), name)
    ensures IsNotDeclared(st, s, name)
  {
    hide Invariant, IsUnknownBelow, Ancestor;
    forall j: nat | 0 <= Ancestor(st.scopes, s, j) < |st.declared|
      ensures name !in st.declared[Ancestor(st.scopes, s, j)]
    {
      if j < level {
        UnknownIsNotDeclared(st, s, name, level, j);
      } else {
        AncestorOfAncestor(st.scopes, s, level, j - level);
      }
    }
  }

  /** The scope at `level` declares the name. */
  lemma OwnIsDeclaredAt(st: State, s: int, name: string, level: nat)
    requires Invariant(st) && IsUnknownBelow(st, s, name, level) && 0 <= Ancestor(st.scopes, s, level) < |st.declared|
    requires name in st.declared[Ancestor(st.scopes, s, level)]
    ensures IsDeclaredAt(st, s, name, level)
  {
    hide Invariant, IsUnknownBelow, Ancestor;
    forall j: nat | j < level && 0 <= Ancestor(st.scopes, s, j) < |st.declared|
      ensures name !in st.declared[Ancestor(st.scopes, s, j)]
    {
      UnknownIsNotDeclared(st, s, name, level, j);
    }
  }

  /** The scope at `level` has cached the address: its levels add up. */
  lemma CachedIsDeclaredAt(st: State, s: int, name: string, level: nat, more: nat)
    requires Invariant(st) && IsUnknownBelow(st, s, name, level) && IsDeclaredAt(st, Ancestor(st.scopes, s, level), name, more)
    ensures IsDeclaredAt(st, s, name, level + more)
  {
    hide Invariant, IsUnknownBelow, Ancestor;
    AncestorOfAncestor(st.scopes, s, level, more);
    forall j: nat | j < level + more && 0 <= Ancestor(st.scopes, s, j) < |st.declared|
      ensures name !in st.declared[Ancestor(st.scopes, s, j)]
    {
      if j < level {
        UnknownIsNotDeclared(st, s, name, level, j);
      } else {
        AncestorOfAncestor(st.scopes, s, level, j - level);
      }
    }
  }

  ghost predicate HaveContexts(st: State, s: int, level: nat) {
    forall j: nat :: j <= level ==> 0 <= Ancestor(st.scopes, s, j) < |st.scopes| && st.scopes[Ancestor(st.scopes, s, j)].hasContext
  }

  lemma ContextsAddUp(st: State, s: int, level: nat, more: nat)
    requires HaveContexts(st, s, level) && HaveContexts(st, Ancestor(st.scopes, s, level), more)
    ensures HaveContexts(st, s, level + more)
  {
    hide Ancestor;
    forall j: nat | j <= level + more
      ensures 0 <= Ancestor(st.scopes, s, j) < |st.scopes| && st.scopes[Ancestor(st.scopes, s, j)].hasContext
    {
      if level < j {
        AncestorOfAncestor(st.scopes, s, level, j - level);
      }
    }
  }

  lemma {:induction false} AncestorIsFar(st: State, s: int, level: nat)
    requires IsTree(st) && 0 <= Ancestor(st.scopes, s, level)
    ensures Ancestor(st.scopes, s, level) + level <= s
    decreases level
  {
    if level != 0 {
      AncestorIsFar(st, st.scopes[s].parent, level - 1);
    }
  }

  lemma LevelIsBelow(st: State, s: nat, name: string, level: nat)
    requires Invariant(st) && 0 <= Ancestor(st.scopes, s, level) < |st.scopes| && name in st.scopes[Ancestor(st.scopes, s, level)].vars
    ensures level + st.scopes[Ancestor(st.scopes, s, level)].vars[name].level <= s
  {
    hide Ancestor, IsCaptured, IsNotDeclared, AreScopesOk;
    AncestorIsFar(st, s, level);
    var ctx := Ancestor(st.scopes, s, level);
    assert IsVariableOk(st, ctx, name, st.scopes[ctx].vars[name]);
  }

  /** The variable that `name` denotes at `ctx`, seen from `level` scopes below; captured variables are in context slots there. */
  lemma FoundIsOk(st: State, s: int, name: string, level: nat, v: Variable)
    requires Invariant(st) && 0 < level && IsUnknownBelow(st, s, name, level) && HaveContexts(st, s, level)
    requires var ctx := Ancestor(st.scopes, s, level);
             && 0 <= ctx < |st.scopes| && name in st.scopes[ctx].vars
             && !NeedsSlot(st.scopes[ctx].vars[name])
             && v == Seen(st.scopes[ctx].vars[name], level)
    requires name != SUPER && name != THIS_CONTEXT
    ensures IsCaptured(st, s, name, v) || ((v.kind.InstVar? || v.kind.Assoc?) && IsNotDeclared(st, s, name))
    ensures IsOuterOk(st.outer, name, v)
  {
    hide IsUnknownBelow, Ancestor, IsDeclaredAt, IsNotDeclared, AreSlotsOk;
    var ctx := Ancestor(st.scopes, s, level);
    var w := st.scopes[ctx].vars[name];
    assert IsVariableOk(st, ctx, name, w);
    if name in st.declared[ctx] {
      OwnIsDeclaredAt(st, s, name, level);
    } else if IsCaptured(st, ctx, name, w) {
      CachedIsDeclaredAt(st, s, name, level, w.level);
      assert HaveContexts(st, ctx, w.level);
      ContextsAddUp(st, s, level, w.level);
      AncestorOfAncestor(st.scopes, s, level, w.level);
    } else {
      GlobalIsNotDeclared(st, s, name, level);
    }
  }

  /** The descriptor that is cached `level` scopes below: an argument is found in its context slot. */
  function Seen(v: Variable, level: nat): Variable {
    (if v.kind.ArgVar? then v.(kind := ContextVar, index := GetCtxCopy(v)) else v).(level := level + v.level)
  }

  lemma VariablesAreKnown(st: State, s: nat, name: string)
    requires Invariant(st) && s < |st.scopes| && name !in st.scopes[s].vars
    ensures name != SUPER && name != THIS_CONTEXT && name !in st.declared[s]
  {
    hide AreVariablesOk, AreSlotsOk;
  }

  /** Steps that keep parents keep what the search knows. */
  lemma UnknownIsStable(st: State, st': State, s: int, name: string, level: nat)
    requires IsUnknownBelow(st, s, name, level) && HaveSameParents(st, st')
    requires forall t :: 0 <= t < |st.scopes| ==> (name in st'.scopes[t].vars <==> name in st.scopes[t].vars)
    ensures IsUnknownBelow(st', s, name, level) && Ancestor(st'.scopes, s, level) == Ancestor(st.scopes, s, level)
  {
    hide Ancestor;
    AncestorsAreSame(st, st');
  }

  ghost predicate HaveSameVars(st: State, st': State) {
    HaveSameParents(st, st') && forall t :: 0 <= t < |st.scopes| ==> st'.scopes[t].vars == st.scopes[t].vars
  }

  lemma {:induction false} OnTheWay(st: State, s: nat, level: nat, j: nat)
    requires IsTree(st) && 0 <= Ancestor(st.scopes, s, level) && j <= level
    ensures Ancestor(st.scopes, s, level) <= Ancestor(st.scopes, s, j) < |st.scopes|
    ensures j < level ==> Ancestor(st.scopes, s, level) < Ancestor(st.scopes, s, j)
    ensures j < level ==> st.scopes[Ancestor(st.scopes, s, j)].parent == Ancestor(st.scopes, s, j + 1)
    decreases level - j
  {
    if j < level {
      OnTheWay(st, s, level, j + 1);
      AncestorOfAncestor(st.scopes, s, j, 1);
      var a := Ancestor(st.scopes, s, j);
      assert Ancestor(st.scopes, a, 1) == Ancestor(st.scopes, s, j + 1);
    }
  }

  lemma ContextsGrow(st: State, s: nat, j: nat)
    requires 0 <= Ancestor(st.scopes, s, j) < |st.scopes| && (j > 0 ==> HaveContexts(st, s, j - 1))
    ensures HaveContexts(WithContext(st, Ancestor(st.scopes, s, j)), s, j)
  {
    hide Ancestor;
    AncestorsAreSame(st, WithContext(st, Ancestor(st.scopes, s, j)));
  }

  /** Some scope has given away 255 context slots. */
  ghost predicate IsSomeContextFull(scopes: seq<Scope>) {
    exists t :: 0 <= t < |scopes| && scopes[t].contextSize == BYTE_SIZE - 1
  }

  lemma SizeIsByte(st: State, s: nat)
    requires Invariant(st) && s < |st.scopes|
    ensures st.scopes[s].contextSize < BYTE_SIZE
  {
    hide AreVariablesOk, HasSlot;
  }

  lemma ParentsTwice(a: State, b: State, c: State)
    requires HaveSameParents(a, b) && HaveSameParents(b, c)
    ensures HaveSameParents(a, c)
  {
  }

  lemma FirstIsUnknown(st: State, s: nat, name: string)
    requires s < |st.scopes| && name !in st.scopes[s].vars
    ensures IsUnknownBelow(st, s, name, 1) && (IsTree(st) ==> Ancestor(st.scopes, s, 1) == st.scopes[s].parent)
  {
  }

  lemma NextIsUnknown(st: State, s: nat, name: string, level: nat)
    requires IsUnknownBelow(st, s, name, level) && IsTree(st) && 0 <= Ancestor(st.scopes, s, level) < |st.scopes|
    requires name !in st.scopes[Ancestor(st.scopes, s, level)].vars
    ensures IsUnknownBelow(st, s, name, level + 1)
    ensures Ancestor(st.scopes, s, level + 1) == st.scopes[Ancestor(st.scopes, s, level)].parent
  {
    AncestorOfAncestor(st.scopes, s, level, 1);
    var a := Ancestor(st.scopes, s, level);
    assert Ancestor(st.scopes, a, 1) == Ancestor(st.scopes, s, level + 1);
  }

  lemma SameVars(st: State)
    ensures HaveSameVars(st, st)
  {
  }

  lemma SameVarsTwice(a: State, b: State, c: State)
    requires HaveSameVars(a, b) && c == b.(scopes := c.scopes) && |c.scopes| == |b.scopes|
    requires forall t :: 0 <= t < |b.scopes| ==> c.scopes[t].vars == b.scopes[t].vars && c.scopes[t].parent == b.scopes[t].parent
    ensures HaveSameVars(a, c)
  {
  }

  // ---------- What the addresses are good for ----------

  /** Two captured variables with the same slot of the same scope are the same variable, wherever they are used. */
  lemma AddressesAreDistinct(st: State, s: nat, x: string, t: nat, y: string)
    requires Invariant(st) && s < |st.scopes| && t < |st.scopes| && x in st.scopes[s].vars && y in st.scopes[t].vars
    requires IsCaptured(st, s, x, st.scopes[s].vars[x]) && IsCaptured(st, t, y, st.scopes[t].vars[y])
    requires Ancestor(st.scopes, s, st.scopes[s].vars[x].level) == Ancestor(st.scopes, t, st.scopes[t].vars[y].level)
    requires st.scopes[s].vars[x].index == st.scopes[t].vars[y].index
    ensures x == y && st.scopes[s].vars[x].index < st.scopes[Ancestor(st.scopes, s, st.scopes[s].vars[x].level)].contextSize
  {
    hide Ancestor, HasSlot, AreVariablesOk;
    var d := Ancestor(st.scopes, s, st.scopes[s].vars[x].level);
    assert AreSlotsOk(st.scopes[d], st.declared[d]);
  }
}

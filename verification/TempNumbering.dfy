/** processVariables (vm/Compiler.c): the temporaries of a block that stay on its frame are numbered, and captured arguments are copied into the context. */
module TempNumbering {
  import opened Collections
  import opened Scopes

  /** A copy of an argument into a slot of the current context. */
  datatype ContextCopy = ContextCopy(arg: nat, slot: nat)

  predicate IsCapturedArg(v: Variable) {
    v.kind.ArgVar? && HasCtxCopy(v)
  }

  /** Temporaries among the names in `done` have the numbers from `start` up to `end`, each a number of its own; nothing else changes. */
  ghost predicate AreNumbered(vars: map<string, Variable>, vars': map<string, Variable>, done: set<string>, start: nat, end: nat) {
    && vars'.Keys == vars.Keys
    && (forall x :: x in vars && x in vars' ==> vars'[x] == if vars[x].kind.TempVar? && x in done then vars[x].(index := vars'[x].index) else vars[x])
    && (forall x :: x in done && IsNumbered(vars', x) ==> start <= vars'[x].index < end)
    && (forall x, y :: x in done && y in done && IsNumbered(vars', x) && IsNumbered(vars', y) && vars'[x].index == vars'[y].index ==> x == y)
  }

  predicate IsNumbered(vars: map<string, Variable>, x: string) {
    x in vars && vars[x].kind.TempVar?
  }

  function CopyOf(v: Variable): ContextCopy {
    ContextCopy(v.index, GetCtxCopy(v))
  }

  /** The copies are those of the captured arguments among the names in `done`. */
  ghost predicate AreCopied(vars: map<string, Variable>, done: set<string>, copies: seq<ContextCopy>) {
    && (forall x :: x in done && x in vars && IsCapturedArg(vars[x]) ==> CopyOf(vars[x]) in copies)
    && (forall c :: c in copies ==> exists x :: x in done && x in vars && IsCapturedArg(vars[x]) && CopyOf(vars[x]) == c)
  }

  ghost function Temps(vars: map<string, Variable>, done: set<string>): set<string> {
    set x | x in done && IsNumbered(vars, x)
  }

  ghost function CapturedArgs(vars: map<string, Variable>, done: set<string>): set<string> {
    set x | x in done && x in vars && IsCapturedArg(vars[x])
  }

  /** No number is left out, and no argument copied twice. */
  ghost predicate AreCounted(vars: map<string, Variable>, done: set<string>, start: nat, end: nat, copies: seq<ContextCopy>) {
    end == start + |Temps(vars, done)| && |copies| == |CapturedArgs(vars, done)|
  }

  lemma OneIsCounted(vars: map<string, Variable>, done: set<string>, start: nat, end: nat, copies: seq<ContextCopy>, x: string)
    requires AreCounted(vars, done, start, end, copies) && x in vars && x !in done
    ensures vars[x].kind.TempVar? ==> AreCounted(vars, done + {x}, start, end + 1, copies)
    ensures IsCapturedArg(vars[x]) ==> AreCounted(vars, done + {x}, start, end, copies + [CopyOf(vars[x])])
    ensures !vars[x].kind.TempVar? && !IsCapturedArg(vars[x]) ==> AreCounted(vars, done + {x}, start, end, copies)
  {
    hide HasCtxCopy, GetCtxCopy, Temps, CapturedArgs, CopyOf;
    OneMoreTemp(vars, done, x);
    OneMoreCapturedArg(vars, done, x);
  }

  lemma OneMoreTemp(vars: map<string, Variable>, done: set<string>, x: string)
    requires x in vars && x !in done
    ensures |Temps(vars, done + {x})| == |Temps(vars, done)| + if vars[x].kind.TempVar? then 1 else 0
  {
    assert Temps(vars, done + {x}) == Temps(vars, done) + if vars[x].kind.TempVar? then {x} else {};
  }

  lemma OneMoreCapturedArg(vars: map<string, Variable>, done: set<string>, x: string)
    requires x in vars && x !in done
    ensures |CapturedArgs(vars, done + {x})| == |CapturedArgs(vars, done)| + if IsCapturedArg(vars[x]) then 1 else 0
  {
    hide IsCapturedArg;
    assert CapturedArgs(vars, done + {x}) == CapturedArgs(vars, done) + if IsCapturedArg(vars[x]) then {x} else {};
  }

  lemma OneIsNumbered(vars: map<string, Variable>, vars': map<string, Variable>, done: set<string>, start: nat, end: nat, x: string)
    requires AreNumbered(vars, vars', done, start, end) && x in vars' && x !in done
    ensures vars'[x] == vars[x]
    ensures vars[x].kind.TempVar? && start <= end ==> AreNumbered(vars, vars'[x := vars'[x].(index := end)], done + {x}, start, end + 1)
    ensures !vars[x].kind.TempVar? ==> AreNumbered(vars, vars', done + {x}, start, end)
  {
  }

  lemma OneIsCopied(vars: map<string, Variable>, done: set<string>, copies: seq<ContextCopy>, x: string)
    requires AreCopied(vars, done, copies) && x in vars && x !in done
    ensures AreCopied(vars, done + {x}, if IsCapturedArg(vars[x]) then copies + [CopyOf(vars[x])] else copies)
  {
    hide CopyOf, IsCapturedArg;
    var copies' := if IsCapturedArg(vars[x]) then copies + [CopyOf(vars[x])] else copies;
    forall c | c in copies'
      ensures exists y :: y in done + {x} && y in vars && IsCapturedArg(vars[y]) && CopyOf(vars[y]) == c
    {
      if c in copies {
        var y :| y in done && y in vars && IsCapturedArg(vars[y]) && CopyOf(vars[y]) == c;
        assert y in done + {x};
      } else {
        assert x in done + {x};
      }
    }
  }

  lemma OneMoreIsDone(order: seq<string>, i: nat)
    requires HasNoDuplicates(order) && i < |order|
    ensures order[i] !in SetOf(order[..i]) && SetOf(order[..i + 1]) == SetOf(order[..i]) + {order[i]}
  {
    assert order[..i + 1] == order[..i] + [order[i]];
  }

  /**
   processVariables, for the names of a scope in the order of its dictionary: temporaries are
   numbered anew, and captured arguments copied to their slots.  It fails when a number does not fit
   into a byte.
   */
  method ProcessVariables(vars: map<string, Variable>, order: seq<string>, argsSize: nat)
    returns (ok: bool, vars': map<string, Variable>, copies: seq<ContextCopy>, tempsSize: nat)
    requires HasNoDuplicates(order) && SetOf(order) == vars.Keys
    ensures ok ==> AreNumbered(vars, vars', vars.Keys, argsSize + 2, tempsSize) && tempsSize <= BYTE_SIZE && AreCopied(vars, vars.Keys, copies)
    ensures ok ==> AreCounted(vars, vars.Keys, argsSize + 2, tempsSize, copies)
    ensures argsSize + 2 + |order| <= BYTE_SIZE ==> ok
  {
    hide AreNumbered, AreCopied, AreCounted, HasNoDuplicates, GetCtxCopy;
    var i := 0;
    vars', copies, tempsSize := vars, [], argsSize + 2;
    ok := tempsSize <= BYTE_SIZE;
    NothingIsDone(vars, order, tempsSize);
    while i < |order| && ok
      invariant i <= |order| && argsSize + 2 <= tempsSize <= argsSize + 2 + i
      invariant ok ==> tempsSize <= BYTE_SIZE && vars'.Keys == vars.Keys
      invariant ok ==> AreNumbered(vars, vars', SetOf(order[..i]), argsSize + 2, tempsSize) && AreCopied(vars, SetOf(order[..i]), copies)
      invariant ok ==> AreCounted(vars, SetOf(order[..i]), argsSize + 2, tempsSize, copies)
      invariant argsSize + 2 + |order| <= BYTE_SIZE ==> ok
    {
      var x := order[i];
      assert x in SetOf(order);
      OneMoreIsDone(order, i);
      OneIsNumbered(vars, vars', SetOf(order[..i]), argsSize + 2, tempsSize, x);
      OneIsCopied(vars, SetOf(order[..i]), copies, x);
      OneIsCounted(vars, SetOf(order[..i]), argsSize + 2, tempsSize, copies, x);
      if vars'[x].kind.TempVar? {
        if tempsSize == BYTE_SIZE {
          ok := false;
        } else {
          vars' := vars'[x := vars'[x].(index := tempsSize)];
          tempsSize := tempsSize + 1;
        }
      } else if vars'[x].kind.ArgVar? && HasCtxCopy(vars'[x]) {
        copies := copies + [ContextCopy(vars'[x].index, GetCtxCopy(vars'[x]))];
      }
      i := i + 1;
    }
    assert order[..|order|] == order;
  }

  lemma NothingIsDone(vars: map<string, Variable>, order: seq<string>, start: nat)
    ensures SetOf(order[..0]) == {} && AreNumbered(vars, vars, {}, start, start) && AreCopied(vars, {}, [])
    ensures AreCounted(vars, {}, start, start, [])
  {
    assert Temps(vars, {}) == {} && CapturedArgs(vars, {}) == {};
  }
}

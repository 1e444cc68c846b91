/** How scopes look when a block has been analyzed, and with which error its parts end. */
module AnalyzedBlocks {
  import opened Collections
  import opened Scopes
  import opened Blocks
  import opened ScopeDefinitions
  import opened Visibility

  const CONTEXT_INDEX: nat := 0

  /** The name has an address in scope `s`; whoever uses the context has one. */
  predicate HasAddress(st: State, s: nat, name: string) {
    s < |st.scopes| && name in st.scopes[s].vars && (name == THIS_CONTEXT ==> st.scopes[s].hasContext)
  }

  /** What is assigned to has an address, up to the first target that is an error. */
  ghost predicate AreTargetsFound(st: State, s: nat, targets: seq<Target>, env: Env) {
    forall i :: 0 <= i < |targets| && !SomeFails(targets[..i + 1], env) && targets[i].Assignable? ==> HasAddress(st, s, targets[i].name)
  }

  /** `s` is the scope of the block, with its own variables. */
  ghost predicate IsScopeOf(st: State, block: Block, s: nat, parent: int) {
    && s < |st.scopes| && s < |st.declared|
    && st.scopes[s].parent == parent && st.scopes[s].argsSize == |block.args|
    && st.declared[s] == SetOf(OwnNames(block)) && AreOwn(block, st.scopes[s].vars)
  }

  /** The scopes of the blocks inside it come next. */
  ghost predicate IsAnalyzed(st: State, block: Block, s: nat, parent: int, env: Env)
    decreases block, 0
  {
    IsScopeOf(st, block, s, parent) && AreAnalyzed(st, block.body, s, Inside(env, block))
  }

  ghost predicate AreAnalyzed(st: State, body: seq<Expression>, s: nat, env: Env)
    decreases body, 0
  {
    body == [] || (
      && AreAnalyzed(st, body[..|body| - 1], s, env)
      && IsExpressionAnalyzed(st, body[|body| - 1], s, s + 1 + ScopesOfBody(body[..|body| - 1]), env)
    )
  }

  ghost predicate IsExpressionAnalyzed(st: State, e: Expression, s: nat, next: nat, env: Env)
    decreases e, 1
  {
    ArePartsAnalyzed(st, e, s, next, env) && AreTargetsFound(st, s, AllTargets(e), env)
  }

  ghost predicate ArePartsAnalyzed(st: State, e: Expression, s: nat, next: nat, env: Env)
    decreases e, 0
  {
    IsReceiverAnalyzed(st, e.receiver, s, next, env) && AreArgsAnalyzed(st, e.args, s, next + ScopesOfLiteral(e.receiver), env)
  }

  ghost predicate IsReceiverAnalyzed(st: State, lit: Literal, s: nat, next: nat, env: Env)
    decreases lit, 0
  {
    match lit
    case Name(name) => HasAddress(st, s, name)
    case Parenthesized(e) => ArePartsAnalyzed(st, e, s, next, env)
    case Nested(block) => IsAnalyzed(st, block, next, s, env)
    case Constant => true
  }

  ghost predicate IsLiteralAnalyzed(st: State, lit: Literal, s: nat, next: nat, env: Env)
    decreases lit, 1
  {
    IsReceiverAnalyzed(st, lit, s, next, env) && AreTargetsFound(st, s, TargetsOf(lit), env)
  }

  ghost predicate AreArgsAnalyzed(st: State, args: seq<Literal>, s: nat, next: nat, env: Env)
    decreases args, 0
  {
    args == [] || (
      && AreArgsAnalyzed(st, args[..|args| - 1], s, next, env)
      && IsLiteralAnalyzed(st, args[|args| - 1], s, next + ScopesOfAll(args[..|args| - 1]), env)
    )
  }

  // What was analyzed stays so.

  lemma AddressIsStable(st: State, st': State, s: nat, name: string)
    requires HasAddress(st, s, name) && Grows(st, st')
    ensures HasAddress(st', s, name)
  {
    hide IsLater;
  }

  lemma TargetsAreStable(st: State, st': State, s: nat, targets: seq<Target>, env: Env)
    requires AreTargetsFound(st, s, targets, env) && Grows(st, st')
    ensures AreTargetsFound(st', s, targets, env)
  {
    hide Grows, SomeFails, HasAddress;
    forall i | 0 <= i < |targets| && !SomeFails(targets[..i + 1], env) && targets[i].Assignable?
      ensures HasAddress(st', s, targets[i].name)
    {
      AddressIsStable(st, st', s, targets[i].name);
    }
  }

  lemma ScopeIsStable(st: State, st': State, block: Block, s: nat, parent: int)
    requires IsScopeOf(st, block, s, parent) && Grows(st, st')
    ensures IsScopeOf(st', block, s, parent)
  {
    hide IsLater;
    forall i | 0 <= i < |OwnNames(block)|
      ensures OwnNames(block)[i] in st'.scopes[s].vars && IsLater(OwnVariable(block, i), st'.scopes[s].vars[OwnNames(block)[i]])
    {
      var name := OwnNames(block)[i];
      LaterTwice(OwnVariable(block, i), st.scopes[s].vars[name], st'.scopes[s].vars[name]);
    }
  }

  lemma {:induction false} AnalyzedIsStable(st: State, st': State, block: Block, s: nat, parent: int, env: Env)
    requires IsAnalyzed(st, block, s, parent, env) && Grows(st, st')
    ensures IsAnalyzed(st', block, s, parent, env)
    decreases block, 0
  {
    hide Grows, IsScopeOf;
    ScopeIsStable(st, st', block, s, parent);
    AreAnalyzedIsStable(st, st', block.body, s, Inside(env, block));
  }

  lemma {:induction false} AreAnalyzedIsStable(st: State, st': State, body: seq<Expression>, s: nat, env: Env)
    requires AreAnalyzed(st, body, s, env) && Grows(st, st')
    ensures AreAnalyzed(st', body, s, env)
    decreases body, 0
  {
    hide Grows, AreTargetsFound, ArePartsAnalyzed;
    if body != [] {
      var init, e := body[..|body| - 1], body[|body| - 1];
      AreAnalyzedIsStable(st, st', init, s, env);
      PartsAreStable(st, st', e, s, s + 1 + ScopesOfBody(init), env);
      TargetsAreStable(st, st', s, AllTargets(e), env);
    }
  }

  lemma {:induction false} PartsAreStable(st: State, st': State, e: Expression, s: nat, next: nat, env: Env)
    requires ArePartsAnalyzed(st, e, s, next, env) && Grows(st, st')
    ensures ArePartsAnalyzed(st', e, s, next, env)
    decreases e, 0
  {
    hide Grows, IsReceiverAnalyzed, AreArgsAnalyzed;
    ReceiverIsStable(st, st', e.receiver, s, next, env);
    ArgsAreStable(st, st', e.args, s, next + ScopesOfLiteral(e.receiver), env);
  }

  lemma {:induction false} ReceiverIsStable(st: State, st': State, lit: Literal, s: nat, next: nat, env: Env)
    requires IsReceiverAnalyzed(st, lit, s, next, env) && Grows(st, st')
    ensures IsReceiverAnalyzed(st', lit, s, next, env)
    decreases lit, 0
  {
    hide Grows, ArePartsAnalyzed, IsAnalyzed, HasAddress;
    match lit
    case Name(name) => AddressIsStable(st, st', s, name);
    case Parenthesized(e) => PartsAreStable(st, st', e, s, next, env);
    case Nested(block) => AnalyzedIsStable(st, st', block, next, s, env);
    case Constant =>
  }

  lemma {:induction false} ArgsAreStable(st: State, st': State, args: seq<Literal>, s: nat, next: nat, env: Env)
    requires AreArgsAnalyzed(st, args, s, next, env) && Grows(st, st')
    ensures AreArgsAnalyzed(st', args, s, next, env)
    decreases args, 0
  {
    hide Grows, IsReceiverAnalyzed, AreTargetsFound;
    if args != [] {
      var init, lit := args[..|args| - 1], args[|args| - 1];
      ArgsAreStable(st, st', init, s, next, env);
      ReceiverIsStable(st, st', lit, s, next + ScopesOfAll(init), env);
      TargetsAreStable(st, st', s, TargetsOf(lit), env);
    }
  }

  // ---------- Results ----------

  /** The end of the analysis of a literal in scope `s`, whose error was `pending` at the start and is `error` now. */
  ghost predicate IsLiteralResult(lit: Literal, env: Env, pending: Error, st: State, s: nat, next: nat, error: Error) {
    && (error == NoError <==> !ReceiverFails(lit, env) && (IsBlock(lit) || (pending == NoError && !SomeFails(TargetsOf(lit), env))))
    && (error != NoError ==> error == pending || LiteralHasFlaw(lit, env, error))
    && (error == NoError ==> |st.scopes| == next + ScopesOfLiteral(lit) && IsReceiverAnalyzed(st, lit, s, next, env))
    && (error == NoError && pending == NoError ==> AreTargetsFound(st, s, TargetsOf(lit), env))
  }

  ghost predicate IsExpressionResult(e: Expression, env: Env, pending: Error, st: State, s: nat, next: nat, error: Error) {
    && (error == NoError <==> !PartsFail(e, env) && (IsBlock(e.receiver) || (pending == NoError && !SomeFails(AllTargets(e), env))))
    && (error != NoError ==> error == pending || ExpressionHasFlaw(e, env, error))
    && (error == NoError ==> |st.scopes| == next + ScopesOfExpression(e) && ArePartsAnalyzed(st, e, s, next, env))
    && (error == NoError && pending == NoError ==> AreTargetsFound(st, s, AllTargets(e), env))
  }

  ghost predicate IsBlockResult(block: Block, env: Env, st: State, s: nat, parent: int, error: Error) {
    && (error == NoError <==> !HasError(block, env))
    && (error != NoError ==> BlockHasFlaw(block, env, error))
    && (error == NoError ==> |st.scopes| == s + ScopesOf(block) && IsAnalyzed(st, block, s, parent, env))
  }

  ghost predicate IsTargetsResult(targets: seq<Target>, env: Env, pending: Error, st: State, s: nat, error: Error) {
    && (error == NoError <==> pending == NoError && !SomeFails(targets, env))
    && (error != NoError ==> error == pending || exists i :: 0 <= i < |targets| && IsFlawOf(targets[i], env, error))
    && (pending == NoError ==> AreTargetsFound(st, s, targets, env))
  }

  ghost predicate IsArgsResult(args: seq<Literal>, env: Env, st: State, s: nat, next: nat, error: Error) {
    && (error == NoError <==> !exists i :: 0 <= i < |args| && LiteralFails(args[i], env))
    && (error != NoError ==> exists i :: 0 <= i < |args| && LiteralHasFlaw(args[i], env, error))
    && (error == NoError ==> |st.scopes| == next + ScopesOfAll(args) && AreArgsAnalyzed(st, args, s, next, env))
  }

  // Targets.

  lemma {:induction false} OneMoreTarget(targets: seq<Target>, i: nat, env: Env)
    requires i < |targets|
    ensures SomeFails(targets[..i + 1], env) <==> SomeFails(targets[..i], env) || Fails(targets[i], env)
    ensures SomeFails(targets[..i + 1], env) ==> SomeFails(targets, env)
  {
    hide Fails;
    assert targets[..i + 1][i] == targets[i] && forall j :: 0 <= j < i ==> targets[..i + 1][j] == targets[..i][j] == targets[j];
    if SomeFails(targets[..i], env) {
      var j :| 0 <= j < i && Fails(targets[..i][j], env);
      assert Fails(targets[..i + 1][j], env);
    }
    if SomeFails(targets[..i + 1], env) {
      var j :| 0 <= j < i + 1 && Fails(targets[..i + 1][j], env);
      assert Fails(targets[j], env);
    }
  }

  lemma OneMoreIsFound(st: State, s: nat, targets: seq<Target>, i: nat, env: Env)
    requires i < |targets| && AreTargetsFound(st, s, targets[..i], env)
    requires !SomeFails(targets[..i + 1], env) && targets[i].Assignable? ==> HasAddress(st, s, targets[i].name)
    ensures AreTargetsFound(st, s, targets[..i + 1], env)
  {
    hide SomeFails, HasAddress;
    var some := targets[..i + 1];
    forall j | 0 <= j < |some| && !SomeFails(some[..j + 1], env) && some[j].Assignable?
      ensures HasAddress(st, s, some[j].name)
    {
      assert some[..j + 1] == targets[..j + 1] && (j < i ==> targets[..i][..j + 1] == targets[..j + 1]);
      assert j < i ==> targets[..i][j] == some[j];
    }
  }

  lemma FailsFurther(targets: seq<Target>, i: nat, j: nat, env: Env)
    requires i <= j <= |targets| && SomeFails(targets[..i], env)
    ensures SomeFails(targets[..j], env)
  {
    hide Fails;
    var k :| 0 <= k < i && Fails(targets[..i][k], env);
    assert targets[..j][k] == targets[..i][k];
  }

  /** Nothing behind a target that is an error needs to be found. */
  lemma RestIsNotFound(st: State, s: nat, targets: seq<Target>, i: nat, env: Env)
    requires i <= |targets| && AreTargetsFound(st, s, targets[..i], env) && SomeFails(targets[..i], env)
    ensures AreTargetsFound(st, s, targets, env)
  {
    hide HasAddress, SomeFails;
    forall j | 0 <= j < |targets| && !SomeFails(targets[..j + 1], env) && targets[j].Assignable?
      ensures HasAddress(st, s, targets[j].name)
    {
      if i <= j {
        FailsFurther(targets, i, j + 1, env);
        assert false;
      }
      assert targets[..i][..j + 1] == targets[..j + 1];
      assert targets[..i][j] == targets[j];
    }
  }

  lemma SomeOfTwo(a: seq<Target>, b: seq<Target>, env: Env)
    ensures SomeFails(a + b, env) <==> SomeFails(a, env) || SomeFails(b, env)
  {
    hide Fails;
    var all := a + b;
    assert forall i :: 0 <= i < |all| ==> all[i] == if i < |a| then a[i] else b[i - |a|];
    if i :| 0 <= i < |a| && Fails(a[i], env) {
      assert Fails(all[i], env);
    }
    if i :| 0 <= i < |b| && Fails(b[i], env) {
      assert all[|a| + i] == b[i];
      assert Fails(all[|a| + i], env);
    }
  }

  lemma BothAreFound(st: State, s: nat, a: seq<Target>, b: seq<Target>, env: Env)
    requires AreTargetsFound(st, s, a, env) && (!SomeFails(a, env) ==> AreTargetsFound(st, s, b, env))
    ensures AreTargetsFound(st, s, a + b, env)
  {
    hide SomeFails, HasAddress;
    var all := a + b;
    forall i | 0 <= i < |all| && !SomeFails(all[..i + 1], env) && all[i].Assignable?
      ensures HasAddress(st, s, all[i].name)
    {
      if i < |a| {
        assert all[..i + 1] == a[..i + 1];
      } else {
        assert all[..i + 1] == a + b[..i - |a| + 1];
        SomeOfTwo(a, b[..i - |a| + 1], env);
      }
    }
  }

  // Expressions.

  /** After the targets and the receiver: an error ends the expression, and its absence hides that of a target only behind a block. */
  lemma ReceiverIsDone(e: Expression, env: Env, pending: Error, st0: State, between: Error, st: State, s: nat, next: nat, error: Error)
    requires IsTargetsResult(e.targets, env, pending, st0, s, between) && IsLiteralResult(e.receiver, env, between, st, s, next, error) && Grows(st0, st)
    ensures error == NoError <==> !ReceiverFails(e.receiver, env) && (IsBlock(e.receiver) || (pending == NoError && !SomeFails(AllTargets(e), env)))
    ensures error != NoError ==> IsExpressionResult(e, env, pending, st, s, next, error)
    ensures error == NoError && pending == NoError ==> AreTargetsFound(st, s, AllTargets(e), env)
  {
    hide ReceiverFails, SomeFails, AreTargetsFound, LiteralHasFlaw, IsReceiverAnalyzed, IsFlawOf, LiteralFails, ArePartsAnalyzed, Grows;
    SomeOfTwo(e.targets, TargetsOf(e.receiver), env);
    if pending == NoError {
      TargetsAreStable(st0, st, s, e.targets, env);
      if error == NoError {
        BothAreFound(st, s, e.targets, TargetsOf(e.receiver), env);
      }
    }
  }

  lemma ExpressionIsDone(e: Expression, env: Env, pending: Error, st0: State, st: State, s: nat, next: nat, error: Error)
    requires !ReceiverFails(e.receiver, env) && (IsBlock(e.receiver) || (pending == NoError && !SomeFails(AllTargets(e), env)))
    requires pending == NoError ==> AreTargetsFound(st0, s, AllTargets(e), env)
    requires |st0.scopes| == next + ScopesOfLiteral(e.receiver) && IsReceiverAnalyzed(st0, e.receiver, s, next, env) && Grows(st0, st)
    requires IsArgsResult(e.args, env, st, s, |st0.scopes|, error)
    ensures IsExpressionResult(e, env, pending, st, s, next, error)
  {
    hide ReceiverFails, SomeFails, AreTargetsFound, LiteralHasFlaw, IsReceiverAnalyzed, IsFlawOf, LiteralFails, Grows, AreArgsAnalyzed;
    ReceiverIsStable(st0, st, e.receiver, s, next, env);
    if pending == NoError {
      TargetsAreStable(st0, st, s, AllTargets(e), env);
    }
  }

  // Arguments.

  lemma ArgumentResult(lit: Literal, env: Env, st: State, s: nat, next: nat, error: Error)
    requires IsLiteralResult(lit, env, NoError, st, s, next, error)
    ensures error == NoError <==> !LiteralFails(lit, env)
    ensures error != NoError ==> LiteralHasFlaw(lit, env, error)
    ensures error == NoError ==> |st.scopes| == next + ScopesOfLiteral(lit) && IsLiteralAnalyzed(st, lit, s, next, env)
  {
    hide ReceiverFails, SomeFails, AreTargetsFound, LiteralHasFlaw, IsReceiverAnalyzed;
  }

  lemma ArgumentFails(args: seq<Literal>, i: nat, env: Env, st: State, s: nat, next: nat, error: Error)
    requires i < |args| && LiteralFails(args[i], env) && LiteralHasFlaw(args[i], env, error) && error != NoError
    ensures IsArgsResult(args, env, st, s, next, error)
  {
    hide LiteralFails, LiteralHasFlaw;
  }

  lemma OneMoreArgument(st0: State, st: State, args: seq<Literal>, i: nat, s: nat, next: nat, env: Env)
    requires i < |args| && AreArgsAnalyzed(st0, args[..i], s, next, env) && Grows(st0, st)
    requires IsLiteralAnalyzed(st, args[i], s, next + ScopesOfAll(args[..i]), env)
    ensures AreArgsAnalyzed(st, args[..i + 1], s, next, env)
  {
    hide IsLiteralAnalyzed, Grows;
    ArgsAreStable(st0, st, args[..i], s, next, env);
    assert args[..i + 1][..i] == args[..i];
  }

  lemma NoArgument(st: State, args: seq<Literal>, s: nat, next: nat, env: Env)
    ensures AreArgsAnalyzed(st, args[..0], s, next, env) && ScopesOfAll(args[..0]) == 0
  {
  }

  lemma AllArguments(args: seq<Literal>, env: Env, st: State, s: nat, next: nat)
    requires AreArgsAnalyzed(st, args[..|args|], s, next, env) && |st.scopes| == next + ScopesOfAll(args[..|args|])
    requires forall i :: 0 <= i < |args| ==> !LiteralFails(args[i], env)
    ensures IsArgsResult(args, env, st, s, next, NoError)
  {
    hide LiteralFails, AreArgsAnalyzed;
    assert args[..|args|] == args;
  }

  // Blocks.

  lemma StatementResult(e: Expression, env: Env, st: State, s: nat, next: nat, error: Error)
    requires IsExpressionResult(e, env, NoError, st, s, next, error)
    ensures error == NoError <==> !IsRejected(e, env)
    ensures error != NoError ==> ExpressionHasFlaw(e, env, error)
    ensures error == NoError ==> |st.scopes| == next + ScopesOfExpression(e) && IsExpressionAnalyzed(st, e, s, next, env)
  {
    hide PartsFail, SomeFails, AreTargetsFound, ExpressionHasFlaw, ArePartsAnalyzed;
  }

  lemma StatementFails(block: Block, i: nat, env: Env, st: State, s: nat, parent: int, error: Error)
    requires i < |block.body| && IsRejected(block.body[i], Inside(env, block)) && ExpressionHasFlaw(block.body[i], Inside(env, block), error) && error != NoError
    ensures IsBlockResult(block, env, st, s, parent, error)
  {
    hide IsRejected, ExpressionHasFlaw, Inside, HasNoDuplicates;
  }

  lemma OneMoreStatement(st0: State, st: State, body: seq<Expression>, i: nat, s: nat, env: Env)
    requires i < |body| && AreAnalyzed(st0, body[..i], s, env) && Grows(st0, st)
    requires IsExpressionAnalyzed(st, body[i], s, s + 1 + ScopesOfBody(body[..i]), env)
    ensures AreAnalyzed(st, body[..i + 1], s, env)
  {
    hide IsExpressionAnalyzed, Grows;
    AreAnalyzedIsStable(st0, st, body[..i], s, env);
    assert body[..i + 1][..i] == body[..i];
  }

  lemma NoStatement(st: State, body: seq<Expression>, s: nat, env: Env)
    ensures AreAnalyzed(st, body[..0], s, env) && ScopesOfBody(body[..0]) == 0
  {
  }

  lemma AllStatements(block: Block, env: Env, st: State, s: nat, parent: int)
    requires IsScopeOf(st, block, s, parent) && HasNoDuplicates(OwnNames(block))
    requires AreAnalyzed(st, block.body[..|block.body|], s, Inside(env, block)) && |st.scopes| == s + 1 + ScopesOfBody(block.body[..|block.body|])
    requires forall i :: 0 <= i < |block.body| ==> !IsRejected(block.body[i], Inside(env, block))
    ensures IsBlockResult(block, env, st, s, parent, NoError)
  {
    hide IsRejected, Inside, HasNoDuplicates, IsScopeOf, AreAnalyzed;
    assert block.body[..|block.body|] == block.body;
  }

  lemma NamesAreRedefined(block: Block, env: Env, st: State, s: nat, parent: int)
    requires !HasNoDuplicates(OwnNames(block))
    ensures IsBlockResult(block, env, st, s, parent, Redefined)
  {
    hide Inside, HasNoDuplicates;
  }

  // ---------- How many scopes, and how many names ----------

  /** No scope declares so many names that it could run out of context slots. */
  ghost predicate AreFew(declared: seq<set<string>>) {
    forall s :: 0 <= s < |declared| ==> |declared[s]| < BYTE_SIZE - 1
  }

  ghost predicate IsBounded(st: State, st': State, count: nat, isSmall: bool) {
    |st'.scopes| <= |st.scopes| + count && (AreFew(st.declared) && isSmall ==> AreFew(st'.declared))
  }

  lemma FewNeverFill(st: State)
    requires Invariant(st) && AreFew(st.declared)
    ensures !IsSomeContextFull(st.scopes)
  {
    hide AreVariablesOk, AreOutersOk, HasSlot, HasSomeSlot;
    forall s | 0 <= s < |st.scopes|
      ensures st.scopes[s].contextSize != BYTE_SIZE - 1
    {
      assert AreSlotsOk(st.scopes[s], st.declared[s]);
      SubsetIsSmaller(Slotted(st.scopes[s], st.declared[s]), st.declared[s]);
    }
  }
}

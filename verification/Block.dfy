/**
 The blocks that are analyzed, and which of them the analysis accepts (vm/Scope.c), told without the
 scopes that it builds.
 */
module Blocks {
  import opened Collections
  import opened Scopes

  /** The error of a scope. */
  datatype Error = NoError | Undefined | Redefined | Readonly

  datatype Block = Block(args: seq<string>, temps: seq<string>, body: seq<Expression>)

  /** `targets` are what is assigned to, from left to right, `args` the arguments of all messages in their order. */
  datatype Expression = Expression(targets: seq<Target>, receiver: Literal, args: seq<Literal>)

  /** A literal that is no variable is assigned to in vain. */
  datatype Target = Assignable(name: string) | NotAssignable

  datatype Literal = Name(name: string) | Parenthesized(expression: Expression) | Nested(block: Block) | Constant

  function OwnNames(block: Block): seq<string> {
    [THIS_CONTEXT, SUPER, SELF] + block.args + block.temps
  }

  // ---------- What a name is known as ----------

  /**
   `known` are the names that a block around declares or that are instance variables, `fixed` those of
   them that cannot be assigned to, because the innermost declaration is that of an argument.
   */
  datatype Env = Env(known: set<string>, fixed: set<string>, isGlobal: string -> bool)

  predicate IsKnown(name: string, env: Env) {
    name in env.known || env.isGlobal(name)
  }

  ghost function FixedNames(block: Block): set<string> {
    {SUPER, SELF} + SetOf(block.args)
  }

  ghost function Inside(env: Env, block: Block): Env {
    env.(known := env.known + SetOf(OwnNames(block)), fixed := env.fixed - SetOf(OwnNames(block)) + FixedNames(block))
  }

  // ---------- Flaws ----------

  /** What is wrong with an assignment, by itself. */
  predicate IsFlawOf(t: Target, env: Env, flaw: Error) {
    flaw == if t.NotAssignable? then Readonly else if !IsKnown(t.name, env) then Undefined else if t.name in env.fixed then Readonly else NoError
  }

  predicate Fails(t: Target, env: Env) {
    !IsFlawOf(t, env, NoError)
  }

  /** Something is wrong in the block or a block inside it. */
  ghost predicate BlockHasFlaw(block: Block, env: Env, flaw: Error) {
    || (flaw == Redefined && !HasNoDuplicates(OwnNames(block)))
    || exists i :: 0 <= i < |block.body| && ExpressionHasFlaw(block.body[i], Inside(env, block), flaw)
  }

  ghost predicate ExpressionHasFlaw(e: Expression, env: Env, flaw: Error) {
    || (exists i :: 0 <= i < |e.targets| && IsFlawOf(e.targets[i], env, flaw))
    || LiteralHasFlaw(e.receiver, env, flaw)
    || exists i :: 0 <= i < |e.args| && LiteralHasFlaw(e.args[i], env, flaw)
  }

  ghost predicate LiteralHasFlaw(lit: Literal, env: Env, flaw: Error) {
    match lit
    case Name(name) => flaw == Undefined && !IsKnown(name, env)
    case Parenthesized(e) => ExpressionHasFlaw(e, env, flaw)
    case Nested(block) => BlockHasFlaw(block, env, flaw)
    case Constant => false
  }

  ghost predicate HasSomeFlaw(block: Block, env: Env) {
    exists flaw :: flaw != NoError && BlockHasFlaw(block, env, flaw)
  }

  // ---------- Errors ----------

  /** The targets of an expression and of the expressions that are its receiver, through parentheses. */
  function AllTargets(e: Expression): seq<Target> {
    e.targets + TargetsOf(e.receiver)
  }

  function TargetsOf(lit: Literal): seq<Target> {
    match lit
    case Parenthesized(e) => AllTargets(e)
    case _ => []
  }

  ghost predicate SomeFails(targets: seq<Target>, env: Env) {
    exists i :: 0 <= i < |targets| && Fails(targets[i], env)
  }

  /** A block, maybe in parentheses: what it is assigned to does not matter then, as its own error replaces the one of the assignment. */
  predicate IsBlock(lit: Literal) {
    match lit
    case Nested(_) => true
    case Parenthesized(e) => IsBlock(e.receiver)
    case _ => false
  }

  /** The analysis of the block ends with an error. */
  ghost predicate HasError(block: Block, env: Env)
    decreases block, 0
  {
    || !HasNoDuplicates(OwnNames(block))
    || exists i :: 0 <= i < |block.body| && IsRejected(block.body[i], Inside(env, block))
  }

  ghost predicate IsRejected(e: Expression, env: Env)
    decreases e, 1
  {
    PartsFail(e, env) || (SomeFails(AllTargets(e), env) && !IsBlock(e.receiver))
  }

  /** There is an error apart from the assignments. */
  ghost predicate PartsFail(e: Expression, env: Env)
    decreases e, 0
  {
    ReceiverFails(e.receiver, env) || exists i :: 0 <= i < |e.args| && LiteralFails(e.args[i], env)
  }

  ghost predicate ReceiverFails(lit: Literal, env: Env)
    decreases lit, 0
  {
    match lit
    case Name(name) => !IsKnown(name, env)
    case Parenthesized(e) => PartsFail(e, env)
    case Nested(block) => HasError(block, env)
    case Constant => false
  }

  ghost predicate LiteralFails(lit: Literal, env: Env)
    decreases lit, 1
  {
    ReceiverFails(lit, env) || (SomeFails(TargetsOf(lit), env) && !IsBlock(lit))
  }

  // ---------- Errors that are lost ----------

  /** A block is assigned, and the assignment alone would be an error. */
  ghost predicate IsLost(e: Expression, env: Env) {
    SomeFails(AllTargets(e), env) && IsBlock(e.receiver)
  }

  /** The block or one inside it has such an expression. */
  ghost predicate BlockLoses(block: Block, env: Env) {
    exists i :: 0 <= i < |block.body| && ExpressionLoses(block.body[i], Inside(env, block))
  }

  ghost predicate ExpressionLoses(e: Expression, env: Env) {
    IsLost(e, env) || LiteralLoses(e.receiver, env) || exists i :: 0 <= i < |e.args| && LiteralLoses(e.args[i], env)
  }

  ghost predicate LiteralLoses(lit: Literal, env: Env) {
    match lit
    case Parenthesized(e) => ExpressionLoses(e, env)
    case Nested(block) => BlockLoses(block, env)
    case _ => false
  }

  /**
   The analysis of a block ends without an error although something is wrong in it exactly when all
   that is wrong are assignments of blocks.
   */
  lemma AcceptedFlaws(block: Block, env: Env)
    requires !HasError(block, env)
    ensures HasSomeFlaw(block, env) <==> BlockLoses(block, env)
  {
    if HasSomeFlaw(block, env) {
      var flaw :| flaw != NoError && BlockHasFlaw(block, env, flaw);
      BlockFlawShows(block, env, flaw);
    }
    if BlockLoses(block, env) {
      BlockIsFlawed(block, env);
    }
  }

  /** An error is never reported without a reason. */
  lemma ErrorsAreFlaws(block: Block, env: Env)
    requires HasError(block, env)
    ensures HasSomeFlaw(block, env)
  {
    BlockIsFlawed(block, env);
  }

  lemma {:induction false} BlockFlawShows(block: Block, env: Env, flaw: Error)
    requires flaw != NoError && BlockHasFlaw(block, env, flaw)
    ensures HasError(block, env) || BlockLoses(block, env)
  {
    hide Inside, HasNoDuplicates, ExpressionHasFlaw, ExpressionLoses, PartsFail;
    if HasNoDuplicates(OwnNames(block)) {
      var i :| 0 <= i < |block.body| && ExpressionHasFlaw(block.body[i], Inside(env, block), flaw);
      ExpressionFlawShows(block.body[i], Inside(env, block), flaw);
      assert IsRejected(block.body[i], Inside(env, block)) || ExpressionLoses(block.body[i], Inside(env, block)) by {
        if IsLost(block.body[i], Inside(env, block)) {
          LostIsLost(block.body[i], Inside(env, block));
        }
      }
    }
  }

  lemma LostIsLost(e: Expression, env: Env)
    requires IsLost(e, env)
    ensures ExpressionLoses(e, env)
  {
  }

  lemma {:induction false} ExpressionFlawShows(e: Expression, env: Env, flaw: Error)
    requires flaw != NoError && ExpressionHasFlaw(e, env, flaw)
    ensures PartsFail(e, env) || SomeFails(AllTargets(e), env) || ExpressionLoses(e, env)
  {
    hide ReceiverFails, LiteralLoses, LiteralHasFlaw, IsLost, IsFlawOf, TargetsOf;
    if i :| 0 <= i < |e.targets| && IsFlawOf(e.targets[i], env, flaw) {
      FlawFails(e.targets[i], env, flaw);
      assert AllTargets(e)[i] == e.targets[i];
    } else if LiteralHasFlaw(e.receiver, env, flaw) {
      LiteralFlawShows(e.receiver, env, flaw);
      PartOfTargets(e, env);
    } else {
      var i :| 0 <= i < |e.args| && LiteralHasFlaw(e.args[i], env, flaw);
      LiteralFlawShows(e.args[i], env, flaw);
      if !LiteralFails(e.args[i], env) && !LiteralLoses(e.args[i], env) {
        BlockArgument(e.args[i], env);
      }
    }
  }

  lemma FlawFails(t: Target, env: Env, flaw: Error)
    requires flaw != NoError && IsFlawOf(t, env, flaw)
    ensures Fails(t, env)
  {
  }

  lemma PartOfTargets(e: Expression, env: Env)
    ensures SomeFails(TargetsOf(e.receiver), env) ==> SomeFails(AllTargets(e), env)
  {
    if i :| 0 <= i < |TargetsOf(e.receiver)| && Fails(TargetsOf(e.receiver)[i], env) {
      assert AllTargets(e)[|e.targets| + i] == TargetsOf(e.receiver)[i];
    }
  }

  lemma BlockArgument(lit: Literal, env: Env)
    requires SomeFails(TargetsOf(lit), env) && IsBlock(lit)
    ensures LiteralLoses(lit, env)
  {
  }

  lemma {:induction false} LiteralFlawShows(lit: Literal, env: Env, flaw: Error)
    requires flaw != NoError && LiteralHasFlaw(lit, env, flaw)
    ensures ReceiverFails(lit, env) || SomeFails(TargetsOf(lit), env) || LiteralLoses(lit, env)
  {
    match lit
    case Parenthesized(e) => ExpressionFlawShows(e, env, flaw);
    case Nested(block) => BlockFlawShows(block, env, flaw);
    case _ =>
  }

  lemma {:induction false} BlockIsFlawed(block: Block, env: Env)
    requires HasError(block, env) || BlockLoses(block, env)
    ensures HasSomeFlaw(block, env)
  {
    hide Inside, HasNoDuplicates, ExpressionHasFlaw, ExpressionLoses, IsRejected;
    if !HasNoDuplicates(OwnNames(block)) {
      assert BlockHasFlaw(block, env, Redefined);
    } else {
      var i :| 0 <= i < |block.body| && (IsRejected(block.body[i], Inside(env, block)) || ExpressionLoses(block.body[i], Inside(env, block)));
      RejectedParts(block.body[i], Inside(env, block));
      var flaw := ExpressionIsFlawed(block.body[i], Inside(env, block));
      assert BlockHasFlaw(block, env, flaw);
    }
  }

  lemma RejectedParts(e: Expression, env: Env)
    ensures IsRejected(e, env) ==> PartsFail(e, env) || SomeFails(AllTargets(e), env)
  {
  }

  lemma {:induction false} ExpressionIsFlawed(e: Expression, env: Env) returns (flaw: Error)
    requires PartsFail(e, env) || SomeFails(AllTargets(e), env) || ExpressionLoses(e, env)
    ensures flaw != NoError && ExpressionHasFlaw(e, env, flaw)
  {
    hide ReceiverFails, LiteralLoses, LiteralHasFlaw, IsFlawOf, TargetsOf;
    if i :| 0 <= i < |e.targets| && Fails(e.targets[i], env) {
      flaw := FlawOf(e.targets[i], env);
    } else if ReceiverFails(e.receiver, env) || LiteralLoses(e.receiver, env) || SomeFails(AllTargets(e), env) {
      OtherTargets(e, env);
      flaw := LiteralIsFlawed(e.receiver, env);
    } else {
      var i :| 0 <= i < |e.args| && (LiteralFails(e.args[i], env) || LiteralLoses(e.args[i], env));
      flaw := LiteralIsFlawed(e.args[i], env);
    }
  }

  lemma FlawOf(t: Target, env: Env) returns (flaw: Error)
    requires Fails(t, env)
    ensures flaw != NoError && IsFlawOf(t, env, flaw)
  {
    flaw := if t.NotAssignable? then Readonly else if !IsKnown(t.name, env) then Undefined else Readonly;
  }

  lemma OtherTargets(e: Expression, env: Env)
    requires forall i :: 0 <= i < |e.targets| ==> !Fails(e.targets[i], env)
    ensures SomeFails(AllTargets(e), env) ==> SomeFails(TargetsOf(e.receiver), env)
  {
    var all, n := AllTargets(e), |e.targets|;
    assert forall i :: 0 <= i < |all| ==> all[i] == if i < n then e.targets[i] else TargetsOf(e.receiver)[i - n];
  }

  lemma {:induction false} LiteralIsFlawed(lit: Literal, env: Env) returns (flaw: Error)
    requires ReceiverFails(lit, env) || SomeFails(TargetsOf(lit), env) || LiteralLoses(lit, env)
    ensures flaw != NoError && LiteralHasFlaw(lit, env, flaw)
  {
    match lit
    case Name(_) => flaw := Undefined;
    case Parenthesized(e) => flaw := ExpressionIsFlawed(e, env);
    case Nested(block) =>
      BlockIsFlawed(block, env);
      flaw :| flaw != NoError && BlockHasFlaw(block, env, flaw);
    case Constant =>
      flaw := Undefined;
  }

  // ---------- How many scopes a block takes ----------

  function ScopesOf(block: Block): nat {
    1 + ScopesOfBody(block.body)
  }

  function ScopesOfBody(body: seq<Expression>): nat
    decreases body
  {
    if body == [] then 0 else ScopesOfBody(body[..|body| - 1]) + ScopesOfExpression(body[|body| - 1])
  }

  function ScopesOfExpression(e: Expression): nat {
    ScopesOfLiteral(e.receiver) + ScopesOfAll(e.args)
  }

  function ScopesOfLiteral(lit: Literal): nat {
    match lit
    case Parenthesized(e) => ScopesOfExpression(e)
    case Nested(block) => ScopesOf(block)
    case _ => 0
  }

  function ScopesOfAll(lits: seq<Literal>): nat
    decreases lits
  {
    if lits == [] then 0 else ScopesOfAll(lits[..|lits| - 1]) + ScopesOfLiteral(lits[|lits| - 1])
  }

  lemma {:induction false} ScopesOfSome(lits: seq<Literal>, i: nat)
    requires i <= |lits|
    ensures ScopesOfAll(lits[..i]) <= ScopesOfAll(lits)
    ensures i < |lits| ==> ScopesOfAll(lits[..i + 1]) == ScopesOfAll(lits[..i]) + ScopesOfLiteral(lits[i])
    decreases |lits| - i
  {
    if i == |lits| {
      assert lits[..i] == lits;
    } else {
      ScopesOfSome(lits, i + 1);
      assert lits[..i + 1][..i] == lits[..i];
    }
  }

  lemma {:induction false} ScopesOfPart(body: seq<Expression>, i: nat)
    requires i <= |body|
    ensures ScopesOfBody(body[..i]) <= ScopesOfBody(body)
    ensures i < |body| ==> ScopesOfBody(body[..i + 1]) == ScopesOfBody(body[..i]) + ScopesOfExpression(body[i])
    decreases |body| - i
  {
    if i == |body| {
      assert body[..i] == body;
    } else {
      ScopesOfPart(body, i + 1);
      assert body[..i + 1][..i] == body[..i];
    }
  }

  /** No block declares so many names that its context could run out of slots. */
  ghost predicate BlockIsSmall(block: Block) {
    |OwnNames(block)| < BYTE_SIZE - 1 && forall i :: 0 <= i < |block.body| ==> ExpressionIsSmall(block.body[i])
  }

  ghost predicate ExpressionIsSmall(e: Expression) {
    LiteralIsSmall(e.receiver) && forall i :: 0 <= i < |e.args| ==> LiteralIsSmall(e.args[i])
  }

  ghost predicate LiteralIsSmall(lit: Literal) {
    match lit
    case Parenthesized(e) => ExpressionIsSmall(e)
    case Nested(block) => BlockIsSmall(block)
    case _ => true
  }
}

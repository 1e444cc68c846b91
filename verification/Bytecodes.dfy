/** Encoding and decoding of bytecodes (vm/Bytecodes.h), without jumps and OPERAND_INST_VAR_OF. */
module Bytecodes {
  import opened Collections

  const BYTECODE_COPY: nat := 0
  const BYTECODE_SEND: nat := 1
  const BYTECODE_SEND_WITH_STORE: nat := 2
  const BYTECODE_RETURN: nat := 3
  const BYTECODE_OUTER_RETURN: nat := 4

  const VALUE_SIZE: nat := 8

  datatype Operand =
    | Value(word: nat) | Nil | True | False | ThisContext
    | TempVar(index: nat) | ArgVar(index: nat) | Super
    | ContextVar(index: nat, level: nat) | InstVar(index: nat)
    | Literal(index: nat) | Assoc(index: nat) | Block(index: nat)

  datatype Instruction =
    | Copy(source: Operand, dest: Operand)
    | Send(selector: nat, receiver: Operand, args: seq<Operand>)
    | SendWithStore(selector: nat, receiver: Operand, args: seq<Operand>, result: Operand)
    | Return(operand: Operand)
    | OuterReturn(operand: Operand)

  /** The value of the operand's type in the enumeration of the C code. */
  function TypeOf(o: Operand): nat {
    match o
    case Value(_) => 0
    case Nil => 1
    case True => 2
    case False => 3
    case ThisContext => 4
    case TempVar(_) => 5
    case ArgVar(_) => 6
    case Super => 7
    case ContextVar(_, _) => 8
    case InstVar(_) => 9
    case Literal(_) => 11
    case Assoc(_) => 12
    case Block(_) => 13
  }

  predicate IsByte(n: nat) {
    n < 0x100
  }

  predicate IsOperandOk(o: Operand) {
    match o
    case Value(word) => word < Power(VALUE_SIZE)
    case ContextVar(index, level) => IsByte(index) && IsByte(level)
    case TempVar(index) => IsByte(index)
    case ArgVar(index) => IsByte(index)
    case InstVar(index) => IsByte(index)
    case Literal(index) => IsByte(index)
    case Assoc(index) => IsByte(index)
    case Block(index) => IsByte(index)
    case _ => true
  }

  ghost predicate AreOperandsOk(operands: seq<Operand>) {
    forall i :: 0 <= i < |operands| ==> IsOperandOk(operands[i])
  }

  /** What bytecodeCopy can store into. */
  predicate IsDestination(o: Operand) {
    o.TempVar? || o.ContextVar? || o.InstVar? || o.Assoc?
  }

  ghost predicate IsInstructionOk(inst: Instruction) {
    match inst
    case Copy(source, dest) => IsOperandOk(source) && IsOperandOk(dest) && IsDestination(dest)
    case Send(selector, receiver, args) => IsByte(selector) && IsOperandOk(receiver) && IsByte(|args|) && AreOperandsOk(args)
    case SendWithStore(selector, receiver, args, result) =>
      IsByte(selector) && IsOperandOk(receiver) && IsByte(|args|) && AreOperandsOk(args) && IsOperandOk(result)
    case Return(operand) => IsOperandOk(operand)
    case OuterReturn(operand) => IsOperandOk(operand)
  }

  // ---------- Words ----------

  /** 256 to the n. */
  function Power(n: nat): nat {
    if n == 0 then 1 else 0x100 * Power(n - 1)
  }

  /** The `n` lowest bytes of a word, the lowest one first. */
  function BytesOf(word: nat, n: nat): (bytes: seq<nat>)
    ensures |bytes| == n
  {
    if n == 0 then [] else [word % 0x100] + BytesOf(word / 0x100, n - 1)
  }

  function WordOf(bytes: seq<nat>): nat {
    if bytes == [] then 0 else bytes[0] + 0x100 * WordOf(bytes[1..])
  }

  lemma {:induction false} WordRoundTrip(word: nat, n: nat)
    requires word < Power(n)
    ensures WordOf(BytesOf(word, n)) == word
  {
    if n != 0 {
      WordRoundTrip(word / 0x100, n - 1);
      assert BytesOf(word, n)[1..] == BytesOf(word / 0x100, n - 1);
    }
  }

  // ---------- The encoding ----------

  function EncodeOperand(o: Operand): seq<nat> {
    [TypeOf(o)] +
    match o
    case Value(word) => BytesOf(word, VALUE_SIZE)
    case ContextVar(index, level) => [index, level]
    case TempVar(index) => [index]
    case ArgVar(index) => [index]
    case InstVar(index) => [index]
    case Literal(index) => [index]
    case Assoc(index) => [index]
    case Block(index) => [index]
    case _ => []
  }

  function EncodeOperands(operands: seq<Operand>): seq<nat> {
    if operands == [] then [] else EncodeOperands(operands[..|operands| - 1]) + EncodeOperand(operands[|operands| - 1])
  }

  function Reversed(operands: seq<Operand>): (reversed: seq<Operand>)
    ensures |reversed| == |operands|
  {
    seq(|operands|, i requires 0 <= i < |operands| => operands[|operands| - 1 - i])
  }

  lemma ReversedIs(operands: seq<Operand>)
    ensures Reversed(operands) == seq(|operands|, i requires 0 <= i < |operands| => operands[|operands| - 1 - i])
  {
  }

  function EncodeInstruction(inst: Instruction): seq<nat> {
    match inst
    case Copy(source, dest) => [BYTECODE_COPY] + EncodeOperand(source) + EncodeOperand(dest)
    case Send(selector, receiver, args) =>
      [BYTECODE_SEND, selector, |args|] + EncodeOperand(receiver) + EncodeOperands(Reversed(args))
    case SendWithStore(selector, receiver, args, result) =>
      [BYTECODE_SEND_WITH_STORE, selector, |args|] + EncodeOperand(receiver) + EncodeOperands(Reversed(args)) + EncodeOperand(result)
    case Return(operand) => [BYTECODE_RETURN] + EncodeOperand(operand)
    case OuterReturn(operand) => [BYTECODE_OUTER_RETURN] + EncodeOperand(operand)
  }

  function EncodeAll(insts: seq<Instruction>): seq<nat> {
    if insts == [] then [] else EncodeAll(insts[..|insts| - 1]) + EncodeInstruction(insts[|insts| - 1])
  }

  lemma NoOperands(operands: seq<Operand>)
    ensures EncodeOperands(operands[..0]) == []
  {
  }

  lemma ArgIsNext(args: seq<Operand>, i: nat)
    requires i < |args|
    ensures EncodeOperands(Reversed(args)[..|args| - i]) == EncodeOperands(Reversed(args)[..|args| - 1 - i]) + EncodeOperand(args[i])
  {
    hide EncodeOperand;
    var done := Reversed(args)[..|args| - i];
    assert done[..|done| - 1] == Reversed(args)[..|args| - 1 - i] && done[|done| - 1] == args[i];
  }

  lemma AppendTwice(a: seq<nat>, b: seq<nat>, c: seq<nat>)
    ensures (a + b) + c == a + (b + c)
  {
  }

  lemma AppendThrice(a: seq<nat>, b: seq<nat>, c: seq<nat>, d: seq<nat>, e: seq<nat>)
    ensures a + b + c + d + e == a + (b + c + d + e)
    ensures e == [] ==> a + b + c + d == a + (b + c + d)
  {
    AppendTwice(a, b, c);
    AppendTwice(a, b + c, d);
    AppendTwice(a, b + c + d, e);
  }

  class AssemblerBuffer {
    var bytes: seq<nat>
    var instOffset: nat

    constructor ()
      ensures bytes == [] && instOffset == 0
    {
      bytes := [];
      instOffset := 0;
    }

    method EmitUint8(byte: nat)
      modifies this`bytes
      ensures bytes == old(bytes) + [byte]
    {
      bytes := bytes + [byte];
    }

    /** bytecodeOperand. */
    method EmitOperand(o: Operand)
      modifies this`bytes
      ensures bytes == old(bytes) + EncodeOperand(o)
    {
      EmitUint8(TypeOf(o));
      match o
      case Value(word) => bytes := bytes + BytesOf(word, VALUE_SIZE);
      case ContextVar(index, level) =>
        EmitUint8(index);
        EmitUint8(level);
      case TempVar(index) => EmitUint8(index);
      case ArgVar(index) => EmitUint8(index);
      case InstVar(index) => EmitUint8(index);
      case Literal(index) => EmitUint8(index);
      case Assoc(index) => EmitUint8(index);
      case Block(index) => EmitUint8(index);
      case _ =>
    }

    /** The loop over the arguments of a send, which goes from the last one to the first. */
    method EmitArgs(args: seq<Operand>)
      modifies this`bytes
      ensures bytes == old(bytes) + EncodeOperands(Reversed(args))
    {
      hide EncodeOperand, EncodeOperands, Reversed;
      ghost var start := bytes;
      NoOperands(Reversed(args));
      var i := |args| - 1;
      while i >= 0
        invariant -1 <= i < |args|
        invariant bytes == start + EncodeOperands(Reversed(args)[..|args| - 1 - i])
      {
        ghost var done := EncodeOperands(Reversed(args)[..|args| - 1 - i]);
        ArgIsNext(args, i);
        EmitOperand(args[i]);
        AppendTwice(start, done, EncodeOperand(args[i]));
        i := i - 1;
      }
      assert Reversed(args)[..|args|] == Reversed(args);
    }

    method EmitCopy(source: Operand, dest: Operand)
      requires IsDestination(dest)
      modifies this
      ensures bytes == old(bytes) + EncodeInstruction(Copy(source, dest)) && instOffset == old(instOffset) + 1
      ensures bytes == old(bytes) + [BYTECODE_COPY] + EncodeOperand(source) + EncodeOperand(dest)
    {
      hide EncodeOperand, EncodeOperands, Reversed;
      ghost var start := bytes;
      EmitUint8(BYTECODE_COPY);
      EmitOperand(source);
      EmitOperand(dest);
      AppendThrice(start, [BYTECODE_COPY], EncodeOperand(source), EncodeOperand(dest), []);
      instOffset := instOffset + 1;
    }

    method EmitSend(selector: nat, receiver: Operand, args: seq<Operand>)
      modifies this
      ensures bytes == old(bytes) + EncodeInstruction(Send(selector, receiver, args)) && instOffset == old(instOffset) + 1
      // The selector, the number of arguments, the receiver, and the arguments from the last one to the first.
      ensures bytes == old(bytes) + [BYTECODE_SEND, selector, |args|] + EncodeOperand(receiver)
                       + EncodeOperands(seq(|args|, i requires 0 <= i < |args| => args[|args| - 1 - i]))
    {
      hide EncodeOperand, EncodeOperands, Reversed;
      ReversedIs(args);
      ghost var start := bytes;
      EmitHead(BYTECODE_SEND, selector, |args|);
      EmitOperand(receiver);
      EmitArgs(args);
      AppendThrice(start, [BYTECODE_SEND, selector, |args|], EncodeOperand(receiver), EncodeOperands(Reversed(args)), []);
      instOffset := instOffset + 1;
    }

    method EmitSendWithStore(selector: nat, receiver: Operand, result: Operand, args: seq<Operand>)
      modifies this
      ensures bytes == old(bytes) + EncodeInstruction(SendWithStore(selector, receiver, args, result)) && instOffset == old(instOffset) + 1
      ensures bytes == old(bytes) + [BYTECODE_SEND_WITH_STORE, selector, |args|] + EncodeOperand(receiver)
                       + EncodeOperands(seq(|args|, i requires 0 <= i < |args| => args[|args| - 1 - i])) + EncodeOperand(result)
    {
      hide EncodeOperand, EncodeOperands, Reversed;
      ReversedIs(args);
      ghost var start := bytes;
      EmitHead(BYTECODE_SEND_WITH_STORE, selector, |args|);
      EmitOperand(receiver);
      EmitArgs(args);
      EmitOperand(result);
      AppendThrice(start, [BYTECODE_SEND_WITH_STORE, selector, |args|], EncodeOperand(receiver), EncodeOperands(Reversed(args)), EncodeOperand(result));
      instOffset := instOffset + 1;
    }

    method EmitHead(bytecode: nat, selector: nat, argsSize: nat)
      modifies this`bytes
      ensures bytes == old(bytes) + [bytecode, selector, argsSize]
    {
      EmitUint8(bytecode);
      EmitUint8(selector);
      EmitUint8(argsSize);
    }

    method EmitReturn(operand: Operand, outer: bool)
      modifies this
      ensures bytes == old(bytes) + EncodeInstruction(if outer then OuterReturn(operand) else Return(operand)) && instOffset == old(instOffset) + 1
    {
      hide EncodeOperand, EncodeOperands, Reversed;
      ghost var start := bytes;
      EmitUint8(if outer then BYTECODE_OUTER_RETURN else BYTECODE_RETURN);
      EmitOperand(operand);
      AppendTwice(start, [if outer then BYTECODE_OUTER_RETURN else BYTECODE_RETURN], EncodeOperand(operand));
      instOffset := instOffset + 1;
    }

    method Emit(inst: Instruction)
      requires IsInstructionOk(inst)
      modifies this
      ensures bytes == old(bytes) + EncodeInstruction(inst) && instOffset == old(instOffset) + 1
    {
      match inst
      case Copy(source, dest) => EmitCopy(source, dest);
      case Send(selector, receiver, args) => EmitSend(selector, receiver, args);
      case SendWithStore(selector, receiver, args, result) => EmitSendWithStore(selector, receiver, result, args);
      case Return(operand) => EmitReturn(operand, false);
      case OuterReturn(operand) => EmitReturn(operand, true);
    }
  }

  // ---------- The decoding ----------

  /** An instruction as its bytes tell it: the arguments of a send come in reverse order. */
  function AsDecoded(inst: Instruction): Instruction {
    match inst
    case Send(selector, receiver, args) => Send(selector, receiver, Reversed(args))
    case SendWithStore(selector, receiver, args, result) => SendWithStore(selector, receiver, Reversed(args), result)
    case _ => inst
  }

  lemma OperandStartsWithType(o: Operand)
    ensures EncodeOperand(o) == [TypeOf(o)] + EncodeOperand(o)[1..]
  {
  }

  lemma {:induction false} OperandIsNext(bytes: seq<nat>, pos: nat, operands: seq<Operand>, i: nat)
    requires IsNext(bytes, pos, EncodeOperands(operands)) && i < |operands|
    ensures IsNext(bytes, pos + |EncodeOperands(operands[..i])|, EncodeOperand(operands[i]))
    ensures EncodeOperands(operands[..i + 1]) == EncodeOperands(operands[..i]) + EncodeOperand(operands[i])
  {
    hide EncodeOperand, IsNext;
    var init, last := operands[..|operands| - 1], operands[|operands| - 1];
    PartIsNext(bytes, pos, EncodeOperands(init), EncodeOperand(last));
    if i < |operands| - 1 {
      OperandIsNext(bytes, pos, init, i);
      assert init[..i] == operands[..i] && init[..i + 1] == operands[..i + 1];
    } else {
      assert operands[..i + 1] == operands;
    }
  }

  class BytecodesIterator {
    const bytes: seq<nat>
    var p: nat
    var bytecodeNumber: int

    constructor (bytes: seq<nat>)
      ensures this.bytes == bytes && p == 0 && bytecodeNumber == -1
    {
      this.bytes := bytes;
      p := 0;
      bytecodeNumber := -1;
    }

    predicate HasNext()
      reads this
    {
      p < |bytes|
    }

    method NextByte(ghost byte: nat, ghost rest: seq<nat>) returns (b: nat)
      requires IsNext(bytes, p, [byte] + rest)
      modifies this`p
      ensures b == byte && p == old(p) + 1 && IsNext(bytes, p, rest)
    {
      ItemIsNext(bytes, p, byte, rest);
      b := bytes[p];
      p := p + 1;
    }

    method NextWord(ghost word: nat) returns (w: nat)
      requires IsNext(bytes, p, BytesOf(word, VALUE_SIZE)) && word < Power(VALUE_SIZE)
      modifies this`p
      ensures w == word && p == old(p) + VALUE_SIZE
    {
      hide BytesOf, WordOf, Power;
      WordRoundTrip(word, VALUE_SIZE);
      w := WordOf(bytes[p..p + VALUE_SIZE]);
      p := p + VALUE_SIZE;
    }

    /** bytecodeNextOperand. */
    method NextOperand(ghost o: Operand) returns (r: Operand)
      requires IsNext(bytes, p, EncodeOperand(o)) && IsOperandOk(o)
      modifies this`p
      ensures r == o && p == old(p) + |EncodeOperand(o)|
    {
      hide IsNext, BytesOf, Power;
      OperandStartsWithType(o);
      var tag := NextByte(TypeOf(o), EncodeOperand(o)[1..]);
      if tag == 0 {
        var word := NextWord(o.word);
        r := Value(word);
      } else if tag == 8 {
        assert EncodeOperand(o)[1..] == [o.index] + [o.level] && [o.level] == [o.level] + [];
        var index := NextByte(o.index, [o.level]);
        var level := NextByte(o.level, []);
        r := ContextVar(index, level);
      } else if tag == 5 || tag == 6 || tag == 9 || tag == 11 || tag == 12 || tag == 13 {
        assert EncodeOperand(o)[1..] == [o.index] + [];
        var index := NextByte(o.index, []);
        r := if tag == 5 then TempVar(index)
             else if tag == 6 then ArgVar(index)
             else if tag == 9 then InstVar(index)
             else if tag == 11 then Literal(index)
             else if tag == 12 then Assoc(index)
             else Block(index);
      } else {
        r := if tag == 1 then Nil else if tag == 2 then True else if tag == 3 then False else if tag == 4 then ThisContext else Super;
      }
    }

    /** The loop over the `argsSize` argument operands of a send. */
    method NextOperands(argsSize: nat, ghost operands: seq<Operand>) returns (r: seq<Operand>)
      requires IsNext(bytes, p, EncodeOperands(operands)) && AreOperandsOk(operands) && argsSize == |operands|
      modifies this`p
      ensures r == operands && p == old(p) + |EncodeOperands(operands)|
    {
      hide IsNext, EncodeOperand, EncodeOperands, IsOperandOk;
      ghost var start := p;
      NoOperands(operands);
      r := [];
      while |r| < argsSize
        invariant |r| <= argsSize && r == operands[..|r|] && p == start + |EncodeOperands(operands[..|r|])|
      {
        OperandIsNext(bytes, start, operands, |r|);
        var o := NextOperand(operands[|r|]);
        r := r + [o];
      }
      assert operands[..|operands|] == operands;
    }

    /** bytecodeNext and the reads that its callers do for the operands of the instruction. */
    method NextInstruction(ghost inst: Instruction) returns (r: Instruction)
      requires IsNext(bytes, p, EncodeInstruction(inst)) && IsInstructionOk(inst)
      modifies this`p, this`bytecodeNumber
      ensures r == AsDecoded(inst) && p == old(p) + |EncodeInstruction(inst)| && bytecodeNumber == old(bytecodeNumber) + 1
    {
      hide IsNext, EncodeOperand, EncodeOperands, IsOperandOk, AreOperandsOk, Reversed;
      InstructionStartsWithCode(inst);
      ghost var parts := EncodeInstruction(inst)[1..];
      bytecodeNumber := bytecodeNumber + 1;
      var bytecode := NextByte(EncodeInstruction(inst)[0], parts);
      if bytecode == BYTECODE_COPY {
        assert parts == EncodeOperand(inst.source) + EncodeOperand(inst.dest);
        PartIsNext(bytes, p, EncodeOperand(inst.source), EncodeOperand(inst.dest));
        var source := NextOperand(inst.source);
        var dest := NextOperand(inst.dest);
        r := Copy(source, dest);
      } else if bytecode == BYTECODE_RETURN {
        assert parts == EncodeOperand(inst.operand);
        var operand := NextOperand(inst.operand);
        r := Return(operand);
      } else if bytecode == BYTECODE_OUTER_RETURN {
        assert parts == EncodeOperand(inst.operand);
        var operand := NextOperand(inst.operand);
        r := OuterReturn(operand);
      } else {
        r := NextSend(bytecode, inst);
      }
    }

    method NextSend(bytecode: nat, ghost inst: Instruction) returns (r: Instruction)
      requires (inst.Send? && bytecode == BYTECODE_SEND) || (inst.SendWithStore? && bytecode == BYTECODE_SEND_WITH_STORE)
      requires IsNext(bytes, p, EncodeInstruction(inst)[1..]) && IsInstructionOk(inst)
      modifies this`p
      ensures r == AsDecoded(inst) && p == old(p) + |EncodeInstruction(inst)| - 1
    {
      hide IsNext, EncodeOperand, EncodeOperands, IsOperandOk, Reversed;
      ghost var args := Reversed(inst.args);
      ReversedAreOk(inst.args);
      ghost var result := if inst.SendWithStore? then EncodeOperand(inst.result) else [];
      ghost var operands := EncodeOperand(inst.receiver) + (EncodeOperands(args) + result);
      assert EncodeInstruction(inst)[1..] == [inst.selector] + ([|inst.args|] + operands);
      var selector := NextByte(inst.selector, [|inst.args|] + operands);
      var argsSize := NextByte(|inst.args|, operands);
      PartIsNext(bytes, p, EncodeOperand(inst.receiver), EncodeOperands(args) + result);
      PartIsNext(bytes, p + |EncodeOperand(inst.receiver)|, EncodeOperands(args), result);
      var receiver := NextOperand(inst.receiver);
      var decoded := NextOperands(argsSize, args);
      if bytecode == BYTECODE_SEND_WITH_STORE {
        var stored := NextOperand(inst.result);
        r := SendWithStore(selector, receiver, decoded, stored);
      } else {
        r := Send(selector, receiver, decoded);
      }
    }
  }

  lemma InstructionStartsWithCode(inst: Instruction)
    ensures EncodeInstruction(inst) == [EncodeInstruction(inst)[0]] + EncodeInstruction(inst)[1..]
    ensures EncodeInstruction(inst)[0] == match inst
                                          case Copy(_, _) => BYTECODE_COPY
                                          case Send(_, _, _) => BYTECODE_SEND
                                          case SendWithStore(_, _, _, _) => BYTECODE_SEND_WITH_STORE
                                          case Return(_) => BYTECODE_RETURN
                                          case OuterReturn(_) => BYTECODE_OUTER_RETURN
  {
    hide EncodeOperand, EncodeOperands, Reversed;
  }

  lemma ReversedAreOk(operands: seq<Operand>)
    requires AreOperandsOk(operands)
    ensures AreOperandsOk(Reversed(operands))
  {
    hide IsOperandOk;
  }

  // ---------- Whole programs ----------

  ghost predicate AreInstructionsOk(insts: seq<Instruction>) {
    forall i :: 0 <= i < |insts| ==> IsInstructionOk(insts[i])
  }

  function AllAsDecoded(insts: seq<Instruction>): (decoded: seq<Instruction>)
    ensures |decoded| == |insts|
  {
    seq(|insts|, i requires 0 <= i < |insts| => AsDecoded(insts[i]))
  }

  lemma {:induction false} InstructionIsNext(bytes: seq<nat>, insts: seq<Instruction>, i: nat)
    requires IsNext(bytes, 0, EncodeAll(insts)) && i < |insts|
    ensures IsNext(bytes, |EncodeAll(insts[..i])|, EncodeInstruction(insts[i]))
    ensures EncodeAll(insts[..i + 1]) == EncodeAll(insts[..i]) + EncodeInstruction(insts[i])
  {
    hide EncodeInstruction, IsNext;
    var init, last := insts[..|insts| - 1], insts[|insts| - 1];
    PartIsNext(bytes, 0, EncodeAll(init), EncodeInstruction(last));
    if i < |insts| - 1 {
      InstructionIsNext(bytes, init, i);
      assert init[..i] == insts[..i] && init[..i + 1] == insts[..i + 1];
    } else {
      assert insts[..i + 1] == insts;
    }
  }

  /** The decoder is at the end exactly when all instructions were read. */
  lemma {:induction false} EndIsReached(insts: seq<Instruction>, i: nat)
    requires i <= |insts|
    ensures |EncodeAll(insts[..i])| < |EncodeAll(insts)| <==> i < |insts|
    ensures |EncodeAll(insts[..i])| <= |EncodeAll(insts)|
  {
    hide EncodeInstruction;
    if i == |insts| {
      assert insts[..i] == insts;
    } else {
      var init, last := insts[..|insts| - 1], insts[|insts| - 1];
      EndIsReached(init, i);
      assert init[..i] == insts[..i];
      InstructionStartsWithCode(last);
    }
  }

  lemma AllIsNext(insts: seq<Instruction>)
    ensures IsNext(EncodeAll(insts), 0, EncodeAll(insts)) && EncodeAll(insts[..0]) == []
  {
  }

  method Assemble(insts: seq<Instruction>) returns (bytes: seq<nat>)
    requires AreInstructionsOk(insts)
    ensures bytes == EncodeAll(insts)
  {
    hide EncodeInstruction, IsInstructionOk;
    var buffer := new AssemblerBuffer();
    var i := 0;
    while i < |insts|
      invariant i <= |insts| && buffer.bytes == EncodeAll(insts[..i]) && fresh(buffer)
    {
      buffer.Emit(insts[i]);
      assert insts[..i + 1][..i] == insts[..i];
      i := i + 1;
    }
    assert insts[..i] == insts;
    bytes := buffer.bytes;
  }

  /** Decoding gives the instructions back, arguments reversed, and stops exactly at the end. */
  method Decode(bytes: seq<nat>, ghost insts: seq<Instruction>) returns (decoded: seq<Instruction>, count: int)
    requires AreInstructionsOk(insts) && bytes == EncodeAll(insts)
    ensures decoded == AllAsDecoded(insts) && count == |insts| - 1
  {
    hide EncodeInstruction, IsInstructionOk, EncodeAll, IsNext, AsDecoded;
    AllIsNext(insts);
    decoded := [];
    var decoder := new BytecodesIterator(bytes);
    while decoder.HasNext()
      invariant fresh(decoder) && decoder.bytes == bytes && |decoded| <= |insts|
      invariant decoder.p == |EncodeAll(insts[..|decoded|])| && decoder.bytecodeNumber == |decoded| - 1
      invariant forall i :: 0 <= i < |decoded| ==> decoded[i] == AsDecoded(insts[i])
      decreases |insts| - |decoded|
    {
      EndIsReached(insts, |decoded|);
      InstructionIsNext(bytes, insts, |decoded|);
      var inst := decoder.NextInstruction(insts[|decoded|]);
      decoded := decoded + [inst];
    }
    EndIsReached(insts, |decoded|);
    count := decoder.bytecodeNumber;
  }

  /** The order of the arguments is all that the bytes do not keep, and it can be restored. */
  lemma AsDecodedTwice(inst: Instruction)
    ensures AsDecoded(AsDecoded(inst)) == inst
    ensures if inst.Send? || inst.SendWithStore?
            then |AsDecoded(inst).args| == |inst.args| && AsDecoded(inst) == inst.(args := AsDecoded(inst).args)
                 && forall k :: 0 <= k < |inst.args| ==> AsDecoded(inst).args[k] == inst.args[|inst.args| - 1 - k]
            else AsDecoded(inst) == inst
  {
    if inst.Send? || inst.SendWithStore? {
      assert Reversed(Reversed(inst.args)) == inst.args;
    }
  }
}

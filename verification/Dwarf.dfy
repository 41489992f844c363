/**
 The machine that turns DWARF location expressions into C expressions, and the meaning of
 such expressions (section 2.5 of DWARF 4).
 */
module Dwarf {
  import opened Basics
  import opened Leb

  /** The C expressions that the machine writes: a number, (void *) of a number, the variables
      for the frame address and the frame base (which are char *), get_reg(n), (char *)
      get_reg(n), an offset added to one of the latter, and the sum and difference of
      (void *) ((char *) (a)) and ((char *) (b)). */
  datatype Expr =
    | Hex(value: int)
    | Addr(address: nat)
    | Cfa
    | Frame
    | Reg(n: nat)
    | RegPointer(n: nat)
    | Above(base: Expr, distance: nat)
    | Below(base: Expr, distance: nat)
    | Sum(a: Expr, b: Expr)
    | Difference(a: Expr, b: Expr)

  /** The type that C gives to an expression, if any. */
  datatype CType = Integer | CharPointer | VoidPointer | IllTyped

  /** Section 6.5.6 of ISO C 2011: a number can be added to or subtracted from a pointer to an
      object; there is no sum of two pointers, and no difference of pointers to different
      types. */
  function TypeOf(e: Expr): CType {
    match e
    case Hex(_) => Integer
    case Reg(_) => Integer
    case Addr(_) => VoidPointer
    case Cfa => CharPointer
    case Frame => CharPointer
    case RegPointer(_) => CharPointer
    case Above(b, _) => Offset(TypeOf(b))
    case Below(b, _) => Offset(TypeOf(b))
    case Sum(a, b) => Add(Cast(TypeOf(a), VoidPointer), Cast(TypeOf(b), CharPointer))
    case Difference(a, b) => Subtract(Cast(TypeOf(a), VoidPointer), Cast(TypeOf(b), CharPointer))
  }

  function Cast(t: CType, to: CType): CType { if t == IllTyped then IllTyped else to }

  /** The type of a pointer or number plus or minus a number. */
  function Offset(t: CType): CType { if t == VoidPointer then IllTyped else t }

  function Add(s: CType, t: CType): CType {
    if s == Integer then Offset(t) else if t == Integer then Offset(s) else IllTyped
  }

  function Subtract(s: CType, t: CType): CType {
    if t == Integer then Offset(s) else if s == t == CharPointer then Integer else IllTyped
  }

  /** A stopped thread: its registers, the frame base and the canonical frame address. */
  datatype Env = Env(reg: nat -> int, frame: int, cfa: int)

  /** The number that an expression is, sums and differences being read as such. */
  function Value(e: Expr, env: Env): int {
    match e
    case Hex(v) => v
    case Addr(a) => a
    case Cfa => env.cfa
    case Frame => env.frame
    case Reg(n) => env.reg(n)
    case RegPointer(n) => env.reg(n)
    case Above(b, d) => Value(b, env) + d
    case Below(b, d) => Value(b, env) - d
    case Sum(a, b) => Value(a, env) + Value(b, env)
    case Difference(a, b) => Value(a, env) - Value(b, env)
  }

  // ----- The machine -----

  /** The top of the stack is its last element. */
  datatype State = State(stack: seq<Expr>, pos: nat, usesFrame: bool, usesCfa: bool)

  datatype Outcome = Fail | Next(s: State) | Done(e: Expr, s: State)

  datatype Result = Error | Result(e: Expr, isAddress: bool, usesFrame: bool, usesCfa: bool)

  const START: State := State([], 0, false, false)

  /** The operations without operands that only work on the stack. */
  predicate IsStackOp(op: Byte) { op in {0x12, 0x13, 0x14, 0x16, 0x17, 0x1c, 0x22, 0x96} }

  /** None is a stack underflow. */
  function StackOp(op: Byte, st: seq<Expr>): Option<seq<Expr>>
    requires IsStackOp(op)
  {
    var n := |st|;
    match op
    case 0x12 => if n < 1 then None else Some(st + [st[n - 1]])
    case 0x13 => if n < 1 then None else Some(st[..n - 1])
    case 0x14 => if n < 2 then None else Some(st + [st[n - 2]])
    case 0x16 => if n < 2 then None else Some(st[..n - 2] + [st[n - 1], st[n - 2]])
    case 0x17 => if n < 3 then None else Some(st[..n - 3] + [st[n - 1], st[n - 3], st[n - 2]])
    case 0x1c => if n < 2 then None else Some(st[..n - 2] + [Difference(st[n - 1], st[n - 2])])
    case 0x22 => if n < 2 then None else Some(st[..n - 2] + [Sum(st[n - 1], st[n - 2])])
    case _ => Some(st)
  }

  function Displaced(base: Expr, offset: int): (e: Expr)
    ensures forall env :: Value(e, env) == Value(base, env) + offset
    ensures TypeOf(base) == CharPointer ==> TypeOf(e) == CharPointer
  {
    if offset > 0 then Above(base, offset) else if offset < 0 then Below(base, -offset) else base
  }

  function Push(s: State, e: Expr, pos: nat): Outcome { Next(s.(stack := s.stack + [e], pos := pos)) }

  function Word(code: seq<Byte>, pos: nat): nat
    requires pos + 4 <= |code|
  {
    var b0: nat, b1: nat, b2: nat, b3: nat := code[pos], code[pos + 1], code[pos + 2], code[pos + 3];
    b0 + 0x100 * b1 + 0x1_0000 * b2 + 0x100_0000 * b3
  }

  /** A register-relative address: the operand is a signed offset. */
  function BaseOp(code: seq<Byte>, s: State, base: Expr, pos: nat): (o: Outcome)
    requires pos <= |code|
    ensures !o.Done?
  {
    match Decode(true, code[pos..])
    case None => Fail
    case Some(d) => Push(s, Displaced(base, d.value), pos + d.size)
  }

  /** The operations with operands, at the position after the opcode. */
  function OperandOp(code: seq<Byte>, s: State, op: Byte, pos: nat): (o: Outcome)
    requires pos <= |code|
    ensures !o.Done?
  {
    if op == 0x03 then if pos + 4 > |code| then Fail else Push(s, Addr(Word(code, pos)), pos + 4)
    else if op == 0x10 || op == 0x11 then
      match Decode(op == 0x11, code[pos..])
      case None => Fail
      case Some(d) => Push(s, Hex(d.value), pos + d.size)
    else if op == 0x15 then
      if pos == |code| || code[pos] >= |s.stack| then Fail else Push(s, s.stack[|s.stack| - 1 - code[pos]], pos + 1)
    else if 0x70 <= op <= 0x8f then BaseOp(code, s, RegPointer(op - 0x70), pos)
    else if op == 0x91 then BaseOp(code, s.(usesFrame := true), Frame, pos)
    else if op == 0x92 then
      match Decode(false, code[pos..])
      case None => Fail
      case Some(d) => EncodingIsShortest(false, code[pos..]); BaseOp(code, s, RegPointer(d.value), pos + d.size)
    else Fail
  }

  /** Literals, the frame address, and the operations that end an expression. */
  predicate IsSimpleOp(op: Byte) { 0x30 <= op <= 0x6f || op == 0x90 || op == 0x9c || op == 0x9f }

  function SimpleOp(code: seq<Byte>, s: State, op: Byte, pos: nat): Outcome
    requires pos <= |code| && IsSimpleOp(op)
  {
    if op <= 0x4f then Push(s, Hex(op - 0x30), pos)
    else if op <= 0x6f then Done(Reg(op - 0x50), s.(pos := pos))
    else if op == 0x90 then
      match Decode(false, code[pos..])
      case None => Fail
      case Some(d) => EncodingIsShortest(false, code[pos..]); Done(Reg(d.value), s.(pos := pos + d.size))
    else if op == 0x9c then Push(s.(usesCfa := true), Cfa, pos)
    else if s.stack == [] then Fail
    else Done(s.stack[|s.stack| - 1], s.(stack := s.stack[..|s.stack| - 1], pos := pos))
  }

  /** One opcode.  Those that have no method fail, and so do the constants of fixed size, whose
      method cannot read its operand. */
  function Step(code: seq<Byte>, s: State): (o: Outcome)
    requires s.pos < |code|
    ensures o.Next? ==> s.pos < o.s.pos <= |code|
  {
    var op, pos := code[s.pos], s.pos + 1;
    if IsStackOp(op) then
      match StackOp(op, s.stack)
      case None => Fail
      case Some(st) => Next(s.(stack := st, pos := pos))
    else if IsSimpleOp(op) then SimpleOp(code, s, op, pos)
    else OperandOp(code, s, op, pos)
  }

  function Run(code: seq<Byte>, s: State): Result
    requires s.pos <= |code|
    decreases |code| - s.pos
  {
    if s.pos == |code| then
      if s.stack == [] then Error else Result(s.stack[|s.stack| - 1], true, s.usesFrame, s.usesCfa)
    else
      match Step(code, s)
      case Fail => Error
      case Next(s') => Run(code, s')
      case Done(e, s') => Result(e, false, s'.usesFrame, s'.usesCfa)
  }

  // ----- The rule "register plus offset" -----

  function CfaRule(reg: nat, offset: int): seq<Byte> { [0x92] + Encode(false, reg) + Encode(true, offset) }

  /** The compiled rule is consumed exactly, and is the address of that register plus offset. */
  lemma CfaRuleIsRegisterPlusOffset(reg: nat, offset: int, env: Env)
    ensures Step(CfaRule(reg, offset), START) ==
              Next(State([Displaced(RegPointer(reg), offset)], |CfaRule(reg, offset)|, false, false))
    ensures Run(CfaRule(reg, offset), START) == Result(Displaced(RegPointer(reg), offset), true, false, false)
    ensures TypeOf(Displaced(RegPointer(reg), offset)) == CharPointer
    ensures Value(Displaced(RegPointer(reg), offset), env) == env.reg(reg) + offset
  {
    var code, r := CfaRule(reg, offset), Encode(false, reg);
    assert code[1..] == r + Encode(true, offset);
    RoundTrip(false, reg, Encode(true, offset));
    assert code[1 + |r|..] == Encode(true, offset) + [];
    RoundTrip(true, offset, []);
  }

  // ----- What the standard says: a machine on numbers -----

  /** Operations as the standard defines them, on a stack whose top comes first. */
  datatype Operation =
    | Constant(value: int) | RegisterOffset(n: nat, offset: int) | FrameOffset(offset: int) | FrameAddress
    | Dup | Drop | Pick(index: nat) | Over | Swap | Rot | Minus | Plus | Nop
    | InRegister(n: nat) | StackValue

  /** Undefined: not an expression, or a stack underflow.  Unknown: an operation that is not
      described here.  Rejected: C has no such expression. */
  datatype Meaning =
    | Undefined | Unknown | Rejected
    | Going(stack: seq<int>) | Location(address: int) | Content(value: int)

  function Means(o: Operation, st: seq<int>, env: Env): Meaning {
    match o
    case Constant(v) => Going([v] + st)
    case RegisterOffset(n, d) => Going([env.reg(n) + d] + st)
    case FrameOffset(d) => Going([env.frame + d] + st)
    case FrameAddress => Going([env.cfa] + st)
    case Dup => if |st| < 1 then Undefined else Going([st[0]] + st)
    case Drop => if |st| < 1 then Undefined else Going(st[1..])
    case Pick(i) => if |st| <= i then Undefined else Going([st[i]] + st)
    case Over => if |st| < 2 then Undefined else Going([st[1]] + st)
    case Swap => if |st| < 2 then Undefined else Going([st[1], st[0]] + st[2..])
    case Rot => if |st| < 3 then Undefined else Going([st[1], st[2], st[0]] + st[3..])
    case Minus => if |st| < 2 then Undefined else Going([st[1] - st[0]] + st[2..])
    case Plus => if |st| < 2 then Undefined else Going([st[1] + st[0]] + st[2..])
    case Nop => Going(st)
    case InRegister(n) => Content(env.reg(n))
    case StackValue => if |st| < 1 then Undefined else Content(st[0])
  }

  /** An operation and the position after it. */
  datatype Parsed = Malformed | Undescribed | Parsed(o: Operation, pos: nat)

  function StackOperation(op: Byte): Operation
    requires IsStackOp(op)
  {
    match op
    case 0x12 => Dup
    case 0x13 => Drop
    case 0x14 => Over
    case 0x16 => Swap
    case 0x17 => Rot
    case 0x1c => Minus
    case 0x22 => Plus
    case _ => Nop
  }

  /** Operations of the standard that have no meaning here (nor a method in the machine):
      dereferences, the rest of arithmetic and logic, comparisons, jumps, calls, pieces,
      thread-local storage, implicit values and the user-defined ones. */
  predicate IsUndescribed(op: Byte) {
    || op == 0x06 || 0x18 <= op <= 0x1b || 0x1d <= op <= 0x21 || 0x23 <= op <= 0x2f
    || 0x93 <= op <= 0x95 || 0x97 <= op <= 0x9b || 0x9d <= op <= 0x9e || op >= 0xe0
  }

  /** The constants of fixed size, DW_OP_const1u to DW_OP_const8s. */
  predicate IsFixedConstant(op: Byte) { 0x08 <= op <= 0x0f }

  function FixedSize(op: Byte): nat
    requires IsFixedConstant(op)
  {
    if op <= 0x09 then 1 else if op <= 0x0b then 2 else if op <= 0x0d then 4 else 8
  }

  function LittleEndian(bytes: seq<Byte>): nat {
    if bytes == [] then 0 else var b: nat := bytes[0]; b + 0x100 * LittleEndian(bytes[1..])
  }

  function Range(bytes: seq<Byte>): nat { if bytes == [] then 1 else 0x100 * Range(bytes[1..]) }

  /** Every other of them is signed. */
  function FixedValue(op: Byte, bytes: seq<Byte>): int {
    var v := LittleEndian(bytes);
    if op % 2 == 1 && 2 * v >= Range(bytes) then v - Range(bytes) else v
  }

  function ParseConstant(code: seq<Byte>, pos: nat, size: nat, op: Byte): (p: Parsed)
    requires pos <= |code| && size > 0
    ensures p.Parsed? ==> pos < p.pos <= |code|
  {
    if pos + size > |code| then Malformed else Parsed(Constant(FixedValue(op, code[pos..pos + size])), pos + size)
  }

  /** The encodings of section 7.7.1, on a machine with addresses of the given size. */
  function Parse(code: seq<Byte>, at: nat, addressSize: nat): (p: Parsed)
    requires at < |code| && addressSize > 0
    ensures p.Parsed? ==> at < p.pos <= |code|
  {
    var op, pos := code[at], at + 1;
    if IsStackOp(op) then Parsed(StackOperation(op), pos)
    else if IsUndescribed(op) then Undescribed
    else if op == 0x03 then ParseConstant(code, pos, addressSize, 0)
    else if IsFixedConstant(op) then ParseConstant(code, pos, FixedSize(op), op)
    else if op == 0x10 || op == 0x11 then
      match Decode(op == 0x11, code[pos..])
      case None => Malformed
      case Some(d) => Parsed(Constant(d.value), pos + d.size)
    else if op == 0x15 then if pos == |code| then Malformed else Parsed(Pick(code[pos]), pos + 1)
    else if 0x30 <= op <= 0x4f then Parsed(Constant(op - 0x30), pos)
    else if 0x50 <= op <= 0x6f then Parsed(InRegister(op - 0x50), pos)
    else if 0x70 <= op <= 0x8f then ParseOffset(code, op - 0x70, pos)
    else if op == 0x90 then
      match Decode(false, code[pos..])
      case None => Malformed
      case Some(d) => EncodingIsShortest(false, code[pos..]); Parsed(InRegister(d.value), pos + d.size)
    else if op == 0x91 then
      match Decode(true, code[pos..])
      case None => Malformed
      case Some(d) => Parsed(FrameOffset(d.value), pos + d.size)
    else if op == 0x92 then
      match Decode(false, code[pos..])
      case None => Malformed
      case Some(d) => EncodingIsShortest(false, code[pos..]); ParseOffset(code, d.value, pos + d.size)
    else if op == 0x9c then Parsed(FrameAddress, pos)
    else if op == 0x9f then Parsed(StackValue, pos)
    else Malformed
  }

  function ParseOffset(code: seq<Byte>, reg: nat, pos: nat): (p: Parsed)
    requires pos <= |code|
    ensures p.Parsed? ==> pos < p.pos <= |code|
  {
    match Decode(true, code[pos..])
    case None => Malformed
    case Some(d) => Parsed(RegisterOffset(reg, d.value), pos + d.size)
  }

  /** What the standard's machine does at a position. */
  function Reference(code: seq<Byte>, at: nat, st: seq<int>, env: Env, addressSize: nat): (m: Meaning)
    requires at < |code| && addressSize > 0
    ensures m != Rejected && !m.Location? && (m.Going? ==> Parse(code, at, addressSize).Parsed?)
  {
    match Parse(code, at, addressSize)
    case Malformed => Undefined
    case Undescribed => Unknown
    case Parsed(o, _) => Means(o, st, env)
  }

  /** An expression without location description is the address on top of the stack. */
  function Evaluate(code: seq<Byte>, at: nat, st: seq<int>, env: Env, addressSize: nat): Meaning
    requires at <= |code| && addressSize > 0
    decreases |code| - at
  {
    if at == |code| then if st == [] then Undefined else Location(st[0])
    else
      var m := Reference(code, at, st, env, addressSize);
      if m.Going? then Evaluate(code, Parse(code, at, addressSize).pos, m.stack, env, addressSize) else m
  }

  // ----- Where the machine computes what the standard says -----

  /** The numbers on the stack, the top first. */
  function Values(st: seq<Expr>, env: Env): (vs: seq<int>)
    ensures |vs| == |st| && forall i :: 0 <= i < |st| ==> vs[i] == Value(st[|st| - 1 - i], env)
  {
    seq(|st|, i requires 0 <= i < |st| => Value(st[|st| - 1 - i], env))
  }

  predicate WellTyped(st: seq<Expr>) { forall i :: 0 <= i < |st| ==> TypeOf(st[i]) != IllTyped }

  lemma StackIsTyped(st: seq<Expr>)
    requires WellTyped(st)
    ensures forall e :: e in st ==> TypeOf(e) != IllTyped
  {
  }

  lemma LastIsTyped(st: seq<Expr>)
    ensures WellTyped(st) && st != [] ==> TypeOf(st[|st| - 1]) != IllTyped
  {
  }

  function MeaningOf(o: Outcome, env: Env): Meaning {
    match o
    case Fail => Undefined
    case Next(s) => if WellTyped(s.stack) then Going(Values(s.stack, env)) else Rejected
    case Done(e, _) => if TypeOf(e) == IllTyped then Rejected else Content(Value(e, env))
  }

  function MeaningOfResult(r: Result, env: Env): Meaning {
    match r
    case Error => Undefined
    case Result(e, isAddress, _, _) =>
      if TypeOf(e) == IllTyped then Rejected
      else if isAddress then Location(Value(e, env)) else Content(Value(e, env))
  }

  ghost predicate Agrees(code: seq<Byte>, s: State, env: Env, addressSize: nat)
    requires s.pos < |code| && addressSize > 0
  {
    && Reference(code, s.pos, Values(s.stack, env), env, addressSize) == MeaningOf(Step(code, s), env)
    && (Step(code, s).Next? ==>
          Parse(code, s.pos, addressSize).Parsed? && Parse(code, s.pos, addressSize).pos == Step(code, s).s.pos)
  }

  lemma PushAgrees(st: seq<Expr>, e: Expr, env: Env)
    ensures Values(st + [e], env) == [Value(e, env)] + Values(st, env)
    ensures WellTyped(st) && TypeOf(e) != IllTyped ==> WellTyped(st + [e])
  {
  }

  function MeaningOfStack(o: Option<seq<Expr>>, env: Env): Meaning {
    match o
    case None => Undefined
    case Some(st) => if WellTyped(st) then Going(Values(st, env)) else Rejected
  }

  /** The machine writes no valid expression for a sum or difference. */
  predicate IsPointerArithmetic(op: Byte) { op == 0x1c || op == 0x22 }

  lemma StackOpMeans(op: Byte, st: seq<Expr>, env: Env)
    requires IsStackOp(op) && !IsPointerArithmetic(op) && WellTyped(st)
    ensures Means(StackOperation(op), Values(st, env), env) == MeaningOfStack(StackOp(op, st), env)
  {
    hide TypeOf, Value;
    var m, o := Means(StackOperation(op), Values(st, env), env), StackOp(op, st);
    assert o.Some? ==> WellTyped(o.value);
    assert o.Some? ==> m.Going? && m.stack == Values(o.value, env);
  }

  lemma ArithmeticIsRejected(op: Byte, st: seq<Expr>, env: Env)
    requires IsPointerArithmetic(op)
    ensures MeaningOfStack(StackOp(op, st), env) == if |st| < 2 then Undefined else Rejected
    ensures Means(StackOperation(op), Values(st, env), env).Going? <==> |st| >= 2
  {
    var o := StackOp(op, st);
    assert o.Some? ==> TypeOf(o.value[|st| - 2]) == IllTyped;
  }

  lemma StackOpAgreesIff(code: seq<Byte>, s: State, env: Env, addressSize: nat)
    requires s.pos < |code| && IsStackOp(code[s.pos]) && addressSize > 0 && WellTyped(s.stack)
    ensures Agrees(code, s, env, addressSize) <==> !(IsPointerArithmetic(code[s.pos]) && |s.stack| >= 2)
  {
    if IsPointerArithmetic(code[s.pos]) {
      ArithmeticIsRejected(code[s.pos], s.stack, env);
    } else {
      StackOpMeans(code[s.pos], s.stack, env);
    }
  }

  /** Even if pointers could be subtracted, DW_OP_minus would do it the wrong way round. */
  lemma MinusIsReversed(st: seq<Expr>, env: Env)
    requires |st| >= 2
    ensures var m, o := Means(StackOperation(0x1c), Values(st, env), env), StackOp(0x1c, st);
      Value(o.value[|st| - 2], env) == -m.stack[0] && Values(o.value, env)[1..] == m.stack[1..]
  {
  }

  lemma SimpleOpAgrees(code: seq<Byte>, s: State, env: Env, addressSize: nat)
    requires s.pos < |code| && IsSimpleOp(code[s.pos]) && addressSize > 0 && WellTyped(s.stack)
    ensures Agrees(code, s, env, addressSize)
  {
    hide Values, Decode, WellTyped;
    StackIsTyped(s.stack);
    PushAgrees(s.stack, Hex(code[s.pos] - 0x30), env);
    PushAgrees(s.stack, Cfa, env);
  }

  /** A base plus the operand at a position. */
  lemma BaseOpMeans(code: seq<Byte>, s: State, base: Expr, at: nat, env: Env)
    requires at <= |code| && WellTyped(s.stack) && TypeOf(base) == CharPointer
    ensures match Decode(true, code[at..])
      case None => BaseOp(code, s, base, at) == Fail
      case Some(d) =>
        MeaningOf(BaseOp(code, s, base, at), env) == Going([Value(base, env) + d.value] + Values(s.stack, env))
  {
    match Decode(true, code[at..])
    case None =>
    case Some(d) => PushAgrees(s.stack, Displaced(base, d.value), env);
  }

  lemma BaseOpAgrees(code: seq<Byte>, s: State, env: Env, addressSize: nat)
    requires s.pos < |code| && (0x70 <= code[s.pos] <= 0x8f || code[s.pos] == 0x91)
    requires addressSize > 0 && WellTyped(s.stack)
    ensures Agrees(code, s, env, addressSize)
  {
    hide Values, Decode, WellTyped;
    var op, pos := code[s.pos], s.pos + 1;
    if op == 0x91 {
      BaseOpMeans(code, s.(usesFrame := true), Frame, pos, env);
    } else {
      BaseOpMeans(code, s, RegPointer(op - 0x70), pos, env);
    }
  }

  lemma BregxAgrees(code: seq<Byte>, s: State, env: Env, addressSize: nat)
    requires s.pos < |code| && code[s.pos] == 0x92 && addressSize > 0 && WellTyped(s.stack)
    ensures Agrees(code, s, env, addressSize)
  {
    hide Values, Decode, WellTyped;
    var pos := s.pos + 1;
    match Decode(false, code[pos..])
    case None =>
    case Some(d) =>
      EncodingIsShortest(false, code[pos..]);
      BaseOpMeans(code, s, RegPointer(d.value), pos + d.size, env);
  }

  lemma LittleEndianStep(bytes: seq<Byte>, b: Byte, rest: seq<Byte>)
    requires bytes == [b] + rest
    ensures LittleEndian(bytes) == b as nat + 0x100 * LittleEndian(rest)
  {
    assert bytes[1..] == rest;
  }

  /** The operand of DW_OP_addr that the machine reads is the standard's for 32-bit addresses. */
  lemma WordIsLittleEndian(code: seq<Byte>, pos: nat)
    requires pos + 4 <= |code|
    ensures FixedValue(0, code[pos..pos + 4]) == Word(code, pos)
  {
    hide LittleEndian, Range;
    LittleEndianStep(code[pos..pos + 4], code[pos], code[pos + 1..pos + 4]);
    LittleEndianStep(code[pos + 1..pos + 4], code[pos + 1], code[pos + 2..pos + 4]);
    LittleEndianStep(code[pos + 2..pos + 4], code[pos + 2], code[pos + 3..pos + 4]);
    LittleEndianStep(code[pos + 3..pos + 4], code[pos + 3], []);
    NoBytes();
  }

  lemma NoBytes()
    ensures LittleEndian([]) == 0
  {
  }

  lemma AddrAgreesIff(code: seq<Byte>, s: State, env: Env, addressSize: nat)
    requires s.pos < |code| && code[s.pos] == 0x03 && addressSize >= 4 && WellTyped(s.stack)
    ensures Agrees(code, s, env, addressSize) <==> addressSize == 4 || s.pos + 5 > |code|
  {
    var pos := s.pos + 1;
    if pos + 4 <= |code| {
      WordIsLittleEndian(code, pos);
      PushAgrees(s.stack, Addr(Word(code, pos)), env);
    }
  }

  lemma FixedConstantAgreesIff(code: seq<Byte>, s: State, env: Env, addressSize: nat)
    requires s.pos < |code| && IsFixedConstant(code[s.pos]) && addressSize > 0
    ensures Agrees(code, s, env, addressSize) <==> s.pos + 1 + FixedSize(code[s.pos]) > |code|
  {
  }

  lemma OtherOpAgreesIff(code: seq<Byte>, s: State, env: Env, addressSize: nat)
    requires s.pos < |code| && addressSize > 0 && WellTyped(s.stack)
    requires !IsStackOp(code[s.pos]) && !IsSimpleOp(code[s.pos])
    requires !(0x70 <= code[s.pos] <= 0x8f) && code[s.pos] != 0x91 && code[s.pos] != 0x92
    requires code[s.pos] != 0x03 && !IsFixedConstant(code[s.pos])
    ensures Agrees(code, s, env, addressSize) <==> !IsUndescribed(code[s.pos])
  {
    hide Values, Decode, WellTyped;
    var op, pos := code[s.pos], s.pos + 1;
    if op == 0x15 {
      StackIsTyped(s.stack);
      if pos < |code| && code[pos] < |s.stack| {
        PushAgrees(s.stack, s.stack[|s.stack| - 1 - code[pos]], env);
      }
    } else if op == 0x10 || op == 0x11 {
      match Decode(op == 0x11, code[pos..])
      case None =>
      case Some(d) => PushAgrees(s.stack, Hex(d.value), env);
    }
  }

  /** The machine does not do at a position what the standard says: it adds or subtracts, it
      reads a constant of fixed size, it reads an address of more than 32 bits, or the
      operation is none of those that are described here. */
  predicate Differs(code: seq<Byte>, at: nat, depth: nat, addressSize: nat)
    requires at < |code|
  {
    var op := code[at];
    || (IsPointerArithmetic(op) && depth >= 2)
    || (IsFixedConstant(op) && at + 1 + FixedSize(op) <= |code|)
    || (op == 0x03 && addressSize > 4 && at + 5 <= |code|)
    || IsUndescribed(op)
  }

  /** One operation of the machine, exactly where it is right. */
  lemma StepAgreesIff(code: seq<Byte>, s: State, env: Env, addressSize: nat)
    requires s.pos < |code| && addressSize >= 4 && WellTyped(s.stack)
    ensures Agrees(code, s, env, addressSize) <==> !Differs(code, s.pos, |s.stack|, addressSize)
  {
    var op := code[s.pos];
    if IsStackOp(op) {
      StackOpAgreesIff(code, s, env, addressSize);
    } else if IsSimpleOp(op) {
      SimpleOpAgrees(code, s, env, addressSize);
    } else if op == 0x92 {
      BregxAgrees(code, s, env, addressSize);
    } else if 0x70 <= op <= 0x8f || op == 0x91 {
      BaseOpAgrees(code, s, env, addressSize);
    } else if op == 0x03 {
      AddrAgreesIff(code, s, env, addressSize);
    } else if IsFixedConstant(op) {
      FixedConstantAgreesIff(code, s, env, addressSize);
    } else {
      OtherOpAgreesIff(code, s, env, addressSize);
    }
  }

  /** Read from a position on, the code has only operations with which the machine copes. */
  predicate Plain(code: seq<Byte>, at: nat, addressSize: nat)
    requires at <= |code| && addressSize > 0
    decreases |code| - at
  {
    at == |code|
    || (var op := code[at];
        && !IsPointerArithmetic(op) && !IsFixedConstant(op) && !IsUndescribed(op) && (op == 0x03 ==> addressSize == 4)
        && var p := Parse(code, at, addressSize); p.Parsed? ==> Plain(code, p.pos, addressSize))
  }

  lemma PlainIsRight(code: seq<Byte>, at: nat, depth: nat, addressSize: nat)
    requires at < |code| && addressSize > 0 && Plain(code, at, addressSize)
    ensures !Differs(code, at, depth, addressSize)
    ensures Parse(code, at, addressSize).Parsed? ==> Plain(code, Parse(code, at, addressSize).pos, addressSize)
  {
  }

  /** What the agreement comes to, outcome by outcome. */
  lemma AgreesFacts(code: seq<Byte>, s: State, env: Env, addressSize: nat)
    requires s.pos < |code| && addressSize > 0 && Agrees(code, s, env, addressSize)
    ensures Step(code, s).Fail? ==> Reference(code, s.pos, Values(s.stack, env), env, addressSize) == Undefined
    ensures Step(code, s).Done? ==>
              TypeOf(Step(code, s).e) != IllTyped
              && Reference(code, s.pos, Values(s.stack, env), env, addressSize) == Content(Value(Step(code, s).e, env))
    ensures Step(code, s).Next? ==>
              Parse(code, s.pos, addressSize).Parsed? && Parse(code, s.pos, addressSize).pos == Step(code, s).s.pos
              && WellTyped(Step(code, s).s.stack)
              && Reference(code, s.pos, Values(s.stack, env), env, addressSize) ==
                   Going(Values(Step(code, s).s.stack, env))
  {
  }

  /** For code with such operations only, the C expression that the machine writes has the
      value that the standard gives, as a location or as a content; and the machine gives up
      exactly where the standard's does. */
  lemma {:induction false} RunAgrees(code: seq<Byte>, s: State, env: Env, addressSize: nat)
    requires s.pos <= |code| && addressSize >= 4 && WellTyped(s.stack) && Plain(code, s.pos, addressSize)
    ensures Evaluate(code, s.pos, Values(s.stack, env), env, addressSize) == MeaningOfResult(Run(code, s), env)
    decreases |code| - s.pos
  {
    if s.pos == |code| {
      LastIsTyped(s.stack);
    } else {
      hide Step, Parse, Reference, Values, Differs, Plain, Agrees, WellTyped, TypeOf, Value;
      PlainIsRight(code, s.pos, |s.stack|, addressSize);
      StepAgreesIff(code, s, env, addressSize);
      AgreesFacts(code, s, env, addressSize);
      if Step(code, s).Next? {
        RunAgrees(code, Step(code, s).s, env, addressSize);
      }
    }
  }

  /** Each kind of exception in a whole expression.  lit1, lit2 and minus or plus ... */
  lemma ArithmeticDiffers(op: Byte, env: Env)
    requires IsPointerArithmetic(op)
    ensures Evaluate([0x31, 0x32, op], 0, [], env, 4) == Location(if op == 0x1c then -1 else 3)
    ensures MeaningOfResult(Run([0x31, 0x32, op], START), env) == Rejected
  {
    ArithmeticInC(op, env);
    ArithmeticInDwarf(op, env);
  }

  lemma ArithmeticInC(op: Byte, env: Env)
    requires IsPointerArithmetic(op)
    ensures MeaningOfResult(Run([0x31, 0x32, op], START), env) == Rejected
  {
    var code := [0x31, 0x32, op];
    var one, two := State([Hex(1)], 1, false, false), State([Hex(1), Hex(2)], 2, false, false);
    var e := if op == 0x1c then Difference(Hex(2), Hex(1)) else Sum(Hex(2), Hex(1));
    var three := State([e], 3, false, false);
    hide Decode, Word;
    assert Step(code, START) == Next(one);
    assert Step(code, one) == Next(two);
    assert Step(code, two) == Next(three);
    assert Run(code, three) == Result(e, true, false, false) && Run(code, two) == Run(code, three);
    assert Run(code, one) == Run(code, two);
  }

  lemma ArithmeticInDwarf(op: Byte, env: Env)
    requires IsPointerArithmetic(op)
    ensures Evaluate([0x31, 0x32, op], 0, [], env, 4) == Location(if op == 0x1c then -1 else 3)
  {
    var code := [0x31, 0x32, op];
    var third := if op == 0x1c then -1 else 3;
    assert Reference(code, 0, [], env, 4) == Going([1]);
    assert Reference(code, 1, [1], env, 4) == Going([2, 1]);
    assert Reference(code, 2, [2, 1], env, 4) == Going([third]);
    assert Evaluate(code, 3, [third], env, 4) == Location(third);
    assert Evaluate(code, 1, [1], env, 4) == Evaluate(code, 2, [2, 1], env, 4);
  }

  /** ... const1u of 5, ... */
  lemma ConstantDiffers(env: Env)
    ensures Evaluate([0x08, 5], 0, [], env, 4) == Location(5) && Run([0x08, 5], START) == Error
  {
    var code: seq<Byte> := [0x08, 5];
    assert code[1..2] == [5] + [];
    LittleEndianStep(code[1..2], 5, []);
    assert Reference(code, 0, [], env, 4) == Going([5]);
  }

  /** ... and an address of eight bytes, of which four are zero. */
  lemma AddressDiffers(address: seq<Byte>, env: Env)
    requires |address| == 8 && address[4] == 0
    ensures Evaluate([0x03] + address, 0, [], env, 8).Location? && Run([0x03] + address, START) == Error
  {
    hide FixedValue, LittleEndian, Range, Decode;
    var code := [0x03] + address;
    assert Reference(code, 0, [], env, 8) == Going([FixedValue(0, code[1..9])]);
    assert Step(code, START).Next? && code[5] == 0;
    assert Step(code, Step(code, START).s) == Fail;
  }

  // ----- The flags -----

  predicate MentionsFrame(e: Expr) {
    match e
    case Frame => true
    case Above(b, _) => MentionsFrame(b)
    case Below(b, _) => MentionsFrame(b)
    case Sum(a, b) => MentionsFrame(a) || MentionsFrame(b)
    case Difference(a, b) => MentionsFrame(a) || MentionsFrame(b)
    case _ => false
  }

  predicate MentionsCfa(e: Expr) {
    match e
    case Cfa => true
    case Above(b, _) => MentionsCfa(b)
    case Below(b, _) => MentionsCfa(b)
    case Sum(a, b) => MentionsCfa(a) || MentionsCfa(b)
    case Difference(a, b) => MentionsCfa(a) || MentionsCfa(b)
    case _ => false
  }

  /** What an expression refers to is announced. */
  predicate Covered(e: Expr, usesFrame: bool, usesCfa: bool) {
    (MentionsFrame(e) ==> usesFrame) && (MentionsCfa(e) ==> usesCfa)
  }

  predicate FlagsCover(s: State) { forall i :: 0 <= i < |s.stack| ==> Covered(s.stack[i], s.usesFrame, s.usesCfa) }

  lemma StackOpCovers(op: Byte, s: State)
    requires IsStackOp(op) && FlagsCover(s)
    ensures StackOp(op, s.stack).Some? ==> FlagsCover(s.(stack := StackOp(op, s.stack).value))
  {
  }

  lemma PushCovers(s: State, s': State, e: Expr)
    requires FlagsCover(s) && s'.stack == s.stack + [e] && (s.usesFrame ==> s'.usesFrame) && (s.usesCfa ==> s'.usesCfa)
    requires Covered(e, s'.usesFrame, s'.usesCfa)
    ensures FlagsCover(s')
  {
    forall i | 0 <= i < |s'.stack|
      ensures Covered(s'.stack[i], s'.usesFrame, s'.usesCfa)
    {
      assert i < |s.stack| ==> s'.stack[i] == s.stack[i] && Covered(s.stack[i], s.usesFrame, s.usesCfa);
    }
  }

  lemma SimpleOpCovers(code: seq<Byte>, s: State, op: Byte, pos: nat)
    requires pos <= |code| && IsSimpleOp(op) && FlagsCover(s)
    ensures var o := SimpleOp(code, s, op, pos);
      (o.Next? ==> FlagsCover(o.s)) && (o.Done? ==> Covered(o.e, o.s.usesFrame, o.s.usesCfa))
  {
    var o := SimpleOp(code, s, op, pos);
    if o.Next? {
      PushCovers(s, o.s, o.s.stack[|s.stack|]);
    }
  }

  lemma BaseOpCovers(code: seq<Byte>, s: State, base: Expr, pos: nat)
    requires pos <= |code| && FlagsCover(s) && Covered(base, s.usesFrame, s.usesCfa)
    ensures BaseOp(code, s, base, pos).Next? ==> FlagsCover(BaseOp(code, s, base, pos).s)
  {
    var o := BaseOp(code, s, base, pos);
    if o.Next? {
      PushCovers(s, o.s, Displaced(base, Decode(true, code[pos..]).value.value));
    }
  }

  lemma OperandOpCovers(code: seq<Byte>, s: State, op: Byte, pos: nat)
    requires pos <= |code| && FlagsCover(s)
    ensures OperandOp(code, s, op, pos).Next? ==> FlagsCover(OperandOp(code, s, op, pos).s)
  {
    var o := OperandOp(code, s, op, pos);
    if o.Next? {
      if 0x70 <= op <= 0x8f {
        BaseOpCovers(code, s, RegPointer(op - 0x70), pos);
      } else if op == 0x91 {
        assert FlagsCover(s.(usesFrame := true));
        BaseOpCovers(code, s.(usesFrame := true), Frame, pos);
      } else if op == 0x92 {
        var d := Decode(false, code[pos..]).value;
        EncodingIsShortest(false, code[pos..]);
        BaseOpCovers(code, s, RegPointer(d.value), pos + d.size);
      } else {
        PushCovers(s, o.s, o.s.stack[|s.stack|]);
      }
    }
  }

  lemma StepCovers(code: seq<Byte>, s: State)
    requires s.pos < |code| && FlagsCover(s)
    ensures var o := Step(code, s);
      (o.Next? ==> FlagsCover(o.s)) && (o.Done? ==> Covered(o.e, o.s.usesFrame, o.s.usesCfa))
  {
    var op := code[s.pos];
    if IsStackOp(op) {
      StackOpCovers(op, s);
    } else if IsSimpleOp(op) {
      SimpleOpCovers(code, s, op, s.pos + 1);
    } else {
      OperandOpCovers(code, s, op, s.pos + 1);
    }
  }

  /** A result that refers to the frame base or the frame address says so. */
  lemma {:induction false} RunCovers(code: seq<Byte>, s: State)
    requires s.pos <= |code| && FlagsCover(s)
    ensures Run(code, s).Result? ==> Covered(Run(code, s).e, Run(code, s).usesFrame, Run(code, s).usesCfa)
    decreases |code| - s.pos
  {
    if s.pos < |code| {
      StepCovers(code, s);
      if Step(code, s).Next? {
        RunCovers(code, Step(code, s).s);
      }
    }
  }

  // ----- The class -----

  class Machine {
    const expression: seq<Byte>
    var stack: seq<Expr>
    var pos: nat
    var usesFrame: bool
    var usesCfa: bool

    function Current(): State
      reads this
    {
      State(stack, pos, usesFrame, usesCfa)
    }

    constructor (expression: seq<Byte>)
      ensures this.expression == expression && Current() == START
    {
      this.expression := expression;
      stack, pos, usesFrame, usesCfa := [], 0, false, false;
    }

    method PushExpr(e: Expr)
      modifies this`stack
      ensures stack == old(stack) + [e]
    {
      stack := stack + [e];
    }

    /** None: stack underflow. */
    method Pop() returns (r: Option<Expr>)
      modifies this`stack
      ensures old(stack) == [] ==> r == None && stack == []
      ensures old(stack) != [] ==> r.Some? && stack + [r.value] == old(stack)
    {
      if stack == [] {
        return None;
      }
      r := Some(stack[|stack| - 1]);
      stack := stack[..|stack| - 1];
    }

    method ReadLeb(signed: bool) returns (r: Option<int>)
      requires pos <= |expression|
      modifies this`pos
      ensures old(pos) <= pos <= |expression|
      ensures match Decode(signed, expression[old(pos)..])
        case None => r == None
        case Some(d) => r == Some(d.value) && pos == old(pos) + d.size
    {
      r, pos := DecodeLoop(signed, expression, pos);
    }

    /** The method of a stack operation; false is an error. */
    method ExecuteStackOp(op: Byte) returns (ok: bool)
      requires IsStackOp(op)
      modifies this`stack
      ensures ok == StackOp(op, old(stack)).Some?
      ensures ok ==> stack == StackOp(op, old(stack)).value
    {
      var n := |stack|;
      if op == 0x96 {
        return true;
      }
      if n < (if op == 0x17 then 3 else if op == 0x12 || op == 0x13 then 1 else 2) {
        return false;
      }
      var a := Pop();
      if op == 0x13 {
        return true;
      }
      if op == 0x12 {
        PushExpr(a.value);
        PushExpr(a.value);
        return true;
      }
      var b := Pop();
      match op {
        case 0x14 =>
          PushExpr(b.value);
          PushExpr(a.value);
          PushExpr(b.value);
        case 0x16 =>
          PushExpr(a.value);
          PushExpr(b.value);
        case 0x17 =>
          var c := Pop();
          PushExpr(a.value);
          PushExpr(c.value);
          PushExpr(b.value);
        case 0x1c => PushExpr(Difference(a.value, b.value));
        case _ => PushExpr(Sum(a.value, b.value));
      }
      return true;
    }

    method ExecuteBase(base: Expr) returns (ok: bool)
      requires pos <= |expression|
      modifies this`stack, this`pos
      ensures match BaseOp(expression, old(Current()), base, old(pos))
        case Next(s) => ok && Current() == s
        case _ => !ok
    {
      var offset := ReadLeb(true);
      if offset == None {
        return false;
      }
      PushExpr(Displaced(base, offset.value));
      return true;
    }

    method ExecuteOperandOp(op: Byte) returns (ok: bool)
      requires pos <= |expression|
      modifies this
      ensures match OperandOp(expression, old(Current()), op, old(pos))
        case Next(s) => ok && Current() == s
        case _ => !ok
    {
      if op == 0x03 {
        if pos + 4 > |expression| {
          return false;
        }
        PushExpr(Addr(Word(expression, pos)));
        pos := pos + 4;
        return true;
      }
      if op == 0x10 || op == 0x11 {
        var v := ReadLeb(op == 0x11);
        if v == None {
          return false;
        }
        PushExpr(Hex(v.value));
        return true;
      }
      if op == 0x15 {
        if pos == |expression| || expression[pos] >= |stack| {
          return false;
        }
        PushExpr(stack[|stack| - 1 - expression[pos]]);
        pos := pos + 1;
        return true;
      }
      if 0x70 <= op <= 0x8f {
        ok := ExecuteBase(RegPointer(op - 0x70));
      } else if op == 0x91 {
        usesFrame := true;
        ok := ExecuteBase(Frame);
      } else if op == 0x92 {
        ok := ExecuteBregx();
      } else {
        ok := false;
      }
    }

    method ExecuteBregx() returns (ok: bool)
      requires pos <= |expression|
      modifies this`stack, this`pos
      ensures match OperandOp(expression, old(Current()), 0x92, old(pos))
        case Next(s) => ok && Current() == s
        case _ => !ok
    {
      EncodingNonNegative(expression[pos..]);
      var n := ReadLeb(false);
      if n == None {
        return false;
      }
      ok := ExecuteBase(RegPointer(n.value));
    }

    method ExecuteSimpleOp(op: Byte) returns (ok: bool, ret: Option<Expr>)
      requires pos <= |expression| && IsSimpleOp(op)
      modifies this
      ensures match SimpleOp(expression, old(Current()), op, old(pos))
        case Fail => !ok
        case Next(s) => ok && ret == None && Current() == s
        case Done(e, s) => ok && ret == Some(e) && Current() == s
    {
      ok, ret := true, None;
      if op <= 0x4f {
        PushExpr(Hex(op - 0x30));
      } else if op <= 0x6f {
        ret := Some(Reg(op - 0x50));
      } else if op == 0x90 {
        EncodingNonNegative(expression[pos..]);
        var n := ReadLeb(false);
        ok := n.Some?;
        if ok {
          ret := Some(Reg(n.value));
        }
      } else if op == 0x9c {
        PushExpr(Cfa);
        usesCfa := true;
      } else {
        ret := Pop();
        ok := ret.Some?;
      }
    }

    /** One turn of run: an error, a result, or neither. */
    method Execute() returns (ok: bool, ret: Option<Expr>)
      requires pos < |expression|
      modifies this
      ensures match Step(expression, old(Current()))
        case Fail => !ok
        case Next(s) => ok && ret == None && Current() == s
        case Done(e, s) => ok && ret == Some(e) && Current() == s
    {
      hide StackOp, Decode, Word, Displaced;
      var op := expression[pos];
      ret := None;
      pos := pos + 1;
      if IsStackOp(op) {
        ok := ExecuteStackOp(op);
      } else if IsSimpleOp(op) {
        ok, ret := ExecuteSimpleOp(op);
      } else {
        ok := ExecuteOperandOp(op);
      }
    }

    method Evaluated() returns (r: Result)
      requires Current() == START
      modifies this
      ensures r == Run(expression, START)
    {
      while pos < |expression|
        invariant pos <= |expression| && Run(expression, Current()) == Run(expression, START)
        decreases |expression| - pos
      {
        var ok, ret := Execute();
        if !ok {
          return Error;
        }
        if ret.Some? {
          return Result(ret.value, false, usesFrame, usesCfa);
        }
      }
      var top := Pop();
      if top == None {
        return Error;
      }
      return Result(top.value, true, usesFrame, usesCfa);
    }
  }

  lemma EncodingNonNegative(data: seq<Byte>)
    ensures Decode(false, data).Some? ==> Decode(false, data).value.value >= 0
  {
    if Decode(false, data).Some? {
      EncodingIsShortest(false, data);
    }
  }
}

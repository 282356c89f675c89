/** The DWARF expression evaluator as a transition function: what one operation does to the
    stack, where control goes next, and what a whole run returns. `Machine` holds the class
    whose methods change a stack in place; its contracts refer to the functions here. */
module Expression {
  import opened Words

  type Stack = seq<SWord>  // the top is the last element

  type Num32 = n: nat | n < 32

  datatype UnaryOp = Abs | Neg | Not | PlusUconst
  datatype BinaryOp = And | Div | Minus | Mod | Mul | Or | Plus | Shl | Shr | Shra | Xor
  datatype CompareOp = Le | Ge | Eq | Lt | Gt | Ne

  /** Operations grouped as the source's switch groups them. `Const` stands for DW_OP_addr and
      every DW_OP_const*; `Unsupported` has a name in libdwarf but no case in the switch;
      `Illegal` has no name. */
  datatype Code =
    | Reg(n: Num32) | Regx
    | Lit(n: Num32) | Const
    | Fbreg | Breg(n: Num32) | Bregx
    | Dup | Drop | Pick | Over | Swap | Rot
    | Deref | DerefSize | CallFrameCfa
    | Unary(u: UnaryOp) | Binary(b: BinaryOp) | Compare(c: CompareOp)
    | Skip | Bra | Nop | StackValue
    | Unsupported | Illegal

  datatype Op = Op(code: Code, op1: Word, off: Word)

  datatype ErrorCode =
    | MemoryInvalid | RegisterInvalid | FrameBaseInvalid | IllegalState | IllegalOp | IllegalOpd
    | StackIndexInvalid | CfaInvalid | NotImplemented | AddressInvalid

  datatype Result = Error(code: ErrorCode, addr: Word) | Value(value: Word) | Address(value: Word) {
    predicate Valid() {
      !Error?
    }
  }

  /** Why C++ gives a step no meaning. */
  datatype Hazard = EmptyStack | Division | ShiftCount | Overrun

  /** What a call gives back: a value, no return within the step budget, or undefined behaviour. */
  datatype Reply<+T> = Returned(value: T) | Stuck | Undefined(why: Hazard)

  /** A memory provider refuses, serves bytes, or hands out a pointer past its buffer. */
  datatype MemAnswer = Denied | Served(bytes: seq<byte>) | PastEnd

  type Registers = int -> Option<Word>
  type Memory = (Word, Word) -> MemAnswer

  /** The evaluation context at one pc: each provider may be missing. The frame base and the CFA
      are asked for at that one pc only, so their replies are part of the context. */
  datatype Env = Env(
    registers: Option<Registers>,
    memory: Option<Memory>,
    frameBase: Option<Reply<Result>>,
    cfa: Option<Reply<Word>>)

  /** Effect of an operation that is not a branch. */
  datatype Effect = Done(stack: Stack) | Stop(reply: Reply<Result>, stack: Stack)

  function Fail(code: ErrorCode, off: Word, s: Stack): Effect {
    Stop(Returned(Error(code, off)), s)
  }

  function Top(s: Stack): SWord
    requires s != []
  {
    s[|s| - 1]
  }

  function Pop(s: Stack, n: nat := 1): Stack
    requires n <= |s|
  {
    s[..|s| - n]
  }

  /** The entry n places below the top. */
  function Peek(s: Stack, n: nat): SWord
    requires n < |s|
  {
    s[|s| - 1 - n]
  }

  // ----- arithmetic -----

  function AbsVal(x: int): nat {
    if x < 0 then -x else x
  }

  /** C++ division truncates towards zero. */
  function TruncDiv(a: int, b: int): int
    requires b != 0
  {
    var q := AbsVal(a) / AbsVal(b);
    if (a < 0) == (b < 0) then q else -q
  }

  function TruncMod(a: int, b: int): int
    requires b != 0
  {
    var r := AbsVal(a) % AbsVal(b);
    if a < 0 then -r else r
  }

  function UnaryValue(u: UnaryOp, top: SWord, op1: Word): SWord {
    match u
    case Abs => ToSigned(AbsVal(top))
    case Neg => ToSigned(-(top as int))
    case Not => ToSigned(-1 - top)
    case PlusUconst => ToSigned(top + op1)
  }

  function BitValue(f: BitFn, a: SWord, b: SWord): SWord {
    ToSigned(Bitwise(f, 64, ToWord(a), ToWord(b)))
  }

  /** e1 is the former top, e2 the former second entry. */
  function BinaryValue(b: BinaryOp, e2: SWord, e1: SWord): Reply<SWord> {
    match b
    case And => Returned(BitValue(AndFn, e1, e2))
    case Or => Returned(BitValue(OrFn, e2, e1))
    case Xor => Returned(BitValue(XorFn, e2, e1))
    case Plus => Returned(ToSigned(e2 + e1))
    case Minus => Returned(ToSigned(e2 - e1))
    case Mul => Returned(ToSigned(e2 * e1))
    case Div => if DivisionFaults(e2, e1) then Undefined(Division) else Returned(ToSigned(TruncDiv(e2, e1)))
    case Mod => if DivisionFaults(e2, e1) then Undefined(Division) else Returned(ToSigned(TruncMod(e2, e1)))
    case Shl => if 0 <= e1 < 64 then Returned(ToSigned(e2 * Pow2(e1))) else Undefined(ShiftCount)
    case Shr => if 0 <= e1 < 64 then Returned(ToSigned(e2 / Pow2(e1))) else Undefined(ShiftCount)
    case Shra => if 0 <= e1 < 64 then Returned(ToSigned(e2 / Pow2(e1))) else Undefined(ShiftCount)
  }

  predicate DivisionFaults(e2: SWord, e1: SWord) {
    e1 == 0 || (e2 == -TWO63 && e1 == -1)
  }

  predicate Holds(c: CompareOp, e2: SWord, e1: SWord) {
    match c
    case Le => e2 <= e1
    case Ge => e2 >= e1
    case Eq => e2 == e1
    case Lt => e2 < e1
    case Gt => e2 > e1
    case Ne => e2 != e1
  }

  // ----- one operation -----

  function ReadRegister(env: Env, n: int): Option<Word> {
    if env.registers.None? then None else env.registers.value(n)
  }

  /** DW_OP_reg0..31 and DW_OP_regx end the expression with the register's value. */
  function ApplyReg(env: Env, n: int, off: Word, s: Stack): Effect {
    match ReadRegister(env, n)
    case None => Fail(RegisterInvalid, off, s)
    case Some(v) => Stop(Returned(Value(v)), s + [ToSigned(v)])
  }

  function ApplyBreg(env: Env, n: int, a: Op, s: Stack): Effect {
    match ReadRegister(env, n)
    case None => Fail(RegisterInvalid, a.off, s)
    case Some(v) => Done(s + [ToSigned(v + a.op1)])
  }

  function ApplyFbreg(env: Env, a: Op, s: Stack): Effect {
    match env.frameBase
    case None => Fail(FrameBaseInvalid, a.off, s)
    case Some(Stuck) => Stop(Stuck, s)
    case Some(Undefined(h)) => Stop(Undefined(h), s)
    case Some(Returned(r)) =>
      if r.Valid() then Done(s + [ToSigned(r.value + a.op1)]) else Fail(FrameBaseInvalid, a.off, s)
  }

  function ApplyCfa(env: Env, a: Op, s: Stack): Effect {
    match env.cfa
    case None => Fail(CfaInvalid, a.off, s)
    case Some(Stuck) => Stop(Stuck, s)
    case Some(Undefined(h)) => Stop(Undefined(h), s)
    case Some(Returned(w)) => Done(s + [ToSigned(w)])
  }

  /** The size check computes idx + 1 in 64 bits, and the loop counter has 32 bits: an operand it
      cannot reach makes the loop pop until nothing is left. */
  function ApplyPick(a: Op, s: Stack): Effect {
    if |s| < ToWord(a.op1 + 1) then Fail(StackIndexInvalid, a.off, s)
    else if a.op1 >= TWO32 then Stop(Undefined(EmptyStack), s)
    else Done(s + [Peek(s, a.op1)])
  }

  function ApplyShuffle(a: Op, s: Stack): Effect
    requires a.code.Dup? || a.code.Drop? || a.code.Pick? || a.code.Over? || a.code.Swap? || a.code.Rot?
  {
    match a.code
    case Dup => if |s| < 1 then Fail(StackIndexInvalid, a.off, s) else Done(s + [Top(s)])
    case Drop => if |s| < 1 then Fail(StackIndexInvalid, a.off, s) else Done(Pop(s))
    case Pick => ApplyPick(a, s)
    case Over => if |s| < 2 then Fail(StackIndexInvalid, a.off, s) else Done(s + [Peek(s, 1)])
    case Swap =>
      if |s| < 2 then Fail(StackIndexInvalid, a.off, s)
      else Done(Pop(s, 2) + [Peek(s, 0), Peek(s, 1)])
    case Rot =>
      if |s| < 3 then Fail(StackIndexInvalid, a.off, s)
      else Done(Pop(s, 3) + [Peek(s, 0), Peek(s, 2), Peek(s, 1)])
  }

  /** readMemory: the whole word or the default. */
  function ReadWord(memory: Memory, addr: Word, default: Word): Reply<Word> {
    match memory(addr, 8)
    case Denied => Returned(default)
    case PastEnd => Undefined(Overrun)
    case Served(b) =>
      Pow256Values();
      if |b| == 8 then Returned(FromLE(b)) else Returned(default)
  }

  function ApplyDeref(env: Env, a: Op, s: Stack): Effect {
    if env.memory.None? then Fail(MemoryInvalid, a.off, s)
    else if s == [] then Fail(StackIndexInvalid, a.off, s)
    else match ReadWord(env.memory.value, ToWord(Top(s)), MAX_SIGNED)
      case Undefined(h) => Stop(Undefined(h), Pop(s))
      case Stuck => Stop(Stuck, Pop(s))
      case Returned(w) =>
        if ToSigned(w) == MAX_SIGNED then Fail(MemoryInvalid, a.off, Pop(s)) else Done(Pop(s) + [ToSigned(w)])
  }

  /** The first eight bytes, zero-extended, as a stack entry. */
  function ZeroExtended(b: seq<byte>): SWord {
    ToSigned(FromLE(if |b| <= 8 then b else b[..8]))
  }

  function ApplyDerefSize(env: Env, a: Op, s: Stack): Effect {
    if env.memory.None? then Fail(MemoryInvalid, a.off, s)
    else if s == [] then Fail(StackIndexInvalid, a.off, s)
    else if a.op1 > 8 || a.op1 == 0 then Fail(IllegalOpd, a.off, s)
    else match env.memory.value(ToWord(Top(s)), a.op1)
      case Denied => Fail(MemoryInvalid, a.off, Pop(s))
      case PastEnd => Stop(Undefined(Overrun), Pop(s))
      case Served(b) => Done(Pop(s) + [ZeroExtended(b)])
  }

  function ApplyUnary(a: Op, s: Stack): Effect
    requires a.code.Unary?
  {
    if s == [] then Fail(StackIndexInvalid, a.off, s)
    else Done(Pop(s) + [UnaryValue(a.code.u, Top(s), a.op1)])
  }

  function ApplyBinary(a: Op, s: Stack): Effect
    requires a.code.Binary?
  {
    if |s| < 2 then Fail(StackIndexInvalid, a.off, s)
    else match BinaryValue(a.code.b, Peek(s, 1), Peek(s, 0))
      case Returned(v) => Done(Pop(s, 2) + [v])
      case Undefined(h) => Stop(Undefined(h), Pop(s, 2))
      case Stuck => Stop(Stuck, Pop(s, 2))
  }

  /** No depth check here: top() or pop() of an empty std::stack is undefined. */
  function ApplyCompare(a: Op, s: Stack): Effect
    requires a.code.Compare?
  {
    if |s| < 2 then Stop(Undefined(EmptyStack), s)
    else Done(Pop(s, 2) + [if Holds(a.code.c, Peek(s, 1), Peek(s, 0)) then 1 else 0])
  }

  /** `first` is the first operand of the expression's first operation, which DW_OP_regx reads
      whatever its own position. */
  function Apply(a: Op, first: Word, env: Env, s: Stack): Effect
    requires !a.code.Skip? && !a.code.Bra?
  {
    match a.code
    case Reg(n) => ApplyReg(env, n, a.off, s)
    case Regx => ApplyReg(env, first % 0x1_0000, a.off, s)
    case Lit(n) => Done(s + [n])
    case Const => Done(s + [ToSigned(a.op1)])
    case Fbreg => ApplyFbreg(env, a, s)
    case Breg(n) => ApplyBreg(env, n, a, s)
    case Bregx => ApplyBreg(env, a.op1 % 0x1_0000, a, s)
    case Deref => ApplyDeref(env, a, s)
    case DerefSize => ApplyDerefSize(env, a, s)
    case CallFrameCfa => ApplyCfa(env, a, s)
    case Unary(_) => ApplyUnary(a, s)
    case Binary(_) => ApplyBinary(a, s)
    case Compare(_) => ApplyCompare(a, s)
    case Nop => Done(s)
    case StackValue => if s == [] then Fail(StackIndexInvalid, a.off, s) else Stop(Returned(Value(ToWord(Top(s)))), s)
    case Unsupported => Fail(NotImplemented, a.off, s)
    case Illegal => Fail(IllegalOp, a.off, s)
    case Dup | Drop | Pick | Over | Swap | Rot => ApplyShuffle(a, s)
  }

  // ----- stack use -----

  /** How many entries an operation looks at. */
  function Arity(a: Op): nat {
    match a.code
    case Dup | Drop | Deref | DerefSize | Unary(_) | StackValue | Bra => 1
    case Over | Swap | Binary(_) | Compare(_) => 2
    case Rot => 3
    case Pick => a.op1 + 1
    case _ => 0
  }

  /** By how much an operation that goes on changes the depth. */
  function Delta(a: Op): int {
    match a.code
    case Lit(_) | Const | Fbreg | Breg(_) | Bregx | CallFrameCfa | Dup | Pick | Over => 1
    case Drop | Binary(_) | Compare(_) | Bra => -1
    case _ => 0
  }

  // ----- control -----

  /** Index of the first operation at an offset. */
  function FindOpIndex(ops: seq<Op>, off: Word): (r: Option<nat>)
    ensures r.Some? ==> r.value < |ops| && ops[r.value].off == off
    ensures r.Some? ==> forall k :: 0 <= k < r.value ==> ops[k].off != off
    ensures r.None? ==> forall k :: 0 <= k < |ops| ==> ops[k].off != off
  {
    if ops == [] then None
    else if ops[0].off == off then Some(0)
    else match FindOpIndex(ops[1..], off)
      case None => None
      case Some(k) => Some(k + 1)
  }

  /** Where the source looks for a branch target: the branch's own offset plus the operand. */
  function TargetOffset(a: Op): Word {
    ToWord(a.off + ToSigned16(a.op1))
  }

  /** The loop's ++i runs after the jump, so control resumes one past the operation found. */
  function Landing(ops: seq<Op>, i: nat): (j: nat)
    requires i < |ops|
    ensures 0 < j <= |ops|
  {
    match FindOpIndex(ops, TargetOffset(ops[i]))
    case None => i + 1
    case Some(k) => k + 1
  }

  datatype Outcome = Next(index: nat, stack: Stack) | Halt(reply: Reply<Result>, stack: Stack)

  function Step(ops: seq<Op>, env: Env, i: nat, s: Stack): (o: Outcome)
    requires i < |ops|
    ensures o.Next? ==> o.index <= |ops|
  {
    var a := ops[i];
    match a.code
    case Skip => Next(Landing(ops, i), s)
    case Bra => if s == [] then Halt(Returned(Error(StackIndexInvalid, a.off)), s) else Next(Landing(ops, i), Pop(s))
    case _ =>
      match Apply(a, ops[0].op1, env, s)
      case Done(t) => Next(i + 1, t)
      case Stop(r, t) => Halt(r, t)
  }

  datatype Answer = Answer(reply: Reply<Result>, stack: Stack)

  /** After the last operation; `cur` is the offset of the one executed last. */
  function Finish(cur: Word, s: Stack): Answer {
    if s == [] then Answer(Returned(Error(StackIndexInvalid, cur)), s)
    else Answer(Returned(Address(ToWord(Top(s)))), s)
  }

  /** At most `budget` operations from index i; Stuck when they do not reach an end. */
  function Run(ops: seq<Op>, env: Env, i: nat, cur: Word, s: Stack, budget: nat): Answer
    decreases budget
  {
    if i >= |ops| then Finish(cur, s)
    else if budget == 0 then Answer(Stuck, s)
    else match Step(ops, env, i, s)
      case Next(j, t) => Run(ops, env, j, ops[i].off, t, budget - 1)
      case Halt(r, t) => Answer(r, t)
  }

  function Evaluate(ops: seq<Op>, env: Env, s: Stack, budget: nat): Answer {
    if ops == [] then Answer(Returned(Error(IllegalState, 0)), s)
    else Run(ops, env, 0, 0, s, budget)
  }

  /** The state after exactly n operations, if the run gets that far. */
  function After(ops: seq<Op>, env: Env, i: nat, s: Stack, n: nat): Option<(nat, Stack)>
    decreases n
  {
    if n == 0 then Some((i, s))
    else if i >= |ops| then None
    else match Step(ops, env, i, s)
      case Next(j, t) => After(ops, env, j, t, n - 1)
      case Halt(_, _) => None
  }

  lemma AfterNext(ops: seq<Op>, env: Env, i: nat, s: Stack, n: nat)
    requires i < |ops| && Step(ops, env, i, s).Next?
    ensures var (j, t) := (Step(ops, env, i, s).index, Step(ops, env, i, s).stack);
      After(ops, env, i, s, n + 1) == After(ops, env, j, t, n)
  {
  }
}

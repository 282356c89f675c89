/** Section 2.5.1.4 of the DWARF 4 standard asks for arithmetic that wraps at the address size.
    The evaluator wraps after every operation; here a second evaluator on unbounded integers
    never wraps, and both agree modulo 2^64 on every program of ring and bit operations, with
    branches, however long it runs. */
module RingArithmetic {
  import opened Words
  import opened Expression

  predicate RingCode(c: Code) {
    match c
    case Lit(_) | Const | Breg(_) | Bregx | Fbreg | CallFrameCfa | Nop => true
    case Dup | Drop | Pick | Over | Swap | Rot => true
    case Skip | Bra => true
    case Unary(u) => !u.Abs?
    case Binary(b) => b.Plus? || b.Minus? || b.Mul? || b.And? || b.Or? || b.Xor?
    case _ => false
  }

  predicate Branches(c: Code) {
    c.Skip? || c.Bra?
  }

  predicate RingProgram(ops: seq<Op>) {
    forall k :: 0 <= k < |ops| ==> RingCode(ops[k].code)
  }

  // ----- the evaluator that never wraps -----

  datatype IdealEffect = Pushed(stack: seq<int>) | Refused(reply: Reply<Result>)

  function IdealFail(a: Op): IdealEffect {
    Refused(Returned(Error(StackIndexInvalid, a.off)))
  }

  function RegisterOf(a: Op): int {
    match a.code
    case Breg(n) => n
    case _ => a.op1 % 0x1_0000
  }

  function IdealSource(env: Env, a: Op): Reply<Result> {
    match a.code
    case Lit(n) => Returned(Value(n))
    case Const => Returned(Value(a.op1))
    case Breg(_) | Bregx =>
      (match ReadRegister(env, RegisterOf(a))
       case None => Returned(Error(RegisterInvalid, a.off))
       case Some(v) => Returned(Value(v)))
    case Fbreg =>
      if env.frameBase.None? then Returned(Error(FrameBaseInvalid, a.off))
      else (match env.frameBase.value
            case Returned(r) => if r.Valid() then Returned(r) else Returned(Error(FrameBaseInvalid, a.off))
            case other => other)
    case _ =>
      if env.cfa.None? then Returned(Error(CfaInvalid, a.off))
      else (match env.cfa.value
            case Returned(w) => Returned(Value(w))
            case Stuck => Stuck
            case Undefined(h) => Undefined(h))
  }

  /** Operations that push a fresh value: base value plus, for the register-relative ones, op1. */
  function IdealPush(env: Env, a: Op, s: seq<int>): IdealEffect {
    match IdealSource(env, a)
    case Returned(r) =>
      if !r.Valid() then Refused(Returned(r))
      else Pushed(s + [r.value + if a.code.Breg? || a.code.Bregx? || a.code.Fbreg? then a.op1 else 0])
    case Stuck => Refused(Stuck)
    case Undefined(h) => Refused(Undefined(h))
  }

  function Magnitude(x: int): nat {
    if x < 0 then -1 - x else x
  }

  /** An integer whose binary digits, without end, are all the same. */
  predicate Constant(x: int) {
    x == 0 || x == -1
  }

  function Digit(f: BitFn, x: int, y: int): nat {
    if f.At(x % 2 == 1, y % 2 == 1) then 1 else 0
  }

  /** Two integers combined bit by bit, in two's complement without an end. */
  function IntBits(f: BitFn, x: int, y: int): int
    decreases Magnitude(x) + Magnitude(y)
  {
    if Constant(x) && Constant(y) then if f.At(x == -1, y == -1) then -1 else 0
    else 2 * IntBits(f, x / 2, y / 2) + Digit(f, x, y)
  }

  function IdealBinary(b: BinaryOp, x: int, y: int): int {
    match b
    case Plus => x + y
    case Minus => x - y
    case And => IntBits(AndFn, y, x)
    case Or => IntBits(OrFn, x, y)
    case Xor => IntBits(XorFn, x, y)
    case _ => x * y
  }

  function IdealApply(env: Env, a: Op, s: seq<int>): IdealEffect
    requires RingCode(a.code) && !Branches(a.code)
  {
    var n := |s|;
    match a.code
    case Nop => Pushed(s)
    case Dup => if n < 1 then IdealFail(a) else Pushed(s + [s[n - 1]])
    case Drop => if n < 1 then IdealFail(a) else Pushed(s[..n - 1])
    case Over => if n < 2 then IdealFail(a) else Pushed(s + [s[n - 2]])
    case Swap => if n < 2 then IdealFail(a) else Pushed(s[..n - 2] + [s[n - 1], s[n - 2]])
    case Rot => if n < 3 then IdealFail(a) else Pushed(s[..n - 3] + [s[n - 1], s[n - 3], s[n - 2]])
    case Pick =>
      if a.op1 < n && a.op1 < TWO32 then Pushed(s + [s[n - 1 - a.op1]])
      else if a.op1 == MAX_ADDR || a.op1 < n then Refused(Undefined(EmptyStack))
      else IdealFail(a)
    case Unary(u) =>
      if n < 1 then IdealFail(a)
      else Pushed(s[..n - 1] + [if u.Neg? then -s[n - 1] else if u.Not? then -1 - s[n - 1] else s[n - 1] + a.op1])
    case Binary(b) =>
      if n < 2 then IdealFail(a)
      else
        Pushed(s[..n - 2] + [IdealBinary(b, s[n - 2], s[n - 1])])
    case _ => IdealPush(env, a, s)
  }

  datatype IdealOutcome = Goes(index: nat, stack: seq<int>) | Ends(reply: Reply<Result>)

  /** Branches go where the code goes, and look at no value. */
  function IdealStep(ops: seq<Op>, env: Env, i: nat, s: seq<int>): IdealOutcome
    requires RingProgram(ops) && i < |ops|
  {
    var a := ops[i];
    if a.code.Skip? then Goes(Landing(ops, i), s)
    else if a.code.Bra? then
      if s == [] then Ends(Returned(Error(StackIndexInvalid, a.off))) else Goes(Landing(ops, i), s[..|s| - 1])
    else match IdealApply(env, a, s)
      case Pushed(t) => Goes(i + 1, t)
      case Refused(r) => Ends(r)
  }

  /** `last` is the offset of the operation executed last. */
  datatype IdealAnswer =
    | Finished(stack: seq<int>, last: Word)
    | FailedAt(index: nat, reply: Reply<Result>)
    | Unfinished(stack: seq<int>)

  function IdealRun(ops: seq<Op>, env: Env, i: nat, cur: Word, s: seq<int>, budget: nat): IdealAnswer
    requires RingProgram(ops)
    decreases budget
  {
    if i >= |ops| then Finished(s, cur)
    else if budget == 0 then Unfinished(s)
    else match IdealStep(ops, env, i, s)
      case Goes(j, t) => IdealRun(ops, env, j, ops[i].off, t, budget - 1)
      case Ends(r) => FailedAt(i, r)
  }

  // ----- agreement -----

  ghost predicate Similar(s: Stack, t: seq<int>) {
    |s| == |t| && forall k :: 0 <= k < |s| ==> Congruent(s[k], t[k])
  }

  /** Both evaluators make the same choice on the same operation. */
  ghost predicate SameEffect(e: Effect, ideal: IdealEffect) {
    match ideal
    case Pushed(t) => e.Done? && Similar(e.stack, t)
    case Refused(r) => e.Stop? && e.reply == r
  }

  lemma PushSimilar(s: Stack, t: seq<int>, x: int, y: int)
    requires Similar(s, t) && Congruent(x, y)
    ensures Similar(s + [ToSigned(x)], t + [y])
  {
    SignedIsCongruent(x);
  }

  lemma PushAgrees(a: Op, first: Word, env: Env, s: Stack, t: seq<int>)
    requires RingCode(a.code) && Similar(s, t)
    requires a.code.Lit? || a.code.Const? || a.code.Breg? || a.code.Bregx? || a.code.Fbreg? || a.code.CallFrameCfa?
    ensures SameEffect(Apply(a, first, env, s), IdealApply(env, a, t))
  {
    match a.code {
      case Lit(n) => SignedIdentity(n); PushSimilar(s, t, n, n);
      case Const => PushSimilar(s, t, a.op1, a.op1);
      case Breg(_) | Bregx =>
        var v := ReadRegister(env, RegisterOf(a));
        if v.Some? {
          PushSimilar(s, t, v.value + a.op1, v.value + a.op1);
        }
      case Fbreg =>
        if env.frameBase.Some? && env.frameBase.value.Returned? && env.frameBase.value.value.Valid() {
          var v := env.frameBase.value.value.value + a.op1;
          PushSimilar(s, t, v, v);
        }
      case CallFrameCfa =>
        if env.cfa.Some? && env.cfa.value.Returned? {
          PushSimilar(s, t, env.cfa.value.value, env.cfa.value.value);
        }
    }
  }

  lemma ShuffleAgrees(a: Op, first: Word, env: Env, s: Stack, t: seq<int>)
    requires Similar(s, t)
    requires a.code.Dup? || a.code.Drop? || a.code.Pick? || a.code.Over? || a.code.Swap? || a.code.Rot?
    ensures SameEffect(Apply(a, first, env, s), IdealApply(env, a, t))
  {
  }

  lemma UnaryAgrees(a: Op, first: Word, env: Env, s: Stack, t: seq<int>)
    requires Similar(s, t) && RingCode(a.code) && a.code.Unary?
    ensures SameEffect(Apply(a, first, env, s), IdealApply(env, a, t))
  {
    if s != [] {
      var x, y := Top(s), t[|t| - 1];
      assert Congruent(x, y);
      match a.code.u {
        case Neg => CongruentAdd(0, 0, x, y); PushSimilar(Pop(s), t[..|t| - 1], 0 - x, 0 - y);
        case Not => CongruentAdd(-1, -1, x, y); PushSimilar(Pop(s), t[..|t| - 1], -1 - x, -1 - y);
        case PlusUconst => CongruentAdd(x, y, a.op1, a.op1); PushSimilar(Pop(s), t[..|t| - 1], x + a.op1, y + a.op1);
      }
    }
  }

  // ----- bits -----

  lemma IntBitsUnfold(f: BitFn, x: int, y: int)
    ensures IntBits(f, x, y) == 2 * IntBits(f, x / 2, y / 2) + Digit(f, x, y)
  {
  }

  lemma HalfMod(x: int, p: nat)
    requires p > 0
    ensures (x % (2 * p)) / 2 == (x / 2) % p && (x % (2 * p)) % 2 == x % 2
  {
    var q, r := x / (2 * p), x % (2 * p);
    assert x == 2 * (q * p) + r;
    ModUnique(x / 2, p, q, r / 2);
  }

  /** The low n bits of the unbounded result are the low bits of the operands combined. */
  lemma {:induction false} IntBitsMod(f: BitFn, n: nat, x: int, y: int)
    ensures IntBits(f, x, y) % Pow2(n) == Bitwise(f, n, x % Pow2(n), y % Pow2(n))
  {
    if n > 0 {
      var p := Pow2(n - 1);
      var z, w := IntBits(f, x, y), IntBits(f, x / 2, y / 2);
      IntBitsUnfold(f, x, y);
      IntBitsMod(f, n - 1, x / 2, y / 2);
      HalfMod(x, p);
      HalfMod(y, p);
      HalfMod(z, p);
      assert z / 2 == w && z % 2 == Digit(f, x, y);
      assert z % (2 * p) == 2 * (w % p) + z % 2;
    }
  }

  lemma BitsCongruent(f: BitFn, n: nat, x: int, y: int, x': int, y': int)
    requires Pow2(n) == TWO64 && Congruent(x, x') && Congruent(y, y')
    ensures Congruent(Bitwise(f, n, ToWord(x), ToWord(y)), IntBits(f, x', y'))
  {
    IntBitsMod(f, n, x', y');
    var r, z := Bitwise(f, n, ToWord(x), ToWord(y)), IntBits(f, x', y');
    assert 0 <= r < TWO64 && r == z % TWO64;
    assert ToWord(r) == r;
  }

  // ----- whole operations and runs -----

  /** What the evaluator pushes, before it is reduced to a stack entry. */
  function Unreduced(b: BinaryOp, x: SWord, y: SWord): int {
    match b
    case Plus => x + y
    case Minus => x - y
    case And => Bitwise(AndFn, 64, ToWord(y), ToWord(x))
    case Or => Bitwise(OrFn, 64, ToWord(x), ToWord(y))
    case Xor => Bitwise(XorFn, 64, ToWord(x), ToWord(y))
    case _ => x * y
  }

  lemma BinaryCongruent(b: BinaryOp, x: SWord, y: SWord, x': int, y': int)
    requires Congruent(x, x') && Congruent(y, y') && RingCode(Binary(b))
    ensures Congruent(Unreduced(b, x, y), IdealBinary(b, x', y'))
  {
    Pow2Values();
    match b {
      case And => BitsCongruent(AndFn, 64, y, x, y', x');
      case Or => BitsCongruent(OrFn, 64, x, y, x', y');
      case Xor => BitsCongruent(XorFn, 64, x, y, x', y');
      case Mul => CongruentMul(x, x', y, y');
      case Plus => CongruentAdd(x, x', y, y');
      case Minus => CongruentAdd(x, x', y, y');
    }
  }

  lemma BinaryReduces(b: BinaryOp, x: SWord, y: SWord)
    requires RingCode(Binary(b))
    ensures BinaryValue(b, x, y) == Returned(ToSigned(Unreduced(b, x, y)))
  {
  }

  lemma BinaryAgrees(a: Op, first: Word, env: Env, s: Stack, t: seq<int>)
    requires Similar(s, t) && RingCode(a.code) && a.code.Binary?
    ensures SameEffect(Apply(a, first, env, s), IdealApply(env, a, t))
  {
    var n, b := |s|, a.code.b;
    if n >= 2 {
      var x, y, x', y' := s[n - 2], s[n - 1], t[n - 2], t[n - 1];
      BinaryCongruent(b, x, y, x', y');
      BinaryReduces(b, x, y);
      PushSimilar(Pop(s, 2), t[..n - 2], Unreduced(b, x, y), IdealBinary(b, x', y'));
    }
  }

  lemma StepAgrees(a: Op, first: Word, env: Env, s: Stack, t: seq<int>)
    requires Similar(s, t) && RingCode(a.code) && !Branches(a.code)
    ensures SameEffect(Apply(a, first, env, s), IdealApply(env, a, t))
  {
    match a.code {
      case Nop =>
      case Dup | Drop | Pick | Over | Swap | Rot => ShuffleAgrees(a, first, env, s, t);
      case Unary(_) => UnaryAgrees(a, first, env, s, t);
      case Binary(_) => BinaryAgrees(a, first, env, s, t);
      case Lit(_) | Const | Breg(_) | Bregx | Fbreg | CallFrameCfa => PushAgrees(a, first, env, s, t);
    }
  }

  /** Both evaluators go on at the same index, with similar stacks, or end alike. */
  ghost predicate SameOutcome(o: Outcome, ideal: IdealOutcome) {
    match ideal
    case Goes(j, t) => o.Next? && o.index == j && Similar(o.stack, t)
    case Ends(r) => o.Halt? && o.reply == r
  }

  lemma OutcomesAgree(ops: seq<Op>, env: Env, i: nat, s: Stack, t: seq<int>)
    requires RingProgram(ops) && i < |ops| && Similar(s, t)
    ensures SameOutcome(Step(ops, env, i, s), IdealStep(ops, env, i, t))
  {
    if !Branches(ops[i].code) {
      StepAgrees(ops[i], ops[0].op1, env, s, t);
    }
  }

  /** What the unbounded run says of the 64-bit one. */
  ghost predicate SameAnswer(answer: Answer, ideal: IdealAnswer) {
    match ideal
    case Finished(u, last) =>
      && Similar(answer.stack, u)
      && answer.reply == Returned(if u == [] then Error(StackIndexInvalid, last) else Address(ToWord(u[|u| - 1])))
    case FailedAt(_, r) => answer.reply == r
    case Unfinished(u) => Similar(answer.stack, u) && answer.reply == Stuck
  }

  lemma {:induction false} RunAgrees(
      ops: seq<Op>, env: Env, i: nat, cur: Word, s: Stack, t: seq<int>, budget: nat)
    requires RingProgram(ops) && Similar(s, t)
    ensures SameAnswer(Run(ops, env, i, cur, s, budget), IdealRun(ops, env, i, cur, t, budget))
    decreases budget
  {
    if i < |ops| && budget > 0 {
      OutcomesAgree(ops, env, i, s, t);
      match IdealStep(ops, env, i, t) {
        case Goes(j, u) =>
          RunAgrees(ops, env, j, ops[i].off, Step(ops, env, i, s).stack, u, budget - 1);
        case Ends(r) =>
      }
    }
  }

  /** The run gets to operation k after n steps and stops there. */
  ghost predicate StopsAt(ops: seq<Op>, env: Env, i: nat, s: Stack, n: nat, k: nat) {
    && k < |ops|
    && After(ops, env, i, s, n).Some?
    && After(ops, env, i, s, n).value.0 == k
    && Step(ops, env, k, After(ops, env, i, s, n).value.1).Halt?
  }

  /** The run stops at operation k within the budget. */
  ghost predicate StopsWithin(ops: seq<Op>, env: Env, i: nat, s: Stack, budget: nat, k: nat)
    decreases budget
  {
    && i < |ops| && budget > 0
    && match Step(ops, env, i, s)
       case Next(j, t) => StopsWithin(ops, env, j, t, budget - 1, k)
       case Halt(_, _) => i == k
  }

  lemma {:induction false} StopTime(
      ops: seq<Op>, env: Env, i: nat, s: Stack, budget: nat, k: nat) returns (n: nat)
    requires StopsWithin(ops, env, i, s, budget, k)
    ensures n < budget && StopsAt(ops, env, i, s, n, k)
    decreases budget
  {
    match Step(ops, env, i, s) {
      case Next(j, t) =>
        var m := StopTime(ops, env, j, t, budget - 1, k);
        n := m + 1;
        AfterNext(ops, env, i, s, m);
      case Halt(_, _) =>
        n := 0;
        assert After(ops, env, i, s, 0) == Some((i, s));
    }
  }

  lemma {:induction false} StopsTogether(
      ops: seq<Op>, env: Env, i: nat, cur: Word, s: Stack, t: seq<int>, budget: nat)
    requires RingProgram(ops) && Similar(s, t) && IdealRun(ops, env, i, cur, t, budget).FailedAt?
    ensures StopsWithin(ops, env, i, s, budget, IdealRun(ops, env, i, cur, t, budget).index)
    decreases budget
  {
    OutcomesAgree(ops, env, i, s, t);
    match IdealStep(ops, env, i, t) {
      case Goes(j, u) => StopsTogether(ops, env, j, ops[i].off, Step(ops, env, i, s).stack, u, budget - 1);
      case Ends(_) =>
    }
  }

  /** Wrapping after every operation equals wrapping once at the end, for every program of ring and
      bit operations and branches, every budget and every stack: the two evaluators fail at the same
      operation with the same error, or go on for ever together, or end with stacks equal modulo
      2^64 and the 64-bit result is the unbounded one reduced modulo 2^64. */
  lemma WrapOnceIsEnough(ops: seq<Op>, env: Env, s: Stack, t: seq<int>, budget: nat)
    requires RingProgram(ops) && ops != [] && Similar(s, t)
    ensures var ideal := IdealRun(ops, env, 0, 0, t, budget);
      && SameAnswer(Evaluate(ops, env, s, budget), ideal)
      && (ideal.FailedAt? ==> exists n: nat :: n < budget && StopsAt(ops, env, 0, s, n, ideal.index))
  {
    RunAgrees(ops, env, 0, 0, s, t, budget);
    var ideal := IdealRun(ops, env, 0, 0, t, budget);
    if ideal.FailedAt? {
      StopsTogether(ops, env, 0, 0, s, t, budget);
      var n := StopTime(ops, env, 0, s, budget, ideal.index);
    }
  }
}

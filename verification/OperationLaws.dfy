/** What single operations mean, stated without their definitions: stack shuffles as copies and
    permutations, bit operations bit by bit, division by its defining equation, and the places
    where the code departs from sections 2.5.1 and 2.6.1 of the DWARF 4 standard. */
module OperationLaws {
  import opened Words
  import opened Expression

  // ----- stack operations -----

  /** pick reads the entry idx places down and leaves everything else alone. */
  lemma PickCopies(a: Op, first: Word, env: Env, s: Stack)
    requires a.code.Pick?
    ensures a.op1 < TWO32 && a.op1 < |s| <==> Apply(a, first, env, s).Done?
    ensures Apply(a, first, env, s).Done? ==>
      var t := Apply(a, first, env, s).stack;
      Pop(t) == s && Top(t) == s[|s| - 1 - a.op1]
    ensures |s| <= a.op1 < MAX_ADDR <==> Apply(a, first, env, s) == Fail(StackIndexInvalid, a.off, s)
  {
  }

  /** dup is pick 0 and over is pick 1, on every stack, errors included. */
  lemma DupAndOverArePicks(off: Word, op1: Word, first: Word, env: Env, s: Stack)
    ensures Apply(Op(Dup, op1, off), first, env, s) == Apply(Op(Pick, 0, off), first, env, s)
    ensures Apply(Op(Over, op1, off), first, env, s) == Apply(Op(Pick, 1, off), first, env, s)
  {
  }

  /** dup written as pick 0, and over as pick 1. */
  function AsPick(a: Op): Op {
    if a.code.Dup? then Op(Pick, 0, a.off) else if a.code.Over? then Op(Pick, 1, a.off) else a
  }

  function AsPicks(ops: seq<Op>): (r: seq<Op>)
    ensures |r| == |ops|
  {
    seq(|ops|, k requires 0 <= k < |ops| => AsPick(ops[k]))
  }

  /** A regx reads the operand of the first operation, which the rewriting may change. */
  ghost predicate KeepsFirstOperand(ops: seq<Op>) {
    ops != [] ==> AsPick(ops[0]).op1 == ops[0].op1 || forall k :: 0 <= k < |ops| ==> !ops[k].code.Regx?
  }

  lemma {:induction false} FindAsPicks(ops: seq<Op>, off: Word)
    ensures FindOpIndex(AsPicks(ops), off) == FindOpIndex(ops, off)
  {
    if ops != [] {
      FindAsPicks(ops[1..], off);
      assert AsPicks(ops)[1..] == AsPicks(ops[1..]);
    }
  }

  /** Only regx looks at the first operand. */
  lemma FirstMatters(a: Op, first: Word, other: Word, env: Env, s: Stack)
    requires !a.code.Skip? && !a.code.Bra? && (first == other || !a.code.Regx?)
    ensures Apply(a, first, env, s) == Apply(a, other, env, s)
  {
  }

  lemma ApplyAsPick(a: Op, first: Word, env: Env, s: Stack)
    requires !a.code.Skip? && !a.code.Bra?
    ensures Apply(AsPick(a), first, env, s) == Apply(a, first, env, s)
  {
    if a.code.Dup? || a.code.Over? {
      DupAndOverArePicks(a.off, a.op1, first, env, s);
    }
  }

  lemma StepAsPicks(ops: seq<Op>, env: Env, i: nat, s: Stack)
    requires i < |ops| && KeepsFirstOperand(ops)
    ensures Step(AsPicks(ops), env, i, s) == Step(ops, env, i, s)
  {
    var a, r := ops[i], AsPicks(ops);
    if a.code.Skip? || a.code.Bra? {
      FindAsPicks(ops, TargetOffset(a));
    } else {
      FirstMatters(AsPick(a), r[0].op1, ops[0].op1, env, s);
      ApplyAsPick(a, ops[0].op1, env, s);
    }
  }

  ghost predicate SameSteps(r: seq<Op>, ops: seq<Op>, env: Env) {
    && |r| == |ops|
    && forall i: nat, s: Stack :: i < |ops| ==> Step(r, env, i, s) == Step(ops, env, i, s) && r[i].off == ops[i].off
  }

  lemma {:induction false} SameStepsSameRun(
      r: seq<Op>, ops: seq<Op>, env: Env, i: nat, cur: Word, s: Stack, budget: nat)
    requires SameSteps(r, ops, env)
    ensures Run(r, env, i, cur, s, budget) == Run(ops, env, i, cur, s, budget)
    decreases budget
  {
    if i < |ops| && budget > 0 {
      assert Step(r, env, i, s) == Step(ops, env, i, s) && r[i].off == ops[i].off;
      match Step(ops, env, i, s) {
        case Next(j, t) => SameStepsSameRun(r, ops, env, j, ops[i].off, t, budget - 1);
        case Halt(_, _) =>
      }
    }
  }

  /** Writing every dup and over of a program as a pick changes no run of it: same reply, same stack,
      for every context, stack and budget. */
  lemma PicksRunAlike(ops: seq<Op>, env: Env, s: Stack, budget: nat)
    requires KeepsFirstOperand(ops)
    ensures Evaluate(AsPicks(ops), env, s, budget) == Evaluate(ops, env, s, budget)
  {
    if ops != [] {
      forall i: nat, t: Stack | i < |ops|
        ensures Step(AsPicks(ops), env, i, t) == Step(ops, env, i, t) && AsPicks(ops)[i].off == ops[i].off
      {
        StepAsPicks(ops, env, i, t);
      }
      SameStepsSameRun(AsPicks(ops), ops, env, 0, 0, s, budget);
    }
  }

  /** dup ; drop is the identity wherever dup succeeds. */
  lemma DupDropIsIdentity(ops: seq<Op>, env: Env, s: Stack)
    requires |ops| == 2 && ops[0].code == Dup && ops[1].code == Drop && s != []
    ensures After(ops, env, 0, s, 2) == Some((2, s))
  {
    var t := s + [Top(s)];
    assert After(ops, env, 0, s, 2) == After(ops, env, 1, t, 1) == After(ops, env, 2, Pop(t), 0);
    assert Pop(t) == s;
  }

  lemma SwapTwiceIsIdentity(ops: seq<Op>, env: Env, s: Stack)
    requires |ops| == 2 && (forall k :: 0 <= k < 2 ==> ops[k].code == Swap) && |s| >= 2
    ensures After(ops, env, 0, s, 2) == Some((2, s))
    ensures After(ops, env, 0, s, 1) == Some((1, s[|s| - 2 := s[|s| - 1]][|s| - 1 := s[|s| - 2]]))
  {
    var t := Pop(s, 2) + [Peek(s, 0), Peek(s, 1)];
    assert t == s[|s| - 2 := s[|s| - 1]][|s| - 1 := s[|s| - 2]];
    assert Pop(t, 2) + [Peek(t, 0), Peek(t, 1)] == s;
    assert After(ops, env, 1, t, 1) == After(ops, env, 2, s, 0);
  }

  lemma RotThriceIsIdentity(ops: seq<Op>, env: Env, s: Stack)
    requires |ops| == 3 && (forall k :: 0 <= k < 3 ==> ops[k].code == Rot) && |s| >= 3
    ensures After(ops, env, 0, s, 3) == Some((3, s))
    ensures After(ops, env, 0, s, 1).Some? && Top(After(ops, env, 0, s, 1).value.1) == Peek(s, 1)
  {
    var t := Pop(s, 3) + [Peek(s, 0), Peek(s, 2), Peek(s, 1)];
    var u := Pop(t, 3) + [Peek(t, 0), Peek(t, 2), Peek(t, 1)];
    assert After(ops, env, 0, s, 1) == After(ops, env, 1, t, 0);
    assert Pop(u, 3) + [Peek(u, 0), Peek(u, 2), Peek(u, 1)] == s;
    assert After(ops, env, 0, s, 3) == After(ops, env, 1, t, 2) == After(ops, env, 2, u, 1) == After(ops, env, 3, s, 0);
  }

  // ----- bits -----

  ghost function BitAt(v: SWord, k: nat): bool {
    Bit(ToWord(v), k)
  }

  /** and, or, xor and not act on each of the 64 bits separately. */
  lemma BitwiseLaws(e2: SWord, e1: SWord, op1: Word, k: nat)
    requires k < 64
    ensures BitAt(BinaryValue(And, e2, e1).value, k) == (BitAt(e2, k) && BitAt(e1, k))
    ensures BitAt(BinaryValue(Or, e2, e1).value, k) == (BitAt(e2, k) || BitAt(e1, k))
    ensures BitAt(BinaryValue(Xor, e2, e1).value, k) == (BitAt(e2, k) != BitAt(e1, k))
    ensures BitAt(UnaryValue(Not, e1, op1), k) == !BitAt(e1, k)
  {
    BitOf(AndFn, e1, e2, k);
    BitOf(OrFn, e2, e1, k);
    BitOf(XorFn, e2, e1, k);
    NotBit(e1, op1, k);
  }

  lemma NotBit(e: SWord, op1: Word, k: nat)
    requires k < 64
    ensures BitAt(UnaryValue(Not, e, op1), k) == !BitAt(e, k)
  {
    NotWord(e, op1);
    Pow2Values();
    ComplementBit(64, ToWord(e), k);
  }

  lemma NotWord(e: SWord, op1: Word)
    ensures ToWord(UnaryValue(Not, e, op1)) == TWO64 - 1 - ToWord(e)
  {
    SignedIsCongruent(-1 - e);
  }

  lemma BitValueWord(f: BitFn, a: SWord, b: SWord)
    ensures ToWord(BitValue(f, a, b)) == Bitwise(f, 64, ToWord(a), ToWord(b))
  {
    var r := Bitwise(f, 64, ToWord(a), ToWord(b));
    assert r < TWO64 by { Pow2Values(); }
    WordIdentity(r);
  }

  lemma BitOf(f: BitFn, a: SWord, b: SWord, k: nat)
    requires k < 64
    ensures BitAt(BitValue(f, a, b), k) == f.At(BitAt(a, k), BitAt(b, k))
  {
    BitValueWord(f, a, b);
    BitwiseBit(f, 64, ToWord(a), ToWord(b), k);
  }

  // ----- division -----

  /** Where they are defined, div and mod give the quotient and remainder of the truncating
      division, exactly and without wrapping. */
  lemma DivisionLaw(e2: SWord, e1: SWord)
    ensures BinaryValue(Div, e2, e1).Returned? <==> BinaryValue(Mod, e2, e1).Returned?
    ensures BinaryValue(Div, e2, e1).Returned? <==> e1 != 0 && !(e2 == -TWO63 && e1 == -1)
    ensures BinaryValue(Div, e2, e1).Returned? ==>
      var q, r := BinaryValue(Div, e2, e1).value, BinaryValue(Mod, e2, e1).value;
      e2 == q * e1 + r && AbsVal(r) < AbsVal(e1) && (r == 0 || (r < 0) == (e2 < 0))
  {
    if !DivisionFaults(e2, e1) {
      TruncatingDivision(e2, e1);
      TruncatingRange(e2, e1);
      SignedIdentity(TruncDiv(e2, e1));
      SignedIdentity(TruncMod(e2, e1));
    }
  }

  lemma TruncatingDivision(a: int, b: int)
    requires b != 0
    ensures var q, r := TruncDiv(a, b), TruncMod(a, b);
      a == q * b + r && AbsVal(r) < AbsVal(b) && (r == 0 || (r < 0) == (a < 0))
  {
  }

  lemma TruncatingRange(a: SWord, b: SWord)
    requires !DivisionFaults(a, b)
    ensures -TWO63 <= TruncDiv(a, b) < TWO63 && -TWO63 <= TruncMod(a, b) < TWO63
  {
    QuotientBound(AbsVal(a), AbsVal(b));
  }

  lemma QuotientBound(a: nat, b: nat)
    requires b > 0
    ensures a / b <= a
    ensures b >= 2 && a > 0 ==> a / b < a
  {
    var q := a / b;
    MulGrows(q, b);
    if b >= 2 {
      assert q * b == q + q * (b - 1);
      MulGrows(q, b - 1);
    }
  }

  // ----- comparison -----

  ghost function Compared(c: CompareOp, e2: SWord, e1: SWord): SWord {
    Top(Apply(Op(Compare(c), 0, 0), 0, Env(None, None, None, None), [e2, e1]).stack)
  }

  /** Exactly one of lt, eq and gt pushes 1; le, ge and ne push the complement of gt, lt and eq;
      lt is the order of the signed values, the deeper entry on the left. */
  lemma ComparisonLaws(e2: SWord, e1: SWord)
    ensures Compared(Lt, e2, e1) + Compared(Eq, e2, e1) + Compared(Gt, e2, e1) == 1
    ensures Compared(Le, e2, e1) == 1 - Compared(Gt, e2, e1)
    ensures Compared(Ge, e2, e1) == 1 - Compared(Lt, e2, e1)
    ensures Compared(Ne, e2, e1) == 1 - Compared(Eq, e2, e1)
    ensures Compared(Gt, e2, e1) == Compared(Lt, e1, e2)
    ensures Compared(Lt, e2, e1) == 1 <==> e1 - e2 > 0
  {
    forall c: CompareOp ensures Compared(c, e2, e1) == if Holds(c, e2, e1) then 1 else 0 {
      assert Apply(Op(Compare(c), 0, 0), 0, Env(None, None, None, None), [e2, e1]).stack
          == [] + [if Holds(c, e2, e1) then 1 else 0];
    }
    assert Compared(Lt, e1, e2) == (if e1 < e2 then 1 else 0) by {
      assert Apply(Op(Compare(Lt), 0, 0), 0, Env(None, None, None, None), [e1, e2]).stack
          == [] + [if Holds(Lt, e1, e2) then 1 else 0];
    }
  }

  // ----- shifts -----

  /** Section 2.5.1.4: DW_OP_shr fills with zeros. */
  function LogicalShift(e2: SWord, e1: nat): SWord {
    ToSigned(ToWord(e2) / Pow2(e1))
  }

  /** The code shifts a signed value, so shr is shra; it is the standard's logical shift exactly
      when the value is not negative or the count is zero. */
  lemma ShrIsLogicalIff(e2: SWord, e1: SWord)
    requires 0 <= e1 < 64
    ensures BinaryValue(Shr, e2, e1) == Returned(LogicalShift(e2, e1)) <==> e2 >= 0 || e1 == 0
  {
    var p := Pow2(e1);
    if e1 == 0 {
      assert p == 1 && e2 / p == e2 && ToWord(e2) / p == ToWord(e2);
      SignedIsCongruent(e2);
    } else if e2 < 0 {
      assert p == 2 * Pow2(e1 - 1);
      NegativeFloor(e2, p);
      SignedIdentity(e2 / p);
      HalfBound(ToWord(e2), p);
      SignedIdentity(ToWord(e2) / p);
    }
  }

  lemma NegativeFloor(x: SWord, p: nat)
    requires x < 0 && p > 0
    ensures x <= x / p < 0
  {
    var y: nat := -1 - x;
    var m, r := y / p, y % p;
    QuotientBound(y, p);
    assert y == m * p + r;
    assert (-1 - m) * p == 0 - p - m * p;
    ModUnique(x, p, -1 - m, p - 1 - r);
  }

  lemma HalfBound(w: Word, p: nat)
    requires p >= 2
    ensures 0 <= w / p < TWO63
  {
    var q := w / p;
    assert 0 <= q * p <= w;
    assert q * p == q + q * (p - 1);
    MulGrows(q, p - 1);
  }

  lemma {:induction false} ModBit(m: nat, x: nat, k: nat)
    requires k < m
    ensures Bit(x % Pow2(m), k) == Bit(x, k)
  {
    var h := Pow2(m - 1);
    var q, r := x / (2 * h), x % (2 * h);
    assert x == q * (2 * h) + r;
    assert x / 2 == q * h + r / 2 && x % 2 == r % 2 by {
      assert q * (2 * h) == 2 * (q * h);
    }
    ModUnique(x / 2, h, q, r / 2);
    if k > 0 {
      ModBit(m - 1, x / 2, k - 1);
    }
  }

  lemma {:induction false} ScaleBit(x: nat, n: nat, k: nat)
    ensures Bit(x * Pow2(n), k) == (k >= n && Bit(x, k - n))
  {
    if n > 0 {
      var y := x * Pow2(n - 1);
      assert x * Pow2(n) == 2 * y;
      if k > 0 {
        ScaleBit(x, n - 1, k - 1);
      }
    }
  }

  /** shl moves every bit up by the count and fills with zeros. */
  lemma ShlBits(e2: SWord, e1: SWord, k: nat)
    requires 0 <= e1 < 64 && k < 64
    ensures BitAt(BinaryValue(Shl, e2, e1).value, k) == (k >= e1 && BitAt(e2, k - e1))
  {
    var p, w := Pow2(e1), ToWord(e2);
    SignedIsCongruent(e2 * p);
    CongruentMul(e2, w, p, p);
    Pow2Values();
    assert ToWord(e2 * p) == (w * p) % Pow2(64);
    ModBit(64, w * p, k);
    ScaleBit(w, e1, k);
  }

  /** shr and shra divide by a power of two, rounding down. */
  lemma ShiftRightRoundsDown(e2: SWord, e1: SWord)
    requires 0 <= e1 < 64
    ensures BinaryValue(Shr, e2, e1) == BinaryValue(Shra, e2, e1)
    ensures BinaryValue(Shra, e2, e1).Returned?
    ensures var r := BinaryValue(Shra, e2, e1).value; r * Pow2(e1) <= e2 < r * Pow2(e1) + Pow2(e1)
  {
    var p := Pow2(e1);
    var q := e2 / p;
    assert q * p <= e2 < q * p + p;
    if e2 < 0 {
      NegativeFloor(e2, p);
    } else {
      QuotientBound(e2, p);
    }
    SignedIdentity(q);
  }

  /** abs is the magnitude, except that the least word has none and stays. */
  lemma AbsLaw(top: SWord, op1: Word)
    ensures var r := UnaryValue(Abs, top, op1);
      if top == -TWO63 then r == top else r >= 0 && (r == top || r == -(top as int))
  {
  }

  // ----- registers -----

  /** A register file that tells every register from every other below 2^64. */
  function NumberedRegisters(): Env {
    Env(Some((n: int) => Some(ToWord(n))), None, None, None)
  }

  /** DW_OP_regx with its own operand, an unsigned number of any size, as section 2.6.1.1.3 has it. */
  function StandardRegx(ops: seq<Op>, env: Env, i: nat, s: Stack): Effect
    requires i < |ops|
  {
    ApplyReg(env, ops[i].op1, ops[i].off, s)
  }

  /** The code names the register by the low sixteen bits of the operand of the expression's first
      operation. That is the standard's register for every register file exactly when these are the
      operation's own operand. */
  lemma RegxIsStandardIff(ops: seq<Op>, i: nat, s: Stack)
    requires i < |ops| && ops[i].code.Regx?
    ensures (forall env :: Apply(ops[i], ops[0].op1, env, s) == StandardRegx(ops, env, i, s))
       <==> ops[0].op1 % 0x1_0000 == ops[i].op1
  {
    var env := NumberedRegisters();
    var used, meant := ops[0].op1 % 0x1_0000, ops[i].op1;
    assert ReadRegister(env, used) == Some(used) && ReadRegister(env, meant) == Some(meant);
    if Apply(ops[i], ops[0].op1, env, s) == StandardRegx(ops, env, i, s) {
      assert used == meant;
    }
  }

  /** Two inputs that fail: the operand of another operation, and a register number beyond sixteen
      bits. */
  lemma RegxExamples(s: Stack)
    ensures var env := NumberedRegisters();
      var other, wide := [Op(Const, 7, 0), Op(Regx, 5, 2)], [Op(Regx, 0x1_0001, 0)];
      && Apply(other[1], other[0].op1, env, s).reply == Returned(Value(7))
      && StandardRegx(other, env, 1, s).reply == Returned(Value(5))
      && Apply(wide[0], wide[0].op1, env, s).reply == Returned(Value(1))
      && StandardRegx(wide, env, 0, s).reply == Returned(Value(0x1_0001))
  {
  }

  /** Section 2.5.1.2: bregx takes a register number of any size and a second operand, `offset`. */
  function StandardBregx(env: Env, a: Op, offset: Word, s: Stack): Effect {
    match ReadRegister(env, a.op1)
    case None => Fail(RegisterInvalid, a.off, s)
    case Some(v) => Done(s + [ToSigned(v + offset)])
  }

  /** The code reads the register of the low sixteen bits and adds the first operand again. That is
      the standard's value for every register file exactly when the number has sixteen bits and the
      offset is equal to it. */
  lemma BregxIsStandardIff(a: Op, offset: Word, first: Word, s: Stack)
    requires a.code.Bregx?
    ensures (forall env :: Apply(a, first, env, s) == StandardBregx(env, a, offset, s))
       <==> a.op1 < 0x1_0000 && a.op1 == offset
  {
    var low := a.op1 % 0x1_0000;
    var one := Env(Some((n: int) => if n == low then Some(0) else None), None, None, None);
    assert ReadRegister(one, low) == Some(0);
    if Apply(a, first, one, s) == StandardBregx(one, a, offset, s) {
      assert ReadRegister(one, a.op1).Some? && a.op1 == low;
      var x, y := ToSigned(a.op1), ToSigned(offset);
      assert (s + [x])[|s|] == (s + [y])[|s|];
      WordIdentity(a.op1);
      WordIdentity(offset);
    }
  }

  /** Two inputs that fail: an offset of its own, and a register number beyond sixteen bits. */
  lemma BregxExamples(first: Word)
    ensures var env := NumberedRegisters();
      var other, wide := Op(Bregx, 5, 0), Op(Bregx, 0x1_0005, 0);
      && Apply(other, first, env, []) == Done([10]) && StandardBregx(env, other, 16, []) == Done([21])
      && Apply(wide, first, env, []) == Done([0x1_000A])
      && StandardBregx(env, wide, 0x1_0005, []) == Done([0x2_000A])
  {
  }

  // ----- branches -----

  /** Strictly increasing offsets, as consecutive operations of an encoded expression have. */
  ghost predicate Increasing(ops: seq<Op>) {
    forall j, k :: 0 <= j < k < |ops| ==> ops[j].off < ops[k].off
  }

  /** With increasing offsets the search inverts the offset table. */
  lemma FindInverts(ops: seq<Op>, k: nat)
    requires Increasing(ops) && k < |ops|
    ensures FindOpIndex(ops, ops[k].off) == Some(k)
  {
    assert forall j :: 0 <= j < |ops| && j != k ==> ops[j].off != ops[k].off;
  }

  /** Section 2.5.1.5: a branch is three bytes long and its operand counts from its end. */
  ghost predicate LandsAt(ops: seq<Op>, i: nat, j: nat)
    requires i < |ops|
  {
    j < |ops| && ops[j].off == ToWord(ops[i].off + 3 + ToSigned16(ops[i].op1))
  }

  /** The code resumes at the standard's target exactly when the operation after the one found is
      three bytes further on; when it finds none, exactly when the target is the next operation. */
  lemma BranchLandsPerStandardIff(ops: seq<Op>, i: nat)
    requires i < |ops|
    ensures var o := TargetOffset(ops[i]); var j := Landing(ops, i);
      match FindOpIndex(ops, o)
      case Some(k) => LandsAt(ops, i, j) <==> k + 1 < |ops| && ops[k + 1].off == ToWord(ops[k].off + 3)
      case None => LandsAt(ops, i, j) <==> i + 1 < |ops| && ops[i + 1].off == ToWord(o + 3)
  {
    var x := ops[i].off + ToSigned16(ops[i].op1);
    WordShift(x, 3);
    assert ToWord(TargetOffset(ops[i]) + 3) == ToWord(ops[i].off + 3 + ToSigned16(ops[i].op1));
  }

  /** Section 2.5.1.5: bra pops an entry and branches only if it is not zero. The code never looks at
      it: with increasing offsets a zero entry falls through, as it must, exactly when the operand
      is zero or no operation stands where the code looks. */
  lemma BraFallsThroughIff(ops: seq<Op>, env: Env, i: nat, s: Stack)
    requires Increasing(ops) && i < |ops| && ops[i].code.Bra? && s != []
    ensures Step(ops, env, i, s) == Next(i + 1, Pop(s)) <==>
      ToSigned16(ops[i].op1) == 0 || forall k :: 0 <= k < |ops| ==> ops[k].off != TargetOffset(ops[i])
  {
    var a := ops[i];
    FindInverts(ops, i);
    SmallShift(a.off, ToSigned16(a.op1));
  }

  lemma SmallShift(w: Word, d: int)
    requires -TWO63 <= d < TWO63
    ensures ToWord(w + d) == w <==> d == 0
  {
  }

  /** A concrete expression whose skip the standard sends to the final lit2 and the code ends
      before it: lit1, skip to the operation at 5, nop, lit2. */
  lemma SkipMissesTarget(env: Env)
    ensures var ops := [Op(Lit(1), 0, 0), Op(Skip, 1, 1), Op(Nop, 0, 4), Op(Lit(2), 0, 5)];
      LandsAt(ops, 1, 3) && Landing(ops, 1) != 3
  {
  }
}

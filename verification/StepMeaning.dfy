/** What one operation makes of the entries of the stack it finds, stated on the stack itself, and
    which operation fails with which error, in both directions. */
module StepMeaning {
  import opened Words
  import opened Expression
  import opened OperationLaws
  import opened StackDiscipline

  /** The operation goes on to the next with its k operands replaced by v. */
  predicate Replaces(ops: seq<Op>, env: Env, i: nat, s: Stack, k: nat, v: SWord)
    requires i < |ops| && k <= |s|
  {
    Step(ops, env, i, s) == Next(i + 1, s[..|s| - k] + [v])
  }

  // ----- division -----

  /** x divided by d, truncating: the remainder is smaller than d and has the sign of x. */
  predicate IsDivision(x: int, d: int, q: int, r: int) {
    && x == q * d + r
    && (if d > 0 then -d < r < d else d < r < -d)
    && (r == 0 || (r < 0 <==> x < 0))
  }

  lemma LawIsDivision(x: SWord, d: SWord)
    requires d != 0 && !(x == -TWO63 && d == -1)
    ensures BinaryValue(Div, x, d).Returned? && BinaryValue(Mod, x, d).Returned?
    ensures IsDivision(x, d, BinaryValue(Div, x, d).value, BinaryValue(Mod, x, d).value)
  {
    DivisionLaw(x, d);
  }

  /** div replaces the second entry and the top by their quotient, and is undefined exactly for a zero
      top or the one quotient that does not fit. */
  lemma DivStep(ops: seq<Op>, env: Env, i: nat, s: Stack) returns (q: SWord, r: int)
    requires i < |ops| && ops[i].code == Binary(Div) && |s| >= 2
    ensures var x, d := s[|s| - 2], s[|s| - 1];
      if d == 0 || (x == -TWO63 && d == -1) then
        Step(ops, env, i, s).Halt? && Step(ops, env, i, s).reply == Undefined(Division)
      else Replaces(ops, env, i, s, 2, q) && IsDivision(x, d, q, r)
  {
    var x, d := s[|s| - 2], s[|s| - 1];
    q, r := 0, 0;
    if d != 0 && !(x == -TWO63 && d == -1) {
      LawIsDivision(x, d);
      q, r := BinaryValue(Div, x, d).value, BinaryValue(Mod, x, d).value;
    }
  }

  /** mod replaces them by the remainder of the same division. */
  lemma ModStep(ops: seq<Op>, env: Env, i: nat, s: Stack) returns (q: int, r: SWord)
    requires i < |ops| && ops[i].code == Binary(Mod) && |s| >= 2
    ensures var x, d := s[|s| - 2], s[|s| - 1];
      if d == 0 || (x == -TWO63 && d == -1) then
        Step(ops, env, i, s).Halt? && Step(ops, env, i, s).reply == Undefined(Division)
      else Replaces(ops, env, i, s, 2, r) && IsDivision(x, d, q, r)
  {
    var x, d := s[|s| - 2], s[|s| - 1];
    q, r := 0, 0;
    if d != 0 && !(x == -TWO63 && d == -1) {
      LawIsDivision(x, d);
      q, r := BinaryValue(Div, x, d).value, BinaryValue(Mod, x, d).value;
    }
  }

  // ----- shifts -----

  /** shl moves the bits of the second entry up by the top entry and fills with zeros; a count outside
      the word is undefined. */
  lemma ShlStep(ops: seq<Op>, env: Env, i: nat, s: Stack) returns (v: SWord)
    requires i < |ops| && ops[i].code == Binary(Shl) && |s| >= 2
    ensures var x, c := s[|s| - 2], s[|s| - 1];
      if 0 <= c < 64 then
        && Replaces(ops, env, i, s, 2, v)
        && forall k: nat :: k < 64 ==> (Bit(ToWord(v), k) <==> k >= c && Bit(ToWord(x), k - c))
      else Step(ops, env, i, s).Halt? && Step(ops, env, i, s).reply == Undefined(ShiftCount)
  {
    var x, c := s[|s| - 2], s[|s| - 1];
    v := 0;
    if 0 <= c < 64 {
      v := BinaryValue(Shl, x, c).value;
      forall k: nat | k < 64 ensures Bit(ToWord(v), k) <==> k >= c && Bit(ToWord(x), k - c) {
        ShlBits(x, c, k);
      }
    }
  }

  /** shr and shra divide the second entry by two to the power of the top, rounding down. */
  lemma ShiftRightStep(ops: seq<Op>, env: Env, i: nat, s: Stack) returns (v: SWord)
    requires i < |ops| && (ops[i].code == Binary(Shr) || ops[i].code == Binary(Shra)) && |s| >= 2
    ensures var x, c := s[|s| - 2], s[|s| - 1];
      if 0 <= c < 64 then Replaces(ops, env, i, s, 2, v) && v * Pow2(c) <= x < v * Pow2(c) + Pow2(c)
      else Step(ops, env, i, s).Halt? && Step(ops, env, i, s).reply == Undefined(ShiftCount)
  {
    var x, c := s[|s| - 2], s[|s| - 1];
    v := 0;
    if 0 <= c < 64 {
      ShiftRightRoundsDown(x, c);
      v := BinaryValue(Shra, x, c).value;
    }
  }

  // ----- magnitude and bits -----

  /** abs replaces the top by its magnitude; the least word has none and stays. */
  lemma AbsStep(ops: seq<Op>, env: Env, i: nat, s: Stack) returns (v: SWord)
    requires i < |ops| && ops[i].code == Unary(Abs) && |s| >= 1
    ensures Replaces(ops, env, i, s, 1, v)
    ensures var x := s[|s| - 1];
      if x == -TWO63 then v == x else v >= 0 && (v == x || v == 0 - x)
  {
    AbsLaw(s[|s| - 1], ops[i].op1);
    v := UnaryValue(Abs, s[|s| - 1], ops[i].op1);
  }

  /** and, or and xor combine the two top entries bit by bit; not flips the top. */
  lemma BitStep(ops: seq<Op>, env: Env, i: nat, s: Stack, k: nat) returns (v: SWord)
    requires i < |ops| && k < 64
    requires ops[i].code == Binary(And) || ops[i].code == Binary(Or) || ops[i].code == Binary(Xor)
    requires |s| >= 2
    ensures Replaces(ops, env, i, s, 2, v)
    ensures var x, y, z := Bit(ToWord(s[|s| - 2]), k), Bit(ToWord(s[|s| - 1]), k), Bit(ToWord(v), k);
      match ops[i].code.b
      case And => z <==> x && y
      case Or => z <==> x || y
      case _ => z <==> x != y
  {
    BitwiseLaws(s[|s| - 2], s[|s| - 1], 0, k);
    v := BinaryValue(ops[i].code.b, s[|s| - 2], s[|s| - 1]).value;
  }

  lemma NotStep(ops: seq<Op>, env: Env, i: nat, s: Stack, k: nat) returns (v: SWord)
    requires i < |ops| && k < 64 && ops[i].code == Unary(Not) && |s| >= 1
    ensures Replaces(ops, env, i, s, 1, v)
    ensures Bit(ToWord(v), k) <==> !Bit(ToWord(s[|s| - 1]), k)
  {
    NotBit(s[|s| - 1], ops[i].op1, k);
    v := UnaryValue(Not, s[|s| - 1], ops[i].op1);
  }

  /** A comparison replaces the two top entries by 1 if it holds between the deeper one, on the left,
      and the top, and by 0 otherwise. */
  lemma CompareStep(ops: seq<Op>, env: Env, i: nat, s: Stack)
    requires i < |ops| && ops[i].code.Compare? && |s| >= 2
    ensures var x, y := s[|s| - 2], s[|s| - 1];
      var holds := match ops[i].code.c
        case Lt => x < y
        case Gt => x > y
        case Eq => x == y
        case Le => x <= y
        case Ge => x >= y
        case Ne => x != y;
      Replaces(ops, env, i, s, 2, if holds then 1 else 0)
  {
  }

  /** Two literals and an operation that replaces them. */
  lemma LiteralsThen(ops: seq<Op>, env: Env, a: Num32, b: Num32, v: SWord)
    requires |ops| == 3 && ops[0].code == Lit(a) && ops[1].code == Lit(b)
    requires Step(ops, env, 2, [a, b]) == Next(3, [v])
    ensures Evaluate(ops, env, [], 3).reply == Returned(Address(ToWord(v)))
  {
    assert Step(ops, env, 0, []) == Next(1, [a]);
    RunStep(ops, env, 0, 0, [], 3);
    assert Step(ops, env, 1, [a]) == Next(2, [a, b]) by { assert [a] + [b] == [a, b]; }
    RunStep(ops, env, 1, ops[0].off, [a], 2);
    RunStep(ops, env, 2, ops[1].off, [a, b], 1);
  }

  /** 20 3 div is 6, and 20 3 mod is 2. */
  lemma DivisionExample(env: Env, div: seq<Op>, mod: seq<Op>)
    requires div == [Op(Lit(20), 0, 0), Op(Lit(3), 0, 1), Op(Binary(Div), 0, 2)]
    requires mod == [Op(Lit(20), 0, 0), Op(Lit(3), 0, 1), Op(Binary(Mod), 0, 2)]
    ensures Evaluate(div, env, [], 3).reply == Returned(Address(6))
    ensures Evaluate(mod, env, [], 3).reply == Returned(Address(2))
  {
    var q, r := DivStep(div, env, 2, [20, 3]);
    UniqueQuotient(q, r);
    LiteralsThen(div, env, 20, 3, q);
    var p, t := ModStep(mod, env, 2, [20, 3]);
    UniqueQuotient(p, t);
    LiteralsThen(mod, env, 20, 3, t);
  }

  lemma UniqueQuotient(q: int, r: int)
    requires IsDivision(20, 3, q, r)
    ensures q == 6 && r == 2
  {
  }

  // ----- branches -----

  /** Operation k starts where a branch with displacement d looks. */
  predicate StartsAt(ops: seq<Op>, i: nat, d: int, k: nat)
    requires i < |ops| && k < |ops|
  {
    ops[k].off == ToWord(ops[i].off + d)
  }

  /** skip and bra take the low sixteen bits of the operand as a signed displacement from their own
      offset, and go on one past the first operation that starts there, or past themselves if none
      does; skip leaves the stack, and bra pops one entry, whatever it is. */
  lemma BranchStep(ops: seq<Op>, env: Env, i: nat, s: Stack) returns (d: int)
    requires i < |ops| && (ops[i].code.Skip? || (ops[i].code.Bra? && s != []))
    ensures IsConverted(ops[i].op1, d, 0x8000)
    ensures Step(ops, env, i, s).Next?
    ensures Step(ops, env, i, s).stack == if ops[i].code.Skip? then s else s[..|s| - 1]
    ensures var j := Step(ops, env, i, s).index;
      || (0 < j <= |ops| && StartsAt(ops, i, d, j - 1) && forall k :: 0 <= k < j - 1 ==> !StartsAt(ops, i, d, k))
      || (j == i + 1 && forall k :: 0 <= k < |ops| ==> !StartsAt(ops, i, d, k))
  {
    d := ToSigned16(ops[i].op1);
    ConversionsAreTwosComplement(ops[i].op1);
    LandingMeans(ops, i, d);
  }

  lemma LandingMeans(ops: seq<Op>, i: nat, d: int)
    requires i < |ops| && d == ToSigned16(ops[i].op1)
    ensures var j := Landing(ops, i);
      || (0 < j <= |ops| && StartsAt(ops, i, d, j - 1) && forall k :: 0 <= k < j - 1 ==> !StartsAt(ops, i, d, k))
      || (j == i + 1 && forall k :: 0 <= k < |ops| ==> !StartsAt(ops, i, d, k))
  {
    FoundMeans(ops, i, d, ToWord(ops[i].off + d));
  }

  lemma FoundMeans(ops: seq<Op>, i: nat, d: int, target: Word)
    requires i < |ops| && target == ToWord(ops[i].off + d)
    ensures match FindOpIndex(ops, target)
      case Some(m) => m < |ops| && StartsAt(ops, i, d, m) && forall k :: 0 <= k < m ==> !StartsAt(ops, i, d, k)
      case None => forall k :: 0 <= k < |ops| ==> !StartsAt(ops, i, d, k)
  {
    forall k | 0 <= k < |ops| ensures StartsAt(ops, i, d, k) <==> ops[k].off == target {
    }
  }

  // ----- errors -----

  /** The register that an operation reads, if it reads one. */
  function RegisterRead(a: Op, first: Word): Option<int> {
    match a.code
    case Reg(n) => Some(n)
    case Breg(n) => Some(n)
    case Regx => Some(first % 0x1_0000)
    case Bregx => Some(a.op1 % 0x1_0000)
    case _ => None
  }

  /** The entries that an operation checks for before it reads them; the comparisons check for none. */
  function Checked(a: Op): nat {
    match a.code
    case Dup | Drop | Deref | DerefSize | Unary(_) | StackValue | Bra => 1
    case Over | Swap | Binary(_) => 2
    case Rot => 3
    case Pick => if a.op1 == MAX_ADDR then 0 else a.op1 + 1
    case _ => 0
  }

  /** A deref gets no word, or the one that means failure. */
  predicate NoWord(m: MemAnswer) {
    m.Denied? || (m.Served? && (|m.bytes| != 8 || LEWord(m.bytes) == MAX_SIGNED))
  }

  /** Why an operation fails with an error, error by error. */
  predicate Fails(code: ErrorCode, a: Op, first: Word, env: Env, s: Stack) {
    var derefs := a.code.Deref? || a.code.DerefSize?;
    match code
    case IllegalOp => a.code.Illegal?
    case NotImplemented => a.code.Unsupported?
    case RegisterInvalid =>
      var n := RegisterRead(a, first);
      n.Some? && (env.registers.None? || env.registers.value(n.value).None?)
    case FrameBaseInvalid =>
      a.code.Fbreg? && (env.frameBase.None? || (env.frameBase.value.Returned? && env.frameBase.value.value.Error?))
    case CfaInvalid => a.code.CallFrameCfa? && env.cfa.None?
    case StackIndexInvalid => |s| < Checked(a) && !(derefs && env.memory.None?)
    case IllegalOpd => a.code.DerefSize? && env.memory.Some? && s != [] && !(1 <= a.op1 <= 8)
    case MemoryInvalid =>
      derefs && (env.memory.None? || (s != [] &&
        if a.code.Deref? then NoWord(env.memory.value(ToWord(s[|s| - 1]), 8))
        else 1 <= a.op1 <= 8 && env.memory.value(ToWord(s[|s| - 1]), a.op1).Denied?))
    case IllegalState | AddressInvalid => false
  }

  /** The word that means failure is the same as a word and as a stack entry. */
  lemma SentinelWord(w: Word)
    ensures ToSigned(w) == MAX_SIGNED <==> w == MAX_SIGNED
  {
    WordIdentity(w);
  }

  lemma EightBytes(b: seq<byte>)
    requires |b| == 8
    ensures FromLE(b) < TWO64 && LEWord(b) == FromLE(b)
  {
    Pow256Values();
  }

  lemma WordFails(m: Memory, addr: Word)
    ensures var r := ReadWord(m, addr, MAX_SIGNED);
      (r.Returned? && ToSigned(r.value) == MAX_SIGNED) <==> NoWord(m(addr, 8))
  {
    var r := ReadWord(m, addr, MAX_SIGNED);
    if m(addr, 8).Served? && |m(addr, 8).bytes| == 8 {
      EightBytes(m(addr, 8).bytes);
    }
    if r.Returned? {
      SentinelWord(r.value);
    }
  }

  /** The effect is an error with this code at the operation's offset exactly when its cause holds, and
      every error is at that offset. */
  ghost predicate ErrorAgrees(e: Effect, code: ErrorCode, a: Op, first: Word, env: Env, s: Stack) {
    && (e.Stop? && e.reply == Returned(Error(code, a.off)) <==> Fails(code, a, first, env, s))
    && (e.Stop? && e.reply.Returned? && e.reply.value.Error? ==> e.reply.value.addr == a.off)
  }

  lemma DerefFails(a: Op, env: Env, s: Stack, code: ErrorCode, first: Word)
    requires a.code.Deref?
    ensures ErrorAgrees(ApplyDeref(env, a, s), code, a, first, env, s)
  {
    if env.memory.Some? && s != [] {
      WordFails(env.memory.value, ToWord(s[|s| - 1]));
    }
  }

  lemma DerefSizeFails(a: Op, env: Env, s: Stack, code: ErrorCode, first: Word)
    requires a.code.DerefSize?
    ensures ErrorAgrees(ApplyDerefSize(env, a, s), code, a, first, env, s)
  {
  }

  lemma ShuffleFails(a: Op, env: Env, s: Stack, code: ErrorCode, first: Word)
    requires a.code.Dup? || a.code.Drop? || a.code.Pick? || a.code.Over? || a.code.Swap? || a.code.Rot?
    ensures ErrorAgrees(ApplyShuffle(a, s), code, a, first, env, s)
  {
  }

  lemma ArithmeticFails(a: Op, env: Env, s: Stack, code: ErrorCode, first: Word)
    requires a.code.Unary? || a.code.Binary? || a.code.Compare?
    ensures ErrorAgrees(Apply(a, first, env, s), code, a, first, env, s)
  {
  }

  lemma SourceFails(a: Op, env: Env, s: Stack, code: ErrorCode, first: Word)
    requires a.code.Reg? || a.code.Regx? || a.code.Breg? || a.code.Bregx? || a.code.Fbreg? || a.code.CallFrameCfa?
    ensures ErrorAgrees(Apply(a, first, env, s), code, a, first, env, s)
  {
  }

  lemma ApplyFails(a: Op, env: Env, s: Stack, code: ErrorCode, first: Word)
    requires !a.code.Skip? && !a.code.Bra?
    ensures ErrorAgrees(Apply(a, first, env, s), code, a, first, env, s)
  {
    match a.code {
      case Deref => DerefFails(a, env, s, code, first);
      case DerefSize => DerefSizeFails(a, env, s, code, first);
      case Dup | Drop | Pick | Over | Swap | Rot => ShuffleFails(a, env, s, code, first);
      case Unary(_) | Binary(_) | Compare(_) => ArithmeticFails(a, env, s, code, first);
      case Reg(_) | Regx | Breg(_) | Bregx | Fbreg | CallFrameCfa => SourceFails(a, env, s, code, first);
      case Lit(_) | Const | Nop | StackValue | Unsupported | Illegal =>
    }
  }

  /** Every error that an operation returns carries the operation's own offset, and an operation
      returns an error exactly when that error's cause holds. */
  lemma ErrorIff(ops: seq<Op>, env: Env, i: nat, s: Stack, code: ErrorCode)
    requires i < |ops|
    ensures var o := Step(ops, env, i, s);
      && (o.Halt? && o.reply == Returned(Error(code, ops[i].off)) <==> Fails(code, ops[i], ops[0].op1, env, s))
      && (o.Halt? && o.reply.Returned? && o.reply.value.Error? ==> o.reply.value.addr == ops[i].off)
  {
    if !ops[i].code.Skip? && !ops[i].code.Bra? {
      ApplyFails(ops[i], env, s, code, ops[0].op1);
    }
  }

  /** What a provider's own undefined reply hands on. */
  predicate ProviderBreaks(h: Hazard, a: Op, env: Env) {
    || (a.code.Fbreg? && env.frameBase == Some(Undefined(h)))
    || (a.code.CallFrameCfa? && env.cfa == Some(Undefined(h)))
  }

  /** Why an operation has no meaning in C++, hazard by hazard. */
  predicate Breaks(h: Hazard, a: Op, env: Env, s: Stack) {
    var two := |s| >= 2 && a.code.Binary?;
    ProviderBreaks(h, a, env) || match h
      case EmptyStack =>
        || (a.code.Compare? && |s| < 2)
        || (a.code.Pick? && (a.op1 == MAX_ADDR || TWO32 <= a.op1 < |s|))
      case Division =>
        two && (a.code.b.Div? || a.code.b.Mod?)
        && (s[|s| - 1] == 0 || (s[|s| - 2] == -TWO63 && s[|s| - 1] == -1))
      case ShiftCount =>
        two && (a.code.b.Shl? || a.code.b.Shr? || a.code.b.Shra?) && !(0 <= s[|s| - 1] < 64)
      case Overrun =>
        && env.memory.Some? && s != []
        && if a.code.Deref? then env.memory.value(ToWord(s[|s| - 1]), 8).PastEnd?
           else a.code.DerefSize? && 1 <= a.op1 <= 8 && env.memory.value(ToWord(s[|s| - 1]), a.op1).PastEnd?
  }

  lemma ArithmeticBreaks(a: Op, env: Env, s: Stack, h: Hazard, first: Word)
    requires a.code.Unary? || a.code.Binary? || a.code.Compare?
    ensures var e := Apply(a, first, env, s); e.Stop? && e.reply == Undefined(h) <==> Breaks(h, a, env, s)
  {
  }

  lemma MemoryBreaks(a: Op, env: Env, s: Stack, h: Hazard, first: Word)
    requires a.code.Deref? || a.code.DerefSize?
    ensures var e := Apply(a, first, env, s); e.Stop? && e.reply == Undefined(h) <==> Breaks(h, a, env, s)
  {
  }

  /** An operation is undefined exactly for one of these reasons. */
  lemma UndefinedIff(ops: seq<Op>, env: Env, i: nat, s: Stack, h: Hazard)
    requires i < |ops|
    ensures var o := Step(ops, env, i, s); o.Halt? && o.reply == Undefined(h) <==> Breaks(h, ops[i], env, s)
  {
    var a := ops[i];
    match a.code {
      case Unary(_) | Binary(_) | Compare(_) => ArithmeticBreaks(a, env, s, h, ops[0].op1);
      case Deref | DerefSize => MemoryBreaks(a, env, s, h, ops[0].op1);
      case _ =>
    }
  }

  /** What an operation that ends a run with a result leaves on the stack: an error leaves it as it was,
      except that a dereference that gets no memory has popped its address; stack_value leaves it;
      a register is pushed. */
  lemma EndsWithStack(ops: seq<Op>, env: Env, i: nat, s: Stack)
    requires i < |ops|
    ensures var o := Step(ops, env, i, s);
      o.Halt? && o.reply.Returned? ==>
        match o.reply.value
        case Error(code, _) =>
          if code == MemoryInvalid && env.memory.Some? then s != [] && o.stack == s[..|s| - 1] else o.stack == s
        case Value(v) => if ops[i].code.StackValue? then o.stack == s else o.stack == s + [ToSigned(v)]
        case Address(_) => false
  {
    EndsOf(ops[i], ops[0].op1, env, s);
  }

  lemma EndsOf(a: Op, first: Word, env: Env, s: Stack)
    ensures !a.code.Skip? && !a.code.Bra? ==> var e := Apply(a, first, env, s);
      e.Stop? && e.reply.Returned? ==>
        match e.reply.value
        case Error(code, _) =>
          if code == MemoryInvalid && env.memory.Some? then s != [] && e.stack == s[..|s| - 1] else e.stack == s
        case Value(v) => if a.code.StackValue? then e.stack == s else e.stack == s + [ToSigned(v)]
        case Address(_) => false
  {
  }

  /** An expression without operations is refused, on any stack, at offset zero. */
  lemma EmptyIsRefused(env: Env, s: Stack, budget: nat)
    ensures Evaluate([], env, s, budget) == Answer(Returned(Error(IllegalState, 0)), s)
  {
  }

  /** reg and regx push the register's value and end the expression with it. */
  lemma RegStep(ops: seq<Op>, env: Env, i: nat, s: Stack, v: Word)
    requires i < |ops| && (ops[i].code.Reg? || ops[i].code.Regx?) && env.registers.Some?
    requires env.registers.value(RegisterRead(ops[i], ops[0].op1).value) == Some(v)
    ensures Step(ops, env, i, s) == Halt(Returned(Value(v)), s + [ToSigned(v)])
  {
  }
}

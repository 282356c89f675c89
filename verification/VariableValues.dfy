/** What evaluating a variable's location gives, from the registers, offsets and memory that it goes
    back to: through the frame base, the provider of the call frame address and the rows below it. */
module VariableValues {
  import opened Words
  import opened Expression
  import opened Unwinding
  import opened FrameRows
  import StackDiscipline

  // ----- one operation at a pc -----

  /** A location whose expression is one operation that goes on with a value on the stack. */
  lemma OneOperation(p: Program, cfaOn: bool, a: Op, pc: Word, fuel: nat, v: SWord)
    requires fuel > 0 && Step([a], EnvAt(p, cfaOn, pc, fuel - 1), 0, []) == Next(1, [v])
    ensures EvalOps(p, cfaOn, [a], pc, fuel) == Returned(Address(ToWord(v)))
  {
    StackDiscipline.RunStep([a], EnvAt(p, cfaOn, pc, fuel - 1), 0, 0, [], fuel);
  }

  /** breg: the register's value plus the operand. */
  lemma RegisterPlus(
      p: Program, cfaOn: bool, list: LocationList, pc: Word, n: Num32, k: Word, off: Word, v: Word, fuel: nat)
    requires Select(p, list, pc) == Some([Op(Breg(n), k, off)]) && p.registers(n) == Some(v) && fuel > 0
    ensures EvalLocation(p, cfaOn, list, pc, fuel) == Returned(Address(ToWord(v + k)))
  {
    OneOperation(p, cfaOn, Op(Breg(n), k, off), pc, fuel, ToSigned(v + k));
    SignedIsCongruent(v + k);
  }

  /** reg: the register's value itself. */
  lemma InRegister(
      p: Program, cfaOn: bool, list: LocationList, pc: Word, n: Num32, k: Word, off: Word, v: Word, fuel: nat)
    requires Select(p, list, pc) == Some([Op(Reg(n), k, off)]) && p.registers(n) == Some(v) && fuel > 0
    ensures EvalLocation(p, cfaOn, list, pc, fuel) == Returned(Value(v))
  {
    StackDiscipline.RunStep([Op(Reg(n), k, off)], EnvAt(p, cfaOn, pc, fuel - 1), 0, 0, [], fuel);
  }

  /** fbreg: the frame base at the same pc plus the operand; no frame base, or one that fails, fails
      the variable. */
  lemma FrameBasePlus(
      p: Program, cfaOn: bool, list: LocationList, pc: Word, k: Word, off: Word, base: Reply<Result>, fuel: nat)
    requires Select(p, list, pc) == Some([Op(Fbreg, k, off)]) && fuel > 0
    requires p.frameBase.Some? ==> EvalLocation(p, cfaOn, p.frameBase.value, pc, fuel - 1) == base
    ensures var r := EvalLocation(p, cfaOn, list, pc, fuel);
      if p.frameBase.None? then r == Returned(Error(FrameBaseInvalid, off))
      else match base
        case Returned(b) =>
          r == Returned(if b.Error? then Error(FrameBaseInvalid, off) else Address(ToWord(b.value + k)))
        case Stuck => r == Stuck
        case Undefined(h) => r == Undefined(h)
  {
    var a, env := Op(Fbreg, k, off), EnvAt(p, cfaOn, pc, fuel - 1);
    if p.frameBase.Some? && base.Returned? && !base.value.Error? {
      assert Step([a], env, 0, []) == Next(1, [] + [ToSigned(base.value.value + k)]);
      OneOperation(p, cfaOn, a, pc, fuel, ToSigned(base.value.value + k));
      SignedIsCongruent(base.value.value + k);
    } else {
      StackDiscipline.RunStep([a], env, 0, 0, [], fuel);
    }
  }

  /** A frame base in a register, as in functions that keep a frame pointer. */
  lemma VariableFromFramePointer(
      p: Program, list: LocationList, pc: Word, n: Num32, k: Word, o1: Word, o2: Word, k2: Word, v: Word, fuel: nat)
    requires p.frameBase.Some? && Select(p, p.frameBase.value, pc) == Some([Op(Reg(n), k2, o2)])
    requires Select(p, list, pc) == Some([Op(Fbreg, k, o1)]) && p.registers(n) == Some(v) && fuel >= 2
    ensures EvalLocation(p, true, list, pc, fuel) == Returned(Address(ToWord(v + k)))
  {
    InRegister(p, true, p.frameBase.value, pc, n, k2, o2, v, fuel - 1);
    FrameBasePlus(p, true, list, pc, k, o1, Returned(Value(v)), fuel);
  }

  // ----- a frame base that is the call frame address -----

  /** Row k gives the CFA as register regs[k] plus offs[k]. */
  ghost predicate RegisterRows(p: Program, f: Fde, starts: seq<Word>, regs: seq<nat>, offs: seq<Word>) {
    && RowTable(f, starts) && |regs| == |starts| == |offs|
    && (forall k :: 0 <= k < |starts| ==> regs[k] < 0x8000_0000 && p.registers(regs[k]).Some?)
    && forall k: nat, at: Word :: InRow(f, starts, k, at) ==>
         var info := f.cfaInfo(at).value;
         info.rule.OffsetRule? && info.reg == Numbered(regs[k]) && info.offset == offs[k]
  }

  /** No column is given by an expression, and no read leaves its buffer: what compilers emit. */
  ghost predicate PlainColumns(p: Program, f: Fde) {
    && (forall a, n :: !p.memory(a, n).PastEnd?)
    && forall x, at :: f.regInfo(x, at).Some? ==>
         !f.regInfo(x, at).value.rule.ExpressionRule? && !f.regInfo(x, at).value.rule.ValExpressionRule?
  }

  lemma {:induction false} PlainColumnsPrint(p: Program, cfaOn: bool, f: Fde, at: Word, cfa: Word, x: nat, fuel: nat)
    requires PlainColumns(p, f)
    ensures OtherColumns(p, cfaOn, f, at, cfa, x, fuel).Returned?
    decreases REGISTER_COLUMNS - x
  {
    if x < REGISTER_COLUMNS {
      if f.regInfo(x, at).Some? {
        PlainColumn(p, cfaOn, at, f.regInfo(x, at).value, cfa, fuel);
      }
      PlainColumnsPrint(p, cfaOn, f, at, cfa, x + 1, fuel);
    }
  }

  lemma PlainColumn(p: Program, cfaOn: bool, pc: Word, info: FdeInfo, cfa: Word, fuel: nat)
    requires !info.rule.ExpressionRule? && !info.rule.ValExpressionRule?
    requires forall a, n :: !p.memory(a, n).PastEnd?
    ensures GetReg(p, cfaOn, false, pc, info, cfa, fuel).Returned?
  {
  }

  /** The CFA of a row, as section 6.4.2 defines it. */
  function RowCfa(p: Program, reg: nat, off: Word): Word
    requires p.registers(reg).Some?
  {
    ToWord(p.registers(reg).value + ToSigned(off))
  }

  /** The call frame address that the provider answers for a pc: the last row's register plus its
      offset, of the entry that covers the pc. */
  lemma CfaFromRegisters(
      p: Program, cfaOn: bool, pc: Word, f: Fde, starts: seq<Word>, regs: seq<nat>, offs: seq<Word>, fuel: nat)
    requires p.fdeAt(pc) == Some(f) && RegisterRows(p, f, starts, regs, offs) && PlainColumns(p, f)
    ensures var n := |starts| - 1; GetCfa(p, cfaOn, pc, fuel) == Returned(RowCfa(p, regs[n], offs[n]))
  {
    var vals := seq(|starts|, k requires 0 <= k < |starts| && p.registers(regs[k]).Some? =>
      RowCfa(p, regs[k], offs[k]));
    forall k: nat, at: Word | InRow(f, starts, k, at)
      ensures GetReg(p, cfaOn, true, at, f.cfaInfo(at).value, 0, fuel) == Returned(vals[k])
    {
      var info := f.cfaInfo(at).value;
      OffsetsAreSigned(p, cfaOn, true, at, info, 0, fuel);
    }
    forall k: nat, at: Word | InRow(f, starts, k, at) && vals[k] != MAX_ADDR
      ensures OtherColumns(p, cfaOn, f, RowEnd(f.cfaInfo(at).value, at), vals[k], 0, fuel).Returned?
    {
      PlainColumnsPrint(p, cfaOn, f, RowEnd(f.cfaInfo(at).value, at), vals[k], 0, fuel);
    }
    assert InRow(f, starts, 0, f.low);
    WalksFromRow(p, cfaOn, f, starts, vals, 0, f.low, MAX_ADDR, fuel);
  }

  /** A variable at fbreg k in a function whose frame base is the call frame address: its address is
      the register of the last row of the function at the pc, plus that row's offset, plus k. */
  lemma VariableFromCfa(
      p: Program, list: LocationList, pc: Word, k: Word, o1: Word, o2: Word, k2: Word,
      f: Fde, starts: seq<Word>, regs: seq<nat>, offs: seq<Word>, fuel: nat)
    requires p.frameBase.Some? && Select(p, p.frameBase.value, pc) == Some([Op(CallFrameCfa, k2, o2)])
    requires Select(p, list, pc) == Some([Op(Fbreg, k, o1)]) && fuel >= 2
    requires p.fdeAt(pc) == Some(f) && RegisterRows(p, f, starts, regs, offs) && PlainColumns(p, f)
    ensures var n := |starts| - 1;
      EvalLocation(p, true, list, pc, fuel)
      == Returned(Address(ToWord(p.registers(regs[n]).value + ToSigned(offs[n]) + ToSigned(k))))
  {
    var n := |starts| - 1;
    var base := RowCfa(p, regs[n], offs[n]);
    CfaFromRegisters(p, false, pc, f, starts, regs, offs, fuel - 2);
    var a, env := Op(CallFrameCfa, k2, o2), EnvAt(p, true, pc, fuel - 2);
    assert Step([a], env, 0, []) == Next(1, [] + [ToSigned(base)]);
    OneOperation(p, true, a, pc, fuel - 1, ToSigned(base));
    WordIdentity(base);
    FrameBasePlus(p, true, list, pc, k, o1, Returned(Address(base)), fuel);
    SumOfThree(p.registers(regs[n]).value + ToSigned(offs[n]), k);
  }

  lemma SumOfThree(x: int, k: Word)
    ensures ToWord(ToWord(x) + k) == ToWord(x + ToSigned(k))
  {
    WordShift(x, k);
    SignedIsCongruent(k);
    CongruentAdd(x, x, k, ToSigned(k));
  }

  /** The frame base asks for the CFA of the pc at hand: with the entry at 0x2000, whose CFA is
      register 7 plus 16, a variable at fbreg -20 is four bytes below the value of register 7. */
  lemma VariableExample(p: Program, f: Fde, fuel: nat)
    requires p.frameBase == Some([RangedExpr(0, 0, [Op(CallFrameCfa, 0, 0)])])
    requires p.fdeAt(0x2010) == Some(f) && p.registers(7) == Some(0x7FF0) && fuel >= 2
    requires f.low == 0x2000 && f.high == 0x2020 && PlainColumns(p, f)
    requires forall at :: 0x2000 <= at < 0x2020 ==>
      f.cfaInfo(at) == Some(FdeInfo(OffsetRule, true, Numbered(7), 16, None, 0x2000, false, 0))
    ensures var list := [RangedExpr(0, 0, [Op(Fbreg, TWO64 - 20, 0)])];
      EvalLocation(p, true, list, 0x2010, fuel) == Returned(Address(0x7FEC))
  {
    var list := [RangedExpr(0, 0, [Op(Fbreg, TWO64 - 20, 0)])];
    var starts, regs, offs := [0x2000], [7], [16];
    VariableFromCfa(p, list, 0x2010, TWO64 - 20, 0, 0, 0, f, starts, regs, offs, fuel);
  }

  // ----- memory and failures -----

  /** What deref replies to an answer of the memory provider, at the end of an expression. */
  function PointedAt(m: MemAnswer, off: Word): Reply<Result> {
    match m
    case PastEnd => Undefined(Overrun)
    case Denied => Returned(Error(MemoryInvalid, off))
    case Served(b) =>
      Returned(if |b| != 8 || LEWord(b) == MAX_SIGNED then Error(MemoryInvalid, off) else Address(LEWord(b)))
  }

  lemma DerefEnds(ops: seq<Op>, env: Env, addr: Word, cur: Word, budget: nat)
    requires |ops| == 2 && ops[1].code.Deref? && env.memory.Some? && budget > 0
    ensures Run(ops, env, 1, cur, [ToSigned(addr)], budget).reply == PointedAt(env.memory.value(addr, 8), ops[1].off)
  {
    StackDiscipline.RunStep(ops, env, 1, cur, [ToSigned(addr)], budget);
    WordIdentity(addr);
    var m := env.memory.value(addr, 8);
    if m.Served? && |m.bytes| == 8 {
      Pow256Values();
      WordIdentity(LEWord(m.bytes));
    }
  }

  /** A constant address that is dereferenced: the word there, or the error of the missing word. */
  lemma VariableThroughPointer(
      p: Program, cfaOn: bool, list: LocationList, pc: Word, addr: Word, o1: Word, k: Word, o2: Word, fuel: nat)
    requires Select(p, list, pc) == Some([Op(Const, addr, o1), Op(Deref, k, o2)]) && fuel >= 2
    ensures EvalLocation(p, cfaOn, list, pc, fuel) == PointedAt(p.memory(addr, 8), o2)
  {
    var ops, env := [Op(Const, addr, o1), Op(Deref, k, o2)], EnvAt(p, cfaOn, pc, fuel - 1);
    assert Step(ops, env, 0, []) == Next(1, [] + [ToSigned(addr)]);
    StackDiscipline.RunStep(ops, env, 0, 0, [], fuel);
    DerefEnds(ops, env, addr, o1, fuel - 1);
  }

  /** Outside every entry of its list a variable has no value. */
  lemma NoEntryNoValue(p: Program, cfaOn: bool, list: LocationList, pc: Word, fuel: nat)
    requires forall k :: 0 <= k < |list| ==> !Covers(p, list[k], pc)
    ensures EvalLocation(p, cfaOn, list, pc, fuel) == Returned(Error(AddressInvalid, 0))
  {
    SelectIsFirst(p, list, pc);
  }

  // ----- the rules -----

  /** The CFA column, rule by rule: the values a row can have, and when it has none. */
  lemma CfaRules(p: Program, cfaOn: bool, pc: Word, info: FdeInfo, fuel: nat)
    requires info.reg.Numbered? ==> info.reg.n < 0x8000_0000
    ensures var r := GetReg(p, cfaOn, true, pc, info, 0, fuel);
      match info.rule
      case OffsetRule =>
        if info.reg.Numbered? && p.registers(info.reg.n).Some? then r == Returned(RowCfa(p, info.reg.n, info.offset))
        else r == Returned(MAX_ADDR)
      case ValOffsetRule => r == Returned(if info.reg.Numbered? then info.offset else MAX_ADDR)
      case OtherRule => r == Returned(MAX_ADDR)
      case _ => true
  {
    if info.reg.Numbered? {
      OffsetsAreSigned(p, cfaOn, true, pc, info, 0, fuel);
    }
  }

  /** val_expression(E) is what E evaluates to, address or value, and none if E fails or cannot be
      loaded; expression(E) is the word stored there, and none if it cannot be read. */
  lemma ExpressionRules(p: Program, cfaOn: bool, isCfa: bool, pc: Word, info: FdeInfo, cfa: Word, fuel: nat)
    requires info.rule.ExpressionRule? || info.rule.ValExpressionRule?
    ensures var r := GetReg(p, cfaOn, isCfa, pc, info, cfa, fuel);
      var e := if info.block.None? then Returned(Error(IllegalState, 0))
        else EvalOps(p, cfaOn, info.block.value, pc, fuel);
      match e
      case Stuck => r == Stuck
      case Undefined(h) => r == Undefined(h)
      case Returned(x) =>
        var at := if x.Error? then MAX_ADDR else x.value;
        if info.rule.ValExpressionRule? then r == Returned(at)
        else match p.memory(at, 8)
          case PastEnd => r == Undefined(Overrun)
          case Denied => r == Returned(MAX_ADDR)
          case Served(b) => r == Returned(if |b| == 8 then LEWord(b) else MAX_ADDR)
  {
    Pow256Values();
  }

  /** The other columns of a row are evaluated without effect on the address: all 33 that start there
      must return, and no other matters. */
  lemma {:induction false} ColumnsReturnIff(p: Program, cfaOn: bool, f: Fde, at: Word, cfa: Word, x: nat, fuel: nat)
    ensures var r := OtherColumns(p, cfaOn, f, at, cfa, x, fuel);
      && (r.Returned? ==> r.value == cfa)
      && (r.Returned? <==> forall y: nat :: x <= y < 33 ==> ColumnReturns(p, cfaOn, f, at, cfa, y, fuel))
    decreases 33 - x
  {
    if x < 33 {
      ColumnsReturnIff(p, cfaOn, f, at, cfa, x + 1, fuel);
      assert ColumnReturns(p, cfaOn, f, at, cfa, x, fuel) ==>
        OtherColumns(p, cfaOn, f, at, cfa, x, fuel) == OtherColumns(p, cfaOn, f, at, cfa, x + 1, fuel);
    }
  }

  predicate ColumnReturns(p: Program, cfaOn: bool, f: Fde, at: Word, cfa: Word, y: nat, fuel: nat) {
    var info := f.regInfo(y, at);
    info.Some? && info.value.rowPc == at ==> GetReg(p, cfaOn, false, at, info.value, cfa, fuel).Returned?
  }

  // ----- the walk over any rows -----

  /** The value after an address was asked for its rule: the rule's, if there is one. */
  function ValueAt(p: Program, cfaOn: bool, f: Fde, at: Word, before: Word, fuel: nat): Word {
    match f.cfaInfo(at)
    case None => before
    case Some(info) =>
      match GetReg(p, cfaOn, true, at, info, 0, fuel)
      case Returned(v) => v
      case _ => before
  }

  /** The value after a list of addresses: that of the last one with a rule. */
  function Carried(p: Program, cfaOn: bool, f: Fde, asked: seq<Word>, before: Word, fuel: nat): Word
    decreases |asked|
  {
    if asked == [] then before
    else Carried(p, cfaOn, f, asked[1..], ValueAt(p, cfaOn, f, asked[0], before, fuel), fuel)
  }

  lemma {:induction false} WalkCarries(p: Program, cfaOn: bool, f: Fde, at: Word, cfa: Word, fuel: nat)
    ensures var r := Walk(p, cfaOn, f, at, cfa, fuel);
      r.Returned? ==> r.value == Carried(p, cfaOn, f, Visited(p, cfaOn, f, at, cfa, fuel), cfa, fuel)
    decreases f.high - at
  {
    if at < f.high {
      var asked := Visited(p, cfaOn, f, at, cfa, fuel);
      match StepRow(p, cfaOn, f, at, cfa, fuel) {
        case Ended(_) => assert asked == [at];
        case Onward(next, v) =>
          WalkCarries(p, cfaOn, f, next, v, fuel);
          assert asked[1..] == Visited(p, cfaOn, f, next, v, fuel);
          assert v == ValueAt(p, cfaOn, f, at, cfa, fuel);
      }
    }
  }

  /** Whatever the rows, gaps included: the call frame address is the value of the last address that
      the walk asks and that has a rule, and the value for none if there is no such address. */
  lemma CfaIsLastAsked(p: Program, cfaOn: bool, pc: Word, fuel: nat)
    ensures var r := GetCfa(p, cfaOn, pc, fuel);
      match p.fdeAt(pc)
      case None => r == Returned(MAX_ADDR)
      case Some(f) =>
        var asked := Visited(p, cfaOn, f, f.low, MAX_ADDR, fuel);
        r.Returned? ==> r.value == Carried(p, cfaOn, f, asked, MAX_ADDR, fuel)
  {
    if p.fdeAt(pc).Some? {
      var f := p.fdeAt(pc).value;
      WalkCarries(p, cfaOn, f, f.low, MAX_ADDR, fuel);
    }
  }
}

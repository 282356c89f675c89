/** The calls that recurse through the evaluator: location lists, call frame information and the
    providers that tie them together. The source recurses without bound; here every evaluation
    spends one unit of fuel, and `Stuck` means that the fuel was not enough. */
module Unwinding {
  import opened Words
  import opened Expression

  /** One entry of a location list. */
  datatype RangedExpr = RangedExpr(low: Word, high: Word, ops: seq<Op>)

  type LocationList = seq<RangedExpr>

  /** A register column: undefined, same value, or a register number. */
  datatype RegRef = UndefinedValue | SameValue | Numbered(n: Word)

  datatype Rule = OffsetRule | ValOffsetRule | ExpressionRule | ValExpressionRule | OtherRule

  /** What libdwarf reports about one column at one address; `block` is None when its expression
      cannot be loaded. */
  datatype FdeInfo = FdeInfo(
    rule: Rule, offsetRelevant: bool, reg: RegRef, offset: Word, block: Option<seq<Op>>,
    rowPc: Word, hasMoreRows: bool, subsequentPc: Word)

  datatype Fde = Fde(
    low: Word, high: Word,
    cfaInfo: Word -> Option<FdeInfo>,
    regInfo: (nat, Word) -> Option<FdeInfo>)

  /** Everything an evaluation can reach: the compilation unit's bounds, the function's frame
      base, the providers, and the frame description entries by pc. */
  datatype Program = Program(
    cuLow: Word, cuHigh: Word,
    frameBase: Option<LocationList>,
    registers: Registers, memory: Memory,
    fdeAt: Word -> Option<Fde>)

  const REGISTER_COLUMNS: nat := 33

  // ----- location lists -----

  predicate Unlimited(e: RangedExpr) {
    e.low == 0 && (e.high == 0 || e.high == MAX_ADDR)
  }

  /** The source adds the unit's low pc to one end and its high pc to the other. */
  predicate Covers(p: Program, e: RangedExpr, pc: Word) {
    Unlimited(e) || ToWord(e.low + p.cuLow) <= pc < ToWord(e.high + p.cuHigh)
  }

  function Select(p: Program, list: LocationList, pc: Word): Option<seq<Op>> {
    if list == [] then None
    else if Covers(p, list[0], pc) then Some(list[0].ops)
    else Select(p, list[1..], pc)
  }

  /** The expression of the first entry that covers the pc, or none if no entry does. */
  lemma {:induction false} SelectIsFirst(p: Program, list: LocationList, pc: Word)
    ensures match Select(p, list, pc)
      case Some(ops) => exists k :: 0 <= k < |list| && Covers(p, list[k], pc) && ops == list[k].ops
                                    && forall j :: 0 <= j < k ==> !Covers(p, list[j], pc)
      case None => forall k :: 0 <= k < |list| ==> !Covers(p, list[k], pc)
  {
    if list != [] && !Covers(p, list[0], pc) {
      SelectIsFirst(p, list[1..], pc);
      assert forall k :: 0 < k < |list| ==> list[k] == list[1..][k - 1];
      if Select(p, list, pc).Some? {
        var k :| 0 <= k < |list[1..]| && Covers(p, list[1..][k], pc) && Select(p, list, pc).value == list[1..][k].ops
                 && forall j :: 0 <= j < k ==> !Covers(p, list[1..][j], pc);
        assert Covers(p, list[k + 1], pc);
      }
    }
  }

  // ----- the recursive knot -----

  /** `cfaOn`: whether the context carries a CFA provider. The provider is bound to a copy of the
      context made before it was set, so what it evaluates runs with cfaOn false. */
  function EnvAt(p: Program, cfaOn: bool, pc: Word, fuel: nat): Env
    decreases fuel, 6, 0
  {
    Env(Some(p.registers), Some(p.memory),
        if p.frameBase.None? then None else Some(EvalLocation(p, cfaOn, p.frameBase.value, pc, fuel)),
        if cfaOn then Some(GetCfa(p, false, pc, fuel)) else None)
  }

  function EvalOps(p: Program, cfaOn: bool, ops: seq<Op>, pc: Word, fuel: nat): Reply<Result>
    decreases fuel, 0, 0
  {
    if fuel == 0 then Stuck
    else Evaluate(ops, EnvAt(p, cfaOn, pc, fuel - 1), [], fuel).reply
  }

  function EvalLocation(p: Program, cfaOn: bool, list: LocationList, pc: Word, fuel: nat): Reply<Result>
    decreases fuel, 4, 0
  {
    match Select(p, list, pc)
    case None => Returned(Error(AddressInvalid, 0))
    case Some(ops) => EvalOps(p, cfaOn, ops, pc, fuel)
  }

  function EvalExpr(p: Program, cfaOn: bool, pc: Word, info: FdeInfo, fuel: nat): Reply<Word>
    decreases fuel, 0, 1
  {
    match info.block
    case None => Returned(MAX_ADDR)
    case Some(ops) =>
      match EvalOps(p, cfaOn, ops, pc, fuel)
      case Returned(r) => Returned(if r.Valid() then r.value else MAX_ADDR)
      case Stuck => Stuck
      case Undefined(h) => Undefined(h)
  }

  /** `isCfa` tells the CFA column from the others. */
  function GetReg(p: Program, cfaOn: bool, isCfa: bool, pc: Word, info: FdeInfo, cfa: Word, fuel: nat): Reply<Word>
    decreases fuel, 1, 0
  {
    if (info.rule.OffsetRule? || info.rule.ValOffsetRule?) && !info.reg.Numbered? then Returned(MAX_ADDR)
    else match info.rule
      case OffsetRule =>
        if info.offsetRelevant && !isCfa then ReadWord(p.memory, ToWord(cfa + info.offset), MAX_ADDR)
        else (match p.registers(ToInt32(info.reg.n))
              case None => Returned(MAX_ADDR)
              case Some(v) => Returned(ToWord(v + info.offset)))
      case ValOffsetRule => Returned(ToWord(cfa + info.offset))
      case ExpressionRule =>
        (match EvalExpr(p, cfaOn, pc, info, fuel)
         case Returned(addr) => ReadWord(p.memory, addr, MAX_ADDR)
         case Stuck => Stuck
         case Undefined(h) => Undefined(h))
      case ValExpressionRule => EvalExpr(p, cfaOn, pc, info, fuel)
      case OtherRule => Returned(MAX_ADDR)
  }

  /** The loop over the other columns; their values are only printed. */
  function OtherColumns(p: Program, cfaOn: bool, f: Fde, pc: Word, cfa: Word, x: nat, fuel: nat): Reply<Word>
    decreases fuel, 2, REGISTER_COLUMNS - x
  {
    if x >= REGISTER_COLUMNS then Returned(cfa)
    else match f.regInfo(x, pc)
      case None => OtherColumns(p, cfaOn, f, pc, cfa, x + 1, fuel)
      case Some(info) =>
        if info.rowPc != pc then OtherColumns(p, cfaOn, f, pc, cfa, x + 1, fuel)
        else match GetReg(p, cfaOn, false, pc, info, cfa, fuel)
          case Returned(_) => OtherColumns(p, cfaOn, f, pc, cfa, x + 1, fuel)
          case Stuck => Stuck
          case Undefined(h) => Undefined(h)
  }

  /** The last address of the row, where the loop over the other columns looks. */
  function RowEnd(info: FdeInfo, at: Word): (r: Word)
    ensures at <= r && (at < MAX_ADDR ==> r < MAX_ADDR)
  {
    if info.subsequentPc > at then info.subsequentPc - 1 else at
  }

  /** What the loop over rows does at one address: it ends with a reply, or goes on at a later
      address with the value found last. */
  datatype RowStep = Ended(reply: Reply<Word>) | Onward(next: Word, cfa: Word)

  function StepRow(p: Program, cfaOn: bool, f: Fde, at: Word, cfa: Word, fuel: nat): (s: RowStep)
    requires at < f.high
    ensures s.Onward? ==> at < s.next
    decreases fuel, 3, 0
  {
    match f.cfaInfo(at)
    case None => Onward(at + 1, cfa)
    case Some(info) =>
      match GetReg(p, cfaOn, true, at, info, 0, fuel)
      case Stuck => Ended(Stuck)
      case Undefined(h) => Ended(Undefined(h))
      case Returned(v) =>
        if v == MAX_ADDR then Onward(at + 1, v)
        else match OtherColumns(p, cfaOn, f, RowEnd(info, at), v, 0, fuel)
          case Stuck => Ended(Stuck)
          case Undefined(h) => Ended(Undefined(h))
          case Returned(_) => if !info.hasMoreRows then Ended(Returned(v)) else Onward(RowEnd(info, at) + 1, v)
  }

  /** The walk over the rows from address `at`; `cfa` is the value found last. */
  function Walk(p: Program, cfaOn: bool, f: Fde, at: Word, cfa: Word, fuel: nat): Reply<Word>
    decreases fuel, 4, f.high - at
  {
    if at >= f.high then Returned(cfa)
    else match StepRow(p, cfaOn, f, at, cfa, fuel)
      case Ended(r) => r
      case Onward(next, v) => Walk(p, cfaOn, f, next, v, fuel)
  }

  /** The addresses at which the walk asks for the CFA rule, in order. */
  function Visited(p: Program, cfaOn: bool, f: Fde, at: Word, cfa: Word, fuel: nat): seq<Word>
    decreases f.high - at
  {
    if at >= f.high then []
    else [at] + match StepRow(p, cfaOn, f, at, cfa, fuel)
      case Ended(_) => []
      case Onward(next, v) => Visited(p, cfaOn, f, next, v, fuel)
  }

  function GetCfa(p: Program, cfaOn: bool, pc: Word, fuel: nat): Reply<Word>
    decreases fuel, 5, 0
  {
    match p.fdeAt(pc)
    case None => Returned(MAX_ADDR)
    case Some(f) => Walk(p, cfaOn, f, f.low, MAX_ADDR, fuel)
  }

  // ----- the loops of the source -----

  lemma SelectUnfolds(p: Program, list: LocationList, k: nat, pc: Word)
    requires k < |list|
    ensures Select(p, list[k..], pc) ==
      if Covers(p, list[k], pc) then Some(list[k].ops) else Select(p, list[k + 1..], pc)
  {
    assert list[k..][1..] == list[k + 1..];
  }

  /** DwarfLocation::evalValue: the first entry that covers the pc is evaluated. */
  method EvalValue(p: Program, cfaOn: bool, exprs: LocationList, pc: Word, fuel: nat) returns (r: Reply<Result>)
    ensures r == EvalLocation(p, cfaOn, exprs, pc, fuel)
  {
    for k := 0 to |exprs|
      invariant Select(p, exprs, pc) == Select(p, exprs[k..], pc)
    {
      var e := exprs[k];
      SelectUnfolds(p, exprs, k, pc);
      if e.low == 0 && (e.high == 0 || e.high == MAX_ADDR) {
        return EvalOps(p, cfaOn, e.ops, pc, fuel);
      }
      var low := ToWord(e.low + p.cuLow);
      var high := ToWord(e.high + p.cuHigh);
      if pc >= low && pc < high {
        return EvalOps(p, cfaOn, e.ops, pc, fuel);
      }
    }
    r := Returned(Error(AddressInvalid, 0));
  }

  /** DwarfFrames::GetCfa: p and cfa are reassigned row by row. `visited` records every address
      whose rule is asked for. */
  method ComputeCfa(prog: Program, cfaOn: bool, pc: Word, fuel: nat) returns (r: Reply<Word>, ghost visited: seq<Word>)
    ensures r == GetCfa(prog, cfaOn, pc, fuel)
    ensures visited == match prog.fdeAt(pc)
      case None => []
      case Some(f) => Visited(prog, cfaOn, f, f.low, MAX_ADDR, fuel)
  {
    visited := [];
    var cfa := MAX_ADDR;
    var found := prog.fdeAt(pc);
    if found.None? {
      r := Returned(cfa);
      return;
    }
    var fde := found.value;
    var p: Word := fde.low;
    ghost var all := Visited(prog, cfaOn, fde, p, cfa, fuel);
    ghost var result := Walk(prog, cfaOn, fde, p, cfa, fuel);
    while p < fde.high
      invariant result == Walk(prog, cfaOn, fde, p, cfa, fuel)
      invariant all == visited + Visited(prog, cfaOn, fde, p, cfa, fuel)
      decreases fde.high - p
    {
      ghost var step := StepRow(prog, cfaOn, fde, p, cfa, fuel);
      VisitedUnfolds(prog, cfaOn, fde, p, cfa, fuel, visited);
      visited := visited + [p];
      var info := fde.cfaInfo(p);
      if info.Some? {
        var got := GetReg(prog, cfaOn, true, p, info.value, 0, fuel);
        if !got.Returned? {
          assert step == Ended(got);
          r := got;
          return;
        }
        cfa := got.value;
        if cfa != MAX_ADDR {
          p := RowEnd(info.value, p);
          var others := ShowColumns(prog, cfaOn, fde, p, cfa, fuel);
          if !others.Returned? {
            assert step == Ended(others);
            r := others;
            return;
          }
          if !info.value.hasMoreRows {
            assert step == Ended(Returned(cfa));
            r := Returned(cfa);
            return;
          }
        }
      }
      p := p + 1;
      assert step == Onward(p, cfa);
    }
    r := Returned(cfa);
  }

  lemma VisitedUnfolds(p: Program, cfaOn: bool, f: Fde, at: Word, cfa: Word, fuel: nat, before: seq<Word>)
    requires at < f.high
    ensures before + Visited(p, cfaOn, f, at, cfa, fuel) == before + [at] +
      match StepRow(p, cfaOn, f, at, cfa, fuel)
      case Ended(_) => []
      case Onward(next, v) => Visited(p, cfaOn, f, next, v, fuel)
  {
  }

  method ShowColumns(prog: Program, cfaOn: bool, fde: Fde, p: Word, cfa: Word, fuel: nat) returns (r: Reply<Word>)
    ensures r == OtherColumns(prog, cfaOn, fde, p, cfa, 0, fuel)
  {
    for x := 0 to REGISTER_COLUMNS
      invariant OtherColumns(prog, cfaOn, fde, p, cfa, 0, fuel) == OtherColumns(prog, cfaOn, fde, p, cfa, x, fuel)
    {
      var info := fde.regInfo(x, p);
      if info.None? || info.value.rowPc != p {
        continue;
      }
      var got := GetReg(prog, cfaOn, false, p, info.value, cfa, fuel);
      if !got.Returned? {
        return got;
      }
    }
    r := Returned(cfa);
  }
}

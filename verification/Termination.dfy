/** Whether the mutual recursion of `Unwinding` returns. More fuel never changes an answer; with
    frame bases that do not use fbreg, and branches whose path leaves the expression, an explicit
    amount is enough, by the lexicographic measure (CFA provider present, outside the frame base,
    operations left). */
module Termination {
  import opened Words
  import opened Expression
  import opened Unwinding
  import opened BranchProgress
  import opened IndexPath

  // ----- more fuel, same answer -----

  /** `more` answers whatever `less` answers. */
  ghost predicate Refines<T(!new)>(less: Reply<T>, more: Reply<T>) {
    less != Stuck ==> more == less
  }

  ghost predicate EnvRefines(e: Env, f: Env) {
    && e.registers == f.registers && e.memory == f.memory
    && e.frameBase.Some? == f.frameBase.Some? && e.cfa.Some? == f.cfa.Some?
    && (e.frameBase.Some? ==> Refines(e.frameBase.value, f.frameBase.value))
    && (e.cfa.Some? ==> Refines(e.cfa.value, f.cfa.value))
  }

  lemma StepRefines(ops: seq<Op>, e: Env, f: Env, i: nat, s: Stack)
    requires EnvRefines(e, f) && i < |ops|
    ensures var o := Step(ops, e, i, s);
      o == Step(ops, f, i, s) || (o.Halt? && o.reply == Stuck)
  {
  }

  lemma {:induction false} RunRefines(ops: seq<Op>, e: Env, f: Env, i: nat, cur: Word, s: Stack, n: nat, m: nat)
    requires EnvRefines(e, f) && n <= m
    ensures Refines(Run(ops, e, i, cur, s, n).reply, Run(ops, f, i, cur, s, m).reply)
    decreases n
  {
    if i < |ops| && n > 0 {
      StepRefines(ops, e, f, i, s);
      match Step(ops, e, i, s) {
        case Next(j, t) => RunRefines(ops, e, f, j, ops[i].off, t, n - 1, m - 1);
        case Halt(_, _) =>
      }
    }
  }

  lemma {:induction false} EnvMoreFuel(p: Program, cfaOn: bool, pc: Word, n: nat, m: nat)
    requires n <= m
    ensures EnvRefines(EnvAt(p, cfaOn, pc, n), EnvAt(p, cfaOn, pc, m))
    decreases n, 6, 0
  {
    if p.frameBase.Some? {
      LocationMoreFuel(p, cfaOn, p.frameBase.value, pc, n, m);
    }
    if cfaOn {
      CfaMoreFuel(p, false, pc, n, m);
    }
  }

  lemma {:induction false} OpsMoreFuel(p: Program, cfaOn: bool, ops: seq<Op>, pc: Word, n: nat, m: nat)
    requires n <= m
    ensures Refines(EvalOps(p, cfaOn, ops, pc, n), EvalOps(p, cfaOn, ops, pc, m))
    decreases n, 0, 0
  {
    if n > 0 {
      EnvMoreFuel(p, cfaOn, pc, n - 1, m - 1);
      RunRefines(ops, EnvAt(p, cfaOn, pc, n - 1), EnvAt(p, cfaOn, pc, m - 1), 0, 0, [], n, m);
    }
  }

  /** An evaluation that returns with some fuel returns the same with more. */
  lemma {:induction false} LocationMoreFuel(p: Program, cfaOn: bool, list: LocationList, pc: Word, n: nat, m: nat)
    requires n <= m
    ensures Refines(EvalLocation(p, cfaOn, list, pc, n), EvalLocation(p, cfaOn, list, pc, m))
    decreases n, 4, 0
  {
    match Select(p, list, pc) {
      case None =>
      case Some(ops) => OpsMoreFuel(p, cfaOn, ops, pc, n, m);
    }
  }

  lemma {:induction false} RegMoreFuel(
        p: Program, cfaOn: bool, isCfa: bool, pc: Word, info: FdeInfo, cfa: Word, n: nat, m: nat)
    requires n <= m
    ensures Refines(GetReg(p, cfaOn, isCfa, pc, info, cfa, n), GetReg(p, cfaOn, isCfa, pc, info, cfa, m))
    decreases n, 1, 0
  {
    if info.block.Some? {
      OpsMoreFuel(p, cfaOn, info.block.value, pc, n, m);
    }
  }

  lemma {:induction false} ColumnsMoreFuel(p: Program, cfaOn: bool, f: Fde, pc: Word, cfa: Word, x: nat, n: nat, m: nat)
    requires n <= m
    ensures Refines(OtherColumns(p, cfaOn, f, pc, cfa, x, n), OtherColumns(p, cfaOn, f, pc, cfa, x, m))
    decreases n, 2, REGISTER_COLUMNS - x
  {
    if x < REGISTER_COLUMNS {
      if f.regInfo(x, pc).Some? {
        RegMoreFuel(p, cfaOn, false, pc, f.regInfo(x, pc).value, cfa, n, m);
      }
      ColumnsMoreFuel(p, cfaOn, f, pc, cfa, x + 1, n, m);
    }
  }

  lemma {:induction false} StepRowMoreFuel(p: Program, cfaOn: bool, f: Fde, at: Word, cfa: Word, n: nat, m: nat)
    requires n <= m && at < f.high
    ensures var step := StepRow(p, cfaOn, f, at, cfa, n);
      step == Ended(Stuck) || step == StepRow(p, cfaOn, f, at, cfa, m)
    decreases n, 3, 0
  {
    if f.cfaInfo(at).Some? {
      var info := f.cfaInfo(at).value;
      RegMoreFuel(p, cfaOn, true, at, info, 0, n, m);
      var got := GetReg(p, cfaOn, true, at, info, 0, n);
      if got.Returned? {
        ColumnsMoreFuel(p, cfaOn, f, RowEnd(info, at), got.value, 0, n, m);
      }
    }
  }

  lemma {:induction false} WalkMoreFuel(p: Program, cfaOn: bool, f: Fde, at: Word, cfa: Word, n: nat, m: nat)
    requires n <= m
    ensures Refines(Walk(p, cfaOn, f, at, cfa, n), Walk(p, cfaOn, f, at, cfa, m))
    decreases n, 4, f.high - at
  {
    if at < f.high {
      StepRowMoreFuel(p, cfaOn, f, at, cfa, n, m);
      match StepRow(p, cfaOn, f, at, cfa, n) {
        case Ended(_) =>
        case Onward(next, v) => WalkMoreFuel(p, cfaOn, f, next, v, n, m);
      }
    }
  }

  lemma {:induction false} CfaMoreFuel(p: Program, cfaOn: bool, pc: Word, n: nat, m: nat)
    requires n <= m
    ensures Refines(GetCfa(p, cfaOn, pc, n), GetCfa(p, cfaOn, pc, m))
    decreases n, 5, 0
  {
    if p.fdeAt(pc).Some? {
      var f := p.fdeAt(pc).value;
      WalkMoreFuel(p, cfaOn, f, f.low, MAX_ADDR, n, m);
    }
  }

  // ----- enough fuel -----

  predicate UsesFbreg(ops: seq<Op>) {
    exists k :: 0 <= k < |ops| && ops[k].code.Fbreg?
  }

  ghost predicate GoodOps(ops: seq<Op>, limit: nat) {
    |ops| <= limit && Exits(ops)
  }

  ghost predicate GoodList(list: LocationList, limit: nat) {
    forall k :: 0 <= k < |list| ==> GoodOps(list[k].ops, limit)
  }

  ghost predicate GoodInfo(info: Option<FdeInfo>, limit: nat) {
    info.Some? && info.value.block.Some? ==> GoodOps(info.value.block.value, limit)
  }

  ghost predicate GoodFde(f: Fde, limit: nat) {
    && (forall at :: GoodInfo(f.cfaInfo(at), limit))
    && (forall x, at :: GoodInfo(f.regInfo(x, at), limit))
  }

  /** Every expression the providers can reach has a path that leaves it, as with forward branches,
      and at most `limit` operations, and no frame base uses fbreg. */
  ghost predicate GoodProgram(p: Program, limit: nat) {
    && (p.frameBase.Some? ==>
          && GoodList(p.frameBase.value, limit)
          && forall k :: 0 <= k < |p.frameBase.value| ==> !UsesFbreg(p.frameBase.value[k].ops))
    && forall pc :: p.fdeAt(pc).Some? ==> GoodFde(p.fdeAt(pc).value, limit)
  }

  /** The lexicographic measure, flattened: a present CFA provider counts twice. */
  function Rank(cfaOn: bool, usesFbreg: bool): nat {
    (if cfaOn then 2 else 0) + if usesFbreg then 1 else 0
  }

  lemma {:induction false} OpsReturn(p: Program, cfaOn: bool, ops: seq<Op>, pc: Word, limit: nat, fuel: nat)
    requires GoodProgram(p, limit) && GoodOps(ops, limit)
    requires fuel > limit + Rank(cfaOn, UsesFbreg(ops))
    ensures EvalOps(p, cfaOn, ops, pc, fuel) != Stuck
    decreases Rank(cfaOn, UsesFbreg(ops)), 0, 0
  {
    var env := EnvAt(p, cfaOn, pc, fuel - 1);
    if UsesFbreg(ops) && p.frameBase.Some? {
      assert env.frameBase == Some(EvalLocation(p, cfaOn, p.frameBase.value, pc, fuel - 1));
      SelectIsFirst(p, p.frameBase.value, pc);
      match Select(p, p.frameBase.value, pc) {
        case None =>
        case Some(base) => OpsReturn(p, cfaOn, base, pc, limit, fuel - 1);
      }
    }
    if cfaOn {
      CfaReturns(p, false, pc, limit, fuel - 1);
    }
    assert Replies(ops, env);
    ExitingStops(ops, env, [], fuel);
  }

  lemma {:induction false} RegReturns(
        p: Program, cfaOn: bool, isCfa: bool, pc: Word, info: FdeInfo, cfa: Word, limit: nat, fuel: nat)
    requires GoodProgram(p, limit) && GoodInfo(Some(info), limit) && fuel > limit + Rank(cfaOn, true)
    ensures GetReg(p, cfaOn, isCfa, pc, info, cfa, fuel) != Stuck
    decreases Rank(cfaOn, true), 1, 0
  {
    if info.block.Some? {
      OpsReturn(p, cfaOn, info.block.value, pc, limit, fuel);
    }
  }

  lemma {:induction false} ColumnsReturn(
        p: Program, cfaOn: bool, f: Fde, pc: Word, cfa: Word, x: nat, limit: nat, fuel: nat)
    requires GoodProgram(p, limit) && GoodFde(f, limit) && fuel > limit + Rank(cfaOn, true)
    ensures OtherColumns(p, cfaOn, f, pc, cfa, x, fuel) != Stuck
    decreases Rank(cfaOn, true), 2, REGISTER_COLUMNS - x
  {
    if x < REGISTER_COLUMNS {
      if f.regInfo(x, pc).Some? {
        assert GoodInfo(f.regInfo(x, pc), limit);
        RegReturns(p, cfaOn, false, pc, f.regInfo(x, pc).value, cfa, limit, fuel);
      }
      ColumnsReturn(p, cfaOn, f, pc, cfa, x + 1, limit, fuel);
    }
  }

  lemma {:induction false} StepRowReturns(p: Program, cfaOn: bool, f: Fde, at: Word, cfa: Word, limit: nat, fuel: nat)
    requires GoodProgram(p, limit) && GoodFde(f, limit) && fuel > limit + Rank(cfaOn, true) && at < f.high
    ensures StepRow(p, cfaOn, f, at, cfa, fuel) != Ended(Stuck)
    decreases Rank(cfaOn, true), 3, 0
  {
    if f.cfaInfo(at).Some? {
      var info := f.cfaInfo(at).value;
      assert GoodInfo(f.cfaInfo(at), limit);
      RegReturns(p, cfaOn, true, at, info, 0, limit, fuel);
      var got := GetReg(p, cfaOn, true, at, info, 0, fuel);
      if got.Returned? {
        ColumnsReturn(p, cfaOn, f, RowEnd(info, at), got.value, 0, limit, fuel);
      }
    }
  }

  lemma {:induction false} WalkReturns(p: Program, cfaOn: bool, f: Fde, at: Word, cfa: Word, limit: nat, fuel: nat)
    requires GoodProgram(p, limit) && GoodFde(f, limit) && fuel > limit + Rank(cfaOn, true)
    ensures Walk(p, cfaOn, f, at, cfa, fuel) != Stuck
    decreases Rank(cfaOn, true), 4, f.high - at
  {
    if at < f.high {
      StepRowReturns(p, cfaOn, f, at, cfa, limit, fuel);
      match StepRow(p, cfaOn, f, at, cfa, fuel) {
        case Ended(_) =>
        case Onward(next, v) => WalkReturns(p, cfaOn, f, next, v, limit, fuel);
      }
    }
  }

  lemma {:induction false} CfaReturns(p: Program, cfaOn: bool, pc: Word, limit: nat, fuel: nat)
    requires GoodProgram(p, limit) && fuel > limit + Rank(cfaOn, true)
    ensures GetCfa(p, cfaOn, pc, fuel) != Stuck
    decreases Rank(cfaOn, true), 5, 0
  {
    if p.fdeAt(pc).Some? {
      var f := p.fdeAt(pc).value;
      WalkReturns(p, cfaOn, f, f.low, MAX_ADDR, limit, fuel);
    }
  }

  /** Evaluating any variable's location returns: four units more than the longest expression
      are enough, and any larger amount gives the same answer. */
  lemma VariableReturns(p: Program, list: LocationList, pc: Word, limit: nat, fuel: nat)
    requires GoodProgram(p, limit) && GoodList(list, limit) && fuel >= limit + 4
    ensures EvalLocation(p, true, list, pc, fuel) != Stuck
    ensures EvalLocation(p, true, list, pc, fuel) == EvalLocation(p, true, list, pc, limit + 4)
  {
    SelectIsFirst(p, list, pc);
    match Select(p, list, pc) {
      case None =>
      case Some(ops) => OpsReturn(p, true, ops, pc, limit, limit + 4);
    }
    LocationMoreFuel(p, true, list, pc, limit + 4, fuel);
  }

  // ----- a frame base that asks for itself -----

  /** The frame base evaluated with an fbreg that never answers. */
  function BlindFrameBase(p: Program, cfaOn: bool, pc: Word, fuel: nat): Reply<Result>
    requires p.frameBase.Some?
  {
    match Select(p, p.frameBase.value, pc)
    case None => Returned(Error(AddressInvalid, 0))
    case Some(ops) =>
      if fuel == 0 then Stuck
      else Evaluate(ops, EnvAt(p, cfaOn, pc, fuel - 1).(frameBase := Some(Stuck)), [], fuel).reply
  }

  /** Evaluating a frame base is, for every amount of fuel, evaluating it with an fbreg that never
      answers: an fbreg inside it asks the same question again. So it returns exactly when it
      can without reaching an fbreg. */
  lemma {:induction false} FrameBaseCannotUseItself(p: Program, cfaOn: bool, pc: Word, fuel: nat)
    requires p.frameBase.Some?
    ensures EvalLocation(p, cfaOn, p.frameBase.value, pc, fuel) == BlindFrameBase(p, cfaOn, pc, fuel)
    decreases fuel
  {
    var list := p.frameBase.value;
    match Select(p, list, pc) {
      case None =>
      case Some(ops) =>
        if fuel > 0 {
          FrameBaseCannotUseItself(p, cfaOn, pc, fuel - 1);
          var env := EnvAt(p, cfaOn, pc, fuel - 1);
          var blind := env.(frameBase := Some(Stuck));
          RunRefines(ops, blind, env, 0, 0, [], fuel, fuel);
          if env.frameBase != Some(Stuck) {
            // An answer with less fuel is, by the induction, one that never needed fbreg.
            EnvMoreFuel(p, cfaOn, pc, fuel - 2, fuel - 1);
            var earlier := EnvAt(p, cfaOn, pc, fuel - 2).(frameBase := Some(Stuck));
            RunRefines(ops, earlier, blind, 0, 0, [], fuel - 1, fuel);
          }
        }
    }
  }

  /** A frame base that starts with fbreg never returns. */
  lemma FbregFrameBaseNeverReturns(p: Program, cfaOn: bool, pc: Word, ops: seq<Op>, fuel: nat)
    requires p.frameBase.Some? && Select(p, p.frameBase.value, pc) == Some(ops)
    requires ops != [] && ops[0].code.Fbreg?
    ensures EvalLocation(p, cfaOn, p.frameBase.value, pc, fuel) == Stuck
  {
    FrameBaseCannotUseItself(p, cfaOn, pc, fuel);
    if fuel > 0 {
      var env := EnvAt(p, cfaOn, pc, fuel - 1).(frameBase := Some(Stuck));
      assert Step(ops, env, 0, []) == Halt(Stuck, []);
    }
  }

  /** The CFA provider is bound to a context without one: inside a CFA rule, whenever a run reaches
      call_frame_cfa, the rule's expression fails there instead of recursing. */
  lemma CfaRuleCannotUseCfa(p: Program, ops: seq<Op>, pc: Word, fuel: nat, n: nat)
    requires ops != [] && n < fuel
    requires After(ops, EnvAt(p, false, pc, fuel - 1), 0, [], n).Some?
    requires var i := After(ops, EnvAt(p, false, pc, fuel - 1), 0, [], n).value.0;
      i < |ops| && ops[i].code.CallFrameCfa?
    ensures var i := After(ops, EnvAt(p, false, pc, fuel - 1), 0, [], n).value.0;
      EvalOps(p, false, ops, pc, fuel) == Returned(Error(CfaInvalid, ops[i].off))
  {
    var env := EnvAt(p, false, pc, fuel - 1);
    var (i, s) := After(ops, env, 0, [], n).value;
    var last := RunReaches(ops, env, 0, 0, [], fuel, n);
    assert Step(ops, env, i, s) == Halt(Returned(Error(CfaInvalid, ops[i].off)), s);
  }
}

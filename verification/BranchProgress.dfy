/** When a run ends: forward branches bound it by the number of operations, and a branch back
    over no-ops never ends. */
module BranchProgress {
  import opened Words
  import opened Expression
  import OperationLaws

  predicate IsBranch(c: Code) {
    c.Skip? || c.Bra?
  }

  /** Every branch resumes later in the program than it stands. */
  ghost predicate Forward(ops: seq<Op>) {
    forall i {:trigger Landing(ops, i)} :: 0 <= i < |ops| && IsBranch(ops[i].code) ==> Landing(ops, i) > i
  }

  /** The providers the program asks return. */
  ghost predicate Replies(ops: seq<Op>, env: Env) {
    && (env.frameBase == Some(Stuck) ==> forall k :: 0 <= k < |ops| ==> !ops[k].code.Fbreg?)
    && (env.cfa == Some(Stuck) ==> forall k :: 0 <= k < |ops| ==> !ops[k].code.CallFrameCfa?)
  }

  lemma StepAdvances(ops: seq<Op>, env: Env, i: nat, s: Stack)
    requires Forward(ops) && i < |ops|
    ensures var o := Step(ops, env, i, s);
      match o case Next(j, _) => i < j <= |ops| case Halt(r, _) => Replies(ops, env) ==> r != Stuck
  {
    if IsBranch(ops[i].code) {
      assert Landing(ops, i) > i;
    }
  }

  lemma {:induction false} ForwardRunReturns(ops: seq<Op>, env: Env, i: nat, cur: Word, s: Stack, budget: nat)
    requires Forward(ops) && Replies(ops, env) && budget >= |ops| - i
    ensures Run(ops, env, i, cur, s, budget).reply != Stuck
    decreases budget
  {
    if i < |ops| {
      StepAdvances(ops, env, i, s);
      match Step(ops, env, i, s) {
        case Next(j, t) => ForwardRunReturns(ops, env, j, ops[i].off, t, budget - 1);
        case Halt(_, _) =>
      }
    }
  }

  /** A run that returned returns the same with any larger budget. */
  lemma {:induction false} BudgetMonotone(ops: seq<Op>, env: Env, i: nat, cur: Word, s: Stack, n: nat, m: nat)
    requires n <= m && Run(ops, env, i, cur, s, n).reply != Stuck
    ensures Run(ops, env, i, cur, s, m) == Run(ops, env, i, cur, s, n)
    decreases n
  {
    if i < |ops| {
      match Step(ops, env, i, s) {
        case Next(j, t) => BudgetMonotone(ops, env, j, ops[i].off, t, n - 1, m - 1);
        case Halt(_, _) =>
      }
    }
  }

  /** With forward branches `evaluate` stops within count() iterations, and the budget no longer
      matters from there on. */
  lemma ForwardStops(ops: seq<Op>, env: Env, s: Stack, budget: nat)
    requires Forward(ops) && Replies(ops, env) && budget >= |ops|
    ensures Evaluate(ops, env, s, budget).reply != Stuck
    ensures Evaluate(ops, env, s, budget) == Evaluate(ops, env, s, |ops|)
  {
    ForwardRunReturns(ops, env, 0, 0, s, |ops|);
    if ops != [] {
      BudgetMonotone(ops, env, 0, 0, s, |ops|, budget);
    }
  }

  /** Every operation index executes at most once: later states are at larger indices. */
  lemma {:induction false} IndicesIncrease(ops: seq<Op>, env: Env, i: nat, s: Stack, n: nat, m: nat)
    requires Forward(ops) && n < m && i < |ops| && After(ops, env, i, s, m).Some?
    ensures After(ops, env, i, s, n).Some?
    ensures i <= After(ops, env, i, s, n).value.0 < After(ops, env, i, s, m).value.0
    decreases m
  {
    StepAdvances(ops, env, i, s);
    var j, t := Step(ops, env, i, s).index, Step(ops, env, i, s).stack;
    if n > 0 {
      IndicesIncrease(ops, env, j, t, n - 1, m - 1);
    } else if m > 1 {
      IndicesIncrease(ops, env, j, t, 0, m - 1);
    }
  }

  /** Which branches go forward: with increasing offsets, exactly those whose target, reduced to 64
      bits, is not before the branch, and those that find no operation there. Where the target does
      not wrap that is a matter of the operand's sign. */
  lemma ForwardIff(ops: seq<Op>, i: nat)
    requires OperationLaws.Increasing(ops) && i < |ops|
    ensures Landing(ops, i) > i <==> TargetOffset(ops[i]) >= ops[i].off || FindOpIndex(ops, TargetOffset(ops[i])).None?
    ensures 0 <= ops[i].off + ToSigned16(ops[i].op1) < TWO64 ==>
      (TargetOffset(ops[i]) >= ops[i].off <==> ToSigned16(ops[i].op1) >= 0)
  {
    LandingSide(ops, i, TargetOffset(ops[i]));
    TargetSign(ops[i]);
  }

  lemma LandingSide(ops: seq<Op>, i: nat, off: Word)
    requires OperationLaws.Increasing(ops) && i < |ops| && off == TargetOffset(ops[i])
    ensures Landing(ops, i) > i <==> off >= ops[i].off || FindOpIndex(ops, off).None?
  {
    FoundSide(ops, i, off);
  }

  /** The operation found at an offset is at or after index i exactly when the offset is. */
  lemma FoundSide(ops: seq<Op>, i: nat, off: Word)
    requires OperationLaws.Increasing(ops) && i < |ops|
    ensures FindOpIndex(ops, off).Some? ==> (FindOpIndex(ops, off).value >= i <==> off >= ops[i].off)
  {
    var found := FindOpIndex(ops, off);
    if found.Some? {
      var k := found.value;
      assert k < i ==> ops[k].off < ops[i].off;
      assert i < k ==> ops[i].off < ops[k].off;
    }
  }

  lemma TargetSign(a: Op)
    ensures 0 <= a.off + ToSigned16(a.op1) < TWO64 ==> (TargetOffset(a) >= a.off <==> ToSigned16(a.op1) >= 0)
  {
  }

  /** A skip back to itself over no-ops: no budget is enough, from any index of the loop. */
  lemma {:induction false} BackwardSkipNeverReturns(
        ops: seq<Op>, env: Env, i: nat, at: nat, cur: Word, s: Stack, budget: nat)
    requires i < |ops| && ops[i].code.Skip? && Landing(ops, i) <= at <= i
    requires forall k :: Landing(ops, i) <= k < i ==> ops[k].code.Nop?
    ensures Run(ops, env, at, cur, s, budget) == Answer(Stuck, s)
    decreases budget
  {
    if budget > 0 {
      var next := if at == i then Landing(ops, i) else at + 1;
      assert Step(ops, env, at, s) == Next(next, s);
      BackwardSkipNeverReturns(ops, env, i, next, ops[at].off, s, budget - 1);
    }
  }

  /** The smallest such program, nop ; skip -1: the skip finds the nop, and the loop's increment
      brings control back to the skip. */
  lemma SpinExample(ops: seq<Op>, env: Env, s: Stack, budget: nat)
    requires ops == [Op(Nop, 0, 0), Op(Skip, 0xFFFF, 1)]
    ensures Evaluate(ops, env, s, budget) == Answer(Stuck, s)
  {
    assert ToSigned16(0xFFFF) == -1 && TargetOffset(ops[1]) == 0;
    OperationLaws.FindInverts(ops, 0);
    if budget > 0 {
      assert Step(ops, env, 0, s) == Next(1, s);
      BackwardSkipNeverReturns(ops, env, 1, 1, 0, s, budget - 1);
    }
  }
}

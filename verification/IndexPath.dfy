/** Which runs end. Both branches jump whatever the stack holds, so the indices that a run goes
    through depend on the operations alone: the run leaves the list within as many steps as it has
    operations, or never does. */
module IndexPath {
  import opened Words
  import opened Expression
  import opened BranchProgress
  import opened StackDiscipline
  import OperationLaws

  /** The index after one operation that goes on. */
  function Follow(ops: seq<Op>, i: nat): (j: nat)
    requires i < |ops|
    ensures j <= |ops|
  {
    if IsBranch(ops[i].code) then Landing(ops, i) else i + 1
  }

  /** The index after n operations; past the end it stays. */
  function Path(ops: seq<Op>, i: nat, n: nat): nat
    decreases n
  {
    if n == 0 || i >= |ops| then i else Path(ops, Follow(ops, i), n - 1)
  }

  /** The path from the start leaves the list. */
  predicate Exits(ops: seq<Op>) {
    Path(ops, 0, |ops|) >= |ops|
  }

  /** Every state of every run is on the path, whatever the context and the stack. */
  lemma {:induction false} AfterFollowsPath(ops: seq<Op>, env: Env, i: nat, s: Stack, n: nat)
    ensures After(ops, env, i, s, n).Some? ==> After(ops, env, i, s, n).value.0 == Path(ops, i, n)
    decreases n
  {
    if n > 0 && i < |ops| {
      match Step(ops, env, i, s) {
        case Next(j, t) => AfterFollowsPath(ops, env, j, t, n - 1);
        case Halt(_, _) =>
      }
    }
  }

  // ----- a path leaves soon or never -----

  lemma {:induction false} PathSplit(ops: seq<Op>, i: nat, a: nat, b: nat)
    ensures Path(ops, i, a + b) == Path(ops, Path(ops, i, a), b)
    decreases a
  {
    if a > 0 && i < |ops| {
      PathSplit(ops, Follow(ops, i), a - 1, b);
    }
  }

  /** Of more numbers below m than m, two are equal. */
  lemma {:induction false} Pigeonhole(f: seq<nat>, m: nat) returns (a: nat, b: nat)
    requires |f| > m && forall k :: 0 <= k < |f| ==> f[k] < m
    ensures a < b < |f| && f[a] == f[b]
    decreases m
  {
    assert f[0] < m;
    if k :| 0 <= k < |f| && f[k] == m - 1 {
      if l :| 0 <= l < |f| && l != k && f[l] == m - 1 {
        return if k < l then k else l, if k < l then l else k;
      }
      var rest := f[..k] + f[k + 1..];
      assert forall l :: 0 <= l < |rest| ==> rest[l] == f[if l < k then l else l + 1] < m - 1;
      a, b := Pigeonhole(rest, m - 1);
      a, b := if a < k then a else a + 1, if b < k then b else b + 1;
    } else {
      a, b := Pigeonhole(f, m - 1);
    }
  }

  /** A path that comes back to x after c steps never leaves. */
  lemma {:induction false} CycleStays(ops: seq<Op>, x: nat, c: nat, t: nat)
    requires c > 0 && Path(ops, x, c) == x && forall k: nat :: k < c ==> Path(ops, x, k) < |ops|
    ensures Path(ops, x, t) < |ops|
    decreases t
  {
    if t >= c {
      PathSplit(ops, x, c, t - c);
      CycleStays(ops, x, c, t - c);
    }
  }

  /** A path that stays in the list up to a step and is then where it was before never leaves. */
  lemma RepeatStays(ops: seq<Op>, i: nat, a: nat, b: nat, n: nat)
    requires a < b <= n && Path(ops, i, a) == Path(ops, i, b)
    requires forall k: nat :: k <= b ==> Path(ops, i, k) < |ops|
    ensures Path(ops, i, n) < |ops|
  {
    var x := Path(ops, i, a);
    forall k: nat | k <= b - a ensures Path(ops, x, k) == Path(ops, i, a + k) < |ops| {
      PathSplit(ops, i, a, k);
      assert a + k <= b;
    }
    PathSplit(ops, i, a, n - a);
    CycleStays(ops, x, b - a, n - a);
  }

  /** A path that leaves the list at all does so within as many steps as there are operations. */
  lemma LeavesSoonOrNever(ops: seq<Op>, i: nat, n: nat)
    requires Path(ops, i, n) >= |ops|
    ensures Path(ops, i, |ops|) >= |ops|
  {
    if n <= |ops| {
      PathSplit(ops, i, n, |ops| - n);
    } else if Path(ops, i, |ops|) < |ops| {
      var trail := seq(|ops| + 1, k requires 0 <= k => Path(ops, i, k));
      forall k | 0 <= k <= |ops| ensures trail[k] == Path(ops, i, k) < |ops| {
        PathSplit(ops, i, k, |ops| - k);
      }
      var a, b := Pigeonhole(trail, |ops|);
      RepeatStays(ops, i, a, b, n);
      assert false;
    }
  }

  // ----- how a run ends -----

  /** The run has left the list after exactly n operations. */
  ghost predicate Left(ops: seq<Op>, env: Env, i: nat, s: Stack, n: nat) {
    After(ops, env, i, s, n).Some? && After(ops, env, i, s, n).value.0 >= |ops|
  }

  /** The operation after the first n ends the run with an answer. */
  ghost predicate HaltsAt(ops: seq<Op>, env: Env, i: nat, s: Stack, n: nat) {
    && After(ops, env, i, s, n).Some?
    && var (j, t) := After(ops, env, i, s, n).value;
    && j < |ops| && Step(ops, env, j, t).Halt? && Step(ops, env, j, t).reply != Stuck
  }

  /** A run gets to every state that `After` names, with the budget that is left. */
  lemma {:induction false} RunReaches(
        ops: seq<Op>, env: Env, i: nat, cur: Word, s: Stack, budget: nat, n: nat) returns (last: Word)
    requires n <= budget && After(ops, env, i, s, n).Some?
    ensures var (j, t) := After(ops, env, i, s, n).value;
      Run(ops, env, i, cur, s, budget) == Run(ops, env, j, last, t, budget - n)
    decreases n
  {
    if n == 0 {
      last := cur;
    } else {
      match Step(ops, env, i, s) {
        case Next(j, t) => last := RunReaches(ops, env, j, ops[i].off, t, budget - 1, n - 1);
        case Halt(_, _) => assert false;
      }
    }
  }

  /** A run that answers has left the list or met an operation that answers. */
  lemma {:induction false} AnswerComesFrom(
        ops: seq<Op>, env: Env, i: nat, cur: Word, s: Stack, budget: nat) returns (n: nat)
    requires Run(ops, env, i, cur, s, budget).reply != Stuck
    ensures n <= budget && (Left(ops, env, i, s, n) || (n < budget && HaltsAt(ops, env, i, s, n)))
    decreases budget
  {
    n := 0;
    if i < |ops| {
      match Step(ops, env, i, s) {
        case Next(j, t) =>
          var m := AnswerComesFrom(ops, env, j, ops[i].off, t, budget - 1);
          n := m + 1;
          AfterNext(ops, env, i, s, m);
        case Halt(_, _) =>
          assert After(ops, env, i, s, 0) == Some((i, s));
      }
    }
  }

  lemma LeftIsShort(ops: seq<Op>, env: Env, i: nat, s: Stack, n: nat)
    requires Left(ops, env, i, s, n)
    ensures n <= |ops|
    ensures Path(ops, i, |ops|) >= |ops|
  {
    AfterFollowsPath(ops, env, i, s, n);
    LeavesSoonOrNever(ops, i, n);
    if n > |ops| {
      AfterEarlier(ops, env, i, s, |ops|, n);
      AfterFollowsPath(ops, env, i, s, |ops|);
    }
  }

  /** A run that gets to n operations has not left the list before. */
  lemma {:induction false} AfterEarlier(ops: seq<Op>, env: Env, i: nat, s: Stack, m: nat, n: nat)
    requires m < n && After(ops, env, i, s, n).Some?
    ensures After(ops, env, i, s, m).Some? && After(ops, env, i, s, m).value.0 < |ops|
    decreases m
  {
    if m > 0 {
      match Step(ops, env, i, s) {
        case Next(j, t) => AfterEarlier(ops, env, j, t, m - 1, n - 1);
        case Halt(_, _) => assert false;
      }
    }
  }

  /** For every program, context, stack and budget: the run answers exactly when it has left the
      list, which it does within |ops| steps, or an operation answered within the budget. */
  lemma AnswersIff(ops: seq<Op>, env: Env, s: Stack, budget: nat)
    requires ops != []
    ensures Evaluate(ops, env, s, budget).reply != Stuck <==>
      || (exists n: nat :: n <= budget && n <= |ops| && Left(ops, env, 0, s, n))
      || (exists n: nat :: n < budget && HaltsAt(ops, env, 0, s, n))
  {
    if Evaluate(ops, env, s, budget).reply != Stuck {
      var n := AnswerComesFrom(ops, env, 0, 0, s, budget);
      if Left(ops, env, 0, s, n) {
        LeftIsShort(ops, env, 0, s, n);
      }
    }
    forall n: nat | n <= budget && (Left(ops, env, 0, s, n) || (n < budget && HaltsAt(ops, env, 0, s, n)))
      ensures Evaluate(ops, env, s, budget).reply != Stuck
    {
      var last := RunReaches(ops, env, 0, 0, s, budget, n);
    }
  }

  /** A program whose path never leaves the list answers only through one of its operations. */
  lemma NoExitEndsByHalting(ops: seq<Op>, env: Env, s: Stack, budget: nat)
    requires ops != [] && !Exits(ops)
    ensures Evaluate(ops, env, s, budget).reply != Stuck <==> exists n: nat :: n < budget && HaltsAt(ops, env, 0, s, n)
  {
    AnswersIff(ops, env, s, budget);
    forall n: nat | Left(ops, env, 0, s, n) ensures false {
      LeftIsShort(ops, env, 0, s, n);
    }
  }

  // ----- programs whose path leaves -----

  /** With providers that return, a run along a path that leaves answers by the time it has left. */
  lemma {:induction false} LeavingRunReturns(
      ops: seq<Op>, env: Env, i: nat, cur: Word, s: Stack, n: nat, budget: nat)
    requires Path(ops, i, n) >= |ops| && Replies(ops, env) && budget >= n
    ensures Run(ops, env, i, cur, s, budget).reply != Stuck
    decreases n
  {
    if i < |ops| {
      match Step(ops, env, i, s) {
        case Next(j, t) => LeavingRunReturns(ops, env, j, ops[i].off, t, n - 1, budget - 1);
        case Halt(_, _) =>
      }
    }
  }

  /** Forward branches are one way to leave. */
  lemma {:induction false} ForwardLeaves(ops: seq<Op>, i: nat, n: nat)
    requires Forward(ops)
    ensures i + n >= |ops| ==> Path(ops, i, n) >= |ops|
    decreases n
  {
    if n > 0 && i < |ops| {
      assert Landing(ops, i) > i || !IsBranch(ops[i].code);
      ForwardLeaves(ops, Follow(ops, i), n - 1);
    }
  }

  lemma ForwardExits(ops: seq<Op>)
    requires Forward(ops)
    ensures Exits(ops)
  {
    ForwardLeaves(ops, 0, |ops|);
  }

  /** A program whose path leaves, backward branches or not, answers within |ops| steps, and a larger
      budget changes nothing. */
  lemma ExitingStops(ops: seq<Op>, env: Env, s: Stack, budget: nat)
    requires Exits(ops) && Replies(ops, env) && budget >= |ops|
    ensures Evaluate(ops, env, s, budget).reply != Stuck
    ensures Evaluate(ops, env, s, budget) == Evaluate(ops, env, s, |ops|)
  {
    if ops != [] {
      LeavingRunReturns(ops, env, 0, 0, s, |ops|, |ops|);
      BudgetMonotone(ops, env, 0, 0, s, |ops|, budget);
    }
  }

  // ----- programs whose operations all go on -----

  /** The operation goes on wherever its operands are present. */
  predicate GoesOn(env: Env, a: Op) {
    match a.code
    case Lit(_) | Const | Nop | Dup | Drop | Over | Swap | Rot | Unary(_) | Compare(_) | Skip | Bra => true
    case Pick => a.op1 < TWO32
    case Binary(b) => !b.Div? && !b.Mod? && !b.Shl? && !b.Shr? && !b.Shra?
    case Breg(n) => ReadRegister(env, n).Some?
    case Bregx => ReadRegister(env, a.op1 % 0x1_0000).Some?
    case Fbreg => env.frameBase.Some? && env.frameBase.value.Returned? && env.frameBase.value.value.Valid()
    case CallFrameCfa => env.cfa.Some? && env.cfa.value.Returned?
    case _ => false
  }

  ghost predicate AllGoOn(ops: seq<Op>, env: Env) {
    forall k :: 0 <= k < |ops| ==> GoesOn(env, ops[k])
  }

  lemma GoingOnSteps(ops: seq<Op>, env: Env, i: nat, s: Stack)
    requires i < |ops| && GoesOn(env, ops[i]) && |s| >= Arity(ops[i])
    ensures Step(ops, env, i, s).Next? && Step(ops, env, i, s).index == Follow(ops, i)
  {
  }

  lemma {:induction false} AfterOneMore(ops: seq<Op>, env: Env, i: nat, s: Stack, n: nat)
    requires After(ops, env, i, s, n).Some? && After(ops, env, i, s, n).value.0 < |ops|
    requires var (j, t) := After(ops, env, i, s, n).value; Step(ops, env, j, t).Next?
    ensures After(ops, env, i, s, n + 1).Some?
    decreases n
  {
    if n > 0 {
      match Step(ops, env, i, s) {
        case Next(j, t) => AfterOneMore(ops, env, j, t, n - 1);
        case Halt(_, _) => assert false;
      }
    }
  }

  /** Every state that a run reaches has the operands of its operation, and something to return at
      the end. */
  ghost predicate Supplied(ops: seq<Op>, env: Env, s: Stack) {
    forall n: nat :: After(ops, env, 0, s, n).Some? ==> HasOperands(ops, After(ops, env, 0, s, n).value)
  }

  predicate HasOperands(ops: seq<Op>, state: (nat, Stack)) {
    if state.0 < |ops| then |state.1| >= Arity(ops[state.0]) else state.1 != []
  }

  lemma LabelledIsSupplied(ops: seq<Op>, depth: seq<nat>, env: Env, s0: Stack)
    requires ops != [] && Labelled(ops, depth)
    ensures Supplied(ops, env, s0)
  {
    forall n: nat | After(ops, env, 0, s0, n).Some? ensures HasOperands(ops, After(ops, env, 0, s0, n).value) {
      LabelledStates(ops, depth, env, s0, 0, s0, n);
    }
  }

  lemma {:induction false} SuppliedGoesOn(ops: seq<Op>, env: Env, s: Stack, n: nat)
    requires ops != [] && Supplied(ops, env, s) && AllGoOn(ops, env)
    requires n > 0 ==> Path(ops, 0, n - 1) < |ops|
    ensures After(ops, env, 0, s, n).Some?
    decreases n
  {
    if n > 0 {
      if n > 1 {
        PathSplit(ops, 0, n - 2, 1);
      }
      SuppliedGoesOn(ops, env, s, n - 1);
      AfterFollowsPath(ops, env, 0, s, n - 1);
      var (j, t) := After(ops, env, 0, s, n - 1).value;
      GoingOnSteps(ops, env, j, t);
      AfterOneMore(ops, env, 0, s, n - 1);
    }
  }

  /** How many steps a path that leaves needs. */
  lemma {:induction false} ExitTime(ops: seq<Op>, i: nat, n: nat) returns (m: nat)
    requires Path(ops, i, n) >= |ops|
    ensures m <= n && Path(ops, i, m) >= |ops| && (m > 0 ==> Path(ops, i, m - 1) < |ops|)
    decreases n
  {
    m := 0;
    if i < |ops| {
      m := ExitTime(ops, Follow(ops, i), n - 1);
      m := m + 1;
    }
  }

  /** Termination, exactly: where operands are never missing and the operations all go on, a run
      answers if and only if the path, which can be computed from the operations, leaves the list;
      it then answers with an address within |ops| steps, and otherwise it runs for ever. */
  lemma SuppliedReturnsIff(ops: seq<Op>, env: Env, s: Stack, budget: nat)
    requires ops != [] && Supplied(ops, env, s) && AllGoOn(ops, env)
    ensures Exits(ops) && budget >= |ops| ==>
      var r := Evaluate(ops, env, s, budget).reply; r.Returned? && r.value.Address?
    ensures !Exits(ops) ==> Evaluate(ops, env, s, budget).reply == Stuck
  {
    if Exits(ops) {
      var m := ExitTime(ops, 0, |ops|);
      SuppliedGoesOn(ops, env, s, m);
      AfterFollowsPath(ops, env, 0, s, m);
      if budget >= |ops| {
        var last := RunReaches(ops, env, 0, 0, s, budget, m);
      }
    } else {
      NoExitEndsByHalting(ops, env, s, budget);
      forall n: nat | HaltsAt(ops, env, 0, s, n) ensures false {
        var (j, t) := After(ops, env, 0, s, n).value;
        GoingOnSteps(ops, env, j, t);
      }
    }
  }

  /** So it is for a labelled program, on every stack. */
  lemma LabelledReturnsIff(ops: seq<Op>, depth: seq<nat>, env: Env, s0: Stack, budget: nat)
    requires ops != [] && Labelled(ops, depth) && AllGoOn(ops, env)
    ensures Exits(ops) && budget >= |ops| ==>
      var r := Evaluate(ops, env, s0, budget).reply; r.Returned? && r.value.Address?
    ensures !Exits(ops) ==> Evaluate(ops, env, s0, budget).reply == Stuck
  {
    LabelledIsSupplied(ops, depth, env, s0);
    SuppliedReturnsIff(ops, env, s0, budget);
  }

  predicate IsLoop(ops: seq<Op>) {
    ops == [Op(Nop, 0, 0), Op(Lit(1), 0, 1), Op(Drop, 0, 2), Op(Skip, 0xFFFD, 3)]
  }

  lemma LoopLands(ops: seq<Op>)
    requires IsLoop(ops)
    ensures Landing(ops, 3) == 1
  {
    assert TargetOffset(ops[3]) == 0;
    OperationLaws.FindInverts(ops, 0);
  }

  lemma LoopPath(ops: seq<Op>)
    requires IsLoop(ops)
    ensures !Exits(ops)
  {
    LoopLands(ops);
    assert Path(ops, 0, 4) == Path(ops, 1, 3) == Path(ops, 2, 2) == Path(ops, 3, 1) == Path(ops, 1, 0) == 1;
  }

  lemma LoopDepths(ops: seq<Op>)
    requires IsLoop(ops)
    ensures Labelled(ops, [0, 0, 1, 0])
  {
    LoopLands(ops);
  }

  /** nop ; lit1 ; drop ; skip -3: labelled, and stuck with any budget. The skip finds the nop, and
      control resumes at the lit1. */
  lemma LoopExample(ops: seq<Op>, env: Env, s0: Stack, budget: nat)
    requires IsLoop(ops)
    ensures Evaluate(ops, env, s0, budget).reply == Stuck
  {
    LoopPath(ops);
    LoopDepths(ops);
    LabelledReturnsIff(ops, [0, 0, 1, 0], env, s0, budget);
  }
}

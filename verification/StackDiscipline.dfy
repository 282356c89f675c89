/** What a run can see and change of its stack: locality, composition, and depth labellings. */
module StackDiscipline {
  import opened Words
  import opened Expression

  // ----- locality -----

  function Under(base: Stack, e: Effect): Effect {
    match e
    case Done(t) => Done(base + t)
    case Stop(r, t) => Stop(r, base + t)
  }

  lemma PopUnder(base: Stack, s: Stack, n: nat)
    requires n <= |s|
    ensures Pop(base + s, n) == base + Pop(s, n)
    ensures forall k :: 0 <= k < |s| ==> Peek(base + s, k) == Peek(s, k)
    ensures s != [] ==> Top(base + s) == Top(s)
  {
  }

  /** An operation that finds its operands neither reads nor changes the entries below them. */
  lemma ApplyIsLocal(a: Op, first: Word, env: Env, base: Stack, s: Stack)
    requires !a.code.Skip? && !a.code.Bra? && |s| >= Arity(a)
    ensures Apply(a, first, env, base + s) == Under(base, Apply(a, first, env, s))
  {
    match a.code {
      case Deref => DerefIsLocal(a, env, base, s);
      case DerefSize => DerefIsLocal(a, env, base, s);
      case Dup | Drop | Pick | Over | Swap | Rot => ShuffleIsLocal(a, base, s);
      case Unary(_) | Binary(_) | Compare(_) => ArithmeticIsLocal(a, base, s);
      case StackValue => PopUnder(base, s, 1);
      case _ => PushIsLocal(a, first, env, base, s);
    }
  }

  lemma PushIsLocal(a: Op, first: Word, env: Env, base: Stack, s: Stack)
    requires a.code.Reg? || a.code.Regx? || a.code.Lit? || a.code.Const? || a.code.Fbreg? || a.code.Breg?
      || a.code.Bregx? || a.code.CallFrameCfa? || a.code.Nop? || a.code.Unsupported? || a.code.Illegal?
    ensures Apply(a, first, env, base + s) == Under(base, Apply(a, first, env, s))
  {
    assert forall v: SWord :: base + s + [v] == base + (s + [v]);
  }

  lemma ArithmeticIsLocal(a: Op, base: Stack, s: Stack)
    requires |s| >= Arity(a)
    ensures a.code.Unary? ==> ApplyUnary(a, base + s) == Under(base, ApplyUnary(a, s))
    ensures a.code.Binary? ==> ApplyBinary(a, base + s) == Under(base, ApplyBinary(a, s))
    ensures a.code.Compare? ==> ApplyCompare(a, base + s) == Under(base, ApplyCompare(a, s))
  {
    if a.code.Unary? {
      PopUnder(base, s, 1);
      AppendUnder(base, Pop(s), [UnaryValue(a.code.u, Top(s), a.op1)]);
    } else if a.code.Binary? || a.code.Compare? {
      PopUnder(base, s, 2);
      assert forall v: SWord :: base + Pop(s, 2) + [v] == base + (Pop(s, 2) + [v]);
    }
  }

  lemma DerefIsLocal(a: Op, env: Env, base: Stack, s: Stack)
    requires s != []
    ensures ApplyDeref(env, a, base + s) == Under(base, ApplyDeref(env, a, s))
    ensures ApplyDerefSize(env, a, base + s) == Under(base, ApplyDerefSize(env, a, s))
  {
    PopUnder(base, s, 1);
    assert forall v: SWord :: base + Pop(s) + [v] == base + (Pop(s) + [v]);
  }

  lemma ShuffleIsLocal(a: Op, base: Stack, s: Stack)
    requires a.code.Dup? || a.code.Drop? || a.code.Pick? || a.code.Over? || a.code.Swap? || a.code.Rot?
    requires |s| >= Arity(a)
    ensures ApplyShuffle(a, base + s) == Under(base, ApplyShuffle(a, s))
  {
    match a.code {
      case Dup => AppendUnder(base, s, [Top(s)]);
      case Drop => PopUnder(base, s, 1);
      case Pick => if a.op1 < TWO32 { AppendUnder(base, s, [Peek(s, a.op1)]); }
      case Over => AppendUnder(base, s, [Peek(s, 1)]);
      case Swap => PopUnder(base, s, 2); AppendUnder(base, Pop(s, 2), [Peek(s, 0), Peek(s, 1)]);
      case Rot => PopUnder(base, s, 3); AppendUnder(base, Pop(s, 3), [Peek(s, 0), Peek(s, 2), Peek(s, 1)]);
    }
  }

  lemma AppendUnder(base: Stack, s: Stack, t: Stack)
    ensures (base + s) + t == base + (s + t)
  {
  }

  /** Every operation of the run finds its operands, and something is left at the end. */
  ghost predicate Covered(ops: seq<Op>, env: Env, i: nat, s: Stack, budget: nat)
    decreases budget
  {
    if i >= |ops| then s != []
    else if budget == 0 then true
    else
      && |s| >= Arity(ops[i])
      && match Step(ops, env, i, s)
         case Next(j, t) => Covered(ops, env, j, t, budget - 1)
         case Halt(_, _) => true
  }

  lemma StepIsLocal(ops: seq<Op>, env: Env, i: nat, base: Stack, s: Stack)
    requires i < |ops| && |s| >= Arity(ops[i])
    ensures match Step(ops, env, i, s)
      case Next(j, t) => Step(ops, env, i, base + s) == Next(j, base + t)
      case Halt(r, t) => Step(ops, env, i, base + s) == Halt(r, base + t)
  {
    var a := ops[i];
    if a.code.Bra? {
      PopUnder(base, s, 1);
    } else if !a.code.Skip? {
      ApplyIsLocal(a, ops[0].op1, env, base, s);
    }
  }

  /** Entries beneath the deepest one a run looks at neither change nor affect its outcome, for
      every program, branches and errors included. */
  lemma {:induction false} RunIsLocal(ops: seq<Op>, env: Env, i: nat, cur: Word, base: Stack, s: Stack, budget: nat)
    requires Covered(ops, env, i, s, budget)
    ensures var answer := Run(ops, env, i, cur, s, budget);
      Run(ops, env, i, cur, base + s, budget) == Answer(answer.reply, base + answer.stack)
    decreases budget
  {
    if i < |ops| && budget > 0 {
      StepIsLocal(ops, env, i, base, s);
      match Step(ops, env, i, s) {
        case Next(j, t) => RunIsLocal(ops, env, j, ops[i].off, base, t, budget - 1);
        case Halt(_, _) =>
      }
    }
  }

  // ----- composition -----

  /** No branches, and no regx, which reads the first operand of the whole list. */
  ghost predicate StraightLine(ops: seq<Op>) {
    forall k :: 0 <= k < |ops| ==> Plain(ops[k].code)
  }

  predicate Plain(c: Code) {
    !c.Skip? && !c.Bra? && !c.Regx?
  }

  /** A plain operation does the same in any list, and goes on to the next. */
  lemma PlainStep(a: seq<Op>, b: seq<Op>, env: Env, i: nat, j: nat, s: Stack)
    requires i < |a| && j < |b| && a[i] == b[j] && Plain(a[i].code)
    ensures match Step(b, env, j, s)
      case Next(k, t) => k == j + 1 && Step(a, env, i, s) == Next(i + 1, t)
      case Halt(r, t) => Step(a, env, i, s) == Halt(r, t)
  {
  }

  /** One plain operation of a run: where the run goes on, or how it ends. */
  lemma RunStep(ops: seq<Op>, env: Env, i: nat, cur: Word, s: Stack, budget: nat)
    requires i < |ops| && budget > 0
    ensures match Step(ops, env, i, s)
      case Next(j, t) => Run(ops, env, i, cur, s, budget) == Run(ops, env, j, ops[i].off, t, budget - 1)
      case Halt(r, t) => Run(ops, env, i, cur, s, budget) == Answer(r, t)
  {
  }

  lemma {:induction false} TailRun(xs: seq<Op>, ys: seq<Op>, env: Env, i: nat, cur: Word, s: Stack, budget: nat)
    requires StraightLine(ys) && i <= |ys|
    ensures Run(xs + ys, env, |xs| + i, cur, s, budget) == Run(ys, env, i, cur, s, budget)
    decreases budget
  {
    if i < |ys| && budget > 0 {
      PlainStep(xs + ys, ys, env, |xs| + i, i, s);
      RunStep(xs + ys, env, |xs| + i, cur, s, budget);
      RunStep(ys, env, i, cur, s, budget);
      var o := Step(ys, env, i, s);
      if o.Next? {
        TailRun(xs, ys, env, i + 1, ys[i].off, o.stack, budget - 1);
        assert |xs| + i + 1 == |xs| + (i + 1);
      }
    }
  }

  /** Running xs + ys from index i of xs: either xs is left, and ys runs on the stack it leaves, or
      both runs stop inside xs. */
  ghost predicate HeadClaim(xs: seq<Op>, ys: seq<Op>, env: Env, i: nat, cur: Word, s: Stack, budget: nat)
    requires i <= |xs| && budget >= |xs| - i
  {
    var end := After(xs, env, i, s, |xs| - i);
    if end.Some? then
      && end.value.0 == |xs|
      && Run(xs + ys, env, i, cur, s, budget)
         == Run(ys, env, 0, if i < |xs| then xs[|xs| - 1].off else cur, end.value.1, budget - (|xs| - i))
    else Run(xs + ys, env, i, cur, s, budget) == Run(xs, env, i, cur, s, budget)
  }

  lemma HeadNext(xs: seq<Op>, ys: seq<Op>, env: Env, i: nat, cur: Word, s: Stack, budget: nat, t: Stack)
    requires i < |xs| && budget >= |xs| - i && Plain(xs[i].code) && Step(xs, env, i, s) == Next(i + 1, t)
    requires HeadClaim(xs, ys, env, i + 1, xs[i].off, t, budget - 1)
    ensures HeadClaim(xs, ys, env, i, cur, s, budget)
  {
    PlainStep(xs + ys, xs, env, i, i, s);
    AfterNext(xs, env, i, s, |xs| - (i + 1));
    RunStep(xs + ys, env, i, cur, s, budget);
    RunStep(xs, env, i, cur, s, budget);
  }

  lemma HeadHalts(xs: seq<Op>, ys: seq<Op>, env: Env, i: nat, cur: Word, s: Stack, budget: nat)
    requires i < |xs| && budget >= |xs| - i && Plain(xs[i].code) && Step(xs, env, i, s).Halt?
    ensures HeadClaim(xs, ys, env, i, cur, s, budget)
  {
    PlainStep(xs + ys, xs, env, i, i, s);
    RunStep(xs + ys, env, i, cur, s, budget);
    RunStep(xs, env, i, cur, s, budget);
    assert After(xs, env, i, s, |xs| - i) == None;
  }

  lemma {:induction false} HeadRun(xs: seq<Op>, ys: seq<Op>, env: Env, i: nat, cur: Word, s: Stack, budget: nat)
    requires StraightLine(xs) && StraightLine(ys) && i <= |xs| && budget >= |xs| - i
    ensures HeadClaim(xs, ys, env, i, cur, s, budget)
    decreases |xs| - i
  {
    if i == |xs| {
      TailRun(xs, ys, env, 0, cur, s, budget);
    } else {
      PlainStep(xs, xs, env, i, i, s);
      var o := Step(xs, env, i, s);
      if o.Next? {
        HeadRun(xs, ys, env, i + 1, xs[i].off, o.stack, budget - 1);
        HeadNext(xs, ys, env, i, cur, s, budget, o.stack);
      } else {
        HeadHalts(xs, ys, env, i, cur, s, budget);
      }
    }
  }

  /** Running xs + ys is running ys on the stack xs leaves; if xs stops early, so does xs + ys,
      with the same reply and stack. */
  lemma EvaluateConcat(xs: seq<Op>, ys: seq<Op>, env: Env, s: Stack, budget: nat)
    requires StraightLine(xs) && StraightLine(ys) && xs != [] && ys != [] && budget >= |xs|
    ensures match After(xs, env, 0, s, |xs|)
      case Some((_, t)) => Evaluate(xs + ys, env, s, budget) == Evaluate(ys, env, t, budget - |xs|)
      case None => Evaluate(xs + ys, env, s, budget) == Evaluate(xs, env, s, budget)
  {
    HeadRun(xs, ys, env, 0, 0, s, budget);
  }

  /** Appending stack_value turns the address that a list returns into the value itself, on the
      same stack. */
  lemma StackValueTags(xs: seq<Op>, tag: Op, env: Env, s: Stack, budget: nat, v: Word)
    requires StraightLine(xs) && xs != [] && tag.code.StackValue? && budget > |xs|
    requires Evaluate(xs, env, s, budget).reply == Returned(Address(v))
    ensures Evaluate(xs + [tag], env, s, budget) == Evaluate(xs, env, s, budget).(reply := Returned(Value(v)))
  {
    AddressMeansThrough(xs, env, 0, 0, s, budget);
    EvaluateConcat(xs, [tag], env, s, budget);
    HeadRun(xs, [], env, 0, 0, s, budget);
    assert xs + [] == xs;
  }

  lemma {:induction false} AddressMeansThrough(xs: seq<Op>, env: Env, i: nat, cur: Word, s: Stack, budget: nat)
    requires StraightLine(xs) && i <= |xs| && budget >= |xs| - i
    requires Run(xs, env, i, cur, s, budget).reply.Returned? && Run(xs, env, i, cur, s, budget).reply.value.Address?
    ensures After(xs, env, i, s, |xs| - i).Some?
    decreases |xs| - i
  {
    if i < |xs| {
      match Step(xs, env, i, s) {
        case Next(j, t) => AddressMeansThrough(xs, env, i + 1, xs[i].off, t, budget - 1);
        case Halt(_, _) =>
      }
    }
  }

  // ----- depth labelling -----

  /** The label an edge to index j must carry; leaving the program needs one entry. */
  ghost predicate EdgeOk(depth: seq<nat>, j: nat, d: int) {
    if j < |depth| then depth[j] == d else d >= 1
  }

  /** Ends the expression, one way or the other. */
  predicate Final(c: Code) {
    c.Reg? || c.Regx? || c.StackValue? || c.Unsupported? || c.Illegal?
  }

  /** One depth for each operation, enough for its operands and equal along every edge that
      `Step` can take: fall-through, or the landing of a skip or bra. */
  ghost predicate Labelled(ops: seq<Op>, depth: seq<nat>) {
    && |depth| == |ops|
    && (ops != [] ==> depth[0] == 0)
    && forall i {:trigger depth[i]} :: 0 <= i < |ops| ==>
         && depth[i] >= Arity(ops[i])
         && (ops[i].code.Pick? ==> ops[i].op1 < TWO32)
         && (!Final(ops[i].code) ==>
               EdgeOk(depth, if ops[i].code.Skip? || ops[i].code.Bra? then Landing(ops, i) else i + 1,
                      depth[i] + Delta(ops[i])))
  }

  lemma ApplyDepth(a: Op, first: Word, env: Env, s: Stack)
    requires !a.code.Skip? && !a.code.Bra? && |s| >= Arity(a)
    ensures var e := Apply(a, first, env, s);
      e.Done? ==> !Final(a.code) && |e.stack| == |s| + Delta(a)
  {
  }

  lemma StepDepth(ops: seq<Op>, env: Env, i: nat, s: Stack)
    requires i < |ops| && |s| >= Arity(ops[i])
    ensures var o := Step(ops, env, i, s);
      o.Next? ==>
        && !Final(ops[i].code)
        && |o.stack| == |s| + Delta(ops[i])
        && o.index == if ops[i].code.Skip? || ops[i].code.Bra? then Landing(ops, i) else i + 1
  {
    if !ops[i].code.Skip? && !ops[i].code.Bra? {
      ApplyDepth(ops[i], ops[0].op1, env, s);
    }
  }

  /** The state's depth above the initial stack is its label, and the initial stack is intact. */
  ghost predicate AtDepth(ops: seq<Op>, depth: seq<nat>, s0: Stack, i: nat, s: Stack)
    requires |depth| == |ops|
  {
    && i <= |ops|
    && |s| >= |s0| && s[..|s0|] == s0
    && (if i < |ops| then |s| == |s0| + depth[i] else |s| > |s0|)
  }

  lemma StepKeepsDepth(ops: seq<Op>, depth: seq<nat>, env: Env, s0: Stack, i: nat, s: Stack)
    requires Labelled(ops, depth) && AtDepth(ops, depth, s0, i, s) && i < |ops|
    ensures var o := Step(ops, env, i, s); o.Next? ==> AtDepth(ops, depth, s0, o.index, o.stack)
  {
    var above := s[|s0|..];
    assert s == s0 + above && |above| == depth[i] >= Arity(ops[i]);
    StepDepth(ops, env, i, above);
    StepIsLocal(ops, env, i, s0, above);
  }

  /** Every reachable state of every run, looping ones included, has exactly the labelled depth
      above the initial stack, finds its operands there, and leaves the initial stack alone. */
  lemma {:induction false} LabelledStates(ops: seq<Op>, depth: seq<nat>, env: Env, s0: Stack, i: nat, s: Stack, n: nat)
    requires Labelled(ops, depth) && AtDepth(ops, depth, s0, i, s)
    ensures match After(ops, env, i, s, n)
      case Some((j, t)) => AtDepth(ops, depth, s0, j, t) && (j < |ops| ==> |t| - |s0| >= Arity(ops[j]))
      case None => true
    decreases n
  {
    if n > 0 && i < |ops| {
      StepKeepsDepth(ops, depth, env, s0, i, s);
      match Step(ops, env, i, s) {
        case Next(j, t) => LabelledStates(ops, depth, env, s0, j, t, n - 1);
        case Halt(_, _) =>
      }
    }
  }

  /** The reply of an operation or a run that ran out of stack. */
  ghost predicate Underflow(r: Reply<Result>) {
    r == Undefined(EmptyStack) || (r.Returned? && r.value.Error? && r.value.code.StackIndexInvalid?)
  }

  /** The providers themselves did not run out of stack. */
  ghost predicate CleanEnv(env: Env) {
    && env.frameBase != Some(Undefined(EmptyStack))
    && env.cfa != Some(Undefined(EmptyStack))
  }

  /** With its operands present no operation underflows; without them every one stops. */
  lemma ArityIsExact(a: Op, first: Word, env: Env, s: Stack)
    requires !a.code.Skip? && !a.code.Bra? && CleanEnv(env)
    ensures |s| < Arity(a) ==> Apply(a, first, env, s).Stop?
    ensures |s| < Arity(a) && env.memory.Some? ==> Underflow(Apply(a, first, env, s).reply)
    ensures |s| >= Arity(a) && (a.code.Pick? ==> a.op1 < TWO32) ==>
      var e := Apply(a, first, env, s); e.Stop? ==> !Underflow(e.reply)
  {
  }

  lemma {:induction false} LabelledRun(
        ops: seq<Op>, depth: seq<nat>, env: Env, s0: Stack, i: nat, cur: Word, s: Stack, budget: nat)
    requires Labelled(ops, depth) && AtDepth(ops, depth, s0, i, s) && CleanEnv(env)
    ensures !Underflow(Run(ops, env, i, cur, s, budget).reply)
    decreases budget
  {
    if i < |ops| && budget > 0 {
      StepKeepsDepth(ops, depth, env, s0, i, s);
      if !ops[i].code.Skip? && !ops[i].code.Bra? {
        ArityIsExact(ops[i], ops[0].op1, env, s);
      }
      match Step(ops, env, i, s) {
        case Next(j, t) => LabelledRun(ops, depth, env, s0, j, ops[i].off, t, budget - 1);
        case Halt(_, _) =>
      }
    }
  }

  /** Depth-labelling soundness: no run of a labelled program, however long and on whatever
      stack, pops an empty stack or returns kStackIndexInvalid. */
  lemma LabelledNeverUnderflows(ops: seq<Op>, depth: seq<nat>, env: Env, s0: Stack, budget: nat)
    requires Labelled(ops, depth) && CleanEnv(env)
    ensures !Underflow(Evaluate(ops, env, s0, budget).reply)
  {
    if ops != [] {
      LabelledRun(ops, depth, env, s0, 0, 0, s0, budget);
    }
  }
}

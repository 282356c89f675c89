/** The evaluator as the source runs it: an operation list and a value stack that the methods
    change in place. Every contract ties the change to a function of `Expression`. */
module Machine {
  import opened Words
  import opened Expression

  /** std::stack<Dwarf_Signed>: an array that grows when it is full, and the number of entries in use.
      `cells` is the stack they stand for, the top last. */
  class ValueStack {
    var data: array<SWord>
    var len: nat
    ghost var cells: Stack

    ghost predicate Valid()
      reads this, data
    {
      len <= data.Length && cells == data[..len]
    }

    constructor ()
      ensures Valid() && fresh(data) && cells == []
    {
      data := new SWord[8];
      len, cells := 0, [];
    }

    method Push(v: SWord)
      requires Valid()
      modifies this, data
      ensures Valid() && (data == old(data) || fresh(data))
      ensures cells == old(cells) + [v]
    {
      if len == data.Length {
        var bigger := new SWord[2 * len + 1];
        forall k | 0 <= k < len {
          bigger[k] := data[k];
        }
        assert bigger[..len] == data[..len];
        data := bigger;
      }
      data[len] := v;
      len := len + 1;
      cells := cells + [v];
    }

    method Take() returns (v: SWord)
      requires Valid() && cells != []
      modifies this`len, this`cells
      ensures Valid() && v == Top(old(cells)) && cells == Pop(old(cells))
    {
      len := len - 1;
      v := data[len];
      cells := Pop(cells);
    }

    function ReadTop(): (v: SWord)
      reads this, data
      requires Valid() && cells != []
      ensures v == Top(cells)
    {
      data[len - 1]
    }

    function Size(): (n: nat)
      reads this, data
      requires Valid()
      ensures n == |cells|
    {
      len
    }
  }

  /** What a method that runs one operation reports: None to go on, or the reply to return. */
  type Exit = Option<Reply<Result>>

  ghost predicate Agrees(e: Effect, x: Exit, s: Stack) {
    e == match x case None => Done(s) case Some(r) => Stop(r, s)
  }

  function Failed(code: ErrorCode, off: Word): Exit {
    Some(Returned(Error(code, off)))
  }

  /** The entries from the last to the first. */
  function Turned(s: Stack): (t: Stack)
    ensures |t| == |s| && forall k :: 0 <= k < |s| ==> t[k] == s[|s| - 1 - k]
  {
    seq(|s|, k requires 0 <= k < |s| => s[|s| - 1 - k])
  }

  lemma TurnedMore(s: Stack, t: Stack, i: nat)
    requires i < |s|
    ensures t + Turned(s[|s| - i - 1..]) == t + Turned(s[|s| - i..]) + [s[|s| - 1 - i]]
  {
    assert Turned(s[|s| - i - 1..]) == Turned(s[|s| - i..]) + [s[|s| - 1 - i]];
  }

  /** Moving the top n entries onto an empty stack and back again changes nothing. */
  lemma MovedTwice(s: Stack, n: nat)
    requires n < |s|
    ensures var moved := [] + Turned(s[|s| - n..]);
      && |moved| == n
      && Pop(s, n) + Turned(moved[|moved| - n..]) == s
      && Top(Pop(s, n)) == Peek(s, n)
  {
    var top := s[|s| - n..];
    var moved := [] + Turned(top);
    assert moved[|moved| - n..] == Turned(top);
    assert Turned(Turned(top)) == top;
  }

  /** The loops of pick: n times, the top of one stack goes onto the other. */
  method MoveEntries(n: nat, source: ValueStack, target: ValueStack)
    requires source.Valid() && target.Valid() && source != target && source.data != target.data && n <= |source.cells|
    modifies source, source.data, target, target.data
    ensures source.Valid() && source.data == old(source.data)
    ensures target.Valid() && (target.data == old(target.data) || fresh(target.data))
    ensures source.cells == Pop(old(source.cells), n)
    ensures target.cells == old(target.cells) + Turned(old(source.cells)[|old(source.cells)| - n..])
  {
    ghost var s, t := source.cells, target.cells;
    for i := 0 to n
      invariant source.Valid() && source.data == old(source.data)
      invariant target.Valid() && (target.data == old(target.data) || fresh(target.data))
      invariant source.cells == s[..|s| - i]
      invariant target.cells == t + Turned(s[|s| - i..])
    {
      TurnedMore(s, t, i);
      var v := source.Take();
      target.Push(v);
    }
  }

  /** Unload idx entries onto a temporary stack, read the top, and load them back. */
  method Pick(idx: nat, st: ValueStack)
    requires st.Valid() && idx < |st.cells|
    modifies st, st.data
    ensures st.Valid() && (st.data == old(st.data) || fresh(st.data))
    ensures st.cells == old(st.cells) + [Peek(old(st.cells), idx)]
  {
    ghost var s := st.cells;
    MovedTwice(s, idx);
    var t := new ValueStack();
    MoveEntries(idx, st, t);
    var pick := st.ReadTop();
    MoveEntries(idx, t, st);
    assert st.cells == s && pick == Peek(s, idx);
    st.Push(pick);
  }

  method ExecPick(a: Op, st: ValueStack) returns (x: Exit)
    requires st.Valid()
    modifies st, st.data
    ensures st.Valid() && (st.data == old(st.data) || fresh(st.data))
    ensures Agrees(ApplyPick(a, old(st.cells)), x, st.cells)
  {
    if st.Size() < ToWord(a.op1 + 1) {
      return Failed(StackIndexInvalid, a.off);
    }
    if a.op1 >= TWO32 {
      // The 32-bit loop counter never reaches idx: the first loop pops past the bottom.
      return Some(Undefined(EmptyStack));
    }
    Pick(a.op1, st);
    x := None;
  }

  method ExecOver(a: Op, st: ValueStack) returns (x: Exit)
    requires a.code.Over? && st.Valid()
    modifies st, st.data
    ensures st.Valid() && (st.data == old(st.data) || fresh(st.data))
    ensures Agrees(ApplyShuffle(a, old(st.cells)), x, st.cells)
  {
    if st.Size() < 2 {
      return Failed(StackIndexInvalid, a.off);
    }
    var t := st.Take();
    var d := st.ReadTop();
    st.Push(t);
    st.Push(d);
    x := None;
  }

  method ExecSwap(a: Op, st: ValueStack) returns (x: Exit)
    requires a.code.Swap? && st.Valid()
    modifies st, st.data
    ensures st.Valid() && (st.data == old(st.data) || fresh(st.data))
    ensures Agrees(ApplyShuffle(a, old(st.cells)), x, st.cells)
  {
    if st.Size() < 2 {
      return Failed(StackIndexInvalid, a.off);
    }
    var e1 := st.Take();
    var e2 := st.Take();
    st.Push(e1);
    st.Push(e2);
    x := None;
  }

  method ExecRot(a: Op, st: ValueStack) returns (x: Exit)
    requires a.code.Rot? && st.Valid()
    modifies st, st.data
    ensures st.Valid() && (st.data == old(st.data) || fresh(st.data))
    ensures Agrees(ApplyShuffle(a, old(st.cells)), x, st.cells)
  {
    if st.Size() < 3 {
      return Failed(StackIndexInvalid, a.off);
    }
    var e1 := st.Take();
    var e2 := st.Take();
    var e3 := st.Take();
    st.Push(e1);
    st.Push(e3);
    st.Push(e2);
    x := None;
  }

  method ExecShuffle(a: Op, st: ValueStack) returns (x: Exit)
    requires a.code.Dup? || a.code.Drop? || a.code.Pick? || a.code.Over? || a.code.Swap? || a.code.Rot?
    requires st.Valid()
    modifies st, st.data
    ensures st.Valid() && (st.data == old(st.data) || fresh(st.data))
    ensures Agrees(ApplyShuffle(a, old(st.cells)), x, st.cells)
  {
    match a.code {
      case Dup =>
        if st.Size() == 0 {
          return Failed(StackIndexInvalid, a.off);
        }
        st.Push(st.ReadTop());
        x := None;
      case Drop =>
        if st.Size() == 0 {
          return Failed(StackIndexInvalid, a.off);
        }
        var _ := st.Take();
        x := None;
      case Pick => x := ExecPick(a, st);
      case Over => x := ExecOver(a, st);
      case Swap => x := ExecSwap(a, st);
      case Rot => x := ExecRot(a, st);
    }
  }

  method ExecReg(env: Env, n: int, off: Word, st: ValueStack) returns (x: Exit)
    requires st.Valid()
    modifies st, st.data
    ensures st.Valid() && (st.data == old(st.data) || fresh(st.data))
    ensures Agrees(ApplyReg(env, n, off, old(st.cells)), x, st.cells)
  {
    var v := ReadRegister(env, n);
    if v.None? {
      return Failed(RegisterInvalid, off);
    }
    st.Push(ToSigned(v.value));
    x := Some(Returned(Value(v.value)));
  }

  method ExecBreg(env: Env, n: int, a: Op, st: ValueStack) returns (x: Exit)
    requires st.Valid()
    modifies st, st.data
    ensures st.Valid() && (st.data == old(st.data) || fresh(st.data))
    ensures Agrees(ApplyBreg(env, n, a, old(st.cells)), x, st.cells)
  {
    var v := ReadRegister(env, n);
    if v.None? {
      return Failed(RegisterInvalid, a.off);
    }
    st.Push(ToSigned(v.value + a.op1));
    x := None;
  }

  method ExecFbreg(env: Env, a: Op, st: ValueStack) returns (x: Exit)
    requires st.Valid()
    modifies st, st.data
    ensures st.Valid() && (st.data == old(st.data) || fresh(st.data))
    ensures Agrees(ApplyFbreg(env, a, old(st.cells)), x, st.cells)
  {
    if env.frameBase.None? {
      return Failed(FrameBaseInvalid, a.off);
    }
    match env.frameBase.value {
      case Stuck => x := Some(Stuck);
      case Undefined(h) => x := Some(Undefined(h));
      case Returned(base) =>
        if !base.Valid() {
          return Failed(FrameBaseInvalid, a.off);
        }
        st.Push(ToSigned(base.value + a.op1));
        x := None;
    }
  }

  method ExecCfa(env: Env, a: Op, st: ValueStack) returns (x: Exit)
    requires st.Valid()
    modifies st, st.data
    ensures st.Valid() && (st.data == old(st.data) || fresh(st.data))
    ensures Agrees(ApplyCfa(env, a, old(st.cells)), x, st.cells)
  {
    if env.cfa.None? {
      return Failed(CfaInvalid, a.off);
    }
    match env.cfa.value {
      case Stuck => x := Some(Stuck);
      case Undefined(h) => x := Some(Undefined(h));
      case Returned(addr) =>
        st.Push(ToSigned(addr));
        x := None;
    }
  }

  method ExecDeref(env: Env, a: Op, st: ValueStack) returns (x: Exit)
    requires st.Valid()
    modifies st, st.data
    ensures st.Valid() && (st.data == old(st.data) || fresh(st.data))
    ensures Agrees(ApplyDeref(env, a, old(st.cells)), x, st.cells)
  {
    if env.memory.None? {
      return Failed(MemoryInvalid, a.off);
    }
    if st.Size() == 0 {
      return Failed(StackIndexInvalid, a.off);
    }
    var adr := st.Take();
    match ReadWord(env.memory.value, ToWord(adr), MAX_SIGNED) {
      case Stuck => x := Some(Stuck);
      case Undefined(h) => x := Some(Undefined(h));
      case Returned(w) =>
        var val := ToSigned(w);
        if val == MAX_SIGNED {
          return Failed(MemoryInvalid, a.off);
        }
        st.Push(val);
        x := None;
    }
  }

  /** Fill the eight bytes of a stack entry from a buffer, zero above it. */
  method AssembleBytes(buf: seq<byte>) returns (v: SWord)
    ensures v == ZeroExtended(buf)
  {
    var cell := new byte[8];
    var low := if |buf| <= 8 then buf else buf[..8];
    for i := 0 to 8
      invariant forall k :: 0 <= k < i ==> cell[k] == if k < |buf| then buf[k] else 0
    {
      cell[i] := if i < |buf| then buf[i] else 0;
    }
    assert cell[..] == low + seq(8 - |low|, _ => 0 as byte);
    FromLEZeros(low, 8 - |low|);
    v := ToSigned(FromLE(cell[..]));
  }

  method ExecDerefSize(env: Env, a: Op, st: ValueStack) returns (x: Exit)
    requires st.Valid()
    modifies st, st.data
    ensures st.Valid() && (st.data == old(st.data) || fresh(st.data))
    ensures Agrees(ApplyDerefSize(env, a, old(st.cells)), x, st.cells)
  {
    if env.memory.None? {
      return Failed(MemoryInvalid, a.off);
    }
    if st.Size() == 0 {
      return Failed(StackIndexInvalid, a.off);
    }
    if a.op1 > 8 || a.op1 == 0 {
      return Failed(IllegalOpd, a.off);
    }
    var adr := st.Take();
    match env.memory.value(ToWord(adr), a.op1) {
      case Denied => x := Failed(MemoryInvalid, a.off);
      case PastEnd => x := Some(Undefined(Overrun));
      case Served(buf) =>
        var val := AssembleBytes(buf);
        st.Push(val);
        x := None;
    }
  }

  /** Unary, binary and comparison operators pop their operands before pushing the result. */
  method ExecArithmetic(a: Op, first: Word, env: Env, st: ValueStack) returns (x: Exit)
    requires a.code.Unary? || a.code.Binary? || a.code.Compare?
    requires st.Valid()
    modifies st, st.data
    ensures st.Valid() && (st.data == old(st.data) || fresh(st.data))
    ensures Agrees(Apply(a, first, env, old(st.cells)), x, st.cells)
  {
    ghost var s := st.cells;
    match a.code {
      case Unary(u) =>
        if st.Size() == 0 {
          return Failed(StackIndexInvalid, a.off);
        }
        var top := st.Take();
        st.Push(UnaryValue(u, top, a.op1));
        x := None;
      case Binary(b) =>
        if st.Size() < 2 {
          return Failed(StackIndexInvalid, a.off);
        }
        var e1 := st.Take();
        var e2 := st.Take();
        assert st.cells == Pop(s, 2) && e2 == Peek(s, 1) && e1 == Peek(s, 0);
        match BinaryValue(b, e2, e1) {
          case Returned(v) => st.Push(v); x := None;
          case Undefined(h) => x := Some(Undefined(h));
          case Stuck => x := Some(Stuck);
        }
      case Compare(c) =>
        if st.Size() < 2 {
          // top() or pop() of an empty std::stack
          return Some(Undefined(EmptyStack));
        }
        var e1 := st.Take();
        var e2 := st.Take();
        assert st.cells == Pop(s, 2) && e2 == Peek(s, 1) && e1 == Peek(s, 0);
        st.Push(if Holds(c, e2, e1) then 1 else 0);
        x := None;
    }
  }

  /** The switch, without its branches. */
  method Exec(a: Op, first: Word, env: Env, st: ValueStack) returns (x: Exit)
    requires !a.code.Skip? && !a.code.Bra?
    requires st.Valid()
    modifies st, st.data
    ensures st.Valid() && (st.data == old(st.data) || fresh(st.data))
    ensures Agrees(Apply(a, first, env, old(st.cells)), x, st.cells)
  {
    x := None;
    match a.code {
      case Reg(n) => x := ExecReg(env, n, a.off, st);
      case Regx => x := ExecReg(env, first % 0x1_0000, a.off, st);
      case Lit(n) => st.Push(n);
      case Const => st.Push(ToSigned(a.op1));
      case Fbreg => x := ExecFbreg(env, a, st);
      case Breg(n) => x := ExecBreg(env, n, a, st);
      case Bregx => x := ExecBreg(env, a.op1 % 0x1_0000, a, st);
      case Deref => x := ExecDeref(env, a, st);
      case DerefSize => x := ExecDerefSize(env, a, st);
      case CallFrameCfa => x := ExecCfa(env, a, st);
      case Unary(_) => x := ExecArithmetic(a, first, env, st);
      case Binary(_) => x := ExecArithmetic(a, first, env, st);
      case Compare(_) => x := ExecArithmetic(a, first, env, st);
      case Nop =>
      case StackValue =>
        if st.Size() == 0 {
          return Failed(StackIndexInvalid, a.off);
        }
        x := Some(Returned(Value(ToWord(st.ReadTop()))));
      case Unsupported => x := Failed(NotImplemented, a.off);
      case Illegal => x := Failed(IllegalOp, a.off);
      case Dup | Drop | Pick | Over | Swap | Rot => x := ExecShuffle(a, st);
    }
  }

  class DwarfExpression {
    const ops: seq<Op>

    constructor (ops: seq<Op>)
      ensures this.ops == ops
    {
      this.ops := ops;
    }

    /** The index of the first operation at an offset, or -1. */
    method FindOpIndexByOffset(off: Word) returns (r: int)
      ensures r == match FindOpIndex(ops, off) case None => -1 case Some(k) => k
      ensures -1 <= r < |ops|
    {
      for i := 0 to |ops|
        invariant forall k :: 0 <= k < i ==> ops[k].off != off
      {
        if ops[i].off == off {
          return i;
        }
      }
      r := -1;
    }

    /** The branch target index: one past the operation found, or fall through. */
    method Jump(i: nat) returns (j: nat)
      requires i < |ops|
      ensures j == Landing(ops, i)
    {
      var idx := FindOpIndexByOffset(TargetOffset(ops[i]));
      j := i;
      if idx != -1 {
        j := idx;
      }
      j := j + 1;
    }

    /** The loop over the operations, on a stack that is there. */
    method Loop(env: Env, st: ValueStack, budget: nat) returns (r: Reply<Result>)
      requires st.Valid()
      modifies st, st.data
      ensures st.Valid() && (st.data == old(st.data) || fresh(st.data))
      ensures Answer(r, st.cells) == Run(ops, env, 0, 0, old(st.cells), budget)
    {
      ghost var answer := Run(ops, env, 0, 0, st.cells, budget);
      var cur: Word := 0;
      var i: nat, left: nat := 0, budget;
      while i < |ops|
        invariant st.Valid() && (st.data == old(st.data) || fresh(st.data))
        invariant answer == Run(ops, env, i, cur, st.cells, left)
        decreases left
      {
        if left == 0 {
          return Stuck;
        }
        var a := ops[i];
        cur := a.off;
        if a.code.Skip? {
          i := Jump(i);
        } else if a.code.Bra? {
          if st.Size() == 0 {
            return Returned(Error(StackIndexInvalid, cur));
          }
          var _ := st.Take();
          i := Jump(i);
        } else {
          var x := Exec(a, ops[0].op1, env, st);
          if x.Some? {
            return x.value;
          }
          i := i + 1;
        }
        left := left - 1;
      }
      if st.Size() == 0 {
        return Returned(Error(StackIndexInvalid, cur));
      }
      r := Returned(Address(ToWord(st.ReadTop())));
    }

    /** A run of at most `budget` operations; with no stack given it starts from an empty one. */
    method Evaluate(env: Env, mystack: ValueStack?, budget: nat) returns (r: Reply<Result>)
      requires mystack != null ==> mystack.Valid()
      modifies mystack, if mystack == null then {} else {mystack.data}
      ensures mystack != null ==> mystack.Valid()
      ensures var was := if mystack == null then [] else old(mystack.cells);
        var answer := Expression.Evaluate(ops, env, was, budget);
        r == answer.reply && (mystack != null ==> mystack.cells == answer.stack)
    {
      if |ops| < 1 {
        return Returned(Error(IllegalState, 0));
      }
      var st: ValueStack;
      if mystack == null {
        st := new ValueStack();
      } else {
        st := mystack;
      }
      r := Loop(env, st, budget);
    }
  }
}

/** dwarf2line's register and memory providers over a loaded context, and the whole way from the
    text of a dump to the value an expression reads from the stack. */
module Providers {
  import opened Words
  import opened Expression
  import opened ContextFile
  import DumpParser
  import DumpText
  import Unwinding
  import FrameRows

  // ----- providers -----

  function FirstFrame(context: Option<Context>): Option<Frame> {
    if context.Some? && context.value.threads != [] && context.value.threads[0].frames != []
    then Some(context.value.threads[0].frames[0])
    else None
  }

  function ReadReg(context: Option<Context>, n: int): Option<Word> {
    match FirstFrame(context)
    case None => None
    case Some(f) => if 0 <= n < ToInt32(|f.regs|) && n < |f.regs| then Some(ToWord(f.regs[n])) else None
  }

  /** All address arithmetic is in 64 bits, the size of the stack in 32. */
  function ReadMemory(context: Option<Context>, addr: Word, size: Word): MemAnswer {
    var f := FirstFrame(context);
    var start: Word := if f.None? then 0 else ToWord(f.value.base);
    var stack := if f.None? then [] else f.value.stack;
    var end := ToWord(start + |stack| % TWO32);
    if start <= addr < end && ToWord(addr + size) <= end then
      var offset := addr - start;
      if offset + size <= |stack| then Served(stack[offset..offset + size]) else PastEnd
    else Denied
  }

  function EnvOf(context: Option<Context>): Env {
    Env(Some(n => ReadReg(context, n)), Some((addr: Word, size: Word) => ReadMemory(context, addr, size)), None, None)
  }

  /** Without wrap-around the provider serves exactly the requests that begin in the stack and end in
      it, an empty one included, and serves the bytes at their addresses. */
  lemma ReadMemoryIsExact(context: Option<Context>, f: Frame, addr: Word, size: Word)
    requires FirstFrame(context) == Some(f) && 0 <= f.base && |f.stack| < TWO32
    requires f.base + |f.stack| < TWO64 && addr + size < TWO64
    ensures match ReadMemory(context, addr, size)
      case Served(b) =>
        && f.base <= addr < f.base + |f.stack| && addr + size <= f.base + |f.stack|
        && |b| == size && forall j :: 0 <= j < size ==> b[j] == f.stack[addr - f.base + j]
      case Denied => addr < f.base || f.base + |f.stack| <= addr || f.base + |f.stack| < addr + size
      case PastEnd => false
  {
    WordOfWord(f.base);
    WordOfWord(f.base + |f.stack|);
    WordOfWord(addr + size);
  }

  lemma WordOfWord(w: Word)
    ensures ToWord(w) == w
  {
  }

  /** The pointer leaves the buffer exactly when the end of the request wraps to an address that
      is not past the stack's end, from a start inside it. */
  lemma PastEndIff(context: Option<Context>, f: Frame, addr: Word, size: Word)
    requires FirstFrame(context) == Some(f) && 0 <= f.base && |f.stack| < TWO32
    requires f.base + |f.stack| < TWO64
    ensures ReadMemory(context, addr, size) == PastEnd <==>
      f.base <= addr < f.base + |f.stack| && TWO64 <= addr + size <= TWO64 + f.base + |f.stack|
  {
    WordOfWord(f.base);
    WordOfWord(f.base + |f.stack|);
    if addr + size < TWO64 {
      WordOfWord(addr + size);
    } else {
      assert ToWord(addr + size) == addr + size - TWO64;
    }
  }

  // ----- reading the stack -----

  /** A constant and one more operation. */
  lemma PushThen(ops: seq<Op>, env: Env, s: Stack, budget: nat)
    requires |ops| == 2 && ops[0].code.Const? && !ops[1].code.Skip? && !ops[1].code.Bra? && budget >= 2
    ensures Evaluate(ops, env, s, budget).reply ==
      match Apply(ops[1], ops[0].op1, env, s + [ToSigned(ops[0].op1)])
      case Stop(r, _) => r
      case Done(t) => Returned(
        if t == [] then Error(StackIndexInvalid, ops[1].off) else Address(ToWord(Top(t))))
  {
    var s1 := s + [ToSigned(ops[0].op1)];
    assert Step(ops, env, 0, s) == Next(1, s1);
    assert Run(ops, env, 0, 0, s, budget) == Run(ops, env, 1, ops[0].off, s1, budget - 1);
    match Apply(ops[1], ops[0].op1, env, s1) {
      case Stop(r, _) =>
      case Done(t) =>
        assert Step(ops, env, 1, s1) == Next(2, t);
        assert Run(ops, env, 1, ops[0].off, s1, budget - 1) == Run(ops, env, 2, ops[1].off, t, budget - 2);
    }
  }

  /** The bytes served for a request inside the stack. */
  lemma Serves(context: Option<Context>, f: Frame, k: nat, n: nat)
    requires FirstFrame(context) == Some(f) && 0 <= f.base && |f.stack| < TWO32
    requires f.base + |f.stack| < TWO64 && 1 <= n <= 8 && k + n <= |f.stack|
    ensures ReadMemory(context, f.base + k, n) == Served(f.stack[k..k + n])
  {
    ReadMemoryIsExact(context, f, f.base + k, n);
  }

  /** deref_size n on an address inside the stack pushes the n bytes there as a number. */
  lemma DerefSizeReads(ops: seq<Op>, context: Option<Context>, f: Frame, k: nat, n: nat, s: Stack, budget: nat)
    requires FirstFrame(context) == Some(f) && 0 <= f.base && |f.stack| < TWO32
    requires f.base + |f.stack| < TWO64 && 1 <= n <= 8 && k + n <= |f.stack| && budget >= 2
    requires |ops| == 2 && ops[0].code.Const? && ops[0].op1 == f.base + k
    requires ops[1].code.DerefSize? && ops[1].op1 == n
    ensures Evaluate(ops, EnvOf(context), s, budget).reply == Returned(Address(LEWord(f.stack[k..k + n])))
  {
    var env, b := EnvOf(context), f.stack[k..k + n];
    var s1 := s + [ToSigned(f.base + k)];
    PushThen(ops, env, s, budget);
    WordIdentity(f.base + k);
    Serves(context, f, k, n);
    assert env.memory.value(ToWord(Top(s1)), ops[1].op1) == Served(b);
    assert Apply(ops[1], ops[0].op1, env, s1) == Done(Pop(s1) + [ZeroExtended(b)]);
    WordIdentity(LEWord(b));
  }

  /** deref reads eight bytes, except that the largest signed word means failure. */
  lemma DerefReads(ops: seq<Op>, context: Option<Context>, f: Frame, k: nat, s: Stack, budget: nat)
    requires FirstFrame(context) == Some(f) && 0 <= f.base && |f.stack| < TWO32
    requires f.base + |f.stack| < TWO64 && k + 8 <= |f.stack| && budget >= 2
    requires |ops| == 2 && ops[0].code.Const? && ops[0].op1 == f.base + k && ops[1].code.Deref?
    ensures Evaluate(ops, EnvOf(context), s, budget).reply == Returned(
      if LEWord(f.stack[k..k + 8]) == MAX_SIGNED then Error(MemoryInvalid, ops[1].off)
      else Address(LEWord(f.stack[k..k + 8])))
  {
    var env, b := EnvOf(context), f.stack[k..k + 8];
    var s1 := s + [ToSigned(f.base + k)];
    PushThen(ops, env, s, budget);
    WordIdentity(f.base + k);
    Serves(context, f, k, 8);
    assert env.memory.value(ToWord(Top(s1)), 8) == Served(b);
    DerefEffect(env, ops[1], s1, LEWord(b));
    WordIdentity(LEWord(b));
  }

  lemma DerefEffect(env: Env, a: Op, s: Stack, w: Word)
    requires env.memory.Some? && s != [] && ReadWord(env.memory.value, ToWord(Top(s)), MAX_SIGNED) == Returned(w)
    ensures ApplyDeref(env, a, s) ==
      if w == MAX_SIGNED then Fail(MemoryInvalid, a.off, Pop(s)) else Done(Pop(s) + [ToSigned(w)])
  {
  }

  /** deref_size n gives deref modulo 256^n, unless deref hits its sentinel. */
  lemma StackReads(
        context: Option<Context>, f: Frame, k: nat, n: nat, sized: seq<Op>, whole: seq<Op>, s: Stack, budget: nat)
    requires FirstFrame(context) == Some(f) && 0 <= f.base && |f.stack| < TWO32
    requires f.base + |f.stack| < TWO64 && 1 <= n <= 8 && k + n <= |f.stack| && budget >= 2
    requires |sized| == 2 && sized[0].code.Const? && sized[0].op1 == f.base + k
    requires sized[1].code.DerefSize? && sized[1].op1 == n
    requires |whole| == 2 && whole[0] == sized[0] && whole[1].code.Deref?
    ensures Evaluate(sized, EnvOf(context), s, budget).reply == Returned(Address(LEWord(f.stack[k..k + n])))
    ensures k + 8 <= |f.stack| && LEWord(f.stack[k..k + 8]) != MAX_SIGNED ==>
      && Evaluate(whole, EnvOf(context), s, budget).reply == Returned(Address(LEWord(f.stack[k..k + 8])))
      && LEWord(f.stack[k..k + n]) == LEWord(f.stack[k..k + 8]) % Pow256(n)
  {
    DerefSizeReads(sized, context, f, k, n, s, budget);
    if k + 8 <= |f.stack| {
      DerefReads(whole, context, f, k, s, budget);
      FromLEPrefix(f.stack[k..k + 8], n);
      assert f.stack[k..k + 8][..n] == f.stack[k..k + n];
    }
  }

  /** Outside the stack there is nothing to read: deref and deref_size fail at their own offset. */
  lemma DerefOutside(ops: seq<Op>, context: Option<Context>, f: Frame, addr: Word, n: nat, s: Stack, budget: nat)
    requires FirstFrame(context) == Some(f) && 0 <= f.base && |f.stack| < TWO32
    requires f.base + |f.stack| < TWO64 && 1 <= n <= 8 && addr + n < TWO64 && budget >= 2
    requires addr < f.base || f.base + |f.stack| < addr + n
    requires |ops| == 2 && ops[0].code.Const? && ops[0].op1 == addr
    requires (ops[1].code.Deref? && n == 8) || (ops[1].code.DerefSize? && ops[1].op1 == n)
    ensures Evaluate(ops, EnvOf(context), s, budget).reply == Returned(Error(MemoryInvalid, ops[1].off))
  {
    var env, s1 := EnvOf(context), s + [ToSigned(addr)];
    PushThen(ops, env, s, budget);
    WordIdentity(addr);
    ReadMemoryIsExact(context, f, addr, n);
    assert env.memory.value(ToWord(Top(s1)), n) == Denied;
  }

  /** Without a first frame there are no registers and no memory. */
  lemma NothingWithoutFrame(context: Option<Context>, n: int, addr: Word, size: Word)
    requires context.None? || context.value.threads == [] || context.value.threads[0].frames == []
    ensures ReadReg(context, n) == None && ReadMemory(context, addr, size) == Denied
  {
  }

  // ----- unwinding over the stack -----

  /** The word that the stack snapshot holds at an address, or the error value outside it. */
  function StackWord(f: Frame, addr: Word): Word {
    if f.base <= addr && addr + 8 <= f.base + |f.stack| then LEWord(f.stack[addr - f.base..addr - f.base + 8])
    else MAX_ADDR
  }

  lemma ReadsStackWord(context: Option<Context>, f: Frame, memory: Memory, addr: Word)
    requires FirstFrame(context) == Some(f) && 0 <= f.base && |f.stack| < TWO32 && f.base + |f.stack| < TWO64
    requires memory(addr, 8) == ReadMemory(context, addr, 8) && addr + 8 < TWO64
    ensures ReadWord(memory, addr, MAX_ADDR) == Returned(StackWord(f, addr))
  {
    ReadMemoryIsExact(context, f, addr, 8);
    if f.base <= addr && addr + 8 <= f.base + |f.stack| {
      Serves(context, f, addr - f.base, 8);
    }
  }

  /** A register that the row saves at an offset from the CFA, or where an expression says, is
      recovered as the word that the stack snapshot holds there, or as none outside the snapshot. */
  lemma SavedRegisterIsRead(context: Option<Context>, f: Frame, p: Unwinding.Program, cfaOn: bool, pc: Word,
                            info: Unwinding.FdeInfo, cfa: Word, fuel: nat)
    requires FirstFrame(context) == Some(f) && 0 <= f.base && |f.stack| < TWO32 && f.base + |f.stack| < TWO64
    requires forall a: Word, n: Word :: p.memory(a, n) == ReadMemory(context, a, n)
    ensures var at := ToWord(cfa + ToSigned(info.offset));
      info.rule.OffsetRule? && info.offsetRelevant && info.reg.Numbered? && at + 8 < TWO64 ==>
        Unwinding.GetReg(p, cfaOn, false, pc, info, cfa, fuel) == Returned(StackWord(f, at))
    ensures var at := Unwinding.EvalExpr(p, cfaOn, pc, info, fuel);
      info.rule.ExpressionRule? && at.Returned? && at.value + 8 < TWO64 ==>
        Unwinding.GetReg(p, cfaOn, false, pc, info, cfa, fuel) == Returned(StackWord(f, at.value))
  {
    if info.rule.OffsetRule? {
      var at := ToWord(cfa + info.offset);
      FrameRows.SignedOffset(cfa, info.offset);
      if at + 8 < TWO64 {
        ReadsStackWord(context, f, p.memory, at);
      }
    } else if info.rule.ExpressionRule? {
      var at := Unwinding.EvalExpr(p, cfaOn, pc, info, fuel);
      if at.Returned? && at.value + 8 < TWO64 {
        ReadsStackWord(context, f, p.memory, at.value);
      }
    }
  }

  // ----- from text to value -----

  /** The context that dwarf2line loads from what the converter writes for a text. */
  function LoadedContext(lines: seq<DumpParser.Line>, limit: int): Option<Context> {
    match DumpParser.ParseLines(DumpParser.START, lines)
    case None => None
    case Some(st) =>
      if !Writable(st.threads, limit) then None
      else match ParseContext(ContextBytes(st.threads, limit))
        case Loaded(c, _) => Some(c)
        case _ => None
  }

  /** The text that dump printers write: lines of general information, then the threads. */
  function Text(pre: seq<DumpParser.Line>, ts: seq<Thread>, width: nat): seq<DumpParser.Line>
    requires width > 0
  {
    pre + DumpText.Render(ts, width)
  }

  /** The first frame survives the text, the converter and the file. */
  lemma FirstFrameSurvives(pre: seq<DumpParser.Line>, ts: seq<Thread>, limit: int, width: nat)
    requires width > 0 && DumpText.NoThreadLine(pre) && DumpText.BasesNatural(ts) && DumpText.StacksHaveBase(ts)
    requires Writable(ts, limit) && Limited(ts, limit) != [] && ts[0].frames != []
    ensures FirstFrame(LoadedContext(Text(pre, ts, width), limit)) == Some(ReadBack(ts[0].frames[0]))
  {
    DumpText.PreambleIgnored(pre, DumpText.Render(ts, width));
    DumpText.RenderRoundTrip(ts, width);
    RoundTrip(ts, limit, []);
    var b := ContextBytes(ts, limit);
    assert b + [] == b;
    var loaded := LoadedFromAll(Limited(ts, limit));
    assert loaded[0] == LoadedFrom(ts[0]);
  }

  /** From text to register: reg n is the n-th value that the dump shows for the first frame, and an
      error beyond the last. */
  lemma TextToRegister(
      pre: seq<DumpParser.Line>, ts: seq<Thread>, limit: int, width: nat, op: Op, n: Num32, s: Stack, budget: nat)
    requires width > 0 && DumpText.NoThreadLine(pre) && DumpText.BasesNatural(ts) && DumpText.StacksHaveBase(ts)
    requires Writable(ts, limit) && Limited(ts, limit) != [] && ts[0].frames != [] && budget >= 1
    requires op.code == Reg(n) && |ts[0].frames[0].regs| < 0x8000_0000
    ensures var env, regs := EnvOf(LoadedContext(Text(pre, ts, width), limit)), ts[0].frames[0].regs;
      Evaluate([op], env, s, budget).reply == Returned(
        if n < |regs| then Value(ToWord(regs[n])) else Error(RegisterInvalid, op.off))
    ensures n < |ts[0].frames[0].regs| ==> ToWord(ts[0].frames[0].regs[n]) == ts[0].frames[0].regs[n]
  {
    FirstFrameSurvives(pre, ts, limit, width);
    RegReads(LoadedContext(Text(pre, ts, width), limit), ReadBack(ts[0].frames[0]), op, n, s, budget);
    RegFits(ts, limit, n);
  }

  lemma RegFits(ts: seq<Thread>, limit: int, n: nat)
    requires Writable(ts, limit) && Limited(ts, limit) != [] && ts[0].frames != []
    ensures n < |ts[0].frames[0].regs| ==> ToWord(ts[0].frames[0].regs[n]) == ts[0].frames[0].regs[n]
  {
  }

  lemma RegReads(context: Option<Context>, f: Frame, op: Op, n: Num32, s: Stack, budget: nat)
    requires FirstFrame(context) == Some(f) && |f.regs| < 0x8000_0000 && op.code == Reg(n) && budget >= 1
    ensures Evaluate([op], EnvOf(context), s, budget).reply == Returned(
      if n < |f.regs| then Value(ToWord(f.regs[n])) else Error(RegisterInvalid, op.off))
  {
    var env := EnvOf(context);
    assert ReadRegister(env, n) == ReadReg(context, n);
    assert Step([op], env, 0, s).Halt?;
  }

  /** From text to value: what deref_size reads at base + k is the n bytes that the dump shows
      there, little-endian; deref reads the same bytes modulo 256^n unless it hits its sentinel. */
  lemma TextToValue(
      pre: seq<DumpParser.Line>, ts: seq<Thread>, limit: int, width: nat, k: nat, n: nat,
      sized: seq<Op>, whole: seq<Op>, s: Stack, budget: nat)
    requires width > 0 && DumpText.NoThreadLine(pre) && DumpText.BasesNatural(ts) && DumpText.StacksHaveBase(ts)
    requires Writable(ts, limit) && Limited(ts, limit) != [] && ts[0].frames != [] && budget >= 2
    requires ts[0].frames[0].base + |ts[0].frames[0].stack| < TWO64 && |ts[0].frames[0].stack| < TWO32
    requires 1 <= n <= 8 && k + n <= |ts[0].frames[0].stack|
    requires |sized| == 2 && sized[0].code.Const? && sized[0].op1 == ts[0].frames[0].base + k
    requires sized[1].code.DerefSize? && sized[1].op1 == n
    requires |whole| == 2 && whole[0] == sized[0] && whole[1].code.Deref?
    ensures var env, stack := EnvOf(LoadedContext(Text(pre, ts, width), limit)), ts[0].frames[0].stack;
      && Evaluate(sized, env, s, budget).reply == Returned(Address(LEWord(stack[k..k + n])))
      && (k + 8 <= |stack| && LEWord(stack[k..k + 8]) != MAX_SIGNED ==>
            && Evaluate(whole, env, s, budget).reply == Returned(Address(LEWord(stack[k..k + 8])))
            && LEWord(stack[k..k + n]) == LEWord(stack[k..k + 8]) % Pow256(n))
  {
    var context, f := LoadedContext(Text(pre, ts, width), limit), ReadBack(ts[0].frames[0]);
    assert FirstFrame(context) == Some(f) && 0 <= f.base by {
      FirstFrameSurvives(pre, ts, limit, width);
      assert DumpText.FrameBases(ts[0].frames);
    }
    StackReads(context, f, k, n, sized, whole, s, budget);
  }
}

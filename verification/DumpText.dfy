/** The canonical text of a thread list, and what the automaton makes of it. */
module DumpText {
  import opened Words
  import opened ContextFile
  import opened DumpParser

  const NOTHING: Line := Line(NotThread, None, false, None, Some(Row(0, [])))

  function ThreadLine(t: Thread): Line {
    NOTHING.(thread := ThreadStart(t.tid, t.crashed))
  }

  function FrameLine(f: Frame): Line {
    NOTHING.(frame := Some((f.num, f.func)))
  }

  function RegLine(vals: seq<int>): Line {
    NOTHING.(regs := Some(vals))
  }

  /** Any number of values on a line. */
  function RegLines(regs: seq<int>, width: nat): seq<Line>
    requires width > 0
  {
    if |regs| <= width then if regs == [] then [] else [RegLine(regs)]
    else [RegLine(regs[..width])] + RegLines(regs[width..], width)
  }

  /** Sixteen bytes on a row, each row under its own address. */
  function RowLines(addr: int, stack: seq<byte>): seq<Line>
    decreases |stack|
  {
    if |stack| <= 16 then [NOTHING.(row := Some(Row(addr, stack)))]
    else [NOTHING.(row := Some(Row(addr, stack[..16])))] + RowLines(addr + 16, stack[16..])
  }

  function StackLines(f: Frame): seq<Line> {
    if f.stack == [] && f.base == 0 then []
    else [NOTHING.(stackHeader := true)] + RowLines(f.base, f.stack) + [NOTHING]
  }

  /** Header, registers, a line without "=", and the stack if there is one. */
  function FrameLines(f: Frame, width: nat): seq<Line>
    requires width > 0
  {
    [FrameLine(f)] + RegLines(f.regs, width) + [NOTHING] + StackLines(f)
  }

  function FramesLines(fs: seq<Frame>, width: nat): seq<Line>
    requires width > 0
  {
    if fs == [] then [] else FrameLines(fs[0], width) + FramesLines(fs[1..], width)
  }

  function ThreadLines(t: Thread, width: nat): seq<Line>
    requires width > 0
  {
    [ThreadLine(t)] + FramesLines(t.frames, width)
  }

  function Render(ts: seq<Thread>, width: nat): seq<Line>
    requires width > 0
  {
    if ts == [] then [] else ThreadLines(ts[0], width) + Render(ts[1..], width)
  }

  /** What is left of a frame: a row at address zero ends the stack before it begins. */
  function Kept(f: Frame): Frame {
    if f.base == 0 then f.(stack := []) else f
  }

  function KeptAll(fs: seq<Frame>): (r: seq<Frame>)
    ensures |r| == |fs| && forall k :: 0 <= k < |fs| ==> r[k] == Kept(fs[k])
  {
    if fs == [] then [] else [Kept(fs[0])] + KeptAll(fs[1..])
  }

  function KeptThread(t: Thread): Thread {
    t.(frames := KeptAll(t.frames))
  }

  function KeptThreads(ts: seq<Thread>): (r: seq<Thread>)
    ensures |r| == |ts| && forall k :: 0 <= k < |ts| ==> r[k] == KeptThread(ts[k])
  {
    if ts == [] then [] else [KeptThread(ts[0])] + KeptThreads(ts[1..])
  }

  // ----- parsing it -----

  lemma {:induction false} ParseConcat(st: State, a: seq<Line>, b: seq<Line>)
    ensures ParseLines(st, a + b) == match ParseLines(st, a) case None => None case Some(next) => ParseLines(next, b)
    decreases a
  {
    if a == [] {
      assert a + b == b;
    } else {
      assert (a + b)[1..] == a[1..] + b;
      if Step(st, a[0]).Some? {
        ParseConcat(Step(st, a[0]).value, a[1..], b);
      }
    }
  }

  lemma Chain(st: State, a: seq<Line>, mid: State, b: seq<Line>, end: State)
    requires ParseLines(st, a) == Some(mid) && ParseLines(mid, b) == Some(end)
    ensures ParseLines(st, a + b) == Some(end)
  {
    ParseConcat(st, a, b);
  }

  lemma ParseOne(st: State, line: Line)
    ensures ParseLines(st, [line]) == Step(st, line)
  {
  }

  lemma {:induction false} ParseRegLines(st: State, regs: seq<int>, width: nat)
    requires width > 0 && st.block == InRegister && HasFrame(st.threads)
    ensures var f := Newest(st.threads);
      ParseLines(st, RegLines(regs, width)) == Some(State(InRegister, SetNewest(st.threads, f.(regs := f.regs + regs))))
    decreases |regs|
  {
    var f := Newest(st.threads);
    if |regs| <= width {
      if regs == [] {
        assert f.regs + regs == f.regs;
        SetNewestTwice(st.threads, f, f);
      }
    } else {
      var head := regs[..width];
      var g := f.(regs := f.regs + head);
      var next := State(InRegister, SetNewest(st.threads, g));
      ParseConcat(st, [RegLine(head)], RegLines(regs[width..], width));
      ParseOne(st, RegLine(head));
      ParseRegLines(next, regs[width..], width);
      assert f.regs + head + regs[width..] == f.regs + regs;
      SetNewestTwice(st.threads, g, f.(regs := f.regs + regs));
    }
  }

  lemma {:induction false} BytesOfBytes(b: seq<byte>)
    ensures Bytes(b) == Some(b)
  {
    if b != [] {
      BytesOfBytes(b[1..]);
      assert b == [b[0]] + b[1..];
    }
  }

  lemma {:induction false} ParseRows(st: State, addr: int, stack: seq<byte>)
    requires addr > 0 && st.block == InStack && HasFrame(st.threads)
    ensures var f := Newest(st.threads);
      ParseLines(st, RowLines(addr, stack))
      == Some(State(InStack, SetNewest(st.threads,
           f.(base := if f.base == 0 then addr else f.base, stack := f.stack + stack))))
    decreases |stack|
  {
    var f := Newest(st.threads);
    if |stack| <= 16 {
      BytesOfBytes(stack);
      ParseOne(st, NOTHING.(row := Some(Row(addr, stack))));
    } else {
      var line := NOTHING.(row := Some(Row(addr, stack[..16])));
      var b := if f.base == 0 then addr else f.base;
      var g := f.(base := b, stack := f.stack + stack[..16]);
      BytesOfBytes(stack[..16]);
      ParseConcat(st, [line], RowLines(addr + 16, stack[16..]));
      ParseOne(st, line);
      ParseRows(State(InStack, SetNewest(st.threads, g)), addr + 16, stack[16..]);
      assert f.stack + stack[..16] + stack[16..] == f.stack + stack;
      SetNewestTwice(st.threads, g, f.(base := b, stack := f.stack + stack));
    }
  }

  /** Rows outside a stack block are ignored. */
  lemma {:induction false} RowsIgnored(st: State, addr: int, stack: seq<byte>)
    requires st.block == InThread
    ensures ParseLines(st, RowLines(addr, stack)) == Some(st)
    decreases |stack|
  {
    if |stack| > 16 {
      var line := NOTHING.(row := Some(Row(addr, stack[..16])));
      ParseConcat(st, [line], RowLines(addr + 16, stack[16..]));
      ParseOne(st, line);
      RowsIgnored(st, addr + 16, stack[16..]);
    }
  }

  /** Rows that start at address zero: the first closes the block. */
  lemma ParseZeroRows(st: State, stack: seq<byte>)
    requires st.block == InStack && HasFrame(st.threads)
    ensures ParseLines(st, RowLines(0, stack)) == Some(State(InThread, st.threads))
  {
    if |stack| <= 16 {
      ParseOne(st, NOTHING.(row := Some(Row(0, stack))));
    } else {
      var line := NOTHING.(row := Some(Row(0, stack[..16])));
      ParseConcat(st, [line], RowLines(16, stack[16..]));
      ParseOne(st, line);
      RowsIgnored(State(InThread, st.threads), 16, stack[16..]);
    }
  }

  lemma ParseStack(st: State, f: Frame)
    requires st.block == InThread && HasFrame(st.threads) && f.base >= 0
    requires Newest(st.threads) == f.(base := 0, stack := [])
    ensures ParseLines(st, StackLines(f)) == Some(State(InThread, SetNewest(st.threads, Kept(f))))
  {
    var bare := Newest(st.threads);
    SetNewestTwice(st.threads, bare, bare);
    if f.stack != [] || f.base != 0 {
      var header := NOTHING.(stackHeader := true);
      var inStack := State(InStack, st.threads);
      assert StackLines(f) == [header] + (RowLines(f.base, f.stack) + [NOTHING]);
      ParseConcat(st, [header], RowLines(f.base, f.stack) + [NOTHING]);
      ParseOne(st, header);
      ParseConcat(inStack, RowLines(f.base, f.stack), [NOTHING]);
      if f.base == 0 {
        ParseZeroRows(inStack, f.stack);
        ParseOne(State(InThread, st.threads), NOTHING);
      } else {
        ParseRows(inStack, f.base, f.stack);
        assert [] + f.stack == f.stack;
        ParseOne(State(InStack, SetNewest(st.threads, f)), NOTHING);
      }
    }
  }

  /** The registers, the line after them and the stack of a frame whose header has been read. */
  lemma ParseFrameBody(ts: seq<Thread>, f: Frame, width: nat)
    requires width > 0 && HasFrame(ts) && Newest(ts) == Frame(f.num, f.func, [], 0, []) && f.base >= 0
    ensures ParseLines(State(InRegister, ts), RegLines(f.regs, width) + ([NOTHING] + StackLines(f)))
         == Some(State(InThread, SetNewest(ts, Kept(f))))
  {
    var bare := f.(base := 0, stack := []);
    var s1, s2 := State(InRegister, ts), State(InRegister, SetNewest(ts, bare));
    var s3, s4 := State(InThread, s2.threads), State(InThread, SetNewest(ts, Kept(f)));
    assert [] + f.regs == f.regs;
    ParseRegLines(s1, f.regs, width);
    ParseOne(s2, NOTHING);
    SetNewestTwice(ts, bare, Kept(f));
    ParseStack(s3, f);
    Chain(s2, [NOTHING], s3, StackLines(f), s4);
    Chain(s1, RegLines(f.regs, width), s2, [NOTHING] + StackLines(f), s4);
  }

  lemma ParseFrameLines(st: State, f: Frame, width: nat)
    requires width > 0 && st.block == InThread && st.threads != [] && f.base >= 0
    ensures ParseLines(st, FrameLines(f, width)) == Some(State(InThread, AddFrame(st.threads, Kept(f))))
  {
    var empty := Frame(f.num, f.func, [], 0, []);
    var ts := AddFrame(st.threads, empty);
    var body := RegLines(f.regs, width) + ([NOTHING] + StackLines(f));
    assert FrameLines(f, width) == [FrameLine(f)] + body;
    ParseOne(st, FrameLine(f));
    ParseFrameBody(ts, f, width);
    AddThenSet(st.threads, empty, Kept(f));
    Chain(st, [FrameLine(f)], State(InRegister, ts), body, State(InThread, AddFrame(st.threads, Kept(f))));
  }

  lemma AddThenSet(ts: seq<Thread>, f: Frame, g: Frame)
    requires ts != []
    ensures SetNewest(AddFrame(ts, f), g) == AddFrame(ts, g)
  {
    var n := |ts| - 1;
    var fs := ts[n].frames;
    assert (fs + [f])[|fs| := g] == fs + [g];
  }

  ghost predicate FrameBases(fs: seq<Frame>) {
    forall k :: 0 <= k < |fs| ==> fs[k].base >= 0
  }

  lemma AddToLast(prior: seq<Thread>, t: Thread, f: Frame)
    ensures AddFrame(prior + [t], f) == prior + [t.(frames := t.frames + [f])]
  {
  }

  lemma {:induction false} ParseFramesLines(prior: seq<Thread>, t: Thread, fs: seq<Frame>, width: nat)
    requires width > 0 && FrameBases(fs)
    ensures ParseLines(State(InThread, prior + [t]), FramesLines(fs, width))
         == Some(State(InThread, prior + [t.(frames := t.frames + KeptAll(fs))]))
    decreases |fs|
  {
    if fs == [] {
      assert t.frames + [] == t.frames;
    } else {
      var f, more := fs[0], fs[1..];
      var u := t.(frames := t.frames + [Kept(f)]);
      var v := u.(frames := u.frames + KeptAll(more));
      ParseFrameLines(State(InThread, prior + [t]), f, width);
      AddToLast(prior, t, Kept(f));
      ParseFramesLines(prior, u, more, width);
      Chain(State(InThread, prior + [t]), FrameLines(f, width), State(InThread, prior + [u]),
            FramesLines(more, width), State(InThread, prior + [v]));
      KeptCons(t.frames, f, more);
    }
  }

  lemma KeptCons(done: seq<Frame>, f: Frame, more: seq<Frame>)
    ensures done + [Kept(f)] + KeptAll(more) == done + ([Kept(f)] + KeptAll(more))
  {
  }

  ghost predicate BasesNatural(ts: seq<Thread>) {
    forall i :: 0 <= i < |ts| ==> FrameBases(ts[i].frames)
  }

  lemma ParseThreadLines(st: State, t: Thread, width: nat)
    requires width > 0 && FrameBases(t.frames)
    ensures ParseLines(st, ThreadLines(t, width)) == Some(State(InThread, st.threads + [KeptThread(t)]))
  {
    var started := Thread(t.tid, t.crashed, []);
    assert [] + KeptAll(t.frames) == KeptAll(t.frames);
    ParseOne(st, ThreadLine(t));
    ParseFramesLines(st.threads, started, t.frames, width);
    Chain(st, [ThreadLine(t)], State(InThread, st.threads + [started]),
          FramesLines(t.frames, width), State(InThread, st.threads + [KeptThread(t)]));
  }

  lemma {:induction false} ParseThreads(st: State, ts: seq<Thread>, width: nat)
    requires width > 0 && BasesNatural(ts)
    ensures ParseLines(st, Render(ts, width))
         == Some(State(if ts == [] then st.block else InThread, st.threads + KeptThreads(ts)))
    decreases |ts|
  {
    if ts == [] {
      assert st.threads + [] == st.threads;
    } else {
      var t, more := ts[0], ts[1..];
      var next := State(InThread, st.threads + [KeptThread(t)]);
      assert FrameBases(t.frames) && BasesNatural(more);
      ParseThreadLines(st, t, width);
      ParseThreads(next, more, width);
      Chain(st, ThreadLines(t, width), next, Render(more, width), State(InThread, next.threads + KeptThreads(more)));
      Regroup(st.threads, KeptThread(t), KeptThreads(more));
    }
  }

  lemma Regroup(done: seq<Thread>, t: Thread, more: seq<Thread>)
    ensures done + [t] + more == done + ([t] + more)
  {
  }

  /** No stack bytes under base address zero. */
  ghost predicate StacksHaveBase(ts: seq<Thread>) {
    forall i, j :: 0 <= i < |ts| && 0 <= j < |ts[i].frames| ==>
      (ts[i].frames[j].base == 0 ==> ts[i].frames[j].stack == [])
  }

  /** Parsing the canonical text of any thread list never raises, and gives the list back exactly
      when no frame has stack bytes at base address zero. */
  lemma RenderRoundTrip(ts: seq<Thread>, width: nat)
    requires width > 0 && BasesNatural(ts)
    ensures ParseLines(START, Render(ts, width)).Some?
    ensures ParseLines(START, Render(ts, width)).value.threads == ts <==> StacksHaveBase(ts)
  {
    ParseThreads(START, ts, width);
    assert [] + KeptThreads(ts) == KeptThreads(ts);
    KeptIff(ts);
  }

  // ----- with the lines around it -----

  ghost predicate NoThreadLine(lines: seq<Line>) {
    forall k :: 0 <= k < |lines| ==> lines[k].thread.NotThread?
  }

  /** Lines before the first thread line have no effect. */
  lemma {:induction false} PreambleIgnored(pre: seq<Line>, lines: seq<Line>)
    requires NoThreadLine(pre)
    ensures ParseLines(START, pre + lines) == ParseLines(START, lines)
    decreases |pre|
  {
    if pre == [] {
      assert pre + lines == lines;
    } else {
      NoiseIsIgnored(START, pre[0]);
      assert (pre + lines)[1..] == pre[1..] + lines;
      PreambleIgnored(pre[1..], lines);
    }
  }

  /** A line in the middle of a text that is noise where it stands has no effect either. */
  lemma NoiseInside(a: seq<Line>, line: Line, b: seq<Line>)
    requires ParseLines(START, a).Some? ==> IsNoise(ParseLines(START, a).value, line)
    ensures ParseLines(START, a + ([line] + b)) == ParseLines(START, a + b)
  {
    ParseConcat(START, a, [line] + b);
    ParseConcat(START, a, b);
    if ParseLines(START, a).Some? {
      NoiseIsIgnored(ParseLines(START, a).value, line);
      assert ([line] + b)[1..] == b;
    }
  }

  lemma KeptIff(ts: seq<Thread>)
    ensures KeptThreads(ts) == ts <==> StacksHaveBase(ts)
  {
    if KeptThreads(ts) == ts {
      forall i, j | 0 <= i < |ts| && 0 <= j < |ts[i].frames|
        ensures ts[i].frames[j].base == 0 ==> ts[i].frames[j].stack == []
      {
        assert KeptThreads(ts)[i].frames[j] == Kept(ts[i].frames[j]);
      }
    }
    if StacksHaveBase(ts) {
      forall i | 0 <= i < |ts| ensures KeptThreads(ts)[i] == ts[i] {
        assert KeptAll(ts[i].frames) == ts[i].frames;
      }
    }
  }
}

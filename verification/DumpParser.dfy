/** The converter's line automaton over the text that minidump_stackwalk prints. A line is given by
    what each test of the source would find in it; the tests themselves (regular expressions and
    hexadecimal tokens) are not modelled. */
module DumpParser {
  import opened Words
  import opened ContextFile

  /** The line starts with "Thread": with a number after it or not. */
  datatype ThreadView = NotThread | BadThread | ThreadStart(tid: int, crashed: bool)

  /** The tokens of a stack row: the first as a number (0 if it is none), the next sixteen, -1
      where a token is no number. */
  datatype Row = Row(addr: int, cells: seq<int>)

  datatype Line = Line(
    thread: ThreadView,
    frame: Option<(int, seq<byte>)>,   // number and function, if it reads as a frame header
    stackHeader: bool,
    regs: Option<seq<int>>,            // the values, if it contains "="
    row: Option<Row>)                  // None if it has no token at all

  datatype Block = Info | InThread | InRegister | InStack

  datatype State = State(block: Block, threads: seq<Thread>)

  const START: State := State(Info, [])

  // ----- the newest frame -----

  predicate HasFrame(ts: seq<Thread>) {
    ts != [] && ts[|ts| - 1].frames != []
  }

  function Newest(ts: seq<Thread>): Frame
    requires HasFrame(ts)
  {
    var fs := ts[|ts| - 1].frames;
    fs[|fs| - 1]
  }

  /** threads[-1]["frames"][-1] replaced. */
  function SetNewest(ts: seq<Thread>, f: Frame): (r: seq<Thread>)
    requires HasFrame(ts)
    ensures HasFrame(r) && Newest(r) == f
  {
    var t := ts[|ts| - 1];
    ts[|ts| - 1 := t.(frames := t.frames[|t.frames| - 1 := f])]
  }

  lemma SetNewestTwice(ts: seq<Thread>, f: Frame, g: Frame)
    requires HasFrame(ts)
    ensures SetNewest(SetNewest(ts, f), g) == SetNewest(ts, g)
    ensures SetNewest(ts, Newest(ts)) == ts
  {
    var n := |ts| - 1;
    var t := ts[n];
    var fs, m := t.frames, |t.frames| - 1;
    assert fs[m := f][m := g] == fs[m := g] && fs[m := fs[m]] == fs;
    assert ts[n := t.(frames := fs[m := f])][n := t.(frames := fs[m := g])] == ts[n := t.(frames := fs[m := g])];
  }

  function AddFrame(ts: seq<Thread>, f: Frame): (r: seq<Thread>)
    requires ts != []
    ensures HasFrame(r) && Newest(r) == f
  {
    var t := ts[|ts| - 1];
    ts[|ts| - 1 := t.(frames := t.frames + [f])]
  }

  // ----- one line -----

  function Bytes(cells: seq<int>): Option<seq<byte>> {
    if cells == [] then Some([])
    else if cells[0] == -1 then Bytes(cells[1..])
    else if !(0 <= cells[0] < 256) then None
    else match Bytes(cells[1..])
      case None => None
      case Some(b) => Some([cells[0]] + b)
  }

  function TakeRow(ts: seq<Thread>, row: Row): Option<seq<Thread>>
    requires HasFrame(ts)
  {
    match Bytes(row.cells)
    case None => None
    case Some(b) =>
      var f := Newest(ts);
      Some(SetNewest(ts, f.(base := if f.base == 0 then row.addr else f.base, stack := f.stack + b)))
  }

  /** None: the source raises an exception. */
  function Step(st: State, line: Line): Option<State> {
    match line.thread
    case ThreadStart(tid, crashed) => Some(State(InThread, st.threads + [Thread(tid, crashed, [])]))
    case BadThread => None
    case NotThread =>
      match st.block
      case Info => Some(st)
      case InThread =>
        if line.frame.Some? then
          if st.threads == [] then None
          else Some(State(InRegister, AddFrame(st.threads, Frame(line.frame.value.0, line.frame.value.1, [], 0, []))))
        else if line.stackHeader then Some(st.(block := InStack))
        else Some(st)
      case InRegister =>
        if line.regs.None? then Some(st.(block := InThread))
        else if !HasFrame(st.threads) then None
        else
          var f := Newest(st.threads);
          Some(st.(threads := SetNewest(st.threads, f.(regs := f.regs + line.regs.value))))
      case InStack =>
        if line.row.None? || !HasFrame(st.threads) then None
        else if line.row.value.addr == 0 then Some(st.(block := InThread))
        else match TakeRow(st.threads, line.row.value)
          case None => None
          case Some(ts) => Some(st.(threads := ts))
  }

  function ParseLines(st: State, lines: seq<Line>): Option<State>
    decreases lines
  {
    if lines == [] then Some(st)
    else match Step(st, lines[0])
      case None => None
      case Some(next) => ParseLines(next, lines[1..])
  }

  // ----- the parser as it runs -----

  class Converter {
    var block: Block
    var threads: seq<Thread>

    constructor ()
      ensures Now() == START
    {
      block, threads := Info, [];
    }

    function Now(): State
      reads this
    {
      State(block, threads)
    }

    /** Append the cells that are numbers; a number that is no byte raises. */
    method AppendCells(cells: seq<int>) returns (ok: bool)
      requires HasFrame(threads)
      modifies this`threads
      ensures ok <==> Bytes(cells).Some?
      ensures ok ==> var f := Newest(old(threads));
        threads == SetNewest(old(threads), f.(stack := f.stack + Bytes(cells).value))
    {
      var s: seq<byte> := Newest(threads).stack;
      ghost var s0 := s;
      for i := 0 to |cells|
        invariant Bytes(cells).Some? <==> Bytes(cells[i..]).Some?
        invariant Bytes(cells).Some? ==> s0 + Bytes(cells).value == s + Bytes(cells[i..]).value
      {
        var c := cells[i];
        assert cells[i..][1..] == cells[i + 1..];
        if c != -1 {
          if !(0 <= c < 256) {
            return false;
          }
          s := s + [c];
        }
      }
      assert s + [] == s;
      ok := true;
      threads := SetNewest(threads, Newest(threads).(stack := s));
    }

    method Feed(line: Line) returns (ok: bool)
      modifies this
      ensures ok <==> Step(old(Now()), line).Some?
      ensures ok ==> Step(old(Now()), line) == Some(Now())
    {
      if line.thread.BadThread? {
        return false;
      }
      if line.thread.ThreadStart? {
        block := InThread;
        threads := threads + [Thread(line.thread.tid, line.thread.crashed, [])];
        return true;
      }
      ok := true;
      if block == InThread {
        if line.frame.Some? {
          if threads == [] {
            return false;
          }
          threads := AddFrame(threads, Frame(line.frame.value.0, line.frame.value.1, [], 0, []));
          block := InRegister;
        } else if line.stackHeader {
          block := InStack;
        }
      } else if block == InRegister {
        if line.regs.Some? {
          if !HasFrame(threads) {
            return false;
          }
          var f := Newest(threads);
          threads := SetNewest(threads, f.(regs := f.regs + line.regs.value));
        } else {
          block := InThread;
        }
      } else if block == InStack {
        if line.row.None? || !HasFrame(threads) {
          return false;
        }
        var row := line.row.value;
        if row.addr != 0 {
          ghost var before := threads;
          var f := Newest(threads);
          if f.base == 0 {
            threads := SetNewest(threads, f.(base := row.addr));
          }
          SetNewestTwice(before, f.(base := if f.base == 0 then row.addr else f.base), f);
          ok := AppendCells(row.cells);
          if ok {
            var b := if f.base == 0 then row.addr else f.base;
            SetNewestTwice(before, f.(base := b), f.(base := b, stack := f.stack + Bytes(row.cells).value));
          }
        } else {
          block := InThread;
        }
      }
    }

    /** parse_minidump_txt_file: one line after the other, until one raises. */
    method Convert(lines: seq<Line>) returns (ok: bool)
      modifies this
      ensures ok <==> ParseLines(old(Now()), lines).Some?
      ensures ok ==> ParseLines(old(Now()), lines) == Some(Now())
    {
      for i := 0 to |lines|
        invariant ParseLines(old(Now()), lines) == ParseLines(Now(), lines[i..])
      {
        assert lines[i..][1..] == lines[i + 1..];
        ok := Feed(lines[i]);
        if !ok {
          return;
        }
      }
      ok := true;
    }
  }

  // ----- what a line can change -----

  /** g is f after more lines: same header, registers and bytes appended, the base kept once set. */
  ghost predicate FrameGrows(f: Frame, g: Frame) {
    && g.num == f.num && g.func == f.func
    && f.regs <= g.regs && f.stack <= g.stack
    && (f.base != 0 ==> g.base == f.base)
  }

  /** Earlier frames unchanged, the newest grown, later ones added. */
  ghost predicate ThreadGrows(t: Thread, u: Thread) {
    && u.tid == t.tid && u.crashed == t.crashed
    && |t.frames| <= |u.frames|
    && forall k :: 0 <= k < |t.frames| ==>
         if k + 1 < |t.frames| then u.frames[k] == t.frames[k] else FrameGrows(t.frames[k], u.frames[k])
  }

  ghost predicate Grows(ts: seq<Thread>, us: seq<Thread>) {
    && |ts| <= |us|
    && forall k :: 0 <= k < |ts| ==>
         if k + 1 < |ts| then us[k] == ts[k] else ThreadGrows(ts[k], us[k])
  }

  lemma GrowsTrans(ts: seq<Thread>, us: seq<Thread>, vs: seq<Thread>)
    requires Grows(ts, us) && Grows(us, vs)
    ensures Grows(ts, vs)
  {
  }

  lemma StepGrows(st: State, line: Line)
    requires Step(st, line).Some?
    ensures Grows(st.threads, Step(st, line).value.threads)
  {
  }

  /** Over a whole run, threads and frames that were not the newest stay exactly as they were; the
      newest only gains registers, bytes and a base address. */
  lemma {:induction false} RunGrows(st: State, lines: seq<Line>)
    ensures ParseLines(st, lines).Some? ==> Grows(st.threads, ParseLines(st, lines).value.threads)
    decreases lines
  {
    if lines != [] && Step(st, lines[0]).Some? {
      var next := Step(st, lines[0]).value;
      StepGrows(st, lines[0]);
      RunGrows(next, lines[1..]);
      if ParseLines(next, lines[1..]).Some? {
        GrowsTrans(st.threads, next.threads, ParseLines(next, lines[1..]).value.threads);
      }
    }
  }

  // ----- what each line does -----

  /** The frames of the newest thread. */
  function NewestFrames(ts: seq<Thread>): seq<Frame> {
    if ts == [] then [] else ts[|ts| - 1].frames
  }

  /** A frame header where one is looked for. */
  predicate IsHeader(st: State, line: Line) {
    line.thread.NotThread? && st.block == InThread && line.frame.Some?
  }

  /** A thread is added exactly by a thread line, which carries its number and flag, and a frame exactly
      by a frame header inside a thread, which carries its number and function; each starts empty. */
  lemma LineAdds(st: State, line: Line)
    requires Step(st, line).Some?
    ensures var next := Step(st, line).value;
      && |next.threads| == |st.threads| + (if line.thread.ThreadStart? then 1 else 0)
      && (line.thread.ThreadStart? ==>
            next == State(InThread, st.threads + [Thread(line.thread.tid, line.thread.crashed, [])]))
      && (!line.thread.ThreadStart? ==>
            |NewestFrames(next.threads)| == |NewestFrames(st.threads)| + if IsHeader(st, line) then 1 else 0)
      && (IsHeader(st, line) ==>
            next.block == InRegister
            && Newest(next.threads) == Frame(line.frame.value.0, line.frame.value.1, [], 0, []))
  {
  }

  /** Registers are added exactly by a line with "=" in a register block, and are the line's values; the
      bytes added are the numbers of a row with an address in a stack block, and its address becomes
      the base if there is none yet. Nothing else changes a frame that is there. */
  lemma LineFills(st: State, line: Line)
    requires Step(st, line).Some? && HasFrame(st.threads) && line.thread.NotThread? && !IsHeader(st, line)
    ensures var next, f := Step(st, line).value, Newest(st.threads);
      HasFrame(next.threads) && var g := Newest(next.threads);
      && g.num == f.num && g.func == f.func
      && g.regs == f.regs + (if st.block == InRegister && line.regs.Some? then line.regs.value else [])
      && (if st.block == InStack && line.row.value.addr != 0 then
            && g.stack == f.stack + Numbers(line.row.value.cells)
            && g.base == if f.base == 0 then line.row.value.addr else f.base
          else g.stack == f.stack && g.base == f.base)
  {
    if st.block == InStack && line.row.value.addr != 0 {
      NumbersAre(line.row.value.cells);
    }
  }

  predicate IsByte(x: int) {
    0 <= x < 256
  }

  /** The cells that are bytes, in order: what is left when the tokens that are no number are left out. */
  function Numbers(cells: seq<int>): seq<byte> {
    if cells == [] then []
    else if IsByte(cells[|cells| - 1]) then Numbers(cells[..|cells| - 1]) + [cells[|cells| - 1]]
    else Numbers(cells[..|cells| - 1])
  }

  lemma {:induction false} NumbersFirst(cells: seq<int>)
    requires cells != []
    ensures Numbers(cells) == (if IsByte(cells[0]) then [cells[0]] else []) + Numbers(cells[1..])
    decreases |cells|
  {
    if |cells| > 1 {
      var init, last := cells[..|cells| - 1], cells[|cells| - 1];
      NumbersFirst(init);
      assert cells[1..][..|cells| - 2] == init[1..] && cells[1..][|cells| - 2] == last;
    }
  }

  lemma {:induction false} NumbersAre(cells: seq<int>)
    ensures Bytes(cells).Some? <==> forall k :: 0 <= k < |cells| ==> cells[k] == -1 || IsByte(cells[k])
    ensures Bytes(cells).Some? ==> Bytes(cells).value == Numbers(cells)
  {
    if cells != [] {
      NumbersFirst(cells);
      NumbersAre(cells[1..]);
      assert forall k :: 0 < k < |cells| ==> cells[k] == cells[1..][k - 1];
    }
  }

  /** How the block changes: a thread line and the end of a stack or of the registers lead to the thread,
      a frame header to its registers, a stack header to the stack. */
  lemma BlockChanges(st: State, line: Line)
    requires Step(st, line).Some?
    ensures Step(st, line).value.block ==
      if line.thread.ThreadStart? then InThread
      else match st.block
        case Info => Info
        case InThread => if line.frame.Some? then InRegister else if line.stackHeader then InStack else InThread
        case InRegister => if line.regs.Some? then InRegister else InThread
        case InStack => if line.row.value.addr == 0 then InThread else InStack
  {
  }

  /** Lines that leave the state as it is: any line that is no thread line before the first thread, and
      inside a thread one that is neither a frame nor a stack header. */
  predicate IsNoise(st: State, line: Line) {
    line.thread.NotThread? && (st.block == Info || (st.block == InThread && line.frame.None? && !line.stackHeader))
  }

  lemma NoiseIsIgnored(st: State, line: Line)
    requires IsNoise(st, line)
    ensures Step(st, line) == Some(st)
  {
  }

  // ----- when it raises -----

  /** A block that refers to a thread or a frame has one. */
  ghost predicate Anchored(st: State) {
    && (st.block != Info ==> st.threads != [])
    && (st.block == InRegister || st.block == InStack ==> HasFrame(st.threads))
  }

  /** A stack header before the first frame of its thread. */
  predicate EarlyHeader(st: State, line: Line) {
    line.thread.NotThread? && st.block == InThread && line.frame.None? && line.stackHeader && !HasFrame(st.threads)
  }

  /** In an anchored state a line raises exactly for one of three defects of its own, and every
      other line, except a stack header before the first frame, keeps the state anchored. */
  lemma RaisesIff(st: State, line: Line)
    requires Anchored(st)
    ensures Step(st, line).None? <==>
      || line.thread.BadThread?
      || (line.thread.NotThread? && st.block == InStack
          && (line.row.None? || (line.row.value.addr != 0 && Bytes(line.row.value.cells).None?)))
    ensures Step(st, line).Some? ==> (Anchored(Step(st, line).value) <==> !EarlyHeader(st, line))
  {
  }

  // ----- when a whole text raises -----

  /** The part of a state that decides what raises: the block, and whether the newest thread has a
      frame yet. */
  datatype Shape = Shape(block: Block, framed: bool)

  function ShapeOf(st: State): Shape {
    Shape(st.block, HasFrame(st.threads))
  }

  /** How a line changes the shape, read off the line alone. */
  function NextShape(sh: Shape, line: Line): Shape {
    match line.thread
    case ThreadStart(_, _) => Shape(InThread, false)
    case BadThread => sh
    case NotThread =>
      match sh.block
      case Info => sh
      case InThread =>
        if line.frame.Some? then Shape(InRegister, true)
        else if line.stackHeader then sh.(block := InStack)
        else sh
      case InRegister => if line.regs.None? then sh.(block := InThread) else sh
      case InStack => if line.row.Some? && line.row.value.addr == 0 then sh.(block := InThread) else sh
  }

  function ShapeAfter(sh: Shape, lines: seq<Line>): Shape
    decreases lines
  {
    if lines == [] then sh else ShapeAfter(NextShape(sh, lines[0]), lines[1..])
  }

  /** A thread line without a number; or, in a stack, any other line when there is no frame, a line
      without tokens, or a row with a number that is no byte. */
  predicate Faulty(sh: Shape, line: Line) {
    || line.thread.BadThread?
    || (line.thread.NotThread? && sh.block == InStack &&
        (!sh.framed || line.row.None? || (line.row.value.addr != 0 && Bytes(line.row.value.cells).None?)))
  }

  predicate FaultyAt(sh: Shape, lines: seq<Line>, k: nat)
    requires k < |lines|
  {
    Faulty(ShapeAfter(sh, lines[..k]), lines[k])
  }

  /** States that a run from the start can be in. */
  ghost predicate Reachable(st: State) {
    && (st.block != Info ==> st.threads != [])
    && (st.block == InRegister ==> HasFrame(st.threads))
  }

  lemma LineRaisesIff(st: State, line: Line)
    requires Reachable(st)
    ensures Step(st, line).None? <==> Faulty(ShapeOf(st), line)
    ensures Step(st, line).Some? ==>
      Reachable(Step(st, line).value) && ShapeOf(Step(st, line).value) == NextShape(ShapeOf(st), line)
  {
  }

  lemma FaultyAfter(sh: Shape, lines: seq<Line>, k: nat)
    requires k + 1 < |lines|
    ensures FaultyAt(sh, lines, k + 1) <==> FaultyAt(NextShape(sh, lines[0]), lines[1..], k)
  {
    assert lines[..k + 1][1..] == lines[1..][..k];
  }

  lemma {:induction false} RunRaisesFrom(st: State, lines: seq<Line>)
    requires Reachable(st)
    ensures ParseLines(st, lines).None? <==> exists k :: 0 <= k < |lines| && FaultyAt(ShapeOf(st), lines, k)
    decreases lines
  {
    if lines != [] {
      var sh, next := ShapeOf(st), NextShape(ShapeOf(st), lines[0]);
      LineRaisesIff(st, lines[0]);
      assert FaultyAt(sh, lines, 0) <==> Faulty(sh, lines[0]);
      if Step(st, lines[0]).Some? {
        RunRaisesFrom(Step(st, lines[0]).value, lines[1..]);
        forall k | 0 < k < |lines| ensures FaultyAt(sh, lines, k) <==> FaultyAt(next, lines[1..], k - 1) {
          FaultyAfter(sh, lines, k - 1);
        }
        if k :| 0 <= k < |lines[1..]| && FaultyAt(next, lines[1..], k) {
          assert FaultyAt(sh, lines, k + 1);
        }
      }
    }
  }

  /** For every text: the parser raises exactly when some line is faulty for the shape that the lines
      before it leave. */
  lemma TextRaisesIff(lines: seq<Line>)
    ensures ParseLines(START, lines) == None <==>
      exists k :: 0 <= k < |lines| && FaultyAt(Shape(Info, false), lines, k)
  {
    assert ShapeOf(START) == Shape(Info, false);
    RunRaisesFrom(START, lines);
  }

  /** A stack header before the first frame of its thread is not faulty itself, but the line after it
      is, unless it starts a thread. */
  lemma LineAfterEarlyHeader(st: State, header: Line, line: Line)
    requires Reachable(st) && EarlyHeader(st, header)
    ensures Step(st, header).Some?
    ensures Step(Step(st, header).value, line).None? <==> !line.thread.ThreadStart?
  {
    LineRaisesIff(st, header);
    LineRaisesIff(Step(st, header).value, line);
  }
}

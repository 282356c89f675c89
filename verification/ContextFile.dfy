/** The dwarf context file: the converter writes nested length-prefixed little-endian records,
    and dwarf2line reads them back. */
module ContextFile {
  import opened Words

  /** A stack frame of the dump. Python integers have no width; names are UTF-8 bytes. */
  datatype Frame = Frame(num: int, func: seq<byte>, regs: seq<int>, base: int, stack: seq<byte>)

  datatype Thread = Thread(tid: int, crashed: bool, frames: seq<Frame>)

  const MAGIC: seq<byte> := [0x44, 0x57, 0x46, 0x43]

  // ----- writing -----

  /** struct.pack accepts a value of this many bytes. */
  predicate Packs(w: nat, x: int) {
    0 <= x < Pow256(w)
  }

  predicate AllPack(w: nat, xs: seq<int>) {
    forall k :: 0 <= k < |xs| ==> Packs(w, xs[k])
  }

  function PackAll(w: nat, xs: seq<int>): seq<byte>
    requires AllPack(w, xs)
  {
    if xs == [] then [] else assert Packs(w, xs[0]); ToLE(w, xs[0]) + PackAll(w, xs[1..])
  }

  predicate FrameFits(f: Frame) {
    && Packs(4, f.num) && Packs(4, |f.func|) && Packs(4, |f.regs|)
    && AllPack(8, f.regs)
    && Packs(8, f.base) && Packs(4, |f.stack|)
  }

  function FrameBytes(f: Frame): seq<byte>
    requires FrameFits(f)
  {
    ToLE(4, f.num) + (ToLE(4, |f.func|) + (f.func + (ToLE(4, |f.regs|) + (PackAll(8, f.regs) +
    (ToLE(8, f.base) + (ToLE(4, |f.stack|) + f.stack))))))
  }

  predicate FramesFit(fs: seq<Frame>) {
    forall k :: 0 <= k < |fs| ==> FrameFits(fs[k])
  }

  function FramesBytes(fs: seq<Frame>): seq<byte>
    requires FramesFit(fs)
  {
    if fs == [] then [] else FrameBytes(fs[0]) + FramesBytes(fs[1..])
  }

  predicate ThreadFits(t: Thread) {
    Packs(4, t.tid) && Packs(4, |t.frames|) && FramesFit(t.frames)
  }

  function Flag(b: bool): nat {
    if b then 1 else 0
  }

  function ThreadBytes(t: Thread): seq<byte>
    requires ThreadFits(t)
  {
    ToLE(4, t.tid) + (ToLE(4, Flag(t.crashed)) + (ToLE(4, |t.frames|) + FramesBytes(t.frames)))
  }

  predicate ThreadsFit(ts: seq<Thread>) {
    forall k :: 0 <= k < |ts| ==> ThreadFits(ts[k])
  }

  function ThreadsBytes(ts: seq<Thread>): seq<byte>
    requires ThreadsFit(ts)
  {
    if ts == [] then [] else ThreadBytes(ts[0]) + ThreadsBytes(ts[1..])
  }

  /** The threads that a limit leaves; -1 is no limit. */
  function Limited(ts: seq<Thread>, limit: int): seq<Thread> {
    if limit == -1 || limit >= |ts| then ts else if limit < 0 then [] else ts[..limit]
  }

  /** What the writer can write. A limit below -1 makes the thread count negative. */
  predicate Writable(ts: seq<Thread>, limit: int) {
    limit >= -1 && Packs(4, |Limited(ts, limit)|) && ThreadsFit(Limited(ts, limit))
  }

  function ContextBytes(ts: seq<Thread>, limit: int): seq<byte>
    requires Writable(ts, limit)
  {
    MAGIC + (ToLE(2, 1) + (ToLE(2, 1) + (ToLE(4, |Limited(ts, limit)|) + ThreadsBytes(Limited(ts, limit)))))
  }

  // ----- reading -----

  datatype Parse<+T> = Short | Read(value: T, rest: seq<byte>)

  function ParseInt(w: nat, b: seq<byte>): Parse<nat> {
    if |b| < w then Short else Read(FromLE(b[..w]), b[w..])
  }

  function ParseBytes(n: nat, b: seq<byte>): Parse<seq<byte>> {
    if |b| < n then Short else Read(b[..n], b[n..])
  }

  function ParseInts(w: nat, n: nat, b: seq<byte>): (r: Parse<seq<nat>>)
    ensures r.Read? ==> |r.value| == n
  {
    if n == 0 then Read([], b)
    else match ParseInt(w, b)
      case Short => Short
      case Read(x, b1) =>
        match ParseInts(w, n - 1, b1)
        case Short => Short
        case Read(xs, b2) => Read([x] + xs, b2)
  }

  /** A name read as a C string: cut at the first zero byte. */
  function CString(s: seq<byte>): (r: seq<byte>)
    ensures r <= s && 0 !in r
    ensures r == s <==> 0 !in s
  {
    if s == [] || s[0] == 0 then [] else [s[0]] + CString(s[1..])
  }

  function ParseFrame(b: seq<byte>): Parse<Frame> {
    match ParseInt(4, b)
    case Short => Short
    case Read(num, b1) =>
    match ParseInt(4, b1)
    case Short => Short
    case Read(funcLen, b2) =>
    match ParseBytes(funcLen, b2)
    case Short => Short
    case Read(func, b3) =>
    match ParseInt(4, b3)
    case Short => Short
    case Read(regsSize, b4) =>
    match ParseInts(8, regsSize, b4)
    case Short => Short
    case Read(regs, b5) =>
    match ParseInt(8, b5)
    case Short => Short
    case Read(base, b6) =>
    match ParseInt(4, b6)
    case Short => Short
    case Read(stackSize, b7) =>
    match ParseBytes(stackSize, b7)
    case Short => Short
    case Read(stack, b8) => Read(Frame(num, CString(func), regs, base, stack), b8)
  }

  function ParseFrames(n: nat, b: seq<byte>): Parse<seq<Frame>> {
    if n == 0 then Read([], b)
    else match ParseFrame(b)
      case Short => Short
      case Read(f, b1) =>
        match ParseFrames(n - 1, b1)
        case Short => Short
        case Read(fs, b2) => Read([f] + fs, b2)
  }

  /** The reader keeps the crashed flag as a number. */
  datatype LoadedThread = LoadedThread(tid: nat, crashed: nat, frames: seq<Frame>)

  function ParseThread(b: seq<byte>): Parse<LoadedThread> {
    match ParseInt(4, b)
    case Short => Short
    case Read(tid, b1) =>
    match ParseInt(4, b1)
    case Short => Short
    case Read(crashed, b2) =>
    match ParseInt(4, b2)
    case Short => Short
    case Read(n, b3) =>
    match ParseFrames(n, b3)
    case Short => Short
    case Read(fs, b4) => Read(LoadedThread(tid, crashed, fs), b4)
  }

  function ParseThreads(n: nat, b: seq<byte>): Parse<seq<LoadedThread>> {
    if n == 0 then Read([], b)
    else match ParseThread(b)
      case Short => Short
      case Read(t, b1) =>
        match ParseThreads(n - 1, b1)
        case Short => Short
        case Read(ts, b2) => Read([t] + ts, b2)
  }

  datatype Context = Context(version: nat, arch: nat, threads: seq<LoadedThread>)

  /** `CutShort`: a record runs past the end of the file, which the source does not notice. */
  datatype Loading = TooSmall | BadMagic | CutShort | Loaded(context: Context, rest: seq<byte>)

  const HEADER_SIZE: nat := 12

  function ParseContext(b: seq<byte>): Loading {
    if |b| < HEADER_SIZE then TooSmall
    else if b[..4] != MAGIC then BadMagic
    else
      var version, arch, n := FromLE(b[4..6]), FromLE(b[6..8]), FromLE(b[8..12]);
      match ParseThreads(n, b[12..])
      case Short => CutShort
      case Read(ts, rest) => Loaded(Context(version, arch, ts), rest)
  }

  // ----- round trip -----

  lemma IntRoundTrip(w: nat, x: nat, rest: seq<byte>)
    requires Packs(w, x)
    ensures ParseInt(w, ToLE(w, x) + rest) == Read(x, rest)
  {
    FromToLE(w, x);
    assert (ToLE(w, x) + rest)[..w] == ToLE(w, x);
  }

  lemma BytesRoundTrip(s: seq<byte>, rest: seq<byte>)
    ensures ParseBytes(|s|, s + rest) == Read(s, rest)
  {
    assert (s + rest)[..|s|] == s && (s + rest)[|s|..] == rest;
  }

  lemma {:induction false} IntsRoundTrip(w: nat, xs: seq<int>, rest: seq<byte>)
    requires AllPack(w, xs)
    ensures ParseInts(w, |xs|, PackAll(w, xs) + rest) == Read(xs, rest)
  {
    if xs == [] {
      assert PackAll(w, xs) + rest == rest;
    } else {
      var x, tail := xs[0], PackAll(w, xs[1..]) + rest;
      assert Packs(w, x);
      Assoc(ToLE(w, x), PackAll(w, xs[1..]), rest);
      IntRoundTrip(w, x, tail);
      IntsRoundTrip(w, xs[1..], rest);
      assert xs == [x] + xs[1..];
    }
  }

  /** What the reader makes of a frame. */
  function ReadBack(f: Frame): Frame {
    f.(func := CString(f.func))
  }

  lemma Assoc(a: seq<byte>, b: seq<byte>, c: seq<byte>)
    ensures (a + b) + c == a + (b + c)
  {
  }

  lemma FrameBytesThen(f: Frame, rest: seq<byte>)
    requires FrameFits(f)
    ensures FrameBytes(f) + rest ==
      ToLE(4, f.num) + (ToLE(4, |f.func|) + (f.func + (ToLE(4, |f.regs|) + (PackAll(8, f.regs) +
      (ToLE(8, f.base) + (ToLE(4, |f.stack|) + (f.stack + rest)))))))
  {
    var t7 := ToLE(4, |f.stack|) + f.stack;
    var t6 := ToLE(8, f.base) + t7;
    var t5 := PackAll(8, f.regs) + t6;
    var t4 := ToLE(4, |f.regs|) + t5;
    var t3 := f.func + t4;
    var t2 := ToLE(4, |f.func|) + t3;
    Assoc(ToLE(4, f.num), t2, rest);
    Assoc(ToLE(4, |f.func|), t3, rest);
    Assoc(f.func, t4, rest);
    Assoc(ToLE(4, |f.regs|), t5, rest);
    Assoc(PackAll(8, f.regs), t6, rest);
    Assoc(ToLE(8, f.base), t7, rest);
    Assoc(ToLE(4, |f.stack|), f.stack, rest);
  }

  lemma FrameRoundTrip(f: Frame, rest: seq<byte>)
    requires FrameFits(f)
    ensures ParseFrame(FrameBytes(f) + rest) == Read(ReadBack(f), rest)
  {
    var b8 := rest;
    var b7 := f.stack + b8;
    var b6 := ToLE(4, |f.stack|) + b7;
    var b5 := ToLE(8, f.base) + b6;
    var b4 := PackAll(8, f.regs) + b5;
    var b3 := ToLE(4, |f.regs|) + b4;
    var b2 := f.func + b3;
    var b1 := ToLE(4, |f.func|) + b2;
    FrameBytesThen(f, rest);
    IntRoundTrip(4, f.num, b1);
    IntRoundTrip(4, |f.func|, b2);
    BytesRoundTrip(f.func, b3);
    IntRoundTrip(4, |f.regs|, b4);
    IntsRoundTrip(8, f.regs, b5);
    IntRoundTrip(8, f.base, b6);
    IntRoundTrip(4, |f.stack|, b7);
    BytesRoundTrip(f.stack, b8);
  }

  function ReadBackAll(fs: seq<Frame>): (r: seq<Frame>)
    ensures |r| == |fs| && forall k :: 0 <= k < |fs| ==> r[k] == ReadBack(fs[k])
  {
    if fs == [] then [] else [ReadBack(fs[0])] + ReadBackAll(fs[1..])
  }

  lemma {:induction false} FramesRoundTrip(fs: seq<Frame>, rest: seq<byte>)
    requires FramesFit(fs)
    ensures ParseFrames(|fs|, FramesBytes(fs) + rest) == Read(ReadBackAll(fs), rest)
  {
    if fs == [] {
      assert FramesBytes(fs) + rest == rest;
    } else {
      var tail := FramesBytes(fs[1..]) + rest;
      Assoc(FrameBytes(fs[0]), FramesBytes(fs[1..]), rest);
      FrameRoundTrip(fs[0], tail);
      FramesRoundTrip(fs[1..], rest);
    }
  }

  function LoadedFrom(t: Thread): LoadedThread
    requires t.tid >= 0
  {
    LoadedThread(t.tid, Flag(t.crashed), ReadBackAll(t.frames))
  }

  lemma ThreadRoundTrip(t: Thread, rest: seq<byte>)
    requires ThreadFits(t)
    ensures ParseThread(ThreadBytes(t) + rest) == Read(LoadedFrom(t), rest)
  {
    var b3 := FramesBytes(t.frames) + rest;
    var b2 := ToLE(4, |t.frames|) + b3;
    var b1 := ToLE(4, Flag(t.crashed)) + b2;
    assert ThreadBytes(t) + rest == ToLE(4, t.tid) + b1;
    IntRoundTrip(4, t.tid, b1);
    Pow256Values();
    IntRoundTrip(4, Flag(t.crashed), b2);
    IntRoundTrip(4, |t.frames|, b3);
    FramesRoundTrip(t.frames, rest);
  }

  function LoadedFromAll(ts: seq<Thread>): (r: seq<LoadedThread>)
    requires ThreadsFit(ts)
    ensures |r| == |ts| && forall k :: 0 <= k < |ts| ==> r[k] == LoadedFrom(ts[k])
  {
    if ts == [] then [] else assert ThreadFits(ts[0]); [LoadedFrom(ts[0])] + LoadedFromAll(ts[1..])
  }

  lemma {:induction false} ThreadsRoundTrip(ts: seq<Thread>, rest: seq<byte>)
    requires ThreadsFit(ts)
    ensures ParseThreads(|ts|, ThreadsBytes(ts) + rest) == Read(LoadedFromAll(ts), rest)
  {
    if ts == [] {
      assert ThreadsBytes(ts) + rest == rest;
    } else {
      var tail := ThreadsBytes(ts[1..]) + rest;
      assert ThreadFits(ts[0]);
      Assoc(ThreadBytes(ts[0]), ThreadsBytes(ts[1..]), rest);
      ThreadRoundTrip(ts[0], tail);
      ThreadsRoundTrip(ts[1..], rest);
    }
  }

  /** The reader applied to the writer's bytes: the limited threads, names cut at their first zero
      byte; every byte is consumed and any suffix is left unread. */
  lemma RoundTrip(ts: seq<Thread>, limit: int, suffix: seq<byte>)
    requires Writable(ts, limit)
    ensures ParseContext(ContextBytes(ts, limit) + suffix)
         == Loaded(Context(1, 1, LoadedFromAll(Limited(ts, limit))), suffix)
  {
    var shown := Limited(ts, limit);
    var body := ThreadsBytes(shown) + suffix;
    var b := ContextBytes(ts, limit) + suffix;
    assert b == MAGIC + ToLE(2, 1) + ToLE(2, 1) + ToLE(4, |shown|) + body;
    assert b[..4] == MAGIC;
    assert b[4..6] == ToLE(2, 1) && b[6..8] == ToLE(2, 1) && b[8..12] == ToLE(4, |shown|) && b[12..] == body;
    Pow256Values();
    FromToLE(2, 1);
    FromToLE(4, |shown|);
    ThreadsRoundTrip(shown, suffix);
  }

  predicate NamesHaveNoZero(ts: seq<Thread>) {
    forall i, j :: 0 <= i < |ts| && 0 <= j < |ts[i].frames| ==> 0 !in ts[i].frames[j].func
  }

  /** The frames come back unchanged exactly when no name contains a zero byte. */
  lemma FramesSurviveIff(ts: seq<Thread>)
    requires ThreadsFit(ts)
    ensures (forall i :: 0 <= i < |ts| ==> LoadedFromAll(ts)[i].frames == ts[i].frames) <==> NamesHaveNoZero(ts)
  {
  }
}

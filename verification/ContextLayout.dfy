/** The dwarf context file byte by byte, what can be written to it, and what a reader refuses. */
module ContextLayout {
  import opened Words
  import opened ContextFile

  // ----- what is written -----

  /** The threads that a limit leaves: all for -1, else the first ones up to the limit. */
  lemma LimitedMeans(ts: seq<Thread>, limit: int)
    requires limit >= -1
    ensures Limited(ts, limit) <= ts
    ensures |Limited(ts, limit)| == if limit == -1 || limit > |ts| then |ts| else limit
  {
  }

  /** The widths of the fields. */
  predicate InRange(t: Thread) {
    && 0 <= t.tid < 0x1_0000_0000 && |t.frames| < 0x1_0000_0000
    && forall j :: 0 <= j < |t.frames| ==> FrameInRange(t.frames[j])
  }

  predicate FrameInRange(f: Frame) {
    && 0 <= f.num < 0x1_0000_0000 && |f.func| < 0x1_0000_0000 && |f.regs| < 0x1_0000_0000
    && (forall k :: 0 <= k < |f.regs| ==> 0 <= f.regs[k] < TWO64)
    && 0 <= f.base < TWO64 && |f.stack| < 0x1_0000_0000
  }

  lemma FrameFitsMeans(f: Frame)
    ensures FrameFits(f) <==> FrameInRange(f)
  {
    Pow256Values();
    if FrameFits(f) {
      forall k | 0 <= k < |f.regs| ensures 0 <= f.regs[k] < TWO64 {
        assert Packs(8, f.regs[k]);
      }
    }
    if FrameInRange(f) {
      forall k | 0 <= k < |f.regs| ensures Packs(8, f.regs[k]) {
        assert 0 <= f.regs[k] < TWO64;
      }
    }
  }

  lemma ThreadFitsMeans(t: Thread)
    ensures ThreadFits(t) <==> InRange(t)
  {
    Pow256Values();
    forall j | 0 <= j < |t.frames| ensures FrameFits(t.frames[j]) <==> FrameInRange(t.frames[j]) {
      FrameFitsMeans(t.frames[j]);
    }
  }

  /** A context can be written exactly when the limit is at least -1 and every thread that it leaves
      has fields in range; a thread that is left out may have any. */
  lemma WritableIff(ts: seq<Thread>, limit: int)
    ensures Writable(ts, limit) <==>
      && limit >= -1
      && (forall k :: 0 <= k < |Limited(ts, limit)| ==> InRange(ts[k]))
      && |Limited(ts, limit)| < 0x1_0000_0000
  {
    Pow256Values();
    var left := Limited(ts, limit);
    forall k | 0 <= k < |left| ensures ThreadFits(left[k]) <==> InRange(ts[k]) {
      ThreadFitsMeans(ts[k]);
    }
  }

  const FRAME_EXAMPLE: Frame := Frame(2, [0x41, 0x42, 0x43], [0x1122], 0x10, [9, 8])

  predicate IsFrameExample(f: Frame) {
    f == FRAME_EXAMPLE
  }

  lemma FrameExampleFits(f: Frame)
    requires IsFrameExample(f)
    ensures FrameFits(f)
  {
    FrameFitsMeans(f);
  }

  lemma OneRegister(regs: seq<int>, x: nat)
    requires AllPack(8, regs) && regs == [x]
    ensures PackAll(8, regs) == ToLE(8, x)
  {
    assert regs[1..] == [] && PackAll(8, regs) == ToLE(8, x) + [];
  }

  /** The fields of a frame in the order of the file. */
  lemma FieldsInOrder(f: Frame, num: seq<byte>, name: seq<byte>, count: seq<byte>, regs: seq<byte>,
                      base: seq<byte>, size: seq<byte>)
    requires FrameFits(f) && num == ToLE(4, f.num) && name == ToLE(4, |f.func|) && count == ToLE(4, |f.regs|)
    requires regs == PackAll(8, f.regs) && base == ToLE(8, f.base) && size == ToLE(4, |f.stack|)
    ensures FrameBytes(f) == num + (name + (f.func + (count + (regs + (base + (size + f.stack))))))
  {
  }

  /** A frame: its number, name, one register, base address and two bytes of stack. */
  lemma FrameExample(f: Frame)
    requires IsFrameExample(f)
    ensures FrameFits(f)
    ensures FrameBytes(f) ==
      [2, 0, 0, 0] + ([3, 0, 0, 0] + ([0x41, 0x42, 0x43] + ([1, 0, 0, 0] + ([0x22, 0x11, 0, 0, 0, 0, 0, 0] +
      ([0x10, 0, 0, 0, 0, 0, 0, 0] + ([2, 0, 0, 0] + [9, 8]))))))
  {
    FrameExampleFits(f);
    FourBytes(2, f.num);
    FourBytes(3, |f.func|);
    FourBytes(1, |f.regs|);
    FourBytes(2, |f.stack|);
    EightBytes(0x22, 0x11, f.regs[0]);
    EightBytes(0x10, 0, f.base);
    OneRegister(f.regs, f.regs[0]);
    FieldsInOrder(f, [2, 0, 0, 0], [3, 0, 0, 0], [1, 0, 0, 0], [0x22, 0x11, 0, 0, 0, 0, 0, 0],
                  [0x10, 0, 0, 0, 0, 0, 0, 0], [2, 0, 0, 0]);
  }

  /** A thread: its number, the crash flag and one frame. */
  lemma ThreadExample(t: Thread)
    requires t == Thread(7, true, [FRAME_EXAMPLE])
    ensures ThreadFits(t)
    ensures FrameFits(t.frames[0])
    ensures ThreadBytes(t) == [7, 0, 0, 0] + ([1, 0, 0, 0] + ([1, 0, 0, 0] + FrameBytes(t.frames[0])))
  {
    FrameFitsMeans(t.frames[0]);
    ThreadFitsMeans(t);
    FourBytes(7, 7);
    FourBytes(1, 1);
    assert t.frames[1..] == [] && FramesBytes(t.frames) == FrameBytes(t.frames[0]) + [];
  }

  /** A file, byte by byte: magic, version 1, 64 bits, one thread, and that thread. */
  lemma LayoutExample(ts: seq<Thread>)
    requires ts == [Thread(7, true, [FRAME_EXAMPLE])]
    ensures Writable(ts, -1)
    ensures ThreadFits(ts[0])
    ensures ContextBytes(ts, -1) ==
      [0x44, 0x57, 0x46, 0x43] + ([1, 0] + ([1, 0] + ([1, 0, 0, 0] + ThreadBytes(ts[0]))))
  {
    ThreadExample(ts[0]);
    ThreadFitsMeans(ts[0]);
    WritableIff(ts, -1);
    FourBytes(1, 1);
    TwoBytes(1);
    assert ts[1..] == [] && ThreadsBytes(ts) == ThreadBytes(ts[0]) + [];
  }

  lemma TwoBytes(x: byte)
    ensures ToLE(2, x) == [x, 0]
  {
  }

  lemma FourBytes(x: byte, y: nat)
    requires x == y
    ensures ToLE(4, y) == [x, 0, 0, 0]
  {
    assert ToLE(3, 0) == [0, 0, 0];
  }

  lemma EightBytes(x: byte, y: byte, z: nat)
    requires z == x + 256 * y
    ensures ToLE(8, z) == [x, y, 0, 0, 0, 0, 0, 0]
  {
    assert z / 256 == y && z % 256 == x;
    assert ToLE(6, 0) == [0, 0, 0, 0, 0, 0] by {
      assert ToLE(3, 0) == [0, 0, 0];
    }
    assert ToLE(7, y) == [y] + ToLE(6, 0);
  }

  // ----- what is refused -----

  /** What a loaded context takes from the header: version, word size, and the number of threads. */
  lemma HeaderMeans(b: seq<byte>)
    ensures ParseContext(b).Loaded? ==>
      var c := ParseContext(b).context;
      && |b| >= 12
      && c.version == FromLE(b[4..6]) && c.arch == FromLE(b[6..8]) && |c.threads| == FromLE(b[8..12])
  {
    if ParseContext(b).Loaded? {
      ThreadCount(FromLE(b[8..12]), b[12..]);
    }
  }

  lemma {:induction false} ThreadCount(n: nat, b: seq<byte>)
    ensures ParseThreads(n, b).Read? ==> |ParseThreads(n, b).value| == n
    decreases n
  {
    if n > 0 {
      match ParseThread(b) {
        case Read(t, rest) => ThreadCount(n - 1, rest);
        case Short =>
      }
    }
  }

  /** A file is too small exactly when it is shorter than the header, and has a bad magic exactly when it
      is not and does not begin with "DWFC". */
  lemma RefusedIff(b: seq<byte>)
    ensures ParseContext(b) == TooSmall <==> |b| < 12
    ensures ParseContext(b) == BadMagic <==> |b| >= 12 && b[..4] != [0x44, 0x57, 0x46, 0x43]
  {
  }
}

/** The converter's writer and dwarf2line's reader as they run: an output that grows and an input
    position that advances, in nested loops. */
module ContextIO {
  import opened Words
  import opened ContextFile

  lemma {:induction false} PackAllSnoc(w: nat, xs: seq<int>, x: int)
    requires AllPack(w, xs) && Packs(w, x)
    ensures AllPack(w, xs + [x]) && PackAll(w, xs + [x]) == PackAll(w, xs) + ToLE(w, x)
  {
    if xs == [] {
      assert xs + [x] == [x];
      assert PackAll(w, [x]) == ToLE(w, x) + PackAll(w, []);
    } else {
      assert Packs(w, xs[0]);
      PackAllSnoc(w, xs[1..], x);
      assert (xs + [x])[1..] == xs[1..] + [x];
      Assoc(ToLE(w, xs[0]), PackAll(w, xs[1..]), ToLE(w, x));
    }
  }

  lemma {:induction false} FramesSnoc(fs: seq<Frame>, f: Frame)
    requires FramesFit(fs) && FrameFits(f)
    ensures FramesFit(fs + [f]) && FramesBytes(fs + [f]) == FramesBytes(fs) + FrameBytes(f)
  {
    if fs == [] {
      assert fs + [f] == [f];
      assert FramesBytes([f]) == FrameBytes(f) + FramesBytes([]);
    } else {
      FramesSnoc(fs[1..], f);
      assert (fs + [f])[1..] == fs[1..] + [f];
      Assoc(FrameBytes(fs[0]), FramesBytes(fs[1..]), FrameBytes(f));
    }
  }

  lemma {:induction false} ThreadsSnoc(ts: seq<Thread>, t: Thread)
    requires ThreadsFit(ts) && ThreadFits(t)
    ensures ThreadsFit(ts + [t]) && ThreadsBytes(ts + [t]) == ThreadsBytes(ts) + ThreadBytes(t)
  {
    if ts == [] {
      assert ts + [t] == [t];
      assert ThreadsBytes([t]) == ThreadBytes(t) + ThreadsBytes([]);
    } else {
      ThreadsSnoc(ts[1..], t);
      assert (ts + [t])[1..] == ts[1..] + [t];
      assert ThreadFits(ts[0]);
      Assoc(ThreadBytes(ts[0]), ThreadsBytes(ts[1..]), ThreadBytes(t));
    }
  }

  /** Each method reports false where struct.pack raises; the output then holds what was written
      before. */
  class ContextWriter {
    var fd: seq<byte>

    constructor ()
      ensures fd == []
    {
      fd := [];
    }

    method Put(w: nat, x: int) returns (ok: bool)
      modifies this
      ensures ok <==> Packs(w, x)
      ensures fd == if ok then old(fd) + ToLE(w, x) else old(fd)
    {
      ok := 0 <= x < Pow256(w);
      if ok {
        fd := fd + ToLE(w, x);
      }
    }

    method PutRegs(regs: seq<int>) returns (ok: bool)
      modifies this
      ensures ok <==> AllPack(8, regs)
      ensures ok ==> fd == old(fd) + PackAll(8, regs)
    {
      for i := 0 to |regs|
        invariant AllPack(8, regs[..i])
        invariant fd == old(fd) + PackAll(8, regs[..i])
      {
        ok := Put(8, regs[i]);
        if !ok { return; }
        PackAllSnoc(8, regs[..i], regs[i]);
        assert regs[..i + 1] == regs[..i] + [regs[i]];
        Assoc(old(fd), PackAll(8, regs[..i]), ToLE(8, regs[i]));
      }
      assert regs[..|regs|] == regs;
      ok := true;
    }

    method PutFrame(f: Frame) returns (ok: bool)
      modifies this
      ensures ok <==> FrameFits(f)
      ensures ok ==> fd == old(fd) + FrameBytes(f)
    {
      ok := PutName(f);
      if !ok { return; }
      ghost var named := fd;
      ok := Put(4, |f.regs|);
      if !ok { return; }
      ok := PutRegs(f.regs);
      if !ok { return; }
      ok := Put(8, f.base);
      if !ok { return; }
      ok := Put(4, |f.stack|);
      if !ok { return; }
      fd := fd + f.stack;
      RightNested(old(fd), named, fd, f);
    }

    method PutName(f: Frame) returns (ok: bool)
      modifies this
      ensures ok <==> Packs(4, f.num) && Packs(4, |f.func|)
      ensures ok ==> fd == old(fd) + ToLE(4, f.num) + ToLE(4, |f.func|) + f.func
    {
      ok := Put(4, f.num);
      if !ok { return; }
      ok := Put(4, |f.func|);
      if !ok { return; }
      fd := fd + f.func;
    }

    /** The same bytes, grouped from the left as they are written or from the right. */
    static lemma RightNested(start: seq<byte>, named: seq<byte>, out: seq<byte>, f: Frame)
      requires FrameFits(f)
      requires named == start + ToLE(4, f.num) + ToLE(4, |f.func|) + f.func
      requires out == named + ToLE(4, |f.regs|) + PackAll(8, f.regs) + ToLE(8, f.base) + ToLE(4, |f.stack|) + f.stack
      ensures out == start + FrameBytes(f)
    {
      var t7 := ToLE(4, |f.stack|) + f.stack;
      var t6 := ToLE(8, f.base) + t7;
      var t5 := PackAll(8, f.regs) + t6;
      var t4 := ToLE(4, |f.regs|) + t5;
      var t3 := f.func + t4;
      var t2 := ToLE(4, |f.func|) + t3;
      assert out == named + t4 by {
        var o5 := named + ToLE(4, |f.regs|);
        var o6 := o5 + PackAll(8, f.regs);
        var o7 := o6 + ToLE(8, f.base);
        Assoc(o7, ToLE(4, |f.stack|), f.stack);
        Assoc(o6, ToLE(8, f.base), t7);
        Assoc(o5, PackAll(8, f.regs), t6);
        Assoc(named, ToLE(4, |f.regs|), t5);
      }
      var o2 := start + ToLE(4, f.num);
      Assoc(o2 + ToLE(4, |f.func|), f.func, t4);
      Assoc(o2, ToLE(4, |f.func|), t3);
      Assoc(start, ToLE(4, f.num), t2);
    }

    method PutFrames(fs: seq<Frame>) returns (ok: bool)
      modifies this
      ensures ok <==> FramesFit(fs)
      ensures ok ==> fd == old(fd) + FramesBytes(fs)
    {
      for i := 0 to |fs|
        invariant FramesFit(fs[..i])
        invariant fd == old(fd) + FramesBytes(fs[..i])
      {
        ghost var before := fd;
        ok := PutFrame(fs[i]);
        if !ok { return; }
        FramesSnoc(fs[..i], fs[i]);
        assert fs[..i + 1] == fs[..i] + [fs[i]];
        Assoc(old(fd), FramesBytes(fs[..i]), FrameBytes(fs[i]));
      }
      assert fs[..|fs|] == fs;
      ok := true;
    }

    method PutThread(t: Thread) returns (ok: bool)
      modifies this
      ensures ok <==> ThreadFits(t)
      ensures ok ==> fd == old(fd) + ThreadBytes(t)
    {
      ghost var o0 := fd;
      Pow256Values();
      ok := Put(4, t.tid);
      if !ok { return; }
      ghost var o1 := fd;
      ok := Put(4, Flag(t.crashed));
      ghost var o2 := fd;
      ok := Put(4, |t.frames|);
      if !ok { return; }
      ok := PutFrames(t.frames);
      if !ok { return; }
      ghost var b3 := ToLE(4, |t.frames|) + FramesBytes(t.frames);
      Assoc(o2, ToLE(4, |t.frames|), FramesBytes(t.frames));
      Assoc(o1, ToLE(4, Flag(t.crashed)), b3);
      Assoc(o0, ToLE(4, t.tid), ToLE(4, Flag(t.crashed)) + b3);
    }

    static lemma NextThread(ts: seq<Thread>, k: nat, start: seq<byte>)
      requires k < |ts| && ThreadsFit(ts[..k]) && ThreadFits(ts[k])
      ensures ThreadsFit(ts[..k + 1])
      ensures start + ThreadsBytes(ts[..k]) + ThreadBytes(ts[k]) == start + ThreadsBytes(ts[..k + 1])
    {
      ThreadsSnoc(ts[..k], ts[k]);
      assert ts[..k + 1] == ts[..k] + [ts[k]];
      Assoc(start, ThreadsBytes(ts[..k]), ThreadBytes(ts[k]));
    }

    /** The loop over the threads stops at the limit. */
    method PutThreads(ts: seq<Thread>, limit: int) returns (ok: bool)
      requires limit >= -1
      modifies this
      ensures ok <==> ThreadsFit(Limited(ts, limit))
      ensures ok ==> fd == old(fd) + ThreadsBytes(Limited(ts, limit))
    {
      ghost var shown := Limited(ts, limit);
      assert shown[..0] == [];
      var tidx := 0;
      while tidx < |ts|
        invariant 0 <= tidx <= |shown| <= |ts|
        invariant ThreadsFit(shown[..tidx])
        invariant fd == old(fd) + ThreadsBytes(shown[..tidx])
      {
        if limit != -1 && tidx >= limit {
          break;
        }
        ghost var before := fd;
        assert tidx < |shown| && ts[tidx] == shown[tidx];
        ok := PutThread(ts[tidx]);
        if !ok { return; }
        assert fd == old(fd) + ThreadsBytes(shown[..tidx + 1]) by {
          NextThread(shown, tidx, old(fd));
        }
        assert ThreadsFit(shown[..tidx + 1]) by {
          NextThread(shown, tidx, old(fd));
        }
        tidx := tidx + 1;
      }
      assert shown[..|shown|] == shown;
      ok := true;
    }

    /** The writer in main: header, then the threads. */
    method WriteContext(ts: seq<Thread>, limit: int) returns (ok: bool)
      modifies this
      ensures ok <==> Writable(ts, limit)
      ensures ok ==> fd == old(fd) + ContextBytes(ts, limit)
    {
      Pow256Values();
      ghost var o0 := fd;
      fd := fd + MAGIC;
      ghost var o1 := fd;
      ok := Put(2, 1);
      ghost var o2 := fd;
      ok := Put(2, 1);
      ghost var o3 := fd;
      var size := if limit != -1 then if |ts| < limit then |ts| else limit else |ts|;
      ok := Put(4, size);
      if !ok { return; }
      ghost var shown := Limited(ts, limit);
      ok := PutThreads(ts, limit);
      if !ok { return; }
      ghost var b3 := ToLE(4, |shown|) + ThreadsBytes(shown);
      Assoc(o3, ToLE(4, |shown|), ThreadsBytes(shown));
      Assoc(o2, ToLE(2, 1), b3);
      Assoc(o1, ToLE(2, 1), ToLE(2, 1) + b3);
      Assoc(o0, MAGIC, ToLE(2, 1) + (ToLE(2, 1) + b3));
    }
  }

  // ----- reading -----

  function Prepend<T>(xs: seq<T>, p: Parse<seq<T>>): Parse<seq<T>> {
    match p
    case Short => Short
    case Read(ys, rest) => Read(xs + ys, rest)
  }

  lemma PrependNil<T>(p: Parse<seq<T>>)
    ensures Prepend([], p) == p
  {
    if p.Read? {
      assert [] + p.value == p.value;
    }
  }

  lemma PrependSnoc<T>(xs: seq<T>, x: T, p: Parse<seq<T>>)
    ensures Prepend(xs + [x], p) == Prepend(xs, Prepend([x], p))
  {
    if p.Read? {
      assert xs + [x] + p.value == xs + ([x] + p.value);
    }
  }

  /** A method's result is the parse of what was left, and the position moved past it. */
  ghost predicate Moved<T>(p: Parse<T>, r: Option<T>, rest: seq<byte>) {
    match p
    case Short => r == None
    case Read(x, tail) => r == Some(x) && rest == tail
  }

  class ContextReader {
    const file: seq<byte>
    var pos: nat
    var context: Context

    constructor (file: seq<byte>)
      ensures this.file == file && pos == 0 && Valid()
    {
      this.file := file;
      pos := 0;
      context := Context(0, 0, []);
    }

    ghost predicate Valid()
      reads this
    {
      pos <= |file|
    }

    ghost function Left(): seq<byte>
      reads this
      requires Valid()
    {
      file[pos..]
    }

    method GetInt(w: nat) returns (r: Option<nat>)
      requires Valid()
      modifies this`pos
      ensures Valid() && Moved(ParseInt(w, old(Left())), r, Left())
    {
      if |file| - pos < w {
        return None;
      }
      r := Some(FromLE(file[pos..pos + w]));
      assert file[pos..pos + w] == Left()[..w];
      pos := pos + w;
    }

    method GetBytes(n: nat) returns (r: Option<seq<byte>>)
      requires Valid()
      modifies this`pos
      ensures Valid() && Moved(ParseBytes(n, old(Left())), r, Left())
    {
      if |file| - pos < n {
        return None;
      }
      r := Some(file[pos..pos + n]);
      assert file[pos..pos + n] == Left()[..n];
      pos := pos + n;
    }

    method GetRegs(n: nat) returns (r: Option<seq<nat>>)
      requires Valid()
      modifies this`pos
      ensures Valid() && Moved(ParseInts(8, n, old(Left())), r, Left())
    {
      var regs: seq<nat> := [];
      PrependNil(ParseInts(8, n, Left()));
      for x := 0 to n
        invariant Valid()
        invariant ParseInts(8, n, old(Left())) == Prepend(regs, ParseInts(8, n - x, Left()))
      {
        ghost var before := regs;
        var reg := GetInt(8);
        if reg.None? {
          return None;
        }
        regs := regs + [reg.value];
        PrependSnoc(before, reg.value, ParseInts(8, n - x - 1, Left()));
      }
      assert regs + [] == regs;
      r := Some(regs);
    }

    method GetFrame() returns (r: Option<Frame>)
      requires Valid()
      modifies this`pos
      ensures Valid() && Moved(ParseFrame(old(Left())), r, Left())
    {
      var num := GetInt(4);
      if num.None? { return None; }
      var funcLen := GetInt(4);
      if funcLen.None? { return None; }
      var func := GetBytes(funcLen.value);
      if func.None? { return None; }
      var regsSize := GetInt(4);
      if regsSize.None? { return None; }
      var regs := GetRegs(regsSize.value);
      if regs.None? { return None; }
      var base := GetInt(8);
      if base.None? { return None; }
      var stackSize := GetInt(4);
      if stackSize.None? { return None; }
      var stack := GetBytes(stackSize.value);
      if stack.None? { return None; }
      r := Some(Frame(num.value, CString(func.value), regs.value, base.value, stack.value));
    }

    method GetFrames(n: nat) returns (r: Option<seq<Frame>>)
      requires Valid()
      modifies this`pos
      ensures Valid() && Moved(ParseFrames(n, old(Left())), r, Left())
    {
      var frames: seq<Frame> := [];
      PrependNil(ParseFrames(n, Left()));
      for l := 0 to n
        invariant Valid()
        invariant ParseFrames(n, old(Left())) == Prepend(frames, ParseFrames(n - l, Left()))
      {
        ghost var before := frames;
        var f := GetFrame();
        if f.None? { return None; }
        frames := frames + [f.value];
        PrependSnoc(before, f.value, ParseFrames(n - l - 1, Left()));
      }
      assert frames + [] == frames;
      r := Some(frames);
    }

    method GetThread() returns (r: Option<LoadedThread>)
      requires Valid()
      modifies this`pos
      ensures Valid() && Moved(ParseThread(old(Left())), r, Left())
    {
      var tid := GetInt(4);
      if tid.None? { return None; }
      var crashed := GetInt(4);
      if crashed.None? { return None; }
      var size := GetInt(4);
      if size.None? { return None; }
      var frames := GetFrames(size.value);
      if frames.None? { return None; }
      r := Some(LoadedThread(tid.value, crashed.value, frames.value));
    }

    method GetThreads(n: nat) returns (r: Option<seq<LoadedThread>>)
      requires Valid()
      modifies this`pos
      ensures Valid() && Moved(ParseThreads(n, old(Left())), r, Left())
    {
      var threads: seq<LoadedThread> := [];
      PrependNil(ParseThreads(n, Left()));
      for i := 0 to n
        invariant Valid()
        invariant ParseThreads(n, old(Left())) == Prepend(threads, ParseThreads(n - i, Left()))
      {
        ghost var before := threads;
        var t := GetThread();
        if t.None? { return None; }
        threads := threads + [t.value];
        PrependSnoc(before, t.value, ParseThreads(n - i - 1, Left()));
      }
      assert threads + [] == threads;
      r := Some(threads);
    }

    /** load_dwarf_context_file: `context` is filled only when the file is read through. */
    method Load() returns (r: Loading)
      requires Valid() && pos == 0
      modifies this
      ensures Valid() && r == ParseContext(file)
      ensures r.Loaded? ==> context == r.context && Left() == r.rest
    {
      if |file| < HEADER_SIZE {
        return TooSmall;
      }
      var magic := file[..4];
      if magic != MAGIC {
        return BadMagic;
      }
      var version, arch, n := FromLE(file[4..6]), FromLE(file[6..8]), FromLE(file[8..12]);
      pos := 12;
      var threads := GetThreads(n);
      if threads.None? {
        return CutShort;
      }
      context := Context(version, arch, threads.value);
      r := Loaded(context, file[pos..]);
    }
  }
}

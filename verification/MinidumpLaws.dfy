/** What reading a minidump promises: byte accounting of item lists, agreement of the thread list
    and the context map, and independence of the order of the directory. */
module MinidumpLaws {
  import opened Words
  import opened MinidumpStreams

  // ----- item lists -----

  /** The i-th slice of `size` bytes from pos on. */
  ghost predicate IsSlice(file: seq<byte>, pos: nat, i: nat, size: nat, item: Item) {
    var at := pos + i * size;
    0 <= at && at + size <= |file| && item == file[at..at + size]
  }

  lemma NextSlice(file: seq<byte>, pos: nat, i: nat, size: nat, item: Item)
    requires IsSlice(file, pos + size, i, size, item)
    ensures IsSlice(file, pos, i + 1, size, item)
  {
    assert (i + 1) * size == size + i * size;
  }

  lemma {:induction false} ItemsAccount(file: seq<byte>, c: Cursor, size: nat, count: nat)
    requires size > 0 && AllHeld(file, c, size, count) && !c.failed
    ensures AfterItems(file, c, size, count) == Cursor(c.pos + count * size, false)
    ensures count > 0 ==> c.pos + count * size <= |file|
    ensures var items := Items(file, c, size, count);
      |items| == count && forall i :: 0 <= i < count ==> IsSlice(file, c.pos, i, size, items[i])
    decreases count
  {
    if count > 0 {
      var next := Skip(file, c, size);
      ItemsAccount(file, next, size, count - 1);
      var items, rest := Items(file, c, size, count), Items(file, next, size, count - 1);
      assert count * size == size + (count - 1) * size;
      assert items == [At(file, c.pos, size)] + rest;
      assert IsSlice(file, c.pos, 0, size, items[0]);
      forall i | 0 < i < count ensures IsSlice(file, c.pos, i, size, items[i]) {
        assert items[i] == rest[i - 1];
        NextSlice(file, c.pos, i - 1, size, items[i]);
      }
    }
  }

  /** A successful read of a list: the cursor ends exactly where the stream does, the number of
      items is the count at its start, and item i is its own slice, after four bytes of padding if
      the stream has them. */
  lemma StreamAccount(file: seq<byte>, c: Cursor, d: Directory, size: nat)
    requires size > 0
    ensures var r, start := ReadStream(file, c, d, [], size), d.location.rva;
      r.ok ==>
        var pad := d.location.size - 4 - |r.items| * size;
        && r.cursor == Cursor(start + d.location.size, false)
        && start + d.location.size <= |file| && d.location.size >= 4
        && |r.items| == FromLE(file[start..start + 4]) <= MAX_ITEMS
        && (pad == 0 || pad == 4)
        && forall i :: 0 <= i < |r.items| ==> IsSlice(file, start + 4 + pad, i, size, r.items[i])
  {
    var r := ReadStream(file, c, d, [], size);
    if r.ok {
      var start := d.location.rva;
      var count := FromLE(file[start..start + 4]);
      var pad := d.location.size - 4 - count * size;
      var body := Cursor(start + 4 + pad, false);
      assert r == ReadItems(file, body, [], size, count);
      assert AllHeld(file, body, size, count);
      ItemsAccount(file, body, size, count);
    }
  }

  // ----- encoding a list -----

  function Join(items: seq<Item>): seq<byte> {
    if items == [] then [] else items[0] + Join(items[1..])
  }

  /** Count, optional padding, items. */
  function ListBytes(items: seq<Item>, padded: bool): seq<byte> {
    ToLE(4, |items|) + (if padded then Zeros(4) else []) + Join(items)
  }

  ghost predicate AllSized(items: seq<Item>, size: nat) {
    forall k :: 0 <= k < |items| ==> |items[k]| == size
  }

  lemma {:induction false} JoinLength(items: seq<Item>, size: nat)
    requires AllSized(items, size)
    ensures |Join(items)| == |items| * size
  {
    if items != [] {
      JoinLength(items[1..], size);
      assert |items| * size == size + |items[1..]| * size;
    }
  }

  lemma SplitSlice(file: seq<byte>, pos: nat, a: seq<byte>, b: seq<byte>)
    requires pos + |a + b| <= |file| && file[pos..pos + |a + b|] == a + b
    ensures file[pos..pos + |a|] == a && file[pos + |a|..pos + |a| + |b|] == b
  {
    assert file[pos..pos + |a + b|][..|a|] == a && file[pos..pos + |a + b|][|a|..] == b;
  }

  lemma {:induction false} ItemsOfJoin(file: seq<byte>, pos: nat, items: seq<Item>, size: nat)
    requires AllSized(items, size)
    requires pos + |Join(items)| <= |file| && file[pos..pos + |Join(items)|] == Join(items)
    ensures AllHeld(file, Cursor(pos, false), size, |items|)
    ensures Items(file, Cursor(pos, false), size, |items|) == items
    ensures AfterItems(file, Cursor(pos, false), size, |items|) == Cursor(pos + |Join(items)|, false)
    decreases |items|
  {
    if items != [] {
      var first, rest := items[0], items[1..];
      SplitSlice(file, pos, first, Join(rest));
      ItemsOfJoin(file, pos + size, rest, size);
      assert [first] + rest == items;
    }
  }

  /** Where a middle part stands. */
  lemma MiddleSlice(a: seq<byte>, b: seq<byte>, c: seq<byte>)
    ensures |a + b + c| == |a| + |b| + |c| && (a + b + c)[|a|..|a| + |b|] == b
  {
  }

  /** Where the count and the items stand in a file that holds an encoded list. */
  lemma ListPlaces(before: seq<byte>, items: seq<Item>, padded: bool, after: seq<byte>) returns (body: nat)
    requires |items| <= MAX_UINT32
    ensures body == |before| + 4 + if padded then 4 else 0
    ensures var b := ListBytes(items, padded);
      var file := before + b + after;
      && |before| + |b| <= |file| && body + |Join(items)| == |before| + |b|
      && FromLE(file[|before|..|before| + 4]) == |items|
      && file[body..body + |Join(items)|] == Join(items)
  {
    var b, count := ListBytes(items, padded), ToLE(4, |items|);
    var file := before + b + after;
    var padding: seq<byte> := if padded then Zeros(4) else [];
    var head := before + (count + padding);
    body := |head|;
    assert file == before + count + (padding + Join(items) + after);
    MiddleSlice(before, count, padding + Join(items) + after);
    assert file == head + Join(items) + after;
    MiddleSlice(head, Join(items), after);
    CountReads(|items|);
  }

  lemma CountReads(n: nat)
    requires n <= MAX_UINT32
    ensures FromLE(ToLE(4, n)) == n && |ToLE(4, n)| == 4
  {
    Pow256Values();
    FromToLE(4, n);
  }

  /** Reading inverts the encoding of a list, with and without the padding, wherever it stands in
      the file. */
  lemma ListRoundTrip(before: seq<byte>, items: seq<Item>, padded: bool, after: seq<byte>, size: nat, c: Cursor)
    requires size > 0 && AllSized(items, size) && |items| <= MAX_ITEMS && |items| <= MAX_UINT32 / size && !c.failed
    ensures var b := ListBytes(items, padded);
      var d := Directory(0, Location(|b|, |before|));
      ReadStream(before + b + after, c, d, [], size) == StreamResult(true, items, Cursor(|before| + |b|, false))
  {
    var b := ListBytes(items, padded);
    var file := before + b + after;
    JoinLength(items, size);
    var body := ListPlaces(before, items, padded, after);
    ItemsOfJoin(file, body, items, size);
    var d := Directory(0, Location(|b|, |before|));
    assert ReadStream(file, c, d, [], size) == ReadItems(file, Cursor(body, false), [], size, |items|);
    if |items| == 0 {
      assert items == [];
    }
  }

  // ----- threads and contexts -----

  /** The linear scan of GetThread. */
  function FindThread(ts: seq<Item>, id: nat): Option<Item> {
    if ts == [] then None
    else if ThreadId(ts[0]) == id then Some(ts[0])
    else FindThread(ts[1..], id)
  }

  lemma {:induction false} AddContextsKeeps(read: Reader, ts: seq<Item>, m: map<nat, nat>, c: Cursor)
    ensures var all := AddContexts(read, ts, m, c);
      && (forall id :: id in m ==> id in all.0 && all.0[id] == m[id])
      && (all.2 ==> forall id :: id !in m ==>
            match FindThread(ts, id)
            case None => id !in all.0
            case Some(t) => id in all.0 && read(ThreadContext(t)) == Got(all.0[id]))
    decreases ts
  {
    if ts != [] && !c.failed {
      var r := read(ThreadContext(ts[0]));
      if r.Got? {
        AddContextsKeeps(read, ts[1..], Insert(m, ThreadId(ts[0]), r.context), c);
      }
    }
  }

  /** After a successful read of the thread list into an empty map, GetContext gives for every id,
      duplicated ones included, the context of exactly the thread that the scan finds. */
  lemma ThreadsAndContextsAgree(file: seq<byte>, read: Reader, s: Dump, d: Directory, id: nat)
    requires s.contexts == map[]
    requires var r := ReadStream(file, s.cursor, d, s.threads, THREAD_SIZE);
      r.ok && AddContexts(read, r.items, map[], r.cursor).2
    ensures var t := DoThreads(file, read, s, d);
      match FindThread(t.threads, id)
      case None => GetContext(t, id) == None
      case Some(thread) => GetContext(t, id).Some? && read(ThreadContext(thread)) == Got(GetContext(t, id).value)
  {
    var r := ReadStream(file, s.cursor, d, s.threads, THREAD_SIZE);
    AddContextsKeeps(read, r.items, map[], r.cursor);
  }

  // ----- memory -----

  /** The first range that accepts a request. */
  function FirstAccepting(ms: seq<Item>, address: Word, size: Word): Option<Range> {
    if ms == [] then None
    else if Accepts(RangeOf(ms[0]), address, size) then Some(RangeOf(ms[0]))
    else FirstAccepting(ms[1..], address, size)
  }

  lemma {:induction false} FailedFindsNothing(file: seq<byte>, c: Cursor, ms: seq<Item>, address: Word, size: Word)
    requires c.failed
    ensures FindMemory(file, c, ms, address, size) == (None, c)
    decreases ms
  {
    if ms != [] {
      FailedFindsNothing(file, c, ms[1..], address, size);
    }
  }

  /** Only the first accepting range is ever read: when its bytes are not all in the file the
      stream is spoiled, and the ranges after it cannot be read either. */
  lemma {:induction false} MemoryIsFirstAccepting(file: seq<byte>, c: Cursor, ms: seq<Item>, address: Word, size: Word)
    requires !c.failed
    ensures var (got, after) := FindMemory(file, c, ms, address, size);
      match FirstAccepting(ms, address, size)
      case None => got == None && after == c
      case Some(m) =>
        && m.start <= address
        && var at := PlaceOf(m, address);
        && (got.Some? <==> size == 0 || at + size <= |file|) && (after.failed <==> got.None?)
        && (got.Some? ==> got.value == if size == 0 then [] else file[at..at + size])
    decreases ms
  {
    if ms != [] {
      var m := RangeOf(ms[0]);
      if !Accepts(m, address, size) {
        MemoryIsFirstAccepting(file, c, ms[1..], address, size);
      } else {
        var at := Seek(c, PlaceOf(m, address));
        if !Holds(file, at, size) {
          FailedFindsNothing(file, Skip(file, at, size), ms[1..], address, size);
        }
      }
    }
  }

  /** The guard accepts exactly the requests that begin in the range and end in it, when neither
      end wraps; a request that wraps is accepted though it reaches beyond the range's bytes. */
  lemma AcceptedIsWithinIff(m: Range, address: Word, size: Word)
    requires m.data.size < TWO32
    ensures m.start + m.data.size < TWO64 && address + size < TWO64 ==>
      (Accepts(m, address, size) <==>
         m.start <= address < m.start + m.data.size && address + size <= m.start + m.data.size)
    ensures Accepts(m, address, size) ==>
      (PlaceOf(m, address) + size <= m.data.rva + m.data.size <==> address + size < TWO64)
    ensures m.start + m.data.size >= TWO64 ==> !Accepts(m, address, size)
  {
  }

  /** What is served is a part of the range's own bytes, at the request's distance from its start. */
  lemma {:induction false} MemoryIsPartOfRange(
      file: seq<byte>, c: Cursor, ms: seq<Item>, address: Word, size: Word, m: Range)
    requires !c.failed && FirstAccepting(ms, address, size) == Some(m)
    requires m.data.size < TWO32 && m.data.rva + m.data.size <= |file| && address + size < TWO64
    ensures var bytes, k := At(file, m.data.rva, m.data.size), address - m.start;
      0 <= k && k + size <= |bytes|
      && FindMemory(file, c, ms, address, size).0 == Some(bytes[k..k + size])
  {
    MemoryIsFirstAccepting(file, c, ms, address, size);
    FirstAcceptingAccepts(ms, address, size);
    AcceptedIsWithinIff(m, address, size);
    PartOfPart(file, m.data.rva, m.data.size, address - m.start, size);
  }

  lemma PartOfPart(file: seq<byte>, pos: nat, n: nat, k: nat, m: nat)
    requires pos + n <= |file| && k + m <= n
    ensures file[pos..pos + n][k..k + m] == file[pos + k..pos + k + m]
  {
    var a, b := file[pos..pos + n][k..k + m], file[pos + k..pos + k + m];
    assert |a| == |b| && forall i :: 0 <= i < m ==> a[i] == b[i];
  }

  lemma {:induction false} FirstAcceptingAccepts(ms: seq<Item>, address: Word, size: Word)
    ensures var m := FirstAccepting(ms, address, size); m.Some? ==> Accepts(m.value, address, size)
  {
    if ms != [] {
      FirstAcceptingAccepts(ms[1..], address, size);
    }
  }

  // ----- the order of the directory -----

  predicate Known(kind: nat) {
    THREAD_LIST <= kind <= SYSTEM_INFO
  }

  function Count(ds: seq<Directory>, kind: nat): nat {
    if ds == [] then 0 else (if ds[0].kind == kind then 1 else 0) + Count(ds[1..], kind)
  }

  ghost predicate AtMostOnce(ds: seq<Directory>) {
    forall kind :: Known(kind) ==> Count(ds, kind) <= 1
  }

  ghost predicate InFile(file: seq<byte>, ds: seq<Directory>) {
    forall k :: 0 <= k < |ds| && Known(ds[k].kind) ==> ds[k].location.rva + ds[k].location.size <= |file|
  }

  function Find(ds: seq<Directory>, kind: nat): Option<Directory> {
    if ds == [] then None
    else if ds[0].kind == kind then Some(ds[0])
    else Find(ds[1..], kind)
  }

  /** What one stream contributes, read on its own. */
  function ListOf(file: seq<byte>, d: Option<Directory>, size: nat): StreamResult
    requires size > 0
  {
    if d.None? then StreamResult(false, [], Cursor(0, false)) else ReadStream(file, Cursor(0, false), d.value, [], size)
  }

  function RecordOf(file: seq<byte>, d: Option<Directory>, size: nat): StreamResult {
    if d.None? then StreamResult(false, [Zeros(size)], Cursor(0, false))
    else ReadSingle(file, Cursor(0, false), d.value, Zeros(size), size)
  }

  /** No thread of the list names a context that runs past the end of the file. */
  ghost predicate NoneShort(read: Reader, ts: seq<Item>) {
    forall k :: 0 <= k < |ts| ==> !read(ThreadContext(ts[k])).RanShort?
  }

  ghost predicate ThreadsInFile(file: seq<byte>, read: Reader, t: Option<Directory>) {
    var r := ListOf(file, t, THREAD_SIZE);
    r.ok ==> NoneShort(read, r.items)
  }

  ghost predicate ExceptionInFile(file: seq<byte>, read: Reader, e: Option<Directory>) {
    var r := RecordOf(file, e, EXCEPTION_SIZE);
    r.ok ==> !read(ExceptionContext(r.items[0])).RanShort?
  }

  /** The contexts that the dump's own threads and exception record name lie inside the file. */
  ghost predicate ContextsInFile(file: seq<byte>, read: Reader, ds: seq<Directory>) {
    ThreadsInFile(file, read, Find(ds, THREAD_LIST)) && ExceptionInFile(file, read, Find(ds, EXCEPTION))
  }

  function ThreadContexts(read: Reader, r: StreamResult): map<nat, nat> {
    if r.ok then AddContexts(read, r.items, map[], Cursor(0, false)).0 else map[]
  }

  function ExceptionContexts(read: Reader, r: StreamResult): map<nat, nat>
    requires |r.items| == 1
  {
    if r.ok && read(ExceptionContext(r.items[0])).Got?
    then map[ThreadId(r.items[0]) := read(ExceptionContext(r.items[0])).context]
    else map[]
  }

  /** The dump as a function of the five streams, without their order: the exception's context wins
      over the thread list's. */
  function Outcome(file: seq<byte>, read: Reader, t: Option<Directory>, m: Option<Directory>, y: Option<Directory>,
                   e: Option<Directory>, i: Option<Directory>): Dump
  {
    var threads, exception := ListOf(file, t, THREAD_SIZE), RecordOf(file, e, EXCEPTION_SIZE);
    Dump(EMPTY.cursor, threads.items, ListOf(file, m, MODULE_SIZE).items, ListOf(file, y, MEMORY_SIZE).items,
         exception.items[0], RecordOf(file, i, SYSTEM_INFO_SIZE).items[0],
         ThreadContexts(read, threads) + ExceptionContexts(read, exception))
  }

  function Rewound(s: Dump): Dump {
    s.(cursor := EMPTY.cursor)
  }

  ghost predicate IsResult(file: seq<byte>, read: Reader, ds: seq<Directory>, s: Dump) {
    && !s.cursor.failed
    && Rewound(s) == Outcome(file, read, Find(ds, THREAD_LIST), Find(ds, MODULE_LIST), Find(ds, MEMORY_LIST),
                             Find(ds, EXCEPTION), Find(ds, SYSTEM_INFO))
  }

  lemma {:induction false} ItemsStay(file: seq<byte>, c: Cursor, size: nat, count: nat)
    requires !c.failed && c.pos + count * size <= |file|
    ensures AllHeld(file, c, size, count)
    ensures !AfterItems(file, c, size, count).failed
    decreases count
  {
    if count > 0 {
      assert count * size == size + (count - 1) * size;
      assert (count - 1) * size >= 0;
      ItemsStay(file, Skip(file, c, size), size, count - 1);
    }
  }

  /** A stream inside the file is read the same from any position and never spoils the stream. */
  lemma ListAnywhere(file: seq<byte>, c: Cursor, d: Directory, size: nat)
    requires size > 0 && !c.failed && d.location.rva + d.location.size <= |file|
    ensures var r, o := ReadStream(file, c, d, [], size), ReadStream(file, Cursor(0, false), d, [], size);
      r.ok == o.ok && r.items == o.items && !r.cursor.failed
  {
    if d.location.size >= 4 {
      var start := d.location.rva;
      var count := FromLE(file[start..start + 4]);
      if d.location.size == 4 + count * size {
        ItemsStay(file, Cursor(start + 4, false), size, count);
      } else if d.location.size == 8 + count * size {
        assert count * size >= 0;
        ItemsStay(file, Cursor(start + 8, false), size, count);
      }
    }
  }

  lemma {:induction false} AddContextsOver(
        read: Reader, ts: seq<Item>, m: map<nat, nat>, n: map<nat, nat>, c: Cursor, e: Cursor)
    requires !c.failed && !e.failed && NoneShort(read, ts)
    ensures AddContexts(read, ts, m + n, c).0 == AddContexts(read, ts, m, e).0 + n
    ensures AddContexts(read, ts, m + n, c).1 == c
    decreases ts
  {
    if ts != [] {
      var r, id := read(ThreadContext(ts[0])), ThreadId(ts[0]);
      if r.Got? {
        assert Insert(m + n, id, r.context) == Insert(m, id, r.context) + n;
        AddContextsOver(read, ts[1..], Insert(m, id, r.context), n, c, e);
      }
    }
  }

  lemma {:induction false} CountZero(ds: seq<Directory>, kind: nat)
    ensures Count(ds, kind) == 0 <==> Find(ds, kind) == None
  {
    if ds != [] {
      CountZero(ds[1..], kind);
    }
  }

  lemma {:induction false} FindSnoc(ds: seq<Directory>, d: Directory, kind: nat)
    ensures Count(ds + [d], kind) == Count(ds, kind) + if d.kind == kind then 1 else 0
    ensures Find(ds + [d], kind) ==
      if Find(ds, kind).Some? then Find(ds, kind) else if d.kind == kind then Some(d) else None
  {
    if ds != [] {
      FindSnoc(ds[1..], d, kind);
      assert (ds + [d])[1..] == ds[1..] + [d];
    } else {
      assert ds + [d] == [d] && [d][1..] == [];
    }
  }

  /** A thread list met after, or before, the exception: its contexts go under the exception's. */
  lemma ThreadsOutcome(file: seq<byte>, read: Reader, d: Directory, s: Dump, m: Option<Directory>, y: Option<Directory>,
                       e: Option<Directory>, i: Option<Directory>)
    requires ThreadsInFile(file, read, Some(d)) && d.location.rva + d.location.size <= |file| && !s.cursor.failed
    requires Rewound(s) == Outcome(file, read, None, m, y, e, i)
    ensures var n := DoThreads(file, read, s, d);
      !n.cursor.failed && Rewound(n) == Outcome(file, read, Some(d), m, y, e, i)
  {
    ListAnywhere(file, s.cursor, d, THREAD_SIZE);
    var r := ReadStream(file, s.cursor, d, [], THREAD_SIZE);
    assert map[] + s.contexts == s.contexts;
    if r.ok {
      AddContextsOver(read, r.items, map[], s.contexts, r.cursor, Cursor(0, false));
    }
    var x := ExceptionContexts(read, RecordOf(file, e, EXCEPTION_SIZE));
    assert map[] + x == x;
  }

  lemma ExceptionOutcome(
        file: seq<byte>, read: Reader, d: Directory, s: Dump, t: Option<Directory>, m: Option<Directory>,
                         y: Option<Directory>, i: Option<Directory>)
    requires ExceptionInFile(file, read, Some(d)) && d.location.rva + d.location.size <= |file| && !s.cursor.failed
    requires Rewound(s) == Outcome(file, read, t, m, y, None, i)
    ensures var n := DoException(file, read, s, d);
      !n.cursor.failed && Rewound(n) == Outcome(file, read, t, m, y, Some(d), i)
  {
    var c, was := s.contexts, s.exception;
    RecordAnywhere(file, s.cursor, d, was, EXCEPTION_SIZE);
    var r := ReadSingle(file, s.cursor, d, was, EXCEPTION_SIZE);
    var n := DoException(file, read, s, d);
    var x := ExceptionContexts(read, RecordOf(file, Some(d), EXCEPTION_SIZE));
    assert n.contexts == c + x by {
      var id := ThreadId(r.items[0]);
      assert c + map[] == c;
      assert forall v: nat :: c[id := v] == c + map[id := v];
    }
    var empty: map<nat, nat> := map[];
    assert ExceptionContexts(read, RecordOf(file, None, EXCEPTION_SIZE)) == empty;
    var base := ThreadContexts(read, ListOf(file, t, THREAD_SIZE));
    assert base + empty == base;
  }

  lemma RecordAnywhere(file: seq<byte>, c: Cursor, d: Directory, was: Item, size: nat)
    requires !c.failed && d.location.rva + d.location.size <= |file|
    ensures var r, o := ReadSingle(file, c, d, was, size), ReadSingle(file, Cursor(0, false), d, was, size);
      r.ok == o.ok && r.items == o.items && !r.cursor.failed
  {
  }

  lemma OtherOutcomes(file: seq<byte>, read: Reader, d: Directory, s: Dump, t: Option<Directory>, m: Option<Directory>,
                      y: Option<Directory>, e: Option<Directory>, i: Option<Directory>)
    requires d.location.rva + d.location.size <= |file| && !s.cursor.failed
    requires Rewound(s) == Outcome(file, read, t, m, y, e, i)
    ensures m == None ==> var n := DoModules(file, s, d);
      !n.cursor.failed && Rewound(n) == Outcome(file, read, t, Some(d), y, e, i)
    ensures y == None ==> var n := DoMemories(file, s, d);
      !n.cursor.failed && Rewound(n) == Outcome(file, read, t, m, Some(d), e, i)
    ensures i == None ==> var n := DoSystemInfo(file, s, d);
      !n.cursor.failed && Rewound(n) == Outcome(file, read, t, m, y, e, Some(d))
  {
    ListAnywhere(file, s.cursor, d, MODULE_SIZE);
    ListAnywhere(file, s.cursor, d, MEMORY_SIZE);
  }

  /** One more stream, of a kind not yet met. */
  lemma DispatchKeepsResult(file: seq<byte>, read: Reader, ds: seq<Directory>, d: Directory, s: Dump)
    requires Known(d.kind) ==> d.location.rva + d.location.size <= |file|
    requires d.kind == THREAD_LIST ==> ThreadsInFile(file, read, Some(d))
    requires d.kind == EXCEPTION ==> ExceptionInFile(file, read, Some(d))
    requires IsResult(file, read, ds, s) && (Known(d.kind) ==> Find(ds, d.kind) == None)
    ensures IsResult(file, read, ds + [d], Dispatch(file, read, s, d))
  {
    var t, m, y := Find(ds, THREAD_LIST), Find(ds, MODULE_LIST), Find(ds, MEMORY_LIST);
    var e, i := Find(ds, EXCEPTION), Find(ds, SYSTEM_INFO);
    FindSnoc(ds, d, THREAD_LIST);
    FindSnoc(ds, d, MODULE_LIST);
    FindSnoc(ds, d, MEMORY_LIST);
    FindSnoc(ds, d, EXCEPTION);
    FindSnoc(ds, d, SYSTEM_INFO);
    if d.kind == THREAD_LIST {
      ThreadsOutcome(file, read, d, s, m, y, e, i);
    } else if d.kind == EXCEPTION {
      ExceptionOutcome(file, read, d, s, t, m, y, i);
    } else if Known(d.kind) {
      OtherOutcomes(file, read, d, s, t, m, y, e, i);
    }
  }

  lemma {:induction false} ReadAllSnoc(file: seq<byte>, read: Reader, s: Dump, ds: seq<Directory>, d: Directory)
    ensures ReadAll(file, read, s, ds + [d]) == Dispatch(file, read, ReadAll(file, read, s, ds), d)
    decreases ds
  {
    if ds == [] {
      assert ds + [d] == [d] && [d][1..] == [];
    } else {
      assert (ds + [d])[1..] == ds[1..] + [d];
      ReadAllSnoc(file, read, Dispatch(file, read, s, ds[0]), ds[1..], d);
    }
  }

  /** Reading the whole directory gives the dump of its streams. */
  lemma {:induction false} ReadAllResult(file: seq<byte>, read: Reader, ds: seq<Directory>)
    requires InFile(file, ds) && ContextsInFile(file, read, ds) && AtMostOnce(ds)
    ensures IsResult(file, read, ds, ReadAll(file, read, EMPTY, ds))
    decreases |ds|
  {
    if ds != [] {
      var init, d := ds[..|ds| - 1], ds[|ds| - 1];
      assert ds == init + [d];
      forall kind | Known(kind) ensures Count(init, kind) <= 1 && (d.kind == kind ==> Find(init, kind) == None) {
        CountZero(init, kind);
        FindSnoc(init, d, kind);
        assert Count(ds, kind) <= 1;
      }
      FindSnoc(init, d, THREAD_LIST);
      FindSnoc(init, d, EXCEPTION);
      ReadAllResult(file, read, init);
      ReadAllSnoc(file, read, EMPTY, init, d);
      DispatchKeepsResult(file, read, init, d, ReadAll(file, read, EMPTY, init));
    }
  }

  /** Once the stream has failed nothing more is read: a context that runs past the end of the file
      loses every stream after it, which is why the order matters then. */
  lemma {:induction false} FailureIsFinal(file: seq<byte>, read: Reader, s: Dump, ds: seq<Directory>)
    requires s.cursor.failed
    ensures ReadAll(file, read, s, ds) == s
    decreases ds
  {
    if ds != [] {
      FailureIsFinal(file, read, s, ds[1..]);
    }
  }

  // ----- permutations -----

  lemma {:induction false} CountConcat(a: seq<Directory>, b: seq<Directory>, kind: nat)
    ensures Count(a + b, kind) == Count(a, kind) + Count(b, kind)
  {
    if a == [] {
      assert a + b == b;
    } else {
      assert (a + b)[1..] == a[1..] + b;
      CountConcat(a[1..], b, kind);
    }
  }

  lemma CountMoved(left: seq<Directory>, d: Directory, right: seq<Directory>, kind: nat)
    ensures Count(left + ([d] + right), kind) == (if d.kind == kind then 1 else 0) + Count(left + right, kind)
  {
    CountConcat(left, [d] + right, kind);
    CountConcat(left, right, kind);
    assert ([d] + right)[1..] == right;
  }

  lemma RemoveBoth(d: Directory, rest: seq<Directory>, left: seq<Directory>, right: seq<Directory>)
    requires multiset([d] + rest) == multiset(left + ([d] + right))
    ensures multiset(rest) == multiset(left + right)
  {
    assert multiset(left + ([d] + right)) == multiset(left) + (multiset{d} + multiset(right));
    assert multiset([d] + rest) == multiset{d} + multiset(rest);
    assert multiset(rest) == multiset{d} + multiset(rest) - multiset{d};
  }

  lemma Locate(ds: seq<Directory>, es: seq<Directory>, d: Directory) returns (k: nat)
    requires multiset(ds) == multiset(es) && d in ds
    ensures k < |es| && es[k] == d
  {
    assert d in multiset(es);
    k :| 0 <= k < |es| && es[k] == d;
  }

  lemma {:induction false} PermutedCount(ds: seq<Directory>, es: seq<Directory>, kind: nat)
    requires multiset(ds) == multiset(es)
    ensures Count(ds, kind) == Count(es, kind)
    decreases |ds|
  {
    if ds == [] {
      assert |multiset(es)| == 0;
    } else {
      var d, rest := ds[0], ds[1..];
      var k := Locate(ds, es, d);
      var left, right := es[..k], es[k + 1..];
      assert es == left + ([d] + right) && ds == [d] + rest;
      RemoveBoth(d, rest, left, right);
      PermutedCount(rest, left + right, kind);
      CountMoved(left, d, right, kind);
    }
  }

  lemma {:induction false} FindMember(ds: seq<Directory>, kind: nat, d: Directory)
    requires d in ds && d.kind == kind && Count(ds, kind) <= 1
    ensures Find(ds, kind) == Some(d)
  {
    if ds[0] != d {
      assert d in ds[1..];
      CountZero(ds[1..], kind);
      FindMember(ds[1..], kind, d);
    }
  }

  lemma {:induction false} FindIsMember(ds: seq<Directory>, kind: nat)
    ensures Find(ds, kind).Some? ==> Find(ds, kind).value in ds && Find(ds, kind).value.kind == kind
  {
    if ds != [] && ds[0].kind != kind {
      FindIsMember(ds[1..], kind);
    }
  }

  lemma PermutedFind(ds: seq<Directory>, es: seq<Directory>, kind: nat)
    requires multiset(ds) == multiset(es) && Count(ds, kind) <= 1
    ensures Find(ds, kind) == Find(es, kind)
  {
    PermutedCount(ds, es, kind);
    CountZero(ds, kind);
    CountZero(es, kind);
    FindIsMember(ds, kind);
    if Find(ds, kind).Some? {
      var d := Find(ds, kind).value;
      assert d in multiset(es);
      FindMember(es, kind, d);
    }
  }

  /** When each stream type occurs at most once, and the streams read and the contexts that they name
      lie inside the file, any order of
      the directory gives the same threads, modules, memories, exception, system info and
      contexts. */
  lemma OrderDoesNotMatter(file: seq<byte>, read: Reader, ds: seq<Directory>, es: seq<Directory>)
    requires InFile(file, ds) && ContextsInFile(file, read, ds) && AtMostOnce(ds) && multiset(ds) == multiset(es)
    ensures Rewound(ReadAll(file, read, EMPTY, ds)) == Rewound(ReadAll(file, read, EMPTY, es))
  {
    forall kind | Known(kind) ensures Count(es, kind) <= 1 && Find(ds, kind) == Find(es, kind) {
      assert Count(ds, kind) <= 1;
      PermutedCount(ds, es, kind);
      PermutedFind(ds, es, kind);
    }
    forall k | 0 <= k < |es| && Known(es[k].kind) ensures es[k].location.rva + es[k].location.size <= |file| {
      assert es[k] in multiset(ds);
    }
    ReadAllResult(file, read, ds);
    ReadAllResult(file, read, es);
  }

  /** In any order, the crash thread's context is the exception record's, if it can be read. */
  lemma CrashContextIsExceptions(file: seq<byte>, read: Reader, ds: seq<Directory>)
    requires InFile(file, ds) && ContextsInFile(file, read, ds) && AtMostOnce(ds)
    requires Find(ds, EXCEPTION).Some? && Find(ds, EXCEPTION).value.location.size == EXCEPTION_SIZE
    ensures var s := ReadAll(file, read, EMPTY, ds);
      read(ExceptionContext(s.exception)).Got? ==>
        GetContext(s, ThreadId(s.exception)) == Some(read(ExceptionContext(s.exception)).context)
  {
    ReadAllResult(file, read, ds);
    FindIsMember(ds, EXCEPTION);
    var d := Find(ds, EXCEPTION).value;
    assert d.location.rva + d.location.size <= |file|;
  }
}

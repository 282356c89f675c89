/** What the minidump reader takes from which bytes: the layouts of its records, the stream types, and
    exactly when a stream is read. */
module MinidumpRecords {
  import opened Words
  import opened MinidumpStreams
  import opened MinidumpLaws

  // ----- records as bytes -----

  /** MDMemoryDescriptor: the first address, then the size of the data, then its place in the file. */
  datatype Descriptor = Descriptor(start: Word, size: nat, rva: nat)

  predicate Fits(d: Descriptor) {
    d.size <= MAX_UINT32 && d.rva <= MAX_UINT32
  }

  function DescriptorBytes(d: Descriptor): Item {
    ToLE(8, d.start) + ToLE(4, d.size) + ToLE(4, d.rva)
  }

  function DescriptorList(ds: seq<Descriptor>): (r: seq<Item>)
    ensures |r| == |ds| && forall k :: 0 <= k < |r| ==> r[k] == DescriptorBytes(ds[k])
  {
    if ds == [] then [] else [DescriptorBytes(ds[0])] + DescriptorList(ds[1..])
  }

  /** MDRawThread: the id first and the location of the context last, its size before its place. */
  function ThreadBytes(id: nat, middle: seq<byte>, size: nat, rva: nat): Item {
    ToLE(4, id) + middle + (ToLE(4, size) + ToLE(4, rva))
  }

  /** The bytes of a 32-bit field read back. */
  lemma FieldReads(before: seq<byte>, w: nat, x: nat, after: seq<byte>)
    requires x < Pow256(w)
    ensures var b := before + ToLE(w, x) + after;
      |b| == |before| + w + |after| && FromLE(b[|before|..|before| + w]) == x
  {
    FromToLE(w, x);
    MiddleSlice(before, ToLE(w, x), after);
  }

  /** The last eight bytes of a record as a location. */
  lemma LocationReads(before: seq<byte>, size: nat, rva: nat)
    requires size <= MAX_UINT32 && rva <= MAX_UINT32
    ensures LocationAt(before + (ToLE(4, size) + ToLE(4, rva)), |before|) == Location(size, rva)
  {
    Pow256Values();
    var t := before + (ToLE(4, size) + ToLE(4, rva));
    assert t == before + ToLE(4, size) + ToLE(4, rva);
    FieldReads(before, 4, size, ToLE(4, rva));
    assert t == (before + ToLE(4, size)) + ToLE(4, rva) + [];
    FieldReads(before + ToLE(4, size), 4, rva, []);
  }

  lemma DescriptorReads(d: Descriptor)
    requires Fits(d)
    ensures RangeOf(DescriptorBytes(d)) == Range(d.start, Location(d.size, d.rva))
  {
    var m := DescriptorBytes(d);
    assert m == ToLE(8, d.start) + (ToLE(4, d.size) + ToLE(4, d.rva));
    LocationReads(ToLE(8, d.start), d.size, d.rva);
    Pow256Values();
    FromToLE(8, d.start);
    assert m[..8] == ToLE(8, d.start);
  }

  lemma ThreadReads(id: nat, middle: seq<byte>, size: nat, rva: nat)
    requires id <= MAX_UINT32 && |middle| == 36 && size <= MAX_UINT32 && rva <= MAX_UINT32
    ensures var t := ThreadBytes(id, middle, size, rva);
      |t| == 48 && ThreadId(t) == id && ThreadContext(t) == Location(size, rva)
  {
    var t := ThreadBytes(id, middle, size, rva);
    LocationReads(ToLE(4, id) + middle, size, rva);
    Pow256Values();
    FromToLE(4, id);
    assert t[..4] == ToLE(4, id);
  }

  /** MDRawExceptionStream has the same shape, with the location at 160. */
  lemma ExceptionReads(id: nat, middle: seq<byte>, size: nat, rva: nat)
    requires id <= MAX_UINT32 && |middle| == 156 && size <= MAX_UINT32 && rva <= MAX_UINT32
    ensures var e := ThreadBytes(id, middle, size, rva);
      |e| == 168 && ThreadId(e) == id && ExceptionContext(e) == Location(size, rva)
  {
    var e := ThreadBytes(id, middle, size, rva);
    LocationReads(ToLE(4, id) + middle, size, rva);
    Pow256Values();
    FromToLE(4, id);
    assert e[..4] == ToLE(4, id);
  }

  // ----- memory -----

  predicate Describes(d: Descriptor, address: Word, n: Word) {
    d.start <= address < d.start + d.size && address + n <= d.start + d.size
  }

  /** Range k describes the request, and none before it does; no range so far wraps. */
  ghost predicate FirstDescribes(ds: seq<Descriptor>, k: nat, address: Word, n: Word)
    requires k < |ds|
  {
    && Describes(ds[k], address, n)
    && (forall j :: 0 <= j <= k ==> Fits(ds[j]) && ds[j].start + ds[j].size < TWO64)
    && forall j :: 0 <= j < k ==> !Describes(ds[j], address, n)
  }

  function AsRange(d: Descriptor): Range {
    Range(d.start, Location(d.size, d.rva))
  }

  lemma {:induction false} FirstHolding(ds: seq<Descriptor>, k: nat, address: Word, n: Word)
    requires k < |ds| && FirstDescribes(ds, k, address, n) && address + n < TWO64
    ensures FirstAccepting(DescriptorList(ds), address, n) == Some(AsRange(ds[k]))
    decreases k
  {
    DescriptorReads(ds[0]);
    AcceptedIsWithinIff(RangeOf(DescriptorBytes(ds[0])), address, n);
    if k > 0 {
      FirstHolding(ds[1..], k - 1, address, n);
      assert DescriptorList(ds)[1..] == DescriptorList(ds[1..]);
    }
  }

  /** A request inside a described range, and in none before it, is served the bytes of the file at
      the range's place plus the request's distance from the range's start. */
  lemma {:induction false} DescribedMemory(
      file: seq<byte>, c: Cursor, ds: seq<Descriptor>, k: nat, address: Word, n: Word)
    requires k < |ds| && FirstDescribes(ds, k, address, n) && address + n < TWO64
    requires !c.failed && ds[k].rva + ds[k].size <= |file|
    ensures var at := ds[k].rva + (address - ds[k].start);
      at + n <= |file| && FindMemory(file, c, DescriptorList(ds), address, n).0 == Some(file[at..at + n])
  {
    var d, ms := ds[k], DescriptorList(ds);
    FirstHolding(ds, k, address, n);
    assert d.start <= address && d.rva + (address - d.start) + n <= |file|;
    ServedFrom(file, c, ms, address, n, AsRange(d));
  }

  lemma {:induction false} ServedFrom(file: seq<byte>, c: Cursor, ms: seq<Item>, address: Word, n: Word, m: Range)
    requires !c.failed && FirstAccepting(ms, address, n) == Some(m) && m.start <= address
    requires m.data.rva + (address - m.start) + n <= |file|
    ensures var at := m.data.rva + (address - m.start);
      FindMemory(file, c, ms, address, n).0 == Some(file[at..at + n])
  {
    MemoryIsFirstAccepting(file, c, ms, address, n);
    assert n == 0 ==> file[PlaceOf(m, address)..PlaceOf(m, address) + n] == [];
  }

  /** A request in no described range finds nothing and leaves the stream where it is. */
  lemma {:induction false} UndescribedMemory(file: seq<byte>, c: Cursor, ds: seq<Descriptor>, address: Word, n: Word)
    requires address + n < TWO64
    requires forall j :: 0 <= j < |ds| ==>
      Fits(ds[j]) && ds[j].start + ds[j].size < TWO64 && !Describes(ds[j], address, n)
    ensures FindMemory(file, c, DescriptorList(ds), address, n) == (None, c)
    decreases |ds|
  {
    if ds != [] {
      DescriptorReads(ds[0]);
      AcceptedIsWithinIff(RangeOf(DescriptorBytes(ds[0])), address, n);
      UndescribedMemory(file, c, ds[1..], address, n);
      assert DescriptorList(ds)[1..] == DescriptorList(ds[1..]);
    }
  }

  // ----- contexts -----

  /** The context of a thread that the list holds is what the reader makes of the place that its record
      names, if no thread before it has the id. */
  lemma ContextOfThread(
      file: seq<byte>, read: Reader, s: Dump, d: Directory, k: nat, id: nat, middle: seq<byte>, size: nat, rva: nat)
    requires s.contexts == map[]
    requires var r := ReadStream(file, s.cursor, d, s.threads, 48);
      && r.ok && AddContexts(read, r.items, map[], r.cursor).2
      && k < |r.items| && r.items[k] == ThreadBytes(id, middle, size, rva)
      && forall j :: 0 <= j < k ==> ThreadId(r.items[j]) != id
    requires id <= MAX_UINT32 && |middle| == 36 && size <= MAX_UINT32 && rva <= MAX_UINT32
    ensures var t := DoThreads(file, read, s, d);
      id in t.contexts && read(Location(size, rva)) == Got(t.contexts[id])
  {
    ThreadReads(id, middle, size, rva);
    var r := ReadStream(file, s.cursor, d, s.threads, 48);
    FoundAt(r.items, k, id);
    ThreadsAndContextsAgree(file, read, s, d, id);
  }

  lemma {:induction false} FoundAt(ts: seq<Item>, k: nat, id: nat)
    requires k < |ts| && ThreadId(ts[k]) == id && forall j :: 0 <= j < k ==> ThreadId(ts[j]) != id
    ensures FindThread(ts, id) == Some(ts[k])
  {
    if k > 0 {
      FoundAt(ts[1..], k - 1, id);
    }
  }

  /** The thread list's contexts up to the first one that cannot be read: the list is given up there,
      and the stream is spoiled exactly if the reader ran past the end of the file. */
  lemma {:induction false} ContextsUntil(read: Reader, ts: seq<Item>, m: map<nat, nat>, c: Cursor, k: nat)
    requires !c.failed && k < |ts| && !read(ThreadContext(ts[k])).Got?
    requires forall j :: 0 <= j < k ==> read(ThreadContext(ts[j])).Got?
    ensures var (all, after, ok) := AddContexts(read, ts, m, c);
      && !ok && all == AddContexts(read, ts[..k], m, c).0
      && after == Cursor(c.pos, read(ThreadContext(ts[k])).RanShort?)
    decreases k
  {
    if k > 0 {
      var r := read(ThreadContext(ts[0]));
      ContextsUntil(read, ts[1..], Insert(m, ThreadId(ts[0]), r.context), c, k - 1);
      assert ts[..k][1..] == ts[1..][..k - 1];
    }
  }

  /** An exception record whose context cannot be read leaves the contexts alone, and spoils the stream
      exactly if the reader ran past the end of the file. */
  lemma ExceptionWithoutContext(file: seq<byte>, read: Reader, s: Dump, d: Directory)
    requires !s.cursor.failed && d.location.size == 168 && d.location.rva + 168 <= |file|
    requires var at := d.location.rva; !read(ExceptionContext(file[at..at + 168])).Got?
    ensures var t, at := DoException(file, read, s, d), d.location.rva;
      && t.contexts == s.contexts && t.exception == file[at..at + 168]
      && t.cursor.failed == read(ExceptionContext(file[at..at + 168])).RanShort?
  {
  }

  /** In any directory, the crash thread's context is what the reader makes of the place that the
      exception record names. */
  lemma CrashContext(
      file: seq<byte>, read: Reader, ds: seq<Directory>, at: nat,
      id: nat, middle: seq<byte>, size: nat, rva: nat, context: nat)
    requires InFile(file, ds) && ContextsInFile(file, read, ds) && AtMostOnce(ds)
    requires Directory(6, Location(168, at)) in ds && at + 168 <= |file|
    requires file[at..at + 168] == ThreadBytes(id, middle, size, rva) && read(Location(size, rva)) == Got(context)
    requires id <= MAX_UINT32 && |middle| == 156 && size <= MAX_UINT32 && rva <= MAX_UINT32
    ensures var s := ReadAll(file, read, EMPTY, ds);
      id in s.contexts && s.contexts[id] == context && ThreadId(s.exception) == id
  {
    var d := Directory(6, Location(168, at));
    assert Count(ds, EXCEPTION) <= 1;
    FindMember(ds, EXCEPTION, d);
    ReadAllResult(file, read, ds);
    ExceptionReads(id, middle, size, rva);
    CrashContextIsExceptions(file, read, ds);
  }

  // ----- streams -----

  /** Exactly when a list stream is read: the list is still empty and the stream good, the count and
      all items lie in the file, there are at most 10000, and the size of the stream is that of the
      count and the items, with or without four bytes more. */
  lemma ListReadIff(file: seq<byte>, c: Cursor, d: Directory, items: seq<Item>, size: nat)
    requires size > 0
    ensures ReadStream(file, c, d, items, size).ok <==>
      && items == [] && !c.failed
      && d.location.size >= 4 && d.location.rva + 4 <= |file|
      && var count := FromLE(file[d.location.rva..d.location.rva + 4]);
      && count <= 10000 && count <= 0xFFFF_FFFF / size
      && d.location.size - count * size in {4, 8}
      && d.location.rva + d.location.size <= |file|
  {
    var start := d.location.rva;
    if items == [] && !c.failed && d.location.size >= 4 && start + 4 <= |file| {
      var count := FromLE(file[start..start + 4]);
      var head := d.location.size - count * size;
      if head == 4 || head == 8 {
        if start + d.location.size <= |file| {
          ItemsStay(file, Cursor(start + head, false), size, count);
        }
        if ReadStream(file, c, d, items, size).ok {
          StreamAccount(file, c, d, size);
        }
      }
    }
  }

  /** A list that is not read is changed only where its items were cut short: before that, and where
      there is a list already, it stays; the contexts stay with it. */
  lemma ListChangesIf(file: seq<byte>, read: Reader, s: Dump, d: Directory)
    ensures var r := ReadStream(file, s.cursor, d, s.threads, 48);
      && (s.threads != [] ==> !r.ok && r.items == s.threads)
      && (r.items != s.threads ==>
            && s.threads == [] && !s.cursor.failed && d.location.rva + 4 <= |file|
            && var count := FromLE(file[d.location.rva..d.location.rva + 4]);
            count == |r.items| <= 10000 && d.location.size - count * 48 in {4, 8})
      && (!r.ok ==> DoThreads(file, read, s, d).contexts == s.contexts)
  {
    var r := ReadStream(file, s.cursor, d, s.threads, 48);
    if r.items != s.threads {
      var count := FromLE(file[d.location.rva..d.location.rva + 4]);
      var body := Cursor(d.location.rva + d.location.size - count * 48, false);
      ItemCount(file, body, 48, count);
    }
  }

  lemma {:induction false} ItemCount(file: seq<byte>, c: Cursor, size: nat, count: nat)
    ensures |Items(file, c, size, count)| == count
    decreases count
  {
    if count > 0 && MinidumpStreams.Holds(file, c, size) {
      ItemCount(file, Skip(file, c, size), size, count - 1);
    }
  }

  /** An exception record that is not read leaves the contexts alone. */
  lemma NoRecordNoContext(file: seq<byte>, read: Reader, s: Dump, d: Directory)
    requires s.cursor.failed || d.location.size != 168 || d.location.rva + 168 > |file|
    ensures DoException(file, read, s, d).contexts == s.contexts
  {
  }

  /** What a list that runs past the end of the file leaves, if m items and `left` bytes are there:
      the whole items, the beginning of the one that is cut, and zeros after it. */
  lemma {:induction false} PartialItems(file: seq<byte>, c: Cursor, size: nat, count: nat, m: nat, left: nat)
    requires !c.failed && m < count && left < size && left <= |file|
    requires |file| == c.pos + m * size + left
    ensures !AllHeld(file, c, size, count) && AfterItems(file, c, size, count).failed
    ensures AllHeld(file, c, size, m)
    ensures Items(file, c, size, count) == Items(file, c, size, m)
         + ([file[|file| - left..] + Zeros(size - left)] + seq(count - m - 1, _ => Zeros(size)))
    decreases m
  {
    if m == 0 {
      assert left == 0 ==> file[c.pos..] + Zeros(size) == Zeros(size);
    } else {
      assert m * size == size + (m - 1) * size && (m - 1) * size >= 0;
      var next := Skip(file, c, size);
      PartialItems(file, next, size, count - 1, m - 1, left);
      var whole, rest := Items(file, next, size, m - 1), [file[|file| - left..] + Zeros(size - left)];
      var zeros := seq(count - m - 1, _ => Zeros(size));
      assert [At(file, c.pos, size)] + (whole + (rest + zeros)) == [At(file, c.pos, size)] + whole + (rest + zeros);
    }
  }

  /** The whole items of such a list are slices of the file, in order. */
  lemma PartialSlices(file: seq<byte>, c: Cursor, size: nat, count: nat, m: nat, left: nat)
    requires !c.failed && m < count && left < size && left <= |file|
    requires |file| == c.pos + m * size + left
    ensures var items := Items(file, c, size, count);
      |items| == count && forall i :: 0 <= i < m ==> IsSlice(file, c.pos, i, size, items[i])
  {
    PartialItems(file, c, size, count, m, left);
    ItemsAccount(file, c, size, m);
  }

  /** Exactly when a single record is read, and what is read. */
  lemma RecordReadIff(file: seq<byte>, c: Cursor, d: Directory, was: Item, size: nat)
    requires size > 0
    ensures var r, at := ReadSingle(file, c, d, was, size), d.location.rva;
      && (r.ok <==> !c.failed && d.location.size == size && at + size <= |file|)
      && (r.ok ==> r.items == [file[at..at + size]] && r.cursor == Cursor(at + size, false))
      && (!r.ok && at >= |file| ==> r.items == [was])
      && (!c.failed && d.location.size == size == |was| && at < |file| < at + size ==>
            r.items == [file[at..] + was[|file| - at..]] && r.cursor.failed)
  {
  }

  /** The stream types: 3, 4 and 5 are lists of 48-byte threads, 108-byte modules and 16-byte memory
      descriptors, wherever the encoded list stands; each fills its own list alone. */
  lemma ListTypes(before: seq<byte>, items: seq<Item>, padded: bool, after: seq<byte>, size: nat, read: Reader, s: Dump)
    requires size in {48, 108, 16} && AllSized(items, size) && |items| <= 10000 && !s.cursor.failed
    requires if size == 48 then s.threads == [] else if size == 108 then s.modules == [] else s.memories == []
    ensures var b := ListBytes(items, padded);
      var file, place := before + b + after, Location(|b|, |before|);
      match size
      case 48 =>
        var t := Dispatch(file, read, s, Directory(3, place));
        && t.threads == items && t.modules == s.modules && t.memories == s.memories
        && t.exception == s.exception && t.systemInfo == s.systemInfo
      case 108 =>
        Dispatch(file, read, s, Directory(4, place)).(cursor := s.cursor) == s.(modules := items)
      case _ =>
        Dispatch(file, read, s, Directory(5, place)).(cursor := s.cursor) == s.(memories := items)
  {
    ListRoundTrip(before, items, padded, after, size, s.cursor);
    var b := ListBytes(items, padded);
    SameListAnyType(before + b + after, s.cursor, Location(|b|, |before|), size);
  }

  lemma SameListAnyType(file: seq<byte>, c: Cursor, place: Location, size: nat)
    requires size > 0
    ensures forall kind: nat ::
      ReadStream(file, c, Directory(kind, place), [], size) == ReadStream(file, c, Directory(0, place), [], size)
  {
  }

  /** 6 is the exception record of 168 bytes, 7 the system information of 56, and every other type is
      passed over without a look. */
  lemma RecordTypes(file: seq<byte>, read: Reader, s: Dump, at: nat, kind: nat, size: nat)
    requires !s.cursor.failed
    ensures at + 168 <= |file| ==>
      Dispatch(file, read, s, Directory(6, Location(168, at))).exception == file[at..at + 168]
    ensures at + 56 <= |file| ==>
      Dispatch(file, read, s, Directory(7, Location(56, at)))
      == s.(systemInfo := file[at..at + 56], cursor := Cursor(at + 56, false))
    ensures !(3 <= kind <= 7) ==> Dispatch(file, read, s, Directory(kind, Location(size, at))) == s
  {
  }
}

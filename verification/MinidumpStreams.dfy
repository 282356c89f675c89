/** The minidump reader's streams over a file given as bytes: seeking and reading with a sticky
    failure, item lists with their size accounting, and the dispatch over the directory with the
    map from thread ids to contexts. */
module MinidumpStreams {
  import opened Words

  /** A location in the file, and a directory entry. */
  datatype Location = Location(size: nat, rva: nat)

  datatype Directory = Directory(kind: nat, location: Location)

  const THREAD_LIST: nat := 3
  const MODULE_LIST: nat := 4
  const MEMORY_LIST: nat := 5
  const EXCEPTION: nat := 6
  const SYSTEM_INFO: nat := 7

  const THREAD_SIZE: nat := 48
  const MODULE_SIZE: nat := 108
  const MEMORY_SIZE: nat := 16
  const EXCEPTION_SIZE: nat := 168
  const SYSTEM_INFO_SIZE: nat := 56

  const MAX_ITEMS: nat := 10000
  const MAX_UINT32: nat := 0xFFFF_FFFF

  type Item = seq<byte>

  /** What MinidumpContext::Read makes of a location: a context, a refusal, or a read past the end
      of the file, which spoils the stream. The layouts behind it are not modelled. */
  datatype ContextRead = Got(context: nat) | Refused | RanShort

  /** The stream's position, and whether an earlier read failed: seekg does not clear failbit. */
  datatype Cursor = Cursor(pos: nat, failed: bool)

  function Seek(c: Cursor, off: nat): Cursor {
    if c.failed then c else c.(pos := off)
  }

  /** A read of n bytes gets them. Reading nothing counts as success wherever the stream is, because
      the source compares the number of bytes read with the number asked for. */
  predicate Holds(file: seq<byte>, c: Cursor, n: nat) {
    n == 0 || (!c.failed && c.pos + n <= |file|)
  }

  /** After reading n bytes, or failing to. */
  function Skip(file: seq<byte>, c: Cursor, n: nat): Cursor {
    if Holds(file, c, n) then c.(pos := c.pos + n) else c.(failed := true)
  }

  function At(file: seq<byte>, pos: nat, n: nat): (b: seq<byte>)
    requires n == 0 || pos + n <= |file|
    ensures |b| == n
  {
    if n == 0 then [] else file[pos..pos + n]
  }

  function Zeros(n: nat): Item {
    seq(n, _ => 0)
  }

  /** What a short read leaves in a zeroed buffer. */
  function ShortRead(file: seq<byte>, c: Cursor, n: nat): Item {
    if c.failed || c.pos >= |file| || c.pos + n <= |file| then Zeros(n)
    else file[c.pos..] + Zeros(n - (|file| - c.pos))
  }

  // ----- item lists -----

  /** The items read, those after a failure still zero. */
  function Items(file: seq<byte>, c: Cursor, size: nat, count: nat): seq<Item>
    decreases count
  {
    if count == 0 then []
    else if Holds(file, c, size) then [At(file, c.pos, size)] + Items(file, Skip(file, c, size), size, count - 1)
    else [ShortRead(file, c, size)] + seq(count - 1, _ => Zeros(size))
  }

  predicate AllHeld(file: seq<byte>, c: Cursor, size: nat, count: nat)
    decreases count
  {
    count == 0 || (Holds(file, c, size) && AllHeld(file, Skip(file, c, size), size, count - 1))
  }

  function AfterItems(file: seq<byte>, c: Cursor, size: nat, count: nat): Cursor
    decreases count
  {
    if count == 0 then c
    else if Holds(file, c, size) then AfterItems(file, Skip(file, c, size), size, count - 1)
    else Skip(file, c, size)
  }

  datatype StreamResult = StreamResult(ok: bool, items: seq<Item>, cursor: Cursor)

  /** ReadStream: one list per dump, its count and size checked against each other. */
  function ReadStream(file: seq<byte>, c: Cursor, d: Directory, items: seq<Item>, size: nat): StreamResult
    requires size > 0
  {
    if items != [] || c.failed then StreamResult(false, items, c)
    else
      var c0 := Seek(c, d.location.rva);
      if d.location.size < 4 then StreamResult(false, items, c0)
      else if !Holds(file, c0, 4) then StreamResult(false, items, Skip(file, c0, 4))
      else
        var count := FromLE(At(file, c0.pos, 4));
        var c1 := Skip(file, c0, 4);
        if count > MAX_UINT32 / size then StreamResult(false, items, c1)
        else if d.location.size == 4 + count * size then ReadItems(file, c1, items, size, count)
        else if d.location.size == 4 + 4 + count * size then
          if !Holds(file, c1, 4) then StreamResult(false, items, Skip(file, c1, 4))
          else ReadItems(file, Skip(file, c1, 4), items, size, count)
        else StreamResult(false, items, c1)
  }

  function ReadItems(file: seq<byte>, c: Cursor, items: seq<Item>, size: nat, count: nat): StreamResult {
    if count > MAX_ITEMS then StreamResult(false, items, c)
    else if count == 0 then StreamResult(true, items, c)
    else StreamResult(AllHeld(file, c, size, count), Items(file, c, size, count), AfterItems(file, c, size, count))
  }

  // ----- records -----

  function ThreadId(t: Item): nat {
    if |t| < 4 then 0 else FromLE(t[..4])
  }

  function LocationAt(t: Item, off: nat): Location {
    if |t| < off + 8 then Location(0, 0) else Location(FromLE(t[off..off + 4]), FromLE(t[off + 4..off + 8]))
  }

  function ThreadContext(t: Item): Location {
    LocationAt(t, 40)
  }

  function ExceptionContext(e: Item): Location {
    LocationAt(e, 160)
  }

  // ----- the dump -----

  datatype Dump = Dump(
    cursor: Cursor,
    threads: seq<Item>, modules: seq<Item>, memories: seq<Item>,
    exception: Item, systemInfo: Item,
    contexts: map<nat, nat>)

  const EMPTY: Dump := Dump(Cursor(0, false), [], [], [], Zeros(EXCEPTION_SIZE), Zeros(SYSTEM_INFO_SIZE), map[])

  type Reader = Location -> ContextRead

  function CursorAfter(r: ContextRead, c: Cursor): Cursor {
    if r.RanShort? then c.(failed := true) else c
  }

  /** std::map::insert keeps an entry that is there. */
  function Insert(m: map<nat, nat>, k: nat, v: nat): map<nat, nat> {
    if k in m then m else m[k := v]
  }

  /** The contexts of the threads, in order, until one cannot be read. */
  function AddContexts(read: Reader, ts: seq<Item>, m: map<nat, nat>, c: Cursor): (map<nat, nat>, Cursor, bool)
    decreases ts
  {
    if ts == [] then (m, c, true)
    else if c.failed then (m, c, false)
    else
      var r := read(ThreadContext(ts[0]));
      if !r.Got? then (m, CursorAfter(r, c), false)
      else AddContexts(read, ts[1..], Insert(m, ThreadId(ts[0]), r.context), c)
  }

  function DoThreads(file: seq<byte>, read: Reader, s: Dump, d: Directory): Dump {
    var r := ReadStream(file, s.cursor, d, s.threads, THREAD_SIZE);
    var t := s.(threads := r.items, cursor := r.cursor);
    if !r.ok then t
    else
      var (m, c, _) := AddContexts(read, t.threads, t.contexts, t.cursor);
      t.(contexts := m, cursor := c)
  }

  function DoModules(file: seq<byte>, s: Dump, d: Directory): Dump {
    var r := ReadStream(file, s.cursor, d, s.modules, MODULE_SIZE);
    s.(modules := r.items, cursor := r.cursor)
  }

  function DoMemories(file: seq<byte>, s: Dump, d: Directory): Dump {
    var r := ReadStream(file, s.cursor, d, s.memories, MEMORY_SIZE);
    s.(memories := r.items, cursor := r.cursor)
  }

  /** ReadStreamSingle. */
  function ReadSingle(file: seq<byte>, c: Cursor, d: Directory, was: Item, size: nat): StreamResult {
    if c.failed then StreamResult(false, [was], c)
    else
      var c0 := Seek(c, d.location.rva);
      if d.location.size != size then StreamResult(false, [was], c0)
      else if Holds(file, c0, size) then StreamResult(true, [At(file, c0.pos, size)], Skip(file, c0, size))
      else StreamResult(false, [Overlay(was, file, c0, size)], Skip(file, c0, size))
  }

  /** A short read overwrites the front of the record only. */
  function Overlay(was: Item, file: seq<byte>, c: Cursor, size: nat): Item {
    if c.pos >= |file| || |was| < |file| - c.pos then was else file[c.pos..] + was[|file| - c.pos..]
  }

  function DoException(file: seq<byte>, read: Reader, s: Dump, d: Directory): Dump {
    var r := ReadSingle(file, s.cursor, d, s.exception, EXCEPTION_SIZE);
    var t := s.(exception := r.items[0], cursor := r.cursor);
    if !r.ok then t
    else
      var got := read(ExceptionContext(t.exception));
      match got
      case Got(v) => t.(contexts := t.contexts[ThreadId(t.exception) := v])
      case _ => t.(cursor := CursorAfter(got, t.cursor))
  }

  function DoSystemInfo(file: seq<byte>, s: Dump, d: Directory): Dump {
    var r := ReadSingle(file, s.cursor, d, s.systemInfo, SYSTEM_INFO_SIZE);
    s.(systemInfo := r.items[0], cursor := r.cursor)
  }

  function Dispatch(file: seq<byte>, read: Reader, s: Dump, d: Directory): Dump {
    if d.kind == THREAD_LIST then DoThreads(file, read, s, d)
    else if d.kind == MODULE_LIST then DoModules(file, s, d)
    else if d.kind == MEMORY_LIST then DoMemories(file, s, d)
    else if d.kind == EXCEPTION then DoException(file, read, s, d)
    else if d.kind == SYSTEM_INFO then DoSystemInfo(file, s, d)
    else s
  }

  /** The loop of Minidump::Read over the directory; what a stream returns is ignored. */
  function ReadAll(file: seq<byte>, read: Reader, s: Dump, ds: seq<Directory>): Dump
    decreases ds
  {
    if ds == [] then s else ReadAll(file, read, Dispatch(file, read, s, ds[0]), ds[1..])
  }

  // ----- memory -----

  /** A memory descriptor: the first address of a range, and the range's bytes in the file. */
  datatype Range = Range(start: Word, data: Location)

  function RangeOf(m: Item): Range {
    if |m| < 16 then Range(0, Location(0, 0)) else Range(LEWord(m[..8]), LocationAt(m, 8))
  }

  /** The guard of GetMemory: every sum wraps at 64 bits. */
  predicate Accepts(m: Range, address: Word, size: Word) {
    var end := ToWord(m.start + m.data.size);
    m.start <= address < end && ToWord(address + size) <= end
  }

  /** Where an accepted request is read from. */
  function PlaceOf(m: Range, address: Word): nat
    requires m.start <= address
  {
    m.data.rva + (address - m.start)
  }

  /** GetMemory: a range whose bytes cannot be read is passed over. */
  function FindMemory(file: seq<byte>, c: Cursor, ms: seq<Item>, address: Word, size: Word): (Option<Item>, Cursor)
    decreases ms
  {
    if ms == [] then (None, c)
    else
      var m := RangeOf(ms[0]);
      if !Accepts(m, address, size) || c.failed then FindMemory(file, c, ms[1..], address, size)
      else
        var at := Seek(c, PlaceOf(m, address));
        if Holds(file, at, size) then (Some(At(file, at.pos, size)), Skip(file, at, size))
        else FindMemory(file, Skip(file, at, size), ms[1..], address, size)
  }

  /** GetContext. */
  function GetContext(s: Dump, id: nat): Option<nat> {
    if id in s.contexts then Some(s.contexts[id]) else None
  }
}

/** The Minidump class: a stream position and the lists it fills. */
module MinidumpFile {
  import opened Words
  import opened MinidumpStreams

  class Minidump {
    const file: seq<byte>
    const read: Reader
    var cursor: Cursor
    var threads: seq<Item>
    var modules: seq<Item>
    var memories: seq<Item>
    var exception: Item
    var systemInfo: Item
    var contexts: map<nat, nat>

    constructor (file: seq<byte>, read: Reader)
      ensures this.file == file && this.read == read && Now() == EMPTY
    {
      this.file, this.read := file, read;
      cursor := Cursor(0, false);
      threads, modules, memories := [], [], [];
      exception, systemInfo := Zeros(EXCEPTION_SIZE), Zeros(SYSTEM_INFO_SIZE);
      contexts := map[];
    }

    function Now(): Dump
      reads this
    {
      Dump(cursor, threads, modules, memories, exception, systemInfo, contexts)
    }

    method SeekTo(off: nat) returns (ok: bool)
      modifies this`cursor
      ensures cursor == Seek(old(cursor), off) && ok == !old(cursor).failed
    {
      ok := !cursor.failed;
      if ok {
        cursor := Cursor(off, false);
      }
    }

    /** The bytes, or None with the stream spoiled. */
    method ReadBytes(n: nat) returns (r: Option<Item>)
      modifies this`cursor
      ensures cursor == Skip(file, old(cursor), n)
      ensures r == if Holds(file, old(cursor), n) then Some(At(file, old(cursor).pos, n)) else None
    {
      if n == 0 {
        return Some([]);
      }
      if cursor.failed || cursor.pos + n > |file| {
        cursor := cursor.(failed := true);
        return None;
      }
      r := Some(file[cursor.pos..cursor.pos + n]);
      cursor := cursor.(pos := cursor.pos + n);
    }

    /** The loop that fills a resized vector item by item. */
    method ReadItemLoop(size: nat, count: nat) returns (ok: bool, items: seq<Item>)
      requires count > 0
      modifies this`cursor
      ensures ok == AllHeld(file, old(cursor), size, count)
      ensures items == Items(file, old(cursor), size, count)
      ensures cursor == AfterItems(file, old(cursor), size, count)
    {
      items := [];
      ghost var start := cursor;
      for i := 0 to count
        invariant AllHeld(file, start, size, count) == AllHeld(file, cursor, size, count - i)
        invariant Items(file, start, size, count) == items + Items(file, cursor, size, count - i)
        invariant AfterItems(file, start, size, count) == AfterItems(file, cursor, size, count - i)
      {
        var was := cursor;
        var item := ReadBytes(size);
        if item.None? {
          ok := false;
          items := items + ([ShortRead(file, was, size)] + seq(count - i - 1, _ => Zeros(size)));
          return;
        }
        ghost var before := items;
        items := items + [item.value];
        ghost var rest := Items(file, cursor, size, count - i - 1);
        assert before + ([item.value] + rest) == items + rest;
      }
      assert items + [] == items;
      ok := true;
    }

    method ReadList(d: Directory, stream: seq<Item>, size: nat) returns (ok: bool, items: seq<Item>)
      requires size > 0
      modifies this`cursor
      ensures StreamResult(ok, items, cursor) == ReadStream(file, old(cursor), d, stream, size)
    {
      items := stream;
      if |stream| != 0 {
        return false, stream;
      }
      ok := SeekTo(d.location.rva);
      if !ok { return; }
      if d.location.size < 4 {
        return false, stream;
      }
      var head := ReadBytes(4);
      if head.None? {
        return false, stream;
      }
      var count := FromLE(head.value);
      if count > MAX_UINT32 / size {
        return false, stream;
      }
      if d.location.size != 4 + count * size {
        // may be padded with four bytes for alignment
        if d.location.size == 4 + 4 + count * size {
          var padding := ReadBytes(4);
          if padding.None? {
            return false, stream;
          }
        } else {
          return false, stream;
        }
      }
      if count > MAX_ITEMS {
        return false, stream;
      }
      ok := true;
      if count > 0 {
        ok, items := ReadItemLoop(size, count);
      }
    }

    method ReadRecord(d: Directory, was: Item, size: nat) returns (ok: bool, record: Item)
      modifies this`cursor
      ensures StreamResult(ok, [record], cursor) == ReadSingle(file, old(cursor), d, was, size)
    {
      ok := SeekTo(d.location.rva);
      record := was;
      if !ok { return; }
      if d.location.size != size {
        return false, was;
      }
      ghost var c := cursor;
      var over := Overlay(was, file, cursor, size);
      var bytes := ReadBytes(size);
      if bytes.None? {
        return false, over;
      }
      return true, bytes.value;
    }

    method ReadThreadListStream(d: Directory)
      modifies this
      ensures Now() == DoThreads(file, read, old(Now()), d)
    {
      var ok;
      ok, threads := ReadList(d, threads, THREAD_SIZE);
      if !ok { return; }
      ghost var all := AddContexts(read, threads, contexts, cursor);
      for i := 0 to |threads|
        invariant threads == ReadStream(file, old(cursor), d, old(threads), THREAD_SIZE).items
        invariant modules == old(modules) && memories == old(memories)
        invariant exception == old(exception) && systemInfo == old(systemInfo)
        invariant all == AddContexts(read, threads[i..], contexts, cursor)
      {
        var thread := threads[i];
        assert threads[i..][1..] == threads[i + 1..];
        if cursor.failed {
          return;
        }
        var r := read(ThreadContext(thread));
        if !r.Got? {
          cursor := CursorAfter(r, cursor);
          return;
        }
        contexts := Insert(contexts, ThreadId(thread), r.context);
      }
    }

    method ReadExceptionStream(d: Directory)
      modifies this
      ensures Now() == DoException(file, read, old(Now()), d)
    {
      var ok;
      ok, exception := ReadRecord(d, exception, EXCEPTION_SIZE);
      if !ok { return; }
      var r := read(ExceptionContext(exception));
      if !r.Got? {
        cursor := CursorAfter(r, cursor);
        return;
      }
      contexts := contexts[ThreadId(exception) := r.context];
    }

    /** The dispatch loop of Minidump::Read. */
    method ReadStreams(directories: seq<Directory>)
      modifies this
      ensures Now() == ReadAll(file, read, old(Now()), directories)
    {
      for i := 0 to |directories|
        invariant ReadAll(file, read, old(Now()), directories) == ReadAll(file, read, Now(), directories[i..])
      {
        var d := directories[i];
        assert directories[i..][1..] == directories[i + 1..];
        var done: bool;
        if d.kind == THREAD_LIST {
          ReadThreadListStream(d);
        } else if d.kind == MODULE_LIST {
          done, modules := ReadList(d, modules, MODULE_SIZE);
        } else if d.kind == MEMORY_LIST {
          done, memories := ReadList(d, memories, MEMORY_SIZE);
        } else if d.kind == EXCEPTION {
          ReadExceptionStream(d);
        } else if d.kind == SYSTEM_INFO {
          done, systemInfo := ReadRecord(d, systemInfo, SYSTEM_INFO_SIZE);
        }
      }
    }

    method GetMemory(address: Word, size: Word) returns (buffer: Option<Item>)
      modifies this`cursor
      ensures (buffer, cursor) == FindMemory(file, old(cursor), memories, address, size)
    {
      for i := 0 to |memories|
        invariant FindMemory(file, old(cursor), memories, address, size)
               == FindMemory(file, cursor, memories[i..], address, size)
      {
        assert memories[i..][1..] == memories[i + 1..];
        var m := RangeOf(memories[i]);
        if Accepts(m, address, size) {
          var ok := SeekTo(PlaceOf(m, address));
          if ok {
            buffer := ReadBytes(size);
            if buffer.Some? {
              return;
            }
          }
        }
      }
      buffer := None;
    }

    /** The first thread with the id. */
    method GetThread(id: nat) returns (r: Option<Item>)
      ensures match r
        case Some(t) => exists k :: 0 <= k < |threads| && threads[k] == t && ThreadId(t) == id
                                    && forall j :: 0 <= j < k ==> ThreadId(threads[j]) != id
        case None => forall k :: 0 <= k < |threads| ==> ThreadId(threads[k]) != id
    {
      for k := 0 to |threads|
        invariant forall j :: 0 <= j < k ==> ThreadId(threads[j]) != id
      {
        if ThreadId(threads[k]) == id {
          return Some(threads[k]);
        }
      }
      r := None;
    }
  }
}

/** Upload callbacks: a file is handed to its consumer in blocks of 2048 bytes. */
module Uploads {
  import opened Words

  const BUFLEN := 2048

  datatype Status = FileStart | FileWrite | FileEnd | FileAborted

  datatype FileInfo = FileInfo(name: string, filename: string, contentType: string)

  /** What the consumer sees of the upload record: `data` is the used part of its buffer. */
  datatype Event = Event(status: Status, file: FileInfo, totalSize: nat, data: string)

  /** Blocks handed over once n bytes were written: a full block waits for the byte after it. */
  function Flushed(n: nat): nat {
    if n == 0 then 0 else (n - 1) / BUFLEN
  }

  function BlockEvent(file: FileInfo, body: string, i: nat): Event
    requires BUFLEN * (i + 1) <= |body|
  {
    Event(FileWrite, file, BUFLEN * i % WORD, body[BUFLEN * i..BUFLEN * (i + 1)])
  }

  function BlockEvents(file: FileInfo, body: string, n: nat): seq<Event>
    requires BUFLEN * n <= |body|
  {
    if n == 0 then [] else BlockEvents(file, body, n - 1) + [BlockEvent(file, body, n - 1)]
  }

  function StartEvent(file: FileInfo): Event {
    Event(FileStart, file, 0, "")
  }

  /** All callbacks for a complete file. */
  function FileEvents(file: FileInfo, body: string): seq<Event> {
    var n := Flushed(|body|);
    var last := body[BUFLEN * n..];
    [StartEvent(file)] + BlockEvents(file, body, n)
    + [Event(FileWrite, file, BUFLEN * n % WORD, last), Event(FileEnd, file, |body| % WORD, last)]
  }

  /** Blocks already handed over do not depend on what is written later. */
  lemma {:induction false} BlocksStable(file: FileInfo, body: string, more: string, n: nat)
    requires BUFLEN * n <= |body|
    ensures BlockEvents(file, body + more, n) == BlockEvents(file, body, n)
  {
    if n != 0 {
      BlocksStable(file, body, more, n - 1);
      assert (body + more)[BUFLEN * (n - 1)..BUFLEN * n] == body[BUFLEN * (n - 1)..BUFLEN * n];
    }
  }

  /** One more byte changes the number of blocks handed over exactly when the buffer is full. */
  lemma FlushOnFull(n: nat)
    ensures n - BUFLEN * Flushed(n) <= BUFLEN
    ensures Flushed(n + 1) == if n - BUFLEN * Flushed(n) == BUFLEN then Flushed(n) + 1 else Flushed(n)
  {
  }

  /** The callbacks once n blocks were handed over. */
  function Handed(file: FileInfo, body: string, n: nat): seq<Event>
    requires BUFLEN * n <= |body|
  {
    [StartEvent(file)] + BlockEvents(file, body, n)
  }

  /** All callbacks for a file of which only `written` was passed on before the peer left. */
  function AbortEvents(file: FileInfo, written: string): seq<Event> {
    var n := Flushed(|written|);
    Handed(file, written, n) + [Event(FileAborted, file, BUFLEN * n % WORD, written[BUFLEN * n..])]
  }

  /** They are START, the full blocks as WRITEs, and ABORTED with the rest. */
  lemma AbortMeans(file: FileInfo, written: string)
    ensures var events := AbortEvents(file, written);
      var n := |events| - 1;
      && n >= 1 && events[0] == Event(FileStart, file, 0, "")
      && events[n].status == FileAborted && events[n].file == file
      && Written(events) + events[n].data == written && |events[n].data| <= 2048
      && (forall i :: 1 <= i < n ==>
        events[i].status == FileWrite && events[i].file == file && |events[i].data| == 2048)
  {
    hide Written, BlockEvents;
    var m := Flushed(|written|);
    var blocks := BlockEvents(file, written, m);
    BlocksConcatenate(file, written, m);
    var last := Event(FileAborted, file, BUFLEN * m % WORD, written[BUFLEN * m..]);
    WrittenOneMore([StartEvent(file)] + blocks, last);
    assert written[..BUFLEN * m] + written[BUFLEN * m..] == written;
    forall i | 1 <= i <= m ensures AbortEvents(file, written)[i] == BlockEvent(file, written, i - 1) {
      assert AbortEvents(file, written)[i] == blocks[i - 1];
    }
  }

  lemma HandOneMore(file: FileInfo, body: string, n: nat)
    requires BUFLEN * (n + 1) <= |body|
    ensures Handed(file, body, n + 1) == Handed(file, body, n) + [BlockEvent(file, body, n)]
  {
  }

  lemma HandLast(file: FileInfo, body: string)
    ensures var n := Flushed(|body|);
      var last := body[BUFLEN * n..];
      FileEvents(file, body) == Handed(file, body, n) + [Event(FileWrite, file, BUFLEN * n % WORD, last)]
                                + [Event(FileEnd, file, |body| % WORD, last)]
  {
  }

  // ---------------------------------------------------------------- what the consumer receives

  function Written(events: seq<Event>): string {
    if |events| == 0 then ""
    else
      Written(events[..|events| - 1])
      + if events[|events| - 1].status == FileWrite then events[|events| - 1].data else ""
  }

  lemma {:induction false} BlocksConcatenate(file: FileInfo, body: string, n: nat)
    requires BUFLEN * n <= |body|
    ensures |BlockEvents(file, body, n)| == n
    ensures Written([StartEvent(file)] + BlockEvents(file, body, n)) == body[..BUFLEN * n]
    ensures forall i :: 0 <= i < n ==> BlockEvents(file, body, n)[i] == BlockEvent(file, body, i)
  {
    var start := [StartEvent(file)];
    if n == 0 {
      assert start + [] == start && start[..0] == [];
    } else {
      BlocksConcatenate(file, body, n - 1);
      var all := start + BlockEvents(file, body, n);
      assert all[..|all| - 1] == start + BlockEvents(file, body, n - 1);
      assert body[..BUFLEN * (n - 1)] + body[BUFLEN * (n - 1)..BUFLEN * n] == body[..BUFLEN * n];
    }
  }

  /** The callbacks refine direct writing: START, at least one WRITE, END; the WRITEs concatenate to the body;
      all but the last carry 2048 bytes, the last at most that, and none only for an empty body;
      totalSize at END is the length, and before every WRITE it counts the bytes already handed over. */
  lemma ChunkingRefinesWriting(file: FileInfo, body: string)
    ensures var events := FileEvents(file, body);
      var n := |events| - 2;
      && n >= 1
      && events[0] == Event(FileStart, file, 0, "")
      && events[n + 1].status == FileEnd && events[n + 1].totalSize == |body| % 0x1_0000_0000
      && (forall i :: 0 <= i <= n + 1 ==> events[i].file == file)
      && Written(events) == body
      && (forall i :: 1 <= i <= n ==> events[i].status == FileWrite)
      && (forall i :: 1 <= i <= n ==> events[i].totalSize == 2048 * (i - 1) % 0x1_0000_0000)
      && (forall i :: 1 <= i < n ==> |events[i].data| == 2048)
      && |events[n].data| <= 2048 && (|events[n].data| == 0 <==> body == "")
  {
    hide Written, BlockEvents;
    var m := Flushed(|body|);
    var blocks := BlockEvents(file, body, m);
    BlocksConcatenate(file, body, m);
    var last := body[BUFLEN * m..];
    var write := Event(FileWrite, file, BUFLEN * m % WORD, last);
    var end := Event(FileEnd, file, |body| % WORD, last);
    var events := FileEvents(file, body);
    WrittenOneMore([StartEvent(file)] + blocks, write);
    WrittenOneMore([StartEvent(file)] + blocks + [write], end);
    assert events == [StartEvent(file)] + blocks + [write] + [end];
    assert body[..BUFLEN * m] + last == body;
    forall i | 1 <= i <= m ensures events[i] == BlockEvent(file, body, i - 1) {
      assert events[i] == blocks[i - 1];
    }
  }

  lemma WrittenOneMore(events: seq<Event>, event: Event)
    ensures Written(events + [event]) == Written(events) + if event.status == FileWrite then event.data else ""
  {
    assert (events + [event])[..|events|] == events;
  }

  // ---------------------------------------------------------------- the sketch's consumer

  /** File system and upload handle of the sketch; the handle is open on `name` or not open. */
  datatype Store = Store(files: map<string, string>, open: bool, name: string)

  /** The last 30 characters of the name, under the root. */
  function StoredName(filename: string): (r: string)
    ensures 1 <= |r| <= 31 && r[0] == '/'
    ensures |filename| <= 30 ==> r == if |filename| > 0 && filename[0] == '/' then filename else "/" + filename
    ensures |filename| > 30 ==>
      var last := filename[|filename| - 30..];
      r == if last[0] == '/' then last else "/" + last
  {
    var short := if |filename| > 30 then filename[|filename| - 30..] else filename;
    if "/" <= short then short else "/" + short
  }

  /** One callback; `ok` says whether the open, or the write, succeeds. */
  function Consume(store: Store, event: Event, ok: bool): Store {
    match event.status
    case FileStart =>
      var name := StoredName(event.file.filename);
      if ok then Store(store.files[name := ""], true, name) else store.(open := false)
    case FileWrite =>
      if store.open && ok && store.name in store.files
      then store.(files := store.files[store.name := store.files[store.name] + event.data])
      else store
    case FileEnd => store.(open := false)
    case FileAborted => store
  }

  function ConsumeAll(store: Store, events: seq<Event>): Store {
    if |events| == 0 then store
    else Consume(ConsumeAll(store, events[..|events| - 1]), events[|events| - 1], true)
  }

  lemma {:induction false} ConsumeConcat(store: Store, a: seq<Event>, b: seq<Event>)
    ensures ConsumeAll(store, a + b) == ConsumeAll(ConsumeAll(store, a), b)
  {
    if |b| == 0 {
      assert a + b == a;
    } else {
      var c := a + b;
      assert c[..|c| - 1] == a + b[..|b| - 1];
      ConsumeConcat(store, a, b[..|b| - 1]);
    }
  }

  lemma ConsumeOneMore(store: Store, events: seq<Event>, event: Event)
    ensures ConsumeAll(store, events + [event]) == Consume(ConsumeAll(store, events), event, true)
  {
    assert (events + [event])[..|events|] == events;
  }

  lemma {:induction false} ConsumeBlocks(store: Store, file: FileInfo, body: string, n: nat)
    requires BUFLEN * n <= |body|
    ensures ConsumeAll(store, Handed(file, body, n))
      == Store(store.files[StoredName(file.filename) := body[..BUFLEN * n]], true, StoredName(file.filename))
  {
    hide ConsumeAll, StoredName, Handed, BlockEvents;
    if n == 0 {
      HandedNone(file, body);
      ConsumeOneMore(store, [], StartEvent(file));
      ConsumeNone(store);
      assert body[..0] == "";
    } else {
      ConsumeBlocks(store, file, body, n - 1);
      HandOneMore(file, body, n - 1);
      ConsumeOneMore(store, Handed(file, body, n - 1), BlockEvent(file, body, n - 1));
      assert body[..BUFLEN * (n - 1)] + body[BUFLEN * (n - 1)..BUFLEN * n] == body[..BUFLEN * n];
    }
  }

  lemma HandedNone(file: FileInfo, body: string)
    ensures Handed(file, body, 0) == [] + [StartEvent(file)]
  {
  }

  lemma ConsumeNone(store: Store)
    ensures ConsumeAll(store, []) == store
  {
  }

  /** When the file opens and every write succeeds, the callbacks of one upload store exactly its body
      under its name, close the handle, and touch no other file. */
  lemma UploadStoresBody(store: Store, file: FileInfo, body: string)
    ensures ConsumeAll(store, FileEvents(file, body))
      == Store(store.files[StoredName(file.filename) := body], false, StoredName(file.filename))
  {
    hide ConsumeAll, Handed, FileEvents, StoredName;
    var n := Flushed(|body|);
    var last := body[BUFLEN * n..];
    var write := Event(FileWrite, file, BUFLEN * n % WORD, last);
    var end := Event(FileEnd, file, |body| % WORD, last);
    var blocks := Handed(file, body, n);
    HandLast(file, body);
    ConsumeBlocks(store, file, body, n);
    ConsumeOneMore(store, blocks, write);
    ConsumeOneMore(store, blocks + [write], end);
    assert body[..BUFLEN * n] + last == body;
  }

  /** An aborted upload leaves its full blocks under its name, and the handle open. */
  lemma AbortLeavesBlocks(store: Store, file: FileInfo, written: string)
    ensures ConsumeAll(store, AbortEvents(file, written))
      == Store(store.files[StoredName(file.filename) := written[..BUFLEN * Flushed(|written|)]],
               true, StoredName(file.filename))
  {
    hide ConsumeAll, Handed, StoredName;
    var n := Flushed(|written|);
    ConsumeBlocks(store, file, written, n);
    ConsumeOneMore(store, Handed(file, written, n), Event(FileAborted, file, BUFLEN * n % WORD, written[BUFLEN * n..]));
  }

  /** Every callback with its own success: the open, or the write. */
  function ConsumeEach(store: Store, events: seq<Event>, oks: seq<bool>): Store
    requires |events| == |oks|
  {
    if |events| == 0 then store
    else
      var n := |events| - 1;
      Consume(ConsumeEach(store, events[..n], oks[..n]), events[n], oks[n])
  }

  /** The data of the writes that succeeded. */
  function Accepted(events: seq<Event>, oks: seq<bool>): string
    requires |events| == |oks|
  {
    if |events| == 0 then ""
    else
      var n := |events| - 1;
      Accepted(events[..n], oks[..n]) + if events[n].status == FileWrite && oks[n] then events[n].data else ""
  }

  lemma {:induction false} ConsumeWrites(store: Store, file: FileInfo, events: seq<Event>, oks: seq<bool>)
    requires |events| == |oks| > 0 && events[0] == StartEvent(file)
    requires forall i :: 1 <= i < |events| ==> events[i].status == FileWrite
    ensures ConsumeEach(store, events, oks)
      == if !oks[0] then store.(open := false)
         else Store(store.files[StoredName(file.filename) := Accepted(events, oks)], true, StoredName(file.filename))
  {
    hide StoredName;
    var n := |events| - 1;
    if n == 0 {
      assert events[..0] == [] && oks[..0] == [];
      assert Accepted(events, oks) == "";
    } else {
      ConsumeWrites(store, file, events[..n], oks[..n]);
      var name, before := StoredName(file.filename), Accepted(events[..n], oks[..n]);
      var added := if oks[n] then events[n].data else "";
      assert Accepted(events, oks) == before + added && before + "" == before;
      assert store.files[name := before][name := before + added] == store.files[name := before + added];
    }
  }

  /** Whatever fails: after a failed open no file is touched; otherwise exactly the data of the writes that succeeded
      is stored, in order, and no other file is touched.  In any case the handle ends closed. */
  lemma UploadStoresAccepted(store: Store, file: FileInfo, body: string, oks: seq<bool>)
    requires |oks| == |FileEvents(file, body)|
    ensures var events := FileEvents(file, body);
      |oks| > 0 && ConsumeEach(store, events, oks)
      == if !oks[0] then store.(open := false)
         else Store(store.files[StoredName(file.filename) := Accepted(events, oks)], false, StoredName(file.filename))
  {
    hide StoredName, BlockEvents, Written;
    var events := FileEvents(file, body);
    ChunkingRefinesWriting(file, body);
    var n := |events| - 1;
    ConsumeWrites(store, file, events[..n], oks[..n]);
    EndOnly(store, events, oks);
  }

  lemma EndOnly(store: Store, events: seq<Event>, oks: seq<bool>)
    requires |events| == |oks| > 0 && events[|events| - 1].status == FileEnd
    ensures var n := |events| - 1;
      && ConsumeEach(store, events, oks) == ConsumeEach(store, events[..n], oks[..n]).(open := false)
      && Accepted(events, oks) == Accepted(events[..n], oks[..n])
  {
  }

  /** The upload handler of the sketch: opens, appends to and closes the current file. */
  class UploadHandler {
    var files: map<string, string>
    var open: bool
    var name: string

    constructor ()
      ensures State() == Store(map[], false, "")
    {
      files, open, name := map[], false, "";
    }

    ghost function State(): Store
      reads this
    {
      Store(files, open, name)
    }

    method HandleFileUpload(uri: string, event: Event, ok: bool)
      modifies this
      ensures State() == if uri != "/upload" then old(State()) else Consume(old(State()), event, ok)
    {
      if uri != "/upload" { return; }
      match event.status {
        case FileStart =>
          var filename := event.file.filename;
          if |filename| > 30 {
            var x := |filename| - 30;
            assert filename[x..30 + x] == filename[x..];
            filename := filename[x..30 + x];
          }
          if !("/" <= filename) {
            filename := "/" + filename;
          }
          if ok {
            files, open, name := files[filename := ""], true, filename;
          } else {
            open := false;
          }
        case FileWrite =>
          if open && ok && name in files {
            files := files[name := files[name] + event.data];
          }
        case FileEnd =>
          open := false;
        case FileAborted =>
      }
    }
  }
}

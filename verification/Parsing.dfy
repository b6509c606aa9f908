/** The request parser: argument splitter, URL decoder, upload chunker and multipart scanner,
    each proved equal to its function. */
module Parsing {
  import opened Words

  import opened Strings
  import opened Arguments
  import opened FileScanner
  import opened Uploads
  import opened Multipart

  /** A connection whose remaining bytes are `unread`.  Once they are used up the peer may be found gone. */
  class Client {
    var unread: string
    var gone: bool

    constructor (bytes: string)
      ensures unread == bytes && !gone
    {
      unread, gone := bytes, false;
    }

    method ReadStringUntil(c: char) returns (line: string)
      modifies this
      ensures (line, unread) == Until(old(unread), c) && gone == old(gone)
    {
      var i := IndexOf(unread, c, 0);
      if i == -1 {
        line, unread := unread, "";
      } else {
        line, unread := unread[..i], unread[i + 1..];
      }
    }

    method ReadLine() returns (line: string)
      modifies this
      ensures (line, unread) == Multipart.ReadLine(old(unread)) && gone == old(gone)
    {
      line := ReadStringUntil(CR);
      var _ := ReadStringUntil(LF);
    }

    /** Bytes that did not arrive leave their part of the buffer as it was: anything. */
    method ReadBytes(n: nat) returns (bytes: string)
      modifies this
      ensures |bytes| == n && gone == old(gone)
      ensures n <= |old(unread)| ==> bytes == old(unread)[..n] && unread == old(unread)[n..]
      ensures n > |old(unread)| ==> old(unread) <= bytes && unread == ""
    {
      if n <= |unread| {
        bytes, unread := unread[..n], unread[n..];
      } else {
        var missing := seq(n - |unread|, _ => '?');
        bytes, unread := unread + missing, "";
      }
    }

    method Connected() returns (connected: bool)
      ensures unread != "" ==> connected
      ensures unread == "" && gone ==> !connected
    {
      connected := unread != "" || !gone;
      if unread == "" && connected {
        connected := *;
      }
    }

    /** Waits for a byte; when the peer leaves first, the failed read's -1 becomes 0xFF. */
    method UploadReadByte() returns (b: char)
      modifies this
      ensures old(unread) != "" ==> b == old(unread)[0] && unread == old(unread)[1..] && gone == old(gone)
      ensures old(unread) == "" ==> b == '\U{00FF}' && unread == "" && gone
    {
      if unread != "" {
        b, unread := unread[0], unread[1..];
      } else {
        gone := true;
        b := '\U{00FF}';
      }
    }
  }

  datatype Outcome =
    | Returned(ok: bool)
    | NeverReturns  // waits for a boundary line that will not come
    | PastArray     // stores a 33rd field

  /** How one turn of the form loop ends. */
  datatype Step = More | Last | Stop(outcome: Outcome)

  class RequestParser {
    var currentArgs: array?<Arg>
    var currentArgCount: nat

    var canUpload: bool  // there is a handler for the request and it takes uploads
    var events: seq<Event>  // the callbacks made so far

    var status: Status
    var file: FileInfo
    var totalSize: nat
    var currentSize: nat
    const buf: array<char>

    ghost var written: string  // the file bytes passed on since START
    ghost var begun: seq<Event>  // the callbacks made before START

    constructor (uploads: bool)
      ensures Valid() && Args() == [] && events == [] && canUpload == uploads
      ensures fresh(buf)
    {
      currentArgs, currentArgCount := null, 0;
      canUpload, events := uploads, [];
      status, file, totalSize, currentSize := FileStart, FileInfo("", "", ""), 0, 0;
      buf := new char[BUFLEN];
      written, begun := "", [];
    }

    ghost predicate Valid()
      reads this, currentArgs
    {
      && buf.Length == BUFLEN
      && (currentArgs == null ==> currentArgCount == 0)
      && (currentArgs != null ==> currentArgCount <= currentArgs.Length)
    }

    ghost function Args(): seq<Arg>
      requires Valid()
      reads this, currentArgs
    {
      if currentArgs == null then [] else currentArgs[..currentArgCount]
    }

    // ---------------------------------------------------------------- arguments

    static method UrlDecode(text: string) returns (decoded: string)
      ensures decoded == Arguments.UrlDecode(text)
    {
      hide Arguments.UrlDecode;
      decoded := "";
      var i, len := 0, |text|;
      assert text[0..] == text;
      while i < len
        invariant i <= len
        invariant decoded + Arguments.UrlDecode(text[i..]) == Arguments.UrlDecode(text)
      {
        DecoderStep(text, i);
        var decodedChar;
        var encodedChar := text[i];
        i := i + 1;
        if encodedChar == '%' && i + 1 < len {
          var first, second := text[i], text[i + 1];
          i := i + 2;
          decodedChar := HexPair(first, second) as char;
        } else if encodedChar == '+' {
          decodedChar := ' ';
        } else {
          decodedChar := encodedChar;
        }
        decoded := decoded + [decodedChar];
      }
      assert text[len..] == "";
      DecodeEmpty();
    }

    static lemma DecodeEmpty()
      ensures Arguments.UrlDecode("") == ""
    {
    }

    /** Entries allocated for a query string: one more than it has '&'s, so one for every segment. */
    static method CountArgs(data: string) returns (count: nat)
      requires |data| > 0
      ensures count == |Split(data, '&')|
    {
      hide Split, IndexOf;
      count := 1;
      var i: int := 0;
      assert data[0..] == data;
      while i < |data|
        invariant 0 <= i <= |data|
        invariant count - 1 + |Split(data[i..], '&')| == |Split(data, '&')|
        decreases |data| - i
      {
        SplitterStep(data, i);
        i := IndexOf(data, '&', i);
        if i == -1 {
          return;
        }
        i := i + 1;
        count := count + 1;
      }
      assert data[|data|..] == "";
      EmptySplit();
    }

    static lemma EmptySplit()
      ensures Split("", '&') == [""]
    {
    }

    method ParseArguments(data: string)
      requires Valid()
      modifies this`currentArgs, this`currentArgCount
      ensures Valid() && Args() == ParseArgs(data)
      ensures currentArgs != null ==> fresh(currentArgs) && currentArgs.Length == |Split(data, '&')|
    {
      currentArgs := null;
      if |data| == 0 {
        currentArgCount := 0;
        assert Split(data, '&') == [""];
        assert ArgOf("") == [];
        return;
      }
      var count := CountArgs(data);
      var args := new Arg[count](_ => Arg("", ""));
      currentArgCount := FillArgs(data, args);
      currentArgs := args;
    }

    /** Stores the arguments in the entries allocated for them, of which there are always enough. */
    static method FillArgs(data: string, args: array<Arg>) returns (iarg: nat)
      requires args.Length == |Split(data, '&')|
      modifies args
      ensures iarg <= args.Length && args[..iarg] == ParseArgs(data)
    {
      hide Arguments.UrlDecode, Split, ParseArgs, IndexOf, Substring;
      var pos := 0;
      iarg := 0;
      ghost var done: seq<Arg> := [];
      assert data[0..] == data;
      while iarg < args.Length
        invariant pos <= |data| && iarg <= args.Length && args[..iarg] == done
        invariant iarg + |Split(data[pos..], '&')| <= args.Length
        invariant done + ParseArgs(data[pos..]) == ParseArgs(data)
        decreases |data| - pos
      {
        SplitterStep(data, pos);
        var equalSign, nextArg := IndexOf(data, '=', pos), IndexOf(data, '&', pos);
        if equalSign == -1 || (equalSign > nextArg && nextArg != -1) {
          if nextArg == -1 {
            break;
          }
          pos := nextArg + 1;
          continue;
        }
        var value := UrlDecode(Substring(data, equalSign + 1, nextArg));
        args[iarg] := Arg(Substring(data, pos, equalSign), value);
        done := done + [args[iarg]];
        iarg := iarg + 1;
        if nextArg == -1 {
          break;
        }
        pos := nextArg + 1;
      }
    }

    /** `hasArg` */
    method HasArgument(name: string) returns (has: bool)
      requires Valid()
      ensures has == HasArg(Args(), name)
    {
      for i := 0 to currentArgCount
        invariant forall j :: 0 <= j < i ==> currentArgs[j].key != name
      {
        if currentArgs[i].key == name {
          assert Args()[i].key == name;
          return true;
        }
      }
      has := false;
    }

    /** `arg` */
    method Argument(name: string) returns (value: string)
      requires Valid()
      ensures value == ValueOf(Args(), name)
    {
      for i := 0 to currentArgCount
        invariant forall j :: 0 <= j < i ==> currentArgs[j].key != name
      {
        if currentArgs[i].key == name {
          assert Args()[i].key == name;
          return currentArgs[i].value;
        }
      }
      value := "";
    }

    // ---------------------------------------------------------------- uploads

    /** An upload with n blocks handed over: what was written is those blocks and what is in the buffer. */
    ghost predicate Filling(n: nat)
      reads this, buf
    {
      && buf.Length == BUFLEN && status == FileWrite
      && BUFLEN * n <= |written| && currentSize == |written| - BUFLEN * n <= BUFLEN
      && totalSize == BUFLEN * n % WORD
      && buf[..currentSize] == written[BUFLEN * n..]
      && events == begun + if canUpload then Handed(file, written, n) else []
    }

    ghost predicate Uploading()
      reads this, buf
    {
      Filling(Flushed(|written|))
    }

    method NotifyHandler()
      requires currentSize <= buf.Length
      modifies this`events
      ensures events == old(events) + if canUpload then [Event(status, file, totalSize, buf[..currentSize])] else []
    {
      if canUpload {
        events := events + [Event(status, file, totalSize, buf[..currentSize])];
      }
    }

    method BeginUpload(info: FileInfo)
      requires buf.Length == BUFLEN
      modifies this`status, this`file, this`totalSize, this`currentSize, this`events, this`written, this`begun
      ensures Uploading() && written == "" && begun == old(events) && file == info
    {
      begun, written := events, "";
      status, file, totalSize, currentSize := FileStart, info, 0, 0;
      NotifyHandler();
      status := FileWrite;
    }

    method UploadWriteByte(b: char)
      requires Uploading()
      modifies this`events, this`totalSize, this`currentSize, this`written, buf
      ensures Uploading() && written == old(written) + [b]
    {
      hide BlockEvents, Handed;
      FlushOnFull(|written|);
      if currentSize == BUFLEN {
        FlushBuffer(Flushed(|written|));
        StoreByte(b, Flushed(|written|) + 1);
      } else {
        StoreByte(b, Flushed(|written|));
      }
    }

    method FlushBuffer(ghost n: nat)
      requires Filling(n) && currentSize == BUFLEN
      modifies this`events, this`totalSize, this`currentSize
      ensures Filling(n + 1) && currentSize == 0
    {
      hide BlockEvents, Handed;
      assert written[BUFLEN * n..BUFLEN * (n + 1)] == written[BUFLEN * n..];
      assert written[BUFLEN * (n + 1)..] == "";
      HandOneMore(file, written, n);
      NotifyHandler();
      totalSize := (totalSize + currentSize) % WORD;
      currentSize := 0;
    }

    method StoreByte(b: char, ghost n: nat)
      requires Filling(n) && currentSize < BUFLEN
      modifies this`currentSize, this`written, buf
      ensures Filling(n) && written == old(written) + [b]
    {
      hide BlockEvents;
      BlocksStable(file, written, [b], n);
      assert (written + [b])[BUFLEN * n..] == written[BUFLEN * n..] + [b];
      buf[currentSize] := b;
      assert buf[..currentSize + 1] == written[BUFLEN * n..] + [b];
      currentSize := currentSize + 1;
      written := written + [b];
    }

    method EndUpload()
      requires Uploading()
      modifies this`events, this`totalSize, this`status
      ensures events == begun + if canUpload then FileEvents(file, written) else []
    {
      hide BlockEvents, Handed, FileEvents;
      ghost var data := buf[..currentSize];
      ghost var write := Event(FileWrite, file, totalSize, data);
      NotifyHandler();
      Total(BUFLEN * Flushed(|written|), currentSize);
      totalSize := (totalSize + currentSize) % WORD;
      status := FileEnd;
      NotifyHandler();
      HandLast(file, written);
      if canUpload {
        Associate4(begun, Handed(file, written, Flushed(|written|)), [write], [Event(FileEnd, file, totalSize, data)]);
      }
    }

    static lemma Total(handed: nat, rest: nat)
      ensures (handed % WORD + rest) % WORD == (handed + rest) % WORD
    {
    }

    method UploadAborted()
      requires Uploading()
      modifies this`events, this`status
      ensures events == begun + if canUpload then AbortEvents(file, written) else []
    {
      hide BlockEvents, Handed;
      status := FileAborted;
      NotifyHandler();
    }

    // ---------------------------------------------------------------- the file scanner

    method UploadWrite(bytes: string)
      requires Uploading()
      modifies this`events, this`totalSize, this`currentSize, this`written, buf
      ensures Uploading() && written == old(written) + bytes
    {
      hide Uploading, Filling;
      var i := 0;
      while i < |bytes|
        invariant i <= |bytes| && Uploading() && written == old(written) + bytes[..i]
      {
        UploadWriteByte(bytes[i]);
        assert bytes[..i + 1] == bytes[..i] + [bytes[i]];
        i := i + 1;
      }
      assert bytes[..|bytes|] == bytes;
    }

    /** The input has no end of file, and what was written is what the scanner lets through of it. */
    ghost predicate CutHere(input: string, boundary: string)
      reads this`written
    {
      var scan := ScanFile(input, boundary);
      scan.Truncated? && CutShort(scan, written, boundary)
    }

    /** At `readfile`: what was written, the lookahead byte and the unread bytes are the input, and the scanner
        stands before the lookahead byte; or the peer left and the file has no end. */
    ghost predicate AtReadFile(client: Client, input: string, boundary: string, argByte: char)
      reads this, client
    {
      || Tracks(input, written, [argByte] + client.unread, boundary)
      || (client.gone && client.unread == "" && argByte == '\U{00FF}' && CutHere(input, boundary))
    }

    /** The next byte to look at, when the scanner stands before the unread bytes. */
    method NextByte(client: Client, ghost input: string, boundary: string) returns (argByte: char)
      requires Tracks(input, written, client.unread, boundary) || (client.unread == "" && CutHere(input, boundary))
      modifies client
      ensures AtReadFile(client, input, boundary, argByte)
      ensures if old(client.unread) == "" then client.unread == "" && client.gone
              else |client.unread| < |old(client.unread)| && client.gone == old(client.gone)
    {
      hide ScanFile;
      if Tracks(input, written, client.unread, boundary) && client.unread == "" {
        TrackShort(input, written, "", boundary);
      }
      argByte := client.UploadReadByte();
      assert old(client.unread) != "" ==> old(client.unread) == [argByte] + client.unread;
    }

    /** The byte behind `seen`, if it came before the peer left. */
    method ByteBehind(client: Client, ghost input: string, ghost seen: string, boundary: string)
        returns (argByte: char, connected: bool)
      requires seen in {[CR], [CR, LF], [CR, LF, '-']}
      requires Tracks(input, written, seen + client.unread, boundary)
      modifies client
      ensures connected ==> old(client.unread) == [argByte] + client.unread
      ensures !connected ==> CutHere(input, boundary)
    {
      hide ScanFile;
      ghost var unread := client.unread;
      argByte := client.UploadReadByte();
      connected := client.Connected();
      if !connected {
        assert |unread| <= 1 && (seen + unread)[..|seen|] == seen;
        ShortSeen(seen, seen + unread);
        TrackShort(input, written, seen + unread, boundary);
      }
    }

    /** Writes up to the next CR. */
    method CopyToCR(client: Client, ghost input: string, boundary: string, first: char) returns (connected: bool)
      requires Uploading() && AtReadFile(client, input, boundary, first)
      modifies this`events, this`totalSize, this`currentSize, this`written, buf, client
      ensures Uploading()
      ensures connected ==> Tracks(input, written, [CR] + client.unread, boundary)
      ensures connected ==> input == written + [CR] + client.unread
      ensures |client.unread| <= |old(client.unread)|
      ensures !connected ==> CutHere(input, boundary)
    {
      hide ScanFile, Uploading, Filling;
      var argByte := first;
      while argByte != CR
        invariant Uploading() && AtReadFile(client, input, boundary, argByte)
        invariant |client.unread| <= |old(client.unread)|
        decreases |client.unread|, !client.gone
      {
        connected := client.Connected();
        if !connected {
          if Tracks(input, written, [argByte] + client.unread, boundary) {
            TrackShort(input, written, [argByte] + client.unread, boundary);
          }
          return;
        }
        TrackPlain(input, written, argByte, client.unread, boundary);
        UploadWriteByte(argByte);
        argByte := NextByte(client, input, boundary);
      }
      connected := true;
    }

    /** Behind CRLF "--": the boundary, or a block that belongs to the file. */
    method ReadBlock(client: Client, ghost input: string, boundary: string) returns (found: bool, argByte: char)
      requires Uploading() && Tracks(input, written, [CR, LF] + "--" + client.unread, boundary)
      modifies this`events, this`totalSize, this`currentSize, this`written, buf, client
      ensures Uploading() && |client.unread| <= |old(client.unread)|
      ensures found ==> written == old(written)
      ensures found ==> match ScanFile(input, boundary)
        case Found(body, rest) => body == written && rest == client.unread
        case Truncated(_, _) => client.unread == "" && MistakenEnd(ScanFile(input, boundary), written, boundary)
      ensures !found && client.unread != "" ==> input == written + [argByte] + client.unread
      ensures !found ==> AtReadFile(client, input, boundary, argByte)
    {
      hide ScanFile, Uploading, Filling;
      TrackAtBlock(input, written, client.unread, boundary);
      var endBuf := client.ReadBytes(|boundary|);
      if endBuf == boundary {
        return true, '-';
      }
      found := false;
      UploadWriteByte(CR);
      UploadWriteByte(LF);
      UploadWriteByte('-');
      UploadWriteByte('-');
      UploadWrite(endBuf);
      argByte := NextByte(client, input, boundary);
    }

    /** Copies the file up to its delimiter.  On a complete file it writes exactly the file and stops right
        behind the delimiter; it reports no end for a file without one, unless the block that would tell
        did not arrive and the bytes left in its buffer are taken for the boundary. */
    method ScanUpload(client: Client, boundary: string) returns (found: bool)
      requires Uploading() && written == ""
      modifies this`events, this`totalSize, this`currentSize, this`written, buf, client
      ensures Uploading()
      ensures match ScanFile(old(client.unread), boundary)
        case Found(body, rest) => found && written == body && client.unread == rest
        case Truncated(_, _) =>
          var scan := ScanFile(old(client.unread), boundary);
          if found then client.unread == "" && MistakenEnd(scan, written, boundary)
          else CutShort(scan, written, boundary)
    {
      hide ScanFile, Uploading, Filling;
      ghost var input := client.unread;
      TrackStart(input, boundary);
      var argByte := NextByte(client, input, boundary);
      while true
        invariant Uploading() && AtReadFile(client, input, boundary, argByte)
        decreases |client.unread|
      {
        var connected := CopyToCR(client, input, boundary, argByte);
        if !connected { return false; }
        argByte, connected := ByteBehind(client, input, [CR], boundary);
        if !connected { return false; }
        if argByte != LF {
          TrackAfterCR(input, written, argByte, client.unread, boundary);
          UploadWriteByte(CR);
          continue;
        }
        assert [CR] + ([LF] + client.unread) == [CR, LF] + client.unread;
        argByte, connected := ByteBehind(client, input, [CR, LF], boundary);
        if !connected { return false; }
        if argByte != '-' {
          TrackAfterLF(input, written, argByte, client.unread, boundary);
          UploadWriteByte(CR);
          UploadWriteByte(LF);
          continue;
        }
        assert [CR, LF] + (['-'] + client.unread) == [CR, LF, '-'] + client.unread;
        argByte, connected := ByteBehind(client, input, [CR, LF, '-'], boundary);
        if !connected { return false; }
        if argByte != '-' {
          TrackAfterDash(input, written, argByte, client.unread, boundary);
          UploadWriteByte(CR);
          UploadWriteByte(LF);
          UploadWriteByte('-');
          continue;
        }
        assert [CR, LF, '-'] + (['-'] + client.unread) == [CR, LF] + "--" + client.unread;
        found, argByte := ReadBlock(client, input, boundary);
        if found { return; }
      }
    }

    // ---------------------------------------------------------------- the form

    method ReadFormType(client: Client) returns (contentType: string)
      modifies client
      ensures (contentType, client.unread) == ReadType(old(client.unread))
    {
      contentType := "text/plain";
      var line := client.ReadLine();
      if StartsWith(line, CONTENT_TYPE) {
        contentType := SubstringFrom(line, IndexOf(line, ':', 0) + 2);
        var _ := client.ReadLine();
      }
    }

    /** Reads the lines of a field's value up to a boundary line; `done` is false if none comes. */
    method ReadFormValue(client: Client, boundary: string) returns (value: string, stop: string, done: bool)
      modifies client
      ensures match ReadValue(old(client.unread), boundary, "")
        case FieldValue(v, line, rest) => done && value == v && stop == line && client.unread == rest
        case NoBoundaryLine => !done
    {
      value := "";
      while true
        invariant ReadValue(client.unread, boundary, value) == ReadValue(old(client.unread), boundary, "")
        decreases |client.unread|
      {
        if |client.unread| == 0 {
          return value, "", false;
        }
        stop := client.ReadLine();
        if StartsWith(stop, "--" + boundary) {
          return value, stop, true;
        }
        if |value| > 0 {
          value := value + "\n";
        }
        value := value + stop;
      }
    }

    /** The file part behind its headers: all its callbacks, and whether it was the last part. */
    method ParseUpload(client: Client, boundary: string, info: FileInfo) returns (aborted: bool, last: bool)
      requires buf.Length == BUFLEN
      modifies this`status, this`file, this`events, this`totalSize, this`currentSize, this`written, this`begun, buf,
        client
      ensures match ScanFile(old(client.unread), boundary)
        case Found(body, behind) =>
          && !aborted && written == body && events == old(events) + (if canUpload then FileEvents(info, body) else [])
          && client.unread == Multipart.ReadLine(behind).1 && last == (Multipart.ReadLine(behind).0 == "--")
        case Truncated(_, _) =>
          var scan := ScanFile(old(client.unread), boundary);
          if aborted then
            && CutShort(scan, written, boundary)
            && events == old(events) + (if canUpload then AbortEvents(info, written) else [])
          else
            && MistakenEnd(scan, written, boundary)
            && events == old(events) + (if canUpload then FileEvents(info, written) else [])
            && client.unread == "" && !last
    {
      hide ScanFile, FileEvents, Handed;
      BeginUpload(info);
      var found := ScanUpload(client, boundary);
      if !found {
        UploadAborted();
        return true, false;
      }
      EndUpload();
      var line := client.ReadLine();
      aborted, last := false, line == "--";
      assert Multipart.ReadLine("") == ("", "");
    }

    /** The form ends inside a file of which `written` was passed on, and `made` are all the callbacks. */
    static ghost predicate Aborts(form: Form, made: seq<Event>, context: Context, written: string) {
      && form.CutOff? && ScanFile(form.content, context.boundary).Truncated?
      && CutShort(ScanFile(form.content, context.boundary), written, context.boundary)
      && made == form.events + if context.canUpload then AbortEvents(form.file, written) else []
    }

    /** The form ends inside a file, and the first bytes of a block passed for the boundary. */
    static ghost predicate Mistakes(form: Form, made: seq<Event>, context: Context, written: string) {
      && form.CutOff? && ScanFile(form.content, context.boundary).Truncated?
      && MistakenEnd(ScanFile(form.content, context.boundary), written, context.boundary)
      && made == form.events + Callbacks(context, form.file, written)
    }

    /** `form` is what the parser makes of bytes of which it has now dealt with one part, and in that part added
        a field and made callbacks. */
    static ghost predicate Explains(form: Form, step: Step, added: seq<Arg>, made: seq<Event>, unread: string,
                                    context: Context, len: nat, written: string)
    {
      match step
      case More =>
        || form == Resume(added, made, ParseParts(unread, context, len))
        || (Mistakes(form, made, context, written) && unread == "")
      case Last => form == Parsed(added, made, unread)
      case Stop(outcome) =>
        || (Aborts(form, made, context, written) && outcome == Returned(false))
        || (form == Stalled(made) && outcome == NeverReturns)
        || (form == Overrun(made) && outcome == PastArray)
    }

    method ParseFieldPart(client: Client, ghost context: Context, boundary: string, name: string,
        postArgs: array<Arg>, used: nat)
        returns (step: Step, len: nat, ghost added: seq<Arg>)
      requires context.boundary == boundary && postArgs.Length == MAX_FIELDS && used <= MAX_FIELDS
      modifies client, postArgs
      ensures used <= len <= MAX_FIELDS && postArgs[..len] == old(postArgs[..used]) + added
      ensures !step.Stop? ==> |client.unread| < |old(client.unread)|
      ensures Explains(ParseField(name, old(client.unread), context, used), step, added, [], client.unread, context,
        len, written)
    {
      hide ReadValue, ParseParts;
      len, added := used, [];
      var value, stop, done := ReadFormValue(client, boundary);
      if !done {
        return Stop(NeverReturns), len, added;
      }
      if used == MAX_FIELDS {
        return Stop(PastArray), len, added;
      }
      postArgs[used] := Arg(name, value);
      len, added := used + 1, [Arg(name, value)];
      step := if stop == "--" + boundary + "--" then Last else More;
    }

    method ParseFilePart(client: Client, ghost context: Context, boundary: string, info: FileInfo, ghost used: nat)
        returns (step: Step, ghost made: seq<Event>)
      requires buf.Length == BUFLEN && context.boundary == boundary && context.canUpload == canUpload
      modifies this`status, this`file, this`events, this`totalSize, this`currentSize, this`written, this`begun, buf,
        client
      ensures events == old(events) + made
      ensures !step.Stop? ==> |client.unread| < |old(client.unread)| || client.unread == ""
      ensures Explains(ParseFile(info, old(client.unread), context, used), step, [], made, client.unread, context,
        used, written)
    {
      hide ScanFile, FileEvents, ParseParts, CutShort, MistakenEnd, AbortEvents;
      ScanLossless(client.unread, boundary);
      var aborted, last := ParseUpload(client, boundary, info);
      made := if aborted then (if canUpload then AbortEvents(info, written) else [])
        else Callbacks(context, info, written);
      step := if aborted then Stop(Returned(false)) else if last then Last else More;
    }

    /** One turn of the parser's loop: `added` and `made` are the field and the callbacks of this part. */
    method ParsePart(client: Client, ghost context: Context, boundary: string, postArgs: array<Arg>, used: nat)
        returns (step: Step, len: nat, ghost added: seq<Arg>, ghost made: seq<Event>)
      requires Valid() && context == Context(boundary, Args(), canUpload)
      requires client.unread != "" && postArgs.Length == MAX_FIELDS && used <= MAX_FIELDS && postArgs != currentArgs
      modifies this`status, this`file, this`events, this`totalSize, this`currentSize, this`written, this`begun
      modifies buf, client, postArgs
      ensures used <= len <= MAX_FIELDS && postArgs[..len] == old(postArgs[..used]) + added
      ensures !step.Stop? ==> |client.unread| < |old(client.unread)|
      ensures events == old(events) + made
      ensures Explains(ParseParts(old(client.unread), context, used), step, added, made, client.unread, context, len,
        written)
    {
      hide ScanFile, ReadValue, FileEvents, ReadType, ParseDisposition;
      len, added, made := used, [], [];
      var line := client.ReadLine();
      ResumeNothing(ParseParts(client.unread, context, used));
      if !StartsWith(line, DISPOSITION) {
        return More, len, added, made;
      }
      match ParseDisposition(line) {
        case Unnamed =>
          step := More;
        case FieldPart(name) =>
          var _ := ReadFormType(client);
          step, len, added := ParseFieldPart(client, context, boundary, name, postArgs, used);
        case FilePart(name, filename) =>
          var storeAs := filename;
          if storeAs == "blob" {
            var has := HasArgument("filename");
            if has {
              storeAs := Argument("filename");
            }
          }
          var contentType := ReadFormType(client);
          step, made := ParseFilePart(client, context, boundary, FileInfo(name, storeAs, contentType), used);
      }
    }

    static lemma ResumeNothing(form: Form)
      ensures Resume([], [], form) == form
    {
    }

    /** The first line that is not empty, at most the third. */
    method ReadFirstLine(client: Client) returns (line: string)
      modifies client
      ensures (line, client.unread) == FirstLine(old(client.unread), 0)
    {
      line := client.ReadStringUntil(CR);
      var retry := 1;
      while |line| == 0 && retry < 3
        invariant retry <= 3
        invariant FirstLine(old(client.unread), 0)
          == if |line| == 0 && retry < 3 then FirstLine(client.unread, retry) else (line, client.unread)
      {
        line := client.ReadStringUntil(CR);
        retry := retry + 1;
      }
    }

    /** The fields come first, then the query arguments that still have a place among the 32. */
    method MergeArguments(postArgs: array<Arg>, used: nat)
      requires Valid() && postArgs.Length == MAX_FIELDS && used <= MAX_FIELDS && postArgs != currentArgs
      modifies this`currentArgs, this`currentArgCount, postArgs
      ensures Valid() && Args() == Merge(old(postArgs[..used]), old(Args()))
    {
      ghost var fields, query := postArgs[..used], Args();
      var totalArgs := if MAX_FIELDS - used < currentArgCount then MAX_FIELDS - used else currentArgCount;
      var len := used;
      for iarg := 0 to totalArgs
        invariant len == used + iarg && postArgs[..len] == fields + query[..iarg]
        modifies postArgs
      {
        postArgs[len] := currentArgs[iarg];
        len := len + 1;
        assert query[..iarg + 1] == query[..iarg] + [query[iarg]];
      }
      var args := new Arg[len](_ => Arg("", ""));
      for iarg := 0 to len
        invariant args[..iarg] == postArgs[..iarg] && postArgs[..len] == fields + query[..totalArgs]
      {
        args[iarg] := postArgs[iarg];
      }
      currentArgs, currentArgCount := args, len;
    }

    /** `_parseForm`: what it does to arguments, callbacks and stream is what the function ParseForm says.
        A form whose bytes end inside a file is never reported as parsed: the callbacks are those of the files
        before it, then START, the full blocks of what was passed on, and ABORTED; only when the bytes end in a block
        whose first bytes may pass for the boundary can the parser take this for the end of the file and wait. */
    method ParseForm(client: Client, boundary: string) returns (outcome: Outcome, ghost made: seq<Event>)
      requires Valid()
      modifies this, buf, client
      ensures Valid() && events == old(events) + made
      ensures var context := Context(boundary, old(Args()), old(canUpload));
        match Multipart.ParseForm(old(client.unread), context)
        case Parsed(fields, all, rest) =>
          && outcome == Returned(true) && |fields| <= MAX_FIELDS
          && Args() == Merge(fields, old(Args())) && made == all && client.unread == rest
        case Rejected => outcome == Returned(false) && Args() == old(Args()) && made == []
        case CutOff(earlier, file, content) =>
          && Args() == old(Args())
          && (outcome == Returned(false) || outcome == NeverReturns)
          && (outcome == Returned(false) ==> Aborts(CutOff(earlier, file, content), made, context, written))
          && (outcome == NeverReturns ==> Mistakes(CutOff(earlier, file, content), made, context, written))
        case Stalled(all) => outcome == NeverReturns && made == all && Args() == old(Args())
        case Overrun(all) => outcome == PastArray && made == all && Args() == old(Args())
    {
      hide ParseParts, Merge, FirstLine, Aborts, Mistakes, Explains, Resume;
      ghost var context := Context(boundary, Args(), canUpload);
      ghost var form := Multipart.ParseForm(client.unread, context);
      made := [];
      var line := ReadFirstLine(client);
      var _ := client.ReadStringUntil(LF);
      if line != "--" + boundary {
        return Returned(false), [];
      }
      var postArgs := new Arg[MAX_FIELDS](_ => Arg("", ""));
      var len := 0;
      assert form == ParseParts(client.unread, context, 0);
      ExplainsStart(client.unread, context, written);
      while true
        invariant Valid() && context == Context(boundary, Args(), canUpload) && len <= MAX_FIELDS
        invariant currentArgs == old(currentArgs) && Args() == old(Args()) && canUpload == old(canUpload)
        invariant events == old(events) + made
        invariant Explains(form, More, postArgs[..len], made, client.unread, context, len, written)
        decreases |client.unread|
      {
        if |client.unread| == 0 {
          ExplainsEmpty(form, postArgs[..len], made, context, len, written);
          return NeverReturns, made;
        }
        ghost var fields, before, used, earlier := postArgs[..len], client.unread, len, written;
        var step; ghost var added, more;
        step, len, added, more := ParsePart(client, context, boundary, postArgs, len);
        ExplainsMore(form, fields, made, before, used, step, added, more, client.unread, context, len, earlier,
          written);
        made := made + more;
        match step {
          case More =>
          case Last => break;
          case Stop(stopped) =>
            ExplainsStop(form, stopped, postArgs[..len], made, client.unread, context, len, written);
            return stopped, made;
        }
      }
      ExplainsLast(form, postArgs[..len], made, client.unread, context, len, written);
      MergeArguments(postArgs, len);
      outcome := Returned(true);
    }

    static lemma ExplainsEmpty(form: Form, fields: seq<Arg>, made: seq<Event>, context: Context, len: nat,
        written: string)
      requires Explains(form, More, fields, made, "", context, len, written)
      ensures form == Stalled(made) || (form.CutOff? && Mistakes(form, made, context, written))
    {
      EmptyStalls(context, len);
    }

    static lemma ExplainsStart(unread: string, context: Context, written: string)
      ensures Explains(ParseParts(unread, context, 0), More, [], [], unread, context, 0, written)
    {
      ResumeNothing(ParseParts(unread, context, 0));
    }

    static lemma ExplainsLast(form: Form, fields: seq<Arg>, made: seq<Event>, unread: string, context: Context,
        len: nat, written: string)
      requires Explains(form, Last, fields, made, unread, context, len, written)
      ensures form == Parsed(fields, made, unread)
    {
    }

    static lemma ExplainsStop(form: Form, outcome: Outcome, fields: seq<Arg>, made: seq<Event>, unread: string,
                              context: Context, len: nat, written: string)
      requires Explains(form, Stop(outcome), fields, made, unread, context, len, written)
      ensures (form.CutOff? && Aborts(form, made, context, written) && outcome == Returned(false))
              || (form == Stalled(made) && outcome == NeverReturns) || (form == Overrun(made) && outcome == PastArray)
    {
    }

    static lemma EmptyStalls(context: Context, len: nat)
      ensures ParseParts("", context, len) == Stalled([])
    {
    }

    /** Dealing with one more part. */
    static lemma ExplainsMore(form: Form, fields: seq<Arg>, made: seq<Event>, before: string, used: nat,
                              step: Step, added: seq<Arg>, more: seq<Event>, unread: string, context: Context, len: nat,
                              earlier: string, written: string)
      requires Explains(form, More, fields, made, before, context, used, earlier) && before != ""
      requires Explains(ParseParts(before, context, used), step, added, more, unread, context, len, written)
      ensures Explains(form, step, fields + added, made + more, unread, context, len, written)
    {
      hide ParseParts, Resume, Mistakes, Aborts;
      var part := ParseParts(before, context, used);
      BeforeEnd(form, fields, made, before, used, context, earlier);
      match step {
        case More =>
          if part == Resume(added, more, ParseParts(unread, context, len)) {
            ResumeTwice(fields, made, added, more, ParseParts(unread, context, len));
          } else {
            ResumeCutOff(fields, made, part, more, context, written);
          }
        case Last =>
          ResumeParsed(fields, made, added, more, unread);
        case Stop(outcome) =>
          if Aborts(part, more, context, written) && outcome == Returned(false) {
            ResumeCutOff(fields, made, part, more, context, written);
          } else {
            ResumeStopped(fields, made, more);
          }
      }
    }

    static lemma BeforeEnd(form: Form, fields: seq<Arg>, made: seq<Event>, before: string, used: nat,
        context: Context, earlier: string)
      requires Explains(form, More, fields, made, before, context, used, earlier) && before != ""
      ensures form == Resume(fields, made, ParseParts(before, context, used))
    {
    }

    static lemma ResumeParsed(fields: seq<Arg>, made: seq<Event>, added: seq<Arg>, more: seq<Event>, rest: string)
      ensures Resume(fields, made, Parsed(added, more, rest)) == Parsed(fields + added, made + more, rest)
    {
    }

    static lemma ResumeStopped(fields: seq<Arg>, made: seq<Event>, more: seq<Event>)
      ensures Resume(fields, made, Stalled(more)) == Stalled(made + more)
      ensures Resume(fields, made, Overrun(more)) == Overrun(made + more)
    {
    }

    static lemma ResumeCutOff(fields: seq<Arg>, made: seq<Event>, part: Form, more: seq<Event>, context: Context,
        written: string)
      requires Aborts(part, more, context, written) || Mistakes(part, more, context, written)
      ensures Aborts(part, more, context, written) ==> Aborts(Resume(fields, made, part), made + more, context, written)
      ensures Mistakes(part, more, context, written) ==>
        Mistakes(Resume(fields, made, part), made + more, context, written)
    {
      hide CutShort, MistakenEnd, AbortEvents, FileEvents;
      var tail := more[|part.events|..];
      assert made + (part.events + tail) == made + part.events + tail;
    }
  }
}

/** A form rendered by a client (section 4.1 of RFC 7578) comes back part for part. */
module MultipartRoundTrip {
  import opened Strings
  import opened Arguments
  import opened FileScanner
  import opened Uploads
  import opened Multipart

  const CRLF: string := [CR, LF]

  /** A field is given by the lines of its value; `contentType` is "" for a part without that header. */
  datatype Part =
    | Field(name: string, contentType: string, lines: seq<string>)
    | File(name: string, filename: string, contentType: string, body: string)

  function NameHeader(part: Part): string {
    DISPOSITION + ": form-data; name=\"" + part.name + "\""
    + if part.File? then "; filename=\"" + part.filename + "\"" else ""
  }

  function TypeHeader(part: Part): string {
    if part.contentType == "" then "" else CONTENT_TYPE + ": " + part.contentType + CRLF
  }

  function Content(part: Part): string {
    if part.Field? then Join(part.lines, CRLF) else part.body
  }

  /** The parts from one boundary line to the end. */
  function RenderParts(parts: seq<Part>, boundary: string): string
    requires |parts| > 0
    decreases |parts|, 1
  {
    NameHeader(parts[0]) + CRLF
    + (TypeHeader(parts[0]) + CRLF + Sent(Content(parts[0]), boundary, RenderRest(parts, boundary)))
  }

  /** What follows the boundary behind the first part: "--" if it was the last. */
  function RenderRest(parts: seq<Part>, boundary: string): string
    requires |parts| > 0
    decreases |parts|, 0
  {
    if |parts| == 1 then "--" + CRLF else CRLF + RenderParts(parts[1..], boundary)
  }

  function Render(parts: seq<Part>, boundary: string): string
    requires |parts| > 0
  {
    "--" + boundary + CRLF + RenderParts(parts, boundary)
  }

  /** What the parser asks of a part. */
  predicate Renderable(part: Part, boundary: string) {
    && CR !in part.name && CR !in part.contentType && '=' !in part.name
    && match part
       case Field(_, _, lines) =>
         && |lines| > 0
         && forall i :: 0 <= i < |lines| ==> CR !in lines[i] && !StartsWith(lines[i], "--" + boundary)
       case File(name, filename, _, body) =>
         '"' !in name && CR !in filename && Clear(body, boundary)
  }

  /** The value the parser makes of the lines: joined by LF, the empty ones in front forgotten. */
  function FoldLines(value: string, lines: seq<string>): string
    decreases |lines|
  {
    if |lines| == 0 then value else FoldLines(AppendLine(value, lines[0]), lines[1..])
  }

  function Fields(parts: seq<Part>): seq<Arg> {
    if |parts| == 0 then []
    else (if parts[0].Field? then [Arg(parts[0].name, FoldLines("", parts[0].lines))] else []) + Fields(parts[1..])
  }

  function InfoOf(part: Part, query: seq<Arg>): FileInfo
    requires part.File?
  {
    FileInfo(part.name, EffectiveName(part.filename, query), TypeOf(part))
  }

  function TypeOf(part: Part): string {
    if part.contentType == "" then "text/plain" else part.contentType
  }

  function Uploaded(parts: seq<Part>, context: Context): seq<Event> {
    if |parts| == 0 then []
    else (if parts[0].File? then Callbacks(context, InfoOf(parts[0], context.query), parts[0].body) else [])
         + Uploaded(parts[1..], context)
  }

  // ---------------------------------------------------------------- what is sent and what comes back

  /** The bytes of a form with one field. */
  lemma FieldIsSentAs(name: string, value: string, boundary: string)
    ensures Render([Field(name, "", [value])], boundary)
      == "--" + boundary + "\r\n"
         + "Content-Disposition: form-data; name=\"" + name + "\"" + "\r\n"
         + "\r\n"
         + value + "\r\n"
         + "--" + boundary + "--" + "\r\n"
  {
    hide NameHeader, TypeHeader, Content;
    var part := Field(name, "", [value]);
    OnePart(part, boundary);
    PartIsSentAs(part);
    assert NameHeader(part) + CRLF + (TypeHeader(part) + CRLF + (value + Delimiter(boundary) + ("--" + CRLF)))
        == NameHeader(part) + CRLF + CRLF + value + Delimiter(boundary) + "--" + CRLF;
  }

  /** The bytes of a form with one file. */
  lemma FileIsSentAs(name: string, filename: string, contentType: string, body: string, boundary: string)
    requires contentType != ""
    ensures Render([File(name, filename, contentType, body)], boundary)
      == "--" + boundary + "\r\n"
         + "Content-Disposition: form-data; name=\"" + name + "\"; filename=\"" + filename + "\"" + "\r\n"
         + "Content-Type: " + contentType + "\r\n"
         + "\r\n"
         + body + "\r\n"
         + "--" + boundary + "--" + "\r\n"
  {
    hide NameHeader, TypeHeader, Content;
    var part := File(name, filename, contentType, body);
    OnePart(part, boundary);
    PartIsSentAs(part);
    FileFlattened(NameHeader(part), TypeHeader(part), body, Delimiter(boundary));
  }

  lemma FileFlattened(name: string, contentType: string, body: string, delimiter: string)
    ensures name + CRLF + (contentType + CRLF + (body + delimiter + ("--" + CRLF)))
      == name + CRLF + contentType + CRLF + body + delimiter + "--" + CRLF
  {
  }

  lemma OnePart(part: Part, boundary: string)
    ensures Render([part], boundary)
      == "--" + boundary + CRLF
         + (NameHeader(part) + CRLF + (TypeHeader(part) + CRLF + (Content(part) + Delimiter(boundary) + ("--" + CRLF))))
  {
    hide NameHeader, TypeHeader, Content, Delimiter;
    assert RenderRest([part], boundary) == "--" + CRLF;
  }

  lemma PartIsSentAs(part: Part)
    ensures NameHeader(part)
      == "Content-Disposition: form-data; name=\"" + part.name
         + if part.File? then "\"; filename=\"" + part.filename + "\"" else "\""
    ensures TypeHeader(part) == if part.contentType == "" then "" else "Content-Type: " + part.contentType + "\r\n"
    ensures part.File? ==> Content(part) == part.body
    ensures part.Field? && |part.lines| == 1 ==> Content(part) == part.lines[0]
  {
    assert DISPOSITION + ": form-data; name=\"" == "Content-Disposition: form-data; name=\"";
    assert "\"" + "; filename=\"" == "\"; filename=\"";
    assert CONTENT_TYPE + ": " == "Content-Type: " && CRLF == "\r\n";
  }

  /** Every field comes back in its place, and a file is no field. */
  lemma {:induction false} FieldAt(parts: seq<Part>, k: nat)
    requires k < |parts|
    ensures Fields(parts) == Fields(parts[..k]) + Fields([parts[k]]) + Fields(parts[k + 1..])
    ensures Fields([parts[k]])
      == if parts[k].Field? then [Arg(parts[k].name, FoldLines("", parts[k].lines))] else []
  {
    assert [parts[k]][1..] == [] && Fields([]) == [];
    if k == 0 {
      assert parts[..0] == [];
      assert [parts[0]] + parts[1..] == parts;
    } else {
      FieldAt(parts[1..], k - 1);
      assert parts[..k][1..] == parts[1..][..k - 1] && parts[1..][k..] == parts[k + 1..];
    }
  }

  /** Every file is uploaded in its place, under its own name, file name and type; a field makes no callback. */
  lemma FileAt(parts: seq<Part>, context: Context, k: nat)
    requires k < |parts|
    ensures Uploaded(parts, context)
      == Uploaded(parts[..k], context) + Uploaded([parts[k]], context) + Uploaded(parts[k + 1..], context)
    ensures parts[k].Field? || !context.canUpload ==> Uploaded([parts[k]], context) == []
    ensures parts[k].File? && context.canUpload && parts[k].filename != "blob" ==>
      Uploaded([parts[k]], context)
      == FileEvents(FileInfo(parts[k].name, parts[k].filename,
                             if parts[k].contentType == "" then "text/plain" else parts[k].contentType), parts[k].body)
  {
    hide Uploaded;
    OneUploaded(parts[k], context);
    assert parts == parts[..k] + ([parts[k]] + parts[k + 1..]);
    UploadedConcatenate(parts[..k], [parts[k]] + parts[k + 1..], context);
    UploadedConcatenate([parts[k]], parts[k + 1..], context);
    Associate(Uploaded(parts[..k], context), Uploaded([parts[k]], context), Uploaded(parts[k + 1..], context));
  }

  lemma OneUploaded(part: Part, context: Context)
    ensures Uploaded([part], context)
      == if part.File? then Callbacks(context, InfoOf(part, context.query), part.body) else []
  {
    hide Callbacks, InfoOf;
    assert [part][1..] == [];
    assert Uploaded([], context) == [];
  }

  lemma {:induction false} UploadedConcatenate(parts: seq<Part>, more: seq<Part>, context: Context)
    ensures Uploaded(parts + more, context) == Uploaded(parts, context) + Uploaded(more, context)
  {
    hide Uploaded;
    if |parts| == 0 {
      assert parts + more == more;
      NoneUploaded(context);
    } else {
      UploadedConcatenate(parts[1..], more, context);
      assert (parts + more)[1..] == parts[1..] + more;
      FirstUploaded(parts, context);
      FirstUploaded(parts + more, context);
      Associate(Uploaded([parts[0]], context), Uploaded(parts[1..], context), Uploaded(more, context));
    }
  }

  lemma NoneUploaded(context: Context)
    ensures Uploaded([], context) == []
  {
  }

  lemma FirstUploaded(parts: seq<Part>, context: Context)
    requires |parts| > 0
    ensures Uploaded(parts, context) == Uploaded([parts[0]], context) + Uploaded(parts[1..], context)
  {
    OneUploaded(parts[0], context);
    hide Callbacks, InfoOf;
  }

  // ---------------------------------------------------------------- values

  lemma {:induction false} FoldAfterFirst(value: string, lines: seq<string>)
    requires |value| > 0
    ensures FoldLines(value, lines) == if |lines| == 0 then value else value + "\n" + Join(lines, "\n")
    decreases |lines|
  {
    if |lines| > 0 {
      FoldAfterFirst(AppendLine(value, lines[0]), lines[1..]);
      if |lines| > 1 {
        assert value + "\n" + lines[0] + "\n" + Join(lines[1..], "\n")
            == value + "\n" + (lines[0] + "\n" + Join(lines[1..], "\n"));
      }
    }
  }

  /** A value comes back as its lines joined by LF if and only if it is one line or its first line is not empty. */
  lemma {:induction false} FoldIsJoin(lines: seq<string>)
    requires |lines| > 0
    ensures FoldLines("", lines) == Join(lines, "\n") <==> |lines| == 1 || lines[0] != ""
    decreases |lines|
  {
    assert AppendLine("", lines[0]) == lines[0];
    if lines[0] != "" {
      FoldAfterFirst(lines[0], lines[1..]);
    } else {
      FoldShorter(lines[1..]);
      assert |lines| > 1 ==> Join(lines, "\n") == "\n" + Join(lines[1..], "\n");
    }
  }

  /** Empty lines in front are forgotten one by one. */
  lemma EmptyLineForgotten(lines: seq<string>)
    ensures FoldLines("", [""] + lines) == FoldLines("", lines)
  {
    assert ([""] + lines)[1..] == lines;
  }

  lemma {:induction false} FoldShorter(lines: seq<string>)
    ensures |FoldLines("", lines)| <= |Join(lines, "\n")|
    decreases |lines|
  {
    if |lines| > 0 {
      assert AppendLine("", lines[0]) == lines[0];
      if lines[0] == "" {
        FoldShorter(lines[1..]);
      } else {
        FoldAfterFirst(lines[0], lines[1..]);
      }
    }
  }

  // ---------------------------------------------------------------- headers

  const BEFORE_NAME := DISPOSITION + ": form-data; name"

  /** The first '=' of the line stands before the name's opening quote. */
  lemma AtName(argName: string)
    ensures var line := BEFORE_NAME + "=" + ("\"" + argName);
      && IndexOf(line, '=', 0) == |BEFORE_NAME|
      && SubstringFrom(line, |BEFORE_NAME| + 2) == argName
  {
    IndexBehind(BEFORE_NAME, '=', "\"" + argName);
  }

  lemma FieldDisposition(name: string)
    requires '=' !in name
    ensures ParseDisposition(BEFORE_NAME + "=" + ("\"" + (name + "\""))) == FieldPart(name)
  {
    AtName(name + "\"");
    assert (name + "\"")[..|name|] == name;
  }

  lemma FileDisposition(name: string, filename: string)
    requires '=' !in name && '"' !in name
    ensures ParseDisposition(BEFORE_NAME + "=" + ("\"" + (name + "\"; filename=\"" + filename + "\"")))
      == FilePart(name, filename)
  {
    hide IndexOf, Substring, SubstringFrom;
    AtName(name + "\"; filename=\"" + filename + "\"");
    QuotedNames(name, filename);
  }

  /** Both quoted names, cut out of `name"; filename="filename"`. */
  lemma QuotedNames(name: string, filename: string)
    requires '=' !in name && '"' !in name
    ensures var argName := name + "\"; filename=\"" + filename + "\"";
      var eq := IndexOf(argName, '=', 0);
      && eq != -1
      && Substring(argName, 0, IndexOf(argName, '"', 0)) == name
      && Substring(argName, eq + 2, |argName| - 1) == filename
  {
    var argName := name + "\"; filename=\"" + filename + "\"";
    var afterName := "; filename=\"" + filename + "\"";
    IndexBehind(name, '"', afterName);
    assert argName == name + ['"'] + afterName;
    var before, afterEq := name + "\"; filename", "\"" + filename + "\"";
    IndexBehind(before, '=', afterEq);
    assert argName == before + ['='] + afterEq;
    assert argName[|before| + 2..|argName| - 1] == filename;
  }

  lemma DispositionOf(part: Part)
    requires '=' !in part.name && (part.File? ==> '"' !in part.name)
    ensures ParseDisposition(NameHeader(part))
      == if part.Field? then FieldPart(part.name) else FilePart(part.name, part.filename)
  {
    hide ParseDisposition;
    if part.Field? {
      FieldDisposition(part.name);
      FieldHeader(part);
    } else {
      FileDisposition(part.name, part.filename);
      FileHeader(part);
    }
  }

  lemma FieldHeader(part: Part)
    requires part.Field?
    ensures NameHeader(part) == BEFORE_NAME + "=" + ("\"" + (part.name + "\""))
  {
  }

  lemma FileHeader(part: Part)
    requires part.File?
    ensures NameHeader(part) == BEFORE_NAME + "=" + ("\"" + (part.name + "\"; filename=\"" + part.filename + "\""))
  {
  }

  lemma HeaderHasNoCR(part: Part)
    requires CR !in part.name && (part.File? ==> CR !in part.filename)
    ensures CR !in NameHeader(part) && StartsWith(NameHeader(part), DISPOSITION)
  {
    assert CR !in DISPOSITION + ": form-data; name=\"";
    assert CR !in "; filename=\"";
  }

  lemma TypeRead(part: Part, rest: string)
    requires CR !in part.contentType
    ensures ReadType(TypeHeader(part) + CRLF + rest).0
      == if part.contentType == "" then "text/plain" else part.contentType
    ensures ReadType(TypeHeader(part) + CRLF + rest) == (TypeOf(part), rest)
  {
    hide ReadType;
    if part.contentType == "" {
      assert TypeHeader(part) + CRLF + rest == "" + CRLF + rest;
      NoTypeRead(rest);
    } else {
      SomeTypeRead(part.contentType, rest);
      assert TypeHeader(part) + CRLF + rest == CONTENT_TYPE + ": " + part.contentType + CRLF + ("" + CRLF + rest);
    }
  }

  lemma NoTypeRead(rest: string)
    ensures ReadType("" + CRLF + rest) == ("text/plain", rest)
  {
    ReadLineOf("", rest);
  }

  lemma SomeTypeRead(contentType: string, rest: string)
    requires CR !in contentType
    ensures ReadType(CONTENT_TYPE + ": " + contentType + CRLF + ("" + CRLF + rest)) == (contentType, rest)
  {
    hide ReadLine, IndexOf;
    var line := CONTENT_TYPE + ": " + contentType;
    assert CR !in CONTENT_TYPE + ": ";
    ReadLineOf(line, "" + CRLF + rest);
    ReadLineOf("", rest);
    assert line == CONTENT_TYPE + [':'] + (" " + contentType);
    assert ':' !in CONTENT_TYPE;
    IndexBehind(CONTENT_TYPE, ':', " " + contentType);
    assert SubstringFrom(line, |CONTENT_TYPE| + 2) == contentType;
  }

  // ---------------------------------------------------------------- bodies

  /** A field's value is read up to its boundary line. */
  lemma {:induction false} ValueRead(lines: seq<string>, boundary: string, value: string, end: string, rest: string)
    requires |lines| > 0
    requires forall i :: 0 <= i < |lines| ==> CR !in lines[i] && !StartsWith(lines[i], "--" + boundary)
    requires CR !in boundary && CR !in end
    ensures ReadValue(Sent(Join(lines, CRLF), boundary, end + CRLF + rest), boundary, value)
      == FieldValue(FoldLines(value, lines), "--" + boundary + end, rest)
    decreases |lines|
  {
    var stop := "--" + boundary + end;
    var tail := stop + CRLF + rest;
    var s := Sent(Join(lines, CRLF), boundary, end + CRLF + rest);
    if |lines| == 1 {
      assert s == lines[0] + CRLF + tail;
      ReadLineOf(lines[0], tail);
      ReadLineOf(stop, rest);
      StopLine(boundary, end, AppendLine(value, lines[0]), rest);
      assert FoldLines(value, lines) == AppendLine(value, lines[0]);
    } else {
      var t := Sent(Join(lines[1..], CRLF), boundary, end + CRLF + rest);
      assert s == lines[0] + CRLF + t;
      ReadLineOf(lines[0], t);
      ValueRead(lines[1..], boundary, AppendLine(value, lines[0]), end, rest);
    }
  }

  lemma StopLine(boundary: string, end: string, value: string, rest: string)
    requires CR !in boundary && CR !in end
    ensures var stop := "--" + boundary + end;
      ReadValue(stop + CRLF + rest, boundary, value) == FieldValue(value, stop, rest)
  {
    var stop := "--" + boundary + end;
    ReadLineOf(stop, rest);
    assert StartsWith(stop, "--" + boundary);
  }

  // ---------------------------------------------------------------- the round trip

  lemma FirstPart(parts: seq<Part>, boundary: string, after: string)
    requires |parts| > 0
    ensures RenderParts(parts, boundary) + after
      == NameHeader(parts[0]) + CRLF
         + (TypeHeader(parts[0]) + CRLF + Sent(Content(parts[0]), boundary, RenderRest(parts, boundary) + after))
  {
    hide NameHeader, TypeHeader, Content, Delimiter, RenderRest;
    Regroup(NameHeader(parts[0]) + CRLF, TypeHeader(parts[0]) + CRLF, Content(parts[0]) + Delimiter(boundary),
            RenderRest(parts, boundary), after);
  }

  lemma Regroup(a: string, b: string, c: string, d: string, e: string)
    ensures a + (b + (c + d)) + e == a + (b + (c + (d + e)))
  {
  }

  lemma LastRest(parts: seq<Part>, boundary: string, after: string)
    requires |parts| == 1
    ensures RenderRest(parts, boundary) + after == "--" + CRLF + after
  {
  }

  lemma MoreRest(parts: seq<Part>, boundary: string, after: string)
    requires |parts| > 1
    ensures RenderRest(parts, boundary) + after == "" + CRLF + (RenderParts(parts[1..], boundary) + after)
  {
    hide RenderParts;
    assert CRLF + RenderParts(parts[1..], boundary) + after == "" + CRLF + (RenderParts(parts[1..], boundary) + after);
  }

  ghost predicate AllRenderable(parts: seq<Part>, boundary: string) {
    forall i :: 0 <= i < |parts| ==> Renderable(parts[i], boundary)
  }

  /** The parser on the parts of a rendered form. */
  lemma {:induction false} PartsRoundTrip(parts: seq<Part>, context: Context, after: string, used: nat)
    requires |parts| > 0 && AllRenderable(parts, context.boundary)
    requires |context.boundary| > 0 && CR !in context.boundary
    requires used + |Fields(parts)| <= MAX_FIELDS
    ensures ParseParts(RenderParts(parts, context.boundary) + after, context, used)
      == Parsed(Fields(parts), Uploaded(parts, context), after)
    decreases |parts|
  {
    hide ParseParts, RenderParts, RenderRest, ParseDisposition, ReadType, ReadLine, NameHeader, TypeHeader, Clear,
      ScanFile, ReadValue, FoldLines;
    var part, boundary := parts[0], context.boundary;
    var ending := RenderRest(parts, boundary) + after;
    var content := Sent(Content(part), boundary, ending);
    assert Renderable(part, boundary);
    PartsHead(parts, context, after, used);
    if |parts| > 1 {
      PartsRoundTrip(parts[1..], context, after, used + if part.Field? then 1 else 0);
    }
    if part.Field? {
      FieldRoundTrip(parts, context, after, used);
    } else {
      FileRoundTrip(parts, context, after, used);
    }
  }

  /** The header lines of the first part. */
  lemma PartsHead(parts: seq<Part>, context: Context, after: string, used: nat)
    requires |parts| > 0 && Renderable(parts[0], context.boundary)
    ensures var part := parts[0];
      var content := Sent(Content(parts[0]), context.boundary, RenderRest(parts, context.boundary) + after);
      ParseParts(RenderParts(parts, context.boundary) + after, context, used)
      == if part.Field? then ParseField(part.name, content, context, used)
         else ParseFile(InfoOf(part, context.query), content, context, used)
  {
    hide ParseParts, ParseField, ParseFile, RenderParts, RenderRest, NameHeader, TypeHeader, Clear;
    FirstPart(parts, context.boundary, after);
    HeadRead(parts[0], Sent(Content(parts[0]), context.boundary, RenderRest(parts, context.boundary) + after),
      context, used);
  }

  /** The header lines of a part, whatever follows. */
  lemma HeadRead(part: Part, content: string, context: Context, used: nat)
    requires Renderable(part, context.boundary)
    ensures ParseParts(NameHeader(part) + CRLF + (TypeHeader(part) + CRLF + content), context, used)
      == if part.Field? then ParseField(part.name, content, context, used)
         else ParseFile(InfoOf(part, context.query), content, context, used)
  {
    hide ParseField, ParseFile, ParseDisposition, ReadType, ReadLine, NameHeader, TypeHeader, Clear, ScanFile;
    var behind := TypeHeader(part) + CRLF + content;
    HeaderHasNoCR(part);
    ReadLineOf(NameHeader(part), behind);
    DispositionOf(part);
    TypeRead(part, content);
  }

  lemma FieldRoundTrip(parts: seq<Part>, context: Context, after: string, used: nat)
    requires |parts| > 0 && Renderable(parts[0], context.boundary) && parts[0].Field?
    requires CR !in context.boundary && used < MAX_FIELDS
    requires |parts| > 1 ==>
      ParseParts(RenderParts(parts[1..], context.boundary) + after, context, used + 1)
      == Parsed(Fields(parts[1..]), Uploaded(parts[1..], context), after)
    ensures ParseField(parts[0].name,
      Sent(Content(parts[0]), context.boundary, RenderRest(parts, context.boundary) + after), context, used)
      == Parsed(Fields(parts), Uploaded(parts, context), after)
  {
    hide ParseParts, RenderParts, RenderRest, ReadValue, FoldLines;
    var part, boundary := parts[0], context.boundary;
    var field := Arg(part.name, FoldLines("", part.lines));
    if |parts| == 1 {
      LastRest(parts, boundary, after);
      ValueRead(part.lines, boundary, "", "--", after);
      assert Fields(parts) == [field] + Fields(parts[1..]) == [field];
    } else {
      var next := RenderParts(parts[1..], boundary) + after;
      MoreRest(parts, boundary, after);
      ValueRead(part.lines, boundary, "", "", next);
      assert |"--" + boundary + ""| != |"--" + boundary + "--"|;
    }
  }

  lemma FileRoundTrip(parts: seq<Part>, context: Context, after: string, used: nat)
    requires |parts| > 0 && Renderable(parts[0], context.boundary) && parts[0].File?
    requires |context.boundary| > 0
    requires |parts| > 1 ==>
      ParseParts(RenderParts(parts[1..], context.boundary) + after, context, used)
      == Parsed(Fields(parts[1..]), Uploaded(parts[1..], context), after)
    ensures ParseFile(InfoOf(parts[0], context.query),
      Sent(parts[0].body, context.boundary, RenderRest(parts, context.boundary) + after), context, used)
      == Parsed(Fields(parts), Uploaded(parts, context), after)
  {
    hide ParseParts, RenderParts, RenderRest, ScanFile, Clear, ReadLine, FileEvents;
    var part, boundary := parts[0], context.boundary;
    var events := Callbacks(context, InfoOf(part, context.query), part.body);
    var ending := RenderRest(parts, boundary) + after;
    ScanExact(part.body, boundary, ending);
    if |parts| == 1 {
      LastRest(parts, boundary, after);
      ReadLineOf("--", after);
      assert Uploaded(parts, context) == events + Uploaded(parts[1..], context) == events;
    } else {
      var next := RenderParts(parts[1..], boundary) + after;
      MoreRest(parts, boundary, after);
      ReadLineOf("", next);
    }
  }

  /** Rendering any non-empty list of parts with at most 32 fields and parsing it gives back the fields in order,
      the callbacks of every file in order, and leaves the bytes behind the form unread. */
  lemma FormRoundTrip(parts: seq<Part>, context: Context, after: string)
    requires |parts| > 0 && AllRenderable(parts, context.boundary)
    requires |context.boundary| > 0 && CR !in context.boundary
    requires |Fields(parts)| <= 32
    ensures ParseForm(Render(parts, context.boundary) + after, context)
      == Parsed(Fields(parts), Uploaded(parts, context), after)
  {
    hide ParseParts, RenderParts, Fields, Uploaded;
    var line := "--" + context.boundary;
    var s, body := Render(parts, context.boundary) + after, RenderParts(parts, context.boundary) + after;
    assert s == line + CRLF + body;
    assert CR !in line;
    IndexBehind(line, CR, [LF] + body);
    assert s == line + [CR] + ([LF] + body);
    assert [LF] + body == "" + [LF] + body;
    IndexBehind("", LF, body);
    PartsRoundTrip(parts, context, after, 0);
  }

  /** In plain bytes, the form with one field of one line. */
  lemma FieldComesBack(name: string, value: string, context: Context, after: string)
    requires |context.boundary| > 0 && CR !in context.boundary
    requires CR !in name && '=' !in name && CR !in value && !StartsWith(value, "--" + context.boundary)
    ensures ParseForm("--" + context.boundary + "\r\n"
                      + "Content-Disposition: form-data; name=\"" + name + "\"" + "\r\n"
                      + "\r\n"
                      + value + "\r\n"
                      + "--" + context.boundary + "--" + "\r\n" + after, context)
      == Parsed([Arg(name, value)], [], after)
  {
    hide ParseForm, Render;
    var parts := [Field(name, "", [value])];
    FieldIsSentAs(name, value, context.boundary);
    FieldAt(parts, 0);
    FileAt(parts, context, 0);
    assert parts[..0] == [] && parts[0 + 1..] == [] && Fields([]) == [] && Uploaded([], context) == [];
    assert FoldLines("", [value]) == value;
    FormRoundTrip(parts, context, after);
  }

  /** In plain bytes, the form with one file; files without CR are always clear. */
  lemma FileComesBack(name: string, filename: string, contentType: string, body: string,
      context: Context, after: string)
    requires |context.boundary| > 0 && CR !in context.boundary && context.canUpload
    requires CR !in name && '=' !in name && '"' !in name && CR !in filename && filename != "blob"
    requires CR !in contentType && contentType != "" && Clear(body, context.boundary)
    ensures ParseForm("--" + context.boundary + "\r\n"
                      + "Content-Disposition: form-data; name=\"" + name + "\"; filename=\"" + filename + "\"" + "\r\n"
                      + "Content-Type: " + contentType + "\r\n"
                      + "\r\n"
                      + body + "\r\n"
                      + "--" + context.boundary + "--" + "\r\n" + after, context)
      == Parsed([], FileEvents(FileInfo(name, filename, contentType), body), after)
  {
    hide ParseForm, Render, FileEvents, Clear;
    var parts := [File(name, filename, contentType, body)];
    FileIsSentAs(name, filename, contentType, body, context.boundary);
    FileAt(parts, context, 0);
    assert parts[..1] == parts && parts[0..0] == [] && parts[1..] == [];
    assert Fields(parts) == [] && Uploaded([parts[0]], context) == Uploaded(parts, context);
    FormRoundTrip(parts, context, after);
  }

  /** One field more than the 32 entries: the parser stores past its array. */
  lemma {:induction false} TooManyFields(parts: seq<Part>, context: Context, after: string, used: nat)
    requires |parts| > 0 && AllRenderable(parts, context.boundary)
    requires |context.boundary| > 0 && CR !in context.boundary
    requires used <= 32 < used + |Fields(parts)|
    ensures ParseParts(RenderParts(parts, context.boundary) + after, context, used).Overrun?
    decreases |parts|
  {
    hide RenderParts, RenderRest, ParseDisposition, ReadType, ReadLine, NameHeader, TypeHeader, Clear, ScanFile,
      ReadValue, FoldLines, ParseParts;
    var part, boundary := parts[0], context.boundary;
    var ending := RenderRest(parts, boundary) + after;
    PartsHead(parts, context, after, used);
    assert |parts| == 1 ==> Fields(parts[1..]) == [];
    if part.Field? {
      var next := if |parts| == 1 then after else RenderParts(parts[1..], boundary) + after;
      var end := if |parts| == 1 then "--" else "";
      if |parts| == 1 {
        LastRest(parts, boundary, after);
      } else {
        MoreRest(parts, boundary, after);
      }
      ValueRead(part.lines, boundary, "", end, next);
      if used < MAX_FIELDS {
        TooManyFields(parts[1..], context, after, used + 1);
        assert |"--" + boundary + ""| != |"--" + boundary + "--"|;
      }
    } else {
      ScanExact(part.body, boundary, ending);
      var next := RenderParts(parts[1..], boundary) + after;
      MoreRest(parts, boundary, after);
      ReadLineOf("", next);
      TooManyFields(parts[1..], context, after, used);
    }
  }

  /** The file system after storing the files among the parts, in order; a later file of the same name wins. */
  function Saved(files: map<string, string>, parts: seq<Part>, query: seq<Arg>): map<string, string>
    decreases |parts|
  {
    if |parts| == 0 then files
    else
      var part := parts[0];
      Saved(if part.File? then files[StoredName(EffectiveName(part.filename, query)) := part.body] else files,
        parts[1..], query)
  }

  /** End to end: the callbacks of a form, consumed with every open and write succeeding, store exactly its files. */
  lemma {:induction false} FormStoresFiles(store: Store, parts: seq<Part>, context: Context)
    requires context.canUpload
    ensures ConsumeAll(store, Uploaded(parts, context)).files == Saved(store.files, parts, context.query)
    decreases |parts|
  {
    hide FileEvents, StoredName;
    if |parts| > 0 {
      var part := parts[0];
      if part.File? {
        var info := InfoOf(part, context.query);
        ConsumeConcat(store, FileEvents(info, part.body), Uploaded(parts[1..], context));
        UploadStoresBody(store, info, part.body);
        FormStoresFiles(ConsumeAll(store, FileEvents(info, part.body)), parts[1..], context);
      } else {
        ConsumeConcat(store, [], Uploaded(parts[1..], context));
        FormStoresFiles(store, parts[1..], context);
      }
    }
  }
}

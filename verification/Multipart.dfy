/** The multipart/form-data parser as a function of the bytes of the request body. */
module Multipart {
  import opened Strings
  import opened Arguments
  import opened FileScanner
  import opened Uploads

  const MAX_FIELDS := 32
  const DISPOSITION := "Content-Disposition"
  const CONTENT_TYPE := "Content-Type"

  // ---------------------------------------------------------------- lines

  /** `readStringUntil(c)`: the bytes before the next `c`, which is dropped, or all of them. */
  function Until(s: string, c: char): (r: (string, string))
    ensures |r.1| <= |s| && (|s| > 0 ==> |r.1| < |s|)
  {
    var i := IndexOf(s, c, 0);
    if i == -1 then (s, "") else (s[..i], s[i + 1..])
  }

  /** Reading up to `c` splits at the first one. */
  lemma UntilMeans(s: string, c: char)
    ensures var r := Until(s, c);
      c !in r.0 && if c in s then s == r.0 + [c] + r.1 else r == (s, "")
  {
  }

  /** A line is read up to CR; what follows is skipped through LF. */
  function ReadLine(s: string): (r: (string, string))
    ensures |r.1| <= |s| && (|s| > 0 ==> |r.1| < |s|)
  {
    var (line, rest) := Until(s, CR);
    (line, Until(rest, LF).1)
  }

  lemma ReadLineOf(line: string, rest: string)
    requires CR !in line
    ensures ReadLine(line + [CR, LF] + rest) == (line, rest)
  {
    assert line + [CR, LF] + rest == line + [CR] + ([LF] + rest);
    IndexBehind(line, CR, [LF] + rest);
    assert [LF] + rest == "" + [LF] + rest;
    IndexBehind("", LF, rest);
  }

  // ---------------------------------------------------------------- the pieces of a part

  /** What the Content-Disposition line says. */
  datatype Disposition = Unnamed | FieldPart(name: string) | FilePart(name: string, filename: string)

  function ParseDisposition(line: string): Disposition {
    var eq := IndexOf(line, '=', 0);
    if eq == -1 then Unnamed
    else
      var argName := SubstringFrom(line, eq + 2);
      var eq2 := IndexOf(argName, '=', 0);
      if eq2 == -1 then FieldPart(Substring(argName, 0, |argName| - 1))
      else FilePart(Substring(argName, 0, IndexOf(argName, '"', 0)), Substring(argName, eq2 + 2, |argName| - 1))
  }

  /** An upload of a blob takes its name from the query argument `filename`. */
  function EffectiveName(filename: string, query: seq<Arg>): string {
    if filename == "blob" && HasArg(query, "filename") then ValueOf(query, "filename") else filename
  }

  /** A file keeps the name it was sent with, unless that is "blob" and the query has an argument `filename`:
      then it gets the value of the first such argument. */
  lemma NameMeans(filename: string, query: seq<Arg>)
    ensures filename != "blob" || (forall k :: 0 <= k < |query| ==> query[k].key != "filename") ==>
      EffectiveName(filename, query) == filename
    ensures filename == "blob" ==>
      forall k: nat :: FirstAt(query, "filename", k) ==> EffectiveName(filename, query) == query[k].value
  {
    hide HasArg, ValueOf;
    LookupMeans(query, "filename");
  }

  /** The optional Content-Type line and the blank line: the type and the bytes behind them. */
  function ReadType(s: string): (r: (string, string))
    ensures |r.1| <= |s|
  {
    var (line, rest) := ReadLine(s);
    if StartsWith(line, CONTENT_TYPE) then (SubstringFrom(line, IndexOf(line, ':', 0) + 2), ReadLine(rest).1)
    else ("text/plain", rest)
  }

  function AppendLine(value: string, line: string): string {
    (if |value| > 0 then value + "\n" else value) + line
  }

  datatype FieldValue =
    | FieldValue(value: string, stop: string, rest: string)  // `stop` is the boundary line behind the value
    | NoBoundaryLine

  function ReadValue(s: string, boundary: string, value: string): (r: FieldValue)
    ensures r.FieldValue? ==> |r.rest| < |s|
    decreases |s|
  {
    if |s| == 0 then NoBoundaryLine
    else
      var (line, rest) := ReadLine(s);
      if StartsWith(line, "--" + boundary) then FieldValue(value, line, rest)
      else ReadValue(rest, boundary, AppendLine(value, line))
  }

  // ---------------------------------------------------------------- the form

  datatype Form =
    | Parsed(fields: seq<Arg>, events: seq<Event>, rest: string)
    | Rejected  // the first line is not the boundary: the parser returns false
    // the bytes end inside this file, with this much of it
    | CutOff(events: seq<Event>, file: FileInfo, content: string)
    | Stalled(events: seq<Event>)  // the bytes end elsewhere: the parser keeps waiting for a boundary line
    | Overrun(events: seq<Event>)  // more than 32 fields: the parser writes past its array

  function AddField(field: Arg, form: Form): Form {
    if form.Parsed? then form.(fields := [field] + form.fields) else form
  }

  function AddEvents(events: seq<Event>, form: Form): Form {
    if form.Rejected? then form else form.(events := events + form.events)
  }

  /** Query arguments, and whether the handler takes uploads, as the parser finds them. */
  datatype Context = Context(boundary: string, query: seq<Arg>, canUpload: bool)

  function Callbacks(context: Context, file: FileInfo, body: string): seq<Event> {
    if context.canUpload then FileEvents(file, body) else []
  }

  /** The parts in `s`, when `used` fields were stored before. */
  function ParseParts(s: string, context: Context, used: nat): Form
    decreases |s|
  {
    if |s| == 0 then Stalled([])
    else
      var (line, rest) := ReadLine(s);
      if !StartsWith(line, DISPOSITION) then ParseParts(rest, context, used)
      else
        match ParseDisposition(line)
        case Unnamed => ParseParts(rest, context, used)
        case FieldPart(name) => ParseField(name, ReadType(rest).1, context, used)
        case FilePart(name, filename) =>
          var (contentType, content) := ReadType(rest);
          ParseFile(FileInfo(name, EffectiveName(filename, context.query), contentType), content, context, used)
  }

  function ParseField(name: string, content: string, context: Context, used: nat): Form
    decreases |content|, 1
  {
    match ReadValue(content, context.boundary, "")
    case NoBoundaryLine => Stalled([])
    case FieldValue(value, stop, rest) =>
      if used >= MAX_FIELDS then Overrun([])
      else if stop == "--" + context.boundary + "--" then Parsed([Arg(name, value)], [], rest)
      else AddField(Arg(name, value), ParseParts(rest, context, used + 1))
  }

  function ParseFile(file: FileInfo, content: string, context: Context, used: nat): Form
    decreases |content|, 1
  {
    match ScanFile(content, context.boundary)
    case Truncated(_, _) => CutOff([], file, content)
    case Found(body, behind) =>
      ScanLossless(content, context.boundary);
      var (line, rest) := ReadLine(behind);
      if line == "--" then Parsed([], Callbacks(context, file, body), rest)
      else AddEvents(Callbacks(context, file, body), ParseParts(rest, context, used))
  }

  /** The first line that is not empty, at most the third.  Only CR ends a line here, so the LF of an empty line
      that ends with CRLF stays in front of the next one. */
  function FirstLine(s: string, retry: nat): (string, string)
    requires retry <= 3
    decreases 3 - retry
  {
    var (line, rest) := Until(s, CR);
    if |line| == 0 && retry + 1 < 3 then FirstLine(rest, retry + 1) else (line, rest)
  }

  function ParseForm(s: string, context: Context): Form {
    var (line, rest) := FirstLine(s, 0);
    if line == "--" + context.boundary then ParseParts(Until(rest, LF).1, context, 0) else Rejected
  }

  /** So a form behind an empty line is refused, whatever it holds ... */
  lemma EmptyLineRefused(s: string, context: Context)
    ensures ParseForm([CR, LF] + s, context) == Rejected
  {
    hide ParseParts;
    var t := [LF] + s;
    IndexBehind("", CR, t);
    assert [CR, LF] + s == "" + [CR] + t;
    var (line, rest) := Until(t, CR);
    assert line != "" && line[0] == LF;
    assert FirstLine([CR, LF] + s, 0) == FirstLine(t, 1) == (line, rest);
  }

  /** ... and only a bare CR in front of it is skipped. */
  lemma BareReturnSkipped(s: string, context: Context)
    requires Until(s, CR).0 != ""
    ensures ParseForm([CR] + s, context) == ParseForm(s, context)
  {
    hide ParseParts;
    IndexBehind("", CR, s);
    assert [CR] + s == "" + [CR] + s;
    assert FirstLine([CR] + s, 0) == FirstLine(s, 1);
  }

  /** A second bare CR is skipped as well, but not a third. */
  lemma ThreeReturnsRefused(s: string, context: Context)
    ensures ParseForm([CR, CR, CR] + s, context) == Rejected
    ensures Until(s, CR).0 != "" ==> ParseForm([CR, CR] + s, context) == ParseForm(s, context)
  {
    hide ParseParts, IndexOf;
    var t := [CR] + s;
    assert [CR, CR, CR] + s == "" + [CR] + ([CR] + t) && [CR] + t == "" + [CR] + t && t == "" + [CR] + s;
    assert [CR, CR] + s == [CR] + t;
    IndexBehind("", CR, [CR] + t);
    IndexBehind("", CR, t);
    IndexBehind("", CR, s);
    assert FirstLine([CR, CR, CR] + s, 0) == FirstLine([CR] + t, 1) == FirstLine(t, 2) == ("", s);
    assert FirstLine([CR] + t, 0) == FirstLine(t, 1) == FirstLine(s, 2);
  }

  /** A line between the parts that is no Content-Disposition header, or names nothing, is skipped. */
  lemma OtherLineSkipped(line: string, rest: string, context: Context, used: nat)
    requires CR !in line && (!StartsWith(line, "Content-Disposition") || '=' !in line)
    ensures ParseParts(line + [CR, LF] + rest, context, used) == ParseParts(rest, context, used)
  {
    hide ParseField, ParseFile;
    ReadLineOf(line, rest);
  }

  /** The arguments after a form: its fields, then as many query arguments as the 32 entries allow. */
  function Merge(fields: seq<Arg>, query: seq<Arg>): seq<Arg>
    requires |fields| <= MAX_FIELDS
  {
    fields + query[..if MAX_FIELDS - |fields| < |query| then MAX_FIELDS - |fields| else |query|]
  }

  lemma MergeMeans(fields: seq<Arg>, query: seq<Arg>)
    requires |fields| <= 32
    ensures var args := Merge(fields, query);
      && |args| == (if |fields| + |query| < 32 then |fields| + |query| else 32)
      && forall i :: 0 <= i < |args| ==> args[i] == if i < |fields| then fields[i] else query[i - |fields|]
  {
  }

  /** A form of which the first fields and callbacks are done and `form` is still to come. */
  function Resume(fields: seq<Arg>, events: seq<Event>, form: Form): Form {
    if form.Parsed? then Parsed(fields + form.fields, events + form.events, form.rest) else AddEvents(events, form)
  }

  lemma ResumeTwice(fields: seq<Arg>, events: seq<Event>, more: seq<Arg>, later: seq<Event>, form: Form)
    ensures Resume(fields, events, Resume(more, later, form)) == Resume(fields + more, events + later, form)
  {
    if !form.Rejected? {
      assert events + (later + form.events) == events + later + form.events;
    }
  }

  lemma {:induction false} PartsWithinArray(s: string, context: Context, used: nat)
    requires used <= MAX_FIELDS
    ensures var form := ParseParts(s, context, used);
      form.Parsed? ==> used + |form.fields| <= MAX_FIELDS
    decreases |s|
  {
    hide ReadValue, ScanFile;
    if |s| > 0 {
      var (line, rest) := ReadLine(s);
      if !StartsWith(line, DISPOSITION) || ParseDisposition(line).Unnamed? {
        PartsWithinArray(rest, context, used);
      } else if ParseDisposition(line).FieldPart? {
        FieldWithinArray(ParseDisposition(line).name, ReadType(rest).1, context, used);
      } else {
        var d := ParseDisposition(line);
        var (contentType, content) := ReadType(rest);
        FileWithinArray(FileInfo(d.name, EffectiveName(d.filename, context.query), contentType), content, context,
          used);
      }
    }
  }

  lemma {:induction false} FieldWithinArray(name: string, content: string, context: Context, used: nat)
    requires used <= MAX_FIELDS
    ensures var form := ParseField(name, content, context, used);
      form.Parsed? ==> used + |form.fields| <= MAX_FIELDS
    decreases |content|, 1
  {
    var value := ReadValue(content, context.boundary, "");
    if value.FieldValue? && used < MAX_FIELDS {
      PartsWithinArray(value.rest, context, used + 1);
    }
  }

  lemma {:induction false} FileWithinArray(file: FileInfo, content: string, context: Context, used: nat)
    requires used <= MAX_FIELDS
    ensures var form := ParseFile(file, content, context, used);
      form.Parsed? ==> used + |form.fields| <= MAX_FIELDS
    decreases |content|, 1
  {
    var scan := ScanFile(content, context.boundary);
    if scan.Found? {
      ScanLossless(content, context.boundary);
      PartsWithinArray(ReadLine(scan.rest).1, context, used);
    }
  }
}

/** A rendered form of which only the first bytes arrive: what the parser makes of every prefix. */
module MultipartCut {
  import opened Strings
  import opened Arguments
  import opened FileScanner
  import opened Uploads
  import opened Multipart
  import opened MultipartRoundTrip

  // ---------------------------------------------------------------- where the cut is

  /** Length of the header lines and the blank line. */
  function HeadLength(part: Part): nat {
    |NameHeader(part)| + 2 + |TypeHeader(part)| + 2
  }

  /** Length of a part through the boundary behind it. */
  function PartLength(part: Part, boundary: string): nat {
    HeadLength(part) + |Content(part)| + 4 + |boundary|
  }

  const FILENAME := "\"; filename="

  /** The header of a file is recognized behind its second '='. */
  function FilenameAt(part: Part): nat {
    |BEFORE_NAME| + 2 + |part.name| + |FILENAME|
  }

  /** The first k bytes of the parts end inside a file: behind `filename=`, but not behind the file's delimiter. */
  predicate EndsInFile(parts: seq<Part>, boundary: string, k: nat)
    decreases |parts|
  {
    |parts| > 0 &&
    var n := PartLength(parts[0], boundary);
    if k < n then parts[0].File? && k >= FilenameAt(parts[0])
    else k >= n + 2 && EndsInFile(parts[1..], boundary, k - n - 2)
  }

  /** How many parts are complete, with the boundary behind them, in the first k bytes. */
  function Complete(parts: seq<Part>, boundary: string, k: nat): (n: nat)
    ensures n <= |parts|
    decreases |parts|
  {
    if |parts| == 0 || k < PartLength(parts[0], boundary) then 0
    else
      var behind := PartLength(parts[0], boundary) + 2;
      1 + Complete(parts[1..], boundary, if k < behind then 0 else k - behind)
  }

  // ---------------------------------------------------------------- lines

  function Min(a: nat, b: nat): nat {
    if a < b then a else b
  }

  /** Reading a line of which only the first m bytes came, or all and some bytes behind it. */
  lemma CutLine(line: string, rest: string, m: nat)
    requires CR !in line && m <= |line| + 2 + |rest|
    ensures ReadLine((line + CRLF + rest)[..m])
      == if m < |line| + 2 then (line[..Min(m, |line|)], "") else (line, rest[..m - |line| - 2])
  {
    var s := (line + CRLF + rest)[..m];
    if m <= |line| {
      assert s == line[..m];
      assert CR !in s;
    } else if m == |line| + 1 {
      assert s == line + [CR] + "";
      IndexBehind(line, CR, "");
      assert line[..Min(m, |line|)] == line;
      assert Until(s, CR) == (line, "") && Until("", LF).1 == "";
    } else {
      assert s == line + [CR, LF] + rest[..m - |line| - 2];
      ReadLineOf(line, rest[..m - |line| - 2]);
    }
  }

  lemma NothingLeft(name: string, file: FileInfo, context: Context, used: nat)
    ensures ParseParts("", context, used) == Stalled([])
    ensures ParseField(name, "", context, used) == Stalled([])
    ensures ParseFile(file, "", context, used) == CutOff([], file, "")
    ensures ReadType("").1 == ""
  {
  }

  // ---------------------------------------------------------------- headers

  /** The second '=' decides whether the line names a file. */
  lemma CutDisposition(part: Part, m: nat)
    requires '=' !in part.name && (part.File? ==> '"' !in part.name) && m <= |NameHeader(part)|
    ensures ParseDisposition(NameHeader(part)[..m]).FilePart? <==> part.File? && m >= FilenameAt(part)
    ensures part.File? && m >= FilenameAt(part) ==> StartsWith(NameHeader(part)[..m], DISPOSITION)
  {
    hide NameHeader, ParseDisposition, StartsWith;
    HeaderStart(part);
    var line := NameHeader(part)[..m];
    if m < |BEFORE_NAME| + 2 {
      assert line == (BEFORE_NAME + "=" + "\"")[..m];
      BeforeName(m);
    } else {
      var argName := NameHeader(part)[|BEFORE_NAME| + 2..m];
      assert line == NameHeader(part)[..|BEFORE_NAME| + 2] + argName;
      assert line == BEFORE_NAME + "=" + ("\"" + argName);
      SecondEqual(part, argName);
      BehindName(argName);
    }
  }

  lemma BeforeName(m: nat)
    requires m < |BEFORE_NAME| + 2
    ensures !ParseDisposition((BEFORE_NAME + "=" + "\"")[..m]).FilePart?
  {
    var line := (BEFORE_NAME + "=" + "\"")[..m];
    assert '=' !in BEFORE_NAME;
    if m <= |BEFORE_NAME| {
      assert line == BEFORE_NAME[..m];
    } else {
      assert line == BEFORE_NAME + ['='] + "";
      IndexBehind(BEFORE_NAME, '=', "");
      assert SubstringFrom(line, |BEFORE_NAME| + 2) == "";
    }
  }

  lemma BehindName(argName: string)
    ensures var line := BEFORE_NAME + "=" + ("\"" + argName);
      StartsWith(line, DISPOSITION) && (ParseDisposition(line).FilePart? <==> '=' in argName)
  {
    hide Substring, SubstringFrom;
    AtName(argName);
    assert (BEFORE_NAME + "=" + ("\"" + argName))[..|DISPOSITION|] == DISPOSITION;
  }

  lemma HeaderStart(part: Part)
    ensures |NameHeader(part)| > |BEFORE_NAME| + 2
    ensures NameHeader(part)[..|BEFORE_NAME| + 2] == BEFORE_NAME + "=" + "\""
    ensures NameHeader(part)[|BEFORE_NAME| + 2..]
      == if part.Field? then part.name + "\"" else part.name + FILENAME + "\"" + part.filename + "\""
  {
  }

  lemma SecondEqual(part: Part, argName: string)
    requires '=' !in part.name
    requires argName <= NameHeader(part)[|BEFORE_NAME| + 2..]
    ensures '=' in argName <==> part.File? && |argName| >= |part.name| + |FILENAME|
  {
    HeaderStart(part);
    if part.Field? {
      assert '=' !in part.name + "\"";
    } else {
      var before, behind := part.name + FILENAME[..|FILENAME| - 1], "\"" + part.filename + "\"";
      assert '=' !in FILENAME[..|FILENAME| - 1];
      assert FILENAME == FILENAME[..|FILENAME| - 1] + "=";
      assert part.name + FILENAME + "\"" + part.filename + "\"" == before + "=" + behind;
      FirstIn(before, '=', behind, argName);
    }
  }

  /** A prefix holds the first `c` exactly when it is long enough. */
  lemma FirstIn(before: string, c: char, behind: string, prefix: string)
    requires c !in before && prefix <= before + [c] + behind
    ensures c in prefix <==> |prefix| > |before|
  {
    if |prefix| > |before| {
      assert prefix[|before|] == (before + [c] + behind)[|before|] == c;
    } else {
      assert forall i :: 0 <= i < |prefix| ==> prefix[i] == (before + [c] + behind)[i] == before[i];
    }
  }

  /** Inside the headers the parser has no content yet. */
  lemma CutType(part: Part, m: nat)
    requires CR !in part.contentType && m < |TypeHeader(part)| + 2
    ensures ReadType((TypeHeader(part) + CRLF)[..m]).1 == ""
  {
    if part.contentType == "" {
      assert (TypeHeader(part) + CRLF)[..m] == ("" + CRLF + "")[..m];
      CutLine("", "", m);
    } else {
      var line := CONTENT_TYPE + ": " + part.contentType;
      assert CR !in CONTENT_TYPE + ": ";
      assert TypeHeader(part) + CRLF == line + CRLF + CRLF;
      CutLine(line, CRLF, m);
      if m >= |line| + 2 {
        assert CRLF[..m - |line| - 2] == ("" + CRLF + "")[..m - |line| - 2];
        CutLine("", "", m - |line| - 2);
      }
    }
  }

  lemma CutInHead(part: Part, content: string, context: Context, used: nat, k: nat)
    requires Renderable(part, context.boundary) && k < HeadLength(part)
    ensures var s := (NameHeader(part) + CRLF + (TypeHeader(part) + CRLF + content))[..k];
      var form := ParseParts(s, context, used);
      if part.File? && k >= FilenameAt(part) then form.CutOff? && form.events == [] else form == Stalled([])
  {
    hide ParseField, ParseFile, ParseDisposition, ReadType, ReadLine, NameHeader, TypeHeader, Clear, ScanFile;
    var header, n := NameHeader(part), |NameHeader(part)|;
    var s := (header + CRLF + (TypeHeader(part) + CRLF + content))[..k];
    HeaderHasNoCR(part);
    CutLine(header, TypeHeader(part) + CRLF + content, k);
    CutDisposition(part, Min(k, n));
    if k >= n + 2 {
      var m := k - n - 2;
      assert (TypeHeader(part) + CRLF + content)[..m] == (TypeHeader(part) + CRLF)[..m];
      CutType(part, m);
      DispositionOf(part);
      assert header[..n] == header;
    }
    HeaderEnd(part);
    var d := ParseDisposition(header[..Min(k, n)]);
    var rest := ReadLine(s).1;
    NothingLeft(if d.FieldPart? then d.name else "",
                if d.FilePart? then FileInfo(d.name, EffectiveName(d.filename, context.query), ReadType(rest).0)
                  else FileInfo("", "", ""),
                context, used);
  }

  lemma HeaderEnd(part: Part)
    ensures part.File? ==> FilenameAt(part) <= |NameHeader(part)|
  {
  }

  // ---------------------------------------------------------------- values

  lemma {:induction false} CutValue(lines: seq<string>, boundary: string, value: string, end: string, rest: string,
      j: nat)
    requires |lines| > 0
    requires forall i :: 0 <= i < |lines| ==> CR !in lines[i] && !StartsWith(lines[i], "--" + boundary)
    requires CR !in boundary && CR !in end
    requires j <= |Sent(Join(lines, CRLF), boundary, end + CRLF + rest)|
    ensures var p := |Join(lines, CRLF)| + 4 + |boundary|;
      ReadValue(Sent(Join(lines, CRLF), boundary, end + CRLF + rest)[..j], boundary, value)
      == if j < p then NoBoundaryLine
         else FieldValue(FoldLines(value, lines), "--" + boundary + end[..Min(j - p, |end|)],
                         if j < p + |end| + 2 then "" else rest[..j - p - |end| - 2])
    decreases |lines|
  {
    hide ReadValue, FoldLines, AppendLine, StartsWith;
    var l, next := |lines[0]| + 2, AppendLine(value, lines[0]);
    var tail := Tail(lines, boundary, end, rest);
    FirstOf(lines, boundary, end, rest);
    CutFirstLine(lines[0], tail, boundary, value, j);
    FoldOne(value, lines);
    if j >= l {
      if |lines| == 1 {
        CutStopLine(boundary, end, next, rest, j - l);
      } else {
        CutValue(lines[1..], boundary, next, end, rest, j - l);
      }
    }
  }

  lemma FoldOne(value: string, lines: seq<string>)
    requires |lines| > 0
    ensures FoldLines(value, lines) == FoldLines(AppendLine(value, lines[0]), lines[1..])
    ensures |lines| == 1 ==> FoldLines(value, lines) == AppendLine(value, lines[0])
  {
  }

  /** What follows the first line of a value. */
  function Tail(lines: seq<string>, boundary: string, end: string, rest: string): string
    requires |lines| > 0
  {
    if |lines| == 1 then "--" + boundary + end + CRLF + rest
    else Sent(Join(lines[1..], CRLF), boundary, end + CRLF + rest)
  }

  lemma FirstOf(lines: seq<string>, boundary: string, end: string, rest: string)
    requires |lines| > 0
    ensures Sent(Join(lines, CRLF), boundary, end + CRLF + rest) == lines[0] + CRLF + Tail(lines, boundary, end, rest)
    ensures |lines| > 1 ==> |Join(lines, CRLF)| == |lines[0]| + 2 + |Join(lines[1..], CRLF)|
    ensures |lines| == 1 ==> Join(lines, CRLF) == lines[0]
  {
    var behind := end + CRLF + rest;
    if |lines| == 1 {
      OneLine(lines[0], boundary, end, rest);
    } else {
      Associate4(lines[0] + CRLF, Join(lines[1..], CRLF), Delimiter(boundary), behind);
    }
  }

  lemma OneLine(line: string, boundary: string, end: string, rest: string)
    ensures Sent(line, boundary, end + CRLF + rest) == line + CRLF + ("--" + boundary + end + CRLF + rest)
  {
  }

  lemma CutFirstLine(line: string, tail: string, boundary: string, value: string, j: nat)
    requires CR !in line && !StartsWith(line, "--" + boundary) && j <= |line| + 2 + |tail|
    ensures ReadValue((line + CRLF + tail)[..j], boundary, value)
      == if j < |line| + 2 then NoBoundaryLine else ReadValue(tail[..j - |line| - 2], boundary, AppendLine(value, line))
  {
    CutLine(line, tail, j);
    NotStarting(line, Min(j, |line|), "--" + boundary);
  }

  lemma NotStarting(line: string, m: nat, prefix: string)
    requires m <= |line| && !StartsWith(line, prefix)
    ensures !StartsWith(line[..m], prefix)
  {
  }

  lemma CutStopLine(boundary: string, end: string, value: string, rest: string, m: nat)
    requires CR !in boundary && CR !in end
    requires m <= |"--" + boundary + end + CRLF + rest|
    ensures var p := 2 + |boundary|;
      ReadValue(("--" + boundary + end + CRLF + rest)[..m], boundary, value)
      == if m < p then NoBoundaryLine
         else FieldValue(value, "--" + boundary + end[..Min(m - p, |end|)],
                         if m < p + |end| + 2 then "" else rest[..m - p - |end| - 2])
  {
    var stop := "--" + boundary + end;
    CutLine(stop, rest, m);
    var line := stop[..Min(m, |stop|)];
    assert stop[..|stop|] == stop && end[..|end|] == end;
    if m >= 2 + |boundary| {
      assert line == "--" + boundary + end[..Min(m - 2 - |boundary|, |end|)];
    } else {
      assert |line| < |"--" + boundary|;
    }
  }

  // ---------------------------------------------------------------- the parts

  /** A file of which only the first j bytes and the delimiter came has no end if the delimiter is not complete. */
  lemma CutFile(body: string, boundary: string, ending: string, j: nat)
    requires |boundary| > 0 && Clear(body, boundary) && j <= |Sent(body, boundary, ending)|
    ensures var p := |body| + 4 + |boundary|;
      if j < p then ScanFile(Sent(body, boundary, ending)[..j], boundary).Truncated?
      else ScanFile(Sent(body, boundary, ending)[..j], boundary) == Found(body, ending[..j - p])
  {
    hide ScanFile, Clear;
    var s, p := Sent(body, boundary, ending), |body| + 4 + |boundary|;
    if j < p {
      assert s == s[..j] + s[j..];
      ScanExact(body, boundary, ending);
      ScanLossless(s[..j], boundary);
      if ScanFile(s[..j], boundary).Found? {
        FoundStays(s[..j], s[j..], boundary);
      }
    } else {
      assert s[..j] == Sent(body, boundary, ending[..j - p]);
      ScanExact(body, boundary, ending[..j - p]);
    }
  }

  /** What the parser makes of the first k bytes of the parts. */
  ghost predicate CutAsSaid(form: Form, parts: seq<Part>, context: Context, k: nat)
    requires |parts| > 0
  {
    && (k + 2 >= |RenderParts(parts, context.boundary)| ==> form == Parsed(Fields(parts), Uploaded(parts, context), ""))
    && (k + 2 < |RenderParts(parts, context.boundary)| ==>
          && (if EndsInFile(parts, context.boundary, k) then form.CutOff? else form.Stalled?)
          && form.events == Uploaded(parts[..Complete(parts, context.boundary, k)], context))
  }

  lemma PartsLengths(parts: seq<Part>, boundary: string)
    requires |parts| > 0
    ensures |RenderParts(parts, boundary)| == PartLength(parts[0], boundary) + |RenderRest(parts, boundary)|
    ensures |RenderRest(parts, boundary)| == if |parts| == 1 then 4 else 2 + |RenderParts(parts[1..], boundary)|
    ensures |parts| > 1 ==> |RenderParts(parts[1..], boundary)| > 2
  {
  }

  /** One part cut inside, or behind its content. */
  lemma CutFirstPart(parts: seq<Part>, context: Context, used: nat, k: nat)
    requires |parts| > 0 && Renderable(parts[0], context.boundary)
    requires k <= |RenderParts(parts, context.boundary)|
    ensures var part, b := parts[0], context.boundary;
      var form := ParseParts(RenderParts(parts, b)[..k], context, used);
      var h, content := HeadLength(part), Sent(Content(part), b, RenderRest(parts, b));
      && (k < h ==>
            if part.File? && k >= FilenameAt(part) then form.CutOff? && form.events == [] else form == Stalled([]))
      && (k >= h ==> k - h <= |content|)
      && (k >= h && part.Field? ==> form == ParseField(part.name, content[..k - h], context, used))
      && (k >= h && part.File? ==> form == ParseFile(InfoOf(part, context.query), content[..k - h], context, used))
  {
    hide ParseParts, ParseField, ParseFile, NameHeader, TypeHeader, Clear, RenderRest, RenderParts;
    var part, b := parts[0], context.boundary;
    var content := Sent(Content(part), b, RenderRest(parts, b));
    FirstPart(parts, b, "");
    assert RenderRest(parts, b) + "" == RenderRest(parts, b) && RenderParts(parts, b) + "" == RenderParts(parts, b);
    if k < HeadLength(part) {
      CutInHead(part, content, context, used, k);
    } else {
      var j := k - HeadLength(part);
      CutBehind(NameHeader(part) + CRLF, TypeHeader(part) + CRLF, content, j);
      HeadRead(part, content[..j], context, used);
    }
  }

  lemma CutBehind(a: string, b: string, c: string, j: nat)
    requires j <= |c|
    ensures (a + (b + c))[..|a| + |b| + j] == a + (b + c[..j])
  {
  }

  /** What the parts behind the first contribute, when the first and its boundary are complete. */
  ghost predicate RestAsSaid(form: Form, parts: seq<Part>, context: Context, m: nat)
    requires |parts| > 0
  {
    if |parts| == 1 then form == Stalled([])
    else CutAsSaid(form, parts[1..], context, if m < 2 then 0 else m - 2)
  }

  /** The bytes behind the boundary line of the first part, when m bytes come behind its boundary. */
  function RestOf(parts: seq<Part>, boundary: string, m: nat): string
    requires |parts| > 0 && m <= |RenderRest(parts, boundary)|
  {
    PartsLengths(parts, boundary);
    if |parts| == 1 || m < 2 then "" else RenderParts(parts[1..], boundary)[..m - 2]
  }

  lemma CutField(parts: seq<Part>, context: Context, used: nat, m: nat)
    requires |parts| > 0 && Renderable(parts[0], context.boundary) && parts[0].Field?
    requires CR !in context.boundary && used < MAX_FIELDS && m <= |RenderRest(parts, context.boundary)|
    ensures var b, j := context.boundary, |Content(parts[0])| + 4 + |context.boundary| + m;
      var content := Sent(Content(parts[0]), b, RenderRest(parts, b));
      var field := Arg(parts[0].name, FoldLines("", parts[0].lines));
      && j <= |content|
      && ParseField(parts[0].name, content[..j], context, used)
         == if |parts| == 1 && m >= 2 then Parsed([field], [], "")
            else AddField(field, ParseParts(RestOf(parts, b, m), context, used + 1))
  {
    hide ParseParts, RenderParts, RenderRest, ReadValue, FoldLines;
    var part, b := parts[0], context.boundary;
    var j := |Content(part)| + 4 + |b| + m;
    assert RenderRest(parts, b) + "" == RenderRest(parts, b);
    PartsLengths(parts, b);
    if |parts| == 1 {
      LastRest(parts, b, "");
      assert RenderRest(parts, b) == "--" + CRLF + "";
      CutValue(part.lines, b, "", "--", "", j);
      assert |"--" + b + "--"[..Min(m, 2)]| == 2 + |b| + Min(m, 2);
      assert "--"[..2] == "--";
    } else {
      var next := RenderParts(parts[1..], b);
      MoreRest(parts, b, "");
      assert next + "" == next;
      CutValue(part.lines, b, "", "", next, j);
      assert |"--" + b + ""| != |"--" + b + "--"|;
      assert ""[..0] == "";
    }
  }

  lemma CutUpload(parts: seq<Part>, context: Context, used: nat, m: nat)
    requires |parts| > 0 && Renderable(parts[0], context.boundary) && parts[0].File?
    requires |context.boundary| > 0 && m <= |RenderRest(parts, context.boundary)|
    ensures var b, j := context.boundary, |Content(parts[0])| + 4 + |context.boundary| + m;
      var content, info := Sent(Content(parts[0]), b, RenderRest(parts, b)), InfoOf(parts[0], context.query);
      var made := Callbacks(context, info, parts[0].body);
      && j <= |content|
      && ParseFile(info, content[..j], context, used)
         == if |parts| == 1 && m >= 2 then Parsed([], made, "")
            else AddEvents(made, ParseParts(RestOf(parts, b, m), context, used))
  {
    hide ParseParts, RenderParts, RenderRest, ScanFile, Clear, ReadLine, FileEvents;
    var part, b := parts[0], context.boundary;
    var ending := RenderRest(parts, b);
    assert ending + "" == ending;
    PartsLengths(parts, b);
    CutFile(part.body, b, ending, |part.body| + 4 + |b| + m);
    if |parts| == 1 {
      LastRest(parts, b, "");
      assert ending == "--" + CRLF + "";
      CutLine("--", "", m);
      assert "--"[..2] == "--";
    } else {
      var next := RenderParts(parts[1..], b);
      MoreRest(parts, b, "");
      assert next + "" == next;
      CutLine("", next, m);
    }
  }

  lemma LiftField(form: Form, parts: seq<Part>, context: Context, k: nat)
    requires |parts| > 0 && parts[0].Field? && PartLength(parts[0], context.boundary) <= k
    requires k <= |RenderParts(parts, context.boundary)|
    requires var m := k - PartLength(parts[0], context.boundary);
      RestAsSaid(form, parts, context, m) && (|parts| == 1 ==> m < 2)
    ensures CutAsSaid(AddField(Arg(parts[0].name, FoldLines("", parts[0].lines)), form), parts, context, k)
  {
    hide RenderParts, RenderRest, NameHeader, TypeHeader, FoldLines;
    PartsLengths(parts, context.boundary);
    CompleteOneMore(parts, context, k);
  }

  lemma LiftFile(form: Form, parts: seq<Part>, context: Context, k: nat)
    requires |parts| > 0 && parts[0].File? && PartLength(parts[0], context.boundary) <= k
    requires k <= |RenderParts(parts, context.boundary)|
    requires var m := k - PartLength(parts[0], context.boundary);
      RestAsSaid(form, parts, context, m) && (|parts| == 1 ==> m < 2)
    ensures CutAsSaid(AddEvents(Callbacks(context, InfoOf(parts[0], context.query), parts[0].body), form),
                      parts, context, k)
  {
    hide RenderParts, RenderRest, NameHeader, TypeHeader, FileEvents;
    PartsLengths(parts, context.boundary);
    CompleteOneMore(parts, context, k);
  }

  lemma CompleteOneMore(parts: seq<Part>, context: Context, k: nat)
    requires |parts| > 0 && PartLength(parts[0], context.boundary) <= k
    ensures var m := k - PartLength(parts[0], context.boundary);
      var n := Complete(parts[1..], context.boundary, if m < 2 then 0 else m - 2);
      && Complete(parts, context.boundary, k) == n + 1
      && Uploaded(parts[..n + 1], context)
         == (if parts[0].File? then Callbacks(context, InfoOf(parts[0], context.query), parts[0].body) else [])
            + Uploaded(parts[1..][..n], context)
      && (m < 2 ==> n == 0)
  {
    var m := k - PartLength(parts[0], context.boundary);
    var n := Complete(parts[1..], context.boundary, if m < 2 then 0 else m - 2);
    assert parts[..n + 1][1..] == parts[1..][..n];
  }

  lemma CutInFirst(parts: seq<Part>, context: Context, used: nat, k: nat)
    requires |parts| > 0 && Renderable(parts[0], context.boundary)
    requires |context.boundary| > 0 && CR !in context.boundary && k < PartLength(parts[0], context.boundary)
    requires k <= |RenderParts(parts, context.boundary)|
    ensures CutAsSaid(ParseParts(RenderParts(parts, context.boundary)[..k], context, used), parts, context, k)
  {
    hide ParseParts, RenderParts, RenderRest, NameHeader, TypeHeader, FileEvents, Clear, ScanFile, ReadValue, FoldLines;
    var part, b := parts[0], context.boundary;
    PartsLengths(parts, b);
    CutFirstPart(parts, context, used, k);
    HeaderEnd(part);
    if k >= HeadLength(part) {
      var j := k - HeadLength(part);
      if part.Field? {
        if |parts| == 1 {
          LastRest(parts, b, "");
          assert RenderRest(parts, b) == RenderRest(parts, b) + "" == "--" + CRLF + "";
          CutValue(part.lines, b, "", "--", "", j);
        } else {
          MoreRest(parts, b, "");
          var next := RenderParts(parts[1..], b);
          assert next + "" == next && RenderRest(parts, b) + "" == RenderRest(parts, b);
          CutValue(part.lines, b, "", "", next, j);
        }
      } else {
        CutFile(part.body, b, RenderRest(parts, b), j);
      }
    }
  }

  lemma {:induction false} CutParts(parts: seq<Part>, context: Context, used: nat, k: nat)
    requires |parts| > 0 && AllRenderable(parts, context.boundary)
    requires |context.boundary| > 0 && CR !in context.boundary
    requires used + |Fields(parts)| <= MAX_FIELDS && k <= |RenderParts(parts, context.boundary)|
    ensures CutAsSaid(ParseParts(RenderParts(parts, context.boundary)[..k], context, used), parts, context, k)
    decreases |parts|
  {
    hide ParseParts, ParseField, ParseFile, RenderParts, RenderRest, NameHeader, TypeHeader, FileEvents, Clear,
      CutAsSaid;
    var part, b := parts[0], context.boundary;
    assert Renderable(part, b);
    if k < PartLength(part, b) {
      CutInFirst(parts, context, used, k);
    } else {
      var m, more := k - PartLength(part, b), if part.Field? then 1 else 0;
      PartsLengths(parts, b);
      var form := ParseParts(RestOf(parts, b, m), context, used + more);
      NothingLeft("", FileInfo("", "", ""), context, used + more);
      if |parts| > 1 {
        CutParts(parts[1..], context, used + more, if m < 2 then 0 else m - 2);
        assert m < 2 ==> RenderParts(parts[1..], b)[..0] == "";
      }
      CutFirstPart(parts, context, used, k);
      if part.Field? {
        CutField(parts, context, used, m);
      } else {
        CutUpload(parts, context, used, m);
      }
      if |parts| == 1 && m >= 2 {
        OnlyPart(parts, context, k);
      } else if part.Field? {
        LiftField(form, parts, context, k);
      } else {
        LiftFile(form, parts, context, k);
      }
    }
  }

  lemma OnlyPart(parts: seq<Part>, context: Context, k: nat)
    requires |parts| == 1 && PartLength(parts[0], context.boundary) + 2 <= k
    ensures var part := parts[0];
      CutAsSaid(if part.Field? then Parsed([Arg(part.name, FoldLines("", part.lines))], [], "")
                else Parsed([], Callbacks(context, InfoOf(part, context.query), part.body), ""), parts, context, k)
  {
    hide RenderParts, RenderRest, FileEvents;
    PartsLengths(parts, context.boundary);
    assert Fields(parts[1..]) == [] && Uploaded(parts[1..], context) == [];
  }

  /** Every prefix of a rendered form with at most 32 fields.  It is parsed exactly when at most the last CRLF is
      missing, and then it is parsed as a whole; it is refused exactly when the first boundary line is not complete;
      it is cut off exactly when it ends inside a file, behind `filename=` but not behind the file's delimiter; and
      in all other cases the parser waits for ever.  The callbacks are always those of the complete files. */
  lemma PrefixOfForm(parts: seq<Part>, context: Context, k: nat)
    requires |parts| > 0 && AllRenderable(parts, context.boundary)
    requires |context.boundary| > 0 && CR !in context.boundary
    requires |Fields(parts)| <= MAX_FIELDS && k <= |Render(parts, context.boundary)|
    ensures var form, start, len := ParseForm(Render(parts, context.boundary)[..k], context), 4 + |context.boundary|,
        |Render(parts, context.boundary)|;
      && (form.Parsed? <==> k + 2 >= len)
      && (form.Parsed? ==> form == Parsed(Fields(parts), Uploaded(parts, context), ""))
      && (form.Rejected? <==> k + 2 < start)
      && (form.CutOff? <==> k + 2 < len && k >= start && EndsInFile(parts, context.boundary, k - start))
      && !form.Overrun?
      && (form.CutOff? || form.Stalled? ==>
            form.events
              == Uploaded(parts[..Complete(parts, context.boundary, if k < start then 0 else k - start)], context))
  {
    hide ParseParts, RenderParts, Fields, Uploaded, EndsInFile, Complete;
    var line, body := "--" + context.boundary, RenderParts(parts, context.boundary);
    var s, start := Render(parts, context.boundary)[..k], 4 + |context.boundary|;
    PartsLengths(parts, context.boundary);
    assert Render(parts, context.boundary) == line + CRLF + body;
    if k + 2 < start {
      assert s == line[..k];
      assert CR !in line[..k];
      ShortFirstLine(line[..k]);
    } else {
      var m := if k < start then 0 else k - start;
      FirstLineCut(line, body, k);
      CutParts(parts, context, 0, m);
      EndsInside(parts, context.boundary);
    }
  }

  lemma EndsInside(parts: seq<Part>, boundary: string)
    ensures !EndsInFile(parts, boundary, 0)
  {
  }

  lemma ShortFirstLine(s: string)
    requires CR !in s
    ensures FirstLine(s, 0).0 == s
  {
  }

  lemma FirstLineCut(line: string, body: string, k: nat)
    requires CR !in line && |line| > 0 && |line| <= k <= |line + CRLF + body|
    ensures var (first, rest) := FirstLine((line + CRLF + body)[..k], 0);
      first == line && Until(rest, LF).1 == if k < |line| + 2 then "" else body[..k - |line| - 2]
  {
    CutLine(line, body, k);
    var s := (line + CRLF + body)[..k];
    assert line[..|line|] == line;
    assert Until(s, CR).0 == line;
  }
}

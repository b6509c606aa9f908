/** The byte scanner that looks for the end of an uploaded file, and when it stops at the right place. */
module FileScanner {
  import opened Strings

  /** What separates a file from what follows it: section 5.1.1 of RFC 2046. */
  function Delimiter(boundary: string): string {
    [CR, LF] + "--" + boundary
  }

  datatype Scan =
    // the file, and the bytes after its delimiter
    | Found(body: string, rest: string)
    // the bytes end first: what belongs to the file, and what may be a delimiter
    | Truncated(passed: string, held: string)

  function Emit(written: string, scan: Scan): Scan {
    match scan
    case Found(body, rest) => Found(written + body, rest)
    case Truncated(passed, held) => Truncated(written + passed, held)
  }

  /** The scanner: everything up to a CRLF "--" belongs to the file; the |boundary| bytes after one are read
      as a block, and a block other than the boundary belongs to the file and is not looked at again.
      (The connection is checked after the second '-', so something must follow it.) */
  function ScanFile(s: string, boundary: string): Scan
    decreases |s|
  {
    if |s| == 0 then Truncated("", s)
    else if s[0] != CR then Emit(s[..1], ScanFile(s[1..], boundary))
    else if |s| == 1 then Truncated("", s)
    else if s[1] != LF then Emit(s[..1], ScanFile(s[1..], boundary))
    else if |s| == 2 then Truncated("", s)
    else if s[2] != '-' then Emit(s[..2], ScanFile(s[2..], boundary))
    else if |s| == 3 then Truncated("", s)
    else if s[3] != '-' then Emit(s[..3], ScanFile(s[3..], boundary))
    else
      var end := 4 + |boundary|;
      if |s| < end || |s| == 4 then Truncated("", s)
      else if s[4..end] == boundary then Found("", s[end..])
      else Emit(s[..end], ScanFile(s[end..], boundary))
  }

  /** What the scanner may hold back when the bytes end: the start of a delimiter, or a block that is too short. */
  predicate Undecided(held: string, boundary: string) {
    held <= [CR, LF] + "--" || ([CR, LF] + "--" <= held && |held| < 4 + |boundary|)
  }

  predicate NothingLost(s: string, scan: Scan, boundary: string) {
    match scan
    case Found(body, rest) => s == body + Delimiter(boundary) + rest
    case Truncated(passed, held) => s == passed + held && Undecided(held, boundary)
  }

  /** Lossless: the bytes consumed are the file, then exactly one delimiter; or, if they end too early,
      what was passed on and at most the start of a delimiter or of its block. */
  lemma {:induction false} ScanLossless(s: string, boundary: string)
    ensures NothingLost(s, ScanFile(s, boundary), boundary)
    decreases |s|
  {
    var end := 4 + |boundary|;
    if |s| == 0 {
    } else if s[0] != CR {
      ScanStep(s, 1, boundary);
    } else if |s| == 1 {
    } else if s[1] != LF {
      ScanStep(s, 1, boundary);
    } else if |s| == 2 {
    } else if s[2] != '-' {
      ScanStep(s, 2, boundary);
    } else if |s| == 3 {
    } else if s[3] != '-' {
      ScanStep(s, 3, boundary);
    } else {
      assert s[..4] == [CR, LF] + "--";
      if |s| >= end && |s| > 4 {
        if s[4..end] != boundary {
          ScanStep(s, end, boundary);
        } else {
          assert s == s[..4] + s[4..end] + s[end..];
        }
      }
    }
  }

  /** Where the scanner stops, in plain bytes; a file without any CR is found as it was sent. */
  lemma FoundAtDelimiter(s: string, boundary: string)
    ensures ScanFile(s, boundary).Found? ==>
      s == ScanFile(s, boundary).body + "\r\n--" + boundary + ScanFile(s, boundary).rest
  {
    ScanLossless(s, boundary);
  }

  lemma {:induction false} ScanStep(s: string, k: nat, boundary: string)
    requires 0 < k <= |s|
    requires ScanFile(s, boundary) == Emit(s[..k], ScanFile(s[k..], boundary))
    ensures NothingLost(s, ScanFile(s, boundary), boundary)
    decreases |s|, 0
  {
    hide ScanFile;
    ScanLossless(s[k..], boundary);
    LostNothing(s, k, ScanFile(s[k..], boundary), boundary);
  }

  lemma LostNothing(s: string, k: nat, scan: Scan, boundary: string)
    requires k <= |s| && NothingLost(s[k..], scan, boundary)
    ensures NothingLost(s, Emit(s[..k], scan), boundary)
  {
    assert s == s[..k] + s[k..];
  }

  /** A file found in the bytes so far stays found when more bytes come. */
  lemma {:induction false} FoundStays(s: string, more: string, boundary: string)
    requires ScanFile(s, boundary).Found?
    ensures ScanFile(s + more, boundary) == Found(ScanFile(s, boundary).body, ScanFile(s, boundary).rest + more)
    decreases |s|
  {
    var end := 4 + |boundary|;
    if s[0] != CR || s[1] != LF {
      FoundBehind(s, more, 1, boundary);
    } else if s[2] != '-' {
      FoundBehind(s, more, 2, boundary);
    } else if s[3] != '-' {
      FoundBehind(s, more, 3, boundary);
    } else {
      assert (s + more)[4..end] == s[4..end];
      if s[4..end] != boundary {
        FoundBehind(s, more, end, boundary);
      } else {
        assert (s + more)[end..] == s[end..] + more;
      }
    }
  }

  lemma {:induction false} FoundBehind(s: string, more: string, k: nat, boundary: string)
    requires 0 < k <= |s| && ScanFile(s, boundary).Found?
    requires ScanFile(s, boundary) == Emit(s[..k], ScanFile(s[k..], boundary))
    requires ScanFile(s + more, boundary) == Emit((s + more)[..k], ScanFile((s + more)[k..], boundary))
    ensures ScanFile(s + more, boundary) == Found(ScanFile(s, boundary).body, ScanFile(s, boundary).rest + more)
    decreases |s|, 0
  {
    FoundStays(s[k..], more, boundary);
    assert (s + more)[..k] == s[..k] && (s + more)[k..] == s[k..] + more;
  }

  lemma EmitTwice(a: string, b: string, scan: Scan)
    ensures Emit(a, Emit(b, scan)) == Emit(a + b, scan)
  {
    if scan.Found? {
      assert a + (b + scan.body) == a + b + scan.body;
    } else {
      assert a + (b + scan.passed) == a + b + scan.passed;
    }
  }

  lemma EmitNothing(scan: Scan)
    ensures Emit("", scan) == scan
  {
  }

  /** `input` was written out up to `ahead`, which is still to be scanned: the bytes written and those ahead
      are the input, and what the scanner makes of the input is what was written and what it makes of those ahead. */
  predicate Tracks(input: string, written: string, ahead: string, boundary: string) {
    && input == written + ahead
    && ScanFile(input, boundary) == Emit(written, ScanFile(ahead, boundary))
  }

  lemma TrackStart(input: string, boundary: string)
    ensures Tracks(input, "", input, boundary)
  {
    EmitNothing(ScanFile(input, boundary));
  }

  /** Passing on the first k bytes ahead, where the scanner does just that. */
  lemma TrackStep(input: string, written: string, ahead: string, k: nat, boundary: string)
    requires k <= |ahead| && Tracks(input, written, ahead, boundary)
    requires ScanFile(ahead, boundary) == Emit(ahead[..k], ScanFile(ahead[k..], boundary))
    ensures Tracks(input, written + ahead[..k], ahead[k..], boundary)
  {
    hide ScanFile;
    EmitTwice(written, ahead[..k], ScanFile(ahead[k..], boundary));
    assert written + ahead == written + ahead[..k] + ahead[k..];
  }

  /** The bytes the scanner passes on before it can stop: one, two or three. */
  lemma CopySteps(ahead: string, boundary: string)
    ensures |ahead| >= 1 && ahead[0] != CR ==>
      ScanFile(ahead, boundary) == Emit(ahead[..1], ScanFile(ahead[1..], boundary))
    ensures |ahead| >= 2 && ahead[0] == CR && ahead[1] != LF ==>
      ScanFile(ahead, boundary) == Emit(ahead[..1], ScanFile(ahead[1..], boundary))
    ensures |ahead| >= 3 && ahead[0] == CR && ahead[1] == LF && ahead[2] != '-' ==>
      ScanFile(ahead, boundary) == Emit(ahead[..2], ScanFile(ahead[2..], boundary))
    ensures |ahead| >= 4 && ahead[..3] == [CR, LF, '-'] && ahead[3] != '-' ==>
      ScanFile(ahead, boundary) == Emit(ahead[..3], ScanFile(ahead[3..], boundary))
  {
    hide Emit;
  }

  lemma BlockSteps(behind: string, boundary: string)
    ensures var ahead, n := [CR, LF] + "--" + behind, |boundary|;
      if |behind| < n || behind == "" then ScanFile(ahead, boundary) == Truncated("", ahead)
      else if behind[..n] == boundary then ScanFile(ahead, boundary) == Found("", behind[n..])
      else && ahead[..4 + n] == [CR, LF] + "--" + behind[..n] && ahead[4 + n..] == behind[n..]
           && ScanFile(ahead, boundary) == Emit(ahead[..4 + n], ScanFile(ahead[4 + n..], boundary))
  {
    hide Emit;
    var ahead, n := [CR, LF] + "--" + behind, |boundary|;
    if |behind| >= n && behind != "" {
      Slices([CR, LF] + "--", behind, n);
    }
  }

  lemma Slices(a: string, b: string, n: nat)
    requires n <= |b|
    ensures (a + b)[|a|..|a| + n] == b[..n] && (a + b)[|a| + n..] == b[n..] && (a + b)[..|a| + n] == a + b[..n]
  {
  }

  /** At most four bytes ahead, the last of which is not yet passed on: too few to stop. */
  predicate Short(ahead: string) {
    |ahead| <= 1 || ahead[..|ahead| - 1] in {[CR], [CR, LF], [CR, LF, '-']}
  }

  lemma ShortSeen(seen: string, ahead: string)
    requires seen in {[CR], [CR, LF], [CR, LF, '-']}
    requires ahead == seen || (|ahead| == |seen| + 1 && ahead[..|seen|] == seen)
    ensures Short(ahead)
  {
    if ahead == [CR, LF] {
      assert ahead[..1] == [CR];
    } else if ahead == [CR, LF, '-'] {
      assert ahead[..2] == [CR, LF];
    }
  }

  lemma TooShort(ahead: string, boundary: string)
    requires Short(ahead)
    ensures ScanFile(ahead, boundary).Truncated?
    decreases |ahead|
  {
    if |ahead| == 1 {
      assert ahead[1..] == "";
    } else if |ahead| >= 2 {
      assert ahead[0] == CR;
      assert |ahead| >= 3 ==> ahead[1] == ahead[..|ahead| - 1][1] == LF;
      assert |ahead| == 4 ==> ahead[2] == ahead[..|ahead| - 1][2] == '-';
      var last := ahead[|ahead| - 1..];
      TooShort(last, boundary);
      assert ahead[|ahead| - 1..] == last;
    }
  }

  lemma TrackPlain(input: string, written: string, c: char, unread: string, boundary: string)
    requires Tracks(input, written, [c] + unread, boundary) && c != CR
    ensures Tracks(input, written + [c], unread, boundary)
  {
    hide ScanFile;
    var ahead := [c] + unread;
    CopySteps(ahead, boundary);
    TrackStep(input, written, ahead, 1, boundary);
    assert ahead[..1] == [c] && ahead[1..] == unread;
  }

  lemma TrackAfterCR(input: string, written: string, c: char, unread: string, boundary: string)
    requires Tracks(input, written, [CR] + ([c] + unread), boundary) && c != LF
    ensures Tracks(input, written + [CR], [c] + unread, boundary)
  {
    hide ScanFile;
    var ahead := [CR] + ([c] + unread);
    CopySteps(ahead, boundary);
    TrackStep(input, written, ahead, 1, boundary);
    assert ahead[..1] == [CR] && ahead[1..] == [c] + unread;
  }

  lemma TrackAfterLF(input: string, written: string, c: char, unread: string, boundary: string)
    requires Tracks(input, written, [CR, LF] + ([c] + unread), boundary) && c != '-'
    ensures Tracks(input, written + [CR] + [LF], [c] + unread, boundary)
  {
    hide ScanFile;
    var ahead := [CR, LF] + ([c] + unread);
    CopySteps(ahead, boundary);
    TrackStep(input, written, ahead, 2, boundary);
    assert ahead[..2] == [CR, LF] && ahead[2..] == [c] + unread;
    assert written + [CR, LF] == written + [CR] + [LF];
  }

  lemma TrackAfterDash(input: string, written: string, c: char, unread: string, boundary: string)
    requires Tracks(input, written, [CR, LF, '-'] + ([c] + unread), boundary) && c != '-'
    ensures Tracks(input, written + [CR] + [LF] + ['-'], [c] + unread, boundary)
  {
    hide ScanFile;
    var ahead := [CR, LF, '-'] + ([c] + unread);
    CopySteps(ahead, boundary);
    TrackStep(input, written, ahead, 3, boundary);
    assert ahead[..3] == [CR, LF, '-'] && ahead[3..] == [c] + unread;
    assert written + [CR, LF, '-'] == written + [CR] + [LF] + ['-'];
  }

  lemma TrackAtBlock(input: string, written: string, behind: string, boundary: string)
    requires Tracks(input, written, [CR, LF] + "--" + behind, boundary)
    ensures var n := |boundary|;
      if |behind| < n || behind == "" then ScanFile(input, boundary) == Truncated(written, [CR, LF] + "--" + behind)
      else if behind[..n] == boundary then ScanFile(input, boundary) == Found(written, behind[n..])
      else Tracks(input, written + [CR] + [LF] + ['-'] + ['-'] + behind[..n], behind[n..], boundary)
  {
    hide ScanFile;
    var ahead, n := [CR, LF] + "--" + behind, |boundary|;
    BlockSteps(behind, boundary);
    if |behind| >= n && behind != "" && behind[..n] != boundary {
      TrackStep(input, written, ahead, 4 + n, boundary);
      assert written + ([CR, LF] + "--" + behind[..n]) == written + [CR] + [LF] + ['-'] + ['-'] + behind[..n];
    }
  }

  /** What may have been written when the peer left: all that is passed on but the last few bytes looked at,
      or all of it and a block of which only the first bytes came. */
  predicate CutShort(scan: Scan, written: string, boundary: string)
    requires scan.Truncated?
  {
    || (written <= scan.passed && |scan.passed| <= |written| + 4)
    || (&& [CR, LF] + "--" <= scan.held && scan.passed + scan.held <= written
        && |written| == |scan.passed| + 4 + |boundary|)
  }

  /** A block of which only the first bytes came, and the old rest of its buffer, may read like the boundary. */
  predicate MistakenEnd(scan: Scan, written: string, boundary: string)
    requires scan.Truncated?
  {
    written == scan.passed && [CR, LF] + "--" <= scan.held && scan.held[4..] <= boundary
  }

  /** Such a block: one byte of the boundary "XX" came, and the old byte behind it may be an X. */
  lemma ShortBlockMayPass()
    ensures var s := [CR, LF] + "--" + "X";
      ScanFile(s, "XX") == Truncated("", s) && MistakenEnd(ScanFile(s, "XX"), "", "XX")
  {
    assert ([CR, LF] + "--" + "X")[4..] == "X";
  }

  lemma TrackShort(input: string, written: string, ahead: string, boundary: string)
    requires Tracks(input, written, ahead, boundary) && Short(ahead)
    ensures ScanFile(input, boundary).Truncated?
    ensures CutShort(ScanFile(input, boundary), written, boundary)
  {
    hide ScanFile;
    TooShort(ahead, boundary);
    ScanLossless(ahead, boundary);
    assert written <= written + ScanFile(ahead, boundary).passed;
  }

  // ---------------------------------------------------------------- where it stops

  predicate CandidateAt(s: string, p: nat) {
    p + 4 <= |s| && s[p] == CR && s[p + 1] == LF && s[p + 2] == '-' && s[p + 3] == '-'
  }

  /** Index of the first CRLF "--" at or after `from`, or -1. */
  function FirstCandidate(s: string, from: nat): (r: int)
    ensures r == -1 || (from <= r < |s| && CandidateAt(s, r))
    ensures r != -1 ==> forall p :: from <= p < r ==> !CandidateAt(s, p)
    ensures r == -1 ==> forall p :: from <= p < |s| ==> !CandidateAt(s, p)
    decreases |s| - from
  {
    if from >= |s| then -1
    else if CandidateAt(s, from) then from
    else FirstCandidate(s, from + 1)
  }

  predicate NoCandidateBefore(s: string, p: nat) {
    forall q :: 0 <= q < p ==> !CandidateAt(s, q)
  }

  /** How many bytes the scanner copies at once where there is no candidate. */
  function CopyLength(s: string): nat
    requires |s| >= 4 && !CandidateAt(s, 0)
  {
    if s[0] != CR || s[1] != LF then 1 else if s[2] != '-' then 2 else 3
  }

  lemma ShiftCandidates(s: string, p: nat, k: nat)
    requires k <= p && CandidateAt(s, p) && NoCandidateBefore(s, p)
    ensures CandidateAt(s[k..], p - k) && NoCandidateBefore(s[k..], p - k)
  {
    assert forall q :: 0 <= q < p - k ==> (CandidateAt(s[k..], q) ==> CandidateAt(s, q + k));
  }

  /** Up to its first candidate the scanner copies. */
  lemma {:induction false} CopyToCandidate(s: string, p: nat, boundary: string)
    requires CandidateAt(s, p) && NoCandidateBefore(s, p)
    ensures ScanFile(s, boundary) == Emit(s[..p], ScanFile(s[p..], boundary))
    decreases |s|
  {
    if p == 0 {
      assert s[0..] == s;
      EmitNothing(ScanFile(s, boundary));
    } else {
      assert !CandidateAt(s, 0);
      var k := CopyLength(s);
      assert ScanFile(s, boundary) == Emit(s[..k], ScanFile(s[k..], boundary));
      ShiftCandidates(s, p, k);
      CopyToCandidate(s[k..], p - k, boundary);
      assert s[..k] + s[k..][..p - k] == s[..p];
      assert s[k..][p - k..] == s[p..];
      EmitTwice(s[..k], s[k..][..p - k], ScanFile(s[p..], boundary));
    }
  }

  /** Every CRLF "--" the scanner tries inside `body` is followed, still inside `body`,
      by |boundary| bytes that are not the boundary. */
  predicate Clear(body: string, boundary: string)
    decreases |body|
  {
    var p := FirstCandidate(body, 0);
    var end := p + 4 + |boundary|;
    p == -1 || (end <= |body| && body[p + 4..end] != boundary && Clear(body[end..], boundary))
  }

  /** A file as it travels: its bytes, the delimiter, and what follows. */
  function Sent(body: string, boundary: string, rest: string): string {
    body + Delimiter(boundary) + rest
  }

  /** The scanner returns exactly the file that was sent if and only if the file is clear. */
  lemma {:induction false} ScanExact(body: string, boundary: string, rest: string)
    requires |boundary| > 0
    ensures ScanFile(Sent(body, boundary, rest), boundary) == Found(body, rest) <==> Clear(body, boundary)
    decreases |body|
  {
    hide ScanFile, Emit, Sent, CandidateAt;
    var p := FirstCandidate(body, 0);
    if p == -1 {
      ScanToDelimiter(body, boundary, rest);
    } else {
      var end := p + 4 + |boundary|;
      ScanToFirstCandidate(body, boundary, rest, p);
      AtCandidate(body, boundary, rest, p);
      if end <= |body| && body[p + 4..end] != boundary {
        var tail := body[end..];
        ScanExact(tail, boundary, rest);
        BehindBlock(body, p, end, tail, ScanFile(Sent(tail, boundary, rest), boundary), rest);
      } else {
        OtherLength(body, p, ScanFile(Sent(body, boundary, rest)[p..], boundary), rest);
      }
    }
  }

  lemma OtherLength(body: string, p: nat, scan: Scan, rest: string)
    requires p <= |body| && (scan.Truncated? || |scan.body| != |body| - p)
    ensures Emit(body[..p], scan) != Found(body, rest)
  {
  }

  lemma BehindBlock(body: string, p: nat, end: nat, tail: string, scan: Scan, rest: string)
    requires p <= end <= |body| && tail == body[end..]
    ensures Emit(body[..p], Emit(body[p..end], scan)) == Found(body, rest) <==> scan == Found(tail, rest)
  {
    EmitTwice(body[..p], body[p..end], scan);
    assert body[..p] + body[p..end] == body[..end];
    assert body[..end] + tail == body;
    PrefixCancels(body[..end], scan, tail, rest);
  }

  lemma ScanToDelimiter(body: string, boundary: string, rest: string)
    requires |boundary| > 0
    requires FirstCandidate(body, 0) == -1
    ensures ScanFile(Sent(body, boundary, rest), boundary) == Found(body, rest)
  {
    hide ScanFile;
    var s, n := Sent(body, boundary, rest), |body|;
    assert s[n..] == Delimiter(boundary) + rest && s[..n] == body;
    assert CandidateAt(s, n);
    assert forall q :: 0 <= q < n ==> (CandidateAt(s, q) ==> CandidateAt(body, q));
    CopyToCandidate(s, n, boundary);
    BlockSteps(boundary + rest, boundary);
    assert Delimiter(boundary) + rest == [CR, LF] + "--" + (boundary + rest);
    assert (boundary + rest)[..|boundary|] == boundary && (boundary + rest)[|boundary|..] == rest;
    assert body + "" == body;
  }

  lemma ScanToFirstCandidate(body: string, boundary: string, rest: string, p: nat)
    requires FirstCandidate(body, 0) == p
    ensures var s := Sent(body, boundary, rest);
      p <= |s| && ScanFile(s, boundary) == Emit(body[..p], ScanFile(s[p..], boundary))
  {
    hide ScanFile;
    var s := Sent(body, boundary, rest);
    assert CandidateAt(s, p);
    assert forall q :: 0 <= q < p ==> (CandidateAt(s, q) ==> CandidateAt(body, q));
    CopyToCandidate(s, p, boundary);
    assert s[..p] == body[..p];
  }

  /** The scanner at a candidate of the file: it stops there, goes on behind the block, or has overshot the end. */
  lemma AtCandidate(body: string, boundary: string, rest: string, p: nat)
    requires |boundary| > 0 && CandidateAt(body, p)
    ensures var s, end := Sent(body, boundary, rest), p + 4 + |boundary|;
      var scan := ScanFile(s[p..], boundary);
      if end > |body| then scan.Truncated? || |scan.body| != |body| - p
      else if body[p + 4..end] == boundary then scan.Found? && scan.body == ""
      else scan == Emit(body[p..end], ScanFile(Sent(body[end..], boundary, rest), boundary))
  {
    hide ScanFile;
    var s, n := Sent(body, boundary, rest), |boundary|;
    var behind := s[p + 4..];
    assert s[p..] == [CR, LF] + "--" + behind;
    BlockSteps(behind, boundary);
    if p + 4 + n <= |body| {
      assert behind[..n] == body[p + 4..p + 4 + n];
      assert body[p..p + 4 + n] == [CR, LF] + "--" + behind[..n];
      assert behind[n..] == Sent(body[p + 4 + n..], boundary, rest);
    }
  }

  lemma PrefixCancels(prefix: string, scan: Scan, body: string, rest: string)
    ensures Emit(prefix, scan) == Found(prefix + body, rest) <==> scan == Found(body, rest)
  {
    if scan.Found? && prefix + scan.body == prefix + body {
      assert scan.body == (prefix + scan.body)[|prefix|..];
      assert body == (prefix + body)[|prefix|..];
    }
  }

  /** Files without CR, such as one-line texts, are always clear. */
  lemma NoReturnIsClear(body: string, boundary: string)
    requires '\r' !in body
    ensures Clear(body, boundary)
  {
    ClearIfCandidatesEarly(body, boundary);
  }

  /** Enough for a clear file: no delimiter in it, and every CRLF "--" ends
      at least |boundary| bytes before the file does. */
  lemma {:induction false} ClearIfCandidatesEarly(body: string, boundary: string)
    requires forall p :: 0 <= p < |body| && CandidateAt(body, p) ==>
      p + 4 + |boundary| <= |body| && body[p + 4..p + 4 + |boundary|] != boundary
    ensures Clear(body, boundary)
    decreases |body|
  {
    var p := FirstCandidate(body, 0);
    if p != -1 {
      var end := p + 4 + |boundary|;
      var t := body[end..];
      forall q | 0 <= q < |t| && CandidateAt(t, q)
        ensures q + 4 + |boundary| <= |t| && t[q + 4..q + 4 + |boundary|] != boundary
      {
        assert CandidateAt(body, end + q);
        assert t[q + 4..q + 4 + |boundary|] == body[end + q + 4..end + q + 4 + |boundary|];
      }
      ClearIfCandidatesEarly(t, boundary);
    }
  }

  /** It does happen: a file that is just CRLF "--" contains no delimiter,
      yet the scanner swallows half of the real one and never finds the end. */
  lemma ScanOvershoots()
    ensures ScanFile(Sent([CR, LF] + "--", "XX", [CR, LF]), "XX").Truncated?
    ensures !Clear([CR, LF] + "--", "XX")
  {
    var s := Sent([CR, LF] + "--", "XX", [CR, LF]);
    assert s[4..6] == [CR, LF];
    assert s[6..] == "--XX" + [CR, LF];
    assert s[6..][4..] == [CR, LF];
    assert ScanFile([CR, LF], "XX").Truncated?;
    assert forall k :: 0 <= k < 4 ==> s[6..][k] != CR;
    assert s[6..][1..][1..][1..][1..] == s[6..][4..];
    assert ScanFile(s[6..][1..][1..][1..], "XX").Truncated?;
    assert ScanFile(s[6..][1..], "XX").Truncated?;
    assert CandidateAt([CR, LF] + "--", 0);
  }
}

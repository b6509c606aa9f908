/** Query arguments: the splitter and the URL decoder of the request parser, as functions,
    and what they promise for every input. */
module Arguments {
  import opened Strings

  datatype Arg = Arg(key: string, value: string)

  // ---------------------------------------------------------------- URL decoding

  function HexValue(c: char): (v: int)
    ensures -1 <= v < 16
  {
    if '0' <= c <= '9' then c as int - '0' as int
    else if 'a' <= c <= 'f' then c as int - 'a' as int + 10
    else if 'A' <= c <= 'F' then c as int - 'A' as int + 10
    else -1
  }

  /** `strtol("0xab", NULL, 16)`: the value of the leading hexadecimal digits, 0 when there are none. */
  function HexPair(a: char, b: char): (v: int)
    ensures 0 <= v < 256
  {
    if HexValue(a) < 0 then 0
    else if HexValue(b) < 0 then HexValue(a)
    else 16 * HexValue(a) + HexValue(b)
  }

  /** The hexadecimal digits are these, in both cases, and no others. */
  lemma HexDigits(c: char)
    ensures forall v :: 0 <= v < 16 ==> HexValue("0123456789abcdef"[v]) == v && HexValue("0123456789ABCDEF"[v]) == v
    ensures HexValue(c) >= 0 <==> c in "0123456789abcdef" || c in "0123456789ABCDEF"
  {
    assert '0' as int + 9 == '9' as int && 'a' as int + 5 == 'f' as int && 'A' as int + 5 == 'F' as int;
    if HexValue(c) >= 0 {
      var v := HexValue(c);
      assert c == "0123456789abcdef"[v] || c == "0123456789ABCDEF"[v];
    }
  }

  /** What `strtol` makes of digits in base 16: the value of those before the first other byte. */
  function LeadingHex(text: string, value: nat): nat {
    if |text| == 0 || HexValue(text[0]) < 0 then value else LeadingHex(text[1..], 16 * value + HexValue(text[0]))
  }

  /** Escapes that are not two digits are read as far as they are. */
  lemma HexPairIsStrtol(a: char, b: char)
    ensures HexPair(a, b) == LeadingHex([a, b], 0)
  {
    assert [a, b][1..] == [b] && [b][1..] == [];
    if HexValue(a) >= 0 {
      assert LeadingHex([a, b], 0) == LeadingHex([b], HexValue(a));
      if HexValue(b) >= 0 {
        assert LeadingHex([b], HexValue(a)) == LeadingHex([], 16 * HexValue(a) + HexValue(b));
      }
    }
  }

  function UrlDecode(text: string): string {
    if |text| == 0 then ""
    else if text[0] == '%' && |text| >= 3 then [HexPair(text[1], text[2]) as char] + UrlDecode(text[3..])
    else [if text[0] == '+' then ' ' else text[0]] + UrlDecode(text[1..])
  }

  /** One turn of the decoder's loop at `i`: the byte it appends and where it goes on. */
  lemma DecoderStep(text: string, i: nat)
    requires i < |text|
    ensures UrlDecode(text[i..])
      == if text[i] == '%' && i + 2 < |text| then [HexPair(text[i + 1], text[i + 2]) as char] + UrlDecode(text[i + 3..])
         else [if text[i] == '+' then ' ' else text[i]] + UrlDecode(text[i + 1..])
  {
    var t := text[i..];
    assert t[1..] == text[i + 1..];
    if i + 2 < |text| {
      assert t[3..] == text[i + 3..] && t[1] == text[i + 1] && t[2] == text[i + 2];
    }
  }

  /** `text` spells `value` by the rules of section 2.1 of RFC 3986 and section 17.13.4.1 of HTML 4.01:
      each byte stands for itself, or a blank is '+', or a byte is '%' and its two hexadecimal digits. */
  predicate Encodes(text: string, value: string)
    decreases |text|
  {
    if |value| == 0 then |text| == 0
    else
      || (&& |text| >= 1 && text[0] !in {'%', '+', '&'} && text[0] == value[0] && Encodes(text[1..], value[1..]))
      || (&& |text| >= 1 && text[0] == '+' && value[0] == ' ' && Encodes(text[1..], value[1..]))
      || (&& |text| >= 3 && text[0] == '%' && HexValue(text[1]) >= 0 && HexValue(text[2]) >= 0
          && value[0] as int == 16 * HexValue(text[1]) + HexValue(text[2]) && Encodes(text[3..], value[1..]))
  }

  /** The spellings of one byte, and how spellings are put together. */
  lemma SpellingsOfByte(text: string, c: char)
    ensures Encodes(text, [c]) <==>
      || (text == [c] && c !in "%+&") || (text == "+" && c == ' ')
      || (&& |text| == 3 && text[0] == '%' && HexValue(text[1]) >= 0 && HexValue(text[2]) >= 0
          && c as int == 16 * HexValue(text[1]) + HexValue(text[2]))
  {
  }

  lemma {:induction false} SpellingsConcatenate(text: string, more: string, value: string, rest: string)
    requires Encodes(text, value) && Encodes(more, rest)
    ensures Encodes(text + more, value + rest)
    decreases |text|
  {
    if |value| == 0 {
      assert text + more == more && value + rest == rest;
    } else {
      var n := if Encodes(text[1..], value[1..]) && text[0] != '%' then 1 else 3;
      SpellingsConcatenate(text[n..], more, value[1..], rest);
      assert (text + more)[n..] == text[n..] + more && (value + rest)[1..] == value[1..] + rest;
    }
  }

  /** Decoding undoes every percent/plus encoding. */
  lemma {:induction false} DecodeEncoded(text: string, value: string)
    requires Encodes(text, value)
    ensures UrlDecode(text) == value
    decreases |text|
  {
    if |value| != 0 {
      assert value == [value[0]] + value[1..];
      if text[0] == '%' {
        DecodeEncoded(text[3..], value[1..]);
      } else {
        DecodeEncoded(text[1..], value[1..]);
      }
    }
  }

  lemma {:induction false} EncodedHasNoAmpersand(text: string, value: string)
    requires Encodes(text, value)
    ensures '&' !in text
    decreases |text|
  {
    if |value| != 0 {
      if text[0] == '%' {
        EncodedHasNoAmpersand(text[3..], value[1..]);
        assert text == [text[0], text[1], text[2]] + text[3..];
        assert HexValue('&') == -1;
      } else {
        EncodedHasNoAmpersand(text[1..], value[1..]);
        assert text == [text[0]] + text[1..];
      }
    }
  }

  function HexDigit(v: int): (c: char)
    requires 0 <= v < 16
    ensures HexValue(c) == v
  {
    if v < 10 then ('0' as int + v) as char else ('A' as int + v - 10) as char
  }

  /** The encoder a browser would use when it escapes everything. */
  function EscapeAll(value: string): string
    requires forall k :: 0 <= k < |value| ==> value[k] as int < 256
  {
    if |value| == 0 then ""
    else ['%', HexDigit(value[0] as int / 16), HexDigit(value[0] as int % 16)] + EscapeAll(value[1..])
  }

  /** Every byte string has an encoding, so decoding is onto the byte strings. */
  lemma {:induction false} EscapeAllEncodes(value: string)
    requires forall k :: 0 <= k < |value| ==> value[k] as int < 256
    ensures Encodes(EscapeAll(value), value)
  {
    if |value| != 0 {
      EscapeAllEncodes(value[1..]);
      var t := EscapeAll(value);
      assert t[3..] == EscapeAll(value[1..]);
    }
  }

  /** Decoding never lengthens its input, and leaves text without '%' and '+' as it is. */
  lemma {:induction false} DecodeShape(text: string)
    ensures |UrlDecode(text)| <= |text| <= 3 * |UrlDecode(text)|
    ensures '%' !in text && '+' !in text ==> UrlDecode(text) == text
    decreases |text|
  {
    if |text| != 0 {
      if text[0] == '%' && |text| >= 3 {
        DecodeShape(text[3..]);
      } else {
        DecodeShape(text[1..]);
        assert text == [text[0]] + text[1..];
      }
    }
  }

  // ---------------------------------------------------------------- splitting

  /** One '&'-segment: its key and decoded value if it has an '=', else nothing. */
  function ArgOf(segment: string): seq<Arg> {
    var eq := IndexOf(segment, '=', 0);
    if eq == -1 then [] else [Arg(segment[..eq], UrlDecode(segment[eq + 1..]))]
  }

  function ArgsOf(segments: seq<string>): seq<Arg> {
    if |segments| == 0 then [] else ArgOf(segments[0]) + ArgsOf(segments[1..])
  }

  /** The arguments of a query string: its '&'-segments that have an '=', in order. */
  function ParseArgs(data: string): seq<Arg> {
    ArgsOf(Split(data, '&'))
  }

  lemma {:induction false} ArgsOfBound(segments: seq<string>)
    ensures |ArgsOf(segments)| <= |segments|
  {
    if |segments| != 0 {
      ArgsOfBound(segments[1..]);
    }
  }

  /** What the index arithmetic of the splitter finds at `pos`: the first segment and the rest ... */
  lemma FirstSegment(data: string, pos: nat, end: nat, next: int)
    requires pos <= end <= |data| && next == IndexOf(data, '&', pos)
    requires end == if next == -1 then |data| else next
    ensures Split(data[pos..], '&') == [data[pos..end]] + if next == -1 then [] else Split(data[next + 1..], '&')
  {
    hide Split, IndexOf;
    IndexOfSuffix(data, '&', pos);
    SplitUnfolds(data[pos..], '&', if next == -1 then -1 else next - pos);
    assert data[pos..] == data[pos..|data|];
    if next != -1 {
      CutSlice(data, pos, next, |data|);
      assert data[next + 1..|data|] == data[next + 1..];
    }
  }

  /** Searching a slice is searching the whole string and cutting off what lies past the slice. */
  lemma IndexOfSlice(s: string, c: char, from: nat, end: nat)
    requires from <= end <= |s|
    ensures var q := IndexOf(s, c, from);
      IndexOf(s[from..end], c, 0) == if q == -1 || q >= end then -1 else q - from
  {
    var q, r := IndexOf(s, c, from), IndexOf(s[from..end], c, 0);
    assert r != -1 ==> s[from + r] == c;
    assert from <= q < end ==> s[from..end][q - from] == c;
  }

  lemma CutSlice(s: string, from: nat, at: nat, end: nat)
    requires from <= at < end <= |s|
    ensures s[from..end][..at - from] == s[from..at]
    ensures s[from..end][at - from + 1..] == s[at + 1..end]
  {
  }

  /** ... and the argument in that segment, if any. */
  lemma SegmentArg(data: string, pos: nat, end: nat, eq: int, next: int)
    requires pos <= end <= |data|
    requires eq == IndexOf(data, '=', pos) && next == IndexOf(data, '&', pos)
    requires end == if next == -1 then |data| else next
    ensures ArgOf(data[pos..end])
      == if eq == -1 || (eq > next && next != -1) then []
         else [Arg(Substring(data, pos, eq), UrlDecode(Substring(data, eq + 1, next)))]
  {
    hide UrlDecode, Substring, IndexOf;
    IndexOfSlice(data, '=', pos, end);
    if eq != -1 && eq < end {
      var segment := data[pos..end];
      SubstringInOrder(data, pos, eq);
      SubstringInOrder(data, eq + 1, next);
      CutSlice(data, pos, eq, end);
    }
  }

  lemma ArgsOfCons(segment: string, segments: seq<string>)
    ensures ArgsOf([segment] + segments) == ArgOf(segment) + ArgsOf(segments)
  {
    hide ArgOf;
    assert ([segment] + segments)[1..] == segments;
  }

  /** One step of the splitter: what it adds at `pos`, and the segments it leaves. */
  lemma SplitterStep(data: string, pos: nat)
    requires pos <= |data|
    ensures var eq, next := IndexOf(data, '=', pos), IndexOf(data, '&', pos);
      var arg := if eq == -1 || (eq > next && next != -1) then []
                 else [Arg(Substring(data, pos, eq), UrlDecode(Substring(data, eq + 1, next)))];
      && ParseArgs(data[pos..]) == arg + (if next == -1 then [] else ParseArgs(data[next + 1..]))
      && |Split(data[pos..], '&')| == 1 + (if next == -1 then 0 else |Split(data[next + 1..], '&')|)
  {
    hide UrlDecode, Split, ArgsOf, ArgOf, Substring, IndexOf;
    var eq, next := IndexOf(data, '=', pos), IndexOf(data, '&', pos);
    var end := if next == -1 then |data| else next;
    FirstSegment(data, pos, end, next);
    ArgsOfCons(data[pos..end], if next == -1 then [] else Split(data[next + 1..], '&'));
    SegmentArg(data, pos, end, eq, next);
    NoSegments();
  }

  lemma NoSegments()
    ensures ArgsOf([]) == []
  {
  }

  /** `text` is one legal spelling of the pair `a`. */
  predicate Spells(text: string, a: Arg) {
    && '&' !in a.key && '=' !in a.key
    && |a.key| < |text| && text[..|a.key|] == a.key && text[|a.key|] == '='
    && Encodes(text[|a.key| + 1..], a.value)
  }

  lemma ArgOfSpelling(text: string, a: Arg)
    requires Spells(text, a)
    ensures ArgOf(text) == [a]
    ensures '&' !in text
  {
    var n := |a.key|;
    assert forall k :: 0 <= k < n ==> text[k] == a.key[k];
    assert IndexOf(text, '=', 0) == n;
    DecodeEncoded(text[n + 1..], a.value);
    EncodedHasNoAmpersand(text[n + 1..], a.value);
    assert text == a.key + ['='] + text[n + 1..];
  }

  /** Round trip: whatever encoding each pair was given, parsing returns the original pairs.
      Keys are not decoded, so they must be free of '&' and '='. */
  lemma {:induction false} ParseRoundTrip(texts: seq<string>, args: seq<Arg>)
    requires |texts| == |args|
    requires forall i :: 0 <= i < |args| ==> Spells(texts[i], args[i])
    ensures ParseArgs(Join(texts, "&")) == args
  {
    if |texts| == 0 {
      assert Split("", '&') == [""];
      assert ArgOf("") == [];
    } else {
      forall i | 0 <= i < |texts| ensures '&' !in texts[i] {
        ArgOfSpelling(texts[i], args[i]);
      }
      SplitJoin(texts, '&');
      ArgsOfSpellings(texts, args);
    }
  }

  lemma {:induction false} ArgsOfSpellings(texts: seq<string>, args: seq<Arg>)
    requires |texts| == |args|
    requires forall i :: 0 <= i < |args| ==> Spells(texts[i], args[i])
    ensures ArgsOf(texts) == args
  {
    if |texts| != 0 {
      ArgOfSpelling(texts[0], args[0]);
      ArgsOfSpellings(texts[1..], args[1..]);
      assert args == [args[0]] + args[1..];
    }
  }

  /** A segment with an '=' is cut at the first one; one without adds nothing. */
  lemma ArgOfSegment(key: string, value: string)
    requires '=' !in key
    ensures ArgOf(key + "=" + value) == [Arg(key, UrlDecode(value))] && ArgOf(key) == []
  {
    hide UrlDecode;
    IndexBehind(key, '=', value);
    assert key + "=" + value == key + ['='] + value;
  }

  // ---------------------------------------------------------------- lookup

  /** Position of the first entry with key `name` at or after `from`, or -1. */
  function FirstWithKey(args: seq<Arg>, name: string, from: nat): (r: int)
    ensures r == -1 || from <= r < |args|
    ensures r != -1 ==> args[r].key == name && forall j :: from <= j < r ==> args[j].key != name
    ensures r == -1 ==> forall j :: from <= j < |args| ==> args[j].key != name
    decreases |args| - from
  {
    if from >= |args| then -1
    else if args[from].key == name then from
    else FirstWithKey(args, name, from + 1)
  }

  predicate HasArg(args: seq<Arg>, name: string) {
    FirstWithKey(args, name, 0) != -1
  }

  /** The value under the first entry with that key, "" without one. */
  function ValueOf(args: seq<Arg>, name: string): string {
    var i := FirstWithKey(args, name, 0);
    if i == -1 then "" else args[i].value
  }

  /** The k-th entry is the first with that key. */
  predicate FirstAt(args: seq<Arg>, name: string, k: nat) {
    k < |args| && args[k].key == name && forall j :: 0 <= j < k ==> args[j].key != name
  }

  /** An argument is there if some entry has its key, and its value is that of the first such entry;
      without one it is empty. */
  lemma LookupMeans(args: seq<Arg>, name: string)
    ensures HasArg(args, name) <==> exists k :: 0 <= k < |args| && args[k].key == name
    ensures forall k: nat :: FirstAt(args, name, k) ==> ValueOf(args, name) == args[k].value
    ensures (forall k :: 0 <= k < |args| ==> args[k].key != name) ==> ValueOf(args, name) == ""
  {
    forall k: nat | FirstAt(args, name, k) ensures ValueOf(args, name) == args[k].value {
      var i := FirstWithKey(args, name, 0);
      assert i == k;
    }
  }

  /** Every spelled pair whose key was not used before is found under its key, with its value;
      and nothing is found under a key that no pair has. */
  lemma SpelledIsFound(texts: seq<string>, args: seq<Arg>, k: nat, other: string)
    requires |texts| == |args| && forall i :: 0 <= i < |args| ==> Spells(texts[i], args[i])
    requires k < |args| && forall j :: 0 <= j < k ==> args[j].key != args[k].key
    requires forall i :: 0 <= i < |args| ==> args[i].key != other
    ensures var parsed := ParseArgs(Join(texts, "&"));
      && HasArg(parsed, args[k].key) && ValueOf(parsed, args[k].key) == args[k].value
      && !HasArg(parsed, other) && ValueOf(parsed, other) == ""
  {
    hide ParseArgs, Spells, HasArg, ValueOf;
    ParseRoundTrip(texts, args);
    LookupMeans(args, args[k].key);
    LookupMeans(args, other);
    assert FirstAt(args, args[k].key, k);
  }
}

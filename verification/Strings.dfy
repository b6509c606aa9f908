/** The operations of Arduino's String class that the request parser uses.  A byte is a `char`. */
module Strings {

  const CR := '\r'
  const LF := '\n'

  /** Index of the first `c` at or after `from`, or -1. */
  function IndexOf(s: string, c: char, from: nat): (r: int)
    ensures r == -1 || from <= r < |s|
    ensures r != -1 ==> s[r] == c && forall k :: from <= k < r ==> s[k] != c
    ensures r == -1 ==> forall k :: from <= k < |s| ==> s[k] != c
    decreases |s| - from
  {
    if from >= |s| then -1
    else if s[from] == c then from
    else IndexOf(s, c, from + 1)
  }

  lemma IndexBehind(prefix: string, c: char, rest: string)
    requires c !in prefix
    ensures IndexOf(prefix + [c] + rest, c, 0) == |prefix|
    ensures (prefix + [c] + rest)[..|prefix|] == prefix
    ensures (prefix + [c] + rest)[|prefix| + 1..] == rest
  {
    var s := prefix + [c] + rest;
    assert forall k :: 0 <= k < |prefix| ==> s[k] == prefix[k];
    assert s[|prefix|] == c;
  }

  /** Searching from `from` is searching the suffix that starts there. */
  lemma IndexOfSuffix(s: string, c: char, from: nat)
    requires from <= |s|
    ensures IndexOf(s, c, from) == -1 <==> IndexOf(s[from..], c, 0) == -1
    ensures IndexOf(s, c, from) != -1 ==> IndexOf(s[from..], c, 0) == IndexOf(s, c, from) - from
  {
    var r, q := IndexOf(s, c, from), IndexOf(s[from..], c, 0);
    assert forall k :: 0 <= k < |s| - from ==> s[from..][k] == s[from + k];
    assert q != -1 ==> s[from + q] == c;
    assert r != -1 ==> s[from..][r - from] == c;
  }

  /** `s.substring(left, right)`: the bounds are unsigned, so a negative `right` lies past every string;
      bounds in the wrong order are exchanged, and `right` is cut to the length. */
  function Substring(s: string, left: nat, right: int): string {
    if 0 <= right < left then Slice(s, right, left)
    else Slice(s, left, if right < 0 then |s| else right)
  }

  lemma SubstringInOrder(s: string, left: nat, right: int)
    requires left <= |s| && (right < 0 || left <= right <= |s|)
    ensures Substring(s, left, right) == s[left..if right < 0 then |s| else right]
  {
  }

  function Slice(s: string, left: nat, right: nat): string {
    if left >= |s| || right <= left then ""
    else s[left..if right > |s| then |s| else right]
  }

  /** `s.substring(left)` */
  function SubstringFrom(s: string, left: nat): string {
    Substring(s, left, |s|)
  }

  /** For all bounds: the bytes between the smaller and the greater, both cut to the length. */
  lemma SubstringAll(s: string, left: nat, right: nat)
    ensures var low, high := if left < right then left else right, if left < right then right else left;
      Substring(s, left, right) == s[if low < |s| then low else |s|..if high < |s| then high else |s|]
    ensures forall r: int :: r < 0 ==> Substring(s, left, r) == s[if left < |s| then left else |s|..]
  {
  }

  predicate StartsWith(s: string, prefix: string) {
    prefix <= s
  }

  lemma StartsWithMeans(s: string, prefix: string)
    ensures StartsWith(s, prefix) <==> |prefix| <= |s| && forall i :: 0 <= i < |prefix| ==> s[i] == prefix[i]
  {
  }

  /** The pieces of `s` between the separators `c`: always at least one. */
  function Split(s: string, c: char): (r: seq<string>)
    ensures |r| >= 1
    decreases |s|
  {
    var i := IndexOf(s, c, 0);
    if i == -1 then [s] else [s[..i]] + Split(s[i + 1..], c)
  }

  lemma SplitUnfolds(s: string, c: char, i: int)
    requires i == IndexOf(s, c, 0)
    ensures Split(s, c) == if i == -1 then [s] else [s[..i]] + Split(s[i + 1..], c)
  {
  }

  function Join(parts: seq<string>, sep: string): string {
    if |parts| == 0 then ""
    else if |parts| == 1 then parts[0]
    else parts[0] + sep + Join(parts[1..], sep)
  }

  /** Split loses nothing, and its pieces are free of the separator ... */
  lemma {:induction false} JoinSplit(s: string, c: char)
    ensures Join(Split(s, c), [c]) == s
    ensures forall p :: p in Split(s, c) ==> c !in p
    decreases |s|
  {
    var i := IndexOf(s, c, 0);
    if i != -1 {
      JoinSplit(s[i + 1..], c);
      var rest := Split(s[i + 1..], c);
      assert ([s[..i]] + rest)[1..] == rest;
      assert s == s[..i] + [c] + s[i + 1..];
    }
  }

  /** ... and it is the only such list. */
  lemma {:induction false} SplitJoin(parts: seq<string>, c: char)
    requires |parts| >= 1
    requires forall p :: p in parts ==> c !in p
    ensures Split(Join(parts, [c]), c) == parts
  {
    var s := Join(parts, [c]);
    assert c !in parts[0];
    if |parts| > 1 {
      var i := |parts[0]|;
      assert s[..i] == parts[0] && s[i] == c;
      assert IndexOf(s, c, 0) == i;
      assert s[i + 1..] == Join(parts[1..], [c]);
      SplitJoin(parts[1..], c);
      assert [parts[0]] + parts[1..] == parts;
    }
  }

  /** The pieces one behind the other. */
  function Concat(pieces: seq<string>): string {
    if |pieces| == 0 then "" else Concat(pieces[..|pieces| - 1]) + pieces[|pieces| - 1]
  }

  lemma ConcatOneMore(pieces: seq<string>, piece: string)
    ensures Concat(pieces + [piece]) == Concat(pieces) + piece
  {
    assert (pieces + [piece])[..|pieces|] == pieces;
  }

  // ---------------------------------------------------------------- regrouping

  lemma Associate<T>(a: seq<T>, b: seq<T>, c: seq<T>)
    ensures a + b + c == a + (b + c)
  {
  }

  lemma Associate4<T>(a: seq<T>, b: seq<T>, c: seq<T>, d: seq<T>)
    ensures a + b + c + d == a + (b + c + d)
  {
  }
}

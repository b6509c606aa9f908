/** Whole runs of the receive half of a UDP endpoint: datagrams come out in the order they came in. */
module UdpInbox {
  import opened Pbufs
  import opened Udp

  datatype Op = Arrive(datagram: string) | Next | Read(size: nat) | Flush

  /** Bytes that one `read` returned, and the number of the datagram at the front. */
  datatype Got = Got(datagram: nat, bytes: string)

  /** The endpoint without any chain: every datagram so far, the number of the one at the front (all when there is
      none), its unread bytes, whether `next` made it current, and what the calls returned. */
  datatype Inbox = Inbox(arrived: seq<string>, front: nat, unread: string, current: bool, nexts: seq<bool>,
                         got: seq<Got>)

  const NOTHING := Inbox([], 0, "", false, [], [])

  function Step(s: Inbox, op: Op): Inbox {
    match op
    case Arrive(datagram) =>
      if s.front < |s.arrived| then s.(arrived := s.arrived + [datagram])
      else s.(arrived := s.arrived + [datagram], unread := datagram, current := false)
    case Next =>
      if s.front >= |s.arrived| then s.(nexts := s.nexts + [false])
      else if !s.current then s.(current := true, nexts := s.nexts + [true])
      else
        var more := s.front + 1 < |s.arrived|;
        s.(front := s.front + 1, unread := if more then s.arrived[s.front + 1] else "", current := more,
           nexts := s.nexts + [more])
    case Read(size) =>
      var n := if size < |s.unread| then size else |s.unread|;
      s.(unread := s.unread[n..], got := s.got + [Got(s.front, s.unread[..n])])
    case Flush => s.(unread := "")
  }

  function StepAll(ops: seq<Op>): Inbox {
    if |ops| == 0 then NOTHING else Step(StepAll(ops[..|ops| - 1]), ops[|ops| - 1])
  }

  function Successes(nexts: seq<bool>): nat {
    if |nexts| == 0 then 0 else Successes(nexts[..|nexts| - 1]) + if nexts[|nexts| - 1] then 1 else 0
  }

  /** What the reads returned while datagram k was at the front. */
  function BytesOf(got: seq<Got>, k: nat): string {
    if |got| == 0 then ""
    else BytesOf(got[..|got| - 1], k) + if got[|got| - 1].datagram == k then got[|got| - 1].bytes else ""
  }

  /** Between calls: the successful `next`s took the datagrams up to the current one, and the reads so far
      and the unread bytes are pieces of their datagrams. */
  ghost predicate Inv(s: Inbox) {
    && s.front <= |s.arrived|
    && (s.front == |s.arrived| ==> s.unread == "" && !s.current)
    && Successes(s.nexts) == s.front + (if s.current then 1 else 0)
    && (s.front < |s.arrived| ==> s.unread == "" || BytesOf(s.got, s.front) + s.unread == s.arrived[s.front])
    && (forall k :: 0 <= k < |s.arrived| ==> BytesOf(s.got, k) <= s.arrived[k])
    && (forall k :: s.front < k ==> BytesOf(s.got, k) == "")
    && (s.front == |s.arrived| ==> BytesOf(s.got, s.front) == "")
    && (forall i, j :: 0 <= i < j < |s.got| ==> s.got[i].datagram <= s.got[j].datagram <= s.front)
    && (forall i :: 0 <= i < |s.got| ==> s.got[i].datagram <= s.front)
  }

  lemma BytesOfMore(got: seq<Got>, g: Got, k: nat)
    ensures BytesOf(got + [g], k) == if g.datagram == k then BytesOf(got, k) + g.bytes else BytesOf(got, k)
  {
    assert (got + [g])[..|got|] == got;
  }

  lemma Halves(a: string, b: string, n: nat)
    requires n <= |b|
    ensures a + b[..n] + b[n..] == a + b
    ensures a + b[..n] <= a + b
  {
  }

  lemma ReadKeeps(s: Inbox, size: nat)
    requires Inv(s)
    ensures Inv(Step(s, Read(size)))
  {
    hide BytesOf, Successes;
    var n := if size < |s.unread| then size else |s.unread|;
    forall k: nat
      ensures BytesOf(Step(s, Read(size)).got, k)
        == if k == s.front then BytesOf(s.got, k) + s.unread[..n] else BytesOf(s.got, k)
    {
      BytesOfMore(s.got, Got(s.front, s.unread[..n]), k);
    }
    Halves(BytesOf(s.got, s.front), s.unread, n);
  }

  lemma ArriveKeeps(s: Inbox, datagram: string)
    requires Inv(s)
    ensures Inv(Step(s, Arrive(datagram)))
  {
    hide BytesOf, Successes;
    var r := Step(s, Arrive(datagram));
    assert BytesOf(s.got, |s.arrived|) == "";
    assert forall k :: 0 <= k < |r.arrived| ==> r.arrived[k] == if k < |s.arrived| then s.arrived[k] else datagram;
    if s.front == |s.arrived| {
      assert "" + datagram == datagram;
    }
  }

  lemma NextKeeps(s: Inbox)
    requires Inv(s)
    ensures Inv(Step(s, Next))
  {
    hide BytesOf;
    var r := Step(s, Next);
    assert r.nexts[..|r.nexts| - 1] == s.nexts;
    assert BytesOf(s.got, s.front + 1) == "";
    if r.front > s.front && r.front < |s.arrived| {
      assert "" + r.unread == s.arrived[r.front];
    }
  }

  lemma FlushKeeps(s: Inbox)
    requires Inv(s)
    ensures Inv(Step(s, Flush))
  {
  }

  lemma StepKeeps(s: Inbox, op: Op)
    requires Inv(s)
    ensures Inv(Step(s, op))
  {
    hide Inv;
    match op
    case Arrive(datagram) => ArriveKeeps(s, datagram);
    case Next => NextKeeps(s);
    case Read(size) => ReadKeeps(s, size);
    case Flush => FlushKeeps(s);
  }

  lemma {:induction false} Keeps(ops: seq<Op>)
    ensures Inv(StepAll(ops))
  {
    if |ops| > 0 {
      hide Inv, Step;
      Keeps(ops[..|ops| - 1]);
      StepKeeps(StepAll(ops[..|ops| - 1]), ops[|ops| - 1]);
    } else {
      NothingKept();
    }
  }

  lemma NothingKept()
    ensures Inv(NOTHING)
  {
  }

  /** First in, first out, on every run: when `next` succeeds for the k-th time, datagram k is current; the reads
      walk through the datagrams in order, and those of one datagram never leave it. */
  lemma InOrder(ops: seq<Op>)
    ensures var s, t := StepAll(ops), StepAll(ops + [Next]);
      && t.arrived == s.arrived && t.nexts == s.nexts + [Successes(s.nexts) < |s.arrived|]
      && (t.nexts[|s.nexts|] ==> t.current && t.front == Successes(t.nexts) - 1)
      && (t.nexts[|s.nexts|] && s.current ==> t.unread == t.arrived[t.front])
    ensures var s := StepAll(ops);
      && (forall k :: 0 <= k < |s.arrived| ==> BytesOf(s.got, k) <= s.arrived[k])
      && (forall i, j :: 0 <= i < j < |s.got| ==> s.got[i].datagram <= s.got[j].datagram)
  {
    hide Successes, BytesOf;
    Keeps(ops);
    Keeps(ops + [Next]);
    assert (ops + [Next])[..|ops|] == ops;
    var s, t := StepAll(ops), StepAll(ops + [Next]);
    assert t.nexts[..|t.nexts| - 1] == s.nexts;
  }

  /** Every run of the receive chain is a run of the inbox. */
  method Run(ops: seq<Op>) returns (udp: UdpReceiver, nexts: seq<bool>, results: seq<string>)
    ensures udp.Valid()
    ensures var s := StepAll(ops);
      && s.arrived == udp.arrived && s.unread == udp.Unread() && s.nexts == nexts
      && |results| == |s.got| && forall i :: 0 <= i < |results| ==> results[i] == s.got[i].bytes
  {
    hide UdpReceiver.Valid, UdpReceiver.Unread, Step, Matches;
    udp := new UdpReceiver();
    nexts, results := [], [];
    NothingMatches(udp);
    for n := 0 to |ops|
      invariant udp.Valid() && fresh(udp) && fresh(udp.repr)
      invariant Matches(StepAll(ops[..n]), udp, nexts, results)
    {
      assert ops[..n + 1][..n] == ops[..n] && ops[..n + 1][n] == ops[n];
      ghost var s := StepAll(ops[..n]);
      match ops[n] {
        case Arrive(datagram) => CallArrive(udp, datagram, s, nexts, results);
        case Next =>
          var ok := CallNext(udp, s, nexts, results);
          nexts := nexts + [ok];
        case Read(size) =>
          var dst := CallRead(udp, size, s, nexts, results);
          results := results + [dst];
        case Flush => CallFlush(udp, s, nexts, results);
      }
    }
    assert ops[..|ops|] == ops;
    MatchesMeans(StepAll(ops), udp, nexts, results);
  }

  lemma NothingMatches(udp: UdpReceiver)
    requires udp.Valid() && udp.arrived == [] && udp.nodes == [] && udp.Unread() == ""
    ensures Matches(NOTHING, udp, [], [])
  {
  }

  lemma MatchesMeans(s: Inbox, udp: UdpReceiver, nexts: seq<bool>, results: seq<string>)
    requires udp.Valid() && Matches(s, udp, nexts, results)
    ensures s.arrived == udp.arrived && s.unread == udp.Unread() && s.nexts == nexts
    ensures |results| == |s.got| && forall i :: 0 <= i < |results| ==> results[i] == s.got[i].bytes
  {
  }

  method CallArrive(udp: UdpReceiver, datagram: string, ghost s: Inbox, nexts: seq<bool>, results: seq<string>)
    requires udp.Valid() && Matches(s, udp, nexts, results)
    modifies udp, udp.repr
    ensures udp.Valid() && Matches(Step(s, Arrive(datagram)), udp, nexts, results)
    ensures fresh(udp.repr - old(udp.repr))
  {
    hide UdpReceiver.Valid, UdpReceiver.Unread;
    var pb := Deliver(datagram);
    Counted(udp);
    udp.Recv(pb);
    Counted(udp);
  }

  method CallNext(udp: UdpReceiver, ghost s: Inbox, nexts: seq<bool>, results: seq<string>) returns (ok: bool)
    requires udp.Valid() && Matches(s, udp, nexts, results)
    modifies udp
    ensures udp.Valid() && Matches(Step(s, Next), udp, nexts + [ok], results)
    ensures fresh(udp.repr - old(udp.repr))
  {
    hide UdpReceiver.Valid, UdpReceiver.Unread;
    Counted(udp);
    ok := udp.Next();
    Counted(udp);
  }

  method CallRead(udp: UdpReceiver, size: nat, ghost s: Inbox, nexts: seq<bool>, results: seq<string>)
      returns (dst: string)
    requires udp.Valid() && Matches(s, udp, nexts, results)
    modifies udp`rxOffset
    ensures udp.Valid() && Matches(Step(s, Read(size)), udp, nexts, results + [dst])
    ensures fresh(udp.repr - old(udp.repr))
  {
    hide UdpReceiver.Valid, UdpReceiver.Unread;
    Counted(udp);
    dst := udp.Read(size);
    Split(dst, udp.Unread());
  }

  method CallFlush(udp: UdpReceiver, ghost s: Inbox, nexts: seq<bool>, results: seq<string>)
    requires udp.Valid() && Matches(s, udp, nexts, results)
    modifies udp`rxOffset
    ensures udp.Valid() && Matches(Step(s, Flush), udp, nexts, results)
    ensures fresh(udp.repr - old(udp.repr))
  {
    hide UdpReceiver.Valid, UdpReceiver.Unread;
    udp.Flush();
  }

  lemma Split(a: string, b: string)
    ensures (a + b)[..|a|] == a && (a + b)[|a|..] == b
  {
  }

  lemma Counted(udp: UdpReceiver)
    requires udp.Valid()
    ensures |udp.nodes| <= |udp.arrived|
    ensures udp.taken == |udp.arrived| - |udp.nodes| + if udp.nodes != [] && udp.firstBufTaken then 1 else 0
    ensures udp.nodes == [] ==> udp.Unread() == ""
    ensures udp !in udp.repr
  {
    hide Footprint, Chain;
  }

  ghost predicate Matches(s: Inbox, udp: UdpReceiver, nexts: seq<bool>, results: seq<string>)
    requires udp.Valid()
    reads udp, udp.repr
  {
    && s.arrived == udp.arrived && s.front == |udp.arrived| - |udp.nodes| && s.unread == udp.Unread()
    && s.current == (udp.nodes != [] && udp.firstBufTaken) && s.nexts == nexts
    && |results| == |s.got| && forall i :: 0 <= i < |results| ==> results[i] == s.got[i].bytes
  }
}

/** lwIP's packet buffers: nodes with a payload, chained by `next`, where `totLen` counts
    the bytes from a node to the end of its chain. */
module Pbufs {

  class Pbuf {
    const payload: array<char>
    var totLen: nat
    var next: Pbuf?

    /** `pbuf_alloc`: one node of the asked size. */
    constructor (size: nat)
      ensures payload.Length == totLen == size && next == null
      ensures fresh(payload)
    {
      payload := new char[size];
      totLen := size;
      next := null;
    }
  }

  ghost function Payloads(nodes: seq<Pbuf>): set<array<char>> {
    set n | n in nodes :: n.payload
  }

  /** The objects of a chain. */
  ghost function Footprint(nodes: seq<Pbuf>): set<object> {
    var links: set<object> := set n | n in nodes;
    var payloads: set<object> := Payloads(nodes);
    links + payloads
  }

  lemma InFootprint(nodes: seq<Pbuf>)
    ensures forall i :: 0 <= i < |nodes| ==> nodes[i] in Footprint(nodes) && nodes[i].payload in Footprint(nodes)
  {
  }

  lemma FootprintOfMore(nodes: seq<Pbuf>, more: seq<Pbuf>)
    ensures Footprint(nodes + more) == Footprint(nodes) + Footprint(more)
  {
    assert forall n :: n in nodes + more <==> n in nodes || n in more;
  }

  ghost predicate Distinct(nodes: seq<Pbuf>) {
    forall i, j :: 0 <= i < j < |nodes| ==> nodes[i] != nodes[j] && nodes[i].payload != nodes[j].payload
  }

  /** Two chains without a common node or payload. */
  ghost predicate Apart(nodes: seq<Pbuf>, more: seq<Pbuf>) {
    forall i, j :: 0 <= i < |nodes| && 0 <= j < |more| ==> nodes[i] != more[j] && nodes[i].payload != more[j].payload
  }

  lemma ApartIfDisjoint(nodes: seq<Pbuf>, more: seq<Pbuf>)
    requires Footprint(nodes) !! Footprint(more)
    ensures Apart(nodes, more)
    ensures forall i :: 0 <= i < |nodes| ==> nodes[i] in Footprint(nodes) && nodes[i] !in Footprint(more)
  {
    hide Footprint;
    InFootprint(nodes);
    InFootprint(more);
  }

  // ---------------------------------------------------------------- places

  /** Where the bytes of node i start among the bytes of the chain. */
  ghost function Start(nodes: seq<Pbuf>, i: nat): nat
    requires i <= |nodes|
  {
    if i == 0 then 0 else Start(nodes, i - 1) + nodes[i - 1].payload.Length
  }

  lemma StartOfFirst(nodes: seq<Pbuf>)
    ensures Start(nodes, 0) == 0
    ensures |nodes| > 0 ==> Start(nodes, 1) == nodes[0].payload.Length
  {
  }

  /** Nodes lie behind one another. */
  lemma {:induction false} StartsAscend(nodes: seq<Pbuf>, i: nat, j: nat)
    requires i < j <= |nodes|
    ensures Start(nodes, i) + nodes[i].payload.Length <= Start(nodes, j)
    decreases j
  {
    if i + 1 < j {
      StartsAscend(nodes, i, j - 1);
    }
  }

  lemma {:induction false} StartOfMore(nodes: seq<Pbuf>, more: seq<Pbuf>, i: nat)
    requires i <= |nodes| + |more|
    ensures Start(nodes + more, i)
      == if i <= |nodes| then Start(nodes, i) else Start(nodes, |nodes|) + Start(more, i - |nodes|)
  {
    if i > 0 {
      StartOfMore(nodes, more, i - 1);
      if i == |nodes| + 1 {
        assert Start(more, 1) == Start(more, 0) + more[0].payload.Length;
      }
    }
  }

  // ---------------------------------------------------------------- chains

  /** `nodes` are linked in this order and together hold `bytes`. */
  ghost predicate Chain(nodes: seq<Pbuf>, bytes: string)
    reads Footprint(nodes)
  {
    && Distinct(nodes)
    && Start(nodes, |nodes|) == |bytes|
    && (forall i :: 0 <= i < |nodes| ==> NodeAt(nodes, bytes, i))
  }

  ghost predicate NodeAt(nodes: seq<Pbuf>, bytes: string, i: nat)
    requires i < |nodes|
    reads Footprint(nodes)
  {
    var p, start := nodes[i], Start(nodes, i);
    && p.next == (if i + 1 < |nodes| then nodes[i + 1] else null)
    && start + p.payload.Length <= |bytes|
    && p.totLen == |bytes| - start
    && p.payload[..] == bytes[start..start + p.payload.Length]
  }

  lemma ChainLength(nodes: seq<Pbuf>, bytes: string)
    requires Chain(nodes, bytes)
    ensures Start(nodes, |nodes|) == |bytes|
  {
  }

  /** What a node of a chain knows. */
  lemma Node(nodes: seq<Pbuf>, bytes: string, i: nat)
    requires Chain(nodes, bytes) && i < |nodes|
    ensures NodeAt(nodes, bytes, i)
    ensures Start(nodes, i + 1) == Start(nodes, i) + nodes[i].payload.Length
    ensures nodes[i] in Footprint(nodes) && nodes[i].payload in Footprint(nodes)
  {
  }

  lemma NodeLink(nodes: seq<Pbuf>, bytes: string, i: nat)
    requires Chain(nodes, bytes) && i < |nodes|
    ensures nodes[i].next == if i + 1 < |nodes| then nodes[i + 1] else null
    ensures Start(nodes, i + 1) == Start(nodes, i) + nodes[i].payload.Length <= |bytes|
    ensures nodes[i] in Footprint(nodes) && nodes[i].payload in Footprint(nodes)
  {
    assert NodeAt(nodes, bytes, i);
  }

  lemma EmptyChain(bytes: string)
    ensures Chain([], bytes) <==> bytes == ""
    ensures Footprint([]) == {}
  {
  }

  lemma SingleNode(p: Pbuf)
    requires p.next == null && p.totLen == p.payload.Length
    ensures Chain([p], p.payload[..]) && Footprint([p]) == {p, p.payload}
  {
    assert Start([p], 0) == 0 && Start([p], 1) == p.payload.Length;
    assert NodeAt([p], p.payload[..], 0);
  }

  /** The first n bytes of node k. */
  lemma NodePrefix(nodes: seq<Pbuf>, bytes: string, k: nat, n: nat)
    requires Chain(nodes, bytes) && k < |nodes| && n <= nodes[k].payload.Length
    ensures var start := Start(nodes, k);
      && start + n <= |bytes|
      && nodes[k].payload[..n] == bytes[start..start + n]
      && bytes[..start] + bytes[start..start + n] == bytes[..start + n]
  {
    assert NodeAt(nodes, bytes, k);
    var start := Start(nodes, k);
    assert nodes[k].payload[..n] == nodes[k].payload[..][..n] == bytes[start..start + n];
  }

  /** Without its head a chain holds the rest of the bytes. */
  lemma DropHead(nodes: seq<Pbuf>, bytes: string)
    requires |nodes| > 0 && Chain(nodes, bytes)
    ensures nodes[0].payload.Length <= |bytes| && nodes[0].payload[..] == bytes[..nodes[0].payload.Length]
    ensures Chain(nodes[1..], bytes[nodes[0].payload.Length..])
    ensures Footprint(nodes[1..]) <= Footprint(nodes)
  {
    hide NodeAt, Start, Footprint;
    var head, rest := nodes[..1], nodes[1..];
    assert nodes == head + rest;
    FootprintOfMore(head, rest);
    NodePrefix(nodes, bytes, 0, nodes[0].payload.Length);
    StartOfFirst(nodes);
    StartOfFirst(head);
    StartOfFirst(rest);
    var n := nodes[0].payload.Length;
    assert nodes[0].payload[..n] == nodes[0].payload[..];
    forall i | 0 <= i < |rest| ensures NodeAt(rest, bytes[n..], i) {
      StartOfMore(head, rest, i + 1);
      LaterNode(nodes, bytes, n, i);
    }
    StartOfMore(head, rest, |nodes|);
  }

  lemma LaterNode(nodes: seq<Pbuf>, bytes: string, n: nat, i: nat)
    requires Chain(nodes, bytes) && i + 1 < |nodes| && n <= |bytes|
    requires Start(nodes, i + 1) == n + Start(nodes[1..], i)
    ensures NodeAt(nodes[1..], bytes[n..], i)
  {
    hide Start;
    assert NodeAt(nodes, bytes, i + 1);
    var start, len := Start(nodes, i + 1), nodes[i + 1].payload.Length;
    assert bytes[n..][start - n..start - n + len] == bytes[start..start + len];
  }

  // ---------------------------------------------------------------- operations

  /** `pbuf_cat`: appends a chain to a chain; every node of the first counts the new bytes. */
  method PbufCat(head: Pbuf, tail: Pbuf, ghost nodes: seq<Pbuf>, ghost bytes: string, ghost more: seq<Pbuf>,
      ghost tailBytes: string)
    requires |nodes| > 0 && nodes[0] == head && Chain(nodes, bytes)
    requires |more| > 0 && more[0] == tail && Chain(more, tailBytes)
    requires Apart(nodes, more)
    modifies nodes
    ensures Chain(nodes + more, bytes + tailBytes)
  {
    hide NodeAt, Chain, Start;
    ChainParts(nodes, bytes);
    ApartObjects(nodes, more);
    HeadCounts(more, tailBytes);
    var last := CountMore(head, tail.totLen, nodes, |bytes|);
    assert Chain(more, tailBytes);
    last.next := tail;
    Catenated(nodes, bytes, more, tailBytes);
  }

  /** Walks to the last node; every node counts n more bytes. */
  method CountMore(head: Pbuf, n: nat, ghost nodes: seq<Pbuf>, ghost total: nat) returns (last: Pbuf)
    requires |nodes| > 0 && nodes[0] == head && Distinct(nodes)
    requires Counts(nodes, total, 0, |nodes|) && LinkedTo(nodes, null)
    modifies nodes
    ensures last == nodes[|nodes| - 1] && Counts(nodes, total + n, 0, |nodes|) && LinkedTo(nodes, null)
  {
    hide Start;
    last := head;
    ghost var k := 0;
    while last.next != null
      invariant k < |nodes| && last == nodes[k] && LinkedTo(nodes, null)
      invariant Counts(nodes, total + n, 0, k) && Counts(nodes, total, k, |nodes|)
      decreases |nodes| - k
    {
      last.totLen := last.totLen + n;
      last := last.next;
      k := k + 1;
    }
    last.totLen := last.totLen + n;
  }

  lemma ApartObjects(nodes: seq<Pbuf>, more: seq<Pbuf>)
    requires Apart(nodes, more)
    ensures forall i :: 0 <= i < |nodes| ==> nodes[i] !in Footprint(more)
  {
  }

  lemma HeadCounts(nodes: seq<Pbuf>, bytes: string)
    requires |nodes| > 0 && Chain(nodes, bytes)
    ensures nodes[0].totLen == |bytes| && nodes[0] in Footprint(nodes)
  {
    Node(nodes, bytes, 0);
  }

  /** From node `from` up to node `end`, totLen is what is left of `total` bytes. */
  ghost predicate Counts(nodes: seq<Pbuf>, total: nat, from: nat, end: nat)
    requires from <= end <= |nodes|
    reads nodes
  {
    forall i {:trigger nodes[i].totLen} :: from <= i < end ==> nodes[i].totLen == total - Start(nodes, i)
  }

  /** The payloads are the pieces of `bytes`. */
  ghost predicate Holds(nodes: seq<Pbuf>, bytes: string)
    reads Payloads(nodes)
  {
    forall i {:trigger nodes[i].payload} :: 0 <= i < |nodes| ==> HoldsAt(nodes[i].payload, bytes, Start(nodes, i))
  }

  ghost predicate HoldsAt(payload: array<char>, bytes: string, start: nat)
    reads payload
  {
    start + payload.Length <= |bytes| && payload[..] == bytes[start..start + payload.Length]
  }

  /** Every node points to the next, the last one to `end`. */
  ghost predicate LinkedTo(nodes: seq<Pbuf>, end: Pbuf?)
    reads nodes
  {
    forall i {:trigger nodes[i].next} :: 0 <= i < |nodes| ==>
      nodes[i].next == if i + 1 < |nodes| then nodes[i + 1] else end
  }

  lemma ChainParts(nodes: seq<Pbuf>, bytes: string)
    requires Chain(nodes, bytes)
    ensures Counts(nodes, |bytes|, 0, |nodes|) && LinkedTo(nodes, null) && Holds(nodes, bytes)
    ensures Distinct(nodes) && Start(nodes, |nodes|) == |bytes|
  {
    forall i | 0 <= i < |nodes|
      ensures nodes[i].totLen == |bytes| - Start(nodes, i)
        && nodes[i].next == (if i + 1 < |nodes| then nodes[i + 1] else null)
      ensures HoldsAt(nodes[i].payload, bytes, Start(nodes, i))
    {
      assert NodeAt(nodes, bytes, i);
    }
  }

  lemma Catenated(nodes: seq<Pbuf>, bytes: string, more: seq<Pbuf>, tailBytes: string)
    requires |nodes| > 0 && |more| > 0 && Distinct(nodes) && Apart(nodes, more)
    requires Start(nodes, |nodes|) == |bytes| && Counts(nodes, |bytes| + |tailBytes|, 0, |nodes|)
    requires LinkedTo(nodes, more[0]) && Holds(nodes, bytes) && Chain(more, tailBytes)
    ensures Chain(nodes + more, bytes + tailBytes)
  {
    hide NodeAt, Holds, LinkedTo, Counts, Start, Distinct, Apart, Footprint;
    var all := nodes + more;
    DistinctMore(nodes, more);
    forall i | 0 <= i < |all| ensures NodeAt(all, bytes + tailBytes, i) {
      if i < |nodes| {
        FirstNode(nodes, bytes, more, tailBytes, i);
      } else {
        SecondNode(nodes, bytes, more, tailBytes, i - |nodes|);
      }
    }
    StartOfMore(nodes, more, |all|);
  }

  lemma DistinctMore(nodes: seq<Pbuf>, more: seq<Pbuf>)
    requires Distinct(nodes) && Distinct(more) && Apart(nodes, more)
    ensures Distinct(nodes + more)
  {
  }

  lemma FirstNode(nodes: seq<Pbuf>, bytes: string, more: seq<Pbuf>, tailBytes: string, i: nat)
    requires i < |nodes| && |more| > 0 && Counts(nodes, |bytes| + |tailBytes|, 0, |nodes|)
    requires LinkedTo(nodes, more[0]) && Holds(nodes, bytes)
    ensures NodeAt(nodes + more, bytes + tailBytes, i)
  {
    StartOfMore(nodes, more, i);
    assert HoldsAt(nodes[i].payload, bytes, Start(nodes, i));
    var start, n := Start(nodes, i), nodes[i].payload.Length;
    assert (bytes + tailBytes)[start..start + n] == bytes[start..start + n];
  }

  lemma SecondNode(nodes: seq<Pbuf>, bytes: string, more: seq<Pbuf>, tailBytes: string, j: nat)
    requires j < |more| && Start(nodes, |nodes|) == |bytes| && Chain(more, tailBytes)
    ensures NodeAt(nodes + more, bytes + tailBytes, |nodes| + j)
  {
    hide Start;
    var all, i, p := nodes + more, |nodes| + j, more[j];
    StartOfMore(nodes, more, i);
    StartOfFirst(more);
    var start, n := Start(more, j), p.payload.Length;
    assert NodeAt(more, tailBytes, j);
    assert all[i] == p && Start(all, i) == |bytes| + start;
    assert j + 1 < |more| ==> all[i + 1] == more[j + 1];
    SliceOfMore(bytes, tailBytes, start, start + n);
  }

  lemma SliceOfMore(a: string, b: string, from: nat, end: nat)
    requires from <= end <= |b|
    ensures (a + b)[|a| + from..|a| + end] == b[from..end]
  {
  }

  function Overwrite(bytes: string, at: nat, chunk: string): (r: string)
    requires at + |chunk| <= |bytes|
    ensures |r| == |bytes|
  {
    bytes[..at] + chunk + bytes[at + |chunk|..]
  }

  lemma OverwriteElsewhere(bytes: string, at: nat, chunk: string, from: nat, end: nat)
    requires at + |chunk| <= |bytes| && from <= end <= |bytes|
    requires end <= at || at + |chunk| <= from
    ensures Overwrite(bytes, at, chunk)[from..end] == bytes[from..end]
  {
  }

  /** `memcpy` into one node: the chain's bytes are overwritten at the node's place. */
  method CopyInto(p: Pbuf, used: nat, chunk: string, ghost nodes: seq<Pbuf>, ghost bytes: string, ghost k: nat)
    requires Chain(nodes, bytes) && k < |nodes| && nodes[k] == p && used + |chunk| <= p.payload.Length
    modifies p.payload
    ensures Start(nodes, k) + used + |chunk| <= |bytes|
    ensures Chain(nodes, Overwrite(bytes, Start(nodes, k) + used, chunk))
  {
    hide Start, Footprint, Overwrite;
    ChainParts(nodes, bytes);
    ghost var was := p.payload[..];
    assert HoldsAt(p.payload, bytes, Start(nodes, k));
    forall i | 0 <= i < |chunk| {
      p.payload[used + i] := chunk[i];
    }
    ghost var now := Overwrite(bytes, Start(nodes, k) + used, chunk);
    CopiedNode(was, bytes, Start(nodes, k), used, chunk, p.payload[..]);
    forall i | 0 <= i < |nodes| && i != k ensures HoldsAt(nodes[i].payload, bytes, Start(nodes, i)) {
    }
    CopiedChain(nodes, bytes, k, used, chunk, now);
  }

  lemma CopiedChain(nodes: seq<Pbuf>, bytes: string, k: nat, used: nat, chunk: string, now: string)
    requires k < |nodes| && used + |chunk| <= nodes[k].payload.Length && Start(nodes, k) + used + |chunk| <= |bytes|
    requires Distinct(nodes) && Start(nodes, |nodes|) == |bytes|
    requires Counts(nodes, |bytes|, 0, |nodes|) && LinkedTo(nodes, null)
    requires now == Overwrite(bytes, Start(nodes, k) + used, chunk) && HoldsAt(nodes[k].payload, now, Start(nodes, k))
    requires forall i :: 0 <= i < |nodes| && i != k ==> HoldsAt(nodes[i].payload, bytes, Start(nodes, i))
    ensures Chain(nodes, now)
  {
    hide Overwrite, Start;
    forall i | 0 <= i < |nodes| ensures NodeAt(nodes, now, i) {
      if i != k {
        assert HoldsAt(nodes[i].payload, bytes, Start(nodes, i));
        StartsAscend(nodes, if i < k then i else k, if i < k then k else i);
        OverwriteElsewhere(bytes, Start(nodes, k) + used, chunk, Start(nodes, i),
          Start(nodes, i) + nodes[i].payload.Length);
      }
    }
  }

  lemma CopiedNode(was: string, bytes: string, start: nat, used: nat, chunk: string, now: string)
    requires start + |was| <= |bytes| && was == bytes[start..start + |was|] && used + |chunk| <= |was|
    requires |now| == |was|
    requires forall i :: 0 <= i < |was| ==> now[i] == if used <= i < used + |chunk| then chunk[i - used] else was[i]
    ensures now == Overwrite(bytes, start + used, chunk)[start..start + |was|]
  {
  }

  /** `memcpy` from the start of one payload into another. */
  method MemCopy(dst: array<char>, at: nat, src: array<char>, n: nat)
    requires dst != src && at + n <= dst.Length && n <= src.Length
    modifies dst
    ensures dst[..at + n] == old(dst[..at]) + src[..n]
  {
    forall i | 0 <= i < n {
      dst[at + i] := src[i];
    }
  }

  /** Received data as lwIP delivers it: one node. */
  method Deliver(data: string) returns (pb: Pbuf)
    ensures fresh(pb) && fresh(pb.payload)
    ensures pb.next == null && pb.totLen == pb.payload.Length == |data| && pb.payload[..] == data
    ensures Chain([pb], data) && Footprint([pb]) == {pb, pb.payload}
  {
    pb := new Pbuf(|data|);
    forall i | 0 <= i < |data| {
      pb.payload[i] := data[i];
    }
    assert pb.payload[..] == data;
    SingleNode(pb);
  }
}

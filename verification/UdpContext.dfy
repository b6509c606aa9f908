/** A UDP endpoint: a transmit chain filled by `append` and emptied by `send`,
    and a receive chain of datagrams. */
module Udp {
  import Strings

  import opened Pbufs

  const UNIT := 128  // pbuf_unit_size
  const MAX_TX := 0xFF80  // the largest multiple of 128 that totLen's 16 bits hold

  datatype Datagram = Datagram(address: nat, port: nat, ttl: nat, payload: string)

  /** The least multiple of 128 that is not below n. */
  function RoundUp(n: nat): (r: nat)
    ensures r % 128 == 0 && n <= r < n + 128
  {
    (n + UNIT - 1) / UNIT * UNIT
  }

  /** The transmit half. */
  class UdpSender {
    var txHead: Pbuf?
    var txCur: Pbuf?
    var txOffset: nat

    var destAddress: nat
    var destPort: nat
    var ttl: nat
    var multicastTtl: nat
    var sent: seq<Datagram>  // what was handed to the network

    ghost var nodes: seq<Pbuf>
    ghost var bytes: string  // everything in the chain; what lies behind txOffset is not yet written
    ghost var cur: nat  // position of txCur
    ghost var repr: set<object>

    ghost predicate Valid()
      reads this, repr
    {
      && Footprint(nodes) == repr && this !in repr && Chain(nodes, bytes)
      && txOffset <= |bytes| <= MAX_TX && |bytes| % UNIT == 0
      && (nodes == [] ==> txHead == null && txCur == null)
      && (nodes != [] ==> txHead == nodes[0] && cur < |nodes| && txCur == nodes[cur])
      && (nodes != [] ==> Start(nodes, cur) <= txOffset <= Start(nodes, cur) + nodes[cur].payload.Length)
    }

    /** What was appended and not yet sent. */
    ghost function Pending(): string
      requires Valid()
      reads this, repr
    {
      bytes[..txOffset]
    }

    constructor ()
      ensures Valid() && nodes == [] && repr == {} && Pending() == "" && sent == []
      ensures destAddress == destPort == 0
    {
      txHead, txCur, txOffset := null, null, 0;
      destAddress, destPort, ttl, multicastTtl := 0, 0, 0, 1;
      sent, nodes, bytes, cur, repr := [], [], "", 0, {};
    }

    method Connect(address: nat, port: nat)
      modifies this`destAddress, this`destPort
      ensures destAddress == address && destPort == port
    {
      destAddress, destPort := address, port;
    }

    /** `_reserve`: grows the chain in units of 128 bytes; what is pending stays. */
    method Reserve(size: nat)
      requires Valid() && txOffset <= size <= MAX_TX
      modifies this`txHead, this`txCur, this`txOffset, this`nodes, this`bytes, this`cur, this`repr, repr
      ensures Valid() && nodes != [] && fresh(repr - old(repr))
      ensures Pending() == old(Pending())
      ensures var capacity := if old(nodes) == [] then UNIT else |old(bytes)|;
        |bytes| == if size <= capacity then capacity else RoundUp(size)
    {
      hide Chain, NodeAt, Footprint, Distinct, Start;
      HeadStarts();
      if txHead == null {
        FirstUnit();
      }
      HeadStarts();
      var curSize := txHead.totLen;
      if size < curSize { return; }
      var growSize := size - curSize;
      ghost var capacity := |bytes|;
      while growSize > 0
        invariant Valid() && nodes != [] && fresh(repr - old(repr))
        invariant Pending() == old(Pending()) && growSize + |bytes| == size
        invariant |bytes| >= capacity && growSize >= 0
      {
        Extend();
        if growSize < UNIT {
          SameMultiple(|bytes|, size);
          return;
        }
        growSize := growSize - UNIT;
      }
      SameMultiple(|bytes|, size);
    }

    /** The first node of an empty chain. */
    method FirstUnit()
      requires Valid() && nodes == []
      modifies this`txHead, this`txCur, this`txOffset, this`nodes, this`bytes, this`cur, this`repr
      ensures Valid() && nodes != [] && fresh(repr) && |bytes| == UNIT && Pending() == ""
    {
      hide Chain, NodeAt, Distinct;
      EmptyChain(bytes);
      var pb := new Pbuf(UNIT);
      txHead, txCur, txOffset := pb, pb, 0;
      SingleNode(pb);
      nodes, bytes, cur, repr := [pb], pb.payload[..], 0, {pb, pb.payload};
    }

    lemma HeadStarts()
      requires Valid()
      ensures nodes == [] ==> bytes == ""
      ensures nodes != [] ==> txHead.totLen == |bytes| && txHead in repr && txCur in repr && txCur.payload in repr
      ensures nodes != [] ==> Start(nodes, cur) == |bytes| - txCur.totLen
      ensures nodes != [] ==> Start(nodes, cur + 1) == Start(nodes, cur) + txCur.payload.Length
      ensures nodes != [] ==> txCur.next == if cur + 1 < |nodes| then nodes[cur + 1] else null
    {
      hide Chain, Distinct, Footprint, Start;
      ChainLength(nodes, bytes);
      StartOfFirst(nodes);
      if nodes != [] {
        HeadCounts(nodes, bytes);
        Node(nodes, bytes, cur);
      }
    }

    static lemma SameMultiple(capacity: nat, size: nat)
      requires capacity % UNIT == 0 && size <= capacity < size + UNIT
      ensures capacity == RoundUp(size)
    {
    }

    /** One more node of 128 bytes at the end of the chain. */
    method Extend()
      requires Valid() && nodes != [] && |bytes| + UNIT <= MAX_TX
      modifies this`nodes, this`bytes, this`repr, repr
      ensures Valid() && |nodes| > |old(nodes)| && fresh(repr - old(repr))
      ensures Pending() == old(Pending()) && |bytes| == |old(bytes)| + UNIT
    {
      hide Chain, NodeAt, Footprint, Distinct, Start;
      InFootprint(nodes);
      var pb := new Pbuf(UNIT);
      ghost var more := pb.payload[..];
      SingleNode(pb);
      FootprintOfMore(nodes, [pb]);
      PbufCat(txHead, pb, nodes, bytes, [pb], more);
      StartOfMore(nodes, [pb], cur);
      nodes, bytes, repr := nodes + [pb], bytes + more, repr + {pb, pb.payload};
      assert bytes[..txOffset] == old(bytes)[..txOffset];
    }

    /** `append` */
    method Append(data: string) returns (size: nat)
      requires Valid() && txOffset + |data| <= MAX_TX
      modifies this`txHead, this`txCur, this`txOffset, this`nodes, this`bytes, this`cur, this`repr, repr
      ensures Valid() && nodes != [] && fresh(repr - old(repr))
      ensures size == |data| && Pending() == old(Pending()) + data
      ensures var capacity, need := if old(nodes) == [] then UNIT else |old(bytes)|, old(txOffset) + |data|;
        |bytes| == if need <= capacity then capacity else RoundUp(need)
    {
      hide Chain, NodeAt, Footprint, Distinct, Start, Overwrite;
      size := |data|;
      HeadStarts();
      if txHead == null || txHead.totLen < txOffset + size {
        Reserve(txOffset + size);
      }
      CopyData(data);
    }

    /** The copy loop of `append`: it stays within the chain and the current node. */
    method CopyData(data: string)
      requires Valid() && nodes != [] && txOffset + |data| <= |bytes|
      modifies this`txCur, this`txOffset, this`bytes, this`cur, repr
      ensures Valid() && Pending() == old(Pending()) + data && |bytes| == |old(bytes)|
    {
      hide Chain, NodeAt, Footprint, Distinct, Start, Overwrite;
      var leftToCopy, from := |data|, 0;
      assert data[..0] == "";
      while leftToCopy > 0
        invariant Valid() && |bytes| == |old(bytes)|
        invariant 0 <= leftToCopy && from + leftToCopy == |data| && txOffset + leftToCopy <= |bytes|
        invariant Pending() == old(Pending()) + data[..from]
        decreases leftToCopy, |nodes| - cur
      {
        HeadStarts();
        var usedCur := txOffset - (txHead.totLen - txCur.totLen);
        var freeCur := txCur.payload.Length - usedCur;
        if freeCur == 0 {
          NextNode();
          continue;
        }
        var willCopy := if leftToCopy < freeCur then leftToCopy else freeCur;
        Copy(usedCur, data[from..from + willCopy]);
        assert data[..from] + data[from..from + willCopy] == data[..from + willCopy];
        leftToCopy, from := leftToCopy - willCopy, from + willCopy;
      }
      assert data[..from] == data;
    }

    /** The current node is full and more is to be copied: there is a next one. */
    method NextNode()
      requires Valid() && nodes != [] && txOffset < |bytes|
      requires txOffset == Start(nodes, cur) + nodes[cur].payload.Length
      modifies this`txCur, this`cur
      ensures Valid() && cur == old(cur) + 1 && Pending() == old(Pending())
    {
      HeadStarts();
      assert Start(nodes, |nodes|) == |bytes|;
      txCur := txCur.next;
      cur := cur + 1;
      assert NodeAt(nodes, bytes, cur);
    }

    /** Copies behind what the current node already holds. */
    method Copy(usedCur: nat, chunk: string)
      requires Valid() && nodes != [] && usedCur == txOffset - Start(nodes, cur)
      requires usedCur + |chunk| <= nodes[cur].payload.Length
      modifies this`txOffset, this`bytes, repr
      ensures Valid() && Pending() == old(Pending()) + chunk && |bytes| == |old(bytes)|
    {
      hide Chain, NodeAt, Footprint, Distinct;
      InFootprint(nodes);
      CopyInto(txCur, usedCur, chunk, nodes, bytes, cur);
      bytes := Overwrite(bytes, txOffset, chunk);
      assert bytes[..txOffset + |chunk|] == old(bytes)[..txOffset] + chunk;
      txOffset := txOffset + |chunk|;
    }

    /** `send`: one datagram with exactly what is pending goes to `target` or the connected address,
        with the multicast TTL for a multicast address; then nothing is pending and the TTL is as before. */
    method Send(target: Target, multicast: bool, accepted: bool) returns (ok: bool)
      requires Valid()
      modifies this`txHead, this`txCur, this`txOffset, this`nodes, this`bytes, this`cur, this`repr, this`sent, this`ttl
      ensures Valid() && nodes == [] && Pending() == "" && ok == accepted && ttl == old(ttl)
      ensures var (address, port) := if target.Connected? then (destAddress, destPort)
        else (target.address, target.port);
        sent == old(sent) + [Datagram(address, port, if multicast then multicastTtl else ttl, old(Pending()))]
    {
      hide Chain, NodeAt, Footprint, Distinct, Start;
      var payload := CollectPending();
      FreeChain();
      var (address, port) := if target.Connected? then (destAddress, destPort) else (target.address, target.port);
      var oldTtl := ttl;
      if multicast {
        ttl := multicastTtl;
      }
      sent := sent + [Datagram(address, port, ttl, payload)];
      ttl := oldTtl;
      ok := accepted;
    }

    method FreeChain()
      modifies this`txHead, this`txCur, this`txOffset, this`nodes, this`bytes, this`cur, this`repr
      ensures Valid() && nodes == [] && Pending() == ""
    {
      hide Chain, NodeAt, Footprint, Distinct, Start;
      EmptyChain("");
      txHead, txCur, txOffset := null, null, 0;
      nodes, bytes, cur, repr := [], "", 0, {};
    }

    /** Copies the used part of the chain, node by node, into one buffer. */
    method CollectPending() returns (payload: string)
      requires Valid()
      ensures payload == Pending()
    {
      hide Chain, NodeAt, Footprint, Distinct, Start;
      ChainLength(nodes, bytes);
      StartOfFirst(nodes);
      var txCopy := new Pbuf(txOffset);
      var dataSize, dst := txOffset, 0;
      var p := txHead;
      ghost var k := 0;
      while p != null
        invariant k <= |nodes| && p == if k < |nodes| then nodes[k] else null
        invariant 0 <= dst && 0 <= dataSize && dst + dataSize == txOffset == txCopy.payload.Length
        invariant dst == if Start(nodes, k) < txOffset then Start(nodes, k) else txOffset
        invariant txCopy.payload[..dst] == bytes[..dst]
        invariant Valid()
        decreases |nodes| - k
      {
        NodeLink(nodes, bytes, k);
        var willCopy := if dataSize < p.payload.Length then dataSize else p.payload.Length;
        if willCopy > 0 {
          NodePrefix(nodes, bytes, k, willCopy);
        }
        MemCopy(txCopy.payload, dst, p.payload, willCopy);
        dst, dataSize := dst + willCopy, dataSize - willCopy;
        p := p.next;
        k := k + 1;
      }
      payload := txCopy.payload[..];
    }
  }

  /** The receive half.  `arrived` and `taken` record the run: every datagram that came in,
      and how many of them `next` has made current. */
  class UdpReceiver {
    var rxBuf: Pbuf?
    var firstBufTaken: bool
    var rxOffset: nat

    ghost var nodes: seq<Pbuf>
    ghost var bytes: string
    ghost var repr: set<object>
    ghost var arrived: seq<string>
    ghost var taken: nat

    ghost predicate Valid()
      reads this, repr
    {
      && Footprint(nodes) == repr && this !in repr && Chain(nodes, bytes)
      && (nodes == [] ==> rxBuf == null)
      && (nodes != [] ==> rxBuf == nodes[0] && rxOffset <= rxBuf.payload.Length)
      && |nodes| <= |arrived|
      && (forall i :: 0 <= i < |nodes| ==> nodes[i].payload[..] == arrived[|arrived| - |nodes| + i])
      && taken == |arrived| - |nodes| + if nodes != [] && firstBufTaken then 1 else 0
    }

    /** The unread bytes of the datagram at the front. */
    ghost function Unread(): string
      requires Valid()
      reads this, repr
    {
      if nodes == [] then "" else arrived[|arrived| - |nodes|][rxOffset..]
    }

    constructor ()
      ensures Valid() && arrived == [] && taken == 0 && Unread() == "" && nodes == [] && repr == {}
    {
      rxBuf, firstBufTaken, rxOffset := null, false, 0;
      nodes, bytes, repr, arrived, taken := [], "", {}, [], 0;
    }

    /** `_recv`: a datagram arrives.  It waits behind those that came before. */
    method Recv(pb: Pbuf)
      requires Valid() && pb.next == null && pb.totLen == pb.payload.Length
      requires pb !in repr && pb.payload !in repr
      modifies this, repr
      ensures Valid() && repr == old(repr) + {pb, pb.payload}
      ensures arrived == old(arrived) + [old(pb.payload[..])] && taken == old(taken)
      ensures Unread() == if old(nodes) == [] then old(pb.payload[..]) else old(Unread())
      ensures |nodes| == |old(nodes)| + 1
    {
      hide Chain, NodeAt, Footprint, Distinct, Start;
      InFootprint(nodes);
      SingleNode(pb);
      FootprintOfMore(nodes, [pb]);
      ghost var datagram := pb.payload[..];
      if rxBuf != null {
        PbufCat(rxBuf, pb, nodes, bytes, [pb], datagram);
      } else {
        firstBufTaken := false;
        rxBuf := pb;
        rxOffset := 0;
        assert nodes + [pb] == [pb] && bytes + datagram == datagram by {
          EmptyChain(bytes);
        }
      }
      nodes, bytes, repr := nodes + [pb], bytes + datagram, repr + {pb, pb.payload};
      arrived := arrived + [datagram];
    }

    /** `next`: succeeds if and only if a datagram has arrived that was not yet taken, and then
        makes the oldest such datagram current, from its first byte unless bytes were read before. */
    method Next() returns (ok: bool)
      requires Valid()
      modifies this
      ensures Valid() && arrived == old(arrived) && repr <= old(repr) && ok == (old(taken) < |arrived|)
      ensures taken == old(taken) + if ok then 1 else 0
      ensures ok ==> nodes != [] && taken == |arrived| - |nodes| + 1
      ensures ok && old(nodes != [] && firstBufTaken) ==> Unread() == arrived[taken - 1]
      ensures ok && !old(nodes != [] && firstBufTaken) ==> Unread() == old(Unread())
      ensures !ok ==> nodes == [] && Unread() == ""
    {
      hide Chain, NodeAt, Footprint, Distinct, Start;
      if rxBuf == null {
        return false;
      }
      Node(nodes, bytes, 0);
      if !firstBufTaken {
        firstBufTaken := true;
        taken := taken + 1;
        return true;
      }
      DropHead(nodes, bytes);
      ghost var rest, tail := nodes[1..], bytes[nodes[0].payload.Length..];
      rxBuf := rxBuf.next;
      rxOffset := 0;
      taken := taken + if rest != [] then 1 else 0;
      nodes, bytes, repr := rest, tail, Footprint(rest);
      ok := rxBuf != null;
    }

    /** `read` of one byte; -1 of the original is `ok == false`. */
    method ReadByte() returns (ok: bool, c: char)
      requires Valid()
      modifies this`rxOffset
      ensures Valid() && ok == (old(Unread()) != "")
      ensures if ok then [c] + Unread() == old(Unread()) else Unread() == old(Unread())
    {
      hide Chain, NodeAt, Footprint, Distinct, Start;
      c := '\0';
      if rxBuf == null || rxOffset == rxBuf.payload.Length {
        return false, c;
      }
      assert rxBuf.payload[..] == arrived[|arrived| - |nodes|];
      c := rxBuf.payload[rxOffset];
      Consume(1);
      ok := true;
    }

    /** `read` into a buffer: as many bytes as asked for, but none of the next datagram. */
    method Read(size: nat) returns (dst: string)
      requires Valid()
      modifies this`rxOffset
      ensures Valid() && dst + Unread() == old(Unread())
      ensures |dst| == if size < |old(Unread())| then size else |old(Unread())|
    {
      hide Chain, NodeAt, Footprint, Distinct, Start;
      if rxBuf == null {
        return "";
      }
      assert rxBuf.payload[..] == arrived[|arrived| - |nodes|];
      var maxSize := rxBuf.payload.Length - rxOffset;
      var n := if size < maxSize then size else maxSize;
      dst := rxBuf.payload[rxOffset..rxOffset + n];
      Consume(n);
    }

    /** `flush`: drops what is left of the current datagram, and nothing else. */
    method Flush()
      requires Valid()
      modifies this`rxOffset
      ensures Valid() && Unread() == ""
    {
      hide Chain, NodeAt, Footprint, Distinct, Start;
      if rxBuf != null {
        assert rxBuf.payload[..] == arrived[|arrived| - |nodes|];
        Consume(rxBuf.payload.Length - rxOffset);
      }
    }

    method Consume(size: nat)
      modifies this`rxOffset
      ensures rxOffset == old(rxOffset) + size
    {
      rxOffset := rxOffset + size;
    }
  }

  /** Where `send` is told to send to. */
  datatype Target = Connected | Explicit(address: nat, port: nat)

  datatype SendOp =
    | Connect(address: nat, port: nat)
    | Append(data: string)
    | Send(target: Target, multicast: bool, accepted: bool)

  /** What a run of the endpoint has sent and has pending, without any chain. */
  datatype Abstract = Abstract(sent: seq<Datagram>, pending: string, address: nat, port: nat)

  function Do(a: Abstract, op: SendOp, ttl: nat, multicastTtl: nat): Abstract {
    match op
    case Connect(address, port) => a.(address := address, port := port)
    case Append(data) => a.(pending := a.pending + data)
    case Send(target, multicast, _) =>
      var (address, port) := if target.Connected? then (a.address, a.port) else (target.address, target.port);
      a.(sent := a.sent + [Datagram(address, port, if multicast then multicastTtl else ttl, a.pending)], pending := "")
  }

  function DoAll(a: Abstract, ops: seq<SendOp>, ttl: nat, multicastTtl: nat): Abstract {
    if |ops| == 0 then a else Do(DoAll(a, ops[..|ops| - 1], ttl, multicastTtl), ops[|ops| - 1], ttl, multicastTtl)
  }

  /** No append of the run takes the chain past what 16 bits can count. */
  predicate Fits(a: Abstract, ops: seq<SendOp>, ttl: nat, multicastTtl: nat) {
    forall n :: 0 <= n <= |ops| ==> |DoAll(a, ops[..n], ttl, multicastTtl).pending| <= MAX_TX
  }

  /** Every run of the chain is a run of the two plain byte strings. */
  method Run(ops: seq<SendOp>, ttl: nat, multicastTtl: nat) returns (udp: UdpSender)
    requires Fits(Abstract([], "", 0, 0), ops, ttl, multicastTtl)
    ensures udp.Valid()
    ensures Abstract(udp.sent, udp.Pending(), udp.destAddress, udp.destPort)
      == DoAll(Abstract([], "", 0, 0), ops, ttl, multicastTtl)
  {
    hide Chain, NodeAt, Footprint, Start;
    ghost var start := Abstract([], "", 0, 0);
    udp := new UdpSender();
    udp.ttl, udp.multicastTtl := ttl, multicastTtl;
    for n := 0 to |ops|
      invariant udp.Valid() && udp.ttl == ttl && udp.multicastTtl == multicastTtl && fresh(udp) && fresh(udp.repr)
      invariant Abstract(udp.sent, udp.Pending(), udp.destAddress, udp.destPort)
        == DoAll(start, ops[..n], ttl, multicastTtl)
    {
      assert ops[..n + 1][..n] == ops[..n] && ops[..n + 1][n] == ops[n];
      assert |DoAll(start, ops[..n + 1], ttl, multicastTtl).pending| <= MAX_TX;
      match ops[n] {
        case Connect(address, port) => udp.Connect(address, port);
        case Append(data) => var _ := udp.Append(data);
        case Send(target, multicast, accepted) => var _ := udp.Send(target, multicast, accepted);
      }
    }
    assert ops[..|ops|] == ops;
  }

  /** Sending after any appends emits exactly their concatenation. */
  lemma {:induction false} AppendsThenSend(a: Abstract, datas: seq<string>, target: Target, multicast: bool, ttl: nat,
      multicastTtl: nat)
    requires a.pending == ""
    ensures var appends := seq(|datas|, i requires 0 <= i < |datas| => Append(datas[i]));
      var (address, port) := if target.Connected? then (a.address, a.port) else (target.address, target.port);
      DoAll(a, appends + [Send(target, multicast, true)], ttl, multicastTtl)
      == a.(sent := a.sent + [Datagram(address, port, if multicast then multicastTtl else ttl, Strings.Concat(datas))])
  {
    var appends := seq(|datas|, i requires 0 <= i < |datas| => Append(datas[i]));
    var all := appends + [Send(target, multicast, true)];
    assert all[..|all| - 1] == appends;
    PendingAfterAppends(a, datas, ttl, multicastTtl);
  }

  lemma {:induction false} PendingAfterAppends(a: Abstract, datas: seq<string>, ttl: nat, multicastTtl: nat)
    requires a.pending == ""
    ensures DoAll(a, seq(|datas|, i requires 0 <= i < |datas| => Append(datas[i])), ttl, multicastTtl)
      == a.(pending := Strings.Concat(datas))
  {
    var n := |datas|;
    if n > 0 {
      PendingAfterAppends(a, datas[..n - 1], ttl, multicastTtl);
      var appends := seq(n, i requires 0 <= i < n => Append(datas[i]));
      assert appends[..n - 1] == seq(n - 1, i requires 0 <= i < n - 1 => Append(datas[..n - 1][i]));
    }
  }
}

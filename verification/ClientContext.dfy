/** One TCP connection: the receive chain, the window credit given back for it, and its reference count. */
module Tcp {
  import Strings

  import opened Pbufs

  class ClientContext {
    var connected: bool  // there is a protocol control block
    var rxBuf: Pbuf?
    var rxOffset: nat
    var refcnt: nat
    var next: ClientContext?  // link of the accept queue
    var freed: bool

    var credit: nat  // bytes reported to tcp_recved

    ghost var nodes: seq<Pbuf>
    ghost var bytes: string
    ghost var repr: set<object>
    ghost var received: string  // everything that arrived
    ghost var delivered: string  // everything read or flushed

    ghost predicate Valid()
      reads this, repr
    {
      this !in repr && Queue() && Accounts()
    }

    /** The receive chain; a node that is used up is not kept. */
    ghost predicate Queue()
      reads this`rxBuf, this`rxOffset, this`nodes, this`bytes, this`repr, repr
    {
      && Footprint(nodes) == repr && Chain(nodes, bytes) && Positive(nodes)
      && (nodes == [] ==> rxBuf == null && rxOffset == 0)
      && (nodes != [] ==> rxBuf == nodes[0] && rxOffset < rxBuf.payload.Length <= |bytes|)
    }

    /** Nothing is lost or repeated; what was received is credited or still in the chain. */
    ghost predicate Accounts()
      reads this`connected, this`rxOffset, this`bytes, this`credit, this`received, this`delivered
    {
      && rxOffset <= |bytes| && received == delivered + bytes[rxOffset..]
      && credit + |bytes| <= |received|
      && (connected ==> credit + |bytes| == |received|)
    }

    ghost predicate Positive(nodes: seq<Pbuf>) {
      forall i :: 0 <= i < |nodes| ==> nodes[i].payload.Length > 0
    }

    ghost function Unread(): string
      requires Valid()
      reads this, repr
    {
      bytes[rxOffset..]
    }

    constructor ()
      ensures Valid() && connected && refcnt == 0 && next == null && !freed
      ensures received == "" && delivered == "" && credit == 0 && repr == {}
    {
      connected, rxBuf, rxOffset, refcnt, next, freed := true, null, 0, 0, null, false;
      credit, nodes, bytes, repr, received, delivered := 0, [], "", {}, "", "";
      new;
      EmptyChain("");
    }

    lemma Sizes()
      requires Valid()
      ensures nodes == [] ==> bytes == "" && rxBuf == null && rxOffset == 0
      ensures nodes != [] ==> rxBuf != null && rxBuf.totLen == |bytes| && rxOffset < rxBuf.payload.Length <= |bytes|
      ensures |Unread()| == |bytes| - rxOffset
    {
      if nodes == [] {
        EmptyChain(bytes);
      } else {
        HeadCounts(nodes, bytes);
      }
    }

    /** `getSize` */
    method GetSize() returns (size: nat)
      requires Valid()
      ensures size == |Unread()|
    {
      Sizes();
      size := if rxBuf == null then 0 else rxBuf.totLen - rxOffset;
    }

    /** `_recv` with data: the new chain waits behind the unread bytes. */
    method Recv(pb: Pbuf, ghost more: seq<Pbuf>, ghost data: string)
      requires Valid() && connected
      requires |more| > 0 && more[0] == pb && Chain(more, data) && Positive(more)
      requires Footprint(more) !! repr && this !in Footprint(more)
      modifies this`rxBuf, this`rxOffset, this`nodes, this`bytes, this`repr, this`received, repr
      ensures Valid() && repr == old(repr) + Footprint(more)
      ensures received == old(received) + data && Unread() == old(Unread()) + data
    {
      hide Chain, Start, NodeAt, Footprint, Apart;
      Sizes();
      ApartIfDisjoint(nodes, more);
      FootprintOfMore(nodes, more);
      HeadFits(more, data);
      if rxBuf != null {
        PbufCat(rxBuf, pb, nodes, bytes, more, data);
      } else {
        rxBuf := pb;
        rxOffset := 0;
        assert nodes + more == more && bytes + data == data;
      }
      assert (bytes + data)[rxOffset..] == bytes[rxOffset..] + data;
      Strings.Associate(delivered, bytes[rxOffset..], data);
      nodes, bytes, repr, received := nodes + more, bytes + data, repr + Footprint(more), received + data;
    }

    /** `_recv` without data, or `abort`: the peer closed; unread bytes stay readable. */
    method Abort()
      modifies this`connected
      ensures !connected
      ensures old(Valid()) ==> Valid() && Unread() == old(Unread())
    {
      connected := false;
    }

    /** `_consume`: size bytes of the first node are done with; a node used up is dropped and credited. */
    method ConsumeBytes(size: nat)
      requires Valid() && nodes != [] && rxOffset + size <= rxBuf.payload.Length
      modifies this`rxBuf, this`rxOffset, this`credit, this`nodes, this`bytes, this`repr, this`delivered
      ensures Valid() && repr <= old(repr) && |nodes| <= |old(nodes)| && size <= |old(Unread())|
      ensures Unread() == old(Unread())[size..] && delivered == old(delivered) + old(Unread())[..size]
    {
      hide Queue, Accounts;
      Sizes();
      var left := rxBuf.payload.Length - rxOffset - size;
      if left > 0 {
        Advance(size);
      } else {
        DropFirst();
      }
    }

    /** Part of the first node is used. */
    method Advance(size: nat)
      requires Valid() && nodes != [] && rxOffset + size < rxBuf.payload.Length
      modifies this`rxOffset, this`delivered
      ensures Valid() && size <= |old(Unread())|
      ensures Unread() == old(Unread())[size..] && delivered == old(delivered) + old(Unread())[..size]
    {
      hide Chain, Footprint;
      MoveOn(bytes, rxOffset, size);
      Strings.Associate(delivered, bytes[rxOffset..][..size], bytes[rxOffset + size..]);
      delivered := delivered + bytes[rxOffset..][..size];
      rxOffset := rxOffset + size;
    }

    static lemma MoveOn(bytes: string, offset: nat, size: nat)
      requires offset + size <= |bytes|
      ensures bytes[offset..][size..] == bytes[offset + size..]
      ensures bytes[offset..] == bytes[offset..][..size] + bytes[offset + size..]
    {
    }

    /** The first node is used up. */
    method DropFirst()
      requires Valid() && nodes != []
      modifies this`rxBuf, this`rxOffset, this`credit, this`nodes, this`bytes, this`repr, this`delivered
      ensures Valid() && repr <= old(repr) && |nodes| < |old(nodes)|
      ensures var rest := old(rxBuf.payload.Length - rxOffset);
        && rest <= |old(Unread())| && Unread() == old(Unread())[rest..]
        && delivered == old(delivered) + old(Unread())[..rest]
    {
      hide Chain, Start, NodeAt, Footprint, Positive;
      ghost var n := rxBuf.payload.Length;
      RestOfQueue();
      ghost var rest, tail, used := nodes[1..], bytes[n..], bytes[rxOffset..][..n - rxOffset];
      MoveOn(bytes, rxOffset, n - rxOffset);
      Strings.Associate(delivered, used, tail);
      delivered := delivered + used;
      if connected {
        credit := credit + rxBuf.payload.Length;
      }
      rxBuf := rxBuf.next;
      rxOffset := 0;
      nodes, bytes, repr := rest, tail, Footprint(rest);
      assert tail[0..] == tail;
    }

    /** The queue without its first node. */
    lemma RestOfQueue()
      requires Queue() && nodes != []
      ensures var rest, tail := nodes[1..], bytes[rxBuf.payload.Length..];
        && Chain(rest, tail) && Positive(rest) && Footprint(rest) <= repr
        && rxBuf.next == (if rest == [] then null else rest[0])
        && (rest != [] ==> 0 < rest[0].payload.Length <= |tail|)
    {
      hide Chain, Start, NodeAt, Footprint;
      NodeLink(nodes, bytes, 0);
      DropHead(nodes, bytes);
      HeadFits(nodes[1..], bytes[rxBuf.payload.Length..]);
    }

    static lemma HeadFits(nodes: seq<Pbuf>, bytes: string)
      requires Chain(nodes, bytes)
      ensures nodes != [] ==> nodes[0].payload.Length <= |bytes|
    {
      if nodes != [] {
        NodePrefix(nodes, bytes, 0, nodes[0].payload.Length);
      }
    }

    /** `read` of one byte, '\\0' when there is none. */
    method ReadByte() returns (c: char)
      requires Valid()
      modifies this`rxBuf, this`rxOffset, this`credit, this`nodes, this`bytes, this`repr, this`delivered
      ensures Valid()
      ensures if old(Unread()) == "" then c == '\0' && Unread() == ""
              else [c] + Unread() == old(Unread()) && delivered == old(delivered) + [c]
    {
      hide Chain, Start, NodeAt, Footprint;
      Sizes();
      if rxBuf == null {
        return '\0';
      }
      FirstByte();
      c := rxBuf.payload[rxOffset];
      ConsumeBytes(1);
    }

    lemma FirstByte()
      requires Valid() && nodes != []
      ensures Unread() != "" && Unread()[0] == rxBuf.payload[rxOffset]
    {
      NodePrefix(nodes, bytes, 0, rxBuf.payload.Length);
      StartOfFirst(nodes);
      assert rxBuf.payload[rxOffset] == rxBuf.payload[..rxBuf.payload.Length][rxOffset];
    }

    /** The first n unread bytes lie in the first node. */
    lemma FirstBytes(n: nat)
      requires Valid() && nodes != [] && rxOffset + n <= rxBuf.payload.Length
      ensures n <= |Unread()| && rxBuf.payload[rxOffset..rxOffset + n] == Unread()[..n]
    {
      NodePrefix(nodes, bytes, 0, rxBuf.payload.Length);
      StartOfFirst(nodes);
      var len := rxBuf.payload.Length;
      assert rxBuf.payload[rxOffset..rxOffset + n] == rxBuf.payload[..len][rxOffset..rxOffset + n];
      assert bytes[0..len][rxOffset..rxOffset + n] == bytes[rxOffset..][..n];
    }

    /** `read` into a buffer, across as many nodes as needed. */
    method Read(size: nat) returns (dst: string)
      requires Valid()
      modifies this`rxBuf, this`rxOffset, this`credit, this`nodes, this`bytes, this`repr, this`delivered
      ensures Valid() && repr <= old(repr)
      ensures dst + Unread() == old(Unread()) && delivered == old(delivered) + dst
      ensures |dst| == if size < |old(Unread())| then size else |old(Unread())|
    {
      hide Queue, Accounts;
      Sizes();
      dst := "";
      if rxBuf == null {
        return;
      }
      var maxSize := rxBuf.totLen - rxOffset;
      var left := if size < maxSize then size else maxSize;
      ghost var unread, asked := Unread(), left;
      hide Unread;
      while left > 0
        invariant Valid() && repr <= old(repr) && 0 <= left && |dst| + left == asked
        invariant dst + Unread() == unread && delivered == old(delivered) + dst
      {
        ghost var before := Unread();
        var piece := ReadPiece(left);
        Strings.Associate(dst, piece, Unread());
        Strings.Associate(old(delivered), dst, piece);
        dst := dst + piece;
        left := left - |piece|;
      }
    }

    /** What the first node can contribute to a read of `left` bytes. */
    method ReadPiece(left: nat) returns (piece: string)
      requires Valid() && 0 < left <= |Unread()|
      modifies this`rxBuf, this`rxOffset, this`credit, this`nodes, this`bytes, this`repr, this`delivered
      ensures Valid() && repr <= old(repr) && 0 < |piece| <= left
      ensures piece + Unread() == old(Unread()) && delivered == old(delivered) + piece
    {
      hide Queue, Accounts;
      Sizes();
      var bufSize := rxBuf.payload.Length - rxOffset;
      var copySize := if left < bufSize then left else bufSize;
      FirstBytes(copySize);
      piece := rxBuf.payload[rxOffset..rxOffset + copySize];
      ConsumeBytes(copySize);
    }

    /** `peek` */
    method Peek() returns (c: char)
      requires Valid()
      ensures c == if Unread() == "" then '\0' else Unread()[0]
    {
      Sizes();
      if rxBuf == null {
        return '\0';
      }
      FirstByte();
      c := rxBuf.payload[rxOffset];
    }

    /** `peekBytes`: looks no further than the first node. */
    method PeekBytes(size: nat) returns (dst: string)
      requires Valid()
      ensures dst <= Unread()
      ensures |dst| == if nodes == [] then 0
                       else if size < nodes[0].payload.Length - rxOffset then size
                       else nodes[0].payload.Length - rxOffset
    {
      Sizes();
      if rxBuf == null {
        return "";
      }
      var maxSize := rxBuf.totLen - rxOffset;
      var asked := if size < maxSize then size else maxSize;
      var bufSize := rxBuf.payload.Length - rxOffset;
      var copySize := if asked < bufSize then asked else bufSize;
      FirstBytes(copySize);
      dst := rxBuf.payload[rxOffset..rxOffset + copySize];
    }

    /** `flush`: all unread bytes are dropped and the whole chain is credited. */
    method Flush()
      modifies this`rxBuf, this`rxOffset, this`credit, this`nodes, this`bytes, this`repr, this`delivered
      ensures old(Valid()) ==> Valid() && Unread() == "" && delivered == old(delivered) + old(Unread()) && bytes == ""
      ensures rxBuf == null
      ensures old(Valid()) && connected ==> credit == |received|
      ensures old(Valid()) ==> delivered == received
    {
      hide Chain, Start, NodeAt, Footprint, Queue;
      if rxBuf == null {
        if Valid() {
          Sizes();
        }
        return;
      }
      if Valid() {
        Sizes();
        delivered := received;
      }
      if connected {
        credit := credit + rxBuf.totLen;
      }
      rxBuf := null;
      rxOffset := 0;
      nodes, bytes, repr := [], "", {};
      NothingQueued();
    }

    lemma NothingQueued()
      requires nodes == [] && bytes == "" && repr == {} && rxBuf == null && rxOffset == 0
      ensures Queue()
    {
      EmptyChain("");
    }

    /** `close` */
    method Close()
      modifies this`connected
      ensures !connected
      ensures old(Valid()) ==> Valid()
    {
      connected := false;
    }

    method Ref()
      modifies this`refcnt
      ensures refcnt == old(refcnt) + 1
      ensures old(Valid()) ==> Valid()
    {
      refcnt := refcnt + 1;
    }

    /** `unref`: the last handle's context is flushed, closed and deleted. */
    method Unref()
      requires refcnt > 0 && !freed
      modifies this
      ensures refcnt == old(refcnt) - 1 && freed == (refcnt == 0) && next == old(next)
      ensures freed ==> !connected && rxBuf == null
      ensures !freed ==> connected == old(connected)
      ensures old(Valid()) ==> Valid()
      ensures old(Valid()) && freed ==> bytes == "" && received == delivered
      ensures old(Valid()) && freed && old(connected) ==> credit == |received|
    {
      hide Queue, Accounts;
      refcnt := refcnt - 1;
      if refcnt == 0 {
        Flush();
        Close();
        freed := true;
      }
    }
  }

  // ---------------------------------------------------------------- whole runs

  datatype Event =
    | Arrive(data: string)  // a segment from the network
    | Read(size: nat)
    | Flush
    | PeerClosed

  /** A connection as a plain byte stream: what is unread, what every read returned, whether it is open. */
  datatype Stream = Stream(unread: string, results: seq<string>, open: bool)

  function Step(s: Stream, event: Event): Stream {
    match event
    case Arrive(data) => if s.open then s.(unread := s.unread + data) else s
    case Read(size) =>
      var n := if size < |s.unread| then size else |s.unread|;
      s.(unread := s.unread[n..], results := s.results + [s.unread[..n]])
    case Flush => s.(unread := "")
    case PeerClosed => s.(open := false)
  }

  function StepAll(s: Stream, events: seq<Event>): Stream {
    if |events| == 0 then s else Step(StepAll(s, events[..|events| - 1]), events[|events| - 1])
  }

  /** Everything that arrives while the connection is open. */
  function Arrivals(events: seq<Event>): string {
    if |events| == 0 then ""
    else
      var before, event := events[..|events| - 1], events[|events| - 1];
      Arrivals(before) + if event.Arrive? && PeerClosed !in before then event.data else ""
  }

  /** Every run of the pbuf chain, under any interleaving of arrivals, reads, flushes and the peer's close,
      is a run of the plain stream; what arrived while it was open is delivered or unread, in this order;
      and while connected the credit and the chain add up to it. */
  method Run(events: seq<Event>) returns (context: ClientContext, results: seq<string>)
    requires forall i :: 0 <= i < |events| && events[i].Arrive? ==> events[i].data != ""
    ensures context.Valid()
    ensures StepAll(Stream("", [], true), events) == Stream(context.Unread(), results, context.connected)
    ensures context.received == Arrivals(events) == context.delivered + context.Unread()
    ensures context.connected <==> PeerClosed !in events
    ensures context.connected ==> context.credit + |context.bytes| == |Arrivals(events)|
  {
    hide Chain, Footprint, StepAll, Arrivals;
    ghost var start := Stream("", [], true);
    NoEvents(start);
    context := new ClientContext();
    results := [];
    for n := 0 to |events|
      invariant context.Valid() && fresh(context) && fresh(context.repr)
      invariant StepAll(start, events[..n]) == Stream(context.Unread(), results, context.connected)
      invariant context.received == Arrivals(events[..n]) && (context.connected <==> PeerClosed !in events[..n])
    {
      OneMoreEvent(start, events, n);
      match events[n] {
        case Arrive(data) =>
          if context.connected {
            var pb := Deliver(data);
            context.Recv(pb, [pb], data);
          }
        case Read(size) =>
          var dst := context.Read(size);
          results := results + [dst];
        case Flush => context.Flush();
        case PeerClosed => context.Abort();
      }
    }
    assert events[..|events|] == events;
  }

  /** Nothing is lost, repeated or reordered: without flushes the results of the reads and the unread bytes
      are what arrived. */
  lemma {:induction false} ReadsAreArrivals(events: seq<Event>)
    requires Flush !in events
    ensures var s := StepAll(Stream("", [], true), events);
      Strings.Concat(s.results) + s.unread == Arrivals(events) && (s.open <==> PeerClosed !in events)
  {
    hide StepAll, Arrivals, Step, Strings.Concat;
    var start := Stream("", [], true);
    NoEvents(start);
    if |events| > 0 {
      var n := |events| - 1;
      OneMoreEvent(start, events, n);
      assert events[..n + 1] == events;
      ReadsAreArrivals(events[..n]);
      KeepsOrder(StepAll(start, events[..n]), events[n], Arrivals(events[..n]));
    } else {
      assert events[..0] == events;
      NothingRead();
    }
  }

  lemma NothingRead()
    ensures Strings.Concat([]) + "" == ""
  {
  }

  lemma NoEvents(s: Stream)
    ensures StepAll(s, []) == s && Arrivals([]) == ""
  {
  }

  lemma OneMoreEvent(s: Stream, events: seq<Event>, n: nat)
    requires n < |events|
    ensures StepAll(s, events[..n + 1]) == Step(StepAll(s, events[..n]), events[n])
    ensures Arrivals(events[..n + 1])
      == Arrivals(events[..n]) + if events[n].Arrive? && PeerClosed !in events[..n] then events[n].data else ""
    ensures PeerClosed in events[..n + 1] <==> PeerClosed in events[..n] || events[n] == PeerClosed
  {
    assert events[..n + 1][..n] == events[..n] && events[..n + 1][n] == events[n];
    assert events[..n + 1] == events[..n] + [events[n]];
  }

  lemma KeepsOrder(s: Stream, event: Event, arrived: string)
    requires Strings.Concat(s.results) + s.unread == arrived && !event.Flush?
    ensures var t := Step(s, event);
      Strings.Concat(t.results) + t.unread == arrived + (if event.Arrive? && s.open then event.data else "")
      && (t.open <==> s.open && !event.PeerClosed?)
  {
    hide Strings.Concat;
    match event
    case Arrive(data) =>
      Strings.Associate(Strings.Concat(s.results), s.unread, data);
    case Read(size) =>
      var m := if size < |s.unread| then size else |s.unread|;
      Strings.ConcatOneMore(s.results, s.unread[..m]);
      ClientContext.MoveOn(s.unread, 0, m);
      assert s.unread[0..] == s.unread;
      Strings.Associate(Strings.Concat(s.results), s.unread[..m], s.unread[m..]);
    case PeerClosed =>
  }
}

/** The web server's connection state machine, as steps over runs. */
module Serving {
  import opened Words

  const MAX_DATA_WAIT := 1000
  const MAX_CLOSE_WAIT := 2000

  /** HC_NONE, HC_WAIT_READ, HC_WAIT_CLOSE */
  datatype Phase = Idle | WaitRead | WaitClose

  /** Connections are numbered in the order in which they were accepted; `current` is [] or the one held. */
  datatype Server = Server(
    phase: Phase, current: seq<nat>, since: nat, queue: seq<nat>,
    accepted: nat, parsed: seq<nat>, dispatched: seq<nat>, released: seq<nat>)

  /** What one call finds: the connection and its data, the parser's verdict, and the clock at each reading. */
  datatype Look = Look(connected: bool, dataReady: bool, parseOk: bool, stillConnected: bool,
                       acceptedAt: nat, checkedAt: nat, handledAt: nat)

  datatype Event = Accept | Call(look: Look)

  /** `millis() - from` in 32 bits */
  function Elapsed(from: nat, to: nat): nat {
    (to - from) % WORD
  }

  function Release(s: Server): Server {
    s.(phase := Idle, current := [], released := s.released + s.current)
  }

  function TakeNext(s: Server, look: Look): Server {
    if s.phase.Idle? && |s.queue| > 0
    then s.(phase := WaitRead, current := s.queue[..1], queue := s.queue[1..], since := look.acceptedAt)
    else s
  }

  function Serve(s: Server, look: Look): Server {
    if !look.connected then Release(s)
    else if s.phase.WaitRead? then
      if !look.dataReady then
        if Elapsed(s.since, look.checkedAt) > MAX_DATA_WAIT then Release(s) else s
      else
        var p := s.(parsed := s.parsed + s.current);
        if !look.parseOk then Release(p)
        else
          var d := p.(dispatched := p.dispatched + p.current);
          if !look.stillConnected then Release(d) else d.(phase := WaitClose, since := look.handledAt)
    else if Elapsed(s.since, look.checkedAt) > MAX_CLOSE_WAIT then Release(s)
    else s
  }

  /** `handleClient` */
  function HandleClient(s: Server, look: Look): Server {
    var t := TakeNext(s, look);
    if t.phase.Idle? then t else Serve(t, look)
  }

  function Step(s: Server, event: Event): Server {
    match event
    case Accept => s.(queue := s.queue + [s.accepted], accepted := s.accepted + 1)
    case Call(look) => HandleClient(s, look)
  }

  function RunFrom(s: Server, events: seq<Event>): Server {
    if |events| == 0 then s else Step(RunFrom(s, events[..|events| - 1]), events[|events| - 1])
  }

  const EMPTY := Server(Idle, [], 0, [], 0, [], [], [])

  /** From the start of the server. */
  function Run(events: seq<Event>): Server {
    RunFrom(EMPTY, events)
  }

  function FirstN(n: nat): (r: seq<nat>)
    ensures |r| == n && forall i :: 0 <= i < n ==> r[i] == i
  {
    seq(n, i => i)
  }

  ghost predicate Ascending(s: seq<nat>) {
    forall i, j :: 0 <= i < j < |s| ==> s[i] < s[j]
  }

  /** What holds between events. */
  ghost predicate Inv(s: Server) {
    && |s.current| == (if s.phase.Idle? then 0 else 1)
    && s.released + s.current + s.queue == FirstN(s.accepted)
    && Ascending(s.parsed) && Ascending(s.dispatched)
    && (forall i :: 0 <= i < |s.parsed| ==> s.parsed[i] < |s.released| + if s.phase.WaitClose? then 1 else 0)
    && (forall i :: 0 <= i < |s.dispatched| ==> s.dispatched[i] in s.parsed)
    && (s.phase.WaitClose? ==> s.current[0] in s.dispatched)
  }

  lemma CurrentNumber(s: Server)
    requires Inv(s) && !s.phase.Idle?
    ensures s.current == [|s.released|]
  {
    var n := |s.released|;
    assert (s.released + s.current + s.queue)[n] == FirstN(s.accepted)[n];
  }

  lemma AcceptKeeps(s: Server)
    requires Inv(s)
    ensures Inv(Step(s, Accept))
  {
    assert s.released + s.current + (s.queue + [s.accepted]) == FirstN(s.accepted) + [s.accepted]
      == FirstN(s.accepted + 1);
  }

  lemma TakeKeeps(s: Server, look: Look)
    requires Inv(s)
    ensures Inv(TakeNext(s, look))
  {
    if s.phase.Idle? && |s.queue| > 0 {
      assert s.released + [] + s.queue == s.released + s.queue[..1] + s.queue[1..];
    }
  }

  lemma ReleaseKeeps(s: Server)
    requires Inv(s)
    ensures Inv(Release(s))
  {
    assert s.released + s.current + [] + s.queue == s.released + s.current + s.queue;
  }

  /** The connection read and dispatched is a new one. */
  lemma DispatchKeeps(s: Server, handledAt: nat)
    requires Inv(s) && s.phase.WaitRead?
    ensures var p := s.(parsed := s.parsed + s.current);
      var d := p.(dispatched := p.dispatched + p.current);
      Inv(Release(p)) && Inv(Release(d)) && Inv(d.(phase := WaitClose, since := handledAt))
  {
    CurrentNumber(s);
    var p := s.(parsed := s.parsed + s.current);
    var d := p.(dispatched := p.dispatched + p.current);
    assert s.released + s.current + [] + s.queue == s.released + s.current + s.queue;
    assert forall i :: 0 <= i < |s.dispatched| ==> s.dispatched[i] in s.parsed;
    assert forall x :: x in s.parsed ==> x < |s.released|;
    assert d.parsed[|s.parsed|] == s.current[0] && d.dispatched[|s.dispatched|] == s.current[0];
  }

  lemma CallKeeps(s: Server, look: Look)
    requires Inv(s)
    ensures Inv(HandleClient(s, look))
  {
    hide Inv;
    TakeKeeps(s, look);
    var t := TakeNext(s, look);
    ReleaseKeeps(t);
    if t.phase.WaitRead? {
      DispatchKeeps(t, look.handledAt);
    }
  }

  /** On every run: no client is held exactly in HC_NONE; the released connections, the one held and the waiting ones
      are all that were accepted, in that order; each is parsed at most once, dispatched at most once and only if
      parsed. */
  lemma {:induction false} ServedInOrder(events: seq<Event>)
    ensures Inv(Run(events))
    decreases |events|
  {
    if |events| == 0 {
      assert [] + [] + [] == FirstN(0);
    } else {
      hide Inv;
      ServedInOrder(events[..|events| - 1]);
      var s := Run(events[..|events| - 1]);
      match events[|events| - 1] {
        case Accept => AcceptKeeps(s);
        case Call(look) => CallKeeps(s, look);
      }
    }
  }

  /** The 32-bit difference is the time that passed, across any wrap, as long as that is less than 2^32 ms. */
  lemma ElapsedIs(start: nat, now: nat)
    requires start <= now < start + WORD
    ensures Elapsed(start % WORD, now % WORD) == now - start
  {
    var a, b := start / WORD, now / WORD;
    assert b == a || b == a + 1;
  }

  /** When nobody is held and somebody waits, a call takes the longest waiting connection. */
  lemma CallTakesOldest(s: Server, look: Look)
    requires Inv(s) && s.phase.Idle? && |s.queue| > 0
    ensures var t := HandleClient(s, look);
      t.released + t.current == s.released + [|s.released|] && t.queue == s.queue[1..]
  {
    var t := TakeNext(s, look);
    TakeKeeps(s, look);
    CurrentNumber(t);
  }

  // ---------------------------------------------------------------- one call

  /** A client taken in a call is served in the same call; with nobody held and nobody waiting a call does nothing. */
  lemma TakenIsServed(s: Server, look: Look)
    requires s.phase.Idle?
    ensures s.queue == [] ==> HandleClient(s, look) == s
    ensures s.queue != [] ==>
      var taken := s.(phase := WaitRead, current := [s.queue[0]], queue := s.queue[1..], since := look.acceptedAt);
      HandleClient(s, look) == HandleClient(taken, look)
  {
    hide Serve;
    if s.queue != [] {
      assert s.queue[..1] == [s.queue[0]];
    }
  }

  /** A held client that is gone is released at once, in every phase, and neither parsed nor dispatched. */
  lemma GoneIsReleased(s: Server, look: Look)
    requires Inv(s) && !s.phase.Idle? && !look.connected
    ensures var t := HandleClient(s, look);
      && t.phase.Idle? && t.current == [] && t.released == s.released + s.current
      && t.parsed == s.parsed && t.dispatched == s.dispatched && t.queue == s.queue && t.accepted == s.accepted
  {
  }

  /** A request that arrived is parsed; a bad one is not dispatched and its client released; a good one is dispatched,
      and its client released if it has gone, and otherwise waited for from then on. */
  lemma RequestIsServed(s: Server, look: Look)
    requires Inv(s) && s.phase.WaitRead? && look.connected && look.dataReady
    ensures var t := HandleClient(s, look);
      && t.parsed == s.parsed + s.current && t.queue == s.queue && t.accepted == s.accepted
      && t.dispatched == (if look.parseOk then s.dispatched + s.current else s.dispatched)
      && (look.parseOk && look.stillConnected ==>
            t.phase.WaitClose? && t.current == s.current && t.released == s.released && t.since == look.handledAt)
      && (!look.parseOk || !look.stillConnected ==>
            t.phase.Idle? && t.current == [] && t.released == s.released + s.current)
  {
  }

  // ---------------------------------------------------------------- waiting

  /** How long a held client is waited for. */
  function Patience(phase: Phase): nat {
    if phase.WaitRead? then MAX_DATA_WAIT else MAX_CLOSE_WAIT
  }

  /** The client stays connected and, while its request is waited for, sends nothing. */
  predicate Silent(phase: Phase, event: Event) {
    event.Call? ==> event.look.connected && (phase.WaitRead? ==> !event.look.dataReady)
  }

  /** Events at these times, of which only those of calls matter. */
  predicate CallsAt(events: seq<Event>, times: seq<nat>) {
    |events| == |times| && forall i {:trigger events[i]} :: 0 <= i < |events| && events[i].Call? ==>
      events[i].look.checkedAt == times[i] % WORD
  }

  predicate SameClient(s: Server, t: Server) {
    t.phase == s.phase && t.current == s.current && t.since == s.since && t.released == s.released
    && t.parsed == s.parsed && t.dispatched == s.dispatched
  }

  lemma SilentStep(s: Server, event: Event, start: nat, now: nat)
    requires !s.phase.Idle? && s.since == start % WORD && Silent(s.phase, event)
    requires event.Call? ==> event.look.checkedAt == now % WORD && start <= now < start + WORD
    ensures event.Call? && now - start > Patience(s.phase) ==> Step(s, event) == Release(s)
    ensures event.Accept? || now - start <= Patience(s.phase) ==> SameClient(s, Step(s, event))
  {
    if event.Call? {
      ElapsedIs(start, now);
    }
  }

  /** While a client is silent, calls within the wait and new connections change nothing about it. */
  lemma {:induction false} WaitsInPatience(s: Server, events: seq<Event>, times: seq<nat>, start: nat)
    requires !s.phase.Idle? && s.since == start % WORD && CallsAt(events, times)
    requires forall i :: 0 <= i < |events| ==>
      Silent(s.phase, events[i]) && start <= times[i] <= start + Patience(s.phase)
    ensures SameClient(s, RunFrom(s, events))
  {
    if |events| > 0 {
      var n := |events| - 1;
      WaitsInPatience(s, events[..n], times[..n], start);
      SilentStep(RunFrom(s, events[..n]), events[n], start, times[n]);
    }
  }

  /** A client taken at `start` that sends nothing is held through every call up to 1000 ms later, in any run
      of calls and new connections, and released by the first call after that. */
  lemma ReadTimeout(s: Server, take: Look, events: seq<Event>, last: Look, start: nat, taken: nat, times: seq<nat>,
      now: nat)
    requires Inv(s) && s.phase.Idle? && |s.queue| > 0
    requires take.acceptedAt == start % WORD && take.checkedAt == taken % WORD
      && start <= taken <= start + 1000
    requires Silent(WaitRead, Call(take)) && Silent(WaitRead, Call(last)) && CallsAt(events, times)
    requires forall i :: 0 <= i < |events| ==> Silent(WaitRead, events[i]) && start <= times[i] <= start + 1000
    requires last.checkedAt == now % WORD && start + 1000 < now < start + WORD
    ensures var held := RunFrom(s, [Call(take)] + events);
      && held.phase.WaitRead? && held.current == [|s.released|] && held.released == s.released
      && RunFrom(s, [Call(take)] + events + [Call(last)]) == Release(held)
  {
    var t := TakeNext(s, take);
    TakeKeeps(s, take);
    CurrentNumber(t);
    SilentStep(t, Call(take), start, taken);
    assert HandleClient(s, take) == Serve(t, take) == HandleClient(t, take);
    WaitsThenReleases(s, take, events, last, start, times, now);
  }

  /** A client answered at `start` that does not close is held through every call up to 2000 ms later, in any run
      of calls and new connections, and released by the first call after that. */
  lemma CloseTimeout(s: Server, answer: Look, events: seq<Event>, last: Look, start: nat, times: seq<nat>, now: nat)
    requires Inv(s) && s.phase.WaitRead?
    requires answer.connected && answer.dataReady && answer.parseOk && answer.stillConnected
      && answer.handledAt == start % WORD
    requires Silent(WaitClose, Call(last)) && CallsAt(events, times)
    requires forall i :: 0 <= i < |events| ==>
      Silent(WaitClose, events[i]) && start <= times[i] <= start + 2000
    requires last.checkedAt == now % WORD && start + 2000 < now < start + WORD
    ensures var held := RunFrom(s, [Call(answer)] + events);
      && held.phase.WaitClose? && held.current == s.current && held.released == s.released
      && held.dispatched == s.dispatched + s.current
      && RunFrom(s, [Call(answer)] + events + [Call(last)]) == Release(held)
  {
    WaitsThenReleases(s, answer, events, last, start, times, now);
  }

  lemma WaitsThenReleases(s: Server, first: Look, events: seq<Event>, last: Look, start: nat, times: seq<nat>, now: nat)
    requires var t := HandleClient(s, first);
      && !t.phase.Idle? && t.since == start % WORD && CallsAt(events, times)
      && (forall i :: 0 <= i < |events| ==>
        Silent(t.phase, events[i]) && start <= times[i] <= start + Patience(t.phase))
      && Silent(t.phase, Call(last)) && last.checkedAt == now % WORD && start + Patience(t.phase) < now < start + WORD
    ensures var held := RunFrom(s, [Call(first)] + events);
      && SameClient(HandleClient(s, first), held)
      && RunFrom(s, [Call(first)] + events + [Call(last)]) == Release(held)
  {
    hide HandleClient, Step;
    var t := HandleClient(s, first);
    FirstCall(s, first);
    RunFromFirst(s, Call(first), events);
    WaitsInPatience(t, events, times, start);
    var held := RunFrom(t, events);
    SilentStep(held, Call(last), start, now);
    RunFromLast(s, [Call(first)] + events, Call(last));
  }

  lemma FirstCall(s: Server, look: Look)
    ensures Step(s, Call(look)) == HandleClient(s, look)
  {
  }

  lemma {:induction false} RunFromFirst(s: Server, first: Event, events: seq<Event>)
    ensures RunFrom(s, [first] + events) == RunFrom(Step(s, first), events)
  {
    hide Step;
    var all := [first] + events;
    if |events| > 0 {
      RunFromFirst(s, first, events[..|events| - 1]);
      assert all[..|all| - 1] == [first] + events[..|events| - 1];
    } else {
      assert all == [first] && all[..0] == [];
    }
  }

  lemma RunFromLast(s: Server, events: seq<Event>, last: Event)
    ensures RunFrom(s, events + [last]) == Step(RunFrom(s, events), last)
  {
    assert (events + [last])[..|events|] == events;
  }
}

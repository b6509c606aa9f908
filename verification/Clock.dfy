/** The system clock: seconds counted from a 32-bit millisecond counter, synchronization, and the field cache. */
module Clocks {
  import opened Words

  import opened Calendar

  /** timeNotSet, timeNeedsSync, timeSet */
  datatype Status = NotSet | NeedsSync | TimeSet

  datatype Clock = Clock(sysTime: uint32, prevMillis: uint32, nextSync: uint32, status: Status,
                         syncInterval: uint32, provider: bool)

  const START := Clock(0, 0, 0, NotSet, 300, false)

  /** What a call finds: `millis()`, the provider's answer (0: failed), and `millis()` once it answered. */
  datatype Reading = Reading(millis: uint32, reply: uint32, after: uint32)

  // ---------------------------------------------------------------- one call

  /** Whole seconds between two values of the millisecond counter. */
  function Advance(prevMillis: uint32, millis: uint32): nat {
    (millis - prevMillis) % WORD / 1000
  }

  function Tick(c: Clock, millis: uint32): Clock {
    var n := Advance(c.prevMillis, millis);
    c.(sysTime := (c.sysTime + n) % WORD, prevMillis := (c.prevMillis + 1000 * n) % WORD)
  }

  function SetTo(c: Clock, t: uint32, millis: uint32): Clock {
    c.(sysTime := t, nextSync := (t + c.syncInterval) % WORD, status := TimeSet, prevMillis := millis)
  }

  predicate SyncDue(c: Clock) {
    c.provider && c.nextSync <= c.sysTime
  }

  /** What follows the counting: a synchronization, if one is due. */
  function Conclude(t: Clock, reply: uint32, after: uint32): Clock {
    if !SyncDue(t) then t
    else if reply != 0 then SetTo(t, reply, after)
    else t.(nextSync := (t.sysTime + t.syncInterval) % WORD, status := if t.status.NotSet? then NotSet else NeedsSync)
  }

  function AfterNow(c: Clock, r: Reading): Clock {
    Conclude(Tick(c, r.millis), r.reply, r.after)
  }

  datatype Op =
    | CallNow(r: Reading)
    | SetTime(t: uint32, millis: uint32)
    | Adjust(delta: int)
    | SetProvider(some: bool, r: Reading)
    | SetInterval(interval: uint32)

  function Do(c: Clock, op: Op): Clock {
    match op
    case CallNow(r) => AfterNow(c, r)
    case SetTime(t, millis) => SetTo(c, t, millis)
    case Adjust(delta) => c.(sysTime := (c.sysTime + delta) % WORD)
    case SetProvider(some, r) => AfterNow(c.(provider := some, nextSync := c.sysTime), r)
    case SetInterval(interval) => c.(syncInterval := interval, nextSync := (c.sysTime + interval) % WORD)
  }

  function Run(ops: seq<Op>): Clock {
    if |ops| == 0 then START else Do(Run(ops[..|ops| - 1]), ops[|ops| - 1])
  }

  // ---------------------------------------------------------------- no drift

  /** A difference of counter values is the time that passed if and only if that is less than 2^32 ms;
      `from` and `to` are true times. */
  lemma AdvanceExact(from: nat, to: nat)
    requires from <= to
    ensures Advance(from % WORD, to % WORD) == (to - from) % WORD / 1000
    ensures Advance(from % WORD, to % WORD) == (to - from) / 1000 <==> to - from < WORD
  {
    var a, b := from / WORD, to / WORD;
    var d := to - from;
    ModDifference(from, to);
    if d >= WORD {
      assert d % WORD <= d - WORD;
    }
  }

  lemma ModDifference(from: nat, to: nat)
    requires from <= to
    ensures (to % WORD - from % WORD) % WORD == (to - from) % WORD
  {
    var k := to / WORD - from / WORD;
    assert to - from == to % WORD - from % WORD + k * WORD;
    Wraps(to % WORD - from % WORD, k);
  }

  lemma Wraps(x: int, k: int)
    ensures (x + k * WORD) % WORD == x % WORD
  {
  }

  function TickAll(c: Clock, times: seq<nat>): Clock {
    if |times| == 0 then c else Tick(TickAll(c, times[..|times| - 1]), times[|times| - 1] % WORD)
  }

  function Last(from: nat, times: seq<nat>): nat {
    if |times| == 0 then from else times[|times| - 1]
  }

  /** The moment up to which a clock with the mark `from` has counted after a call at `before`. */
  function Mark(from: nat, before: nat): (m: nat)
    requires from <= before
    ensures m <= before < m + 1000
  {
    from + (before - from) / 1000 * 1000
  }

  /** Calls at these true times, each less than 2^32 ms after the moment up to which the clock has counted. */
  predicate Spaced(from: nat, times: seq<nat>)
    ensures Spaced(from, times) ==> Last(from, times) >= from
  {
    |times| == 0 ||
    var before := Last(from, times[..|times| - 1]);
    Spaced(from, times[..|times| - 1]) && before <= times[|times| - 1] < Mark(from, before) + WORD
  }

  /** Over any number of calls and counter wraps the clock advances by exactly the whole seconds that passed
      since its mark, and what it has not counted yet is the remainder, less than a second. */
  lemma {:induction false} DriftFree(c: Clock, from: nat, times: seq<nat>)
    requires c.prevMillis == from % WORD && Spaced(from, times)
    ensures Last(from, times) >= from
    ensures TickAll(c, times) == Counted(c, from, Last(from, times))
    ensures var seconds := (Last(from, times) - from) / 1000;
      TickAll(c, times)
      == c.(sysTime := (c.sysTime + seconds) % 0x1_0000_0000, prevMillis := (from + seconds * 1000) % 0x1_0000_0000)
    decreases |times|
  {
    if |times| > 0 {
      var init := times[..|times| - 1];
      DriftFree(c, from, init);
      OneTick(c, from, Last(from, init), times[|times| - 1]);
    }
  }

  /** The clock with every whole second since its mark counted. */
  function Counted(c: Clock, from: nat, now: nat): Clock
    requires from <= now
  {
    var seconds := (now - from) / 1000;
    c.(sysTime := (c.sysTime + seconds) % WORD, prevMillis := (from + seconds * 1000) % WORD)
  }

  lemma OneTick(c: Clock, from: nat, before: nat, now: nat)
    requires from <= before <= now < Mark(from, before) + WORD
    ensures Tick(Counted(c, from, before), now % WORD) == Counted(c, from, now)
  {
    var k, mark := (before - from) / 1000, Mark(from, before);
    AdvanceExact(mark, now);
    var n := (now - mark) / 1000;
    assert (now - from) / 1000 == k + n;
    SumWraps(c.sysTime + k, n);
    SumWraps(mark, 1000 * n);
  }

  /** The clock is right at every call. */
  predicate RightThroughout(c: Clock, from: nat, times: seq<nat>) {
    |times| > 0 ==>
      && RightThroughout(c, from, times[..|times| - 1])
      && TickAll(c, times).sysTime == (c.sysTime + (times[|times| - 1] - from) / 1000) % WORD
  }

  /** Calls in order, none of them 2^32 seconds after the clock's last count, when it would show the same again. */
  predicate InOrder(from: nat, times: seq<nat>)
    ensures InOrder(from, times) ==> Last(from, times) >= from
  {
    |times| == 0 ||
    var before := Last(from, times[..|times| - 1]);
    InOrder(from, times[..|times| - 1]) && before <= times[|times| - 1] < Mark(from, before) + 1000 * WORD
  }

  /** That spacing is exact: the clock is right at every call if and only if every call comes less than 2^32 ms
      after the moment up to which it has counted. */
  lemma {:induction false} DriftFreeExactly(c: Clock, from: nat, times: seq<nat>)
    requires c.prevMillis == from % WORD && InOrder(from, times)
    ensures RightThroughout(c, from, times) <==> Spaced(from, times)
    decreases |times|
  {
    hide Tick, Counted;
    if |times| > 0 {
      var init, now := times[..|times| - 1], times[|times| - 1];
      DriftFreeExactly(c, from, init);
      if Spaced(from, init) {
        DriftFree(c, from, init);
        if now < Mark(from, Last(from, init)) + WORD {
          DriftFree(c, from, times);
          CountedSeconds(c, from, now);
        } else {
          LateCallLoses(c, from, Last(from, init), now);
        }
      }
    }
  }

  lemma CountedSeconds(c: Clock, from: nat, now: nat)
    requires from <= now
    ensures Counted(c, from, now).sysTime == (c.sysTime + (now - from) / 1000) % WORD
  {
  }

  /** A later call loses every 2^32 ms that passed in between. */
  lemma LateCallLoses(c: Clock, from: nat, before: nat, now: nat)
    requires from <= before && Mark(from, before) + WORD <= now < Mark(from, before) + 1000 * WORD
    ensures Tick(Counted(c, from, before), now % WORD).sysTime != (c.sysTime + (now - from) / 1000) % WORD
  {
    var k, mark := (before - from) / 1000, Mark(from, before);
    var d := now - mark;
    AdvanceExact(mark, now);
    SumWraps(c.sysTime + k, d % WORD / 1000);
    assert (now - from) / 1000 == k + d / 1000;
    LostSeconds(d);
    NotCongruent(c.sysTime + k + d % WORD / 1000, d / 1000 - d % WORD / 1000);
  }

  lemma LostSeconds(d: nat)
    requires WORD <= d < 1000 * WORD
    ensures 0 < d / 1000 - d % WORD / 1000 < WORD
  {
    assert d == d / WORD * WORD + d % WORD;
    assert 1 <= d / WORD <= 999;
  }

  lemma NotCongruent(a: int, b: int)
    requires 0 < b < WORD
    ensures (a + b) % WORD != a % WORD
  {
    var r := a % WORD;
    SumWraps(a, b);
    assert (r + b) % WORD == if r + b < WORD then r + b else r + b - WORD;
  }

  lemma SumWraps(a: int, b: int)
    ensures (a % WORD + b) % WORD == (a + b) % WORD
  {
  }

  /** A gap below 2^32 ms alone is not enough: the remainder counts as well, and then 2^32 ms are lost. */
  lemma GapAloneIsNotEnough()
    ensures var c := START;
      var times := [999, 999 + WORD - 1];
      && times[1] - times[0] < WORD
      && TickAll(c, times).sysTime == 0
      && (times[1] - 0) / 1000 == 4294968
  {
    var c, times := START, [999, 999 + WORD - 1];
    assert times[..1] == [999] && [999][..0] == [];
    assert TickAll(c, [999]) == c;
    assert (999 + WORD - 1) % WORD == 998;
  }

  // ---------------------------------------------------------------- the counting loop

  function OneSecond(c: Clock): Clock {
    c.(sysTime := (c.sysTime + 1) % WORD, prevMillis := (c.prevMillis + 1000) % WORD)
  }

  predicate SecondOver(c: Clock, millis: uint32) {
    (millis - c.prevMillis) % WORD >= 1000
  }

  /** The loop reads the counter again before every turn. */
  function CountAll(c: Clock, readings: seq<uint32>): Clock
    decreases |readings|
  {
    if |readings| == 0 || !SecondOver(c, readings[0]) then c else CountAll(OneSecond(c), readings[1..])
  }

  /** These are the readings of one loop: the last one ends it. */
  predicate Stops(c: Clock, readings: seq<uint32>)
    decreases |readings|
  {
    |readings| > 0 && if SecondOver(c, readings[0]) then Stops(OneSecond(c), readings[1..]) else |readings| == 1
  }

  predicate Timed(times: seq<nat>, readings: seq<uint32>) {
    |readings| == |times| && forall i :: 0 <= i < |times| ==> readings[i] == times[i] % WORD
  }

  /** However much time passes during the loop, it counts what a single reading at its end would give. */
  lemma {:induction false} LoopIsOneReading(c: Clock, mark: nat, times: seq<nat>, readings: seq<uint32>)
    requires c.prevMillis == mark % WORD && Timed(times, readings) && Stops(c, readings)
    requires mark <= times[0] && forall i, j :: 0 <= i < j < |times| ==> times[i] <= times[j]
    requires times[|times| - 1] < mark + WORD
    ensures CountAll(c, readings) == Tick(c, readings[|readings| - 1])
    decreases |times|
  {
    hide Tick;
    var last := times[|times| - 1];
    assert times[0] <= last;
    ModDifference(mark, times[0]);
    assert readings[0] == times[0] % WORD && readings[|readings| - 1] == last % WORD;
    AdvanceExact(mark, last);
    if SecondOver(c, readings[0]) {
      var t, r := times[1..], readings[1..];
      SumWraps(mark, 1000);
      assert |r| > 0 && t[|t| - 1] == last && r[|r| - 1] == last % WORD;
      assert mark + 1000 <= times[0] <= t[0];
      LoopIsOneReading(OneSecond(c), mark + 1000, t, r);
      OneMoreSecond(c, mark, last);
    } else {
      NothingToCount(c, readings[0]);
    }
  }

  lemma NothingToCount(c: Clock, millis: uint32)
    requires !SecondOver(c, millis)
    ensures Tick(c, millis) == c
  {
  }

  lemma OneMoreSecond(c: Clock, mark: nat, last: nat)
    requires c.prevMillis == mark % WORD && mark + 1000 <= last < mark + WORD
    ensures Tick(OneSecond(c), last % WORD) == Tick(c, last % WORD)
  {
    AdvanceExact(mark, last);
    AdvanceExact(mark + 1000, last);
    SumWraps(mark, 1000);
    var n := (last - mark) / 1000;
    assert (last - (mark + 1000)) / 1000 == n - 1;
    SumWraps(c.sysTime + 1, n - 1);
    SumWraps(c.prevMillis + 1000, 1000 * (n - 1));
  }

  // ---------------------------------------------------------------- status

  /** What an operation does to the status. */
  datatype Outcome = DidSet | SyncFailed | Neither

  function CallOutcome(c: Clock, r: Reading): Outcome {
    if !SyncDue(Tick(c, r.millis)) then Neither else if r.reply != 0 then DidSet else SyncFailed
  }

  function OutcomeOf(c: Clock, op: Op): Outcome {
    match op
    case CallNow(r) => CallOutcome(c, r)
    case SetTime(_, _) => DidSet
    case SetProvider(some, r) => CallOutcome(c.(provider := some, nextSync := c.sysTime), r)
    case Adjust(_) => Neither
    case SetInterval(_) => Neither
  }

  function Outcomes(ops: seq<Op>): (r: seq<Outcome>)
    ensures |r| == |ops|
  {
    if |ops| == 0 then []
    else Outcomes(ops[..|ops| - 1]) + [OutcomeOf(Run(ops[..|ops| - 1]), ops[|ops| - 1])]
  }

  function CallAll(c: Clock, readings: seq<Reading>): Clock {
    if |readings| == 0 then c else AfterNow(CallAll(c, readings[..|readings| - 1]), readings[|readings| - 1])
  }

  /** Calls that find no synchronization due only count, so `DriftFree` is about them. */
  lemma {:induction false} QuietCallsCount(c: Clock, times: seq<nat>, readings: seq<Reading>)
    requires |readings| == |times|
    requires forall i {:trigger readings[i]} :: 0 <= i < |times| ==> readings[i].millis == times[i] % WORD
    requires forall i {:trigger readings[..i]} :: 0 <= i < |times| ==>
      CallOutcome(CallAll(c, readings[..i]), readings[i]) == Neither
    ensures CallAll(c, readings) == TickAll(c, times)
  {
    hide Tick;
    if |times| > 0 {
      var n := |times| - 1;
      var init := readings[..n];
      forall i | 0 <= i < n ensures init[i] == readings[i] && init[..i] == readings[..i] {
      }
      QuietCallsCount(c, times[..n], init);
      assert CallOutcome(CallAll(c, readings[..n]), readings[n]) == Neither;
    }
  }

  /** The latest outcome other than Neither, if there is one. */
  function Latest(outcomes: seq<Outcome>): (r: Outcome)
    ensures r == Neither <==> forall j :: 0 <= j < |outcomes| ==> outcomes[j] == Neither
    ensures r != Neither ==>
      exists i :: 0 <= i < |outcomes| && outcomes[i] == r && (forall j :: i < j < |outcomes| ==> outcomes[j] == Neither)
  {
    if |outcomes| == 0 then Neither
    else if outcomes[|outcomes| - 1] != Neither then outcomes[|outcomes| - 1]
    else Latest(outcomes[..|outcomes| - 1])
  }

  /** The status is timeNotSet exactly when nothing ever set the time; after that it is timeSet
      exactly when the latest set or failed synchronization was a set. */
  lemma {:induction false} StatusTellsHistory(ops: seq<Op>)
    ensures Run(ops).status == NotSet <==> DidSet !in Outcomes(ops)
    ensures Run(ops).status != NotSet ==> (Run(ops).status == TimeSet <==> Latest(Outcomes(ops)) == DidSet)
    ensures Run(ops).status != NotSet ==> Latest(Outcomes(ops)) != Neither
  {
    hide OutcomeOf, Do;
    if |ops| > 0 {
      var before, op := ops[..|ops| - 1], ops[|ops| - 1];
      StatusTellsHistory(before);
      StatusStep(Run(before), op);
      var all := Outcomes(ops);
      assert all[..|all| - 1] == Outcomes(before) && all[|all| - 1] == OutcomeOf(Run(before), op);
    }
  }

  lemma StatusStep(c: Clock, op: Op)
    ensures Do(c, op).status == match OutcomeOf(c, op)
                                case DidSet => TimeSet
                                case SyncFailed => if c.status == NotSet then NotSet else NeedsSync
                                case Neither => c.status
  {
  }

  // ---------------------------------------------------------------- when the next attempt comes

  predicate CallsAt(times: seq<nat>, readings: seq<Reading>) {
    |readings| == |times| && forall i {:trigger readings[i]} :: 0 <= i < |times| ==>
      readings[i].millis == times[i] % WORD
  }

  function OutcomeAt(c: Clock, readings: seq<Reading>, i: nat): Outcome
    requires i < |readings|
  {
    CallOutcome(CallAll(c, readings[..i]), readings[i])
  }

  /** Calls before the due second, or without a provider, find nothing due. */
  lemma {:induction false} QuietUntilDue(c: Clock, from: nat, times: seq<nat>, readings: seq<Reading>, due: nat)
    requires c.prevMillis == from % WORD && Spaced(from, times) && CallsAt(times, readings)
    requires !c.provider || c.nextSync == c.sysTime + due
    requires !c.provider || forall i :: 0 <= i < |times| ==> (times[i] - from) / 1000 < due
    ensures forall i :: 0 <= i < |times| ==> OutcomeAt(c, readings, i) == Neither
    ensures CallAll(c, readings) == TickAll(c, times)
    decreases |times|
  {
    hide CallAll, TickAll, CallOutcome, Spaced, OutcomeAt;
    if |times| > 0 {
      var n := |times| - 1;
      Prefixes(c, from, times, readings, n);
      QuietUntilDue(c, from, times[..n], readings[..n], due);
      DueAtLast(c, from, times, readings, due);
    } else {
      NoCalls(c);
    }
  }

  lemma NoCalls(c: Clock)
    ensures CallAll(c, []) == TickAll(c, []) == c
  {
  }

  lemma {:induction false} SpacedPrefix(from: nat, times: seq<nat>, n: nat)
    requires n <= |times| && Spaced(from, times)
    ensures Spaced(from, times[..n])
    decreases |times|
  {
    if n < |times| {
      SpacedPrefix(from, times[..|times| - 1], n);
      assert times[..|times| - 1][..n] == times[..n];
    } else {
      assert times[..n] == times;
    }
  }

  /** What holds of all calls holds of the first n. */
  lemma Prefixes(c: Clock, from: nat, times: seq<nat>, readings: seq<Reading>, n: nat)
    requires n <= |times| && Spaced(from, times) && CallsAt(times, readings)
    ensures Spaced(from, times[..n]) && CallsAt(times[..n], readings[..n])
    ensures forall i :: 0 <= i < n ==> OutcomeAt(c, readings, i) == OutcomeAt(c, readings[..n], i)
  {
    hide CallOutcome, CallAll;
    SpacedPrefix(from, times, n);
    forall i | 0 <= i < n ensures OutcomeAt(c, readings, i) == OutcomeAt(c, readings[..n], i) {
      assert readings[..n][..i] == readings[..i];
    }
  }

  /** If nothing was due before the last call, it attempts exactly when the time it counts to is due. */
  lemma DueAtLast(c: Clock, from: nat, times: seq<nat>, readings: seq<Reading>, due: nat)
    requires c.prevMillis == from % WORD && Spaced(from, times) && CallsAt(times, readings) && |times| > 0
    requires !c.provider || c.nextSync == c.sysTime + due
    requires CallAll(c, readings[..|times| - 1]) == TickAll(c, times[..|times| - 1])
    ensures var k := (Last(from, times) - from) / 1000;
      && (k < due || !c.provider ==>
        OutcomeAt(c, readings, |times| - 1) == Neither && CallAll(c, readings) == TickAll(c, times))
      && (k >= due && c.provider && c.sysTime + k < WORD ==> OutcomeAt(c, readings, |times| - 1) != Neither)
  {
    hide CallAll, TickAll, Tick, Spaced, CallOutcome, OutcomeAt, SyncDue;
    DriftFree(c, from, times);
    LastTurn(c, times, readings);
    WhenDue(c, TickAll(c, times), (Last(from, times) - from) / 1000, due);
  }

  lemma LastTurn(c: Clock, times: seq<nat>, readings: seq<Reading>)
    requires CallsAt(times, readings) && |times| > 0
    requires CallAll(c, readings[..|times| - 1]) == TickAll(c, times[..|times| - 1])
    ensures var t := TickAll(c, times);
      && (!SyncDue(t) ==> OutcomeAt(c, readings, |times| - 1) == Neither && CallAll(c, readings) == t)
      && (SyncDue(t) ==> OutcomeAt(c, readings, |times| - 1) != Neither)
  {
    hide Tick;
    assert readings[|times| - 1].millis == times[|times| - 1] % WORD;
  }

  lemma WhenDue(c: Clock, t: Clock, seconds: nat, due: nat)
    requires t.provider == c.provider && t.nextSync == c.nextSync && t.sysTime == (c.sysTime + seconds) % WORD
    requires !c.provider || c.nextSync == c.sysTime + due
    ensures seconds < due || !c.provider ==> !SyncDue(t)
    ensures seconds >= due && c.provider && c.sysTime + seconds < WORD ==> SyncDue(t)
  {
  }

  /** Of calls the last of which is the first at or after the due second, that one is an attempt and no other. */
  lemma FirstDueCallAttempts(c: Clock, from: nat, times: seq<nat>, readings: seq<Reading>, due: nat)
    requires c.prevMillis == from % WORD && Spaced(from, times) && CallsAt(times, readings) && |times| > 0
    requires c.provider && c.nextSync == c.sysTime + due
    requires c.sysTime + (Last(from, times) - from) / 1000 < WORD
    requires forall i :: 0 <= i < |times| - 1 ==> (times[i] - from) / 1000 < due
    ensures forall i :: 0 <= i < |times| - 1 ==> OutcomeAt(c, readings, i) == Neither
    ensures OutcomeAt(c, readings, |times| - 1) != Neither <==> (Last(from, times) - from) / 1000 >= due
  {
    hide CallAll, TickAll, CallOutcome, Spaced, OutcomeAt;
    var n := |times| - 1;
    Prefixes(c, from, times, readings, n);
    QuietUntilDue(c, from, times[..n], readings[..n], due);
    DueAtLast(c, from, times, readings, due);
  }

  /** After an attempt, successful or not, calls less than syncInterval seconds later attempt nothing,
      and the first call at or after that is the next attempt. */
  lemma NextAttemptDue(before: Clock, r: Reading, from: nat, times: seq<nat>, readings: seq<Reading>)
    requires CallOutcome(before, r) != Neither
    requires var c := AfterNow(before, r);
      && c.prevMillis == from % WORD && c.sysTime + c.syncInterval < WORD
      && Spaced(from, times) && CallsAt(times, readings) && |times| > 0
      && c.sysTime + (Last(from, times) - from) / 1000 < WORD
      && forall i :: 0 <= i < |times| - 1 ==> (times[i] - from) / 1000 < before.syncInterval
    ensures var c := AfterNow(before, r);
      && (forall i :: 0 <= i < |times| - 1 ==> OutcomeAt(c, readings, i) == Neither)
      && (OutcomeAt(c, readings, |times| - 1) != Neither <==> (Last(from, times) - from) / 1000 >= before.syncInterval)
  {
    FirstDueCallAttempts(AfterNow(before, r), from, times, readings, before.syncInterval);
  }

  /** A new interval counts from the moment it is set. */
  lemma NewIntervalHolds(before: Clock, interval: uint32, from: nat, times: seq<nat>, readings: seq<Reading>)
    requires before.provider && before.sysTime + interval < WORD && before.prevMillis == from % WORD
    requires Spaced(from, times) && CallsAt(times, readings) && |times| > 0
    requires before.sysTime + (Last(from, times) - from) / 1000 < WORD
    requires forall i :: 0 <= i < |times| - 1 ==> (times[i] - from) / 1000 < interval
    ensures var c := Do(before, SetInterval(interval));
      && (forall i :: 0 <= i < |times| - 1 ==> OutcomeAt(c, readings, i) == Neither)
      && (OutcomeAt(c, readings, |times| - 1) != Neither <==> (Last(from, times) - from) / 1000 >= interval)
  {
    FirstDueCallAttempts(Do(before, SetInterval(interval)), from, times, readings, interval);
  }

  /** A new provider is asked at once if and only if the seconds still to be counted do not wrap the clock. */
  lemma NewProviderAsked(c: Clock, some: bool, r: Reading)
    ensures OutcomeOf(c, SetProvider(some, r)) != Neither <==>
      some && c.sysTime + Advance(c.prevMillis, r.millis) < WORD
  {
    var n := Advance(c.prevMillis, r.millis);
    assert n < WORD;
    if c.sysTime + n >= WORD {
      assert (c.sysTime + n) % WORD == c.sysTime + n - WORD;
    }
  }

  // ---------------------------------------------------------------- synchronizing

  /** A call that finds nothing due only counts.  One that finds a synchronization due and gets an answer shows exactly
      that answer and counts from the moment it came; without an answer it goes on counting as if it had not asked. */
  lemma WhatACallDoes(c: Clock, r: Reading)
    ensures var t, n := Tick(c, r.millis), AfterNow(c, r);
      var due := c.provider && c.nextSync <= t.sysTime;
      && (CallOutcome(c, r) == Neither <==> !due) && (CallOutcome(c, r) == DidSet <==> due && r.reply != 0)
      && n.provider == c.provider && n.syncInterval == c.syncInterval
      && (!due ==> n == t)
      && (due && r.reply != 0 ==> n.sysTime == r.reply && n.prevMillis == r.after && n.status == TimeSet)
      && (due && r.reply == 0 ==> n.sysTime == t.sysTime && n.prevMillis == t.prevMillis)
      && (due && r.reply == 0 ==> n.status == if c.status == NotSet then NotSet else NeedsSync)
      && (due ==> n.nextSync == (n.sysTime + c.syncInterval) % WORD)
  {
    hide Tick;
    TickKeeps(c, r.millis);
  }

  lemma TickKeeps(c: Clock, millis: uint32)
    ensures var t := Tick(c, millis);
      t.provider == c.provider && t.nextSync == c.nextSync && t.syncInterval == c.syncInterval && t.status == c.status
  {
  }

  /** After a call that synchronized at `from`, every later call shows the provider's time and the whole seconds since,
      until the next synchronization is due. */
  lemma SynchronizedTime(before: Clock, r: Reading, from: nat, times: seq<nat>, readings: seq<Reading>)
    requires CallOutcome(before, r) == DidSet && r.after == from % WORD
    requires Spaced(from, times) && CallsAt(times, readings) && r.reply + before.syncInterval < WORD
    requires forall i :: 0 <= i < |times| ==> (times[i] - from) / 1000 < before.syncInterval
    ensures Last(from, times) >= from
    ensures CallAll(AfterNow(before, r), readings).sysTime == (r.reply + (Last(from, times) - from) / 1000) % WORD
  {
    hide Tick, CallAll;
    var t := Tick(before, r.millis);
    TickKeeps(before, r.millis);
    assert AfterNow(before, r) == SetTo(t, r.reply, r.after);
    SetCountsFromThere(t, r.reply, from, times, readings);
  }

  /** A failed synchronization at `now` does not disturb the clock: every later call, until the next attempt is due,
      shows the whole seconds since the old mark. */
  lemma FailedSyncKeepsCounting(before: Clock, r: Reading, from: nat, now: nat, times: seq<nat>, readings: seq<Reading>)
    requires before.prevMillis == from % WORD && from <= now < from + WORD && r.millis == now % WORD
    requires CallOutcome(before, r) == SyncFailed
    requires Spaced(Mark(from, now), times) && CallsAt(times, readings)
    requires AfterNow(before, r).sysTime + before.syncInterval < WORD
    requires forall i :: 0 <= i < |times| ==> (times[i] - Mark(from, now)) / 1000 < before.syncInterval
    ensures Last(Mark(from, now), times) >= from
    ensures CallAll(AfterNow(before, r), readings).sysTime
      == (before.sysTime + (Last(Mark(from, now), times) - from) / 1000) % WORD
  {
    hide Tick, CallAll, TickAll, Spaced;
    var mark, c := Mark(from, now), AfterNow(before, r);
    WhatACallDoes(before, r);
    assert before == Counted(before, from, from);
    OneTick(before, from, from, now);
    QuietUntilDue(c, mark, times, readings, before.syncInterval);
    DriftFree(c, mark, times);
    var k, l := (now - from) / 1000, Last(mark, times);
    assert (l - from) / 1000 == k + (l - mark) / 1000;
    SumWraps(before.sysTime + k, (l - mark) / 1000);
  }

  /** Without a provider nothing is attempted any more, and the clock only counts. */
  lemma NoProviderNoAttempt(c: Clock, r: Reading, from: nat, times: seq<nat>, readings: seq<Reading>)
    requires var d := Do(c, SetProvider(false, r));
      d.prevMillis == from % WORD && Spaced(from, times) && CallsAt(times, readings)
    ensures var d := Do(c, SetProvider(false, r));
      && OutcomeOf(c, SetProvider(false, r)) == Neither
      && (forall i :: 0 <= i < |times| ==> OutcomeAt(d, readings, i) == Neither)
      && CallAll(d, readings) == TickAll(d, times)
  {
    hide Tick, CallAll, TickAll, Spaced, OutcomeAt;
    WhatACallDoes(c.(provider := false, nextSync := c.sysTime), r);
    QuietUntilDue(Do(c, SetProvider(false, r)), from, times, readings, 0);
  }

  // ---------------------------------------------------------------- setting and adjusting

  /** A clock that was set counts on from there: until the next synchronization is due it shows, at every call,
      the time it was set to and the whole seconds since. */
  lemma SetCountsFromThere(before: Clock, t: uint32, from: nat, times: seq<nat>, readings: seq<Reading>)
    requires Spaced(from, times) && CallsAt(times, readings)
    requires !before.provider || (t + before.syncInterval < WORD
               && forall i :: 0 <= i < |times| ==> (times[i] - from) / 1000 < before.syncInterval)
    ensures Last(from, times) >= from
    ensures CallAll(SetTo(before, t, from % WORD), readings).sysTime == (t + (Last(from, times) - from) / 1000) % WORD
  {
    var c := SetTo(before, t, from % WORD);
    QuietUntilDue(c, from, times, readings, before.syncInterval);
    DriftFree(c, from, times);
  }

  /** An adjustment stays: until the next synchronization is due the clock is ahead, at every call, by exactly
      that much of what it would show. */
  lemma AdjustIsKept(before: Clock, delta: int, from: nat, times: seq<nat>, readings: seq<Reading>)
    requires before.prevMillis == from % WORD && Spaced(from, times) && CallsAt(times, readings)
    requires var c := Do(before, Adjust(delta));
      !c.provider || (c.sysTime <= c.nextSync
        && forall i :: 0 <= i < |times| ==> (times[i] - from) / 1000 < c.nextSync - c.sysTime)
    ensures Last(from, times) >= from
    ensures CallAll(Do(before, Adjust(delta)), readings).sysTime == (TickAll(before, times).sysTime + delta) % WORD
  {
    hide CallAll, TickAll, Spaced;
    var c := Do(before, Adjust(delta));
    var due: nat := if c.sysTime <= c.nextSync then c.nextSync - c.sysTime else 0;
    QuietUntilDue(c, from, times, readings, due);
    DriftFree(c, from, times);
    DriftFree(before, from, times);
    Ahead(before.sysTime, delta, (Last(from, times) - from) / 1000);
  }

  lemma Ahead(time: int, delta: int, seconds: int)
    ensures ((time + delta) % WORD + seconds) % WORD == ((time + seconds) % WORD + delta) % WORD
  {
    SumWraps(time + delta, seconds);
    SumWraps(time + seconds, delta);
  }

  // ---------------------------------------------------------------- the field cache

  /** The cached fields and the time they should belong to. */
  datatype Cache = Cache(tm: Elements, time: uint32)

  const EMPTY := Cache(Elements(0, 0, 0, 0, 0, 0, 0), 0)

  /** An accessor's refresh, and the six-argument `setTime`, which writes the cached fields but the weekday. */
  datatype CacheOp = Refresh(t: uint32) | WriteFields(fields: Elements)

  function Touch(c: Cache, op: CacheOp): Cache {
    match op
    case Refresh(t) => if t != c.time then Cache(Break(t), t) else c
    case WriteFields(fields) => c.(tm := fields.(wday := c.tm.wday))
  }

  function TouchAll(ops: seq<CacheOp>): Cache {
    if |ops| == 0 then EMPTY else Touch(TouchAll(ops[..|ops| - 1]), ops[|ops| - 1])
  }

  predicate Accurate(c: Cache) {
    c.tm == Break(c.time)
  }

  /** The latest operation that broke a time down, or -1. */
  function LastBreak(ops: seq<CacheOp>): (i: int)
    ensures -1 <= i < |ops| && (i >= 0 ==> ops[i].Refresh?)
  {
    if |ops| == 0 then -1
    else
      var before, op := ops[..|ops| - 1], ops[|ops| - 1];
      if op.Refresh? && op.t != TouchAll(before).time then |ops| - 1 else LastBreak(before)
  }

  /** The latest operation that wrote the fields, or -1. */
  function LastWrite(ops: seq<CacheOp>): (i: int)
    ensures -1 <= i < |ops| && (i >= 0 ==> ops[i].WriteFields?)
    ensures forall j :: i < j < |ops| ==> ops[j].Refresh?
  {
    if |ops| == 0 then -1 else if ops[|ops| - 1].WriteFields? then |ops| - 1 else LastWrite(ops[..|ops| - 1])
  }

  /** Over every run: an accessor's fields are right for every time but the cached one, and for that one
      if and only if a time was broken down and the latest write since, if any, happened to write its fields. */
  lemma {:induction false} AccessorsAreRight(ops: seq<CacheOp>, t: uint32)
    ensures Touch(TouchAll(ops), Refresh(t)).tm == Break(t) <==>
      t != TouchAll(ops).time || Intact(ops)
  {
    hide Break;
    CacheHistory(ops);
    var c := TouchAll(ops);
    BreakHasDate(c.time);
    if t == c.time && LastBreak(ops) >= 0 && LastWrite(ops) > LastBreak(ops) {
      var written := ops[LastWrite(ops)].fields;
      assert c.tm == written.(wday := Break(c.time).wday);
    }
  }

  predicate Intact(ops: seq<CacheOp>) {
    var b, w := LastBreak(ops), LastWrite(ops);
    b >= 0 && (w > b ==> ops[w].fields.(wday := 0) == Break(ops[b].t).(wday := 0))
  }

  lemma BreakHasDate(t: uint32)
    ensures Break(t).wday > 0
  {
  }

  lemma {:induction false} CacheHistory(ops: seq<CacheOp>)
    ensures var c, b, w := TouchAll(ops), LastBreak(ops), LastWrite(ops);
      && c.time == (if b < 0 then 0 else ops[b].t)
      && c.tm.wday == (if b < 0 then 0 else Break(ops[b].t).wday)
      && c.tm == (if w > b then ops[w].fields.(wday := c.tm.wday) else if b < 0 then EMPTY.tm else Break(ops[b].t))
  {
    hide Break;
    if |ops| > 0 {
      CacheHistory(ops[..|ops| - 1]);
    }
  }

  /** Before the first break the cached time 0 has no date: its month reads 0, not January. */
  lemma NoDateAtStart()
    ensures Touch(EMPTY, Refresh(0)).tm.month == 0 && Break(0).month > 0
  {
    BreakHasMonth(0);
  }

  lemma BreakHasMonth(t: uint32)
    ensures Break(t).month > 0
  {
  }

  // ---------------------------------------------------------------- the clock in place

  class SystemClock {
    var sysTime: uint32
    var prevMillis: uint32
    var nextSyncTime: uint32
    var status: Status
    var syncInterval: uint32
    var hasProvider: bool
    var tm: Elements
    var cacheTime: uint32

    constructor ()
      ensures State() == START && Cached() == EMPTY
      ensures State() == Clock(0, 0, 0, NotSet, 300, false)
    {
      sysTime, prevMillis, nextSyncTime, status, syncInterval, hasProvider := 0, 0, 0, NotSet, 300, false;
      tm, cacheTime := Elements(0, 0, 0, 0, 0, 0, 0), 0;
    }

    ghost function State(): Clock
      reads this
    {
      Clock(sysTime, prevMillis, nextSyncTime, status, syncInterval, hasProvider)
    }

    ghost function Cached(): Cache
      reads this`tm, this`cacheTime
    {
      Cache(tm, cacheTime)
    }

    /** `now`: counts second by second, then synchronizes when that is due. */
    method Now(readings: seq<uint32>, reply: uint32, after: uint32) returns (t: uint32)
      requires Stops(State(), readings)
      modifies this`sysTime, this`prevMillis, this`nextSyncTime, this`status
      ensures State() == Conclude(CountAll(old(State()), readings), reply, after) && t == sysTime
    {
      CountSeconds(readings);
      if nextSyncTime <= sysTime {
        if hasProvider {
          if reply != 0 {
            SetTime(reply, after);
          } else {
            nextSyncTime := (sysTime + syncInterval) % WORD;
            status := if status == NotSet then NotSet else NeedsSync;
          }
        }
      }
      t := sysTime;
    }

    method CountSeconds(readings: seq<uint32>)
      requires Stops(State(), readings)
      modifies this`sysTime, this`prevMillis
      ensures State() == CountAll(old(State()), readings)
    {
      var i := 0;
      assert readings[0..] == readings;
      while (readings[i] - prevMillis) % WORD >= 1000
        invariant i < |readings| && Stops(State(), readings[i..])
        invariant CountAll(State(), readings[i..]) == CountAll(old(State()), readings)
        decreases |readings| - i
      {
        assert readings[i..][1..] == readings[i + 1..];
        sysTime := (sysTime + 1) % WORD;
        prevMillis := (prevMillis + 1000) % WORD;
        i := i + 1;
      }
    }

    /** `setTime` with a time. */
    method SetTime(t: uint32, millis: uint32)
      modifies this`sysTime, this`nextSyncTime, this`status, this`prevMillis
      ensures State() == SetTo(old(State()), t, millis)
    {
      sysTime := t;
      nextSyncTime := (t + syncInterval) % WORD;
      status := TimeSet;
      prevMillis := millis;
    }

    /** `setTime` with fields; years up to 99 count from 2000.  It writes the cached fields, not the cached time. */
    method SetTimeFields(hr: int, min: int, sec: int, dy: int, mnth: int, yr: int, millis: uint32)
      requires mnth % 256 <= 13
      modifies this`sysTime, this`nextSyncTime, this`status, this`prevMillis, this`tm
      ensures Cached() == Touch(old(Cached()), WriteFields(Elements(sec % 256, min % 256, hr % 256, 0, dy % 256,
        mnth % 256, (if yr > 99 then yr - 1970 else yr + 30) % 256)))
      ensures State() == SetTo(old(State()), Make(tm), millis)
    {
      var y := if yr > 99 then yr - 1970 else yr + 30;
      tm := Elements(sec % 256, min % 256, hr % 256, tm.wday, dy % 256, mnth % 256, y % 256);
      var t := MakeTime(tm);
      SetTime(t, millis);
    }

    method AdjustTime(adjustment: int)
      modifies this`sysTime
      ensures State() == Do(old(State()), Adjust(adjustment))
    {
      sysTime := (sysTime + adjustment) % WORD;
    }

    method SetSyncProvider(some: bool, readings: seq<uint32>, reply: uint32, after: uint32)
      requires Stops(State().(provider := some, nextSync := sysTime), readings)
      modifies this`hasProvider, this`nextSyncTime, this`sysTime, this`prevMillis, this`status
      ensures State()
        == Conclude(CountAll(old(State().(provider := some, nextSync := sysTime)), readings), reply, after)
    {
      hasProvider := some;
      nextSyncTime := sysTime;
      var _ := Now(readings, reply, after);
    }

    method SetSyncInterval(interval: uint32)
      modifies this`syncInterval, this`nextSyncTime
      ensures State() == Do(old(State()), SetInterval(interval))
    {
      syncInterval := interval;
      nextSyncTime := (sysTime + syncInterval) % WORD;
    }

    method RefreshCache(t: uint32)
      modifies this`tm, this`cacheTime
      ensures Cached() == Touch(old(Cached()), Refresh(t)) && cacheTime == t
    {
      if t != cacheTime {
        tm := BreakTime(t);
        cacheTime := t;
      }
    }

    /** The accessors: right whenever the refreshed cache is. */
    method Hour(t: uint32) returns (hour: int)
      modifies this`tm, this`cacheTime
      ensures Cached() == Touch(old(Cached()), Refresh(t)) && hour == tm.hour
      ensures Accurate(Cached()) ==> hour == t / 3600 % 24
    {
      RefreshCache(t);
      hour := tm.hour;
    }

    method HourFormat12(t: uint32) returns (hour: int)
      modifies this`tm, this`cacheTime
      ensures Cached() == Touch(old(Cached()), Refresh(t))
      ensures Accurate(Cached()) ==> 1 <= hour <= 12 && hour % 12 == t / 3600 % 12
    {
      hide Touch, Accurate;
      var h := Hour(t);
      hour := if h == 0 then 12 else if h > 12 then h - 12 else h;
      if Accurate(Cached()) {
        HalfDay(t / 3600);
      }
    }

    static lemma HalfDay(hours: nat)
      ensures var h := hours % 24;
        var r := if h == 0 then 12 else if h > 12 then h - 12 else h;
        1 <= r <= 12 && r % 12 == hours % 12
    {
      assert hours == hours / 24 * 24 + hours % 24;
      Congruent(hours / 24, hours % 24);
    }

    static lemma Congruent(k: nat, h: nat)
      ensures (k * 24 + h) % 12 == h % 12
    {
      var q, r := 2 * k + h / 12, h % 12;
      assert k * 24 + h == 12 * q + r;
      Dozens(q, r);
    }

    static lemma Dozens(q: nat, r: nat)
      requires r < 12
      ensures (12 * q + r) % 12 == r
    {
    }

    /** The full year, whose first second is not after `t` and whose end is. */
    method Year(t: uint32) returns (year: int)
      modifies this`tm, this`cacheTime
      ensures Cached() == Touch(old(Cached()), Refresh(t)) && year >= 1970
      ensures Accurate(Cached()) ==> YearStart(year - 1970) * DAY <= t < YearStart(year - 1970 + 1) * DAY
    {
      RefreshCache(t);
      year := tm.year + 1970;
      YearBounds(t);
    }

    static lemma YearBounds(t: uint32)
      ensures YearStart(Break(t).year) * DAY <= t < YearStart(Break(t).year + 1) * DAY
    {
    }
  }
}

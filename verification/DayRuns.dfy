/** Whole runs of the sketch's day table in memory, in the EEPROM buffer and in flash, and what a restart finds. */
module DayRuns {
  import opened Words

  import opened DayTables
  import opened Eeproms

  /** What the sketch does between two restarts.  A day is changed in memory and saved by `putEeprom`; a new month
      clears a row in memory only; settings are put or written behind the table and then committed. */
  datatype Change =
    | SetDay(slot: nat, day: uint32)
    | ClearMonth(month: nat)
    | SaveDay(slot: nat, junk: uint32, fate: Fate)
    | PutSetting(address: nat, bytes: seq<uint8>)
    | WriteSetting(address: nat, value: uint8)
    | CommitSettings(fate: Fate)

  predicate Fine(change: Change) {
    match change
    case SetDay(slot, _) => slot < SLOTS
    case ClearMonth(month) => month < MONTHS
    case SaveDay(slot, _, fate) => slot < SLOTS && Sane(fate)
    case PutSetting(address, bytes) => TABLE_BYTES <= address && |bytes| > 0 && address + |bytes| <= SESSION
    case WriteSetting(address, _) => TABLE_BYTES <= address < SESSION
    case CommitSettings(fate) => Sane(fate)
  }

  predicate AllFine(changes: seq<Change>) {
    forall i :: 0 <= i < |changes| ==> Fine(changes[i])
  }

  /** The EEPROM and the table in memory. */
  datatype World = World(eeprom: State, memory: seq<uint32>)

  predicate Sound(w: World) {
    Inv(w.eeprom) && |w.memory| == SLOTS
  }

  function Cleared(table: seq<uint32>, month: nat): (r: seq<uint32>)
    requires |table| == SLOTS && month < MONTHS
    ensures |r| == SLOTS
    ensures forall k :: 0 <= k < SLOTS ==> r[k] == if k / DAYS == month then 0 else table[k]
  {
    seq(SLOTS, k requires 0 <= k < SLOTS => if k / DAYS == month then 0 else table[k])
  }

  function Step(w: World, change: Change): (r: World)
    requires Sound(w) && Fine(change)
    ensures Sound(r) && |r.eeprom.buffer| == |w.eeprom.buffer|
  {
    match change
    case SetDay(slot, value) => w.(memory := w.memory[slot := value])
    case ClearMonth(month) => w.(memory := Cleared(w.memory, month))
    case SaveDay(slot, junk, fate) =>
      StoreInv(w.eeprom, slot, w.memory[slot], junk, fate);
      w.(eeprom := Store(w.eeprom, slot, w.memory[slot], junk, fate))
    case PutSetting(address, bytes) => w.(eeprom := Do(w.eeprom, DoPut(address, bytes)))
    case WriteSetting(address, value) => w.(eeprom := Do(w.eeprom, DoWrite(address, value)))
    case CommitSettings(fate) => w.(eeprom := Do(w.eeprom, DoCommit(fate)))
  }

  function StepAll(w: World, changes: seq<Change>): (r: World)
    requires Sound(w) && AllFine(changes)
    ensures Sound(r) && |r.eeprom.buffer| == |w.eeprom.buffer|
  {
    if |changes| == 0 then w else Step(StepAll(w, changes[..|changes| - 1]), changes[|changes| - 1])
  }

  // ---------------------------------------------------------------- the same without bytes

  /** The table in memory, the one in the buffer, the settings in the buffer, whether the buffer waits to be written,
      and the table in flash. */
  datatype Plain = Plain(memory: seq<uint32>, stored: seq<uint32>, settings: seq<uint8>, pending: bool,
                         kept: seq<uint32>)

  predicate Shaped(p: Plain) {
    |p.memory| == |p.stored| == |p.kept| == SLOTS && |p.settings| == SESSION - TABLE_BYTES
  }

  function PlainCommit(p: Plain, fate: Fate): (r: Plain)
    requires Shaped(p) && Sane(fate)
    ensures Shaped(r)
  {
    if fate == Fate(Done, Done) then p.(pending := false, kept := p.stored)
    else p.(pending := true, kept := Slots(Left(fate)))
  }

  function PlainStep(p: Plain, change: Change): (r: Plain)
    requires Shaped(p) && Fine(change)
    ensures Shaped(r)
  {
    match change
    case SetDay(slot, value) => p.(memory := p.memory[slot := value])
    case ClearMonth(month) => p.(memory := Cleared(p.memory, month))
    case SaveDay(slot, _, fate) =>
      if p.stored[slot] == p.memory[slot] then p
      else PlainCommit(p.(stored := p.stored[slot := p.memory[slot]]), fate)
    case PutSetting(address, bytes) =>
      p.(settings := Overlay(p.settings, address - TABLE_BYTES, bytes), pending := true)
    case WriteSetting(address, value) =>
      if p.settings[address - TABLE_BYTES] == value then p
      else p.(settings := p.settings[address - TABLE_BYTES := value], pending := true)
    case CommitSettings(fate) => if p.pending then PlainCommit(p, fate) else p
  }

  function PlainAll(p: Plain, changes: seq<Change>): (r: Plain)
    requires Shaped(p) && AllFine(changes)
    ensures Shaped(r)
  {
    if |changes| == 0 then p else PlainStep(PlainAll(p, changes[..|changes| - 1]), changes[|changes| - 1])
  }

  function PlainOf(w: World): (p: Plain)
    requires Sound(w) && |w.eeprom.buffer| == SESSION
    ensures Shaped(p)
  {
    Plain(w.memory, Slots(w.eeprom.buffer), w.eeprom.buffer[TABLE_BYTES..], w.eeprom.dirty, Slots(w.eeprom.flash))
  }

  lemma SettingElsewhere(buffer: seq<uint8>, address: nat, bytes: seq<uint8>)
    requires |buffer| == SESSION && TABLE_BYTES <= address && address + |bytes| <= SESSION
    ensures var r := Overlay(buffer, address, bytes);
      Slots(r) == Slots(buffer) && r[TABLE_BYTES..] == Overlay(buffer[TABLE_BYTES..], address - TABLE_BYTES, bytes)
  {
    var r := Overlay(buffer, address, bytes);
    forall k | 0 <= k < SLOTS ensures Slot(r, k) == Slot(buffer, k) {
      OverlayElsewhere(buffer, address, bytes, 4 * k, 4);
    }
  }

  lemma ByteElsewhere(buffer: seq<uint8>, address: nat, value: uint8)
    requires |buffer| == SESSION && TABLE_BYTES <= address < SESSION
    ensures var r := buffer[address := value];
      && Slots(r) == Slots(buffer) && r[TABLE_BYTES..] == buffer[TABLE_BYTES..][address - TABLE_BYTES := value]
      && buffer[TABLE_BYTES..][address - TABLE_BYTES] == buffer[address]
  {
    var r := buffer[address := value];
    forall k | 0 <= k < SLOTS ensures Slot(r, k) == Slot(buffer, k) {
      UpdateElsewhere(buffer, address, value, 4 * k);
    }
  }

  lemma UpdateElsewhere(buffer: seq<uint8>, address: nat, value: uint8, from: nat)
    requires from + 4 <= address < |buffer|
    ensures buffer[address := value][from..from + 4] == buffer[from..from + 4]
  {
  }

  lemma StepRefines(w: World, change: Change)
    requires Sound(w) && |w.eeprom.buffer| == SESSION && Fine(change)
    ensures PlainOf(Step(w, change)) == PlainStep(PlainOf(w), change)
  {
    hide Slots, Store, Commit, Overlay, Left, Cleared;
    var s := w.eeprom;
    match change
    case SetDay(_, _) =>
    case ClearMonth(_) =>
    case SaveDay(slot, junk, fate) =>
      StoreChangesOneSlot(s, slot, w.memory[slot], junk, fate);
      StoreFlash(s, slot, w.memory[slot], junk, fate);
    case PutSetting(address, bytes) => SettingElsewhere(s.buffer, address, bytes);
    case WriteSetting(address, value) => ByteElsewhere(s.buffer, address, value);
    case CommitSettings(fate) => CommitFlash(s, fate);
  }

  /** Every run on the bytes is a run of the plain tables. */
  lemma {:induction false} RunRefines(w: World, changes: seq<Change>)
    requires Sound(w) && |w.eeprom.buffer| == SESSION && AllFine(changes)
    ensures PlainOf(StepAll(w, changes)) == PlainAll(PlainOf(w), changes)
  {
    hide Step, PlainStep, PlainOf;
    if |changes| > 0 {
      RunRefines(w, changes[..|changes| - 1]);
      StepRefines(StepAll(w, changes[..|changes| - 1]), changes[|changes| - 1]);
    }
  }

  // ---------------------------------------------------------------- what a restart finds

  /** The last change that wrote to the flash, or -1: a saved day that was stored with another value,
      or a commit with something to write. */
  function LastWrite(p: Plain, changes: seq<Change>): (i: int)
    requires Shaped(p) && AllFine(changes)
    ensures -1 <= i < |changes| && (i >= 0 ==> changes[i].SaveDay? || changes[i].CommitSettings?)
  {
    if |changes| == 0 then -1
    else
      var before, change := changes[..|changes| - 1], changes[|changes| - 1];
      var q := PlainAll(p, before);
      if (change.SaveDay? && q.stored[change.slot] != q.memory[change.slot]) || (change.CommitSettings? && q.pending)
      then |changes| - 1
      else LastWrite(p, before)
  }

  /** The table a restart finds: that of the start if nothing was written, all that was stored if the last write
      succeeded, and what the flash was left with if it failed. */
  function Found(p: Plain, changes: seq<Change>): seq<uint32>
    requires Shaped(p) && AllFine(changes)
  {
    var i := LastWrite(p, changes);
    if i < 0 then p.kept
    else if changes[i].fate == Fate(Done, Done) then PlainAll(p, changes).stored
    else Slots(Left(changes[i].fate))
  }

  lemma {:induction false} KeptIsFound(p: Plain, changes: seq<Change>)
    requires Shaped(p) && AllFine(changes)
    ensures PlainAll(p, changes).kept == Found(p, changes)
  {
    hide Slots, Left, Overlay, Cleared;
    if |changes| > 0 {
      KeptIsFound(p, changes[..|changes| - 1]);
    }
  }

  /** The last change that wrote to the flash or changed a setting in the buffer, or -1. */
  function LastTouch(p: Plain, changes: seq<Change>): (i: int)
    requires Shaped(p) && AllFine(changes)
    ensures -1 <= i < |changes|
    ensures i >= 0 ==> !changes[i].SetDay? && !changes[i].ClearMonth?
  {
    if |changes| == 0 then -1
    else
      var before, change := changes[..|changes| - 1], changes[|changes| - 1];
      if Touches(PlainAll(p, before), change) then |changes| - 1 else LastTouch(p, before)
  }

  predicate Touches(q: Plain, change: Change)
    requires Shaped(q) && Fine(change)
  {
    match change
    case SaveDay(slot, _, _) => q.stored[slot] != q.memory[slot]
    case PutSetting(_, _) => true
    case WriteSetting(address, value) => q.settings[address - TABLE_BYTES] != value
    case CommitSettings(_) => q.pending
    case _ => false
  }

  /** The buffer waits for nothing at the end if and only if the last change that touched it wrote it successfully,
      or nothing did and it waited for nothing at the start. */
  lemma {:induction false} EndsClean(p: Plain, changes: seq<Change>)
    requires Shaped(p) && AllFine(changes)
    ensures var i := LastTouch(p, changes);
      !PlainAll(p, changes).pending <==>
        if i < 0 then !p.pending
        else (changes[i].SaveDay? || changes[i].CommitSettings?) && changes[i].fate == Fate(Done, Done)
  {
    hide Slots, Left, Overlay, Cleared;
    if |changes| > 0 {
      EndsClean(p, changes[..|changes| - 1]);
    }
  }

  /** What a restart finds after any run, whatever failed and wherever. */
  lemma RestartFinds(w: World, changes: seq<Change>)
    requires Sound(w) && |w.eeprom.buffer| == SESSION && AllFine(changes)
    ensures Slots(Begin(Reboot(StepAll(w, changes).eeprom), SESSION).buffer) == Found(PlainOf(w), changes)
  {
    hide Slots, Found, PlainAll, StepAll;
    RunRefines(w, changes);
    KeptIsFound(PlainOf(w), changes);
    assert BufferSize(SESSION) == SESSION;
    SlotsInSession(StepAll(w, changes).eeprom.flash);
  }

  function MonthSlots(month: nat): set<nat> {
    set k: nat | k < SLOTS && k / DAYS == month
  }

  /** The days that were changed in memory and not saved since. */
  function Unsaved(changes: seq<Change>): set<nat> {
    if |changes| == 0 then {} else UnsavedAfter(Unsaved(changes[..|changes| - 1]), changes[|changes| - 1])
  }

  function UnsavedAfter(before: set<nat>, change: Change): set<nat> {
    match change
    case SetDay(slot, _) => before + {slot}
    case ClearMonth(month) => before + MonthSlots(month)
    case SaveDay(slot, _, _) => before - {slot}
    case _ => before
  }

  predicate Changes(change: Change, k: nat) {
    match change
    case SetDay(slot, _) => slot == k
    case ClearMonth(month) => k < SLOTS && k / 31 == month
    case _ => false
  }

  predicate Saves(change: Change, k: nat) {
    change.SaveDay? && change.slot == k
  }

  predicate ChangedAt(changes: seq<Change>, k: nat, i: nat) {
    i < |changes| && Changes(changes[i], k) && forall j :: i < j < |changes| ==> !Saves(changes[j], k)
  }

  /** A day is unsaved exactly when some change of it has no save of it behind. */
  lemma {:induction false} UnsavedMeans(changes: seq<Change>, k: nat)
    ensures k in Unsaved(changes) <==> exists i: nat :: ChangedAt(changes, k, i)
  {
    if |changes| > 0 {
      var n := |changes| - 1;
      UnsavedMeans(changes[..n], k);
      if k in Unsaved(changes) {
        if Changes(changes[n], k) {
          assert ChangedAt(changes, k, n);
        } else {
          var i: nat :| ChangedAt(changes[..n], k, i);
          assert ChangedAt(changes, k, i);
        }
      }
      if i: nat :| ChangedAt(changes, k, i) {
        if i < n {
          assert ChangedAt(changes[..n], k, i);
          assert !Saves(changes[n], k);
        }
      }
    }
  }

  /** What is not unsaved is stored as it is in memory. */
  lemma {:induction false} SavedIsMemory(p: Plain, changes: seq<Change>)
    requires Shaped(p) && AllFine(changes) && p.stored == p.memory
    ensures forall k :: 0 <= k < SLOTS && k !in Unsaved(changes) ==>
      PlainAll(p, changes).stored[k] == PlainAll(p, changes).memory[k]
  {
    hide Slots, Left, Overlay;
    if |changes| > 0 {
      SavedIsMemory(p, changes[..|changes| - 1]);
    }
  }

  /** At midnight yesterday's last yield is added after its last save, today is saved first, and then yesterday:
      afterwards neither is unsaved. */
  lemma MidnightSaves(changes: seq<Change>, yesterday: nat, value: uint32, today: nat,
      junk: (uint32, uint32), fate: (Fate, Fate))
    ensures var midnight :=
      [SetDay(yesterday, value), SaveDay(today, junk.0, fate.0), SaveDay(yesterday, junk.1, fate.1)];
      Unsaved(changes + midnight) == Unsaved(changes) - {yesterday, today}
  {
    var a, b, c := SetDay(yesterday, value), SaveDay(today, junk.0, fate.0), SaveDay(yesterday, junk.1, fate.1);
    UnsavedOneMore(changes, a);
    UnsavedOneMore(changes + [a], b);
    UnsavedOneMore(changes + [a] + [b], c);
    assert changes + [a, b, c] == changes + [a] + [b] + [c];
  }

  lemma UnsavedOneMore(changes: seq<Change>, change: Change)
    ensures Unsaved(changes + [change]) == UnsavedAfter(Unsaved(changes), change)
  {
    assert (changes + [change])[..|changes|] == changes;
  }

  predicate WriteSucceeded(p: Plain, changes: seq<Change>)
    requires Shaped(p) && AllFine(changes)
  {
    var i := LastWrite(p, changes);
    i < 0 || changes[i].fate == Fate(Done, Done)
  }

  /** After any run a restart finds the table that was in memory if and only if the last write succeeded, or there was
      none, and every unsaved day is stored with its value anyway; or the last write failed and left just that table.
      All other writes may fail. */
  lemma TableIsRestored(w: World, changes: seq<Change>)
    requires Sound(w) && |w.eeprom.buffer| == SESSION && AllFine(changes)
    requires !w.eeprom.dirty && w.memory == Slots(w.eeprom.buffer)
    ensures var p := PlainOf(w);
      var after, i := PlainAll(p, changes), LastWrite(p, changes);
      && StepAll(w, changes).memory == after.memory
      && (Slots(Begin(Reboot(StepAll(w, changes).eeprom), SESSION).buffer) == after.memory <==>
            if WriteSucceeded(p, changes)
            then forall k :: 0 <= k < SLOTS && k in Unsaved(changes) ==> after.stored[k] == after.memory[k]
            else Slots(Left(changes[i].fate)) == after.memory)
  {
    hide Slots, PlainAll, StepAll, Unsaved;
    FoundIfSucceeded(w, changes);
    RestartFinds(w, changes);
    RunRefines(w, changes);
    SavedIsMemory(PlainOf(w), changes);
  }

  lemma FoundIfSucceeded(w: World, changes: seq<Change>)
    requires Sound(w) && |w.eeprom.buffer| == SESSION && AllFine(changes) && !w.eeprom.dirty
    ensures WriteSucceeded(PlainOf(w), changes) ==> Found(PlainOf(w), changes) == PlainAll(PlainOf(w), changes).stored
  {
    hide Slots, PlainAll;
    SlotsInSession(w.eeprom.flash);
    if LastWrite(PlainOf(w), changes) < 0 {
      NothingWritten(PlainOf(w), changes);
    }
  }

  /** So a run that leaves no day unsaved is restored if and only if the last write succeeded, or there was none,
      or it failed and left just that table. */
  lemma SavedRunIsRestored(w: World, changes: seq<Change>)
    requires Sound(w) && |w.eeprom.buffer| == SESSION && AllFine(changes)
    requires !w.eeprom.dirty && w.memory == Slots(w.eeprom.buffer) && Unsaved(changes) == {}
    ensures var memory, i := StepAll(w, changes).memory, LastWrite(PlainOf(w), changes);
      Slots(Begin(Reboot(StepAll(w, changes).eeprom), SESSION).buffer) == memory <==>
        i < 0 || changes[i].fate == Fate(Done, Done) || Slots(Left(changes[i].fate)) == memory
  {
    hide Slots, PlainAll, StepAll, Unsaved;
    TableIsRestored(w, changes);
  }

  lemma {:induction false} NothingWritten(p: Plain, changes: seq<Change>)
    requires Shaped(p) && AllFine(changes) && LastWrite(p, changes) < 0
    ensures PlainAll(p, changes).stored == p.stored
  {
    hide Slots, Left, Overlay, Cleared;
    if |changes| > 0 {
      NothingWritten(p, changes[..|changes| - 1]);
    }
  }

  predicate NeverSaved(changes: seq<Change>, k: nat) {
    forall i :: 0 <= i < |changes| && changes[i].SaveDay? ==> changes[i].slot != k
  }

  lemma {:induction false} NeverSavedIsStored(p: Plain, changes: seq<Change>, k: nat)
    requires Shaped(p) && AllFine(changes) && k < SLOTS && NeverSaved(changes, k)
    ensures PlainAll(p, changes).stored[k] == p.stored[k]
  {
    hide Slots, Left, Overlay, Cleared;
    if |changes| > 0 {
      NeverSavedIsStored(p, changes[..|changes| - 1], k);
    }
  }

  /** A day that no change of the run saves is found by a restart as it was, whatever is saved besides,
      unless the last write failed. */
  lemma UnsavedDayReturns(w: World, changes: seq<Change>, k: nat)
    requires Sound(w) && |w.eeprom.buffer| == SESSION && AllFine(changes) && !w.eeprom.dirty
    requires k < SLOTS && NeverSaved(changes, k) && WriteSucceeded(PlainOf(w), changes)
    ensures Slots(Begin(Reboot(StepAll(w, changes).eeprom), SESSION).buffer)[k] == Slots(w.eeprom.buffer)[k]
  {
    hide Slots, PlainAll, StepAll, NeverSaved, WriteSucceeded;
    FoundIfSucceeded(w, changes);
    RestartFinds(w, changes);
    NeverSavedIsStored(PlainOf(w), changes, k);
  }

  /** No change sets the day. */
  predicate NeverSet(changes: seq<Change>, k: nat) {
    forall i :: 0 <= i < |changes| && changes[i].SetDay? ==> changes[i].slot != k
  }

  lemma {:induction false} ClearedStays(p: Plain, month: nat, later: seq<Change>, k: nat)
    requires Shaped(p) && AllFine([ClearMonth(month)] + later)
    requires k < SLOTS && k / DAYS == month && NeverSet(later, k)
    ensures PlainAll(p, [ClearMonth(month)] + later).memory[k] == 0
  {
    hide Slots, Left, Overlay;
    var all := [ClearMonth(month)] + later;
    if |later| > 0 {
      var n := |later| - 1;
      assert all[..|all| - 1] == [ClearMonth(month)] + later[..n] && all[|all| - 1] == later[n];
      assert AllFine(all[..|all| - 1]);
      ClearedStays(p, month, later[..n], k);
    } else {
      assert all[..0] == [];
    }
  }

  /** A cleared month comes back, day by day: cleared in memory only, a day of it that is neither set nor saved later
      is found by a restart as it was before, whatever else is changed and saved, unless the last write failed;
      and so as it is in memory if and only if it was 0. */
  lemma ClearedMonthReturns(w: World, month: nat, later: seq<Change>, k: nat)
    requires Sound(w) && |w.eeprom.buffer| == SESSION
    requires !w.eeprom.dirty && w.memory == Slots(w.eeprom.buffer)
    requires k < SLOTS && k / DAYS == month && NeverSaved(later, k) && NeverSet(later, k)
    requires AllFine([ClearMonth(month)] + later) && WriteSucceeded(PlainOf(w), [ClearMonth(month)] + later)
    ensures var after := StepAll(w, [ClearMonth(month)] + later);
      var found := Slots(Begin(Reboot(after.eeprom), SESSION).buffer);
      && found[k] == w.memory[k]
      && (found[k] == after.memory[k] <==> w.memory[k] == 0)
  {
    hide Slots, PlainAll, StepAll, WriteSucceeded;
    var changes := [ClearMonth(month)] + later;
    UnsavedDayReturns(w, changes, k);
    RunRefines(w, changes);
    ClearedStays(PlainOf(w), month, later, k);
  }

  /** A day is lost when the only write after its change fails: if the erase fails without any effect, the restart
      finds the day as it was before. */
  lemma DayIsLost(w: World, slot: nat, value: uint32, junk: uint32, write: FlashResult)
    requires Sound(w) && |w.eeprom.buffer| == SESSION && slot < SLOTS
    requires !w.eeprom.dirty && w.memory == Slots(w.eeprom.buffer) && w.memory[slot] != value
    requires Sane(Fate(Failed(w.eeprom.flash), write))
    ensures var changed := Step(w, SetDay(slot, value));
      var after := Step(changed, SaveDay(slot, junk, Fate(Failed(w.eeprom.flash), write)));
      && after.memory[slot] == value
      && Slots(Begin(Reboot(after.eeprom), SESSION).buffer) == w.memory
  {
    hide Slots, Store;
    assert BufferSize(SESSION) == SESSION;
    SlotsInSession(w.eeprom.flash);
    StoreFlash(w.eeprom, slot, value, junk, Fate(Failed(w.eeprom.flash), write));
  }

  /** What is saved or set after a delete is lost: until the next session nothing reaches the flash. */
  lemma {:induction false} ChangesAfterDeleteAreLost(w: World, commit: Fate, end: Fate, changes: seq<Change>)
    requires Sound(w) && Sane(commit) && Sane(end) && AllFine(changes)
    ensures StepAll(w.(eeprom := Deleted(w.eeprom, commit, end)), changes).eeprom == Deleted(w.eeprom, commit, end)
  {
    hide Deleted;
    if |changes| > 0 {
      ChangesAfterDeleteAreLost(w, commit, end, changes[..|changes| - 1]);
    }
  }
}

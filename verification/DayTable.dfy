/** The table of daily yields: twelve months of 31 four-byte words, kept at the start of the EEPROM. */
module DayTables {
  import opened Words

  import opened Eeproms

  const MONTHS := 12
  const DAYS := 31
  const SLOTS := MONTHS * DAYS
  const TABLE_BYTES := 4 * SLOTS
  const SESSION := 1520

  // ---------------------------------------------------------------- layout

  /** `eeAddress`; month and day count from 0. */
  function Address(month: nat, day: nat): nat {
    (day + 1 + month * DAYS - 1) * 4
  }

  predicate IsSlot(month: nat, day: nat) {
    month < MONTHS && day < DAYS
  }

  /** Every byte of 0..1487 lies in the word of exactly one day, and no word reaches further. */
  lemma SlotsTile(address: nat, month: nat, day: nat)
    requires IsSlot(month, day)
    ensures address < TABLE_BYTES ==> IsSlot(address / 4 / DAYS, address / 4 % DAYS)
    ensures Address(month, day) <= address < Address(month, day) + 4 <==>
      address < TABLE_BYTES && month == address / 4 / DAYS && day == address / 4 % DAYS
  {
    var word := address / 4;
    assert Address(month, day) == 4 * (DAYS * month + day);
    if word == DAYS * month + day {
      assert word / DAYS == month;
    }
  }

  /** Different days have disjoint words. */
  lemma SlotsDisjoint(month: nat, day: nat, month': nat, day': nat)
    requires IsSlot(month, day) && IsSlot(month', day') && (month != month' || day != day')
    ensures Disjoint(Address(month, day), 4, Address(month', day'), 4)
  {
    SlotsTile(Address(month, day), month', day');
    SlotsTile(Address(month, day), month, day);
    SlotsTile(Address(month', day'), month, day);
    SlotsTile(Address(month', day'), month', day');
  }

  /** The words are numbered row by row. */
  lemma SlotNumber(month: nat, day: nat)
    requires IsSlot(month, day)
    ensures Address(month, day) == 4 * (DAYS * month + day) && DAYS * month + day < SLOTS
    ensures Address(month, day) == 4 * (31 * month + day) < 1488
  {
  }

  // ---------------------------------------------------------------- words

  /** Little-endian. */
  function Bytes(w: uint32): (r: seq<uint8>)
    ensures |r| == 4 && Word(r) == w
  {
    WordBytes(w);
    [w % 256, w / 256 % 256, w / 256 / 256 % 256, w / 256 / 256 / 256]
  }

  function Word(bytes: seq<uint8>): uint32
    requires |bytes| == 4
  {
    bytes[0] as int + 256 * (bytes[1] as int + 256 * (bytes[2] as int + 256 * bytes[3] as int))
  }

  /** The first byte counts least. */
  lemma LittleEndian(w: uint32)
    ensures var b := Bytes(w);
      w == b[0] as int + 0x100 * (b[1] as int) + 0x1_0000 * (b[2] as int) + 0x100_0000 * (b[3] as int)
  {
  }

  lemma WordBytes(w: uint32)
    ensures var a, b := w / 256, w / 256 / 256;
      && w == w % 256 + 256 * (a % 256 + 256 * (b % 256 + 256 * (b / 256)))
      && b / 256 < 256
  {
    var a, b := w / 256, w / 256 / 256;
    assert w == w % 256 + 256 * a && a == a % 256 + 256 * b && b == b % 256 + 256 * (b / 256);
  }

  function Slot(buffer: seq<uint8>, k: nat): uint32
    requires 4 * k + 4 <= |buffer|
  {
    Word(buffer[4 * k..4 * k + 4])
  }

  /** The stored table, row by row. */
  function Slots(buffer: seq<uint8>): (r: seq<uint32>)
    requires |buffer| >= TABLE_BYTES
    ensures |r| == SLOTS
  {
    seq(SLOTS, k requires 0 <= k < SLOTS => Slot(buffer, k))
  }

  function Sum(table: seq<uint32>): nat {
    if |table| == 0 then 0 else Sum(table[..|table| - 1]) + table[|table| - 1]
  }

  // ---------------------------------------------------------------- storing a day

  /** `putEeprom`; `junk` is what its local holds when `get` leaves it unset. */
  function Store(s: State, k: nat, w: uint32, junk: uint32, fate: Fate): State
    requires Inv(s) && Sane(fate)
  {
    if Word(Get(s, 4 * k, Bytes(junk))) == w then s else Commit(Do(s, DoPut(4 * k, Bytes(w))), fate)
  }

  lemma StoreInv(s: State, k: nat, w: uint32, junk: uint32, fate: Fate)
    requires Inv(s) && Sane(fate)
    ensures Inv(Store(s, k, w, junk, fate)) && |Store(s, k, w, junk, fate).buffer| == |s.buffer|
  {
    assert Inv(Do(Do(s, DoPut(4 * k, Bytes(w))), DoCommit(fate)));
  }

  lemma OverlayOneSlot(buffer: seq<uint8>, k: nat, w: uint32)
    requires |buffer| >= TABLE_BYTES && k < SLOTS
    ensures var r := Overlay(buffer, 4 * k, Bytes(w));
      Slots(r) == Slots(buffer)[k := w] && r[TABLE_BYTES..] == buffer[TABLE_BYTES..]
  {
    hide Bytes, Word, Overlay;
    var r := Overlay(buffer, 4 * k, Bytes(w));
    forall i | 0 <= i < SLOTS ensures Slot(r, i) == if i == k then w else Slot(buffer, i) {
      if i != k {
        OverlayElsewhere(buffer, 4 * k, Bytes(w), 4 * i, 4);
      }
    }
    forall b | TABLE_BYTES <= b < |r| ensures r[b] == buffer[b] {
      assert r[4 * k + 4..][b - 4 * k - 4] == r[b];
    }
  }

  /** Storing a day changes its word and nothing else, whether or not the commit succeeds. */
  lemma StoreChangesOneSlot(s: State, k: nat, w: uint32, junk: uint32, fate: Fate)
    requires Inv(s) && Sane(fate) && |s.buffer| >= TABLE_BYTES && k < SLOTS
    ensures |Store(s, k, w, junk, fate).buffer| == |s.buffer|
    ensures Slots(Store(s, k, w, junk, fate).buffer) == Slots(s.buffer)[k := w]
    ensures Store(s, k, w, junk, fate).buffer[TABLE_BYTES..] == s.buffer[TABLE_BYTES..]
  {
    hide Overlay, Bytes, Word, Inv;
    if Slot(s.buffer, k) != w {
      OverlayOneSlot(s.buffer, k, w);
    } else {
      assert Slots(s.buffer)[k] == w;
    }
  }

  lemma SlotsAt(buffer: seq<uint8>, k: nat)
    requires |buffer| >= TABLE_BYTES && k < SLOTS
    ensures Slots(buffer)[k] == Word(buffer[4 * k..4 * k + 4])
  {
  }

  lemma SlotsInSession(flash: seq<uint8>)
    requires |flash| == SECTOR
    ensures Slots(flash[..SESSION]) == Slots(flash)
  {
    forall k | 0 <= k < SLOTS ensures Slot(flash[..SESSION], k) == Slot(flash, k) {
      SliceOfPrefix(flash, SESSION, 4 * k, 4 * k + 4);
    }
  }

  /** What a commit that fails leaves in the sector. */
  function Left(fate: Fate): (r: seq<uint8>)
    requires Sane(fate) && fate != Fate(Done, Done)
    ensures |r| == SECTOR
  {
    if fate.erase.Failed? then fate.erase.left else fate.write.left
  }

  /** What a commit does to the flag and to the table in flash. */
  lemma CommitFlash(s: State, fate: Fate)
    requires Inv(s) && Sane(fate) && |s.buffer| == SESSION
    ensures var r := Commit(s, fate);
      && r.buffer == s.buffer
      && (!s.dirty ==> r == s)
      && (s.dirty && fate == Fate(Done, Done) ==> !r.dirty && |r.flash| == SECTOR && Slots(r.flash) == Slots(s.buffer))
      && (s.dirty && fate != Fate(Done, Done) ==> r.dirty && r.flash == Left(fate))
  {
    hide Slots;
    if s.dirty && fate == Fate(Done, Done) {
      var flash := Commit(s, fate).flash;
      assert flash[..SESSION] == s.buffer;
      SlotsInSession(flash);
    }
  }

  /** Storing a day commits exactly when the stored word is another. */
  lemma StoreFlash(s: State, k: nat, w: uint32, junk: uint32, fate: Fate)
    requires Inv(s) && Sane(fate) && |s.buffer| == SESSION && k < SLOTS
    ensures var r := Store(s, k, w, junk, fate);
      && |r.flash| == SECTOR && |r.buffer| == SESSION
      && (Slots(s.buffer)[k] == w ==> r == s)
      && (Slots(s.buffer)[k] != w && fate == Fate(Done, Done) ==> !r.dirty && Slots(r.flash) == Slots(r.buffer))
      && (Slots(s.buffer)[k] != w && fate != Fate(Done, Done) ==> r.dirty && r.flash == Left(fate))
  {
    hide Slots, Word, Bytes, Commit;
    SlotsAt(s.buffer, k);
    StoreInv(s, k, w, junk, fate);
    if Slots(s.buffer)[k] != w {
      CommitFlash(Do(s, DoPut(4 * k, Bytes(w))), fate);
    }
  }

  /** One successful commit makes up for all failed ones before it, since it writes the whole table. */
  lemma LaterStoreMakesUp(s: State, k: nat, w: uint32, junk: uint32)
    requires Inv(s) && |s.buffer| == SESSION && k < SLOTS && Slot(s.buffer, k) != w
    ensures var r := Store(s, k, w, junk, Fate(Done, Done));
      !r.dirty && Slots(Begin(Reboot(r), SESSION).buffer) == Slots(s.buffer)[k := w]
  {
    hide Slots, Slot;
    StoreInv(s, k, w, junk, Fate(Done, Done));
    StoreChangesOneSlot(s, k, w, junk, Fate(Done, Done));
    assert BufferSize(SESSION) == SESSION;
    assert Get(s, 4 * k, Bytes(junk)) == s.buffer[4 * k..4 * k + 4];
    SlotIs(s.buffer, k);
  }

  lemma SlotIs(buffer: seq<uint8>, k: nat)
    requires 4 * k + 4 <= |buffer|
    ensures Slot(buffer, k) == Word(buffer[4 * k..4 * k + 4])
  {
  }

  /** A failed commit by itself is not made up for: storing the same value again does nothing. */
  lemma FailedStoreIsNotRetried(s: State, k: nat, w: uint32, junk: uint32, fate: Fate, junk': uint32, fate': Fate)
    requires Inv(s) && Sane(fate) && Sane(fate') && |s.buffer| >= TABLE_BYTES && k < SLOTS
    ensures Inv(Store(s, k, w, junk, fate))
    ensures Store(Store(s, k, w, junk, fate), k, w, junk', fate') == Store(s, k, w, junk, fate)
  {
    StoreInv(s, k, w, junk, fate);
    StoreChangesOneSlot(s, k, w, junk, fate);
    assert Slot(Store(s, k, w, junk, fate).buffer, k) == Slots(Store(s, k, w, junk, fate).buffer)[k];
  }

  // ---------------------------------------------------------------- deleting the table

  /** The first `n` bytes cleared. */
  function Zeroed(buffer: seq<uint8>, n: nat): (r: seq<uint8>)
    ensures |r| == |buffer|
  {
    seq(|buffer|, k requires 0 <= k < |buffer| => if k < n then 0 else buffer[k])
  }

  /** `deleteEEPROM`; its last word spills over the table by three bytes, and it ends the session. */
  function Deleted(s: State, commit: Fate, end: Fate): (r: State)
    requires Inv(s) && Sane(commit) && Sane(end)
    ensures Inv(r) && r.buffer == []
  {
    var cleared := State(s.flash, Zeroed(s.buffer, TABLE_BYTES + 3), s.dirty || s.buffer != []);
    Do(Do(cleared, DoCommit(commit)), DoEnd(end))
  }

  /** Deleting clears every day and leaves the bytes from 1491 on; the commit of `end` repeats a failed one. */
  lemma DeleteClearsTable(s: State, commit: Fate, end: Fate)
    requires Inv(s) && |s.buffer| == SESSION && Sane(commit) && Sane(end)
    requires commit == Fate(Done, Done) || end == Fate(Done, Done)
    ensures var after := Begin(Reboot(Deleted(s, commit, end)), SESSION).buffer;
      && |after| == SESSION
      && Slots(after) == seq(SLOTS, _ => 0)
      && after[TABLE_BYTES + 3..] == s.buffer[TABLE_BYTES + 3..]
  {
    hide Slots;
    var zeroed := Zeroed(s.buffer, TABLE_BYTES + 3);
    assert BufferSize(SESSION) == SESSION;
    var d := Deleted(s, commit, end);
    assert d.flash == zeroed + Erased(SECTOR - SESSION);
    assert d.flash[..SESSION] == zeroed;
    ZeroedTable(s.buffer);
  }

  lemma ZeroedTable(buffer: seq<uint8>)
    requires |buffer| == SESSION
    ensures var zeroed := Zeroed(buffer, TABLE_BYTES + 3);
      Slots(zeroed) == seq(SLOTS, _ => 0) && zeroed[TABLE_BYTES + 3..] == buffer[TABLE_BYTES + 3..]
  {
    var zeroed := Zeroed(buffer, TABLE_BYTES + 3);
    forall k | 0 <= k < SLOTS ensures Slot(zeroed, k) == 0 {
      ZeroWord(zeroed, 4 * k);
    }
  }

  lemma ZeroWord(bytes: seq<uint8>, from: nat)
    requires from + 4 <= |bytes| && forall i :: from <= i < from + 4 ==> bytes[i] == 0
    ensures Word(bytes[from..from + 4]) == 0
  {
  }

  // ---------------------------------------------------------------- the sketch

  class Sketch {
    const eeprom: Eeprom
    const counter: array2<uint32>
    var dayValue: int
    var monthValue: int
    var yearValue: int

    constructor (eeprom: Eeprom)
      ensures this.eeprom == eeprom && fresh(counter) && counter.Length0 == MONTHS && counter.Length1 == DAYS
      ensures forall j, i :: 0 <= j < MONTHS && 0 <= i < DAYS ==> counter[j, i] == 0
      ensures dayValue == monthValue == yearValue == 0
    {
      this.eeprom := eeprom;
      counter := new uint32[MONTHS, DAYS]((_, _) => 0);
      dayValue, monthValue, yearValue := 0, 0, 0;
    }

    ghost predicate Ready()
      reads eeprom, eeprom.flash, eeprom.data
    {
      eeprom.Valid() && counter.Length0 == MONTHS && counter.Length1 == DAYS
    }

    /** Row `month` of the stored table. */
    static function Row(table: seq<uint32>, month: nat): (r: seq<uint32>)
      requires |table| == SLOTS && month < MONTHS
      ensures |r| == DAYS
    {
      RowFits(month);
      table[DAYS * month..DAYS * month + DAYS]
    }

    static lemma RowMeans(table: seq<uint32>, month: nat)
      requires |table| == SLOTS && month < 12
      ensures forall i :: 0 <= i < 31 ==> Row(table, month)[i] == table[31 * month + i]
    {
    }

    static lemma RowFits(month: nat)
      requires month < MONTHS
      ensures DAYS * month + DAYS <= SLOTS
    {
    }

    method PutEeprom(nowMonth: nat, nowDay: nat, junk: uint32, fate: Fate)
      requires Ready() && Sane(fate) && IsSlot(nowMonth, nowDay)
      modifies eeprom`dirty, eeprom.data, eeprom.flash
      ensures Ready()
      ensures eeprom.Now() == Store(old(eeprom.Now()), DAYS * nowMonth + nowDay, counter[nowMonth, nowDay], junk, fate)
    {
      hide Inv, Put, Get, Commit, Bytes, Word;
      SlotNumber(nowMonth, nowDay);
      var value := counter[nowMonth, nowDay];
      var tmp := eeprom.GetValue(Address(nowMonth, nowDay), Bytes(junk));
      if Word(tmp) != value {
        eeprom.PutValue(Address(nowMonth, nowDay), Bytes(value));
        var _ := eeprom.CommitBuffer(fate);
      }
    }

    method DeleteEeprom(commit: Fate, end: Fate)
      requires Ready() && Sane(commit) && Sane(end)
      modifies eeprom, eeprom.data, eeprom.flash
      ensures Ready() && eeprom.Now() == Deleted(old(eeprom.Now()), commit, end)
    {
      var j := 0;
      ghost var start := eeprom.Now();
      while j < TABLE_BYTES
        invariant 0 <= j <= TABLE_BYTES && Ready() && eeprom.data == old(eeprom.data)
        invariant eeprom.Now() == Clearing(start, j)
      {
        ClearOne(start, j);
        eeprom.PutValue(j, [0, 0, 0, 0]);
        j := j + 1;
      }
      var _ := eeprom.CommitBuffer(commit);
      eeprom.EndSession(end);
    }

    /** After clearing from the first `j` addresses on. */
    static function Clearing(s: State, j: nat): State {
      if j == 0 then s else State(s.flash, Zeroed(s.buffer, j + 3), s.dirty || s.buffer != [])
    }

    static lemma ClearOne(s: State, j: nat)
      requires |s.buffer| % 4 == 0
      ensures Put(Clearing(s, j), j, [0, 0, 0, 0]) == Clearing(s, j + 1)
    {
      var c, d := Clearing(s, j), Clearing(s, j + 1);
      if InRange(c, j, 4) {
        assert Overlay(c.buffer, j, [0, 0, 0, 0]) == d.buffer;
      } else {
        assert c.buffer == d.buffer;
      }
    }

    /** Restores the table and adds up its sums; `today` is the month the sketch last noted. */
    method SetupEeprom(month: int, day: int, today: nat)
      requires Ready()
      modifies this`dayValue, this`monthValue, this`yearValue, counter, eeprom`data, eeprom`size
      ensures Ready() && eeprom.Now() == Begin(old(eeprom.Now()), SESSION) && |eeprom.Now().buffer| == 1520
      ensures var table := Slots(eeprom.Now().buffer);
        && (forall j, i :: 0 <= j < MONTHS && 0 <= i < DAYS ==> counter[j, i] == Row(table, j)[i])
        && yearValue == old(yearValue) + Sum(table)
        && monthValue == old(monthValue) + (if today < MONTHS then Sum(Row(table, today)) else 0)
        && dayValue
           == if 1 <= month <= MONTHS && 1 <= day <= DAYS then Row(table, month - 1)[day - 1] else old(dayValue)
    {
      hide Sum, Slots, Row;
      assert BufferSize(SESSION) == SESSION;
      eeprom.BeginSession(SESSION);
      SumNone();
      ghost var table := Slots(eeprom.Now().buffer);
      var j := 0;
      assert table[..0] == [];
      while j < MONTHS
        invariant 0 <= j <= MONTHS && Ready() && eeprom.Now() == Begin(old(eeprom.Now()), SESSION)
        invariant |eeprom.Now().buffer| == SESSION && table == Slots(eeprom.Now().buffer)
        invariant forall m, i :: 0 <= m < j && 0 <= i < DAYS ==> counter[m, i] == Row(table, m)[i]
        invariant yearValue == old(yearValue) + Sum(table[..DAYS * j])
        invariant monthValue == old(monthValue) + (if today < j then Sum(Row(table, today)) else 0)
        invariant dayValue
          == if 1 <= month <= j && 1 <= day <= DAYS then Row(table, month - 1)[day - 1] else old(dayValue)
      {
        RowNext(table, j);
        RestoreMonth(j, month, day, today, table);
        j := j + 1;
      }
      assert table[..DAYS * j] == table;
    }

    static lemma {:induction false} SumAppend(a: seq<uint32>, b: seq<uint32>)
      ensures Sum(a + b) == Sum(a) + Sum(b)
    {
      if |b| == 0 {
        assert a + b == a;
      } else {
        SumAppend(a, b[..|b| - 1]);
        assert (a + b)[..|a + b| - 1] == a + b[..|b| - 1];
      }
    }

    static lemma SlotRead(buffer: seq<uint8>, j: nat, i: nat)
      requires IsSlot(j, i) && |buffer| == SESSION
      ensures Address(j, i) + 4 <= SESSION
      ensures Word(buffer[Address(j, i)..Address(j, i) + 4]) == Row(Slots(buffer), j)[i]
    {
      SlotNumber(j, i);
    }

    static lemma SumNone()
      ensures Sum([]) == 0
    {
    }

    static lemma SumNext(row: seq<uint32>, i: nat)
      requires i < |row|
      ensures Sum(row[..i + 1]) == Sum(row[..i]) + row[i]
    {
      assert row[..i + 1][..i] == row[..i];
    }

    static lemma RowNext(table: seq<uint32>, j: nat)
      requires |table| == SLOTS && j < MONTHS
      ensures DAYS * (j + 1) <= SLOTS
      ensures Sum(table[..DAYS * (j + 1)]) == Sum(table[..DAYS * j]) + Sum(Row(table, j))
    {
      SumAppend(table[..DAYS * j], Row(table, j));
      assert table[..DAYS * j] + Row(table, j) == table[..DAYS * (j + 1)];
    }

    /** The inner loop. */
    method RestoreMonth(j: nat, month: int, day: int, today: nat, ghost table: seq<uint32>)
      requires Ready() && j < MONTHS && |eeprom.Now().buffer| == SESSION && table == Slots(eeprom.Now().buffer)
      modifies this`dayValue, this`monthValue, this`yearValue, counter
      ensures forall m, i :: 0 <= m < MONTHS && 0 <= i < DAYS ==>
        counter[m, i] == if m == j then Row(table, j)[i] else old(counter[m, i])
      ensures yearValue == old(yearValue) + Sum(Row(table, j))
      ensures monthValue == old(monthValue) + (if today == j then Sum(Row(table, j)) else 0)
      ensures dayValue == if j == month - 1 && 1 <= day <= DAYS then Row(table, j)[day - 1] else old(dayValue)
    {
      hide Sum, Slots, Row, Word, Bytes, Address, Inv;
      ghost var row := Row(table, j);
      SumNone();
      assert row[..0] == [];
      var i := 0;
      while i < DAYS
        invariant 0 <= i <= DAYS && Ready() && eeprom.Now() == old(eeprom.Now())
        invariant forall m, d :: 0 <= m < MONTHS && 0 <= d < DAYS ==>
          counter[m, d] == if m == j && d < i then row[d] else old(counter[m, d])
        invariant yearValue == old(yearValue) + Sum(row[..i])
        invariant monthValue == old(monthValue) + (if today == j then Sum(row[..i]) else 0)
        invariant dayValue == if j == month - 1 && 1 <= day <= i then row[day - 1] else old(dayValue)
      {
        var bytes := eeprom.GetValue(Address(j, i), Bytes(counter[j, i]));
        SlotRead(eeprom.Now().buffer, j, i);
        SumNext(row, i);
        counter[j, i] := Word(bytes);
        if j == month - 1 && i == day - 1 {
          dayValue := counter[j, i];
        }
        if j == today {
          monthValue := monthValue + counter[j, i];
        }
        yearValue := yearValue + counter[j, i];
        i := i + 1;
      }
      assert row[..i] == row;
    }
  }
}

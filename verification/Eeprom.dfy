/** EEPROM emulation: a buffer over one flash sector, written back as a whole when it is dirty. */
module Eeproms {
  import opened Words

  const SECTOR := 4096

  /** How a flash operation ends; after a failure the sector may hold anything. */
  datatype FlashResult = Done | Failed(left: seq<uint8>)

  /** What the two flash operations of a commit do. */
  datatype Fate = Fate(erase: FlashResult, write: FlashResult)

  /** The sector, the buffer (empty while closed) and the dirty flag. */
  datatype State = State(flash: seq<uint8>, buffer: seq<uint8>, dirty: bool)

  predicate Sane(fate: Fate) {
    && (fate.erase.Failed? ==> |fate.erase.left| == SECTOR)
    && (fate.write.Failed? ==> |fate.write.left| == SECTOR)
  }

  predicate Inv(s: State) {
    && |s.flash| == SECTOR && |s.buffer| <= SECTOR && |s.buffer| % 4 == 0
    && (s.buffer != [] && !s.dirty ==> s.buffer == s.flash[..|s.buffer|])
  }

  // ---------------------------------------------------------------- one call

  /** The size of the buffer for a wanted size: whole words, at most a sector. */
  function BufferSize(size: nat): (n: nat)
    ensures n <= 4096 && n % 4 == 0 && (size <= 4096 ==> size <= n < size + 4) && (size > 4096 ==> n == 4096)
    ensures n == 0 <==> size == 0
  {
    (if size > SECTOR then SECTOR else size + 3) / 4 * 4
  }

  function Begin(s: State, size: nat): State
    requires |s.flash| == SECTOR
  {
    if size == 0 then s else s.(buffer := s.flash[..BufferSize(size)])
  }

  predicate InRange(s: State, address: int, n: nat) {
    0 <= address && address + n <= |s.buffer|
  }

  /** `bytes` stored from `address` on. */
  function Overlay(buffer: seq<uint8>, address: nat, bytes: seq<uint8>): (r: seq<uint8>)
    requires address + |bytes| <= |buffer|
    ensures |r| == |buffer| && r[address..address + |bytes|] == bytes
    ensures r[..address] == buffer[..address] && r[address + |bytes|..] == buffer[address + |bytes|..]
  {
    buffer[..address] + bytes + buffer[address + |bytes|..]
  }

  function Write(s: State, address: int, value: uint8): State {
    if InRange(s, address, 1) && s.buffer[address] != value then s.(buffer := s.buffer[address := value], dirty := true)
    else s
  }

  function Put(s: State, address: int, bytes: seq<uint8>): State {
    if InRange(s, address, |bytes|) then s.(buffer := Overlay(s.buffer, address, bytes), dirty := true) else s
  }

  /** `get` into a value that holds `bytes`. */
  function Get(s: State, address: int, bytes: seq<uint8>): (r: seq<uint8>)
    ensures |r| == |bytes|
  {
    if InRange(s, address, |bytes|) then s.buffer[address..address + |bytes|] else bytes
  }

  predicate Commits(s: State, fate: Fate) {
    s.buffer != [] && (!s.dirty || (fate.erase.Done? && fate.write.Done?))
  }

  function Erased(n: nat): (r: seq<uint8>)
    ensures |r| == n
  {
    seq(n, _ => 255)
  }

  function Commit(s: State, fate: Fate): State
    requires Inv(s) && Sane(fate)
  {
    if s.buffer == [] || !s.dirty then s
    else if fate.erase.Failed? then s.(flash := fate.erase.left)
    else if fate.write.Failed? then s.(flash := fate.write.left)
    else s.(flash := s.buffer + Erased(SECTOR - |s.buffer|), dirty := false)
  }

  function End(s: State, fate: Fate): State
    requires Inv(s) && Sane(fate)
  {
    Commit(s, fate).(buffer := [])
  }

  function Reboot(s: State): State {
    s.(buffer := [], dirty := false)
  }

  // ---------------------------------------------------------------- what one call means

  /** A write changes its byte, and a put its bytes, if they lie in the buffer, and nothing else there or in flash;
      the buffer is dirty after every put and after a write that changed something. */
  lemma WriteMeans(s: State, address: int, value: uint8)
    ensures var r := Write(s, address, value);
      && |r.buffer| == |s.buffer| && r.flash == s.flash
      && (forall k :: 0 <= k < |s.buffer| ==> r.buffer[k] == if k == address then value else s.buffer[k])
      && (r.dirty <==> s.dirty || r.buffer != s.buffer)
  {
  }

  lemma PutMeans(s: State, address: int, bytes: seq<uint8>)
    ensures var r := Put(s, address, bytes);
      var inside := 0 <= address && address + |bytes| <= |s.buffer|;
      && |r.buffer| == |s.buffer| && r.flash == s.flash
      && (forall k :: 0 <= k < |s.buffer| ==>
            r.buffer[k] == if inside && address <= k < address + |bytes| then bytes[k - address] else s.buffer[k])
      && (r.dirty <==> s.dirty || inside)
  {
  }

  /** A get reads the bytes in the buffer and leaves the caller's value alone if they do not all lie there. */
  lemma GetMeans(s: State, address: int, bytes: seq<uint8>)
    ensures var inside := 0 <= address && address + |bytes| <= |s.buffer|;
      && (inside ==> forall i :: 0 <= i < |bytes| ==> Get(s, address, bytes)[i] == s.buffer[address + i])
      && (!inside ==> Get(s, address, bytes) == bytes)
  {
  }

  /** A session starts with what the flash holds, and keeps the dirty flag; size 0 starts none. */
  lemma BeginMeans(s: State, size: nat)
    requires |s.flash| == 4096
    ensures var r := Begin(s, size);
      && r.flash == s.flash && r.dirty == s.dirty && (size == 0 ==> r == s)
      && (size > 0 ==> |r.buffer| == BufferSize(size) && forall k :: 0 <= k < |r.buffer| ==> r.buffer[k] == s.flash[k])
  {
  }

  /** A commit never changes the buffer, does nothing to a clean or closed one, and reports success exactly when the
      session is open and clean afterwards; ending does the same and closes, whether or not that succeeds. */
  lemma CommitMeans(s: State, fate: Fate)
    requires Inv(s) && Sane(fate)
    ensures var r := Commit(s, fate);
      && r.buffer == s.buffer && (!s.dirty || s.buffer == [] ==> r == s)
      && (Commits(s, fate) <==> s.buffer != [] && !r.dirty)
      && (s.dirty && s.buffer != [] ==> (!r.dirty <==> fate.erase.Done? && fate.write.Done?))
      && End(s, fate).buffer == [] && End(s, fate).flash == r.flash && End(s, fate).dirty == r.dirty
  {
  }

  /** A restart keeps the flash only: the next session is clean, and committing it at once writes nothing. */
  lemma RestartIsClean(s: State, size: nat, fate: Fate)
    requires Inv(s) && Sane(fate) && size > 0
    ensures Reboot(s).flash == s.flash && Reboot(s).buffer == []
    ensures var session := Begin(Reboot(s), size);
      Commits(session, fate) && Commit(session, fate) == session
  {
  }

  // ---------------------------------------------------------------- whole runs

  datatype Op =
    | DoBegin(size: nat)
    | DoWrite(address: int, value: uint8)
    | DoPut(address: int, bytes: seq<uint8>)
    | DoCommit(fate: Fate)
    | DoEnd(fate: Fate)
    | DoReboot

  predicate Possible(op: Op) {
    match op
    case DoCommit(fate) => Sane(fate)
    case DoEnd(fate) => Sane(fate)
    case _ => true
  }

  /** Not dirty means that the buffer equals the flash, whatever is called and however the flash fails. */
  function Do(s: State, op: Op): (r: State)
    requires Inv(s) && Possible(op)
    ensures Inv(r)
  {
    match op
    case DoBegin(size) => Begin(s, size)
    case DoWrite(address, value) => Write(s, address, value)
    case DoPut(address, bytes) => Put(s, address, bytes)
    case DoCommit(fate) => Commit(s, fate)
    case DoEnd(fate) => End(s, fate)
    case DoReboot => Reboot(s)
  }

  function DoAll(s: State, ops: seq<Op>): (r: State)
    requires Inv(s) && forall i :: 0 <= i < |ops| ==> Possible(ops[i])
    ensures Inv(r)
  {
    if |ops| == 0 then s else Do(DoAll(s, ops[..|ops| - 1]), ops[|ops| - 1])
  }

  // ---------------------------------------------------------------- what a put leaves behind

  /** The bytes are where a `get` finds them, or where the next `begin` loads them from. */
  predicate Keeps(s: State, address: nat, bytes: seq<uint8>) {
    if s.buffer == [] then address + |bytes| <= |s.flash| && s.flash[address..address + |bytes|] == bytes
    else address + |bytes| <= |s.buffer| && s.buffer[address..address + |bytes|] == bytes
  }

  predicate Disjoint(a: int, n: nat, b: int, m: nat) {
    a + n <= b || b + m <= a
  }

  /** An operation that cannot lose the bytes: it writes elsewhere, it drops the buffer only after a successful
      commit, and it opens enough bytes.  Commits may fail. */
  predicate Harmless(s: State, op: Op, address: nat, n: nat)
    requires Inv(s)
  {
    match op
    case DoBegin(size) => size == 0 || ((s.buffer == [] || !s.dirty) && address + n <= BufferSize(size))
    case DoWrite(at, _) => Disjoint(at, 1, address, n)
    case DoPut(at, other) => Disjoint(at, |other|, address, n)
    case DoCommit(_) => true
    case DoEnd(fate) => s.buffer == [] || Commits(s, fate)
    case DoReboot => s.buffer == [] || !s.dirty
  }

  lemma OverlayElsewhere(buffer: seq<uint8>, at: nat, other: seq<uint8>, address: nat, n: nat)
    requires at + |other| <= |buffer| && address + n <= |buffer| && Disjoint(at, |other|, address, n)
    ensures Overlay(buffer, at, other)[address..address + n] == buffer[address..address + n]
  {
    var r := Overlay(buffer, at, other);
    forall k | address <= k < address + n ensures r[k] == buffer[k] {
      if k < at {
        assert r[k] == r[..at][k];
      } else {
        assert r[k] == r[at + |other|..][k - at - |other|];
      }
    }
  }

  lemma SliceOfPrefix(cells: seq<uint8>, n: nat, from: nat, end: nat)
    requires from <= end <= n <= |cells|
    ensures cells[..n][from..end] == cells[from..end]
  {
  }

  lemma HarmlessKeeps(s: State, op: Op, address: nat, bytes: seq<uint8>)
    requires Inv(s) && Possible(op) && Keeps(s, address, bytes) && Harmless(s, op, address, |bytes|)
    ensures Keeps(Do(s, op), address, bytes)
  {
    match op
    case DoBegin(size) => HarmlessBegin(s, size, address, bytes);
    case DoWrite(at, value) =>
    case DoPut(at, other) =>
      if InRange(s, at, |other|) && s.buffer != [] {
        OverlayElsewhere(s.buffer, at, other, address, |bytes|);
      }
    case DoCommit(fate) =>
    case DoEnd(fate) => HarmlessEnd(s, fate, address, bytes);
    case DoReboot => CleanIsInFlash(s, address, bytes);
  }

  /** What a closed or clean state keeps lies in flash. */
  lemma CleanIsInFlash(s: State, address: nat, bytes: seq<uint8>)
    requires Inv(s) && Keeps(s, address, bytes) && (s.buffer == [] || !s.dirty)
    ensures address + |bytes| <= |s.flash| && s.flash[address..address + |bytes|] == bytes
  {
    if s.buffer != [] {
      SliceOfPrefix(s.flash, |s.buffer|, address, address + |bytes|);
    }
  }

  lemma HarmlessBegin(s: State, size: nat, address: nat, bytes: seq<uint8>)
    requires Inv(s) && Keeps(s, address, bytes) && Harmless(s, DoBegin(size), address, |bytes|)
    ensures Keeps(Begin(s, size), address, bytes)
  {
    if size > 0 {
      CleanIsInFlash(s, address, bytes);
      SliceOfPrefix(s.flash, BufferSize(size), address, address + |bytes|);
    }
  }

  lemma HarmlessEnd(s: State, fate: Fate, address: nat, bytes: seq<uint8>)
    requires Inv(s) && Sane(fate) && Keeps(s, address, bytes) && Harmless(s, DoEnd(fate), address, |bytes|)
    ensures Keeps(End(s, fate), address, bytes)
  {
    var r := Commit(s, fate);
    if s.buffer != [] && s.dirty {
      assert r.flash[..|s.buffer|] == s.buffer;
    }
    CleanIsInFlash(r, address, bytes);
  }

  /** Every operation of the run is harmless in the state it meets. */
  predicate HarmlessRun(s: State, ops: seq<Op>, address: nat, n: nat)
    requires Inv(s) && forall i :: 0 <= i < |ops| ==> Possible(ops[i])
  {
    forall i {:trigger ops[..i]} :: 0 <= i < |ops| ==> Harmless(DoAll(s, ops[..i]), ops[i], address, n)
  }

  lemma {:induction false} RunKeeps(s: State, ops: seq<Op>, address: nat, bytes: seq<uint8>)
    requires Inv(s) && forall i :: 0 <= i < |ops| ==> Possible(ops[i])
    requires Keeps(s, address, bytes) && HarmlessRun(s, ops, address, |bytes|)
    ensures Keeps(DoAll(s, ops), address, bytes)
  {
    if |ops| > 0 {
      var n := |ops| - 1;
      var before := ops[..n];
      forall i | 0 <= i < n ensures before[..i] == ops[..i] && before[i] == ops[i] {
      }
      RunKeeps(s, before, address, bytes);
      assert ops[..n] == before;
      HarmlessKeeps(DoAll(s, before), ops[n], address, bytes);
    }
  }

  lemma PutIsKept(s: State, address: nat, bytes: seq<uint8>)
    requires Inv(s) && |bytes| > 0 && InRange(s, address, |bytes|)
    ensures Keeps(Do(s, DoPut(address, bytes)), address, bytes)
  {
  }

  lemma KeptIsGot(s: State, address: nat, bytes: seq<uint8>, into: seq<uint8>)
    requires Keeps(s, address, bytes) && s.buffer != [] && |into| == |bytes|
    ensures Get(s, address, into) == bytes
  {
  }

  /** Every `get` returns the last `put`: over any number of writes elsewhere, commits, failures, ends, reboots
      and new sessions, as long as the buffer is only dropped after a successful commit. */
  lemma GetsLastPut(s: State, address: nat, bytes: seq<uint8>, ops: seq<Op>, into: seq<uint8>)
    requires Inv(s) && |bytes| > 0 && InRange(s, address, |bytes|) && |into| == |bytes|
    requires forall i :: 0 <= i < |ops| ==> Possible(ops[i])
    requires HarmlessRun(Do(s, DoPut(address, bytes)), ops, address, |bytes|)
    requires DoAll(Do(s, DoPut(address, bytes)), ops).buffer != []
    ensures Get(DoAll(Do(s, DoPut(address, bytes)), ops), address, into) == bytes
  {
    hide Do, DoAll, HarmlessRun, Get, Keeps, Inv;
    var stored := Do(s, DoPut(address, bytes));
    PutIsKept(s, address, bytes);
    RunKeeps(stored, ops, address, bytes);
    KeptIsGot(DoAll(stored, ops), address, bytes, into);
  }

  /** After a successful commit a reboot loses nothing, and a session of the same size finds the whole buffer. */
  lemma CommittedSurvives(s: State, fate: Fate, size: nat)
    requires Inv(s) && Sane(fate) && Commits(s, fate) && BufferSize(size) == |s.buffer|
    ensures Begin(Reboot(Commit(s, fate)), size).buffer == s.buffer
  {
  }

  /** The condition matters: the part of the sector behind the buffer does not survive a commit. */
  lemma CommitErasesBehindBuffer(s: State, fate: Fate, address: nat)
    requires Inv(s) && Sane(fate) && s.dirty && Commits(s, fate) && |s.buffer| <= address < SECTOR
    ensures Commit(s, fate).flash[address] == 255
  {
  }

  predicate StaysInBuffer(op: Op) {
    op.DoWrite? || op.DoPut?
  }

  lemma {:induction false} WritesStayInBuffer(s: State, ops: seq<Op>)
    requires Inv(s) && forall i :: 0 <= i < |ops| ==> StaysInBuffer(ops[i])
    ensures forall i :: 0 <= i < |ops| ==> Possible(ops[i])
    ensures DoAll(s, ops).flash == s.flash && |DoAll(s, ops).buffer| == |s.buffer|
  {
    if |ops| > 0 {
      WritesStayInBuffer(s, ops[..|ops| - 1]);
    }
  }

  /** Nor do uncommitted writes survive a reboot: a session of the same size finds the buffer as it was when it was
      last clean, so of what was put since exactly that is found which was there before. */
  lemma RebootUndoesWrites(s: State, ops: seq<Op>, size: nat, address: nat, bytes: seq<uint8>)
    requires Inv(s) && !s.dirty && s.buffer != [] && BufferSize(size) == |s.buffer|
    requires address + |bytes| <= |s.buffer| && forall i :: 0 <= i < |ops| ==> StaysInBuffer(ops[i])
    ensures forall i :: 0 <= i < |ops| ==> Possible(ops[i])
    ensures Begin(Reboot(DoAll(s, ops)), size).buffer == s.buffer
    ensures Keeps(Reboot(DoAll(s, ops)), address, bytes) <==> s.buffer[address..address + |bytes|] == bytes
  {
    WritesStayInBuffer(s, ops);
    assert s.buffer[address..address + |bytes|] == s.flash[address..address + |bytes|];
  }

  // ---------------------------------------------------------------- the classes

  /** One flash sector. */
  class Flash {
    var cells: seq<uint8>

    constructor (cells: seq<uint8>)
      ensures this.cells == cells
    {
      this.cells := cells;
    }

    method Erase(result: FlashResult)
      requires |cells| == SECTOR
      modifies this
      ensures cells == if result.Done? then Erased(SECTOR) else result.left
    {
      cells := if result.Done? then Erased(SECTOR) else result.left;
    }

    /** Writing can only clear bits, so it stores the data where the sector is erased. */
    method Program(data: seq<uint8>, result: FlashResult)
      requires |data| <= |cells| == SECTOR && cells[..|data|] == Erased(|data|)
      modifies this
      ensures cells == if result.Done? then data + old(cells)[|data|..] else result.left
    {
      cells := if result.Done? then data + cells[|data|..] else result.left;
    }
  }

  class Eeprom {
    const flash: Flash
    var data: array?<uint8>
    var size: nat
    var dirty: bool

    ghost predicate Valid()
      reads this, flash, data
    {
      && (data == null <==> size == 0) && (data != null ==> data.Length == size)
      && Inv(Now())
    }

    ghost function Now(): State
      reads this, flash, data
    {
      State(flash.cells, if data == null then [] else data[..], dirty)
    }

    /** Also what a reboot does. */
    constructor (flash: Flash)
      requires |flash.cells| == SECTOR
      ensures Valid() && this.flash == flash && Now() == State(flash.cells, [], false) && data == null
    {
      this.flash, data, size, dirty := flash, null, 0, false;
    }

    method BeginSession(wanted: nat)
      requires Valid()
      modifies this`data, this`size
      ensures Valid() && Now() == Begin(old(Now()), wanted)
      ensures data == old(data) || fresh(data)
    {
      if wanted == 0 {
        return;
      }
      var n := if wanted > SECTOR then SECTOR else wanted;
      n := (n + 3) / 4 * 4;
      var cells := flash.cells;
      var loaded := new uint8[n](i requires 0 <= i < n && n <= |cells| => cells[i]);
      data, size := loaded, n;
      assert data[..] == cells[..n];
    }

    method Read(address: int) returns (value: uint8)
      requires Valid()
      ensures value == Get(Now(), address, [0])[0]
    {
      if address < 0 || address >= size {
        return 0;
      }
      value := data[address];
    }

    method WriteByte(address: int, value: uint8)
      requires Valid()
      modifies this`dirty, data
      ensures Valid() && Now() == Write(old(Now()), address, value)
    {
      if address < 0 || address >= size {
        return;
      }
      if data[address] != value {
        data[address] := value;
        dirty := true;
        assert data[..] == old(data[..])[address := value];
      }
    }

    /** `get` of a value of `|value|` bytes. */
    method GetValue(address: int, value: seq<uint8>) returns (r: seq<uint8>)
      requires Valid() && |value| > 0
      ensures r == Get(Now(), address, value)
    {
      if address < 0 || address + |value| > size {
        return value;
      }
      r := data[address..address + |value|];
    }

    method PutValue(address: int, value: seq<uint8>)
      requires Valid() && |value| > 0
      modifies this`dirty, data
      ensures Valid() && Now() == Put(old(Now()), address, value)
    {
      if address < 0 || address + |value| > size {
        return;
      }
      var k := 0;
      while k < |value|
        invariant 0 <= k <= |value| && data[..] == Overlay(old(data[..]), address, value[..k])
      {
        data[address + k] := value[k];
        OverlayOne(old(data[..]), address, value, k);
        k := k + 1;
      }
      assert value[..k] == value;
      dirty := true;
    }

    static lemma OverlayOne(buffer: seq<uint8>, address: nat, value: seq<uint8>, k: nat)
      requires k < |value| && address + |value| <= |buffer|
      ensures Overlay(buffer, address, value[..k])[address + k := value[k]] == Overlay(buffer, address, value[..k + 1])
    {
      assert value[..k + 1] == value[..k] + [value[k]];
    }

    method CommitBuffer(fate: Fate) returns (ok: bool)
      requires Valid() && Sane(fate)
      modifies this`dirty, flash
      ensures Valid() && Now() == Commit(old(Now()), fate) && ok == Commits(old(Now()), fate)
    {
      if size == 0 {
        return false;
      }
      if !dirty {
        return true;
      }
      ok := false;
      flash.Erase(fate.erase);
      if fate.erase.Done? {
        assert Erased(SECTOR)[..size] == Erased(size);
        flash.Program(data[..], fate.write);
        if fate.write.Done? {
          assert Erased(SECTOR)[size..] == Erased(SECTOR - size);
          dirty := false;
          ok := true;
        }
      }
    }

    method EndSession(fate: Fate)
      requires Valid() && Sane(fate)
      modifies this, flash
      ensures Valid() && Now() == End(old(Now()), fate)
    {
      if size == 0 {
        return;
      }
      var _ := CommitBuffer(fate);
      data, size := null, 0;
    }
  }
}

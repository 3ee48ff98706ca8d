/** The settings' fixed layout in the EEPROM: saving all of them, loading them back, and exactly when
    the fields do not run into each other. */
module Settings {
  import opened Bytes
  import opened Decimal
  import opened Eeprom

  const FLAG := 0
  const SSID := 1
  const PASSWORD := 18
  const HOSTNAME := 69
  const PORT := 89

  datatype Settings = Settings(ssid: seq<byte>, password: seq<byte>, hostname: seq<byte>, port: u32)

  /** No NUL inside, and no 0xFF (which the chip's driver can neither write nor read). */
  predicate Clean(s: seq<byte>) {
    0 !in s && BLANK !in s
  }

  /** The strings can be written at all, none runs past the end of the chip, and the port is a value
      that `atoi` can return. */
  predicate Storable(cfg: Settings) {
    && cfg.port < 0x8000_0000
    && Clean(cfg.ssid) && SSID + |cfg.ssid| < SIZE
    && Clean(cfg.password) && PASSWORD + |cfg.password| < SIZE
    && Clean(cfg.hostname) && HOSTNAME + |cfg.hostname| < SIZE
  }

  /** The memory after one pass of writes. */
  function Saved(cells: Memory, cfg: Settings): Memory {
    var m0 := cells[FLAG := 1];
    var m1 := Store(m0, SSID, cfg.ssid + [0]);
    var m2 := Store(m1, PASSWORD, cfg.password + [0]);
    var m3 := Store(m2, HOSTNAME, cfg.hostname + [0]);
    Store(m3, PORT, Print(cfg.port) + [0])
  }

  lemma {:induction false} StoreAt(cells: Memory, address: nat, s: seq<byte>, i: nat)
    requires address + |s| <= SIZE && i < SIZE
    ensures Store(cells, address, s)[i] == if address <= i < address + |s| then s[i - address] else cells[i]
    decreases |s|
  {
    if s != [] {
      StoreAt(cells[address := s[0]], address + 1, s[1..], i);
    }
  }

  /** Where the bytes of a string stand in memory, the driver reads them and goes on behind them. */
  lemma {:induction false} StringAtStored(cells: Memory, address: nat, s: seq<byte>, limit: nat)
    requires Clean(s) && address + |s| < SIZE && limit > |s|
    requires forall i :: 0 <= i < |s| ==> cells[address + i] == s[i]
    ensures StringAt(cells, address, limit) == ContinuedAt(s, cells, address + |s|, limit - |s|)
    decreases |s|
  {
    if s == [] {
      if StringAt(cells, address, limit).Some? {
        ContinuedStart(cells, address, limit);
      }
    } else {
      var c, t := s[0], s[1..];
      assert s == [c] + t && c in s;
      assert Clean(t) by {
        assert forall b :: b in t ==> b in s;
      }
      assert cells[address + 0] == c;
      forall i | 0 <= i < |t|
        ensures cells[address + 1 + i] == t[i]
      {
        assert cells[address + (i + 1)] == s[i + 1];
      }
      StringAtStored(cells, address + 1, t, limit - 1);
      ContinuedCons(c, t, cells, address + |s|, limit - |s|);
    }
  }

  lemma ContinuedCons(c: byte, t: seq<byte>, cells: Memory, address: nat, limit: nat)
    ensures ContinuedAt([c] + t, cells, address, limit) ==
              match ContinuedAt(t, cells, address, limit) { case None => None case Some(r) => Some([c] + r) }
  {
    match StringAt(cells, address, limit)
    case None =>
    case Some(r) => assert [c] + t + r == [c] + (t + r);
  }

  /** What reading a field gives when its string was stored in a slot of `room` cells and the next
      field was stored behind it. */
  function Field(s: seq<byte>, room: nat, next: seq<byte>): seq<byte> {
    if |s| < room then s + [0] else s[..room] + next
  }

  lemma StoredReads(before: Memory, cells: Memory, address: nat, s: seq<byte>, limit: nat)
    requires Clean(s) && address + |s| < SIZE && limit > |s|
    requires forall i :: address <= i <= address + |s| ==> cells[i] == Store(before, address, s + [0])[i]
    ensures StringAt(cells, address, limit) == Some(s + [0])
  {
    forall i | 0 <= i < |s|
      ensures cells[address + i] == s[i]
    {
      StoreAt(before, address, s + [0], address + i);
    }
    StoreAt(before, address, s + [0], address + |s|);
    StringAtStored(cells, address, s, limit);
    assert StringAt(cells, address + |s|, limit - |s|) == Some([0]);
  }

  lemma FieldReads(before: Memory, cells: Memory, address: nat, s: seq<byte>, room: nat, next: seq<byte>, limit: nat)
    requires Clean(s) && address + |s| < SIZE && address + room < SIZE && limit > room
    requires forall i :: address <= i < address + room ==> cells[i] == Store(before, address, s + [0])[i]
    requires StringAt(cells, address + room, limit - room) == Some(next)
    ensures StringAt(cells, address, limit) == Some(Field(s, room, next))
  {
    if |s| < room {
      StoredReads(before, cells, address, s, limit);
    } else {
      var head := s[..room];
      assert Clean(head) by {
        assert forall b :: b in head ==> b in s;
      }
      forall i | 0 <= i < room
        ensures cells[address + i] == head[i]
      {
        StoreAt(before, address, s + [0], address + i);
      }
      StringAtStored(cells, address, head, limit);
    }
  }

  function PortText(cfg: Settings): seq<byte> {
    Print(cfg.port) + [0]
  }

  function HostnameRead(cfg: Settings): seq<byte> {
    Field(cfg.hostname, PORT - HOSTNAME, PortText(cfg))
  }

  function PasswordRead(cfg: Settings): seq<byte> {
    Field(cfg.password, HOSTNAME - PASSWORD, HostnameRead(cfg))
  }

  function SsidRead(cfg: Settings): seq<byte> {
    Field(cfg.ssid, PASSWORD - SSID, PasswordRead(cfg))
  }

  /** Every cell after one pass, when each string fits its place: the flag at 0, the strings at 1, 18, 69 and
      89, each with a NUL behind it, and all other cells as before. */
  lemma SavedCell(cells: Memory, cfg: Settings, p: nat)
    requires Storable(cfg) && p < 256
    requires |cfg.ssid| <= 16 && |cfg.password| <= 50 && |cfg.hostname| <= 19
    ensures Saved(cells, cfg)[p] ==
              if p == 0 then 1
              else if 1 <= p <= 1 + |cfg.ssid| then (cfg.ssid + [0])[p - 1]
              else if 18 <= p <= 18 + |cfg.password| then (cfg.password + [0])[p - 18]
              else if 69 <= p <= 69 + |cfg.hostname| then (cfg.hostname + [0])[p - 69]
              else if 89 <= p <= 89 + |Print(cfg.port)| then (Print(cfg.port) + [0])[p - 89]
              else cells[p]
  {
    var m0 := cells[FLAG := 1];
    var m1 := Store(m0, SSID, cfg.ssid + [0]);
    var m2 := Store(m1, PASSWORD, cfg.password + [0]);
    var m3 := Store(m2, HOSTNAME, cfg.hostname + [0]);
    PortLength(cfg.port);
    StoreAt(m0, SSID, cfg.ssid + [0], p);
    StoreAt(m1, PASSWORD, cfg.password + [0], p);
    StoreAt(m2, HOSTNAME, cfg.hostname + [0], p);
    StoreAt(m3, PORT, Print(cfg.port) + [0], p);
  }

  // ---------- What loading gives ----------

  /** Each field's own slot in `m` holds what was stored there, whatever was overwritten behind it. */
  ghost predicate LaidOut(m: Memory, m0: Memory, m1: Memory, m2: Memory, m3: Memory, cfg: Settings) {
    && (forall i :: SSID <= i < PASSWORD ==> m[i] == Store(m0, SSID, cfg.ssid + [0])[i])
    && (forall i :: PASSWORD <= i < HOSTNAME ==> m[i] == Store(m1, PASSWORD, cfg.password + [0])[i])
    && (forall i :: HOSTNAME <= i < PORT ==> m[i] == Store(m2, HOSTNAME, cfg.hostname + [0])[i])
    && m == Store(m3, PORT, PortText(cfg))
  }

  lemma SavedIsLaidOut(m0: Memory, m1: Memory, m2: Memory, m3: Memory, m: Memory, cfg: Settings)
    requires Storable(cfg)
    requires m1 == Store(m0, SSID, cfg.ssid + [0]) && m2 == Store(m1, PASSWORD, cfg.password + [0])
    requires m3 == Store(m2, HOSTNAME, cfg.hostname + [0]) && m == Store(m3, PORT, PortText(cfg))
    ensures LaidOut(m, m0, m1, m2, m3, cfg) && m[FLAG] == m0[FLAG]
  {
    PortLength(cfg.port);
    forall i: nat | i < SIZE
      ensures i < PORT ==> m[i] == m3[i]
      ensures i < HOSTNAME ==> m3[i] == m2[i]
      ensures i < PASSWORD ==> m2[i] == m1[i]
      ensures i < SSID ==> m1[i] == m0[i]
    {
      StoreAt(m3, PORT, PortText(cfg), i);
      StoreAt(m2, HOSTNAME, cfg.hostname + [0], i);
      StoreAt(m1, PASSWORD, cfg.password + [0], i);
      StoreAt(m0, SSID, cfg.ssid + [0], i);
    }
  }

  lemma PortReads(m3: Memory, m: Memory, cfg: Settings, limit: nat)
    requires m == Store(m3, PORT, PortText(cfg)) && limit > 10
    ensures StringAt(m, PORT, limit) == Some(PortText(cfg))
  {
    PortLength(cfg.port);
    PrintIsDigits(cfg.port);
    StoredReads(m3, m, PORT, Print(cfg.port), limit);
  }

  lemma HostnameReads(m0: Memory, m1: Memory, m2: Memory, m3: Memory, m: Memory, cfg: Settings, limit: nat)
    requires Storable(cfg) && LaidOut(m, m0, m1, m2, m3, cfg) && limit > 30
    ensures StringAt(m, HOSTNAME, limit) == Some(HostnameRead(cfg))
  {
    PortReads(m3, m, cfg, limit - 20);
    FieldReads(m2, m, HOSTNAME, cfg.hostname, 20, PortText(cfg), limit);
  }

  lemma PasswordReads(m0: Memory, m1: Memory, m2: Memory, m3: Memory, m: Memory, cfg: Settings, limit: nat)
    requires Storable(cfg) && LaidOut(m, m0, m1, m2, m3, cfg) && limit > 81
    ensures StringAt(m, PASSWORD, limit) == Some(PasswordRead(cfg))
  {
    HostnameReads(m0, m1, m2, m3, m, cfg, limit - 51);
    FieldReads(m1, m, PASSWORD, cfg.password, 51, HostnameRead(cfg), limit);
  }

  lemma SsidReads(m0: Memory, m1: Memory, m2: Memory, m3: Memory, m: Memory, cfg: Settings, limit: nat)
    requires Storable(cfg) && LaidOut(m, m0, m1, m2, m3, cfg) && limit > 98
    ensures StringAt(m, SSID, limit) == Some(SsidRead(cfg))
  {
    PasswordReads(m0, m1, m2, m3, m, cfg, limit - 17);
    FieldReads(m0, m, SSID, cfg.ssid, 17, PasswordRead(cfg), limit);
  }

  /** Exactly what loading gives after one pass of writes, over any previous contents: each field that
      is too long for its slot continues with the field behind it. */
  lemma LoadedAfterSave(cells: Memory, cfg: Settings)
    requires Storable(cfg)
    ensures var m := Saved(cells, cfg);
            && m[FLAG] == 1
            && StringAt(m, SSID) == Some(SsidRead(cfg))
            && StringAt(m, PASSWORD) == Some(PasswordRead(cfg))
            && StringAt(m, HOSTNAME) == Some(HostnameRead(cfg))
            && StringAt(m, PORT) == Some(PortText(cfg))
  {
    var m0 := cells[FLAG := 1];
    var m1 := Store(m0, SSID, cfg.ssid + [0]);
    var m2 := Store(m1, PASSWORD, cfg.password + [0]);
    var m3 := Store(m2, HOSTNAME, cfg.hostname + [0]);
    var m := Saved(cells, cfg);
    SavedIsLaidOut(m0, m1, m2, m3, m, cfg);
    SsidReads(m0, m1, m2, m3, m, cfg, SIZE);
    PasswordReads(m0, m1, m2, m3, m, cfg, SIZE);
    HostnameReads(m0, m1, m2, m3, m, cfg, SIZE);
    PortReads(m3, m, cfg, SIZE);
  }

  /** Each string comes back as it was saved, followed by one NUL (the reader keeps the terminator),
      and the flag and the port come back as saved. */
  ghost predicate LoadsBack(m: Memory, cfg: Settings) {
    && m[FLAG] == 1
    && StringAt(m, SSID) == Some(cfg.ssid + [0])
    && StringAt(m, PASSWORD) == Some(cfg.password + [0])
    && StringAt(m, HOSTNAME) == Some(cfg.hostname + [0])
    && StringAt(m, PORT).Some?
    && Atoi(StringAt(m, PORT).value) == cfg.port
  }

  lemma FieldIsWhole(s: seq<byte>, room: nat, next: seq<byte>)
    ensures Field(s, room, next + [0]) == s + [0] <==> |s| < room || s[room..] == next
  {
    if |s| >= room {
      var got := s[..room] + (next + [0]);
      assert s + [0] == s[..room] + (s[room..] + [0]);
      if got == s + [0] {
        assert next + [0] == got[room..] == s[room..] + [0];
        assert next == (next + [0])[..|next|] == s[room..];
      }
    }
  }

  /** Exactly when saved settings load back: each string fits its slot, or runs into a next field
      that happens to continue it. */
  lemma LoadsBackIff(cells: Memory, cfg: Settings)
    requires Storable(cfg)
    ensures LoadsBack(Saved(cells, cfg), cfg) <==>
              && (|cfg.ssid| <= 16 || cfg.ssid[17..] == cfg.password)
              && (|cfg.password| <= 50 || cfg.password[51..] == cfg.hostname)
              && (|cfg.hostname| <= 19 || cfg.hostname[20..] == Print(cfg.port))
  {
    LoadedAfterSave(cells, cfg);
    AtoiOfPrint(cfg.port, [0]);
    FieldIsWhole(cfg.hostname, PORT - HOSTNAME, Print(cfg.port));
    FieldIsWhole(cfg.password, HOSTNAME - PASSWORD, cfg.hostname);
    FieldIsWhole(cfg.ssid, PASSWORD - SSID, cfg.password);
  }

  /** The hostname's bound is tight: twenty characters come back with the port behind them. */
  lemma LongHostnameRunsIntoPort(cells: Memory, cfg: Settings)
    requires Storable(cfg) && |cfg.hostname| == 20
    ensures StringAt(Saved(cells, cfg), HOSTNAME) == Some(cfg.hostname + (Print(cfg.port) + [0]))
    ensures !LoadsBack(Saved(cells, cfg), cfg)
  {
    LoadedAfterSave(cells, cfg);
    assert cfg.hostname[..20] == cfg.hostname && cfg.hostname[20..] == [];
    PrintIsDigits(cfg.port);
    LoadsBackIff(cells, cfg);
  }

  // ---------- The check that ends the save loop ----------

  /** The check that ends the save loop. */
  ghost predicate Accepted(m: Memory, cfg: Settings) {
    || StringAt(m, SSID) == Some(cfg.ssid)
    || StringAt(m, PASSWORD) == Some(cfg.password)
    || StringAt(m, HOSTNAME) == Some(cfg.hostname)
    || (StringAt(m, PORT).Some? && Atoi(StringAt(m, PORT).value) == cfg.port)
  }

  lemma {:induction false} StringEndsWithNul(cells: Memory, address: nat, limit: nat)
    requires StringAt(cells, address, limit).Some?
    ensures var s := StringAt(cells, address, limit).value;
            s != [] && s[|s| - 1] == 0
    decreases limit
  {
    if cells[Cell(address)] != 0 {
      StringEndsWithNul(cells, address + 1, limit - 1);
    }
  }

  lemma NeverReadsBare(m: Memory, address: nat, s: seq<byte>)
    requires Clean(s)
    ensures StringAt(m, address) != Some(s)
  {
    if StringAt(m, address).Some? {
      StringEndsWithNul(m, address, SIZE);
      var r := StringAt(m, address).value;
      assert r[|r| - 1] in r;
    }
  }

  /** Of the four comparisons in that check only the port's can ever hold: a string that was read
      back ends with a NUL, which the saved one does not contain. */
  lemma OnlyThePortIsCompared(m: Memory, cfg: Settings)
    requires Storable(cfg)
    ensures Accepted(m, cfg) <==> StringAt(m, PORT).Some? && Atoi(StringAt(m, PORT).value) == cfg.port
  {
    NeverReadsBare(m, SSID, cfg.ssid);
    NeverReadsBare(m, PASSWORD, cfg.password);
    NeverReadsBare(m, HOSTNAME, cfg.hostname);
  }

  /** The first pass is always accepted, even when the strings do not load back. */
  lemma FirstPassAccepted(cells: Memory, cfg: Settings)
    requires Storable(cfg)
    ensures Accepted(Saved(cells, cfg), cfg)
  {
    LoadedAfterSave(cells, cfg);
    AtoiOfPrint(cfg.port, [0]);
  }

  // ---------- When the writes of a pass return ----------

  /** Every write of one pass returns. */
  predicate CanSave(cells: Memory, cfg: Settings, faults: Faults) {
    var m0, f0 := cells[FLAG := 1], AfterWrite(cells, FLAG, 1, faults);
    var m1, f1 := Store(m0, SSID, cfg.ssid + [0]), AfterStore(m0, SSID, cfg.ssid + [0], f0);
    var m2, f2 := Store(m1, PASSWORD, cfg.password + [0]), AfterStore(m1, PASSWORD, cfg.password + [0], f1);
    var m3, f3 := Store(m2, HOSTNAME, cfg.hostname + [0]), AfterStore(m2, HOSTNAME, cfg.hostname + [0], f2);
    && CanWrite(cells, FLAG, 1, faults)
    && CanStore(m0, SSID, cfg.ssid + [0], f0)
    && CanStore(m1, PASSWORD, cfg.password + [0], f1)
    && CanStore(m2, HOSTNAME, cfg.hostname + [0], f2)
    && CanStore(m3, PORT, PortText(cfg), f3)
  }

  /** No cell that the pass writes reads 0xFF. */
  predicate NoBlankField(cells: Memory, cfg: Settings) {
    && cells[FLAG] != BLANK
    && NoBlank(cells, SSID, |cfg.ssid| + 1)
    && NoBlank(cells, PASSWORD, |cfg.password| + 1)
    && NoBlank(cells, HOSTNAME, |cfg.hostname| + 1)
    && NoBlank(cells, PORT, |PortText(cfg)|)
  }

  /** Storing bytes other than 0xFF leaves no new cell that reads 0xFF, and none where they were stored. */
  lemma StoreNoBlank(cells: Memory, address: nat, s: seq<byte>, at: nat, n: nat)
    requires BLANK !in s && address + |s| <= SIZE && at + n <= SIZE
    requires NoBlank(cells, at, n) || (at == address && n == |s|)
    ensures NoBlank(Store(cells, address, s), at, n)
  {
    forall i: nat | at <= i < at + n
      ensures Store(cells, address, s)[Cell(i)] != BLANK
    {
      assert Cell(i) == i;
      StoreAt(cells, address, s, i);
    }
  }

  lemma StoreKeepsFields(cells: Memory, address: nat, s: seq<byte>, cfg: Settings)
    requires Storable(cfg) && BLANK !in s && 0 < address && address + |s| <= SIZE && NoBlankField(cells, cfg)
    ensures NoBlankField(Store(cells, address, s), cfg)
  {
    PortLength(cfg.port);
    StoreAt(cells, address, s, FLAG);
    StoreNoBlank(cells, address, s, SSID, |cfg.ssid| + 1);
    StoreNoBlank(cells, address, s, PASSWORD, |cfg.password| + 1);
    StoreNoBlank(cells, address, s, HOSTNAME, |cfg.hostname| + 1);
    StoreNoBlank(cells, address, s, PORT, |PortText(cfg)|);
  }

  lemma FieldsClean(cfg: Settings)
    requires Storable(cfg)
    ensures BLANK !in cfg.ssid + [0] && BLANK !in cfg.password + [0] && BLANK !in cfg.hostname + [0]
    ensures BLANK !in PortText(cfg) && PORT + |PortText(cfg)| <= SIZE
  {
    PortLength(cfg.port);
    PrintIsDigits(cfg.port);
  }

  lemma FlagKeepsFields(cells: Memory, cfg: Settings)
    requires Storable(cfg) && NoBlankField(cells, cfg)
    ensures NoBlankField(cells[FLAG := 1], cfg)
  {
  }

  /** Every write of a pass returns if no transfer will fail, or if no cell that the pass writes reads
      0xFF; the other cells do not matter. */
  lemma SafeSave(cells: Memory, cfg: Settings, faults: Faults)
    requires Storable(cfg) && (faults == [] || NoBlankField(cells, cfg))
    ensures CanSave(cells, cfg, faults)
  {
    FieldsClean(cfg);
    var m0, f0 := cells[FLAG := 1], AfterWrite(cells, FLAG, 1, faults);
    var m1, f1 := Store(m0, SSID, cfg.ssid + [0]), AfterStore(m0, SSID, cfg.ssid + [0], f0);
    var m2, f2 := Store(m1, PASSWORD, cfg.password + [0]), AfterStore(m1, PASSWORD, cfg.password + [0], f1);
    var m3, f3 := Store(m2, HOSTNAME, cfg.hostname + [0]), AfterStore(m2, HOSTNAME, cfg.hostname + [0], f2);
    if faults != [] {
      FlagKeepsFields(cells, cfg);
      StoreKeepsFields(m0, SSID, cfg.ssid + [0], cfg);
      StoreKeepsFields(m1, PASSWORD, cfg.password + [0], cfg);
      StoreKeepsFields(m2, HOSTNAME, cfg.hostname + [0], cfg);
    }
    SafeStore(m0, SSID, cfg.ssid + [0], f0);
    SafeStore(m1, PASSWORD, cfg.password + [0], f1);
    SafeStore(m2, HOSTNAME, cfg.hostname + [0], f2);
    SafeStore(m3, PORT, PortText(cfg), f3);
  }

  /** A chip whose first 128 cells were erased to 0x00 can be saved to, whatever transfers fail and
      whatever the other cells hold, if the settings end within those 128 cells. */
  lemma ErasedChipCanBeSaved(cells: Memory, cfg: Settings, faults: Faults)
    requires Storable(cfg) && forall i :: 0 <= i < 128 ==> cells[i] == 0
    requires SSID + |cfg.ssid| < 128 && PASSWORD + |cfg.password| < 128 && HOSTNAME + |cfg.hostname| < 128
    ensures CanSave(cells, cfg, faults)
  {
    PortLength(cfg.port);
    SafeSave(cells, cfg, faults);
  }

  /** After a pass no cell that it wrote reads 0xFF, so another pass returns whatever transfers fail. */
  lemma SavedNoBlank(cells: Memory, cfg: Settings)
    requires Storable(cfg)
    ensures NoBlankField(Saved(cells, cfg), cfg)
  {
    FieldsClean(cfg);
    var m0 := cells[FLAG := 1];
    var m1 := Store(m0, SSID, cfg.ssid + [0]);
    var m2 := Store(m1, PASSWORD, cfg.password + [0]);
    var m3 := Store(m2, HOSTNAME, cfg.hostname + [0]);
    var m := Store(m3, PORT, PortText(cfg));
    StoreNoBlank(m0, SSID, cfg.ssid + [0], SSID, |cfg.ssid| + 1);
    StoreNoBlank(m1, PASSWORD, cfg.password + [0], PASSWORD, |cfg.password| + 1);
    StoreNoBlank(m1, PASSWORD, cfg.password + [0], SSID, |cfg.ssid| + 1);
    StoreNoBlank(m2, HOSTNAME, cfg.hostname + [0], HOSTNAME, |cfg.hostname| + 1);
    StoreNoBlank(m2, HOSTNAME, cfg.hostname + [0], PASSWORD, |cfg.password| + 1);
    StoreNoBlank(m2, HOSTNAME, cfg.hostname + [0], SSID, |cfg.ssid| + 1);
    StoreNoBlank(m3, PORT, PortText(cfg), PORT, |PortText(cfg)|);
    StoreNoBlank(m3, PORT, PortText(cfg), HOSTNAME, |cfg.hostname| + 1);
    StoreNoBlank(m3, PORT, PortText(cfg), PASSWORD, |cfg.password| + 1);
    StoreNoBlank(m3, PORT, PortText(cfg), SSID, |cfg.ssid| + 1);
    SavedIsLaidOut(m0, m1, m2, m3, m, cfg);
  }

  // ---------- When loading returns ----------

  const FIELDS := 4

  /** The addresses of the four strings, in the order they are read. */
  function FieldAt(i: nat): nat
    requires i < FIELDS
  {
    if i == 0 then SSID else if i == 1 then PASSWORD else if i == 2 then HOSTNAME else PORT
  }

  /** From the `i`-th on, all strings end. */
  predicate FieldsEnd(cells: Memory, i: nat)
    requires i <= FIELDS
  {
    forall k: nat :: i <= k < FIELDS ==> StringAt(cells, FieldAt(k)).Some?
  }

  /** The flag is a boolean and, if it is set, every field ends. */
  predicate CanLoad(cells: Memory): (can: bool)
    ensures can && cells[FLAG] == 1 ==>
              && StringAt(cells, SSID).Some? && StringAt(cells, PASSWORD).Some?
              && StringAt(cells, HOSTNAME).Some? && StringAt(cells, PORT).Some?
  {
    assert FieldAt(0) == SSID && FieldAt(1) == PASSWORD && FieldAt(2) == HOSTNAME && FieldAt(3) == PORT;
    IsFlag()(cells[FLAG]) && (cells[FLAG] == 1 ==> FieldsEnd(cells, 0))
  }

  /** Loading under way: polling the flag, reading the `i`-th string, or done. */
  datatype Loading = Polling(faults: Faults) | InField(i: nat, reading: Reading) | AllRead

  predicate ValidLoading(l: Loading) {
    l.InField? ==> l.i < FIELDS && l.reading.phase != Finished
  }

  function LoadStep(l: Loading, cells: Memory): (next: Loading)
    requires ValidLoading(l)
    ensures ValidLoading(next)
  {
    match l
    case AllRead => l
    case Polling(faults) =>
      var seen := if Lost(faults) then BLANK else cells[FLAG];
      if seen == 0 then AllRead
      else if seen == 1 then InField(0, Reading(Scanning, FieldAt(0), Rest(faults)))
      else Polling(Rest(faults))
    case InField(i, reading) =>
      var r := ReadStep(reading, cells, FieldAt(i));
      if r.phase != Finished then InField(i, r)
      else if i + 1 == FIELDS then AllRead
      else InField(i + 1, Reading(Scanning, FieldAt(i + 1), r.faults))
  }

  function LoadSteps(l: Loading, cells: Memory, n: nat): Loading
    requires ValidLoading(l)
    decreases n
  {
    if n == 0 then l else LoadSteps(LoadStep(l, cells), cells, n - 1)
  }

  ghost predicate LoadReturns(l: Loading, cells: Memory)
    requires ValidLoading(l)
  {
    exists n: nat :: LoadSteps(l, cells, n) == AllRead
  }

  lemma LoadReturnsAfter(l: Loading, cells: Memory)
    requires ValidLoading(l) && LoadReturns(LoadStep(l, cells), cells)
    ensures LoadReturns(l, cells)
  {
    var n: nat :| LoadSteps(LoadStep(l, cells), cells, n) == AllRead;
    assert LoadSteps(l, cells, n + 1) == AllRead;
  }

  lemma {:induction false} FieldReturns(cells: Memory, i: nat, r: Reading, n: nat)
    requires i < FIELDS && r.phase != Finished && FieldsEnd(cells, i + 1)
    requires ReadSteps(r, cells, FieldAt(i), n).phase == Finished
    ensures LoadReturns(InField(i, r), cells)
    decreases FIELDS - i, n
  {
    var l := InField(i, r);
    var next := LoadStep(l, cells);
    if next == AllRead {
      assert LoadSteps(next, cells, 0) == AllRead;
    } else if next.i == i {
      FieldReturns(cells, i, next.reading, n - 1);
    } else {
      ReadStringReturnsIff(cells, FieldAt(i + 1), next.reading.faults);
      var m: nat :| ReadSteps(next.reading, cells, FieldAt(i + 1), m).phase == Finished;
      FieldReturns(cells, i + 1, next.reading, m);
    }
    LoadReturnsAfter(l, cells);
  }

  lemma {:induction false} PollReturns(cells: Memory, faults: Faults)
    requires CanLoad(cells)
    ensures LoadReturns(Polling(faults), cells)
    decreases |faults|
  {
    var l := Polling(faults);
    var next := LoadStep(l, cells);
    if next == AllRead {
      assert LoadSteps(next, cells, 0) == AllRead;
    } else if next.Polling? {
      PollReturns(cells, next.faults);
    } else {
      ReadStringReturnsIff(cells, FieldAt(0), next.reading.faults);
      var m: nat :| ReadSteps(next.reading, cells, FieldAt(0), m).phase == Finished;
      FieldReturns(cells, 0, next.reading, m);
    }
    LoadReturnsAfter(l, cells);
  }

  /** What lies ahead never ends. */
  ghost predicate Stuck(l: Loading, cells: Memory)
    requires ValidLoading(l)
  {
    match l
    case AllRead => false
    case Polling(_) => !CanLoad(cells)
    case InField(i, r) => !StringReturns(r, cells, FieldAt(i)) || !FieldsEnd(cells, i + 1)
  }

  lemma FieldStuck(cells: Memory, i: nat, faults: Faults)
    requires i < FIELDS && !FieldsEnd(cells, i)
    ensures Stuck(InField(i, Reading(Scanning, FieldAt(i), faults)), cells)
  {
    ReadStringReturnsIff(cells, FieldAt(i), faults);
  }

  lemma ReadingStuck(r: Reading, cells: Memory, start: nat)
    requires !StringReturns(r, cells, start)
    ensures ReadStep(r, cells, start).phase != Finished && !StringReturns(ReadStep(r, cells, start), cells, start)
  {
    var next := ReadStep(r, cells, start);
    if StringReturns(next, cells, start) {
      StringReturnsAfter(r, cells, start);
    }
    assert ReadSteps(next, cells, start, 0) == next;
  }

  lemma StaysStuck(l: Loading, cells: Memory)
    requires ValidLoading(l) && Stuck(l, cells)
    ensures Stuck(LoadStep(l, cells), cells)
  {
    match l
    case Polling(faults) =>
      if LoadStep(l, cells).InField? {
        FieldStuck(cells, 0, Rest(faults));
      }
    case InField(i, r) =>
      if !StringReturns(r, cells, FieldAt(i)) {
        ReadingStuck(r, cells, FieldAt(i));
      } else {
        var next := ReadStep(r, cells, FieldAt(i));
        if next.phase == Finished {
          FieldStuck(cells, i + 1, next.faults);
        }
      }
  }

  lemma {:induction false} LoadHangs(l: Loading, cells: Memory, n: nat)
    requires ValidLoading(l) && Stuck(l, cells)
    ensures LoadSteps(l, cells, n) != AllRead
    decreases n
  {
    if n > 0 {
      StaysStuck(l, cells);
      LoadHangs(LoadStep(l, cells), cells, n - 1);
    }
  }

  /** With finitely many faults, loading at start-up returns exactly when the flag cell holds 0, or holds 1
      and each of the four strings ends. */
  lemma LoadReturnsIff(cells: Memory, faults: Faults)
    ensures LoadReturns(Polling(faults), cells) <==> CanLoad(cells)
  {
    if CanLoad(cells) {
      PollReturns(cells, faults);
    } else {
      forall n: nat
        ensures LoadSteps(Polling(faults), cells, n) != AllRead
      {
        LoadHangs(Polling(faults), cells, n);
      }
    }
  }

  /** On a chip as it comes from the factory, all cells 0xFF, start-up never gets past the flag, even if
      every transfer succeeds. */
  lemma BlankChipNeverLoads(cells: Memory)
    requires forall i :: 0 <= i < 256 ==> cells[i] == 0xFF
    ensures !LoadReturns(Polling([]), cells)
  {
    LoadReturnsIff(cells, []);
  }

  /** After a save, loading returns. */
  lemma SavedCanLoad(cells: Memory, cfg: Settings)
    requires Storable(cfg)
    ensures CanLoad(Saved(cells, cfg))
  {
    LoadedAfterSave(cells, cfg);
  }

  // ---------- The save and load sequences ----------

  const MAX_TRYS := 10

  /** The writes of one pass. */
  method WriteAll(memory: Driver, cfg: Settings)
    requires memory.Valid() && Storable(cfg) && CanSave(memory.Contents(), cfg, memory.faults)
    modifies memory, memory.cells
    ensures memory.Contents() == Saved(old(memory.Contents()), cfg)
  {
    memory.WriteBoolean(FLAG, true);
    var _ := memory.WriteString(SSID, cfg.ssid);
    var _ := memory.WriteString(PASSWORD, cfg.password);
    var _ := memory.WriteString(HOSTNAME, cfg.hostname);
    var _ := memory.WriteString(PORT, Print(cfg.port));
  }

  /** The save loop: write everything, read it back, and stop when the check passes; on the eleventh
      pass the watchdog would reset the device. The check passes on the first. */
  method Save(memory: Driver, cfg: Settings) returns (trys: nat, reset: bool)
    requires memory.Valid() && Storable(cfg) && CanSave(memory.Contents(), cfg, memory.faults)
    modifies memory, memory.cells
    ensures !reset && trys == 0 && memory.Contents() == Saved(old(memory.Contents()), cfg)
  {
    trys, reset := 0, false;
    ghost var start := memory.Contents();
    ghost var first := Saved(start, cfg);
    while true
      invariant trys <= MAX_TRYS && !reset
      invariant CanSave(memory.Contents(), cfg, memory.faults)
      invariant trys == 0 ==> Saved(memory.Contents(), cfg) == first
      invariant trys > 0 ==> !Accepted(first, cfg)
      decreases MAX_TRYS - trys
    {
      ghost var before := memory.Contents();
      WriteAll(memory, cfg);
      LoadedAfterSave(before, cfg);
      SavedNoBlank(before, cfg);
      var readSsid := memory.ReadString(SSID);
      var readPassword := memory.ReadString(PASSWORD);
      var readHostname := memory.ReadString(HOSTNAME);
      var portText := memory.ReadString(PORT);
      var readPort := Atoi(portText);
      if trys >= MAX_TRYS {
        reset := true;
        break;
      }
      if readSsid == cfg.ssid || readPassword == cfg.password || readHostname == cfg.hostname || readPort == cfg.port {
        break;
      }
      SafeSave(memory.Contents(), cfg, memory.faults);
      trys := trys + 1;
    }
    FirstPassAccepted(start, cfg);
  }

  datatype Loaded = NotConfigured | Loaded(ssid: seq<byte>, password: seq<byte>, hostname: seq<byte>, port: int)

  /** The load sequence at start-up. */
  method Load(memory: Driver) returns (loaded: Loaded)
    requires memory.Valid() && CanLoad(memory.Contents())
    modifies memory
    ensures loaded == var m := memory.Contents();
                      if m[FLAG] == 0 then NotConfigured
                      else Loaded(StringAt(m, SSID).value, StringAt(m, PASSWORD).value,
                                  StringAt(m, HOSTNAME).value, Atoi(StringAt(m, PORT).value))
  {
    var configured := memory.ReadBoolean(FLAG);
    if !configured {
      return NotConfigured;
    }
    var ssid := memory.ReadString(SSID);
    var password := memory.ReadString(PASSWORD);
    var hostname := memory.ReadString(HOSTNAME);
    var port := memory.ReadString(PORT);
    return Loaded(ssid, password, hostname, Atoi(port));
  }

  /** Saving and then loading on one chip. */
  method SaveThenLoad(memory: Driver, cfg: Settings) returns (loaded: Loaded)
    requires memory.Valid() && Storable(cfg) && CanSave(memory.Contents(), cfg, memory.faults)
    modifies memory, memory.cells
    ensures loaded == Loaded(SsidRead(cfg), PasswordRead(cfg), HostnameRead(cfg), cfg.port)
  {
    ghost var before := memory.Contents();
    var _, _ := Save(memory, cfg);
    LoadedAfterSave(before, cfg);
    SavedCanLoad(before, cfg);
    AtoiOfPrint(cfg.port, [0]);
    loaded := Load(memory);
  }
}

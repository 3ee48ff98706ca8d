/** The EEPROM driver: retry-until-verified writes and NUL-terminated strings over a bus on which any
    transfer may fail. */
module Eeprom {
  import opened Bytes

  const SIZE := 0x100
  const BLANK: byte := 0xFF

  type Memory = s: seq<byte> | |s| == SIZE witness seq(SIZE, i => 0)

  /** Which of the coming transfers fail; those behind the end of the list all succeed. */
  type Faults = seq<bool>

  function Lost(faults: Faults): bool {
    faults != [] && faults[0]
  }

  function Rest(faults: Faults): (rest: Faults)
    ensures faults != [] ==> |rest| == |faults| - 1
    ensures faults == [] ==> rest == []
  {
    if faults == [] then [] else faults[1..]
  }

  /** The faults left after transfers up to and including the first that succeeds. */
  function AfterSuccess(faults: Faults): (rest: Faults)
    ensures |rest| <= |faults|
    decreases |faults|
  {
    if Lost(faults) then AfterSuccess(Rest(faults)) else Rest(faults)
  }

  // ---------- One write, transfer by transfer ----------

  datatype Phase = Sending | Verifying | Done

  /** A call of `write` under way: it sends the byte, then reads back until it sees a byte other than
      0xFF, and starts over unless that byte is the one it sent. */
  datatype Writing = Writing(phase: Phase, cells: Memory, faults: Faults)

  function Step(s: Writing, a: byte, data: byte): Writing {
    match s.phase
    case Done => s
    case Sending => Writing(Verifying, if Lost(s.faults) then s.cells else s.cells[a := data], Rest(s.faults))
    case Verifying =>
      var seen := if Lost(s.faults) then BLANK else s.cells[a];
      s.(faults := Rest(s.faults), phase := if seen == BLANK then Verifying else if seen == data then Done else Sending)
  }

  function Steps(s: Writing, a: byte, data: byte, n: nat): Writing
    decreases n
  {
    if n == 0 then s else Steps(Step(s, a, data), a, data, n - 1)
  }

  ghost predicate Returns(s: Writing, a: byte, data: byte) {
    exists n: nat :: Steps(s, a, data, n).phase == Done
  }

  /** Whenever a write has returned, exactly its own cell has changed, to the byte written: for every
      fault pattern, however long the write took. */
  lemma {:induction false} WriteStores(s: Writing, a: byte, data: byte, n: nat, before: Memory)
    requires s.cells == before || s.cells == before[a := data]
    requires s.phase == Done ==> s.cells[a] == data
    requires Steps(s, a, data, n).phase == Done
    ensures Steps(s, a, data, n).cells == before[a := data]
    decreases n
  {
    if n > 0 {
      WriteStores(Step(s, a, data), a, data, n - 1, before);
    }
  }

  lemma {:induction false} ReturnsAfter(s: Writing, a: byte, data: byte)
    requires Returns(Step(s, a, data), a, data)
    ensures Returns(s, a, data)
  {
    var n: nat :| Steps(Step(s, a, data), a, data, n).phase == Done;
    assert Steps(s, a, data, n + 1).phase == Done;
  }

  /** With finitely many faults, a write ends if the byte is not 0xFF and the cell can be seen to
      hold something. */
  lemma {:induction false} WriteReturns(s: Writing, a: byte, data: byte)
    requires data != BLANK
    requires s.cells[a] != BLANK || (s.phase == Sending && !Lost(s.faults))
    ensures Returns(s, a, data)
    decreases |s.faults|,
              match s.phase case Done => 0 case Verifying => if s.cells[a] == data then 1 else 3 case Sending => 2
  {
    if s.phase == Done {
      assert Steps(s, a, data, 0).phase == Done;
    } else {
      WriteReturns(Step(s, a, data), a, data);
      ReturnsAfter(s, a, data);
    }
  }

  /** A write never ends when the byte is 0xFF, or when its cell reads 0xFF while it verifies. */
  lemma {:induction false} WriteHangs(s: Writing, a: byte, data: byte, n: nat)
    requires s.phase != Done
    requires data == BLANK || (s.phase == Verifying && s.cells[a] == BLANK)
    ensures Steps(s, a, data, n).phase != Done
    decreases n
  {
    if n > 0 {
      WriteHangs(Step(s, a, data), a, data, n - 1);
    }
  }

  predicate CanWrite(cells: Memory, a: byte, data: byte, faults: Faults) {
    data != BLANK && (cells[a] != BLANK || !Lost(faults))
  }

  /** Exactly when a write returns: the byte is not 0xFF, and the cell does not read 0xFF or the very
      first transfer succeeds. (If it fails on a cell that reads 0xFF, the verifying read waits for
      another value for ever and the byte is never sent again.) */
  lemma WriteReturnsIff(cells: Memory, a: byte, data: byte, faults: Faults)
    ensures Returns(Writing(Sending, cells, faults), a, data) <==> CanWrite(cells, a, data, faults)
  {
    var s := Writing(Sending, cells, faults);
    if CanWrite(cells, a, data, faults) {
      WriteReturns(s, a, data);
    } else {
      forall n: nat
        ensures Steps(s, a, data, n).phase != Done
      {
        if n > 0 && data != BLANK {
          WriteHangs(Step(s, a, data), a, data, n - 1);
        } else if n > 0 {
          WriteHangs(s, a, data, n);
        }
      }
    }
  }

  /** The faults left when a write returns. */
  function AfterWrite(cells: Memory, a: byte, data: byte, faults: Faults): (rest: Faults)
    ensures |rest| <= |faults|
    decreases |faults|
  {
    var verified := AfterSuccess(Rest(faults));
    if Lost(faults) && cells[a] != data then AfterWrite(cells, a, data, verified) else verified
  }

  /** The faults left when a write that is under way returns. */
  function FaultsLeft(s: Writing, a: byte, data: byte): Faults {
    match s.phase
    case Done => s.faults
    case Sending => AfterWrite(s.cells, a, data, s.faults)
    case Verifying =>
      var verified := AfterSuccess(s.faults);
      if s.cells[a] == data then verified else AfterWrite(s.cells, a, data, verified)
  }

  /** However many transfers a write takes, when it has returned exactly these faults are left. */
  lemma {:induction false} WriteFaults(s: Writing, a: byte, data: byte, n: nat)
    requires data != BLANK && Steps(s, a, data, n).phase == Done
    ensures Steps(s, a, data, n).faults == FaultsLeft(s, a, data)
    decreases n
  {
    if n > 0 {
      WriteFaults(Step(s, a, data), a, data, n - 1);
      if s.phase == Verifying && s.cells[a] == BLANK {
        WriteHangs(s, a, data, n);
      }
    }
  }

  // ---------- One read, attempt by attempt ----------

  /** Within `n` attempts a byte was read that ends the loop; a lost attempt leaves 0xFF. */
  predicate SeenWithin(cell: byte, faults: Faults, ends: byte -> bool, n: nat)
    decreases n
  {
    n > 0 && (ends(if Lost(faults) then BLANK else cell) || SeenWithin(cell, Rest(faults), ends, n - 1))
  }

  ghost predicate ReadEnds(cell: byte, faults: Faults, ends: byte -> bool) {
    exists n: nat :: SeenWithin(cell, faults, ends, n)
  }

  lemma {:induction false} SeenAfterFaults(cell: byte, faults: Faults, ends: byte -> bool)
    requires ends(cell)
    ensures SeenWithin(cell, faults, ends, |faults| + 1)
    decreases |faults|
  {
    if Lost(faults) {
      SeenAfterFaults(cell, Rest(faults), ends);
    }
  }

  lemma {:induction false} NeverSeen(cell: byte, faults: Faults, ends: byte -> bool, n: nat)
    requires !ends(cell) && !ends(BLANK)
    ensures !SeenWithin(cell, faults, ends, n)
    decreases n
  {
    if n > 0 {
      NeverSeen(cell, Rest(faults), ends, n - 1);
    }
  }

  /** With finitely many faults, a loop that reads a cell until it sees a byte it wants ends exactly when
      the cell holds such a byte. (No loop of the driver wants 0xFF.) */
  lemma ReadEndsIff(cell: byte, faults: Faults, ends: byte -> bool)
    requires !ends(BLANK)
    ensures ReadEnds(cell, faults, ends) <==> ends(cell)
  {
    if ends(cell) {
      SeenAfterFaults(cell, faults, ends);
    } else {
      forall n: nat
        ensures !SeenWithin(cell, faults, ends, n)
      {
        NeverSeen(cell, faults, ends, n);
      }
    }
  }

  /** `read` waits for any byte but 0xFF, `readBoolean` for 0 or 1. */
  function IsByte(): byte -> bool {
    (b: byte) => b != BLANK
  }

  function IsFlag(): byte -> bool {
    (b: byte) => b == 0 || b == 1
  }

  // ---------- Strings ----------

  function Cell(address: nat): byte {
    address % SIZE
  }

  /** The memory after the bytes of `s` were written one after another from `address` on. */
  function Store(cells: Memory, address: nat, s: seq<byte>): Memory
    decreases |s|
  {
    if s == [] then cells else Store(cells[Cell(address) := s[0]], address + 1, s[1..])
  }

  /** Every one of these writes returns. */
  predicate CanStore(cells: Memory, address: nat, s: seq<byte>, faults: Faults)
    decreases |s|
  {
    s == [] || (
      && CanWrite(cells, Cell(address), s[0], faults)
      && CanStore(cells[Cell(address) := s[0]], address + 1, s[1..], AfterWrite(cells, Cell(address), s[0], faults)))
  }

  /** The faults left when all of them have returned. */
  function AfterStore(cells: Memory, address: nat, s: seq<byte>, faults: Faults): (rest: Faults)
    ensures |rest| <= |faults|
    decreases |s|
  {
    if s == [] then faults
    else AfterStore(cells[Cell(address) := s[0]], address + 1, s[1..], AfterWrite(cells, Cell(address), s[0], faults))
  }

  /** The first `i` writes of `s` are done; those left return, and lead to where all of them lead. */
  ghost predicate Underway(start: Memory, first: Faults, address: nat, s: seq<byte>,
                           cells: Memory, faults: Faults, i: nat)
  {
    && i <= |s|
    && CanStore(cells, address + i, s[i..], faults)
    && Store(cells, address + i, s[i..]) == Store(start, address, s)
    && AfterStore(cells, address + i, s[i..], faults) == AfterStore(start, address, s, first)
  }

  lemma StoreNext(start: Memory, first: Faults, address: nat, s: seq<byte>, cells: Memory, faults: Faults, i: nat)
    requires i < |s| && Underway(start, first, address, s, cells, faults, i)
    ensures CanWrite(cells, Cell(address + i), s[i], faults)
    ensures var a := Cell(address + i);
            Underway(start, first, address, s, cells[a := s[i]], AfterWrite(cells, a, s[i], faults), i + 1)
  {
    assert s[i..][1..] == s[i + 1..] && s[i..][0] == s[i];
  }

  /** None of the `n` cells from `address` on reads 0xFF. */
  predicate NoBlank(cells: Memory, address: nat, n: nat) {
    forall i: nat :: address <= i < address + n ==> cells[Cell(i)] != BLANK
  }

  /** No byte of `s` is 0xFF, and either no transfer will fail or no cell that `s` goes to reads 0xFF. */
  predicate SafeToStore(cells: Memory, address: nat, s: seq<byte>, faults: Faults) {
    BLANK !in s && (faults == [] || NoBlank(cells, address, |s|))
  }

  lemma {:induction false} SafeStore(cells: Memory, address: nat, s: seq<byte>, faults: Faults)
    requires SafeToStore(cells, address, s, faults)
    ensures CanStore(cells, address, s, faults)
    decreases |s|
  {
    if s != [] {
      var next := cells[Cell(address) := s[0]];
      assert s[0] in s && BLANK !in s[1..];
      assert NoBlank(cells, address, |s|) ==> cells[Cell(address)] != BLANK && NoBlank(next, address + 1, |s[1..]|);
      SafeStore(next, address + 1, s[1..], AfterWrite(cells, Cell(address), s[0], faults));
    }
  }

  /** What a read loop returns, its NUL included: `None` if it meets a cell that reads 0xFF, or no
      NUL in `limit` cells. */
  function StringAt(cells: Memory, address: nat, limit: nat := SIZE): Option<seq<byte>>
    decreases limit
  {
    if limit == 0 || cells[Cell(address)] == BLANK then None
    else if cells[Cell(address)] == 0 then Some([0])
    else
      match StringAt(cells, address + 1, limit - 1)
      case None => None
      case Some(rest) => Some([cells[Cell(address)]] + rest)
  }

  // ---------- Reading a string, attempt by attempt ----------

  datatype ReadPhase = Scanning | Rereading | Finished

  /** A call of `readString` under way: it reads cell after cell up to a NUL, each until it sees a byte
      other than 0xFF, and then the first cell once more. */
  datatype Reading = Reading(phase: ReadPhase, at: nat, faults: Faults)

  function ReadStep(r: Reading, cells: Memory, start: nat): Reading {
    var place := Cell(if r.phase == Scanning then r.at else start);
    var seen := if Lost(r.faults) then BLANK else cells[place];
    if r.phase == Finished then r
    else if seen == BLANK then r.(faults := Rest(r.faults))
    else if r.phase == Rereading then Reading(Finished, r.at, Rest(r.faults))
    else if seen == 0 then Reading(Rereading, r.at, Rest(r.faults))
    else Reading(Scanning, r.at + 1, Rest(r.faults))
  }

  function ReadSteps(r: Reading, cells: Memory, start: nat, n: nat): Reading
    decreases n
  {
    if n == 0 then r else ReadSteps(ReadStep(r, cells, start), cells, start, n - 1)
  }

  ghost predicate StringReturns(r: Reading, cells: Memory, start: nat) {
    exists n: nat :: ReadSteps(r, cells, start, n).phase == Finished
  }

  lemma StringReturnsAfter(r: Reading, cells: Memory, start: nat)
    requires StringReturns(ReadStep(r, cells, start), cells, start)
    ensures StringReturns(r, cells, start)
  {
    var n: nat :| ReadSteps(ReadStep(r, cells, start), cells, start, n).phase == Finished;
    assert ReadSteps(r, cells, start, n + 1).phase == Finished;
  }

  lemma {:induction false} RereadReturns(r: Reading, cells: Memory, start: nat)
    requires r.phase == Rereading && cells[Cell(start)] != BLANK
    ensures StringReturns(r, cells, start)
    decreases |r.faults|
  {
    var next := ReadStep(r, cells, start);
    if next.phase == Finished {
      assert ReadSteps(next, cells, start, 0).phase == Finished;
    } else {
      RereadReturns(next, cells, start);
    }
    StringReturnsAfter(r, cells, start);
  }

  lemma {:induction false} ScanReturns(r: Reading, cells: Memory, start: nat, limit: nat)
    requires r.phase == Scanning && StringAt(cells, r.at, limit).Some? && cells[Cell(start)] != BLANK
    ensures StringReturns(r, cells, start)
    decreases limit, |r.faults|
  {
    var next := ReadStep(r, cells, start);
    if next.phase == Rereading {
      RereadReturns(next, cells, start);
    } else if next.at == r.at {
      ScanReturns(next, cells, start, limit);
    } else {
      ScanReturns(next, cells, start, limit - 1);
    }
    StringReturnsAfter(r, cells, start);
  }

  /** The string from `at` on ends with the NUL `i` cells further, and no cell before reads 0xFF. */
  predicate EndsAfter(cells: Memory, at: nat, i: nat)
    decreases i
  {
    if i == 0 then cells[Cell(at)] == 0
    else cells[Cell(at)] != 0 && cells[Cell(at)] != BLANK && EndsAfter(cells, at + 1, i - 1)
  }

  lemma {:induction false} EndedString(cells: Memory, at: nat, limit: nat, i: nat)
    requires i < limit && EndsAfter(cells, at, i)
    ensures StringAt(cells, at, limit).Some?
    decreases limit
  {
    if i > 0 {
      EndedString(cells, at + 1, limit - 1, i - 1);
    }
  }

  lemma {:induction false} NulOnlyAtEnd(cells: Memory, at: nat, i: nat, j: nat)
    requires j <= i && EndsAfter(cells, at, i)
    ensures cells[Cell(at + j)] == 0 <==> j == i
    decreases i
  {
    if i > 0 && j > 0 {
      NulOnlyAtEnd(cells, at + 1, i - 1, j - 1);
    }
  }

  lemma CellWraps(address: nat)
    ensures Cell(address + SIZE) == Cell(address)
  {
  }

  /** Addresses wrap after 256 cells: a string that does not end within those never ends. */
  lemma EndsWithinChip(cells: Memory, at: nat, i: nat)
    requires EndsAfter(cells, at, i)
    ensures i < SIZE
  {
    if i >= SIZE {
      NulOnlyAtEnd(cells, at, i, i);
      NulOnlyAtEnd(cells, at, i, i - SIZE);
      CellWraps(at + (i - SIZE));
    }
  }

  ghost predicate NeverEnds(cells: Memory, at: nat) {
    forall i: nat :: !EndsAfter(cells, at, i)
  }

  lemma NeverEndsNext(cells: Memory, at: nat)
    requires NeverEnds(cells, at)
    ensures cells[Cell(at)] != 0 && (cells[Cell(at)] != BLANK ==> NeverEnds(cells, at + 1))
  {
    assert !EndsAfter(cells, at, 0);
    if cells[Cell(at)] != BLANK {
      var next := at + 1;
      forall i: nat
        ensures !EndsAfter(cells, next, i)
      {
        assert !EndsAfter(cells, at, i + 1);
      }
    }
  }

  lemma {:induction false} ScanHangs(r: Reading, cells: Memory, start: nat, n: nat)
    requires r.phase == Scanning && NeverEnds(cells, r.at)
    ensures ReadSteps(r, cells, start, n).phase == Scanning
    decreases n
  {
    if n > 0 {
      NeverEndsNext(cells, r.at);
      ScanHangs(ReadStep(r, cells, start), cells, start, n - 1);
    }
  }

  /** With finitely many faults, `readString` returns exactly when its string ends: when a NUL comes
      within 256 cells, and no cell in front of it reads 0xFF. */
  lemma ReadStringReturnsIff(cells: Memory, start: nat, faults: Faults)
    ensures StringReturns(Reading(Scanning, start, faults), cells, start) <==> StringAt(cells, start).Some?
  {
    var r := Reading(Scanning, start, faults);
    if StringAt(cells, start).Some? {
      ScanReturns(r, cells, start, SIZE);
    } else {
      forall i: nat
        ensures !EndsAfter(cells, start, i)
      {
        if EndsAfter(cells, start, i) {
          EndsWithinChip(cells, start, i);
          EndedString(cells, start, SIZE, i);
        }
      }
      forall n: nat
        ensures ReadSteps(r, cells, start, n).phase != Finished
      {
        ScanHangs(r, cells, start, n);
      }
    }
  }

  /** `s`, then the string at `address`. */
  function ContinuedAt(s: seq<byte>, cells: Memory, address: nat, limit: nat): Option<seq<byte>> {
    match StringAt(cells, address, limit)
    case None => None
    case Some(rest) => Some(s + rest)
  }

  lemma ContinuedStart(cells: Memory, address: nat, limit: nat)
    requires StringAt(cells, address, limit).Some?
    ensures ContinuedAt([], cells, address, limit) == StringAt(cells, address, limit)
    ensures cells[Cell(address)] != BLANK
  {
    assert [] + StringAt(cells, address, limit).value == StringAt(cells, address, limit).value;
  }

  lemma ContinuedStep(s: seq<byte>, cells: Memory, address: nat, limit: nat)
    requires ContinuedAt(s, cells, address, limit).Some?
    ensures limit > 0 && cells[Cell(address)] != BLANK
    ensures var next := s + [cells[Cell(address)]];
            ContinuedAt(s, cells, address, limit) ==
              if cells[Cell(address)] == 0 then Some(next) else ContinuedAt(next, cells, address + 1, limit - 1)
  {
    var c := cells[Cell(address)];
    if c != 0 {
      var rest := StringAt(cells, address + 1, limit - 1).value;
      assert s + ([c] + rest) == (s + [c]) + rest;
    }
  }

  // ---------- The driver ----------

  class Driver {
    const cells: array<byte>
    var faults: Faults

    ghost predicate Valid() {
      cells.Length == SIZE
    }

    ghost function Contents(): Memory
      requires Valid()
      reads cells
    {
      cells[..]
    }

    /** One two-byte transfer to the chip. */
    method SendByte(a: byte, data: byte)
      requires Valid()
      modifies this, cells
      ensures Contents() == if Lost(old(faults)) then old(Contents()) else old(Contents())[a := data]
      ensures faults == Rest(old(faults))
    {
      if !Lost(faults) {
        cells[a] := data;
      }
      faults := Rest(faults);
    }

    /** One attempt to read a byte: it fails, leaving `kept`, or it is truthful. */
    method FetchByte(a: byte, kept: byte) returns (data: byte)
      requires Valid()
      modifies this
      ensures data == if Lost(old(faults)) then kept else Contents()[a]
      ensures faults == Rest(old(faults))
    {
      data := if Lost(faults) then kept else cells[a];
      faults := Rest(faults);
    }

    method Read(address: nat) returns (readData: byte)
      requires Valid() && Contents()[Cell(address)] != BLANK
      modifies this
      ensures readData == Contents()[Cell(address)]
      ensures faults == AfterSuccess(old(faults))
    {
      readData := BLANK;
      while readData == BLANK
        invariant readData == BLANK ==> AfterSuccess(faults) == AfterSuccess(old(faults))
        invariant readData != BLANK ==> readData == Contents()[Cell(address)] && faults == AfterSuccess(old(faults))
        decreases |faults|, readData == BLANK
      {
        readData := FetchByte(Cell(address), readData);
      }
    }

    method Write(address: nat, data: byte)
      requires Valid() && CanWrite(Contents(), Cell(address), data, faults)
      modifies this, cells
      ensures Contents() == old(Contents())[Cell(address) := data]
      ensures faults == AfterWrite(old(Contents()), Cell(address), data, old(faults))
    {
      var a := Cell(address);
      var successfullyWritten := false;
      while !successfullyWritten
        invariant !successfullyWritten ==>
                    && Contents() == old(Contents()) && CanWrite(Contents(), a, data, faults)
                    && AfterWrite(Contents(), a, data, faults) == AfterWrite(old(Contents()), a, data, old(faults))
        invariant successfullyWritten ==>
                    && Contents() == old(Contents())[a := data]
                    && faults == AfterWrite(old(Contents()), a, data, old(faults))
        decreases |faults|, !successfullyWritten
      {
        SendByte(a, data);
        var verify := Read(address);
        if verify == data {
          successfullyWritten := true;
        }
      }
    }

    method WriteString(address: nat, data: seq<byte>) returns (next: nat)
      requires Valid() && CanStore(Contents(), address, data + [0], faults)
      modifies this, cells
      ensures Contents() == Store(old(Contents()), address, data + [0])
      ensures faults == AfterStore(old(Contents()), address, data + [0], old(faults))
      ensures next == address + |data| + 1
    {
      ghost var all := data + [0];
      for i := 0 to |data| + 1
        invariant Underway(old(Contents()), old(faults), address, all, Contents(), faults, i)
      {
        StoreNext(old(Contents()), old(faults), address, all, Contents(), faults, i);
        Write(address + i, if i == |data| then 0 else data[i]);
      }
      next := address + |data| + 1;
    }

    method ReadString(address: nat) returns (s: seq<byte>)
      requires Valid() && StringAt(Contents(), address).Some?
      modifies this
      ensures Some(s) == StringAt(Contents(), address)
      ensures old(faults) == [] ==> faults == []
    {
      ghost var chip := Contents();
      ContinuedStart(chip, address, SIZE);
      s := [];
      var counter := 0;
      while true
        invariant counter <= SIZE
        invariant ContinuedAt(s, chip, address + counter, SIZE - counter) == StringAt(chip, address)
        invariant old(faults) == [] ==> faults == []
        decreases SIZE - counter
      {
        ContinuedStep(s, chip, address + counter, SIZE - counter);
        var i := Read(address + counter);
        s := s + [i];
        if i == 0 {
          break;
        }
        counter := counter + 1;
      }
      var _ := Read(address);
    }

    method WriteBoolean(address: nat, value: bool)
      requires Valid() && CanWrite(Contents(), Cell(address), if value then 1 else 0, faults)
      modifies this, cells
      ensures Contents() == old(Contents())[Cell(address) := if value then 1 else 0]
      ensures faults == AfterWrite(old(Contents()), Cell(address), if value then 1 else 0, old(faults))
    {
      Write(address, if value then 0x01 else 0x00);
    }

    method ReadBoolean(address: nat) returns (value: bool)
      requires Valid() && Contents()[Cell(address)] in {0, 1}
      modifies this
      ensures value <==> Contents()[Cell(address)] == 1
      ensures old(faults) == [] ==> faults == []
    {
      var b: byte := BLANK;
      while b != 0x00 && b != 0x01
        invariant b != BLANK ==> b == Contents()[Cell(address)]
        invariant old(faults) == [] ==> faults == []
        decreases b == BLANK
      {
        b := Read(address);
      }
      value := b == 0x01;
    }
  }
}

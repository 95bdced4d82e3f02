/**
 `fdc_read_data`: reading blocks one track side at a time, with two nested retry counters.
 The drive is a flat disk image and, for every read command, an optional transfer error.
 */
module Floppy {
  import opened Machine
  import opened Arithmetic
  import opened Sequences

  const SECTOR_SIZE: nat := 512
  const RW_RETRIES: nat := 3
  const CAL_RETRIES: nat := 3

  /** Sectors per track side, and sides. */
  datatype Geometry = Geometry(sect: nat, heads: nat)

  predicate Usable(g: Geometry) {
    g.sect > 0 && g.heads > 0
  }

  /** A read command: where it starts (sectors count from one) and how many blocks are transferred. */
  datatype Read = Read(track: nat, head: nat, sector: nat, count: nat)

  function PerTrack(g: Geometry): (n: nat)
    requires Usable(g)
    ensures n > 0
  {
    assert g.sect * g.heads >= g.heads;
    g.sect * g.heads
  }

  /** The address computation of `fdc_issue_cmd`. */
  function Locate(g: Geometry, blnr: nat, count: nat): Read
    requires Usable(g)
  {
    var rest := blnr % PerTrack(g);
    Read(blnr / PerTrack(g), rest / g.sect, rest % g.sect + 1, count)
  }

  /** The block a drive finds at a position: tracks, then sides, then sectors. */
  function BlockAt(g: Geometry, r: Read): int
    requires Usable(g)
  {
    r.track * PerTrack(g) + r.head * g.sect + r.sector - 1
  }

  /** The transfer does not run over the end of the side. */
  predicate OneSide(g: Geometry, r: Read) {
    r.head < g.heads && 1 <= r.sector && r.sector + r.count - 1 <= g.sect
  }

  lemma HeadBelow(sect: nat, heads: nat, head: nat, sector: nat)
    requires sect * head + sector < sect * heads
    ensures head < heads
  {
    assert head >= heads ==> sect * head >= sect * heads;
  }

  lemma Rearrange(track: nat, sect: nat, heads: nat, head: nat, sector: nat)
    ensures track * (sect * heads) + (head * sect + sector) == sect * (heads * track + head) + sector
  {
    assert track * (sect * heads) == sect * (heads * track);
  }

  /** The sector inside its side depends on the block number alone, not on the track. */
  lemma SectorOnSide(g: Geometry, blnr: nat)
    requires Usable(g)
    ensures blnr % PerTrack(g) % g.sect == blnr % g.sect
  {
    var track, rest := blnr / PerTrack(g), blnr % PerTrack(g);
    var head, sector := rest / g.sect, rest % g.sect;
    Divide(blnr, PerTrack(g));
    Divide(rest, g.sect);
    Rearrange(track, g.sect, g.heads, head, sector);
    DivMod(g.sect, g.heads * track + head, sector);
  }

  lemma SideExists(g: Geometry, rest: nat)
    requires Usable(g) && rest < PerTrack(g)
    ensures rest / g.sect < g.heads
  {
    var head := rest / g.sect;
    assert rest == g.sect * head + rest % g.sect;
    HeadBelow(g.sect, g.heads, head, rest % g.sect);
  }

  /** The command finds the block it was made for, on an existing side. */
  lemma LocateIsRight(g: Geometry, blnr: nat, count: nat)
    requires Usable(g)
    ensures BlockAt(g, Locate(g, blnr, count)) == blnr
    ensures Locate(g, blnr, count).sector == blnr % g.sect + 1
    ensures Locate(g, blnr, count).head < g.heads
  {
    var perTrack := PerTrack(g);
    var rest := blnr % perTrack;
    Divide(blnr, perTrack);
    Divide(rest, g.sect);
    SideExists(g, rest);
    SectorOnSide(g, blnr);
  }

  // ----- the pieces a request is cut into

  /** `blnr % sect`, by repeated subtraction: no product of two variables to reason about. */
  function OnSide(blnr: nat, sect: nat): (p: nat)
    requires sect > 0
    ensures p < sect
  {
    if blnr < sect then blnr else OnSide(blnr - sect, sect)
  }

  lemma {:induction false} OnSideIsRemainder(blnr: nat, sect: nat)
    requires sect > 0
    ensures OnSide(blnr, sect) == blnr % sect
    decreases blnr
  {
    if blnr < sect {
      DivMod(sect, 0, blnr);
    } else {
      OnSideIsRemainder(blnr - sect, sect);
      Divide(blnr - sect, sect);
      var q, r := (blnr - sect) / sect, (blnr - sect) % sect;
      assert blnr == sect * (q + 1) + r;
      DivMod(sect, q + 1, r);
    }
  }

  /** A transfer up to the end of a side leaves the next block at the start of one. */
  lemma {:induction false} NextSide(blnr: nat, count: nat, sect: nat)
    requires sect > 0 && OnSide(blnr, sect) + count == sect
    ensures OnSide(blnr + count, sect) == 0
    decreases blnr
  {
    if blnr >= sect {
      NextSide(blnr - sect, count, sect);
      assert blnr + count - sect == blnr - sect + count;
    }
  }

  function Min(a: nat, b: nat): nat {
    if a < b then a else b
  }

  /** Whole track sides, then what is left. */
  function Sides(sect: nat, blocks: nat): seq<nat>
    requires sect > 0
    decreases blocks
  {
    if blocks == 0 then [] else [Min(sect, blocks)] + Sides(sect, blocks - Min(sect, blocks))
  }

  /** The first piece ends with the side the request starts on; there is one even for no blocks. */
  function Pieces(g: Geometry, blnr: nat, blocks: nat): seq<nat>
    requires Usable(g)
  {
    var first := Min(g.sect - OnSide(blnr, g.sect), blocks);
    [first] + Sides(g.sect, blocks - first)
  }

  // ----- what the drive does

  /** For the read commands whose transfer fails, by their number: the byte at which it does. */
  type Faults = map<nat, nat>

  predicate Fails(faults: Faults, attempt: nat, blocks: nat) {
    attempt in faults && faults[attempt] < blocks * SECTOR_SIZE
  }

  const MAX_ERRORS: nat := 24

  /** The call as one budget of transfer errors: one more than the budget is fatal. */
  predicate Survives(faults: Faults, pieces: seq<nat>, attempt: nat, budget: nat)
    decreases |pieces|, budget
  {
    if pieces == [] then true
    else if Fails(faults, attempt, pieces[0]) then budget > 0 && Survives(faults, pieces, attempt + 1, budget - 1)
    else Survives(faults, pieces[1..], attempt + 1, budget)
  }

  // ----- the code

  /** One execution phase: bytes go into the buffer until all are in or the transfer fails. */
  method Transfer(disk: seq<byte>, g: Geometry, r: Read, fault: Option<nat>, buffer: array<byte>, offset: nat) returns (ok: bool)
    requires Usable(g) && OneSide(g, r) && 0 <= BlockAt(g, r) && (BlockAt(g, r) + r.count) * SECTOR_SIZE <= |disk|
    requires offset + r.count * SECTOR_SIZE <= buffer.Length
    modifies buffer
    ensures ok == !(fault.Some? && fault.value < r.count * SECTOR_SIZE)
    ensures buffer[..offset] == old(buffer[..offset])
    ensures ok ==> buffer[offset..offset + r.count * SECTOR_SIZE]
                   == disk[BlockAt(g, r) * SECTOR_SIZE..(BlockAt(g, r) + r.count) * SECTOR_SIZE]
  {
    hide OneSide, BlockAt;
    var from, len := BlockAt(g, r) * SECTOR_SIZE, r.count * SECTOR_SIZE;
    for i := 0 to len
      invariant fault.Some? ==> i <= fault.value
      invariant forall j :: 0 <= j < offset ==> buffer[j] == old(buffer[j])
      invariant forall j :: offset <= j < offset + i ==> buffer[j] == disk[from + j - offset]
    {
      if fault == Some(i) { return false; }
      buffer[offset + i] := disk[from + i];
    }
    ok := true;
    assert (BlockAt(g, r) + r.count) * SECTOR_SIZE == from + len;
    assert buffer[offset..offset + len] == disk[from..from + len];
  }

  /** The counters of `fdc_read_data` after one more transfer error; `None` when the call gives up. */
  datatype Retries = Retries(rw: nat, cal: nat)

  function Retry(r: Retries): Option<Retries> {
    if r.rw > RW_RETRIES then
      if r.cal > CAL_RETRIES then None else Some(Retries(0, r.cal + 1))
    else Some(Retries(r.rw + 1, r.cal))
  }

  predicate InRange(r: Retries) {
    r.rw <= RW_RETRIES + 1 && r.cal <= CAL_RETRIES + 1
  }

  /** The errors two nested counters will still forgive. */
  function Budget(r: Retries): nat
    requires InRange(r)
  {
    MAX_ERRORS - 5 * r.cal - r.rw
  }

  lemma RetryIsBudget(r: Retries)
    requires InRange(r)
    ensures Retry(r).None? <==> Budget(r) == 0
    ensures Retry(r).Some? ==> InRange(Retry(r).value) && Budget(Retry(r).value) == Budget(r) - 1
  {
  }

  /** Where the next read starts and how far it goes. */
  ghost predicate Aligned(g: Geometry, blnr: nat, readblk: nat, blocks: nat)
    requires Usable(g)
  {
    && readblk <= blocks && OnSide(blnr, g.sect) + readblk <= g.sect
    && (readblk < blocks ==> OnSide(blnr, g.sect) + readblk == g.sect)
  }

  lemma NextAligned(g: Geometry, blnr: nat, readblk: nat, blocks: nat)
    requires Usable(g) && Aligned(g, blnr, readblk, blocks) && readblk < blocks
    ensures Aligned(g, blnr + readblk, Min(g.sect, blocks - readblk), blocks - readblk)
  {
    NextSide(blnr, readblk, g.sect);
  }

  /** One read command at the current block, behind what the buffer already holds of the disk from `base` on. */
  method ReadPiece(disk: seq<byte>, g: Geometry, ghost base: nat, offset: nat, blnr: nat, readblk: nat, fault: Option<nat>, buffer: array<byte>)
    returns (ok: bool, r: Read)
    requires Usable(g) && base + offset == blnr * SECTOR_SIZE
    requires (blnr + readblk) * SECTOR_SIZE <= |disk| && offset + readblk * SECTOR_SIZE <= buffer.Length
    requires OnSide(blnr, g.sect) + readblk <= g.sect
    requires buffer[..offset] == disk[base..base + offset]
    modifies buffer
    ensures OneSide(g, r) && ok == !(fault.Some? && fault.value < readblk * SECTOR_SIZE)
    ensures buffer[..offset] == disk[base..base + offset]
    ensures ok ==> buffer[..offset + readblk * SECTOR_SIZE] == disk[base..base + offset + readblk * SECTOR_SIZE]
  {
    LocateIsRight(g, blnr, readblk);
    OnSideIsRemainder(blnr, g.sect);
    r := Locate(g, blnr, readblk);
    ok := Transfer(disk, g, r, fault, buffer, offset);
    ghost var end := offset + readblk * SECTOR_SIZE;
    assert buffer[..end] == buffer[..offset] + buffer[offset..end];
    Slices(disk, base, base + offset, base + end);
  }

  // ----- retries of one piece

  /** Where a piece leaves the command number and the counters; `None` when the call gives up on it. */
  datatype Tally = Tally(attempt: nat, retries: Retries)

  function Attempts(faults: Faults, blocks: nat, t: Tally): (r: Option<Tally>)
    requires InRange(t.retries)
    ensures r.Some? ==> InRange(r.value.retries)
    decreases Budget(t.retries)
  {
    if !Fails(faults, t.attempt, blocks) then Some(t.(attempt := t.attempt + 1))
    else
      RetryIsBudget(t.retries);
      match Retry(t.retries)
      case None => None
      case Some(next) => Attempts(faults, blocks, Tally(t.attempt + 1, next))
  }

  /** The whole request, piece by piece, with the two counters running on. */
  predicate Reads(faults: Faults, pieces: seq<nat>, t: Tally)
    requires InRange(t.retries)
    decreases |pieces|
  {
    pieces == [] ||
    match Attempts(faults, pieces[0], t)
    case None => false
    case Some(next) => Reads(faults, pieces[1..], next)
  }

  /** Two nested counters forgive exactly as many errors as one budget of 24, over the whole call. */
  lemma {:induction false} CountersAreBudget(faults: Faults, pieces: seq<nat>, t: Tally)
    requires InRange(t.retries)
    ensures Reads(faults, pieces, t) == Survives(faults, pieces, t.attempt, Budget(t.retries))
    decreases |pieces|, Budget(t.retries)
  {
    if pieces != [] {
      if Fails(faults, t.attempt, pieces[0]) {
        RetryIsBudget(t.retries);
        var r := Retry(t.retries);
        if r.Some? { CountersAreBudget(faults, pieces, Tally(t.attempt + 1, r.value)); }
      } else {
        CountersAreBudget(faults, pieces[1..], t.(attempt := t.attempt + 1));
      }
    }
  }

  /** The read command, repeated until it succeeds or the counters are exhausted. */
  method ReadRetrying(disk: seq<byte>, g: Geometry, ghost base: nat, offset: nat, blnr: nat, readblk: nat,
                      faults: Faults, start: Tally, buffer: array<byte>)
    returns (ok: bool, t: Tally, log: seq<Read>)
    requires Usable(g) && base + offset == blnr * SECTOR_SIZE
    requires (blnr + readblk) * SECTOR_SIZE <= |disk| && offset + readblk * SECTOR_SIZE <= buffer.Length
    requires OnSide(blnr, g.sect) + readblk <= g.sect && InRange(start.retries)
    requires buffer[..offset] == disk[base..base + offset]
    modifies buffer
    ensures InRange(t.retries) && Attempts(faults, readblk, start) == if ok then Some(t) else None
    ensures ok ==> buffer[..offset + readblk * SECTOR_SIZE] == disk[base..base + offset + readblk * SECTOR_SIZE]
    ensures forall i :: 0 <= i < |log| ==> OneSide(g, log[i])
  {
    t, log := start, [];
    while true
      invariant InRange(t.retries) && Attempts(faults, readblk, start) == Attempts(faults, readblk, t)
      invariant buffer[..offset] == disk[base..base + offset]
      invariant forall i :: 0 <= i < |log| ==> OneSide(g, log[i])
      decreases Budget(t.retries)
    {
      RetryIsBudget(t.retries);
      var fault := if t.attempt in faults then Some(faults[t.attempt]) else None;
      var done, r := ReadPiece(disk, g, base, offset, blnr, readblk, fault, buffer);
      log := log + [r];
      if done { return true, t.(attempt := t.attempt + 1), log; }
      var next := Retry(t.retries);
      if next.None? { return false, t, log; }
      t := Tally(t.attempt + 1, next.value);
    }
  }

  /** From the current block to the end of its side, or less. */
  method FirstPiece(g: Geometry, blnr: nat, blocks: nat) returns (readblk: nat)
    requires Usable(g)
    ensures readblk == Min(g.sect - OnSide(blnr, g.sect), blocks)
  {
    OnSideIsRemainder(blnr, g.sect);
    readblk := g.sect - blnr % g.sect;
    if readblk > blocks { readblk := blocks; }
  }

  /**
   Success exactly when no more transfers fail than the two retry counters forgive, and then the
   buffer holds the blocks asked for; every read command stays within one side of one track.
   */
  method ReadData(disk: seq<byte>, g: Geometry, start: nat, count: nat, faults: Faults, buffer: array<byte>)
    returns (ok: bool, log: seq<Read>)
    requires Usable(g) && (start + count) * SECTOR_SIZE <= |disk| && count * SECTOR_SIZE <= buffer.Length
    modifies buffer
    ensures ok == Survives(faults, Pieces(g, start, count), 0, MAX_ERRORS)
    ensures ok ==> buffer[..count * SECTOR_SIZE] == disk[start * SECTOR_SIZE..(start + count) * SECTOR_SIZE]
    ensures forall i :: 0 <= i < |log| ==> OneSide(g, log[i])
  {
    var t := Tally(0, Retries(0, 0));
    CountersAreBudget(faults, Pieces(g, start, count), t);
    ok, log := ReadPieces(disk, g, start, count, faults, t, buffer);
  }

  method ReadPieces(disk: seq<byte>, g: Geometry, start: nat, count: nat, faults: Faults, first: Tally, buffer: array<byte>)
    returns (ok: bool, log: seq<Read>)
    requires Usable(g) && (start + count) * SECTOR_SIZE <= |disk| && count * SECTOR_SIZE <= buffer.Length
    requires InRange(first.retries)
    modifies buffer
    ensures ok == Reads(faults, Pieces(g, start, count), first)
    ensures ok ==> buffer[..count * SECTOR_SIZE] == disk[start * SECTOR_SIZE..(start + count) * SECTOR_SIZE]
    ensures forall i :: 0 <= i < |log| ==> OneSide(g, log[i])
  {
    hide OneSide, Attempts, OnSide;
    log := [];
    var blnr: nat, blocks: nat, offset: nat, t := start, count, 0, first;
    var readblk: nat := FirstPiece(g, blnr, blocks);
    ghost var base, left := start * SECTOR_SIZE, Pieces(g, start, count);
    while true
      invariant blnr + blocks == start + count && base + offset == blnr * SECTOR_SIZE
      invariant Aligned(g, blnr, readblk, blocks) && InRange(t.retries)
      invariant left == [readblk] + Sides(g.sect, blocks - readblk)
      invariant Reads(faults, Pieces(g, start, count), first) == Reads(faults, left, t)
      invariant buffer[..offset] == disk[base..base + offset]
      invariant forall i :: 0 <= i < |log| ==> OneSide(g, log[i])
      decreases |left|
    {
      var done, next, cmds := ReadRetrying(disk, g, base, offset, blnr, readblk, faults, t, buffer);
      log := log + cmds;
      if !done { return false, log; }
      t, offset := next, offset + readblk * SECTOR_SIZE;
      left := left[1..];
      if readblk == blocks { return true, log; }
      NextAligned(g, blnr, readblk, blocks);
      blnr, blocks := blnr + readblk, blocks - readblk;
      readblk := Min(g.sect, blocks);
    }
  }
}

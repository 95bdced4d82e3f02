/** The nested loops of `flash.c`, proved against `FlashBank` and `FlashRound`. */
module FlashCode {
  import opened Machine
  import opened FlashBank
  import opened FlashSelect
  import opened FlashRound

  /** The sector loop of one bank. */
  method ScanSectors(b: Bank, lo: u32, hi: u32) returns (p: Pick)
    requires b.start != []
    ensures p == Scan(b, lo, hi, |b.start|)
  {
    var sFirst, sLast := -1, -1;
    var bEnd, sEnd := BankEnd(b), |b.start| - 1;
    for sect := 0 to |b.start|
      invariant Pick(sFirst, sLast) == Scan(b, lo, hi, sect)
    {
      var end := if sect == sEnd then bEnd else Wrap(b.start[sect + 1] as int - 1);
      if lo <= end && hi >= b.start[sect] {
        if lo == b.start[sect] { sFirst := sect; }
        if hi == end { sLast := sect; }
      }
    }
    p := Pick(sFirst, sLast);
  }

  lemma ScanRange(b: Bank, lo: u32, hi: u32, k: nat)
    requires k <= |b.start|
    ensures -1 <= Scan(b, lo, hi, k).first < k && -1 <= Scan(b, lo, hi, k).last < k
  {
  }

  /** What is chosen so far, followed by what the remaining banks give. */
  function Join(done: seq<Pick>, count: nat, rest: Filled): Filled {
    match rest
    case Failed(_) => rest
    case Ranges(picks, more) => Ranges(done + picks, count + more)
  }

  lemma JoinCons(done: seq<Pick>, count: nat, p: Pick, more: nat, rest: Filled)
    ensures Join(done, count, Cons(p, more, rest)) == Join(done + [p], count + more, rest)
  {
    if rest.Ranges? { assert done + ([p] + rest.picks) == done + [p] + rest.picks; }
  }

  /** `flash_fill_sect_ranges`: the arrays and the count describe `Fill`, or the return code reports its failure. */
  method FillSectRanges(banks: seq<Bank>, first: u32, hi: u32, sFirst: array<int>, sLast: array<int>)
    returns (rcode: int, count: nat)
    requires KnownHaveSectors(banks) && sFirst != sLast && sFirst.Length == |banks| && sLast.Length == |banks|
    modifies sFirst, sLast
    ensures rcode == 0 || rcode == 1
    ensures rcode == 0 <==> Fill(banks, first, hi).Ranges?
    ensures rcode == 0 ==>
              && count == Fill(banks, first, hi).count
              && forall k :: 0 <= k < |banks| ==> Pick(sFirst[k], sLast[k]) == Fill(banks, first, hi).picks[k]
  {
    count := 0;
    for k := 0 to |banks|
      invariant forall i :: 0 <= i < k ==> sFirst[i] == -1 && sLast[i] == -1
    {
      sFirst[k], sLast[k] := -1, -1;
    }
    var lo: u32, bank := first, 0;
    ghost var done: seq<Pick> := [];
    assert banks[0..] == banks;
    assert Fill(banks, first, hi) == Join(done, 0, Fill(banks, first, hi));
    while bank < |banks| && lo <= hi
      invariant 0 <= bank <= |banks| && |done| == bank
      invariant forall i :: 0 <= i < bank ==> Pick(sFirst[i], sLast[i]) == done[i]
      invariant forall i :: bank <= i < |banks| ==> Pick(sFirst[i], sLast[i]) == NONE
      invariant Fill(banks, first, hi) == Join(done, count, Fill(banks[bank..], lo, hi))
      decreases |banks| - bank
    {
      ghost var rest := banks[bank..];
      assert rest[0] == banks[bank] && rest[1..] == banks[bank + 1..];
      var bad, pick, next := JudgeBank(banks[bank], lo, hi);
      if bad { return 1, count; }
      sFirst[bank], sLast[bank] := pick.first, pick.last;
      ghost var more: nat := if pick == NONE then 0 else pick.last - pick.first + 1;
      JoinCons(done, count, pick, more, Fill(banks[bank + 1..], next, hi));
      done := done + [pick];
      if pick.first >= 0 {
        lo := next;
        count := count + (pick.last - pick.first + 1);
      }
      bank := bank + 1;
    }
    rcode := 0;
    ghost var tail := Fill(banks[bank..], lo, hi);
    assert forall k :: 0 <= k < |tail.picks| ==> tail.picks[k] == NONE;
  }

  /** The body of the bank loop: an error, or the chosen sectors and where the range goes on. */
  method JudgeBank(b: Bank, lo: u32, hi: u32) returns (bad: bool, pick: Pick, next: u32)
    requires b.known ==> b.start != []
    ensures match Judge(b, lo, hi)
            case Refuse(_) => bad
            case Pass => !bad && pick == NONE && next == lo
            case Choose(p, n) => !bad && pick == p && next == n && 0 <= p.first <= p.last
  {
    if !b.known { return false, NONE, lo; }
    pick := ScanSectors(b, lo, hi);
    ScanRange(b, lo, hi, |b.start|);
    var bEnd, sEnd := BankEnd(b), |b.start| - 1;
    if pick.first >= 0 {
      if pick.last < 0 {
        if hi > bEnd {
          pick := pick.(last := sEnd);
        } else {
          return true, pick, lo;  // end address not on sector boundary
        }
      }
      if pick.last < pick.first { return true, pick, lo; }  // end sector precedes start sector
      next := if pick.last == sEnd then Wrap(bEnd as int + 1) else b.start[pick.last + 1];
      return false, pick, next;
    }
    if lo >= b.start[0] && lo < bEnd { return true, pick, lo; }  // start address not on sector boundary
    if pick.last >= 0 { return true, pick, lo; }                 // banks mapped in reverse order
    return false, pick, lo;
  }

  /** `flash_sect_roundb`. */
  method SectRoundb(banks: seq<Bank>, addr: u32) returns (ok: bool, rounded: u32)
    ensures RoundUp(banks, addr) == if ok then Some(rounded) else None
  {
    ok, rounded := false, addr;
    var bank := 0;
    assert banks[0..] == banks;
    while bank < |banks| && !ok
      invariant 0 <= bank <= |banks|
      invariant if ok then RoundUp(banks, addr) == Some(rounded) else RoundUp(banks, addr) == RoundUp(banks[bank..], addr)
      decreases |banks| - bank, if ok then 0 else 1
    {
      var b := banks[bank];
      assert banks[bank..][0] == b && banks[bank..][1..] == banks[bank + 1..];
      var i := 0;
      while i < |b.start| && !ok
        invariant 0 <= i <= |b.start|
        invariant if ok then RoundInBank(b, addr, 0) == Some(rounded)
                  else RoundInBank(b, addr, 0) == RoundInBank(b, addr, i)
        decreases |b.start| - i, if ok then 0 else 1
      {
        var end := if i == |b.start| - 1 then BankEnd(b) else Wrap(b.start[i + 1] as int - 1);
        if addr <= end && addr >= b.start[i] {
          ok := true;
          rounded := if addr < end then end else addr;
        } else {
          i := i + 1;
        }
      }
      bank := bank + 1;
    }
  }

  // ----- flash_sect_protect

  /** The flags of a bank after the chosen sectors have been set to `value`. */
  function Flagged(flags: seq<int>, p: Pick, value: int): seq<int> {
    seq(|flags|, i requires 0 <= i < |flags| => if p != NONE && p.first <= i <= p.last then value else flags[i])
  }

  class Flash {
    const banks: seq<Bank>
    var protect: seq<seq<int>>

    ghost predicate Valid()
      reads this
    {
      && GoodBanks(banks) && |protect| == |banks|
      && forall k :: 0 <= k < |banks| ==> |protect[k]| == |banks[k].start|
    }

    constructor (banks: seq<Bank>, protect: seq<seq<int>>)
      requires GoodBanks(banks) && |protect| == |banks|
      requires forall k :: 0 <= k < |banks| ==> |protect[k]| == |banks[k].start|
      ensures Valid() && this.banks == banks && this.protect == protect
    {
      this.banks, this.protect := banks, protect;
    }

    /** The flags of one bank, sector by sector. */
    method ProtectBank(bank: nat, p: Pick, value: int)
      requires Valid() && bank < |banks| && Chosen(banks[bank], p)
      modifies this`protect
      ensures Valid() && protect == old(protect)[bank := Flagged(old(protect)[bank], p, value)]
    {
      var flags := protect[bank];
      for i := p.first to p.last + 1
        invariant |flags| == |protect[bank]| && protect == old(protect)
        invariant forall j :: 0 <= j < |flags| ==> flags[j] == if p.first <= j < i then value else protect[bank][j]
      {
        flags := flags[i := value];
      }
      assert flags == Flagged(protect[bank], p, value);
      protect := protect[bank := flags];
    }

    /** The bank loop: an unknown bank is passed over, and none of its sectors is ever chosen. */
    method ProtectAll(sFirst: array<int>, sLast: array<int>, value: int, ghost picks: seq<Pick>)
      requires Valid() && Fits(banks, picks) && sFirst.Length == |banks| && sLast.Length == |banks|
      requires forall k :: 0 <= k < |banks| ==> Pick(sFirst[k], sLast[k]) == picks[k] && (banks[k].known || picks[k] == NONE)
      modifies this`protect
      ensures Valid() && forall k :: 0 <= k < |banks| ==> protect[k] == Flagged(old(protect)[k], picks[k], value)
    {
      for bank := 0 to |banks|
        invariant Valid()
        invariant forall k :: 0 <= k < bank ==> protect[k] == Flagged(old(protect)[k], picks[k], value)
        invariant forall k :: bank <= k < |banks| ==> protect[k] == old(protect)[k]
      {
        UntouchedFlags(protect[bank], value);
        if banks[bank].known && sFirst[bank] >= 0 && sFirst[bank] <= sLast[bank] {
          ProtectBank(bank, Pick(sFirst[bank], sLast[bank]), value);
        }
      }
    }

    /** Exactly the flags of the chosen sectors change, and none unless the selection succeeds and chooses some. */
    method SectProtect(value: int, first: u32, last: u32) returns (rcode: int)
      requires Valid()
      modifies this`protect
      ensures Valid()
      ensures var f := Fill(banks, first, last);
              if f.Ranges? && f.count > 0 then
                rcode == 0 && forall k :: 0 <= k < |banks| ==> protect[k] == Flagged(old(protect)[k], f.picks[k], value)
              else rcode == 1 && protect == old(protect)
    {
      var sFirst, sLast := new int[|banks|], new int[|banks|];
      var planned;
      rcode, planned := FillSectRanges(banks, first, last, sFirst, sLast);
      if rcode != 0 || planned == 0 { return 1; }
      PicksFit(banks, first, last);
      ProtectAll(sFirst, sLast, value, Fill(banks, first, last).picks);
    }
  }

  /** In one bank, a sector is among those picked if and only if its start lies between their ends. */
  lemma PickedByAddress(b: Bank, p: Pick, i: nat)
    requires WellFormed(b) && Chosen(b, p) && i < |b.start|
    ensures b.start[p.first] <= b.start[i] <= End(b, p.last) <==> p.first <= i <= p.last
    ensures b.start[0] <= b.start[p.first] && End(b, p.last) <= BankEnd(b)
  {
    SectorOrder(b, p.last, p.last);
    SectorOrder(b, p.last, i);
  }

  /** A sector is picked if and only if its start is covered. */
  lemma PickedIsCovered(banks: seq<Bank>, picks: seq<Pick>, k: nat, i: nat)
    requires GoodBanks(banks) && Disjoint(banks) && Fits(banks, picks) && k < |banks| && i < |banks[k].start|
    ensures Covered(banks, picks, banks[k].start[i]) <==> picks[k] != NONE && picks[k].first <= i <= picks[k].last
  {
    hide End, BankEnd, WellFormed;
    var b, a := banks[k], banks[k].start[i];
    assert Inside(b, a) by { SectorInside(b, i, a) by { SectorOrder(b, i, i); } }
    if picks[k] != NONE { PickedByAddress(b, picks[k], i); }
    if Covered(banks, picks, a) {
      var m :| 0 <= m < |banks| && picks[m] != NONE
               && banks[m].start[picks[m].first] <= a <= End(banks[m], picks[m].last);
      PickedByAddress(banks[m], picks[m], 0);
      assert Inside(banks[m], a);
    }
  }

  /** By address: the flags that change are those of the sectors that start between the ends of the run. */
  lemma FlagsByAddress(banks: seq<Bank>, lo: u32, hi: u32, k: nat, i: nat, flags: seq<int>, value: int)
    requires GoodBanks(banks) && Disjoint(banks) && Fill(banks, lo, hi).Ranges?
    requires hi < TWO_32 - 1 || NoBottomBehindTop(banks)
    requires k < |banks| && i < |banks[k].start| && |flags| == |banks[k].start|
    ensures var picks := Fill(banks, lo, hi).picks;
            && Fits(banks, picks)
            && Flagged(flags, picks[k], value)[i]
               == if lo <= banks[k].start[i] < StopAt(banks, picks, lo) then value else flags[i]
  {
    hide Fill, Covered, Gapless, StopAt, Disjoint, WellFormed;
    var picks := Fill(banks, lo, hi).picks;
    SelectionSound(banks, lo, hi);
    CoveredExactly(banks, picks, lo, banks[k].start[i]);
    PickedIsCovered(banks, picks, k, i);
  }

  lemma UntouchedFlags(flags: seq<int>, value: int)
    ensures Flagged(flags, NONE, value) == flags
  {
  }

  lemma {:induction false} PicksFit(banks: seq<Bank>, lo: u32, hi: u32)
    requires GoodBanks(banks) && Fill(banks, lo, hi).Ranges?
    ensures var picks := Fill(banks, lo, hi).picks;
            Fits(banks, picks) && forall k :: 0 <= k < |banks| ==> banks[k].known || picks[k] == NONE
    decreases |banks|
  {
    if banks != [] && lo <= hi {
      var rest, v := banks[1..], Judge(banks[0], lo, hi);
      if v.Choose? { ChooseMeans(banks[0], lo, hi); }
      var next := if v.Choose? then v.next else lo;
      PicksFit(rest, next, hi);
      assert Fill(banks, lo, hi).picks[1..] == Fill(rest, next, hi).picks;
    }
  }
}

/** NOR flash banks and sectors, and `flash_fill_sect_ranges` as a function of them. */
module FlashBank {
  import opened Machine

  /** `start` lists the sector addresses; a bank may be unknown or have no sectors. */
  datatype Bank = Bank(known: bool, start: seq<u32>, size: u32)

  /** The last address of a bank, and of a sector, as the code computes them. */
  function BankEnd(b: Bank): u32
    requires b.start != []
  {
    Wrap(b.start[0] as int + b.size as int - 1)
  }

  function End(b: Bank, i: nat): u32
    requires i < |b.start|
  {
    if i == |b.start| - 1 then BankEnd(b) else Wrap(b.start[i + 1] as int - 1)
  }

  /** Sectors in address order that fill the bank; the address space is not exceeded. */
  ghost predicate WellFormed(b: Bank) {
    && 0 < |b.start| <= 0x7fff
    && (forall i, j :: 0 <= i < j < |b.start| ==> b.start[i] < b.start[j])
    && b.start[|b.start| - 1] as int < b.start[0] as int + b.size as int <= TWO_32
  }

  /** Every known bank has sectors, and every bank that has sectors is well formed. */
  ghost predicate GoodBanks(banks: seq<Bank>) {
    forall k :: 0 <= k < |banks| ==>
      (banks[k].known ==> banks[k].start != []) && (banks[k].start != [] ==> WellFormed(banks[k]))
  }

  ghost predicate Inside(b: Bank, a: int) {
    b.start != [] && b.start[0] <= a <= BankEnd(b)
  }

  ghost predicate Disjoint(banks: seq<Bank>) {
    forall k, m, a :: 0 <= k < m < |banks| ==> !(Inside(banks[k], a) && Inside(banks[m], a))
  }

  /** No known bank reaches the last address of the 32-bit space. */
  ghost predicate BelowTop(banks: seq<Bank>) {
    forall k :: 0 <= k < |banks| && banks[k].known && banks[k].start != [] ==> BankEnd(banks[k]) < TWO_32 - 1
  }

  lemma SectorOrder(b: Bank, i: nat, j: nat)
    requires WellFormed(b) && i < |b.start| && j < |b.start|
    ensures b.start[i] <= End(b, i) <= BankEnd(b)
    ensures i < j ==> End(b, i) < b.start[j]
    ensures i + 1 < |b.start| ==> End(b, i) + 1 == b.start[i + 1]
  {
  }

  // ----- one bank

  /** First and last chosen sector, -1 when there is none. */
  datatype Pick = Pick(first: int, last: int)

  const NONE := Pick(-1, -1)

  /** The sector loop after `k` sectors. */
  function Scan(b: Bank, lo: u32, hi: u32, k: nat): Pick
    requires k <= |b.start|
  {
    if k == 0 then NONE
    else
      var p, i := Scan(b, lo, hi, k - 1), k - 1;
      if lo > End(b, i) || hi < b.start[i] then p
      else Pick(if lo == b.start[i] then i else p.first, if hi == End(b, i) then i else p.last)
  }

  datatype Problem = EndMisaligned | EndBeforeStart | StartMisaligned | ReverseOrder

  datatype Verdict =
    | Pass                            // nothing of this bank is chosen
    | Refuse(problem: Problem)
    | Choose(pick: Pick, next: u32)   // and the range continues at `next`

  function Judge(b: Bank, lo: u32, hi: u32): Verdict
    requires b.known ==> b.start != []
  {
    if !b.known then Pass
    else
      var p, sEnd := Scan(b, lo, hi, |b.start|), |b.start| - 1;
      if p.first >= 0 then
        if p.last < 0 && hi <= BankEnd(b) then Refuse(EndMisaligned)
        else
          var last := if p.last < 0 then sEnd else p.last;
          if last < p.first then Refuse(EndBeforeStart)
          else Choose(Pick(p.first, last), if last >= sEnd then Wrap(BankEnd(b) + 1) else b.start[last + 1])
      else if b.start[0] <= lo < BankEnd(b) then Refuse(StartMisaligned)
      else if p.last >= 0 then Refuse(ReverseOrder)
      else Pass
  }

  // ----- all banks

  datatype Filled = Failed(problem: Problem) | Ranges(picks: seq<Pick>, count: nat)

  predicate KnownHaveSectors(banks: seq<Bank>) {
    forall k :: 0 <= k < |banks| && banks[k].known ==> banks[k].start != []
  }

  function Cons(p: Pick, more: nat, rest: Filled): Filled {
    match rest
    case Failed(_) => rest
    case Ranges(picks, count) => Ranges([p] + picks, more + count)
  }

  function Fill(banks: seq<Bank>, lo: u32, hi: u32): (f: Filled)
    requires KnownHaveSectors(banks)
    ensures f.Ranges? ==> |f.picks| == |banks|
    decreases |banks|
  {
    if banks == [] then Ranges([], 0)
    else if lo > hi then Ranges(seq(|banks|, _ => NONE), 0)
    else
      match Judge(banks[0], lo, hi)
      case Refuse(problem) => Failed(problem)
      case Pass => Cons(NONE, 0, Fill(banks[1..], lo, hi))
      case Choose(p, next) => Cons(p, p.last - p.first + 1, Fill(banks[1..], next, hi))
  }

  // ----- the sector loop on a well-formed bank

  lemma {:induction false} ScanFirst(b: Bank, lo: u32, hi: u32, k: nat)
    requires WellFormed(b) && k <= |b.start| && lo <= hi
    ensures var p := Scan(b, lo, hi, k);
            && -1 <= p.first < k
            && (p.first >= 0 ==> b.start[p.first] == lo)
            && (p.first < 0 ==> forall i :: 0 <= i < k ==> b.start[i] != lo)
  {
    if k > 0 {
      ScanFirst(b, lo, hi, k - 1);
      SectorOrder(b, k - 1, k - 1);
    }
  }

  lemma {:induction false} ScanLast(b: Bank, lo: u32, hi: u32, k: nat)
    requires WellFormed(b) && k <= |b.start| && lo <= hi
    ensures var p := Scan(b, lo, hi, k);
            && -1 <= p.last < k
            && (p.last >= 0 ==> End(b, p.last) == hi)
            && (p.last < 0 ==> forall i :: 0 <= i < k ==> End(b, i) != hi)
  {
    if k > 0 {
      ScanLast(b, lo, hi, k - 1);
      SectorOrder(b, k - 1, k - 1);
    }
  }

  /** A chosen range of a bank starts at `lo`, ends no later than `hi`, and short of it only at the bank's end. */
  lemma ChooseMeans(b: Bank, lo: u32, hi: u32)
    requires WellFormed(b) && lo <= hi && Judge(b, lo, hi).Choose?
    ensures var v := Judge(b, lo, hi);
            && 0 <= v.pick.first <= v.pick.last < |b.start|
            && b.start[v.pick.first] == lo && End(b, v.pick.last) <= hi
            && (End(b, v.pick.last) < hi ==> v.pick.last == |b.start| - 1)
            && v.next == Wrap(End(b, v.pick.last) as int + 1)
  {
    ScanFirst(b, lo, hi, |b.start|);
    ScanLast(b, lo, hi, |b.start|);
    var p := Judge(b, lo, hi).pick;
    SectorOrder(b, p.last, p.last);
  }
}

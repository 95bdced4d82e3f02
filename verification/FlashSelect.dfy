/** What a successful sector selection means, over any number of banks. */
module FlashSelect {
  import opened Machine
  import opened FlashBank

  predicate Chosen(b: Bank, p: Pick) {
    0 <= p.first <= p.last < |b.start|
  }

  /** Each pick is empty or a range of sectors of its bank. */
  ghost predicate Fits(banks: seq<Bank>, picks: seq<Pick>) {
    |picks| == |banks| && forall k :: 0 <= k < |banks| ==> picks[k] == NONE || Chosen(banks[k], picks[k])
  }

  /** In bank order, every chosen range starts where the one before stopped, the first at `lo`. */
  ghost predicate Gapless(banks: seq<Bank>, picks: seq<Pick>, lo: int)
    requires Fits(banks, picks)
    decreases |banks|
  {
    banks != [] ==>
      if picks[0] == NONE then Gapless(banks[1..], picks[1..], lo)
      else banks[0].start[picks[0].first] == lo && Gapless(banks[1..], picks[1..], End(banks[0], picks[0].last) as int + 1)
  }

  /** The address behind the last chosen sector. */
  ghost function StopAt(banks: seq<Bank>, picks: seq<Pick>, lo: int): int
    requires Fits(banks, picks)
    decreases |banks|
  {
    if banks == [] then lo
    else StopAt(banks[1..], picks[1..], if picks[0] == NONE then lo else End(banks[0], picks[0].last) as int + 1)
  }

  function Total(picks: seq<Pick>): int {
    if picks == [] then 0
    else (if picks[0] == NONE then 0 else picks[0].last - picks[0].first + 1) + Total(picks[1..])
  }

  ghost predicate NoneLeft(picks: seq<Pick>) {
    forall k :: 0 <= k < |picks| ==> picks[k] == NONE
  }

  /** The last chosen range runs to the end of its bank. */
  ghost predicate StopsAtBankEnd(banks: seq<Bank>, picks: seq<Pick>)
    requires Fits(banks, picks)
    decreases |banks|
  {
    banks != [] ==>
      if picks[0] != NONE && NoneLeft(picks[1..]) then picks[0].last == |banks[0].start| - 1
      else StopsAtBankEnd(banks[1..], picks[1..])
  }

  lemma {:induction false} EmptyRanges(banks: seq<Bank>, picks: seq<Pick>, lo: int)
    requires Fits(banks, picks) && NoneLeft(picks)
    ensures Gapless(banks, picks, lo) && StopAt(banks, picks, lo) == lo && Total(picks) == 0
    decreases |banks|
  {
    if banks != [] { EmptyRanges(banks[1..], picks[1..], lo); }
  }

  /** The picks of a successful computation are ranges of sectors, and it counts them. */
  lemma {:induction false} Counted(banks: seq<Bank>, lo: u32, hi: u32)
    requires GoodBanks(banks) && Fill(banks, lo, hi).Ranges?
    ensures var f := Fill(banks, lo, hi); Fits(banks, f.picks) && f.count == Total(f.picks)
    decreases |banks|
  {
    var f := Fill(banks, lo, hi);
    if lo > hi {
      EmptyRanges(banks, f.picks, lo);
    } else if banks != [] {
      var v := Judge(banks[0], lo, hi);
      if v.Choose? { ChooseMeans(banks[0], lo, hi); }
      var next := if v.Choose? then v.next else lo;
      Counted(banks[1..], next, hi);
      assert f.picks[1..] == Fill(banks[1..], next, hi).picks;
    }
  }

  // ----- the end of the address space

  ghost predicate StartsAtZero(b: Bank) {
    b.known && b.start != [] && b.start[0] == 0
  }

  ghost predicate EndsAtTop(b: Bank) {
    b.known && b.start != [] && BankEnd(b) == TWO_32 - 1
  }

  ghost predicate NoBottom(banks: seq<Bank>) {
    forall k :: 0 <= k < |banks| ==> !StartsAtZero(banks[k])
  }

  /** No known bank that starts at address zero comes behind one that ends at the last address. */
  ghost predicate NoBottomBehindTop(banks: seq<Bank>) {
    forall k, m :: 0 <= k < m < |banks| && EndsAtTop(banks[k]) ==> !StartsAtZero(banks[m])
  }

  lemma BehindFirst(banks: seq<Bank>)
    requires banks != []
    ensures EndsAtTop(banks[0]) ==> (NoBottomBehindTop(banks) <==> NoBottom(banks[1..]) && NoBottomBehindTop(banks[1..]))
    ensures !EndsAtTop(banks[0]) ==> (NoBottomBehindTop(banks) <==> NoBottomBehindTop(banks[1..]))
  {
    var rest := banks[1..];
    assert forall k :: 0 <= k < |rest| ==> rest[k] == banks[k + 1];
    assert forall m :: 0 < m < |banks| ==> banks[m] == rest[m - 1];
  }

  /** A request up to the last address does not pass a bank that ends there. */
  lemma PassedIsLower(b: Bank, lo: u32)
    requires b.known ==> WellFormed(b)
    requires b.known ==> b.start != []
    requires Judge(b, lo, TWO_32 - 1).Pass?
    ensures !EndsAtTop(b)
  {
    if b.known {
      ScanLast(b, lo, TWO_32 - 1, |b.start|);
      assert End(b, |b.start| - 1) == BankEnd(b);
    }
  }

  /** Sectors are chosen from address zero on only in a bank that starts there. */
  lemma ChosenAtZero(b: Bank, hi: u32)
    requires b.known ==> b.start != []
    requires b.known ==> WellFormed(b)
    requires !Judge(b, 0, hi).Refuse?
    ensures Judge(b, 0, hi).Choose? <==> StartsAtZero(b)
  {
    if b.known { ScanFirst(b, 0, hi, |b.start|); }
  }

  /** A request for everything takes sectors of exactly the banks that start at address zero. */
  lemma {:induction false} TakenUpAgain(banks: seq<Bank>)
    requires GoodBanks(banks) && Fill(banks, 0, TWO_32 - 1).Ranges?
    ensures NoneLeft(Fill(banks, 0, TWO_32 - 1).picks) <==> NoBottom(banks)
    decreases |banks|
  {
    hide Judge, StartsAtZero;
    var picks := Fill(banks, 0, TWO_32 - 1).picks;
    if banks != [] {
      var b, rest := banks[0], banks[1..];
      var next := Behind(banks, 0, TWO_32 - 1);
      ChosenAtZero(b, TWO_32 - 1);
      if picks[0] == NONE {
        TakenUpAgain(rest);
        assert forall k :: 0 <= k < |rest| ==> rest[k] == banks[k + 1] && picks[1..][k] == picks[k + 1];
        assert forall k :: 0 < k < |banks| ==> banks[k] == rest[k - 1] && picks[k] == picks[1..][k - 1];
      }
    }
  }

  /** Nothing is chosen behind the end of the address space. */
  lemma {:induction false} NothingBeyond(banks: seq<Bank>, picks: seq<Pick>)
    requires Fits(banks, picks) && Gapless(banks, picks, TWO_32)
    ensures NoneLeft(picks)
    decreases |banks|
  {
    if banks != [] {
      NothingBeyond(banks[1..], picks[1..]);
      assert picks == [picks[0]] + picks[1..];
    }
  }

  /** One gapless run from `lo` that does not pass `hi` and stops short of it only at the end of a bank. */
  ghost predicate OneRun(banks: seq<Bank>, picks: seq<Pick>, lo: int, hi: u32) {
    && Fits(banks, picks) && Gapless(banks, picks, lo)
    && (lo <= hi ==> lo <= StopAt(banks, picks, lo) <= hi as int + 1)
    && (!NoneLeft(picks) && StopAt(banks, picks, lo) <= hi ==> StopsAtBankEnd(banks, picks))
  }

  /** A run of the banks behind goes on where sectors of the first bank stop. */
  lemma {:induction false} RunGoesOn(banks: seq<Bank>, picks: seq<Pick>, hi: u32)
    requires GoodBanks(banks) && banks != [] && Fits(banks, picks) && picks[0] != NONE && banks[0].known
    requires End(banks[0], picks[0].last) <= hi
    requires End(banks[0], picks[0].last) < hi ==> picks[0].last == |banks[0].start| - 1
    requires Fits(banks[1..], picks[1..])
    ensures var lo, next := banks[0].start[picks[0].first], End(banks[0], picks[0].last) as int + 1;
            && (OneRun(banks[1..], picks[1..], next, hi) && (next > hi ==> NoneLeft(picks[1..]))
                ==> OneRun(banks, picks, lo, hi))
            && (Gapless(banks, picks, lo) <==> Gapless(banks[1..], picks[1..], next))
  {
    var b, first, last := banks[0], picks[0].first, picks[0].last;
    var next := End(b, last) as int + 1;
    SectorOrder(b, last, last);
    SectorOrder(b, first, last);
    if NoneLeft(picks[1..]) { EmptyRanges(banks[1..], picks[1..], next); }
  }

  /** The picks behind the first bank are those of the request that goes on. */
  lemma Behind(banks: seq<Bank>, lo: u32, hi: u32) returns (next: u32)
    requires GoodBanks(banks) && banks != [] && lo <= hi && Fill(banks, lo, hi).Ranges?
    ensures var f, v, g := Fill(banks, lo, hi), Judge(banks[0], lo, hi), Fill(banks[1..], next, hi);
            && GoodBanks(banks[1..]) && g.Ranges? && f.picks[1..] == g.picks
            && Fits(banks, f.picks) && Fits(banks[1..], g.picks)
            && (v.Pass? ==> f.picks[0] == NONE && next == lo)
            && (!v.Pass? ==> banks[0].known && f.picks[0] != NONE && v.Choose? && f.picks[0] == v.pick && next == v.next)
  {
    var v := Judge(banks[0], lo, hi);
    next := if v.Choose? then v.next else lo;
    Counted(banks, lo, hi);
    Counted(banks[1..], next, hi);
    if v.Choose? { ChooseMeans(banks[0], lo, hi); }
  }

  /**
   Whenever the computation succeeds, the chosen sectors of all banks form one gapless run that
   starts at the first address asked for and never passes the last, and stops short of it only
   at the end of a bank -- unless the last address of all is asked for and a bank at address zero
   is behind one that ends there.
   */
  lemma {:induction false} SelectionSound(banks: seq<Bank>, lo: u32, hi: u32)
    requires GoodBanks(banks) && Fill(banks, lo, hi).Ranges?
    requires hi < TWO_32 - 1 || NoBottomBehindTop(banks)
    ensures OneRun(banks, Fill(banks, lo, hi).picks, lo, hi)
    decreases |banks|
  {
    hide Judge;
    var f := Fill(banks, lo, hi);
    Counted(banks, lo, hi);
    if banks == [] {
    } else if lo > hi {
      EmptyRanges(banks, f.picks, lo);
    } else {
      var next := Behind(banks, lo, hi);
      BehindFirst(banks);
      if Judge(banks[0], lo, hi).Pass? {
        SelectionSound(banks[1..], lo, hi);
        assert f.picks == [NONE] + f.picks[1..];
      } else {
        SelectionStep(banks, lo, hi, next);
      }
    }
  }

  /** The step over a bank from which sectors are chosen. */
  lemma {:induction false} SelectionStep(banks: seq<Bank>, lo: u32, hi: u32, next: u32)
    requires GoodBanks(banks) && banks != [] && lo <= hi && Fill(banks, lo, hi).Ranges?
    requires hi < TWO_32 - 1 || NoBottomBehindTop(banks)
    requires Judge(banks[0], lo, hi).Choose? && next == Judge(banks[0], lo, hi).next
    ensures OneRun(banks, Fill(banks, lo, hi).picks, lo, hi)
    decreases |banks|, 0
  {
    hide Judge;
    var f, b, rest := Fill(banks, lo, hi), banks[0], banks[1..];
    var goesOn := Behind(banks, lo, hi);
    ChooseMeans(b, lo, hi);
    RunGoesOn(banks, f.picks, hi);
    BehindFirst(banks);
    if End(b, f.picks[0].last) == TWO_32 - 1 {
      SectorOrder(b, f.picks[0].last, f.picks[0].last);
      TakenUpAgain(rest);
      EmptyRanges(rest, f.picks[1..], TWO_32);
    } else {
      SelectionSound(rest, next, hi);
    }
  }

  /** Otherwise the run has a gap: it goes on at address zero. */
  lemma {:induction false} SelectionSpoiled(banks: seq<Bank>, lo: u32)
    requires GoodBanks(banks) && Fill(banks, lo, TWO_32 - 1).Ranges? && !NoBottomBehindTop(banks)
    ensures var picks := Fill(banks, lo, TWO_32 - 1).picks; Fits(banks, picks) && !Gapless(banks, picks, lo)
    decreases |banks|
  {
    hide Judge;
    var hi := TWO_32 - 1;
    var f, b, rest := Fill(banks, lo, hi), banks[0], banks[1..];
    var next := Behind(banks, lo, hi);
    BehindFirst(banks);
    if Judge(b, lo, hi).Pass? {
      PassedIsLower(b, lo);
      SelectionSpoiled(rest, lo);
    } else {
      ChooseMeans(b, lo, hi);
      RunGoesOn(banks, f.picks, hi);
      SectorOrder(b, f.picks[0].last, f.picks[0].last);
      if End(b, f.picks[0].last) == hi {
        TakenUpAgain(rest);
        if Gapless(rest, f.picks[1..], TWO_32) { NothingBeyond(rest, f.picks[1..]); }
      } else {
        SelectionSpoiled(rest, next);
      }
    }
  }

  /** A successful selection is one run up to the last address asked for if and only if it cannot go on at address zero. */
  lemma SelectionExact(banks: seq<Bank>, lo: u32, hi: u32)
    requires GoodBanks(banks) && Fill(banks, lo, hi).Ranges?
    ensures OneRun(banks, Fill(banks, lo, hi).picks, lo, hi) <==> hi < TWO_32 - 1 || NoBottomBehindTop(banks)
  {
    if hi < TWO_32 - 1 || NoBottomBehindTop(banks) {
      SelectionSound(banks, lo, hi);
    } else {
      SelectionSpoiled(banks, lo);
    }
  }
}

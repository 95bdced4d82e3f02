/** The start-plus-length form of a range, the addresses a selection covers, and the top of the address space. */
module FlashRound {
  import opened Machine
  import opened FlashBank
  import opened FlashSelect

  // ----- covered addresses

  ghost predicate Covered(banks: seq<Bank>, picks: seq<Pick>, a: int)
    requires Fits(banks, picks)
  {
    exists k :: 0 <= k < |banks| && picks[k] != NONE
                && banks[k].start[picks[k].first] <= a <= End(banks[k], picks[k].last)
  }

  /** An address lies in a chosen sector exactly when it lies between the two ends of the run. */
  lemma {:induction false} CoveredExactly(banks: seq<Bank>, picks: seq<Pick>, lo: int, a: int)
    requires GoodBanks(banks) && Fits(banks, picks) && Gapless(banks, picks, lo)
    ensures lo <= StopAt(banks, picks, lo)
    ensures Covered(banks, picks, a) <==> lo <= a < StopAt(banks, picks, lo)
    decreases |banks|
  {
    if banks != [] {
      var rest, more := banks[1..], picks[1..];
      var next := if picks[0] == NONE then lo else End(banks[0], picks[0].last) as int + 1;
      if picks[0] != NONE {
        SectorOrder(banks[0], picks[0].first, picks[0].last);
        SectorOrder(banks[0], picks[0].last, picks[0].last);
      }
      CoveredExactly(rest, more, next, a);
      if Covered(rest, more, a) {
        var k :| 0 <= k < |rest| && more[k] != NONE && rest[k].start[more[k].first] <= a <= End(rest[k], more[k].last);
        assert banks[k + 1] == rest[k] && picks[k + 1] == more[k];
      }
      if Covered(banks, picks, a) {
        var k :| 0 <= k < |banks| && picks[k] != NONE && banks[k].start[picks[k].first] <= a <= End(banks[k], picks[k].last);
        if k > 0 { assert rest[k - 1] == banks[k] && more[k - 1] == picks[k]; }
      }
    }
  }

  // ----- rounding

  /** The end of the first sector of the bank, from sector `i` on, that holds the address. */
  function RoundInBank(b: Bank, addr: u32, i: nat): Option<u32>
    requires i <= |b.start|
    decreases |b.start| - i
  {
    if i == |b.start| then None
    else if b.start[i] <= addr <= End(b, i) then Some(End(b, i))
    else RoundInBank(b, addr, i + 1)
  }

  /** `flash_sect_roundb`: nothing when the address is not in flash. */
  function RoundUp(banks: seq<Bank>, addr: u32): Option<u32> {
    if banks == [] then None
    else
      var r := RoundInBank(banks[0], addr, 0);
      if r.Some? then r else RoundUp(banks[1..], addr)
  }

  ghost predicate Holds(b: Bank, i: nat, a: int) {
    i < |b.start| && b.start[i] <= a <= End(b, i)
  }

  lemma {:induction false} RoundInBankMeans(b: Bank, addr: u32, i: nat)
    requires WellFormed(b) && i <= |b.start|
    ensures match RoundInBank(b, addr, i)
            case None => i < |b.start| ==> !(b.start[i] <= addr <= BankEnd(b))
            case Some(e) => exists j :: i <= j < |b.start| && Holds(b, j, addr) && e == End(b, j)
    decreases |b.start| - i
  {
    if i < |b.start| {
      SectorOrder(b, i, i);
      if !(b.start[i] <= addr <= End(b, i)) {
        RoundInBankMeans(b, addr, i + 1);
      } else {
        assert Holds(b, i, addr);
      }
    }
  }

  /** Rounding succeeds exactly on flash addresses, and gives the end of the sector that holds the address. */
  lemma {:induction false} RoundUpMeans(banks: seq<Bank>, addr: u32)
    requires GoodBanks(banks)
    ensures match RoundUp(banks, addr)
            case None => forall k :: 0 <= k < |banks| ==> !Inside(banks[k], addr)
            case Some(e) => exists k, j :: 0 <= k < |banks| && 0 <= j && Holds(banks[k], j, addr) && e == End(banks[k], j)
    decreases |banks|
  {
    if banks != [] {
      var b := banks[0];
      if b.start != [] { RoundInBankMeans(b, addr, 0); }
      var r := RoundInBank(b, addr, 0);
      if r.Some? {
        var j :| 0 <= j < |b.start| && Holds(b, j, addr) && r.value == End(b, j);
        assert Holds(banks[0], j, addr);
      } else {
        RoundUpMeans(banks[1..], addr);
        if RoundUp(banks[1..], addr).Some? {
          var k, j :| 0 <= k < |banks[1..]| && 0 <= j && Holds(banks[1..][k], j, addr)
                      && RoundUp(banks, addr).value == End(banks[1..][k], j);
          assert Holds(banks[k + 1], j, addr);
        }
      }
    }
  }

  /** Sectors of disjoint banks do not overlap. */
  lemma SectorsApart(banks: seq<Bank>, k: nat, j: nat, m: nat, i: nat, a: int)
    requires GoodBanks(banks) && Disjoint(banks) && k < |banks| && m < |banks|
    requires Holds(banks[k], j, a) && Holds(banks[m], i, a)
    ensures k == m && j == i
  {
    SectorInside(banks[k], j, a);
    SectorInside(banks[m], i, a);
    if k == m {
      if j < i { SectorOrder(banks[k], j, i); }
      if i < j { SectorOrder(banks[k], i, j); }
    }
  }

  lemma SectorInside(b: Bank, j: nat, a: int)
    requires WellFormed(b) && Holds(b, j, a)
    ensures Inside(b, a)
  {
    SectorOrder(b, j, j);
  }

  /** The rounded end is the least sector end not below the address. */
  lemma RoundUpLeast(banks: seq<Bank>, addr: u32, m: nat, i: nat)
    requires GoodBanks(banks) && Disjoint(banks) && RoundUp(banks, addr).Some?
    requires m < |banks| && i < |banks[m].start| && End(banks[m], i) >= addr
    ensures addr <= RoundUp(banks, addr).value <= End(banks[m], i)
  {
    RoundUpMeans(banks, addr);
    var e := RoundUp(banks, addr).value;
    var k, j :| 0 <= k < |banks| && 0 <= j && Holds(banks[k], j, addr) && e == End(banks[k], j);
    var x := End(banks[m], i);
    if x < e {
      SectorOrder(banks[m], i, i);
      SectorsApart(banks, k, j, m, i, x);
    }
  }

  // ----- a rounded end is never reported as misaligned

  ghost predicate SectorEnd(banks: seq<Bank>, a: int) {
    exists k, j :: 0 <= k < |banks| && 0 <= j < |banks[k].start| && a == End(banks[k], j)
  }

  /** When a range starts in a bank and ends inside it at a sector end, the bank's own scan finds that end. */
  lemma EndFound(banks: seq<Bank>, n: nat, lo: u32, hi: u32)
    requires GoodBanks(banks) && Disjoint(banks) && SectorEnd(banks, hi)
    requires n < |banks| && banks[n].known && lo <= hi
    ensures Judge(banks[n], lo, hi) != Refuse(EndMisaligned)
  {
    var b := banks[n];
    var p := Scan(b, lo, hi, |b.start|);
    ScanFirst(b, lo, hi, |b.start|);
    ScanLast(b, lo, hi, |b.start|);
    var k, j :| 0 <= k < |banks| && 0 <= j < |banks[k].start| && hi == End(banks[k], j);
    SectorOrder(banks[k], j, j);
    assert Inside(banks[k], hi);
    assert p.first >= 0 && hi <= BankEnd(b) ==> Inside(b, hi);
  }

  lemma {:induction false} NeverMisalignedFrom(banks: seq<Bank>, n: nat, lo: u32, hi: u32)
    requires GoodBanks(banks) && Disjoint(banks) && SectorEnd(banks, hi) && n <= |banks|
    ensures Fill(banks[n..], lo, hi) != Failed(EndMisaligned)
    decreases |banks| - n
  {
    var rest := banks[n..];
    if rest != [] && lo <= hi {
      assert rest[0] == banks[n] && rest[1..] == banks[n + 1..];
      if banks[n].known { EndFound(banks, n, lo, hi); }
      var v := Judge(banks[n], lo, hi);
      NeverMisalignedFrom(banks, n + 1, if v.Choose? then v.next else lo, hi);
    }
  }

  /** `addr_spec` in its start-plus-length form: the end to use, or nothing when it is not in flash. */
  function LengthForm(banks: seq<Bank>, start: u32, length: u32): Option<u32> {
    RoundUp(banks, Wrap(start as int + length as int - 1))
  }

  /** After rounding, the selection never fails on the end address. */
  lemma NeverMisaligned(banks: seq<Bank>, start: u32, length: u32)
    requires GoodBanks(banks) && Disjoint(banks) && LengthForm(banks, start, length).Some?
    ensures Fill(banks, start, LengthForm(banks, start, length).value) != Failed(EndMisaligned)
  {
    RoundUpMeans(banks, Wrap(start as int + length as int - 1));
    assert banks[0..] == banks;
    NeverMisalignedFrom(banks, 0, start, LengthForm(banks, start, length).value);
  }

  // ----- a range inside one bank

  lemma PassOutside(b: Bank, lo: u32, hi: u32)
    requires lo <= hi && (b.known ==> WellFormed(b)) && !Inside(b, lo) && !Inside(b, hi)
    ensures Judge(b, lo, hi) == Pass
  {
    if b.known {
      var p := Scan(b, lo, hi, |b.start|);
      ScanFirst(b, lo, hi, |b.start|);
      ScanLast(b, lo, hi, |b.start|);
      if p.first >= 0 { SectorOrder(b, p.first, p.first); }
      if p.last >= 0 { SectorOrder(b, p.last, p.last); }
    }
  }

  lemma ChooseExactly(b: Bank, first: nat, last: nat)
    requires WellFormed(b) && b.known && first <= last < |b.start|
    ensures b.start[first] <= End(b, last)
    ensures Judge(b, b.start[first], End(b, last)) == Choose(Pick(first, last), Wrap(End(b, last) as int + 1))
  {
    var lo, hi := b.start[first], End(b, last);
    SectorOrder(b, first, last);
    SectorOrder(b, last, last);
    var p := Scan(b, lo, hi, |b.start|);
    ScanFirst(b, lo, hi, |b.start|);
    ScanLast(b, lo, hi, |b.start|);
    assert p.first == first;
    if p.last != last {
      SectorOrder(b, p.last, last);
      SectorOrder(b, last, p.last);
    }
  }

  /** What is to be selected: sectors `first` to `last` of bank `k`, nothing of any other. */
  function Only(n: nat, k: int, first: nat, last: nat): seq<Pick> {
    seq(n, i => if i == k then Pick(first, last) else NONE)
  }

  /** The request does not go on behind bank `k`, or goes on at address zero without finding a bank there. */
  ghost predicate EndsBehind(banks: seq<Bank>, k: nat, end: u32) {
    end < TWO_32 - 1 || forall m :: k < m < |banks| ==> !StartsAtZero(banks[m])
  }

  lemma NothingChosen(banks: seq<Bank>, lo: u32, hi: u32)
    requires KnownHaveSectors(banks) && Fill(banks, lo, hi).Ranges? && NoneLeft(Fill(banks, lo, hi).picks)
    ensures Fill(banks, lo, hi).count == 0
    decreases |banks|
  {
    if banks != [] && lo <= hi {
      var f := Fill(banks, lo, hi);
      assert f.picks[0] == NONE;
      NothingChosen(banks[1..], lo, hi) by {
        assert f.picks[1..] == Fill(banks[1..], lo, hi).picks;
      }
    }
  }

  /** Behind the bank that holds the whole range. */
  lemma BehindOneBank(banks: seq<Bank>, k: nat, last: nat)
    requires GoodBanks(banks) && Disjoint(banks) && k < |banks| && banks[k].known && last < |banks[k].start|
    ensures var hi := End(banks[k], last);
            Fill(banks[k + 1..], Wrap(hi as int + 1), hi) == Ranges(seq(|banks| - k - 1, _ => NONE), 0)
            <==> EndsBehind(banks, k, hi)
  {
    var b, rest, hi := banks[k], banks[k + 1..], End(banks[k], last);
    assert forall m :: 0 <= m < |rest| ==> rest[m] == banks[k + 1 + m];
    assert forall m :: k < m < |banks| ==> banks[m] == rest[m - k - 1];
    if hi == TWO_32 - 1 {
      SectorOrder(b, last, last);
      forall m | 0 <= m < |rest| && rest[m].known && rest[m].start != [] ensures BankEnd(rest[m]) < TWO_32 - 1 {
        SectorOrder(rest[m], 0, 0);
        assert Inside(b, hi) && !Inside(banks[k + 1 + m], hi);
      }
      WrappedRequest(rest);
      var f := Fill(rest, 0, hi);
      if f.Ranges? && NoneLeft(f.picks) {
        NothingChosen(rest, 0, hi);
        assert f.picks == seq(|rest|, _ => NONE);
      }
    }
  }

  lemma OneBankHere(banks: seq<Bank>, k: nat, first: nat, last: nat)
    requires GoodBanks(banks) && Disjoint(banks) && k < |banks|
    requires banks[k].known && first <= last < |banks[k].start|
    ensures Fill(banks[k..], banks[k].start[first], End(banks[k], last))
            == Ranges(Only(|banks| - k, 0, first, last), last - first + 1)
            <==> EndsBehind(banks, k, End(banks[k], last))
  {
    hide EndsBehind, Judge;
    var b, rest := banks[k], banks[k..];
    var lo, hi := b.start[first], End(b, last);
    assert rest[0] == b && rest[1..] == banks[k + 1..];
    ChooseExactly(b, first, last);
    BehindOneBank(banks, k, last);
    var none := seq(|rest| - 1, _ => NONE);
    ConsInjective(Pick(first, last), last - first + 1, Fill(rest[1..], Wrap(hi as int + 1), hi), none, 0);
    assert [Pick(first, last)] + none == Only(|banks| - k, 0, first, last);
  }

  lemma {:induction false} OneBankFrom(banks: seq<Bank>, n: nat, k: nat, first: nat, last: nat)
    requires GoodBanks(banks) && Disjoint(banks) && n <= k < |banks|
    requires banks[k].known && first <= last < |banks[k].start|
    ensures Fill(banks[n..], banks[k].start[first], End(banks[k], last))
            == Ranges(Only(|banks| - n, k - n, first, last), last - first + 1)
            <==> EndsBehind(banks, k, End(banks[k], last))
    decreases k - n
  {
    hide EndsBehind, Judge;
    if n == k {
      OneBankHere(banks, k, first, last);
    } else {
      var b, rest := banks[k], banks[n..];
      var lo, hi := b.start[first], End(b, last);
      assert rest[0] == banks[n] && rest[1..] == banks[n + 1..];
      assert lo <= hi && Inside(b, lo) && Inside(b, hi) by {
        ChooseExactly(b, first, last);
        SectorInside(b, first, lo) by { SectorOrder(b, first, first); }
        SectorInside(b, last, hi) by { SectorOrder(b, last, last); }
      }
      PassOutside(banks[n], lo, hi);
      OneBankFrom(banks, n + 1, k, first, last);
      var more := Only(|banks| - (n + 1), k - (n + 1), first, last);
      ConsInjective(NONE, 0, Fill(rest[1..], lo, hi), more, last - first + 1);
      assert [NONE] + more == Only(|banks| - n, k - n, first, last);
    }
  }

  lemma ConsInjective(p: Pick, more: nat, rest: Filled, picks: seq<Pick>, count: nat)
    ensures Cons(p, more, rest) == Ranges([p] + picks, more + count) <==> rest == Ranges(picks, count)
  {
    if rest.Ranges? && [p] + rest.picks == [p] + picks {
      assert rest.picks == ([p] + rest.picks)[1..] == ([p] + picks)[1..] == picks;
    }
  }

  /** Rounding an address of a bank stays in the bank. */
  lemma RoundedSector(banks: seq<Bank>, k: nat, addr: u32) returns (j: nat)
    requires GoodBanks(banks) && Disjoint(banks) && k < |banks| && Inside(banks[k], addr)
    ensures Holds(banks[k], j, addr) && RoundUp(banks, addr) == Some(End(banks[k], j))
  {
    RoundUpMeans(banks, addr);
    var e := RoundUp(banks, addr).value;
    var m, i :| 0 <= m < |banks| && 0 <= i && Holds(banks[m], i, addr) && e == End(banks[m], i);
    SectorInside(banks[m], i, addr);
    j := i;
  }

  /** The sectors that meet a range which starts at a sector and ends in one. */
  lemma MeetsExactly(b: Bank, first: nat, last: nat, addr: int, i: nat)
    requires WellFormed(b) && first < |b.start| && Holds(b, last, addr) && b.start[first] <= addr && i < |b.start|
    ensures first <= last
    ensures first <= i <= last <==> End(b, i) >= b.start[first] && b.start[i] <= addr
  {
    SectorOrder(b, last, first);
    SectorOrder(b, i, first);
    SectorOrder(b, last, i);
    SectorOrder(b, i, last);
  }

  /** Sectors `first` to `last` are those of the bank that meet a range of `length` bytes. */
  ghost predicate Meets(b: Bank, first: nat, last: nat, length: u32)
    requires first < |b.start|
  {
    && first <= last < |b.start|
    && forall i :: 0 <= i < |b.start| ==>
         (first <= i <= last <==> End(b, i) >= b.start[first]
                                  && b.start[i] as int <= b.start[first] as int + length as int - 1)
  }

  lemma RangeMeets(b: Bank, first: nat, last: nat, length: u32)
    requires WellFormed(b) && first < |b.start| && length > 0
    requires Holds(b, last, b.start[first] as int + length as int - 1)
    ensures Meets(b, first, last, length)
  {
    var addr := b.start[first] as int + length as int - 1;
    MeetsExactly(b, first, last, addr, first);
    forall i | 0 <= i < |b.start|
      ensures first <= i <= last <==> End(b, i) >= b.start[first] && b.start[i] as int <= addr
    {
      MeetsExactly(b, first, last, addr, i);
    }
  }

  /**
   A start on a sector boundary and a length that stays inside the bank: the selection succeeds
   with exactly the sectors that meet the range, if and only if it ends below the last address of
   all or no bank behind this one starts at address zero.
   */
  lemma LengthFormExact(banks: seq<Bank>, k: nat, first: nat, length: u32) returns (last: nat)
    requires GoodBanks(banks) && Disjoint(banks)
    requires k < |banks| && banks[k].known && first < |banks[k].start| && length > 0
    requires banks[k].start[first] as int + length as int - 1 <= BankEnd(banks[k]) as int
    ensures Meets(banks[k], first, last, length)
    ensures LengthForm(banks, banks[k].start[first], length) == Some(End(banks[k], last))
    ensures Fill(banks, banks[k].start[first], End(banks[k], last)) == Ranges(Only(|banks|, k, first, last), last - first + 1)
            <==> EndsBehind(banks, k, End(banks[k], last))
  {
    hide Fill, EndsBehind, Only, RoundUp, Disjoint;
    var b := banks[k];
    var addr: u32 := b.start[first] as int + length as int - 1;
    last := RoundedSector(banks, k, addr) by { SectorOrder(b, 0, first); SectorOrder(b, 0, 0); }
    RangeMeets(b, first, last, length);
    OneBankFrom(banks, 0, k, first, last);
    assert banks[0..] == banks;
  }

  // ----- a bank that ends at the top of the address space

  /** A request that ends at the last address goes on at address zero once a bank reaching it is chosen. */
  lemma {:induction false} WrappedRequest(banks: seq<Bank>)
    requires GoodBanks(banks) && BelowTop(banks)
    ensures Fill(banks, 0, TWO_32 - 1).Ranges? && NoneLeft(Fill(banks, 0, TWO_32 - 1).picks)
            <==> forall k :: 0 <= k < |banks| ==> !StartsAtZero(banks[k])
    decreases |banks|
  {
    if banks != [] {
      var b, hi := banks[0], TWO_32 - 1;
      assert forall k :: 0 < k < |banks| ==> banks[k] == banks[1..][k - 1];
      WrappedRequest(banks[1..]);
      if b.known {
        ScanFirst(b, 0, hi, |b.start|);
        ScanLast(b, 0, hi, |b.start|);
        forall i | 0 <= i < |b.start| ensures End(b, i) < hi && (i > 0 ==> b.start[i] > 0) { SectorOrder(b, i, i); }
      }
      var f, g := Fill(banks, 0, hi), Fill(banks[1..], 0, hi);
      if f.Ranges? {
        if Judge(b, 0, hi).Pass? { assert f.picks[1..] == g.picks; }
        assert f.picks[0] == (if Judge(b, 0, hi).Pass? then NONE else Judge(b, 0, hi).pick);
      }
    }
  }

  /** Where the request goes on behind banks that were filled without an error. */
  function GoesOn(banks: seq<Bank>, lo: u32, hi: u32): u32
    requires KnownHaveSectors(banks)
    decreases |banks|
  {
    if banks == [] || lo > hi then lo
    else
      var v := Judge(banks[0], lo, hi);
      GoesOn(banks[1..], if v.Choose? then v.next else lo, hi)
  }

  function Append(f: Filled, g: Filled): Filled {
    if f.Failed? then f else if g.Failed? then g else Ranges(f.picks + g.picks, f.count + g.count)
  }

  lemma AppendCons(p: Pick, more: nat, f: Filled, g: Filled)
    ensures Append(Cons(p, more, f), g) == Cons(p, more, Append(f, g))
  {
    if f.Ranges? && g.Ranges? { assert ([p] + f.picks) + g.picks == [p] + (f.picks + g.picks); }
  }

  lemma AppendNothing(g: Filled)
    ensures Append(Ranges([], 0), g) == g
  {
    if g.Ranges? { assert [] + g.picks == g.picks; }
  }

  lemma ConcatKnown(a: seq<Bank>, b: seq<Bank>)
    requires KnownHaveSectors(a) && KnownHaveSectors(b)
    ensures KnownHaveSectors(a + b)
  {
  }

  /** Filling banks is filling the first of them and then the others from where the request goes on. */
  lemma {:induction false} FillConcat(a: seq<Bank>, b: seq<Bank>, lo: u32, hi: u32)
    requires KnownHaveSectors(a) && KnownHaveSectors(b)
    ensures KnownHaveSectors(a + b)
    ensures Fill(a + b, lo, hi) == Append(Fill(a, lo, hi), Fill(b, GoesOn(a, lo, hi), hi))
    decreases |a|
  {
    hide Append, Cons;
    ConcatKnown(a, b);
    var g := Fill(b, GoesOn(a, lo, hi), hi);
    if a == [] {
      assert a + b == b;
      AppendNothing(g);
    } else if lo > hi {
      NothingAsked(a, b, lo, hi);
    } else {
      assert (a + b)[0] == a[0] && (a + b)[1..] == a[1..] + b;
      var v := Judge(a[0], lo, hi);
      var next := if v.Choose? then v.next else lo;
      FillConcat(a[1..], b, next, hi);
      match v {
        case Refuse(problem) => assert Append(Failed(problem), g) == Failed(problem) by { AppendFailed(problem, g); }
        case Pass => AppendCons(NONE, 0, Fill(a[1..], next, hi), g);
        case Choose(p, _) => AppendCons(p, p.last - p.first + 1, Fill(a[1..], next, hi), g);
      }
    }
  }

  lemma AppendFailed(problem: Problem, g: Filled)
    ensures Append(Failed(problem), g) == Failed(problem)
  {
  }

  lemma NothingAsked(a: seq<Bank>, b: seq<Bank>, lo: u32, hi: u32)
    requires KnownHaveSectors(a) && KnownHaveSectors(b) && KnownHaveSectors(a + b) && a != [] && lo > hi
    ensures Fill(a + b, lo, hi) == Append(Fill(a, lo, hi), Fill(b, lo, hi))
  {
    assert Fill(b, lo, hi) == Ranges(seq(|b|, _ => NONE), 0);
    assert seq(|a + b|, _ => NONE) == seq(|a|, _ => NONE) + seq(|b|, _ => NONE);
  }

  /**
   A request up to the last address that has come to a bank ending there, wherever that bank is in
   the list: nothing more is chosen, and no error reported, if and only if no bank behind it
   starts at address zero.
   */
  lemma TopBankExact(front: seq<Bank>, top: Bank, banks: seq<Bank>, lo: u32)
    requires GoodBanks(front) && GoodBanks(banks) && BelowTop(banks)
    requires WellFormed(top) && top.known && BankEnd(top) == TWO_32 - 1
    requires Fill(front, lo, TWO_32 - 1).Ranges? && Judge(top, GoesOn(front, lo, TWO_32 - 1), TWO_32 - 1).Choose?
    ensures KnownHaveSectors(front + ([top] + banks))
    ensures var f := Fill(front + ([top] + banks), lo, TWO_32 - 1);
            f.Ranges? && NoneLeft(f.picks[|front| + 1..]) <==> forall k :: 0 <= k < |banks| ==> !StartsAtZero(banks[k])
  {
    var all, hi := [top] + banks, TWO_32 - 1;
    var next := GoesOn(front, lo, hi);
    assert all[0] == top && all[1..] == banks;
    FillConcat(front, all, lo, hi);
    ChooseMeans(top, next, hi);
    var v := Judge(top, next, hi);
    SectorOrder(top, v.pick.last, v.pick.last);
    WrappedRequest(banks);
    var f, g, h := Fill(front + all, lo, hi), Fill(all, next, hi), Fill(banks, 0, hi);
    if f.Ranges? {
      assert f.picks[|front| + 1..] == g.picks[1..] == h.picks;
    }
  }
}

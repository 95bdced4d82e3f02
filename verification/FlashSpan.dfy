/** Ranges over any number of adjoining banks: when they are accepted, and exactly what is selected of them. */
module FlashSpan {
  import opened Machine
  import opened FlashBank
  import opened FlashSelect
  import opened FlashRound

  /** Of banks `k` to `j`, one starts at `at`, the next one where that ends, and so on in list order up to bank `j`. */
  ghost predicate Joined(banks: seq<Bank>, k: nat, j: nat, at: int)
    requires k <= j < |banks| && KnownHaveSectors(banks)
    decreases j - k
  {
    var here := banks[k].known && banks[k].start[0] == at;
    if k == j then here
    else Joined(banks, k + 1, j, if here then BankEnd(banks[k]) as int + 1 else at)
  }

  /** From the end of bank `i` to the start of bank `j` there is no gap that a bank in between does not fill. */
  ghost predicate Adjoining(banks: seq<Bank>, i: nat, j: nat)
    requires i < |banks| && j < |banks| && KnownHaveSectors(banks) && banks[i].start != []
  {
    i == j || (i < j && Joined(banks, i + 1, j, BankEnd(banks[i]) as int + 1))
  }

  /** What is to be selected of bank `k`: from `first` on in bank `i`, up to `last` in bank `j`, all of those between. */
  ghost function SpanOf(banks: seq<Bank>, k: nat, i: nat, j: nat, first: nat, last: nat): Pick
    requires k < |banks| && i < |banks| && KnownHaveSectors(banks) && banks[i].start != []
  {
    if k > j || !Adjoining(banks, i, k) then NONE
    else Pick(if k == i then first else 0, if k == j then last else |banks[k].start| - 1)
  }

  ghost function Span(banks: seq<Bank>, n: nat, i: nat, j: nat, first: nat, last: nat): seq<Pick>
    requires n <= |banks| && i < |banks| && KnownHaveSectors(banks) && banks[i].start != []
  {
    seq(|banks| - n, d requires 0 <= d < |banks| - n => SpanOf(banks, n + d, i, j, first, last))
  }

  /** The computation succeeds with these sectors and counts them. */
  ghost predicate Selects(f: Filled, picks: seq<Pick>) {
    f.Ranges? && f.picks == picks && f.count == Total(picks)
  }

  /** From the start of sector `first` of bank `i` to the end of sector `last` of bank `j`, both known. */
  ghost predicate Request(banks: seq<Bank>, i: nat, j: nat, first: nat, last: nat) {
    && GoodBanks(banks) && Disjoint(banks) && i < |banks| && j < |banks| && banks[i].known && banks[j].known
    && first < |banks[i].start| && last < |banks[j].start| && banks[i].start[first] <= End(banks[j], last)
  }

  // ----- one bank

  lemma ConsSelects(p: Pick, more: nat, rest: Filled, picks: seq<Pick>)
    requires more == if p == NONE then 0 else p.last - p.first + 1
    ensures Selects(Cons(p, more, rest), [p] + picks) <==> Selects(rest, picks)
  {
    assert ([p] + picks)[1..] == picks;
    if rest.Ranges? { assert ([p] + rest.picks)[1..] == rest.picks; }
  }

  lemma SpanStep(banks: seq<Bank>, n: nat, i: nat, j: nat, first: nat, last: nat)
    requires n < |banks| && i < |banks| && KnownHaveSectors(banks) && banks[i].start != []
    ensures Span(banks, n, i, j, first, last)
            == [SpanOf(banks, n, i, j, first, last)] + Span(banks, n + 1, i, j, first, last)
  {
  }

  /** A range that starts at a sector and runs past the end of the bank takes the bank's sectors from there on. */
  lemma ChooseToEnd(b: Bank, first: nat, hi: u32)
    requires WellFormed(b) && b.known && first < |b.start| && BankEnd(b) < hi
    ensures b.start[first] <= hi
    ensures Judge(b, b.start[first], hi) == Choose(Pick(first, |b.start| - 1), BankEnd(b) + 1)
  {
    var lo := b.start[first];
    SectorOrder(b, first, first);
    ScanFirst(b, lo, hi, |b.start|);
    ScanLast(b, lo, hi, |b.start|);
    var p := Scan(b, lo, hi, |b.start|);
    if p.last >= 0 { SectorOrder(b, p.last, p.last); }
  }

  /** A range that does not start in a bank chooses nothing of it, and is refused if it ends with one of its sectors. */
  lemma StartsElsewhere(b: Bank, lo: u32, hi: u32)
    requires (b.known ==> WellFormed(b)) && lo <= hi && (b.known ==> !Inside(b, lo))
    ensures !Judge(b, lo, hi).Choose?
    ensures Judge(b, lo, hi).Pass? <==> !b.known || forall i :: 0 <= i < |b.start| ==> End(b, i) != hi
  {
    if b.known {
      ScanFirst(b, lo, hi, |b.start|);
      ScanLast(b, lo, hi, |b.start|);
    }
  }

  // ----- the banks behind the first one

  /** Where a bank ends another can start, but none holds both addresses. */
  lemma StartsThere(banks: seq<Bank>, m: nat, k: nat, at: int)
    requires GoodBanks(banks) && Disjoint(banks) && m < k < |banks|
    requires Inside(banks[m], at - 1) && Inside(banks[k], at)
    ensures banks[k].start[0] == at
  {
    assert !Inside(banks[k], at - 1);
  }

  lemma {:induction false} JoinedUpwards(banks: seq<Bank>, k: nat, j: nat, at: int)
    requires GoodBanks(banks) && k <= j < |banks| && Joined(banks, k, j, at)
    ensures banks[j].known && at <= banks[j].start[0]
    decreases j - k
  {
    if k < j {
      if banks[k].known && banks[k].start[0] == at {
        SectorOrder(banks[k], 0, 0);
        JoinedUpwards(banks, k + 1, j, BankEnd(banks[k]) as int + 1);
      } else {
        JoinedUpwards(banks, k + 1, j, at);
      }
    }
  }

  /** The walk over the banks has come from the end of bank `i` to `at` in front of bank `k`, just behind bank `m`. */
  ghost predicate Walked(banks: seq<Bank>, i: nat, m: nat, k: nat, at: int)
    requires GoodBanks(banks) && i < |banks| && banks[i].start != []
  {
    && i <= m < k <= |banks| && Inside(banks[m], at - 1)
    && forall n :: k <= n < |banks| ==> (Adjoining(banks, i, n) <==> Joined(banks, k, n, at))
  }

  lemma WalkStep(banks: seq<Bank>, i: nat, m: nat, k: nat, at: int)
    requires GoodBanks(banks) && i < |banks| && banks[i].start != [] && k < |banks| && Walked(banks, i, m, k, at)
    ensures var here := banks[k].known && banks[k].start[0] == at;
            && (Adjoining(banks, i, k) <==> here)
            && (if here then Walked(banks, i, k, k + 1, BankEnd(banks[k]) as int + 1) else Walked(banks, i, m, k + 1, at))
  {
    hide Adjoining;
    assert Joined(banks, k, k, at) <==> banks[k].known && banks[k].start[0] == at;
    if banks[k].known { SectorOrder(banks[k], 0, 0); }
  }

  lemma OnlyIsSpan(banks: seq<Bank>, i: nat, j: nat, first: nat, last: nat)
    requires i <= j < |banks| && KnownHaveSectors(banks) && banks[i].start != [] && Adjoining(banks, i, j)
    requires i == j ==> first <= last
    ensures var f := if i == j then first else 0;
            && Only(|banks| - j, 0, f, last) == Span(banks, j, i, j, first, last)
            && Total(Span(banks, j, i, j, first, last)) == last - f + 1
  {
    var more := Span(banks, j + 1, i, j, first, last);
    SpanStep(banks, j, i, j, first, last);
    assert Span(banks, j, i, j, first, last)[1..] == more;
    forall d | 0 <= d < |more| ensures more[d] == NONE {
      assert more[d] == SpanOf(banks, j + 1 + d, i, j, first, last);
    }
    TotalOfNone(more);
  }

  lemma {:induction false} TotalOfNone(picks: seq<Pick>)
    requires NoneLeft(picks)
    ensures Total(picks) == 0
  {
    if picks != [] { TotalOfNone(picks[1..]); }
  }

  /** The last bank of the range. */
  lemma SpanEnds(banks: seq<Bank>, i: nat, j: nat, first: nat, last: nat)
    requires Request(banks, i, j, first, last) && i <= j && Adjoining(banks, i, j) && (i == j ==> first <= last)
    ensures var lo, hi := banks[j].start[if i == j then first else 0], End(banks[j], last);
            Selects(Fill(banks[j..], lo, hi), Span(banks, j, i, j, first, last)) <==> EndsBehind(banks, j, hi)
  {
    hide EndsBehind, Fill, Disjoint, Adjoining, Span;
    OneBankHere(banks, j, if i == j then first else 0, last);
    OnlyIsSpan(banks, i, j, first, last);
  }

  /** The outcome from bank `k` on is accepted only if the walk goes on up to bank `j`, and then selects it all. */
  ghost predicate Decided(banks: seq<Bank>, k: nat, at: u32, i: nat, j: nat, first: nat, last: nat)
    requires Request(banks, i, j, first, last) && k <= |banks|
  {
    var hi := End(banks[j], last);
    var f := Fill(banks[k..], at, hi);
    && (f.Ranges? ==> Adjoining(banks, i, j))
    && (Selects(f, Span(banks, k, i, j, first, last)) <==> Adjoining(banks, i, j) && EndsBehind(banks, j, hi))
  }

  lemma DecidedStep(banks: seq<Bank>, k: nat, at: u32, i: nat, j: nat, first: nat, last: nat, next: u32)
    requires Request(banks, i, j, first, last) && k < |banks| && at <= End(banks[j], last)
    requires Decided(banks, k + 1, next, i, j, first, last)
    requires var v := Judge(banks[k], at, End(banks[j], last));
             && !v.Refuse? && next == (if v.Pass? then at else v.next)
             && SpanOf(banks, k, i, j, first, last) == (if v.Pass? then NONE else v.pick)
             && (v.Choose? ==> 0 <= v.pick.first <= v.pick.last)
    ensures Decided(banks, k, at, i, j, first, last)
  {
    hide Judge, SpanOf, Span, EndsBehind, Adjoining, Disjoint, Selects, End;
    var hi, rest, p := End(banks[j], last), banks[k..], SpanOf(banks, k, i, j, first, last);
    assert rest[0] == banks[k] && rest[1..] == banks[k + 1..];
    SpanStep(banks, k, i, j, first, last);
    ConsSelects(p, if p == NONE then 0 else p.last - p.first + 1, Fill(banks[k + 1..], next, hi),
                Span(banks, k + 1, i, j, first, last));
  }

  lemma DecidedRefused(banks: seq<Bank>, k: nat, at: u32, i: nat, j: nat, first: nat, last: nat)
    requires Request(banks, i, j, first, last) && k < |banks| && at <= End(banks[j], last)
    requires Judge(banks[k], at, End(banks[j], last)).Refuse? && !Adjoining(banks, i, j)
    ensures Decided(banks, k, at, i, j, first, last)
  {
    hide Judge, Span, EndsBehind, Adjoining, Disjoint, End;
    assert banks[k..][0] == banks[k];
  }

  lemma {:induction false} SpanGoesOn(banks: seq<Bank>, m: nat, k: nat, at: u32, i: nat, j: nat, first: nat, last: nat)
    requires Request(banks, i, j, first, last) && i < k <= j && at <= End(banks[j], last) && Walked(banks, i, m, k, at)
    ensures Decided(banks, k, at, i, j, first, last)
    decreases j - k
  {
    hide EndsBehind, Judge, Disjoint, Selects, Span, Adjoining, Walked, Decided, Joined;
    var b, hi := banks[k], End(banks[j], last);
    WalkStep(banks, i, m, k, at);
    if b.known && b.start[0] == at {
      if k == j {
        LastBank(banks, k, at, i, j, first, last);
      } else {
        PastTheEnd(banks, k, at, j, last);
        ChooseToEnd(b, 0, hi);
        SpanGoesOn(banks, k, k + 1, BankEnd(b) + 1, i, j, first, last);
        DecidedStep(banks, k, at, i, j, first, last, BankEnd(b) + 1);
      }
    } else {
      if b.known { NotInside(banks, i, m, k, at); }
      StartsElsewhere(b, at, hi);
      if k == j {
        DecidedRefused(banks, k, at, i, j, first, last);
      } else {
        EndsElsewhere(banks, k, j, last);
        SpanGoesOn(banks, m, k + 1, at, i, j, first, last);
        DecidedStep(banks, k, at, i, j, first, last, at);
      }
    }
  }

  lemma LastBank(banks: seq<Bank>, k: nat, at: u32, i: nat, j: nat, first: nat, last: nat)
    requires Request(banks, i, j, first, last) && i < k == j && Adjoining(banks, i, j) && banks[j].start[0] == at
    ensures Decided(banks, k, at, i, j, first, last)
  {
    hide EndsBehind, Fill, Disjoint, Adjoining, Span, Selects;
    SpanEnds(banks, i, j, first, last);
  }

  /** The end of the range is in bank `j`, so it is behind any other bank the range has come to. */
  lemma PastTheEnd(banks: seq<Bank>, k: nat, at: u32, j: nat, last: nat)
    requires GoodBanks(banks) && Disjoint(banks) && k < |banks| && j < |banks| && k != j
    requires last < |banks[j].start| && at <= End(banks[j], last) && banks[k].known && Inside(banks[k], at)
    ensures BankEnd(banks[k]) < End(banks[j], last)
  {
    var hi := End(banks[j], last);
    SectorInside(banks[j], last, hi) by { SectorOrder(banks[j], last, last); }
    assert !Inside(banks[k], hi);
  }

  lemma NotInside(banks: seq<Bank>, i: nat, m: nat, k: nat, at: int)
    requires GoodBanks(banks) && Disjoint(banks) && i < |banks| && banks[i].start != []
    requires k < |banks| && Walked(banks, i, m, k, at) && banks[k].known && banks[k].start[0] != at
    ensures !Inside(banks[k], at)
  {
    if Inside(banks[k], at) { StartsThere(banks, m, k, at); }
  }

  lemma EndsElsewhere(banks: seq<Bank>, k: nat, j: nat, last: nat)
    requires GoodBanks(banks) && Disjoint(banks) && k < |banks| && j < |banks| && k != j && last < |banks[j].start|
    ensures forall i :: 0 <= i < |banks[k].start| ==> End(banks[k], i) != End(banks[j], last)
  {
    var hi := End(banks[j], last);
    SectorInside(banks[j], last, hi) by { SectorOrder(banks[j], last, last); }
    forall i | 0 <= i < |banks[k].start| ensures End(banks[k], i) != hi {
      SectorInside(banks[k], i, End(banks[k], i)) by { SectorOrder(banks[k], i, i); }
    }
  }

  // ----- the whole range

  lemma SpanBegins(banks: seq<Bank>, i: nat, j: nat, first: nat, last: nat)
    requires Request(banks, i, j, first, last) && i <= j
    ensures Decided(banks, i, banks[i].start[first], i, j, first, last)
  {
    hide EndsBehind, Judge, Disjoint, Selects, Span;
    var b, lo, hi := banks[i], banks[i].start[first], End(banks[j], last);
    if i == j {
      SectorOrder(b, last, first);
      SpanEnds(banks, i, j, first, last);
    } else {
      SectorInside(b, first, lo) by { SectorOrder(b, first, first); }
      PastTheEnd(banks, i, lo, j, last);
      ChooseToEnd(b, first, hi);
      SectorOrder(b, 0, 0);
      SpanGoesOn(banks, i, i + 1, BankEnd(b) + 1, i, j, first, last);
      DecidedStep(banks, i, lo, i, j, first, last, BankEnd(b) + 1);
    }
  }

  lemma {:induction false} SpanFrom(banks: seq<Bank>, n: nat, i: nat, j: nat, first: nat, last: nat)
    requires Request(banks, i, j, first, last) && n <= i && n <= j
    ensures Decided(banks, n, banks[i].start[first], i, j, first, last)
    decreases i - n
  {
    hide EndsBehind, Judge, Disjoint, Selects, Span, Decided;
    if n == i {
      SpanBegins(banks, i, j, first, last);
    } else {
      var lo, hi := banks[i].start[first], End(banks[j], last);
      assert !Inside(banks[n], lo) by { StartInside(banks, n, i, first); }
      StartsElsewhere(banks[n], lo, hi);
      if n == j {
        DecidedRefused(banks, n, lo, i, j, first, last);
      } else {
        EndsElsewhere(banks, n, j, last);
        SpanFrom(banks, n + 1, i, j, first, last);
        DecidedStep(banks, n, lo, i, j, first, last, lo);
      }
    }
  }

  lemma StartInside(banks: seq<Bank>, n: nat, i: nat, first: nat)
    requires GoodBanks(banks) && Disjoint(banks) && n < i < |banks| && first < |banks[i].start|
    ensures !Inside(banks[n], banks[i].start[first])
  {
    var lo := banks[i].start[first];
    SectorInside(banks[i], first, lo) by { SectorOrder(banks[i], first, first); }
  }

  /**
   A range from the start of a sector of one bank to the end of a sector of another is accepted only
   if banks in list order lead without a gap from the one to the other.  It then selects the sectors
   from the first one on, all of the banks between, those up to the last one, and nothing else, and
   counts them -- if and only if, besides, the range ends below the last address of all or no bank
   behind it starts at address zero.
   */
  lemma SpanExact(banks: seq<Bank>, i: nat, j: nat, first: nat, last: nat)
    requires Request(banks, i, j, first, last)
    ensures var lo, hi := banks[i].start[first], End(banks[j], last);
            var f := Fill(banks, lo, hi);
            && (f.Ranges? ==> Adjoining(banks, i, j))
            && (Selects(f, Span(banks, 0, i, j, first, last)) <==> Adjoining(banks, i, j) && EndsBehind(banks, j, hi))
  {
    hide Selects, Fill, EndsBehind, Adjoining;
    SpanFrom(banks, 0, i, j, first, last);
    assert banks[0..] == banks;
  }

  /** The same for a start and a length that reaches into bank `j`: up to the sector that holds the last byte. */
  lemma LengthSpanExact(banks: seq<Bank>, i: nat, j: nat, first: nat, length: u32) returns (last: nat)
    requires GoodBanks(banks) && Disjoint(banks) && i < |banks| && j < |banks| && banks[i].known && banks[j].known
    requires first < |banks[i].start| && length > 0 && banks[i].start[first] as int + length as int <= TWO_32
    requires Inside(banks[j], banks[i].start[first] as int + length as int - 1)
    ensures Holds(banks[j], last, banks[i].start[first] as int + length as int - 1)
    ensures LengthForm(banks, banks[i].start[first], length) == Some(End(banks[j], last))
    ensures var f := Fill(banks, banks[i].start[first], End(banks[j], last));
            && (f.Ranges? ==> Adjoining(banks, i, j))
            && (Selects(f, Span(banks, 0, i, j, first, last))
                <==> Adjoining(banks, i, j) && EndsBehind(banks, j, End(banks[j], last)))
  {
    hide Selects, Fill, EndsBehind, RoundUp, Disjoint, Adjoining, Span;
    var addr: u32 := banks[i].start[first] as int + length as int - 1;
    last := RoundedSector(banks, j, addr);
    SpanExact(banks, i, j, first, last);
  }

  // ----- addresses off the sector boundaries

  ghost predicate KnownSectorEnd(banks: seq<Bank>, a: int) {
    exists m, i :: 0 <= m < |banks| && banks[m].known && 0 <= i < |banks[m].start| && End(banks[m], i) == a
  }

  /** The address lies in bank `k`, but no sector of the bank starts there. */
  ghost predicate OffBoundary(banks: seq<Bank>, k: nat, lo: int) {
    && k < |banks| && banks[k].known && Inside(banks[k], lo)
    && forall i :: 0 <= i < |banks[k].start| ==> banks[k].start[i] != lo
  }

  lemma JudgedOff(banks: seq<Bank>, n: nat, k: nat, lo: u32, hi: u32)
    requires GoodBanks(banks) && Disjoint(banks) && OffBoundary(banks, k, lo) && n < |banks| && lo <= hi
    ensures var v := Judge(banks[n], lo, hi);
            && !v.Choose?
            && (v.Refuse? <==> || (n == k && lo < BankEnd(banks[k]))
                               || (banks[n].known && exists i :: 0 <= i < |banks[n].start| && End(banks[n], i) == hi))
  {
    if n == k {
      ScanFirst(banks[k], lo, hi, |banks[k].start|);
      ScanLast(banks[k], lo, hi, |banks[k].start|);
    } else {
      assert !Inside(banks[n], lo);
      StartsElsewhere(banks[n], lo, hi);
    }
  }

  lemma {:induction false} OffFrom(banks: seq<Bank>, n: nat, k: nat, lo: u32, hi: u32)
    requires GoodBanks(banks) && Disjoint(banks) && OffBoundary(banks, k, lo) && n <= |banks| && lo <= hi
    ensures var f := Fill(banks[n..], lo, hi);
            && (f.Failed? <==> (n <= k && lo < BankEnd(banks[k])) || KnownSectorEnd(banks[n..], hi))
            && (f.Ranges? ==> NoneLeft(f.picks))
    decreases |banks| - n
  {
    hide Judge, Disjoint, End;
    if n < |banks| {
      var rest := banks[n..];
      assert rest[0] == banks[n] && rest[1..] == banks[n + 1..];
      JudgedOff(banks, n, k, lo, hi);
      OffFrom(banks, n + 1, k, lo, hi);
      EndsBelow(rest, hi);
    }
  }

  lemma EndsBelow(banks: seq<Bank>, a: int)
    requires banks != []
    ensures KnownSectorEnd(banks, a)
            <==> || (banks[0].known && exists i :: 0 <= i < |banks[0].start| && End(banks[0], i) == a)
                 || KnownSectorEnd(banks[1..], a)
  {
    hide End;
    var rest := banks[1..];
    if KnownSectorEnd(rest, a) {
      var m, i :| 0 <= m < |rest| && rest[m].known && 0 <= i < |rest[m].start| && End(rest[m], i) == a;
      assert banks[m + 1] == rest[m];
    }
    if KnownSectorEnd(banks, a) {
      var m, i :| 0 <= m < |banks| && banks[m].known && 0 <= i < |banks[m].start| && End(banks[m], i) == a;
      if m > 0 { assert rest[m - 1] == banks[m]; }
    }
  }

  /**
   A range that starts inside a bank but not at a sector is refused, if and only if it starts below
   the last byte of the bank or ends with a sector; otherwise it is accepted and selects nothing.
   */
  lemma StartOffBoundary(banks: seq<Bank>, k: nat, lo: u32, hi: u32)
    requires GoodBanks(banks) && Disjoint(banks) && OffBoundary(banks, k, lo) && lo <= hi
    ensures var f := Fill(banks, lo, hi);
            && (f.Failed? <==> lo < BankEnd(banks[k]) || KnownSectorEnd(banks, hi))
            && (f.Ranges? ==> NoneLeft(f.picks))
  {
    OffFrom(banks, 0, k, lo, hi);
    assert banks[0..] == banks;
  }

  /** The end of a range: inside bank `j`, but not at the end of one of its sectors. */
  ghost predicate EndsOff(banks: seq<Bank>, j: nat, hi: int) {
    && j < |banks| && banks[j].known && Inside(banks[j], hi)
    && forall i :: 0 <= i < |banks[j].start| ==> End(banks[j], i) != hi
  }

  lemma RefusedThere(banks: seq<Bank>, j: nat, first: nat, hi: u32)
    requires GoodBanks(banks) && EndsOff(banks, j, hi) && first < |banks[j].start| && banks[j].start[first] <= hi
    ensures Fill(banks[j..], banks[j].start[first], hi) == Failed(EndMisaligned)
  {
    var b, lo := banks[j], banks[j].start[first];
    assert banks[j..][0] == b;
    ScanFirst(b, lo, hi, |b.start|);
    ScanLast(b, lo, hi, |b.start|);
  }

  lemma {:induction false} EndOffGoesOn(banks: seq<Bank>, m: nat, k: nat, at: u32, j: nat, hi: u32)
    requires GoodBanks(banks) && Disjoint(banks) && m < k <= j && EndsOff(banks, j, hi)
    requires at <= hi && Inside(banks[m], at - 1) && Joined(banks, k, j, at)
    ensures Fill(banks[k..], at, hi) == Failed(EndMisaligned)
    decreases j - k
  {
    hide Judge, Disjoint;
    var b, rest := banks[k], banks[k..];
    if k == j {
      RefusedThere(banks, j, 0, hi);
    } else {
      assert rest[0] == b && rest[1..] == banks[k + 1..];
      assert !Inside(b, hi) by { Apart(banks, k, j, hi); }
      if b.known && b.start[0] == at {
        SectorOrder(b, 0, 0);
        ChooseToEnd(b, 0, hi);
        EndOffGoesOn(banks, k, k + 1, BankEnd(b) + 1, j, hi);
      } else {
        if b.known {
          if Inside(b, at) { StartsThere(banks, m, k, at); }
          PassOutside(b, at, hi);
        } else {
          UnknownPassed(b, at, hi);
        }
        EndOffGoesOn(banks, m, k + 1, at, j, hi);
      }
    }
  }

  lemma Apart(banks: seq<Bank>, k: nat, j: nat, a: int)
    requires Disjoint(banks) && k < j < |banks| && Inside(banks[j], a)
    ensures !Inside(banks[k], a)
  {
  }

  lemma UnknownPassed(b: Bank, lo: u32, hi: u32)
    requires !b.known
    ensures Judge(b, lo, hi) == Pass
  {
  }

  lemma {:induction false} EndOffFrom(banks: seq<Bank>, n: nat, i: nat, j: nat, first: nat, hi: u32)
    requires GoodBanks(banks) && Disjoint(banks) && n <= i <= j && EndsOff(banks, j, hi)
    requires banks[i].known && first < |banks[i].start| && Adjoining(banks, i, j) && banks[i].start[first] <= hi
    ensures Fill(banks[n..], banks[i].start[first], hi) == Failed(EndMisaligned)
    decreases i - n
  {
    hide Judge, Disjoint;
    var lo, b, rest := banks[i].start[first], banks[n], banks[n..];
    assert rest[0] == b && rest[1..] == banks[n + 1..];
    if n == j {
      RefusedThere(banks, j, first, hi);
    } else {
      assert !Inside(b, hi) by { Apart(banks, n, j, hi); }
      SectorInside(banks[i], first, lo) by { SectorOrder(banks[i], first, first); }
      if n == i {
        ChooseToEnd(b, first, hi);
        SectorOrder(b, 0, 0);
        EndOffGoesOn(banks, i, i + 1, BankEnd(b) + 1, j, hi);
      } else {
        Apart(banks, n, i, lo);
        PassOutside(b, lo, hi);
        EndOffFrom(banks, n + 1, i, j, first, hi);
      }
    }
  }

  /** A range that starts at a sector and ends inside a bank it leads up to, but not with a sector, is refused. */
  lemma EndOffBoundary(banks: seq<Bank>, i: nat, j: nat, first: nat, hi: u32)
    requires GoodBanks(banks) && Disjoint(banks) && i <= j && EndsOff(banks, j, hi)
    requires banks[i].known && first < |banks[i].start| && Adjoining(banks, i, j) && banks[i].start[first] <= hi
    ensures Fill(banks, banks[i].start[first], hi) == Failed(EndMisaligned)
  {
    EndOffFrom(banks, 0, i, j, first, hi);
    assert banks[0..] == banks;
  }
}

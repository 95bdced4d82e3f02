/** When the sort of `efi_build_mem_table`, and with it the table, is in address order. */
module EfiExact {
  import opened Machine
  import opened EfiMap
  import opened EfiSort

  // ----- the sort

  lemma InTurnPair(a: Desc, b: Desc)
    ensures Compare(a, b) <= 0 <==> 0 <= b.start - a.start <= TWO_64 / 2 || a.start - b.start >= TWO_64 / 2
  {
  }

  /** Two descriptors more than 2^63 apart come out in the wrong order, however they are arranged. */
  lemma PairUnsorted(a: Desc, b: Desc, s: seq<Desc>)
    requires a.start - b.start > TWO_64 / 2 && multiset(s) == multiset([a, b]) && InTurn(s)
    ensures s == [a, b] && !Sorted(s)
  {
    InTurnPair(b, a);
    assert |s| == |multiset(s)| == 2;
    assert s == [s[0], s[1]];
    assert s[0] in multiset([a, b]) && s[1] in multiset([a, b]);
    assert Compare(s[0], s[1]) <= 0;
    assert multiset([a, b])[a] == 1 && multiset([a, b])[b] == 1;
    assert multiset(s) == multiset{s[0], s[1]};
  }

  ghost function Arranged(s: seq<Desc>): seq<Desc> {
    if s == [] then [] else Place(Arranged(s[1..]), s[0])
  }

  ghost function Place(s: seq<Desc>, d: Desc): seq<Desc> {
    if s == [] || d.start <= s[0].start then [d] + s else [s[0]] + Place(s[1..], d)
  }

  lemma {:induction false} PlaceKeeps(s: seq<Desc>, d: Desc)
    ensures multiset(Place(s, d)) == multiset([d]) + multiset(s)
  {
    if s != [] {
      assert s == [s[0]] + s[1..];
      if d.start > s[0].start { PlaceKeeps(s[1..], d); }
    }
  }

  lemma ConsSorted(d: Desc, s: seq<Desc>)
    requires Sorted(s) && (s != [] ==> d.start <= s[0].start)
    ensures Sorted([d] + s)
  {
    var t := [d] + s;
    forall i, j | 0 <= i < j < |t| ensures t[i].start <= t[j].start {
      assert s[0].start <= s[j - 1].start;
    }
  }

  lemma {:induction false} PlaceSorted(s: seq<Desc>, d: Desc)
    requires Sorted(s)
    ensures Place(s, d) != [] && Sorted(Place(s, d))
    ensures Place(s, d)[0] == if s == [] || d.start <= s[0].start then d else s[0]
  {
    hide Sorted;
    if s == [] || d.start <= s[0].start {
      ConsSorted(d, s);
    } else {
      assert Sorted(s[1..]) && (|s| > 1 ==> s[0].start <= s[1].start) by { TailSorted(s); }
      PlaceSorted(s[1..], d);
      ConsSorted(s[0], Place(s[1..], d));
    }
  }

  lemma TailSorted(s: seq<Desc>)
    requires Sorted(s) && s != []
    ensures Sorted(s[1..]) && (|s| > 1 ==> s[0].start <= s[1].start)
  {
  }

  lemma {:induction false} ArrangedSorted(s: seq<Desc>)
    ensures multiset(Arranged(s)) == multiset(s) && Sorted(Arranged(s))
  {
    if s != [] {
      assert s == [s[0]] + s[1..];
      ArrangedSorted(s[1..]);
      PlaceKeeps(Arranged(s[1..]), s[0]);
      PlaceSorted(Arranged(s[1..]), s[0]);
    }
  }

  /** The one place where neighbours may lie more than 2^63 apart, or any other if there is none. */
  lemma WidestGap(s: seq<Desc>) returns (k: nat)
    requires Sorted(s) && |s| > 1
    ensures 1 <= k < |s|
    ensures forall i :: 0 <= i < |s| - 1 && i + 1 != k ==> s[i + 1].start - s[i].start <= TWO_64 / 2
  {
    if i :| 0 <= i < |s| - 1 && s[i + 1].start - s[i].start > TWO_64 / 2 {
      k := i + 1;
    } else {
      k := 1;
    }
  }

  lemma RotatedKeeps(s: seq<Desc>, k: nat)
    requires k <= |s|
    ensures multiset(s[k..] + s[..k]) == multiset(s)
  {
    assert s == s[..k] + s[k..];
  }

  lemma RotatedPair(s: seq<Desc>, k: nat, x: nat)
    requires Sorted(s) && 1 <= k < |s| && s[|s| - 1].start - s[0].start >= TWO_64 / 2 && x < |s| - 1
    requires forall i :: 0 <= i < |s| - 1 && i + 1 != k ==> s[i + 1].start - s[i].start <= TWO_64 / 2
    ensures var t := s[k..] + s[..k]; Compare(t[x], t[x + 1]) <= 0
  {
    hide Compare;
    var t, n := s[k..] + s[..k], |s| - k;
    InTurnPair(t[x], t[x + 1]);
    if x < n - 1 {
      assert t[x] == s[k + x] && t[x + 1] == s[k + x + 1];
    } else if x == n - 1 {
      assert t[x] == s[|s| - 1] && t[x + 1] == s[0];
    } else {
      assert t[x] == s[x - n] && t[x + 1] == s[x - n + 1];
    }
  }

  /** A sorted list with ends 2^63 or more apart, cut there and put together the other way round. */
  lemma RotatedInTurn(s: seq<Desc>, k: nat)
    requires Sorted(s) && 1 <= k < |s| && s[|s| - 1].start - s[0].start >= TWO_64 / 2
    requires forall i :: 0 <= i < |s| - 1 && i + 1 != k ==> s[i + 1].start - s[i].start <= TWO_64 / 2
    ensures var t := s[k..] + s[..k]; multiset(t) == multiset(s) && InTurn(t) && !Sorted(t)
  {
    hide Compare;
    var t, n := s[k..] + s[..k], |s| - k;
    RotatedKeeps(s, k);
    forall x | 0 <= x < |t| - 1 ensures Compare(t[x], t[x + 1]) <= 0 { RotatedPair(s, k, x); }
    assert t[n - 1] == s[|s| - 1] && t[n] == s[0];
  }

  /** Every list that the sort may end with is in address order if and only if no two addresses are 2^63 or more apart. */
  lemma SortedExactly(ds: seq<Desc>)
    ensures (forall s :: multiset(s) == multiset(ds) && InTurn(s) ==> Sorted(s)) <==> Comparable(ds)
  {
    hide Compare;
    if Comparable(ds) {
      forall s | multiset(s) == multiset(ds) && InTurn(s) ensures Sorted(s) {
        ComparableElements(ds, s);
        InTurnSorted(s);
      }
    } else {
      var s := Arranged(ds);
      ArrangedSorted(ds);
      assert s[|s| - 1].start - s[0].start >= TWO_64 / 2 by { EndsApart(ds, s); }
      var k := WidestGap(s);
      RotatedInTurn(s, k);
    }
  }

  lemma EndsApart(ds: seq<Desc>, s: seq<Desc>)
    requires multiset(s) == multiset(ds) && Sorted(s) && !Comparable(ds)
    ensures |s| > 1 && s[|s| - 1].start - s[0].start >= TWO_64 / 2
  {
    var i, j :| 0 <= i < |ds| && 0 <= j < |ds| && ds[i].start - ds[j].start >= TWO_64 / 2;
    SameElements(s, ds, ds[i]);
    SameElements(s, ds, ds[j]);
    var x :| 0 <= x < |s| && s[x] == ds[i];
    var y :| 0 <= y < |s| && s[y] == ds[j];
  }

  /**
   What an unsorted table can be worth: conventional memory at the very top and at address zero
   becomes one descriptor that runs over the end of the address space, and address zero is lost.
   */
  lemma TopMergesWithBottom(a: Desc, b: Desc)
    requires a.kind == b.kind == CONVENTIONAL && End(a) == TWO_64 && a.start > TWO_64 / 2
    requires b.start == 0 && b.pages > 0 && End(b) <= a.start
    ensures Separate([b, a]) && ListedAs([b, a], 0, CONVENTIONAL, true)
    ensures forall s :: multiset(s) == multiset([b, a]) && InTurn(s) ==>
              Merge(s, true) == [a.(pages := a.pages + b.pages)] && !Listed(Merge(s, true), 0, CONVENTIONAL)
  {
    assert Holds([b, a][0], 0);
    assert forall d :: d in [b, a] ==> d == a || d == b;
    forall s | multiset(s) == multiset([b, a]) && InTurn(s)
      ensures Merge(s, true) == [a.(pages := a.pages + b.pages)] && !Listed(Merge(s, true), 0, CONVENTIONAL)
    {
      assert multiset([b, a]) == multiset([a, b]);
      PairUnsorted(a, b, s);
      MergedPair(a, b);
    }
  }

  lemma MergedPair(a: Desc, b: Desc)
    requires a.kind == b.kind == CONVENTIONAL && End(a) == TWO_64 && b.start == 0 && End(b) <= a.start
    ensures Merge([a, b], true) == [a.(pages := a.pages + b.pages)]
  {
    assert [a, b][1..] == [b] && [b][1..] == [];
    assert Next([], 0, a, true) == [a];
    assert Merge([a, b], true) == MergeFrom([a], AddressBehind(a), [b], true);
    assert AddressBehind(a) == 0 && Merges([a], 0, b, true);
    assert MergeFrom([a], 0, [b], true) == Next([a], 0, b, true) == Grow([a], b.pages);
  }

  // ----- the table is right exactly where the sort is

  /** Where the last of the descriptors read ends. */
  function ReadUpTo(addr: u64, ds: seq<Desc>): u64 {
    if ds == [] then addr else AddressBehind(ds[|ds| - 1])
  }

  lemma {:induction false} MergeConcat(out: seq<Desc>, addr: u64, a: seq<Desc>, b: seq<Desc>)
    ensures MergeFrom(out, addr, a + b, true) == MergeFrom(MergeFrom(out, addr, a, true), ReadUpTo(addr, a), b, true)
    decreases |a|
  {
    hide Next;
    if a == [] {
      assert a + b == b;
    } else {
      assert (a + b)[0] == a[0] && (a + b)[1..] == a[1..] + b;
      MergeConcat(Next(out, addr, a[0], true), AddressBehind(a[0]), a[1..], b);
    }
  }

  lemma {:induction false} MergeKeepsBelow(out: seq<Desc>, addr: u64, ds: seq<Desc>)
    requires Below(out, addr, ds)
    ensures Below(MergeFrom(out, addr, ds, true), ReadUpTo(addr, ds), [])
    decreases |ds|
  {
    hide Next, Below, AddressBehind;
    if ds == [] {
      assert ds == [];
    } else {
      StepKeepsBelow(out, addr, ds, true);
      MergeKeepsBelow(Next(out, addr, ds[0], true), AddressBehind(ds[0]), ds[1..]);
    }
  }

  /** What is written keeps its start, and all but the last of it its size. */
  lemma {:induction false} WrittenStays(out: seq<Desc>, addr: u64, ds: seq<Desc>, i: nat)
    requires i < |out|
    ensures var all := MergeFrom(out, addr, ds, true);
            |all| >= |out| && all[i].start == out[i].start && (i < |out| - 1 ==> all[i] == out[i])
    decreases |ds|
  {
    if ds != [] { WrittenStays(Next(out, addr, ds[0], true), AddressBehind(ds[0]), ds[1..], i); }
  }

  /** A descriptor that runs over the end of the address space stays that way. */
  lemma {:induction false} OverEndStays(out: seq<Desc>, addr: u64, ds: seq<Desc>)
    requires out != [] && addr > 0 && End(Last(out)) == TWO_64 + addr && Last(out).pages <= 0x20_0000_0000_0000
    requires forall i :: 0 <= i < |ds| ==> End(ds[i]) < TWO_64
    ensures !Ordered(MergeFrom(out, addr, ds, true))
    decreases |ds|
  {
    if ds == [] {
      assert End(out[|out| - 1]) > TWO_64;
    } else {
      var d, n := ds[0], |out|;
      var next := Next(out, addr, d, true);
      if Merges(out, addr, d, true) {
        assert End(Last(next)) == TWO_64 + End(d);
        OverEndStays(next, AddressBehind(d), ds[1..]);
      } else {
        assert next[n - 1] == out[n - 1];
        WrittenStays(next, AddressBehind(d), ds[1..], n - 1);
      }
    }
  }

  lemma StartsInOrder(out: seq<Desc>)
    requires Ordered(out) && out != []
    ensures out[0].start <= Last(out).start && End(Last(out)) <= TWO_64
  {
    if |out| > 1 { assert Precedes(out[0], out[|out| - 1]); }
  }

  lemma UnmergedSpoils(out: seq<Desc>, d: Desc, addr: u64, rest: seq<Desc>)
    requires out != [] && d.start < out[0].start
    ensures !Ordered(MergeFrom(out + [d], addr, rest, true))
  {
    hide MergeFrom;
    var all := MergeFrom(out + [d], addr, rest, true);
    WrittenStays(out + [d], addr, rest, 0);
    WrittenStays(out + [d], addr, rest, |out|);
    assert all[0].start > all[|out|].start && !Precedes(all[0], all[|out|]);
  }

  lemma MergedSpoils(out: seq<Desc>, d: Desc, addr: u64, rest: seq<Desc>)
    requires out != [] && Merges(out, addr, d, true) && addr == End(Last(out)) % TWO_64 && End(Last(out)) <= TWO_64
    requires d.start < Last(out).start && d.pages > 0 && End(d) < TWO_64
    requires forall i :: 0 <= i < |rest| ==> End(rest[i]) < TWO_64
    ensures !Ordered(MergeFrom(Grow(out, d.pages), AddressBehind(d), rest, true))
  {
    hide MergeFrom, Ordered;
    assert End(Last(out)) == TWO_64 && d.start == 0;
    assert End(Last(Grow(out, d.pages))) == TWO_64 + End(d);
    OverEndStays(Grow(out, d.pages), AddressBehind(d), rest);
  }

  /** A descriptor below the first one written, read behind it, leaves the table out of order. */
  lemma LowerSpoils(out: seq<Desc>, addr: u64, ds: seq<Desc>)
    requires out != [] && Below(out, addr, []) && ds != [] && ds[0].start < out[0].start && ds[0].pages > 0
    requires forall i :: 0 <= i < |ds| ==> End(ds[i]) < TWO_64
    ensures !Ordered(MergeFrom(out, addr, ds, true))
  {
    hide Ordered, Merges, Grow, AddressBehind;
    var d := ds[0];
    StartsInOrder(out);
    if Merges(out, addr, d, true) {
      MergedSpoils(out, d, addr, ds[1..]);
    } else {
      UnmergedSpoils(out, d.(kind := Shown(d.kind, true)), AddressBehind(d), ds[1..]);
    }
  }

  lemma RotatedSpoils(s: seq<Desc>, k: nat)
    requires Ordered(s) && 1 <= k < |s| && forall i :: 0 <= i < |s| ==> s[i].pages > 0
    ensures !Ordered(Merge(s[k..] + s[..k], true))
  {
    var high, low := s[k..], s[..k];
    var out, addr := MergeFrom([], 0, high, true), ReadUpTo(0, high);
    MergeConcat([], 0, high, low);
    assert forall i :: 0 <= i < |high| ==> high[i] == s[k + i];
    assert Below([], 0, high);
    MergeKeepsBelow([], 0, high);
    assert Next([], 0, high[0], true) == [high[0].(kind := Shown(high[0].kind, true))];
    WrittenStays(Next([], 0, high[0], true), AddressBehind(high[0]), high[1..], 0);
    forall i | 0 <= i < k ensures End(low[i]) < TWO_64 && low[i].start < s[k].start {
      assert Precedes(s[i], s[k]);
    }
    LowerSpoils(out, addr, low);
  }

  lemma SpoiledTable(descs: seq<Desc>) returns (t: seq<Desc>)
    requires Separate(descs) && (forall d :: d in descs ==> d.pages > 0) && !Comparable(descs)
    ensures multiset(t) == multiset(descs) && InTurn(t) && !Ordered(Merge(t, true))
  {
    var s := Arranged(descs);
    ArrangedSorted(descs);
    EndsApart(descs, s);
    SortedOrdered(descs, s);
    hide InTurn, Merge, Ordered, Comparable, Separate, Arranged;
    forall i | 0 <= i < |s| ensures s[i].pages > 0 { SameElements(s, descs, s[i]); }
    var k := WidestGap(s);
    RotatedInTurn(s, k);
    RotatedSpoils(s, k);
    t := s[k..] + s[..k];
  }

  /**
   For descriptors with pages and without a common address, the table is in order whatever list the
   sort ends with if and only if no two addresses are 2^63 or more apart.
   */
  lemma TableExactly(descs: seq<Desc>)
    requires Separate(descs) && forall d :: d in descs ==> d.pages > 0
    ensures (forall s :: multiset(s) == multiset(descs) && InTurn(s) ==> Ordered(Merge(s, true))) <==> Comparable(descs)
  {
    hide InTurn, Merge, Ordered, Separate, Comparable, Sorted;
    if Comparable(descs) {
      SortedExactly(descs);
      forall s | multiset(s) == multiset(descs) && InTurn(s) ensures Ordered(Merge(s, true)) {
        TablePreserves(descs, s);
      }
    } else {
      var t := SpoiledTable(descs);
    }
  }
}

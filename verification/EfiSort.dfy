/** `qsort` as `efi_build_mem_table` uses it, and the whole of that function. */
module EfiSort {
  import opened Machine
  import opened EfiMap

  ghost predicate Sorted(s: seq<Desc>) {
    forall i, j :: 0 <= i < j < |s| ==> s[i].start <= s[j].start
  }

  /** No descriptor compares greater than the one behind it. */
  ghost predicate InTurn(s: seq<Desc>) {
    forall i :: 0 <= i < |s| - 1 ==> Compare(s[i], s[i + 1]) <= 0
  }

  /** Addresses the comparison gets right: none 2^63 or more above another. */
  ghost predicate Comparable(s: seq<Desc>) {
    forall i, j :: 0 <= i < |s| && 0 <= j < |s| ==> s[i].start - s[j].start < TWO_64 / 2
  }

  /** Where the comparison is right for all pairs, neighbours in turn are a sorted list. */
  lemma {:induction false} InTurnSorted(s: seq<Desc>)
    requires InTurn(s) && Comparable(s)
    ensures Sorted(s)
    decreases |s|
  {
    if |s| > 1 {
      var n := |s| - 1;
      var init := s[..n];
      assert forall i :: 0 <= i < n ==> init[i] == s[i];
      InTurnSorted(init);
      assert Compare(s[n - 1], s[n]) <= 0;
      CompareExact(s[n - 1], s[n]);
      forall i | 0 <= i < n ensures s[i].start <= s[n].start {
        if i < n - 1 { assert init[i].start <= init[n - 1].start; }
      }
    }
  }

  // ----- exchanging

  lemma SwapKeeps(s: seq<Desc>, i: nat, j: nat)
    requires i < j < |s|
    ensures multiset(s[i := s[j]][j := s[i]]) == multiset(s)
  {
  }

  /** The byte-wise exchange of two elements. */
  method Exchange(a: array<Desc>, n: nat, i: nat, j: nat)
    requires i < j < n <= a.Length
    modifies a
    ensures a[..n] == old(a[..n])[i := old(a[j])][j := old(a[i])] && a[n..] == old(a[n..])
    ensures multiset(a[..n]) == multiset(old(a[..n]))
  {
    ghost var before := a[..n];
    a[i], a[j] := a[j], a[i];
    assert a[..n] == before[i := before[j]][j := before[i]];
    SwapKeeps(before, i, j);
  }

  // ----- one element

  /** Up to `i` all are in turn but for the element at `p`, and its neighbours are in turn without it. */
  ghost predicate AllBut(s: seq<Desc>, p: nat, i: nat)
    requires i < |s|
  {
    && (forall x :: 0 <= x < i && x + 1 != p ==> Compare(s[x], s[x + 1]) <= 0)
    && (0 < p < i ==> Compare(s[p - 1], s[p + 1]) <= 0)
  }

  lemma AllButMoves(s: seq<Desc>, p: nat, i: nat)
    requires 1 <= p <= i < |s| && AllBut(s, p, i) && Compare(s[p - 1], s[p]) > 0
    ensures AllBut(s[p - 1 := s[p]][p := s[p - 1]], p - 1, i)
  {
    hide Compare;
    var t := s[p - 1 := s[p]][p := s[p - 1]];
    assert Compare(s[p], s[p - 1]) <= 0 by { Reversed(s[p - 1], s[p]); }
    forall x | 0 <= x < i && x + 1 != p - 1 ensures Compare(t[x], t[x + 1]) <= 0 {
      if x + 1 < p - 1 || x > p { assert t[x] == s[x] && t[x + 1] == s[x + 1]; }
    }
    if 0 < p - 1 { assert Compare(s[p - 2], s[p - 2 + 1]) <= 0; }
  }

  lemma Reversed(a: Desc, b: Desc)
    requires Compare(a, b) > 0
    ensures Compare(b, a) < 0
  {
  }

  lemma AllButDone(s: seq<Desc>, p: nat, i: nat)
    requires p <= i < |s| && AllBut(s, p, i) && (p > 0 ==> Compare(s[p - 1], s[p]) <= 0)
    ensures InTurn(s[..i + 1])
  {
    hide Compare;
    var t := s[..i + 1];
    forall x | 0 <= x < i ensures Compare(t[x], t[x + 1]) <= 0 {
      assert t[x] == s[x] && t[x + 1] == s[x + 1];
    }
  }

  lemma AllButStarts(s: seq<Desc>, i: nat)
    requires i < |s| && InTurn(s[..i])
    ensures AllBut(s, i, i)
  {
    hide Compare;
    forall x | 0 <= x < i && x + 1 != i ensures Compare(s[x], s[x + 1]) <= 0 {
      assert s[..i][x] == s[x] && s[..i][x + 1] == s[x + 1];
    }
  }

  /** One comparison and, if need be, one exchange. */
  method Step(a: array<Desc>, n: nat, gap: nat, j: nat) returns (moved: bool)
    requires 1 <= gap && j + gap < n <= a.Length
    modifies a
    ensures multiset(a[..n]) == multiset(old(a[..n])) && a[n..] == old(a[n..])
    ensures var s := old(a[..n]);
            && moved == (Compare(s[j], s[j + gap]) > 0)
            && a[..n] == if moved then s[j := s[j + gap]][j + gap := s[j]] else s
  {
    hide Compare;
    moved := Compare(a[j], a[j + gap]) > 0;
    if moved {
      Exchange(a, n, j, j + gap);
    }
  }

  /** The inner loop: the element at `i` moves down in steps of `gap` while it compares smaller. */
  method Sift(a: array<Desc>, n: nat, gap: nat, i: nat)
    requires 1 <= gap <= i < n <= a.Length
    modifies a
    ensures multiset(a[..n]) == multiset(old(a[..n])) && a[n..] == old(a[n..])
    ensures gap == 1 && InTurn(old(a[..n])[..i]) ==> InTurn(a[..n][..i + 1])
  {
    hide AllBut, InTurn, Compare;
    ghost var sifting := gap == 1 && InTurn(a[..n][..i]);
    if sifting { AllButStarts(a[..n], i); }
    var j := i;
    while j >= gap
      invariant 0 <= j <= i
      invariant multiset(a[..n]) == multiset(old(a[..n])) && a[n..] == old(a[n..])
      invariant sifting ==> AllBut(a[..n], j, i)
      decreases j
    {
      ghost var s := a[..n];
      j := j - gap;
      var moved := Step(a, n, gap, j);
      if !moved {
        if sifting { AllButDone(s, j + 1, i); }
        return;
      }
      if sifting { AllButMoves(s, j + 1, i); }
    }
    if sifting { AllButDone(a[..n], j, i); }
  }

  // ----- the passes

  method Pass(a: array<Desc>, n: nat, gap: nat)
    requires 1 <= gap < n <= a.Length
    modifies a
    ensures multiset(a[..n]) == multiset(old(a[..n])) && a[n..] == old(a[n..])
    ensures gap == 1 ==> InTurn(a[..n])
  {
    for i := gap to n
      invariant multiset(a[..n]) == multiset(old(a[..n])) && a[n..] == old(a[n..])
      invariant gap == 1 ==> InTurn(a[..n][..i])
    {
      Sift(a, n, gap, i);
    }
    assert a[..n][..n] == a[..n];
  }

  /** The gaps 1, 4, 13, ...: each is three times the one before and one more. */
  function Gap(k: nat): nat {
    if k == 0 then 0 else 3 * Gap(k - 1) + 1
  }

  /** The first gap, smaller than the number of elements. */
  method FirstGap(n: nat) returns (gap: nat, ghost k: nat)
    requires n > 1
    ensures k > 0 && gap == Gap(k) && 1 <= gap < n
  {
    gap, k := 1, 1;
    while gap < (n - 1) / 3
      invariant k > 0 && gap == Gap(k) && 1 <= gap < n
      decreases n - gap
    {
      gap, k := 3 * gap + 1, k + 1;
    }
  }

  lemma SameElements(s: seq<Desc>, t: seq<Desc>, d: Desc)
    requires multiset(s) == multiset(t)
    ensures d in s <==> d in t
  {
    assert d in s <==> d in multiset(s);
    assert d in t <==> d in multiset(t);
  }

  lemma ComparableElements(s: seq<Desc>, t: seq<Desc>)
    requires multiset(s) == multiset(t) && Comparable(s)
    ensures Comparable(t)
  {
    forall i, j | 0 <= i < |t| && 0 <= j < |t| ensures t[i].start - t[j].start < TWO_64 / 2 {
      SameElements(s, t, t[i]);
      SameElements(s, t, t[j]);
    }
  }

  /** `qsort`: the elements stay and come out in turn; that is address order where the comparison is right. */
  method Qsort(a: array<Desc>, n: nat)
    requires n <= a.Length
    modifies a
    ensures multiset(a[..n]) == multiset(old(a[..n])) && a[n..] == old(a[n..])
    ensures InTurn(a[..n])
    ensures Comparable(old(a[..n])) ==> Sorted(a[..n])
  {
    hide Compare, Comparable, Sorted;
    if n > 1 {
      var gap: nat; ghost var k: nat;
      gap, k := FirstGap(n);
      while gap > 0
        invariant gap == Gap(k) && gap < n
        invariant multiset(a[..n]) == multiset(old(a[..n])) && a[n..] == old(a[n..])
        invariant gap == 0 ==> InTurn(a[..n])
        decreases gap
      {
        Pass(a, n, gap);
        gap, k := (gap - 1) / 3, k - 1;
      }
    }
    if Comparable(old(a[..n])) {
      ComparableElements(old(a[..n]), a[..n]);
      InTurnSorted(a[..n]);
    }
  }

  // ----- the whole function

  /** `efi_build_mem_table`: copy, sort, merge in place, mark the end. */
  method BuildMemTable(descs: seq<Desc>, skipBs: bool) returns (base: array<Desc>, n: nat, ghost sorted: seq<Desc>)
    ensures multiset(sorted) == multiset(descs) && InTurn(sorted) && (Comparable(descs) ==> Sorted(sorted))
    ensures n <= |descs| && base.Length == |descs| + 1 && base[..n] == Merge(sorted, skipBs) && base[n].kind == TABLE_END
  {
    var count := |descs|;
    base := new Desc[count + 1](i => if 0 <= i < count then descs[i] else Desc(0, 0, 0, 0, 0));
    assert base[..count] == descs;
    Qsort(base, count);
    sorted := base[..count];
    n := BuildInPlace(base, count, skipBs);
  }

  /** Descriptors as firmware reports them, in any order: none outside the address space, no address in two of them. */
  ghost predicate Separate(ds: seq<Desc>) {
    && (forall d :: d in ds ==> End(d) <= TWO_64)
    && (forall d :: d in ds && d.pages > 0 ==> multiset(ds)[d] == 1)
    && (forall d, e :: d in ds && e in ds && d != e ==> Disjoint(d, e))
  }

  lemma OnceOnly(s: seq<Desc>, i: nat, j: nat)
    requires i < j < |s| && s[i] == s[j]
    ensures multiset(s)[s[i]] >= 2
  {
    assert s == s[..j] + s[j..];
    assert s[..j][i] == s[i] && s[j..][0] == s[j];
    assert s[i] in multiset(s[..j]) && s[i] in multiset(s[j..]);
  }

  lemma SortedOrdered(descs: seq<Desc>, sorted: seq<Desc>)
    requires Separate(descs) && Sorted(sorted) && multiset(sorted) == multiset(descs)
    ensures Ordered(sorted)
  {
    forall i | 0 <= i < |sorted| ensures sorted[i] in descs && End(sorted[i]) <= TWO_64 {
      SameElements(sorted, descs, sorted[i]);
    }
    forall i, j | 0 <= i < j < |sorted| ensures Disjoint(sorted[i], sorted[j]) {
      if sorted[i] == sorted[j] {
        OnceOnly(sorted, i, j);
      }
    }
    SortedIsOrdered(sorted);
  }

  lemma SameListing(s: seq<Desc>, t: seq<Desc>, a: int, kind: nat, skipBs: bool)
    requires multiset(s) == multiset(t) && ListedAs(s, a, kind, skipBs)
    ensures ListedAs(t, a, kind, skipBs)
  {
    var i :| 0 <= i < |s| && Holds(s[i], a) && Shown(s[i].kind, skipBs) == kind;
    SameElements(s, t, s[i]);
    var j :| 0 <= j < |t| && t[j] == s[i];
  }

  lemma HeldElsewhere(s: seq<Desc>, t: seq<Desc>, a: int, kinds: set<nat>)
    requires multiset(s) == multiset(t) && HeldAs(s, a, kinds)
    ensures HeldAs(t, a, kinds)
  {
    var i :| 0 <= i < |s| && Holds(s[i], a) && s[i].kind in kinds;
    SameElements(s, t, s[i]);
    var j :| 0 <= j < |t| && t[j] == s[i];
  }

  lemma SameHeld(s: seq<Desc>, t: seq<Desc>, a: int, kinds: set<nat>)
    requires multiset(s) == multiset(t)
    ensures HeldAs(s, a, kinds) <==> HeldAs(t, a, kinds)
  {
    if HeldAs(s, a, kinds) { HeldElsewhere(s, t, a, kinds); }
    if HeldAs(t, a, kinds) { HeldElsewhere(t, s, a, kinds); }
  }

  lemma SameTypes(s: seq<Desc>, t: seq<Desc>, out: seq<Desc>)
    requires multiset(s) == multiset(t) && TypesRight(s, out)
    ensures TypesRight(t, out)
  {
    hide HeldAs, Listed;
    forall a: int, kind: nat ensures Listed(out, a, kind) <==>
        if kind == 7 then HeldAs(t, a, {1, 2, 3, 4, 7}) else !(1 <= kind <= 4) && HeldAs(t, a, {kind})
    {
      SameHeld(s, t, a, {1, 2, 3, 4, 7});
      SameHeld(s, t, a, {kind});
    }
  }

  lemma SameEntries(s: seq<Desc>, t: seq<Desc>, out: seq<Desc>)
    requires multiset(s) == multiset(t) && EntriesFrom(s, out)
    ensures EntriesFrom(t, out)
  {
    hide Continues;
    forall e | e in out ensures exists d :: d in t && Continues(d, e) {
      var d :| d in s && Continues(d, e);
      SameElements(s, t, d);
    }
  }

  /**
   The table built from any separate descriptors gives every address the type it was reported
   with (loader and boot services, 1 to 4, shown as 7), with the virtual addresses and attributes
   reported, in order and merged as far as it can be; without skipping it is the sorted map.
   */
  lemma TablePreserves(descs: seq<Desc>, sorted: seq<Desc>)
    requires Separate(descs) && Sorted(sorted) && multiset(sorted) == multiset(descs)
    ensures Ordered(Merge(sorted, true)) && Compact(Merge(sorted, true))
    ensures forall a, kind :: Listed(Merge(sorted, true), a, kind) <==> ListedAs(descs, a, kind, true)
    ensures TypesRight(descs, Merge(sorted, true)) && EntriesFrom(descs, Merge(sorted, true))
    ensures Merge(sorted, false) == sorted
  {
    hide MergeFrom, Listed, Continues;
    SortedOrdered(descs, sorted);
    MergePreserves(sorted);
    SameEntries(sorted, descs, Merge(sorted, true));
    SameTypes(sorted, descs, Merge(sorted, true));
    forall a, kind ensures Listed(Merge(sorted, true), a, kind) <==> ListedAs(descs, a, kind, true) {
      if ListedAs(descs, a, kind, true) { SameListing(descs, sorted, a, kind, true); }
      if ListedAs(sorted, a, kind, true) { SameListing(sorted, descs, a, kind, true); }
    }
    NothingMerged([], 0, sorted);
    assert [] + sorted == sorted;
  }
}

/**
 The EFI memory map of `efi_build_mem_table`: sorted by address, boot-services memory shown as
 conventional (section 7.2 of the UEFI Specification 2.7), and neighbours merged in place.
 */
module EfiMap {
  import opened Machine
  import opened Sequences

  const LOADER_CODE: nat := 1
  const LOADER_DATA: nat := 2
  const BOOT_SERVICES_CODE: nat := 3
  const BOOT_SERVICES_DATA: nat := 4
  const CONVENTIONAL: nat := 7
  const TABLE_END: nat := 15

  datatype Desc = Desc(kind: nat, start: u64, virt: u64, pages: u64, attribute: u64)

  predicate IsBootServices(kind: nat) {
    kind == LOADER_CODE || kind == LOADER_DATA || kind == BOOT_SERVICES_CODE || kind == BOOT_SERVICES_DATA
  }

  function Shown(kind: nat, skipBs: bool): nat {
    if skipBs && IsBootServices(kind) then CONVENTIONAL else kind
  }

  // ----- the comparison handed to qsort

  /** A 64-bit difference read as a signed number. */
  function SignedDifference(a: u64, b: u64): int {
    var d := if a >= b then a - b else a - b + TWO_64;
    if d < TWO_64 / 2 then d else d - TWO_64
  }

  function Compare(a: Desc, b: Desc): int {
    var diff := SignedDifference(a.start, b.start);
    if diff < 0 then -1 else if diff > 0 then 1 else 0
  }

  function Sign(x: int): int {
    if x < 0 then -1 else if x > 0 then 1 else 0
  }

  /** The comparison orders two descriptors by address exactly when they are less than 2^63 apart (or 2^63 below). */
  lemma CompareExact(a: Desc, b: Desc)
    ensures Compare(a, b) == Sign(a.start - b.start) <==> -(TWO_64 / 2) <= a.start - b.start < TWO_64 / 2
  {
  }

  // ----- merging

  /** The address behind a descriptor, in 64-bit arithmetic. */
  function AddressBehind(d: Desc): u64 {
    (d.start + d.pages * 4096) % TWO_64
  }

  function Last(out: seq<Desc>): Desc
    requires out != []
  {
    out[|out| - 1]
  }

  predicate Merges(out: seq<Desc>, addr: u64, d: Desc, skipBs: bool) {
    && skipBs && out != [] && d.start == addr
    && Shown(d.kind, skipBs) == CONVENTIONAL && Last(out).kind == CONVENTIONAL
  }

  function Grow(out: seq<Desc>, pages: u64): seq<Desc>
    requires out != []
  {
    out[|out| - 1 := Last(out).(pages := (Last(out).pages + pages) % TWO_64)]
  }

  /** What is written after one more descriptor. */
  function Next(out: seq<Desc>, addr: u64, d: Desc, skipBs: bool): seq<Desc> {
    if Merges(out, addr, d, skipBs) then Grow(out, d.pages) else out + [d.(kind := Shown(d.kind, skipBs))]
  }

  /** The loop over the descriptors still to come, with `out` written so far. */
  function MergeFrom(out: seq<Desc>, addr: u64, ds: seq<Desc>, skipBs: bool): seq<Desc>
    decreases |ds|
  {
    if ds == [] then out
    else
      var d := ds[0];
      MergeFrom(Next(out, addr, d, skipBs), AddressBehind(d), ds[1..], skipBs)
  }

  lemma MergeStep(out: seq<Desc>, addr: u64, ds: seq<Desc>, skipBs: bool)
    requires ds != []
    ensures MergeFrom(out, addr, ds, skipBs) == MergeFrom(Next(out, addr, ds[0], skipBs), AddressBehind(ds[0]), ds[1..], skipBs)
  {
  }

  lemma MergeNothing(out: seq<Desc>, addr: u64, skipBs: bool)
    ensures MergeFrom(out, addr, [], skipBs) == out
  {
  }

  function Merge(ds: seq<Desc>, skipBs: bool): seq<Desc> {
    MergeFrom([], 0, ds, skipBs)
  }

  // ----- the code

  /**
   The loop of `efi_build_mem_table` on the sorted copy: reader and writer move through the same
   array, which has one slot to spare for the end mark.
   */
  method BuildInPlace(base: array<Desc>, count: nat, skipBs: bool) returns (n: nat)
    requires count + 1 <= base.Length
    modifies base
    ensures n <= count && base[..n] == Merge(old(base[..count]), skipBs)
    ensures base[n].kind == TABLE_END
  {
    hide MergeFrom, AddressBehind;
    var addr: u64, dest := 0, 0;
    ghost var input := base[..count];
    assert base[..0] == [] && input[0..] == input;
    for desc := 0 to count
      invariant dest <= desc
      invariant forall j :: desc <= j < count ==> base[j] == input[j]
      invariant Merge(input, skipBs) == MergeFrom(base[..dest], addr, input[desc..], skipBs)
    {
      var d := base[desc];
      ghost var out := base[..dest];
      assert d == input[desc] && input[desc..][0] == d && input[desc..][1..] == input[desc + 1..];
      MergeStep(out, addr, input[desc..], skipBs);
      var kind := Shown(d.kind, skipBs);
      base[dest] := d.(kind := kind);
      assert base[..dest] == out;
      var merge := skipBs && dest > 0 && d.start == addr && kind == CONVENTIONAL && base[dest - 1].kind == CONVENTIONAL;
      if merge {
        base[dest - 1] := base[dest - 1].(pages := (base[dest - 1].pages + d.pages) % TWO_64);
        assert base[..dest] == Grow(out, d.pages);
      } else {
        dest := dest + 1;
        assert base[..dest] == out + [d.(kind := kind)];
      }
      addr := AddressBehind(d);
    }
    MergeNothing(base[..dest], addr, skipBs);
    n := dest;
    base[n] := base[n].(kind := TABLE_END);
    assert base[..n] == Merge(input, skipBs);
  }

  // ----- what the table means

  function End(d: Desc): int {
    d.start + d.pages * 4096
  }

  ghost predicate Holds(d: Desc, a: int) {
    d.start <= a < End(d)
  }

  /** `d` comes before `e` and no address is in both; either may have no pages at all. */
  ghost predicate Precedes(d: Desc, e: Desc) {
    d.start <= e.start && (d.pages == 0 || e.pages == 0 || End(d) <= e.start)
  }

  /** In address order without overlap, and inside the address space. */
  ghost predicate Ordered(ds: seq<Desc>) {
    && (forall i :: 0 <= i < |ds| ==> End(ds[i]) <= TWO_64)
    && (forall i, j :: 0 <= i < j < |ds| ==> Precedes(ds[i], ds[j]))
  }

  ghost predicate Disjoint(a: Desc, b: Desc) {
    forall x :: !(Holds(a, x) && Holds(b, x))
  }

  /** Sorted and pairwise disjoint descriptors are in order. */
  lemma SortedIsOrdered(ds: seq<Desc>)
    requires forall i :: 0 <= i < |ds| ==> End(ds[i]) <= TWO_64
    requires forall i, j :: 0 <= i < j < |ds| ==> ds[i].start <= ds[j].start && Disjoint(ds[i], ds[j])
    ensures Ordered(ds)
  {
    forall i, j | 0 <= i < j < |ds| ensures Precedes(ds[i], ds[j]) {
      assert !(Holds(ds[i], ds[j].start) && Holds(ds[j], ds[j].start));
    }
  }

  /** Address `a` is listed with type `kind`. */
  ghost predicate Listed(ds: seq<Desc>, a: int, kind: nat) {
    exists i :: 0 <= i < |ds| && Holds(ds[i], a) && ds[i].kind == kind
  }

  /** The same, once boot-services types are shown as conventional. */
  ghost predicate ListedAs(ds: seq<Desc>, a: int, kind: nat, skipBs: bool) {
    exists i :: 0 <= i < |ds| && Holds(ds[i], a) && Shown(ds[i].kind, skipBs) == kind
  }

  ghost predicate Compact(ds: seq<Desc>) {
    forall i :: 0 < i < |ds| ==>
      !(ds[i - 1].kind == CONVENTIONAL && ds[i].kind == CONVENTIONAL && End(ds[i - 1]) == ds[i].start)
  }

  /** What is written so far comes before what is still to come, and `addr` is where it ends. */
  ghost predicate Below(out: seq<Desc>, addr: u64, ds: seq<Desc>) {
    && Ordered(out) && Ordered(ds)
    && (out != [] ==> addr == End(Last(out)) % TWO_64)
    && (forall i, j :: 0 <= i < |out| && 0 <= j < |ds| ==> Precedes(out[i], ds[j]))
  }

  /** A merged descriptor grows by the pages of the other, which lie right behind it (or are none). */
  lemma GrowExact(out: seq<Desc>, addr: u64, d: Desc)
    requires out != [] && Precedes(Last(out), d) && d.start == addr && addr == End(Last(out)) % TWO_64
    requires End(d) <= TWO_64 && End(Last(out)) <= TWO_64
    ensures Grow(out, d.pages) == out[|out| - 1 := Last(out).(pages := Last(out).pages + d.pages)]
    ensures d.pages == 0 || End(Last(out)) == d.start
    ensures End(Last(Grow(out, d.pages))) == End(Last(out)) + d.pages * 4096 <= TWO_64
    ensures AddressBehind(d) == End(Last(Grow(out, d.pages))) % TWO_64
  {
  }

  lemma MergedPrecedes(out: seq<Desc>, addr: u64, ds: seq<Desc>)
    requires ds != [] && Below(out, addr, ds) && out != [] && ds[0].start == addr
    ensures Ordered(Grow(out, ds[0].pages))
    ensures forall i, j :: 0 <= i < |out| && 0 < j < |ds| ==> Precedes(Grow(out, ds[0].pages)[i], ds[j])
  {
    var d, n := ds[0], |out|;
    GrowExact(out, addr, d);
    var next := Grow(out, d.pages);
    assert forall i :: 0 <= i < n - 1 ==> next[i] == out[i];
    forall j | 0 < j < |ds| ensures Precedes(next[n - 1], ds[j]) {
      assert Precedes(out[n - 1], ds[j]) && Precedes(d, ds[j]);
    }
    forall i | 0 <= i < n - 1 ensures Precedes(next[i], next[n - 1]) {
      assert Precedes(out[i], out[n - 1]) && Precedes(out[i], d);
    }
  }

  lemma StepKeepsBelow(out: seq<Desc>, addr: u64, ds: seq<Desc>, skipBs: bool)
    requires ds != [] && Below(out, addr, ds)
    ensures Below(Next(out, addr, ds[0], skipBs), AddressBehind(ds[0]), ds[1..])
  {
    var d := ds[0];
    if Merges(out, addr, d, skipBs) {
      hide Precedes;
      GrowExact(out, addr, d);
      MergedPrecedes(out, addr, ds);
    }
  }

  /** One step lists exactly the addresses of one more descriptor. */
  lemma StepListing(out: seq<Desc>, addr: u64, ds: seq<Desc>, skipBs: bool, a: int, kind: nat)
    requires ds != [] && Below(out, addr, ds)
    ensures Listed(Next(out, addr, ds[0], skipBs), a, kind)
            <==> Listed(out, a, kind) || (Holds(ds[0], a) && Shown(ds[0].kind, skipBs) == kind)
  {
    var d := ds[0];
    var n := |out|;
    if Merges(out, addr, d, skipBs) {
      GrowExact(out, addr, d);
      var next := Grow(out, d.pages);
      assert Holds(next[n - 1], a) <==> Holds(out[n - 1], a) || Holds(d, a);
      assert forall i :: 0 <= i < n - 1 ==> next[i] == out[i];
    } else {
      var next := out + [d.(kind := Shown(d.kind, skipBs))];
      assert next[n].kind == Shown(d.kind, skipBs) && (Holds(next[n], a) <==> Holds(d, a));
      assert forall i :: 0 <= i < n ==> next[i] == out[i];
    }
  }

  lemma {:induction false} MergeListing(out: seq<Desc>, addr: u64, ds: seq<Desc>, skipBs: bool, a: int, kind: nat)
    requires Below(out, addr, ds)
    ensures Ordered(MergeFrom(out, addr, ds, skipBs))
    ensures Listed(MergeFrom(out, addr, ds, skipBs), a, kind) <==> Listed(out, a, kind) || ListedAs(ds, a, kind, skipBs)
    decreases |ds|
  {
    if ds != [] {
      var d, rest := ds[0], ds[1..];
      StepKeepsBelow(out, addr, ds, skipBs);
      StepListing(out, addr, ds, skipBs, a, kind);
      MergeListing(Next(out, addr, d, skipBs), AddressBehind(d), rest, skipBs, a, kind);
      FirstOrRest(ds, a, kind, skipBs);
    }
  }

  lemma FirstOrRest(ds: seq<Desc>, a: int, kind: nat, skipBs: bool)
    requires ds != []
    ensures ListedAs(ds, a, kind, skipBs)
            <==> (Holds(ds[0], a) && Shown(ds[0].kind, skipBs) == kind) || ListedAs(ds[1..], a, kind, skipBs)
  {
    var rest := ds[1..];
    if ListedAs(rest, a, kind, skipBs) {
      var i :| 0 <= i < |rest| && Holds(rest[i], a) && Shown(rest[i].kind, skipBs) == kind;
      assert ds[i + 1] == rest[i];
    }
    if ListedAs(ds, a, kind, skipBs) {
      var i :| 0 <= i < |ds| && Holds(ds[i], a) && Shown(ds[i].kind, skipBs) == kind;
      if i > 0 { assert rest[i - 1] == ds[i]; }
    }
  }

  lemma StepCompact(out: seq<Desc>, addr: u64, ds: seq<Desc>)
    requires ds != [] && Below(out, addr, ds) && Compact(out)
    ensures Compact(Next(out, addr, ds[0], true))
  {
    var d, n := ds[0], |out|;
    if Merges(out, addr, d, true) {
      GrowExact(out, addr, d);
    } else if n > 0 {
      assert End(Last(out)) <= TWO_64;
    }
  }

  lemma {:induction false} MergeCompact(out: seq<Desc>, addr: u64, ds: seq<Desc>)
    requires Below(out, addr, ds) && Compact(out)
    ensures Compact(MergeFrom(out, addr, ds, true))
    decreases |ds|
  {
    if ds != [] {
      StepKeepsBelow(out, addr, ds, true);
      StepCompact(out, addr, ds);
      MergeCompact(Next(out, addr, ds[0], true), AddressBehind(ds[0]), ds[1..]);
    }
  }

  // ----- the types by number

  /** A descriptor of one of these types holds the address. */
  ghost predicate HeldAs(ds: seq<Desc>, a: int, kinds: set<nat>) {
    exists i :: 0 <= i < |ds| && Holds(ds[i], a) && ds[i].kind in kinds
  }

  /**
   The types of table `out` against those reported in `ds`: loader code and data (1, 2), boot
   services code and data (3, 4) and conventional memory (7) are listed as 7, the first four as
   nothing else, and every other type as itself.
   */
  ghost predicate TypesRight(ds: seq<Desc>, out: seq<Desc>) {
    forall a: int, kind: nat {:trigger Listed(out, a, kind)} ::
      Listed(out, a, kind) <==>
        if kind == 7 then HeldAs(ds, a, {1, 2, 3, 4, 7}) else !(1 <= kind <= 4) && HeldAs(ds, a, {kind})
  }

  lemma NothingListed(a: int, kind: nat)
    ensures !Listed([], a, kind)
  {
  }

  lemma ShownByNumber(ds: seq<Desc>, a: int, kind: nat)
    ensures ListedAs(ds, a, kind, true) <==>
              if kind == 7 then HeldAs(ds, a, {1, 2, 3, 4, 7}) else !(1 <= kind <= 4) && HeldAs(ds, a, {kind})
  {
  }

  /** Every entry of the table is a reported descriptor, its type shown as it should be, perhaps with more pages. */
  ghost predicate EntriesFrom(ds: seq<Desc>, out: seq<Desc>) {
    forall e :: e in out ==> exists d :: d in ds && Continues(d, e)
  }

  ghost predicate Continues(d: Desc, e: Desc) {
    e.start == d.start && e.virt == d.virt && e.attribute == d.attribute && e.pages >= d.pages
    && e.kind == if 1 <= d.kind <= 4 then 7 else d.kind
  }

  lemma StepEntries(all: seq<Desc>, out: seq<Desc>, addr: u64, ds: seq<Desc>)
    requires ds != [] && ds[0] in all && Below(out, addr, ds) && EntriesFrom(all, out)
    ensures EntriesFrom(all, Next(out, addr, ds[0], true))
  {
    var d, next := ds[0], Next(out, addr, ds[0], true);
    if Merges(out, addr, d, true) { GrowExact(out, addr, d); }
    forall e | e in next ensures exists d :: d in all && Continues(d, e) {
      if e !in out {
        if Merges(out, addr, d, true) {
          assert Last(out) in out;
          var f :| f in all && Continues(f, Last(out));
          assert Continues(f, e);
        } else {
          assert Continues(d, e);
        }
      }
    }
  }

  lemma {:induction false} MergeEntries(all: seq<Desc>, out: seq<Desc>, addr: u64, ds: seq<Desc>)
    requires Below(out, addr, ds) && EntriesFrom(all, out) && forall d :: d in ds ==> d in all
    ensures EntriesFrom(all, MergeFrom(out, addr, ds, true))
    decreases |ds|
  {
    hide Below, EntriesFrom, Next;
    if ds != [] {
      StepKeepsBelow(out, addr, ds, true);
      StepEntries(all, out, addr, ds);
      MergeEntries(all, Next(out, addr, ds[0], true), AddressBehind(ds[0]), ds[1..]);
    }
  }

  /**
   With boot services skipped, every address has the type it had before once boot-services types
   are shown as conventional, the table stays in order, no two touching neighbours are both
   conventional, and virtual addresses and attributes are those reported for the same start.
   */
  lemma MergePreserves(ds: seq<Desc>)
    requires Ordered(ds)
    ensures Ordered(Merge(ds, true)) && Compact(Merge(ds, true))
    ensures forall a, kind :: Listed(Merge(ds, true), a, kind) <==> ListedAs(ds, a, kind, true)
    ensures TypesRight(ds, Merge(ds, true)) && EntriesFrom(ds, Merge(ds, true))
  {
    hide MergeFrom, Listed, ListedAs;
    MergeListing([], 0, ds, true, 0, 0);
    MergeCompact([], 0, ds);
    MergeEntries(ds, [], 0, ds);
    forall a: int, kind: nat ensures Listed(Merge(ds, true), a, kind) <==>
        if kind == 7 then HeldAs(ds, a, {1, 2, 3, 4, 7}) else !(1 <= kind <= 4) && HeldAs(ds, a, {kind})
    {
      MergeListing([], 0, ds, true, a, kind);
      NothingListed(a, kind);
      ShownByNumber(ds, a, kind);
    }
    forall a, kind ensures Listed(Merge(ds, true), a, kind) <==> ListedAs(ds, a, kind, true) {
      MergeListing([], 0, ds, true, a, kind);
      NothingListed(a, kind);
    }
  }

  /** Without skipping, the table is the sorted input, unchanged. */
  lemma {:induction false} NothingMerged(out: seq<Desc>, addr: u64, ds: seq<Desc>)
    ensures MergeFrom(out, addr, ds, false) == out + ds
    decreases |ds|
  {
    if ds == [] {
      assert out + ds == out;
    } else {
      NothingMerged(out + [ds[0]], AddressBehind(ds[0]), ds[1..]);
      MoveHead(out, ds);
    }
  }
}

/** The checksum over an ARM flash image footer: a 32-bit sum with end-around carry, inverted. */
module FooterChecksum {
  import opened Machine
  import opened Arithmetic

  const ONES: u32 := TWO_32 - 1

  /** `if (val > ~sum) sum++; sum += val;` in 32-bit arithmetic. */
  function Add(sum: u32, val: u32): u32 {
    var carried := if val > ONES - sum then Wrap(sum + 1) else sum;
    Wrap(carried as int + val as int)
  }

  function SumOf(words: seq<u32>): u32 {
    if words == [] then 0 else Add(SumOf(words[..|words| - 1]), words[|words| - 1])
  }

  function Crc(words: seq<u32>): u32 {
    ONES - SumOf(words)
  }

  /** `compute_crc`; a length that is no multiple of four is reported as zero, the value of a good footer. */
  method ComputeCrc(words: seq<u32>, len: nat) returns (crc: u32)
    requires |words| == len / 4
    ensures crc == if len % 4 != 0 then 0 else Crc(words)
  {
    if len % 4 != 0 { return 0; }
    var sum: u32 := 0;
    for i := 0 to |words|
      invariant sum == SumOf(words[..i])
    {
      var val := words[i];
      var next: int := sum;
      if val > ONES - sum { next := Wrap(sum + 1); }
      assert words[..i + 1][..i] == words[..i];
      sum := Wrap(next + val as int);
    }
    assert words[..|words|] == words;
    crc := ONES - sum;
  }

  // ----- the sum is a residue modulo 2^32 - 1, with zero kept apart

  function Total(words: seq<u32>): nat {
    if words == [] then 0 else Total(words[..|words| - 1]) + words[|words| - 1]
  }

  /** Zero only for zero; otherwise the residue in 1 .. 2^32 - 1. */
  function Residue(t: nat): u32 {
    if t == 0 then 0 else (t - 1) % (TWO_32 - 1) + 1
  }

  lemma ModStep(x: nat, v: u32)
    ensures var m, r := TWO_32 - 1, x % (TWO_32 - 1);
            (x + v) % m == if r + v < m then r + v else r + v - m
  {
    var m, q, r := TWO_32 - 1, x / (TWO_32 - 1), x % (TWO_32 - 1);
    if r + v < m {
      DivMod(m, q, r + v);
    } else {
      DivMod(m, q + 1, r + v - m);
    }
  }

  lemma AddResidue(t: nat, val: u32)
    ensures Add(Residue(t), val) == Residue(t + val)
  {
    if t > 0 {
      ModStep(t - 1, val);
      assert t - 1 + val == t + val - 1;
    } else if val > 0 {
      DivMod(TWO_32 - 1, 0, val - 1);
    }
  }

  lemma {:induction false} SumIsResidue(words: seq<u32>)
    ensures SumOf(words) == Residue(Total(words))
    decreases |words|
  {
    if words != [] {
      var init := words[..|words| - 1];
      SumIsResidue(init);
      AddResidue(Total(init), words[|words| - 1]);
    }
  }

  lemma {:induction false} TotalConcat(a: seq<u32>, b: seq<u32>)
    ensures Total(a + b) == Total(a) + Total(b)
    decreases |b|
  {
    if b == [] {
      assert a + b == a;
    } else {
      var init := b[..|b| - 1];
      assert (a + b)[..|a + b| - 1] == a + init;
      TotalConcat(a, init);
    }
  }

  lemma TotalOne(w: u32)
    ensures Total([w]) == w
  {
    assert [w][..0] == [];
  }

  lemma TotalAround(a: seq<u32>, w: u32, b: seq<u32>)
    ensures Total(a + [w] + b) == Total(a + b) + w
  {
    TotalConcat(a + [w], b);
    TotalConcat(a, [w]);
    TotalConcat(a, b);
    TotalOne(w);
  }

  // ----- consequences

  /** The checksum depends on the words and not on their order. */
  lemma OrderIrrelevant(a: seq<u32>, b: seq<u32>)
    requires multiset(a) == multiset(b)
    ensures Crc(a) == Crc(b)
  {
    SameTotal(a, b);
    SumIsResidue(a);
    SumIsResidue(b);
  }

  lemma {:induction false} SameTotal(a: seq<u32>, b: seq<u32>)
    requires multiset(a) == multiset(b)
    ensures Total(a) == Total(b)
    decreases |a|
  {
    if a == [] {
      assert |multiset(b)| == |b|;
    } else {
      var w := a[|a| - 1];
      assert w in multiset(a);
      var k :| 0 <= k < |b| && b[k] == w;
      var a', b' := a[..|a| - 1], b[..k] + b[k + 1..];
      assert a == a' + [w];
      assert b == b[..k] + [w] + b[k + 1..];
      assert multiset(b') == multiset(b) - multiset{w};
      assert multiset(a') == multiset(a) - multiset{w};
      SameTotal(a', b');
      TotalAround(b[..k], w, b[k + 1..]);
    }
  }

  /** Inserting the inverse of the other words' sum, anywhere, makes the checksum zero. */
  lemma InverseMakesZero(a: seq<u32>, b: seq<u32>)
    ensures Crc(a + [Crc(a + b)] + b) == 0
  {
    var w := Crc(a + b);
    SumIsResidue(a + b);
    SumIsResidue(a + [w] + b);
    TotalAround(a, w, b);
    AddResidue(Total(a + b), w);
  }

  /** Changing one word goes unnoticed exactly between 0 and all ones, beside a word that is not zero. */
  lemma ChangeDetected(a: seq<u32>, b: seq<u32>, w: u32, w': u32)
    ensures Crc(a + [w] + b) == Crc(a + [w'] + b) <==>
            w == w' || (w in {0, ONES} && w' in {0, ONES} && Total(a + b) > 0)
  {
    hide Residue, Total;
    TotalAround(a, w, b);
    TotalAround(a, w', b);
    SumIsResidue(a + [w] + b);
    SumIsResidue(a + [w'] + b);
    ResidueApart(Total(a + b), w, w');
  }

  lemma ResidueApart(t: nat, w: u32, w': u32)
    ensures Residue(t + w) == Residue(t + w') <==>
            w == w' || (w in {0, ONES} && w' in {0, ONES} && t > 0)
  {
    AddResidue(t, w);
    AddResidue(t, w');
  }

  lemma {:induction false} TotalZero(words: seq<u32>)
    ensures Total(words) == 0 <==> forall i :: 0 <= i < |words| ==> words[i] == 0
    decreases |words|
  {
    if words != [] {
      var init := words[..|words| - 1];
      TotalZero(init);
      assert forall i :: 0 <= i < |init| ==> words[i] == init[i];
    }
  }
}

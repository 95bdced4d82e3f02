/** Regrouping of joined sequences, and the sum of a byte sequence. */
module Sequences {
  import opened Machine

  /** Moving the head of a list over to what has been dealt with. */
  lemma MoveHead<T>(done: seq<T>, todo: seq<T>)
    requires todo != []
    ensures done + [todo[0]] + todo[1..] == done + todo
  {
  }

  lemma NothingBefore<T>(s: seq<T>)
    ensures [] + s == s
  {
  }

  lemma Associate<T>(a: seq<T>, b: seq<T>, c: seq<T>)
    ensures a + b + c == a + (b + c)
  {
  }

  lemma Regroup<T>(a: seq<T>, b: seq<T>, c: seq<T>, d: seq<T>)
    ensures a + b + c + d == a + (b + (c + d)) == a + (b + c + d)
  {
  }

  lemma RegroupFive<T>(a: seq<T>, b: seq<T>, c: seq<T>, d: seq<T>, e: seq<T>)
    ensures a + b + c + d + e == a + (b + (c + (d + e)))
  {
  }

  lemma Slices<T>(s: seq<T>, a: nat, b: nat, c: nat)
    requires a <= b <= c <= |s|
    ensures s[a..c] == s[a..b] + s[b..c]
  {
  }

  // ----- sums

  function Sum(bs: seq<byte>): nat {
    if bs == [] then 0 else bs[0] + Sum(bs[1..])
  }

  lemma {:induction false} SumConcat(a: seq<byte>, b: seq<byte>)
    ensures Sum(a + b) == Sum(a) + Sum(b)
    decreases |a|
  {
    if a == [] {
      assert a + b == b;
    } else {
      assert (a + b)[1..] == a[1..] + b;
      SumConcat(a[1..], b);
    }
  }

  lemma SumTwo(a: byte, b: byte)
    ensures Sum([a, b]) == a as int + b as int
  {
    assert [a, b][1..] == [b];
    assert Sum([b]) == b;
  }
}

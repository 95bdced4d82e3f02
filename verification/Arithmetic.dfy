/** Products, quotients and remainders of variables, one fact at a time. */
module Arithmetic {

  lemma DivMod(e: nat, q: nat, r: nat)
    requires r < e
    ensures (e * q + r) / e == q && (e * q + r) % e == r
  {
    var x := e * q + r;
    var d := x / e - q;
    assert e * d == e * (x / e) - e * q == r - x % e;
    assert d >= 1 ==> e * d >= e;
    assert d <= -1 ==> e * d <= 0 - e;
  }

  /** `x` as quotient and remainder, with no product of two variables left for the caller. */
  lemma Divide(x: nat, e: nat)
    requires e > 0
    ensures x == (x / e) * e + x % e && x / e >= 0
  {
  }

  lemma QuotientAtMost(n: nat, d: nat)
    requires d > 0
    ensures n / d <= n
  {
    Bounded(n / d, d, n % d, n);
  }

  /** A quotient that is known not to exceed what it is taken of. */
  function Divided(n: nat, d: nat): (q: nat)
    requires d > 0
    ensures q <= n
  {
    QuotientAtMost(n, d);
    n / d
  }

  lemma Bounded(q: int, d: nat, r: nat, n: nat)
    requires n == q * d + r && r < d
    ensures 0 <= q <= n
  {
  }

  lemma Divides(n: nat, d: nat)
    requires d > 0
    ensures n * d / d == n
  {
    DivMod(d, n, 0);
    assert d * n + 0 == n * d;
  }

  lemma Distribute(e: nat, q: nat, p: nat)
    ensures e * (q + p) == q * e + p * e
  {
  }

  lemma MulMonotone(a: nat, b: nat, c: nat)
    requires a <= b
    ensures a * c <= b * c
  {
    assert b * c == a * c + (b - a) * c;
  }
}

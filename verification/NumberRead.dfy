/** Numbers as anyone may write them: decimal, octal and hexadecimal, either case of digits, with a unit. */
module NumberRead {
  import opened Machine
  import opened NumberText

  predicate DigitIs(c: char, d: nat)
    requires d < 16
  {
    c == "0123456789abcdef"[d] || c == "0123456789ABCDEF"[d]
  }

  predicate Spells(s: string, ds: seq<nat>, base: radix) {
    |s| == |ds| && forall i :: 0 <= i < |ds| ==> ds[i] < base && DigitIs(s[i], ds[i])
  }

  /** Digits from the most significant one on. */
  function ValueFrom(acc: nat, ds: seq<nat>, base: radix): nat
    decreases |ds|
  {
    if ds == [] then acc else ValueFrom(acc * base + ds[0], ds[1..], base)
  }

  /** A decimal number does not start with 0, an octal one does, and a hexadecimal one starts with 0x or 0X. */
  predicate Writes(s: string, ds: seq<nat>, base: radix) {
    if base == 10 then ds != [] && ds[0] != 0 && Spells(s, ds, 10)
    else if base == 8 then s != [] && s[0] == '0' && Spells(s[1..], ds, 8)
    else |s| > 2 && s[0] == '0' && (s[1] == 'x' || s[1] == 'X') && Spells(s[2..], ds, 16)
  }

  /** Text that cannot be taken for more of a number. */
  predicate Ends(rest: string) {
    rest != [] ==> !IsXDigit(rest[0]) && rest[0] != 'x' && rest[0] != 'X'
  }

  lemma DigitRead(c: char, d: nat)
    requires d < 16 && DigitIs(c, d)
    ensures IsXDigit(c) && DigitValue(c) == d && c != 'x' && c != 'X'
    ensures c == '0' <==> d == 0
  {
  }

  lemma AccumulateTurns(acc: nat, base: radix, d: nat)
    ensures Accumulate(acc % TWO_64, base, d) == (acc * base + d) % TWO_64
  {
    var q, r := acc / TWO_64, acc % TWO_64;
    WholeTurns(Times(r, base) + d, Times(q, base));
    assert acc == TWO_64 * q + r;
    assert Times(r, base) + d + TWO_64 * Times(q, base) == acc * base + d;
  }

  lemma OneRead(c: char, d: nat, base: radix, acc: nat, rest: string)
    requires d < base && DigitIs(c, d)
    ensures Digits([c] + rest, base, acc % TWO_64) == Digits(rest, base, (acc * base + d) % TWO_64)
  {
    hide Accumulate, DigitIs;
    var s := [c] + rest;
    assert s[0] == c && s[1..] == rest;
    DigitRead(c, d);
    AccumulateTurns(acc, base, d);
  }

  lemma {:induction false} DigitsRead(s: string, ds: seq<nat>, base: radix, acc: nat, rest: string)
    requires Spells(s, ds, base) && Ends(rest)
    ensures Digits(s + rest, base, acc % TWO_64) == Parsed(ValueFrom(acc, ds, base) % TWO_64, rest)
    decreases |ds|
  {
    hide DigitIs;
    if ds == [] {
      assert s + rest == rest;
    } else {
      hide Digits;
      assert s + rest == [s[0]] + (s[1..] + rest);
      OneRead(s[0], ds[0], base, acc, s[1..] + rest);
      DigitsRead(s[1..], ds[1..], base, acc * base + ds[0], rest);
    }
  }

  /** `simple_strtoull` with base 0 takes the whole number, modulo 2^64, whatever its base. */
  lemma NumberTaken(s: string, ds: seq<nat>, base: radix, rest: string)
    requires Writes(s, ds, base) && Ends(rest)
    ensures Strtoull(s + rest) == Parsed(ValueFrom(0, ds, base) % TWO_64, rest)
  {
    hide Digits, ValueFrom;
    var t := s + rest;
    if base == 10 {
      DigitRead(s[0], ds[0]);
      DigitsRead(s, ds, base, 0, rest);
    } else if base == 8 {
      assert t == ['0'] + (s[1..] + rest);
      if |s| > 1 { DigitRead(s[1..][0], ds[0]); }
      assert |t| > 1 ==> t[1] == if |s| > 1 then s[1] else rest[0];
      LeadingZero(s[1..], ds, rest);
    } else {
      assert t[2..] == s[2..] + rest;
      DigitRead(s[2..][0], ds[0]);
      DigitsRead(s[2..], ds, base, 0, rest);
    }
  }

  lemma LeadingZero(s: string, ds: seq<nat>, rest: string)
    requires Spells(s, ds, 8) && Ends(rest)
    ensures Digits(['0'] + (s + rest), 8, 0) == Parsed(ValueFrom(0, ds, 8) % TWO_64, rest)
    ensures ['0'] + (s + rest) == ['0'] + s + rest
  {
    var t := ['0'] + (s + rest);
    assert t[0] == '0' && t[1..] == s + rest;
    assert Accumulate(0, 8, 0) == 0;
    DigitsRead(s, ds, 8, 0, rest);
  }

  lemma ScaleTurns(v: nat, scale: nat)
    ensures (v % TWO_64) * scale % TWO_64 == v * scale % TWO_64
  {
    var q, r := v / TWO_64, v % TWO_64;
    WholeTurns(r * scale, q * scale);
    assert v * scale == r * scale + TWO_64 * (q * scale) by { assert v == r + TWO_64 * q; Spread(r, q, scale); }
  }

  lemma Spread(r: nat, q: nat, scale: nat)
    ensures (r + TWO_64 * q) * scale == r * scale + TWO_64 * (q * scale)
  {
  }

  /** The units of `memsize_parse`. */
  predicate IsUnit(unit: string, scale: nat) {
    || (scale == 1 && unit == "")
    || (scale == 1024 && (unit == "k" || unit == "K"))
    || (scale == 1024 * 1024 && (unit == "m" || unit == "M"))
    || (scale == 1024 * 1024 * 1024 && (unit == "g" || unit == "G"))
  }

  /** A size in any base with any unit is read as so many bytes, modulo 2^64. */
  lemma SizeTaken(s: string, ds: seq<nat>, base: radix, unit: string, scale: nat, rest: string)
    requires Writes(s, ds, base) && IsUnit(unit, scale) && Delimited(rest) && Ends(rest)
    ensures MemsizeParse(s + (unit + rest)) == Parsed(ValueFrom(0, ds, base) * scale % TWO_64, rest)
  {
    hide ValueFrom, Strtoull, Writes;
    NumberTaken(s, ds, base, unit + rest);
    ScaleTurns(ValueFrom(0, ds, base), scale);
    if unit == "" {
      assert unit + rest == rest;
    } else {
      assert (unit + rest)[0] == unit[0] && (unit + rest)[1..] == rest;
    }
  }
}

/** Numbers as text: `simple_strtoull` with base 0, the suffixes of `memsize_parse`, and the formats printed. */
module NumberText {
  import opened Machine

  /** A number and the text behind it. */
  datatype Parsed = Parsed(value: u64, rest: string)

  predicate IsDigit(c: char) {
    '0' <= c <= '9'
  }

  predicate IsXDigit(c: char) {
    IsDigit(c) || 'a' <= c <= 'f' || 'A' <= c <= 'F'
  }

  function DigitValue(c: char): nat
    requires IsXDigit(c)
    ensures DigitValue(c) < 16
  {
    if IsDigit(c) then c as int - '0' as int
    else if 'a' <= c <= 'f' then c as int - 'a' as int + 10
    else c as int - 'A' as int + 10
  }

  /** The bases in use; products and quotients are spelled out so that each is linear. */
  type radix = b: int | b == 8 || b == 10 || b == 16 witness 10

  function Times(a: nat, base: radix): nat {
    if base == 8 then a * 8 else if base == 10 then a * 10 else a * 16
  }

  function Quotient(n: nat, base: radix): nat {
    if base == 8 then n / 8 else if base == 10 then n / 10 else n / 16
  }

  /** One more digit, in 64-bit arithmetic. */
  function Accumulate(acc: u64, base: radix, d: nat): u64 {
    (Times(acc, base) + d) % TWO_64
  }

  /** `_parse_integer_fixup_radix` for base 0: hexadecimal after 0x, octal after 0, else decimal. */
  function Radix(s: string): radix {
    if |s| > 0 && s[0] == '0' then
      if |s| > 2 && (s[1] == 'x' || s[1] == 'X') && IsXDigit(s[2]) then 16 else 8
    else 10
  }

  predicate Continues(s: string, base: radix) {
    s != [] && IsXDigit(s[0]) && DigitValue(s[0]) < base
  }

  function Digits(s: string, base: radix, acc: u64): (p: Parsed)
    ensures |p.rest| <= |s| && (|p.rest| == |s| ==> p.value == acc)
    decreases |s|
  {
    if Continues(s, base) then Digits(s[1..], base, Accumulate(acc, base, DigitValue(s[0])))
    else Parsed(acc, s)
  }

  /** `simple_strtoull(s, &rest, 0)`. */
  function Strtoull(s: string): (p: Parsed)
    ensures |p.rest| <= |s| && (|p.rest| == |s| ==> p.value == 0)
  {
    Digits(if Radix(s) == 16 then s[2..] else s, Radix(s), 0)
  }

  method ParseStrtoull(s: string, p: nat) returns (value: u64, q: nat)
    requires p <= |s|
    ensures p <= q <= |s| && Strtoull(s[p..]) == Parsed(value, s[q..])
  {
    var base: radix := 10;
    q := p;
    if p < |s| && s[p] == '0' {
      base := 8;
      if p + 2 < |s| && (s[p + 1] == 'x' || s[p + 1] == 'X') && IsXDigit(s[p + 2]) {
        base := 16;
        q := p + 2;
      }
    }
    assert s[p..][q - p..] == s[q..];
    value := 0;
    while q < |s| && IsXDigit(s[q]) && DigitValue(s[q]) < base
      invariant p <= q <= |s|
      invariant Strtoull(s[p..]) == Digits(s[q..], base, value)
    {
      assert s[q..][1..] == s[q + 1..];
      value := Accumulate(value, base, DigitValue(s[q]));
      q := q + 1;
    }
  }

  /** The shift a size suffix stands for; no suffix is one. */
  function Unit(c: char): nat {
    if c == 'G' || c == 'g' then 0x4000_0000
    else if c == 'M' || c == 'm' then 0x10_0000
    else if c == 'K' || c == 'k' then 0x400
    else 1
  }

  function MemsizeParse(s: string): (p: Parsed)
    ensures |p.rest| <= |s| && (|p.rest| == |s| ==> p.value == 0)
  {
    var n := Strtoull(s);
    if n.rest != [] && Unit(n.rest[0]) > 1 then Parsed((n.value * Unit(n.rest[0])) % TWO_64, n.rest[1..])
    else n
  }

  /** `ret <<= 10` on 64 bits. */
  function Shift10(x: u64): u64 {
    (x * 0x400) % TWO_64
  }

  lemma ShiftTwice(x: u64)
    ensures Shift10(Shift10(x)) == (x * 0x10_0000) % TWO_64
  {
    ShiftOnce(x * 0x400);
  }

  lemma ShiftThrice(x: u64)
    ensures Shift10(Shift10(Shift10(x))) == (x * 0x4000_0000) % TWO_64
  {
    ShiftTwice(x);
    ShiftOnce(x * 0x10_0000);
  }

  lemma ShiftOnce(n: nat)
    ensures Shift10(n % TWO_64) == (n * 0x400) % TWO_64
  {
    var q := n / TWO_64;
    WholeTurns((n % TWO_64) * 0x400, q * 0x400);
    assert n * 0x400 == (n % TWO_64) * 0x400 + TWO_64 * (q * 0x400);
  }

  lemma WholeTurns(a: nat, k: nat)
    ensures (a + TWO_64 * k) % TWO_64 == a % TWO_64
  {
  }

  /** `memsize_parse`, its switch falling from one shift into the next. */
  method ParseMemsize(s: string, p: nat) returns (value: u64, q: nat)
    requires p <= |s|
    ensures p <= q <= |s| && MemsizeParse(s[p..]) == Parsed(value, s[q..])
  {
    value, q := ParseStrtoull(s, p);
    if q < |s| {
      var c := s[q];
      ShiftTwice(value);
      ShiftThrice(value);
      assert s[q..][1..] == s[q + 1..];
      if Unit(c) > 0x10_0000 { value := Shift10(value); }
      if Unit(c) > 0x400 { value := Shift10(value); }
      if Unit(c) > 1 {
        value := Shift10(value);
        q := q + 1;
      }
    }
  }

  // ----- printing

  function DigitChar(d: nat): char
    requires d < 16
  {
    if d < 10 then '0' + d as char else 'a' + (d - 10) as char
  }

  /** `%llu` for base 10, `%llx` for base 16. */
  function Numeral(n: nat, base: radix): (s: string)
    ensures s != []
    decreases n
  {
    if n < base then [DigitChar(n)]
    else Numeral(Quotient(n, base), base) + [DigitChar(n - Times(Quotient(n, base), base))]
  }

  lemma DigitRoundTrip(d: nat)
    requires d < 16
    ensures IsXDigit(DigitChar(d)) && DigitValue(DigitChar(d)) == d
  {
  }

  /** Reading a numeral continues behind it with its value accumulated. */
  lemma {:induction false} DigitsOfNumeral(n: nat, base: radix, rest: string)
    requires n < TWO_64
    ensures Digits(Numeral(n, base) + rest, base, 0) == Digits(rest, base, n)
    decreases n
  {
    if n < base {
      OneDigit(0, base, n, rest);
      assert Numeral(n, base) + rest == [DigitChar(n)] + rest;
    } else {
      var m := Quotient(n, base);
      var d := n - Times(m, base);
      assert d < base && m < n;
      var s := [DigitChar(d)] + rest;
      calc {
        Digits(Numeral(n, base) + rest, base, 0);
        { assert Numeral(n, base) + rest == Numeral(m, base) + s; }
        Digits(Numeral(m, base) + s, base, 0);
        { DigitsOfNumeral(m, base, s); }
        Digits(s, base, m);
        { OneDigit(m, base, d, rest); }
        Digits(rest, base, n);
      }
    }
  }

  lemma OneDigit(acc: u64, base: radix, d: nat, rest: string)
    requires d < base && Times(acc, base) + d < TWO_64
    ensures Digits([DigitChar(d)] + rest, base, acc) == Digits(rest, base, Times(acc, base) + d)
  {
    DigitRoundTrip(d);
    var s := [DigitChar(d)] + rest;
    assert s[0] == DigitChar(d) && s[1..] == rest;
    FitsIn64(acc, base, d);
    assert Continues(s, base);
  }

  lemma FitsIn64(acc: u64, base: radix, d: nat)
    requires Times(acc, base) + d < TWO_64
    ensures Accumulate(acc, base, d) == Times(acc, base) + d
  {
  }

  /** No number but zero is printed with a leading zero, so its text is read back in its own base. */
  lemma {:induction false} LeadingDigit(n: nat, base: radix)
    requires n > 0
    ensures Numeral(n, base)[0] != '0'
    decreases n
  {
    if n >= base { LeadingDigit(Quotient(n, base), base); }
  }

  /** `memsize_format`. */
  function MemsizeFormat(size: u64): string {
    if size % 0x4000_0000 == 0 then Numeral(size / 0x4000_0000, 10) + "g"
    else if size % 0x10_0000 == 0 then Numeral(size / 0x10_0000, 10) + "m"
    else if size % 0x400 == 0 then Numeral(size / 0x400, 10) + "k"
    else Numeral(size, 10)
  }

  /** Text that cannot be taken for more digits or a suffix. */
  predicate Delimited(rest: string) {
    rest != [] ==> !IsDigit(rest[0]) && Unit(rest[0]) == 1 && rest[0] != 'x' && rest[0] != 'X'
  }

  lemma StrtoullOfNumeral(n: nat, rest: string)
    requires n < TWO_64 && (rest != [] ==> !IsDigit(rest[0]) && rest[0] != 'x' && rest[0] != 'X')
    ensures Strtoull(Numeral(n, 10) + rest) == Parsed(n, rest)
  {
    var s := Numeral(n, 10) + rest;
    if n == 0 {
      assert s == ['0'] + rest && s[1..] == rest;
      OneDigit(0, 8, 0, rest);
    } else {
      LeadingDigit(n, 10);
      DigitsOfNumeral(n, 10, rest);
    }
  }

  /** `memsize_parse` undoes `memsize_format` for every 64-bit size, whatever delimiter follows. */
  lemma MemsizeRoundTrip(size: u64, rest: string)
    requires Delimited(rest)
    ensures MemsizeParse(MemsizeFormat(size) + rest) == Parsed(size, rest)
  {
    if size % 0x4000_0000 == 0 {
      Scaled(size, size / 0x4000_0000, 'g', rest);
    } else if size % 0x10_0000 == 0 {
      Scaled(size, size / 0x10_0000, 'm', rest);
    } else if size % 0x400 == 0 {
      Scaled(size, size / 0x400, 'k', rest);
    } else {
      StrtoullOfNumeral(size, rest);
    }
  }

  lemma Scaled(size: u64, n: nat, c: char, rest: string)
    requires c == 'g' || c == 'm' || c == 'k'
    requires size == n * Unit(c)
    ensures MemsizeParse(Numeral(n, 10) + [c] + rest) == Parsed(size, rest)
  {
    assert n <= size;
    SuffixRoundTrip(n, c, rest);
  }

  lemma SuffixRoundTrip(n: u64, c: char, rest: string)
    requires c == 'g' || c == 'm' || c == 'k'
    ensures MemsizeParse(Numeral(n, 10) + [c] + rest) == Parsed((n * Unit(c)) % TWO_64, rest)
  {
    var tail := [c] + rest;
    assert Numeral(n, 10) + [c] + rest == Numeral(n, 10) + tail;
    StrtoullOfNumeral(n, tail);
    assert tail[1..] == rest;
  }
}

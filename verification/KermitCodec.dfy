/**
 Control quoting, section 6.4 of the Kermit Protocol Manual (sixth edition): what a
 sender writes and what the receiver's `ktrans`/`k_data_char` make of it.
 */
module KermitCodec {
  import opened Machine

  const SPACE: int := 32

  /** `(c & 0xE0) != 0`: not a control character. */
  predicate Printable(c: byte) {
    c >= SPACE
  }

  /** The numbers a printable character can stand for. */
  type small = x: int | 0 <= x < 224

  /** `tochar`: no number here is large enough for its `& 0xff` to drop anything. */
  function ToChar(x: small): byte {
    x + SPACE
  }

  /** `untochar`, only ever applied to a character that passed the `Printable` test. */
  function UnToChar(c: byte): small
    requires Printable(c)
  {
    c - SPACE
  }

  /** The type-1 block check of a byte sum. */
  function Check(sum: nat): byte {
    ToChar((sum + (sum / 64) % 4) % 64)
  }

  /** The masks of `ktrans` written out: bits 6,5 equal to 10, then the low seven bits equal to 0x3F. */
  function Ktrans(c: byte): byte {
    if c % 128 / 32 == 2 then c - 64
    else if c % 128 == 63 then c + 64
    else c
  }

  /** The characters still to store, and whether a quote is pending behind them. */
  datatype Decoded = Decoded(bytes: seq<byte>, escape: bool)

  function Decode(quote: byte, escape: bool, s: seq<byte>): Decoded
    decreases |s|
  {
    if s == [] then Decoded([], escape)
    else if escape then Prepend(Ktrans(s[0]), Decode(quote, false, s[1..]))
    else if s[0] == quote then Decode(quote, true, s[1..])
    else Prepend(s[0], Decode(quote, false, s[1..]))
  }

  function Prepend(c: byte, d: Decoded): Decoded {
    Decoded([c] + d.bytes, d.escape)
  }

  /** What the sender must quote: control characters and the quote character itself. */
  predicate IsControl(c: byte) {
    c % 128 < SPACE || c % 128 == 127
  }

  function Flip(c: byte): byte {
    if c % 128 < 64 then c + 64 else c - 64
  }

  function EncodeChar(quote: byte, c: byte): seq<byte> {
    if IsControl(c) then [quote, Flip(c)]
    else if c % 128 == quote % 128 then [quote, c]
    else [c]
  }

  function Encode(quote: byte, data: seq<byte>): seq<byte> {
    if data == [] then [] else EncodeChar(quote, data[0]) + Encode(quote, data[1..])
  }

  /** Cutting the encoded text anywhere, even after a quote, does not change what is decoded. */
  lemma {:induction false} DecodeConcat(quote: byte, escape: bool, a: seq<byte>, b: seq<byte>)
    ensures var first := Decode(quote, escape, a);
            var second := Decode(quote, first.escape, b);
            Decode(quote, escape, a + b) == Decoded(first.bytes + second.bytes, second.escape)
    decreases |a|
  {
    hide Prepend, Ktrans;
    if a == [] {
      assert a + b == b;
      assert [] + Decode(quote, escape, b).bytes == Decode(quote, escape, b).bytes;
    } else {
      var next := !escape && a[0] == quote;
      DecodeConcat(quote, next, a[1..], b);
      assert (a + b)[1..] == a[1..] + b;
      var rest := Decode(quote, next, a[1..]);
      PrependConcat(if escape then Ktrans(a[0]) else a[0], rest, Decode(quote, rest.escape, b));
    }
  }

  lemma PrependConcat(c: byte, first: Decoded, second: Decoded)
    ensures Prepend(c, first).escape == first.escape
    ensures Prepend(c, Decoded(first.bytes + second.bytes, second.escape))
         == Decoded(Prepend(c, first).bytes + second.bytes, second.escape)
  {
    assert [c] + (first.bytes + second.bytes) == ([c] + first.bytes) + second.bytes;
  }

  /** The quote characters for which quoting is undone; they include every legal one (33-62, 96-126). */
  predicate Unambiguous(quote: byte) {
    !(63 <= quote % 128 <= 95)
  }

  /** One character, quoted if need be, is decoded to itself. */
  lemma DecodeChar(quote: byte, c: byte)
    requires Printable(quote) && Unambiguous(quote)
    ensures Decode(quote, false, EncodeChar(quote, c)) == Decoded([c], false)
  {
    var head := EncodeChar(quote, c);
    if |head| == 2 {
      assert head[1..] == [head[1]];
      assert Decode(quote, true, head[1..]) == Decoded([Ktrans(head[1])], false);
    }
  }

  lemma {:induction false} DecodeEncode(quote: byte, data: seq<byte>)
    requires Printable(quote) && Unambiguous(quote)
    ensures Decode(quote, false, Encode(quote, data)) == Decoded(data, false)
  {
    hide EncodeChar;
    if data != [] {
      var head := EncodeChar(quote, data[0]);
      DecodeChar(quote, data[0]);
      DecodeEncode(quote, data[1..]);
      DecodeConcat(quote, false, head, Encode(quote, data[1..]));
      assert [data[0]] + data[1..] == data;
    }
  }

  /** Unquoting restores every byte string exactly when the quote character is unambiguous. */
  lemma QuotingRoundTrip(quote: byte)
    requires Printable(quote)
    ensures (forall data :: Decode(quote, false, Encode(quote, data)) == Decoded(data, false))
            <==> Unambiguous(quote)
  {
    if Unambiguous(quote) {
      forall data ensures Decode(quote, false, Encode(quote, data)) == Decoded(data, false) {
        DecodeEncode(quote, data);
      }
    } else {
      var data := [quote];
      assert Encode(quote, data) == [quote, quote] + Encode(quote, data[1..]);
      assert Encode(quote, data) == [quote, quote];
      assert [quote, quote][1..] == [quote];
      assert Decode(quote, true, [quote]) == Decoded([Ktrans(quote)], false);
      assert Decode(quote, false, Encode(quote, data)) != Decoded(data, false);
    }
  }

  /** The encoded text never contains a control character, so it can travel in a packet. */
  lemma {:induction false} EncodedPrintable(quote: byte, data: seq<byte>)
    requires Printable(quote)
    ensures forall i :: 0 <= i < |Encode(quote, data)| ==> Printable(Encode(quote, data)[i])
  {
    if data != [] {
      EncodedPrintable(quote, data[1..]);
    }
  }
}

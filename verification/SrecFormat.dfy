/** Motorola S-records: what `save_serial` prints and how `srec_decode` reads one line. */
module SrecFormat {
  import opened Machine
  import opened Sequences

  // ----- hexadecimal

  function HexChar(d: nat): char
    requires d < 16
  {
    if d < 10 then '0' + d as char else 'A' + (d - 10) as char
  }

  /** `hex1_bin`. */
  function HexValue(c: char): Option<nat> {
    if '0' <= c <= '9' then Some(c as int - '0' as int)
    else if 'a' <= c <= 'f' then Some(c as int + 10 - 'a' as int)
    else if 'A' <= c <= 'F' then Some(c as int + 10 - 'A' as int)
    else None
  }

  function Hex2(b: byte): string {
    [HexChar(b / 16), HexChar(b % 16)]
  }

  function HexBytes(bs: seq<byte>): string {
    if bs == [] then "" else Hex2(bs[0]) + HexBytes(bs[1..])
  }

  datatype Taken = Taken(value: byte, rest: string)

  /** `hex2_bin` and the step over its two characters; the end of the line is no digit. */
  function TakeHex(s: string): (t: Option<Taken>)
    ensures t.Some? ==> |t.value.rest| == |s| - 2
  {
    if |s| < 2 || HexValue(s[0]).None? || HexValue(s[1]).None? then None
    else Some(Taken(HexValue(s[0]).value * 16 + HexValue(s[1]).value, s[2..]))
  }

  lemma HexCharBack(d: nat)
    requires d < 16
    ensures HexValue(HexChar(d)) == Some(d)
  {
  }

  lemma TakeHexBack(b: byte, rest: string)
    ensures TakeHex(Hex2(b) + rest) == Some(Taken(b, rest))
  {
    HexCharBack(b / 16);
    HexCharBack(b % 16);
    assert (Hex2(b) + rest)[2..] == rest;
  }

  // ----- reading bytes

  datatype Bytes = Bytes(bytes: seq<byte>, rest: string)

  function TakeBytes(s: string, n: int): (t: Option<Bytes>)
    ensures t.Some? && n >= 0 ==> |t.value.bytes| == n
    decreases if n < 0 then 0 else n
  {
    if n <= 0 then Some(Bytes([], s))
    else
      match TakeHex(s)
      case None => None
      case Some(t) =>
        match TakeBytes(t.rest, n - 1)
        case None => None
        case Some(more) => Some(Bytes([t.value] + more.bytes, more.rest))
  }

  lemma {:induction false} TakeBytesBack(bs: seq<byte>, rest: string)
    ensures TakeBytes(HexBytes(bs) + rest, |bs|) == Some(Bytes(bs, rest))
    decreases |bs|
  {
    if bs == [] {
      assert HexBytes(bs) + rest == rest;
    } else {
      var tail := HexBytes(bs[1..]) + rest;
      assert HexBytes(bs) + rest == Hex2(bs[0]) + tail;
      TakeHexBack(bs[0], tail);
      TakeBytesBack(bs[1..], rest);
      assert [bs[0]] + bs[1..] == bs;
    }
  }

  /** The check byte: the sum of all bytes of a record, itself included, is 0xFF modulo 256. */
  function CheckByte(sum: nat): byte {
    255 - sum % 256
  }

  // ----- srec_decode

  datatype Record =
    | Invalid                                   // a negative return code
    | Blank                                     // SREC_EMPTY
    | Decoded(kind: char, addr: u32, data: seq<byte>, count: int)

  /** Length field minus address and checksum: 2, 3 or 4 address bytes. */
  function AddressBytes(kind: char): Option<nat> {
    if kind == '3' || kind == '7' then Some(4)
    else if kind == '2' || kind == '8' then Some(3)
    else if kind == '0' || kind == '1' || kind == '5' || kind == '9' then Some(2)
    else None
  }

  function BigEndian(bs: seq<byte>): nat {
    if bs == [] then 0 else BigEndian(bs[..|bs| - 1]) * 256 + bs[|bs| - 1]
  }

  /** Past the first 'S'; `None` when there is nothing behind it. */
  function SkipToS(s: string): (r: Option<string>)
    ensures r.Some? ==> r.value != []
  {
    if s == [] then None
    else if s[0] == 'S' then (if |s| == 1 then None else Some(s[1..]))
    else SkipToS(s[1..])
  }

  function DecodeBody(kind: char, length: byte, width: nat, s: string): Record
    requires 2 <= width <= 4
  {
    var count := if kind == '5' then 0 else length as int - 1 - width;
    match TakeBytes(s, width)
    case None => Invalid
    case Some(address) =>
      match TakeBytes(address.rest, count)
      case None => Invalid
      case Some(data) =>
        match TakeHex(data.rest)
        case None => Invalid
        case Some(check) =>
          if check.value != CheckByte(length + Sum(address.bytes) + Sum(data.bytes)) then Invalid
          else Decoded(kind, BigEndian(address.bytes) % TWO_32, data.bytes, count)
  }

  function Decode(line: string): Record {
    match SkipToS(line)
    case None => Blank
    case Some(s) =>
      match TakeHex(s[1..])
      case None => Invalid
      case Some(length) =>
        match AddressBytes(s[0])
        case None => Invalid
        case Some(width) => DecodeBody(s[0], length.value, width, length.rest)
  }

  // ----- save_serial's data record

  const BYTES_PER_RECORD: nat := 16

  /** Four bytes, most significant first: `address >> 24`, `>> 16`, `>> 8` and the low byte. */
  function AddressOf(address: u32): seq<byte> {
    var a := address / 256;
    var b := a / 256;
    [b / 256, b % 256, a % 256, address % 256]
  }

  /** Length, address and data: everything the check byte covers. */
  function Covered(address: u32, data: seq<byte>): seq<byte>
    requires |data| <= 250
  {
    [5 + |data|] + AddressOf(address) + data
  }

  function DataRecord(address: u32, data: seq<byte>): string
    requires |data| <= 250
  {
    ['S', '3'] + HexBytes(Covered(address, data) + [CheckByte(Sum(Covered(address, data)))])
  }

  lemma BigEndianSnoc(bs: seq<byte>, b: byte)
    ensures BigEndian(bs + [b]) == BigEndian(bs) * 256 + b
  {
    assert (bs + [b])[..|bs|] == bs;
  }

  lemma AddressBack(address: u32)
    ensures BigEndian(AddressOf(address)) == address
  {
    var a := address / 256;
    var b := a / 256;
    BigEndianSnoc([], b / 256);
    BigEndianSnoc([b / 256], b % 256);
    BigEndianSnoc([b / 256, b % 256], a % 256);
    BigEndianSnoc([b / 256, b % 256, a % 256], address % 256);
    assert [] + [b / 256] == [b / 256];
    assert [b / 256] + [b % 256] == [b / 256, b % 256];
    assert [b / 256, b % 256] + [a % 256] == [b / 256, b % 256, a % 256];
    assert [b / 256, b % 256, a % 256] + [address % 256] == AddressOf(address);
  }

  /** The bytes of every data record add up to 0xFF modulo 256. */
  lemma RecordSum(address: u32, data: seq<byte>)
    requires |data| <= 250
    ensures var covered := Covered(address, data);
            Sum(covered + [CheckByte(Sum(covered))]) % 256 == 255
  {
    var covered := Covered(address, data);
    var check := CheckByte(Sum(covered));
    SumConcat(covered, [check]);
    assert Sum([check]) == check;
  }

  lemma {:induction false} HexConcat(a: seq<byte>, b: seq<byte>)
    ensures HexBytes(a + b) == HexBytes(a) + HexBytes(b)
    decreases |a|
  {
    if a == [] {
      assert a + b == b;
    } else {
      assert (a + b)[1..] == a[1..] + b;
      HexConcat(a[1..], b);
    }
  }

  lemma DecodeHead(kind: char, length: byte, text: string)
    requires AddressBytes(kind).Some?
    ensures Decode(['S', kind] + (Hex2(length) + text)) == DecodeBody(kind, length, AddressBytes(kind).value, text)
  {
    var line := ['S', kind] + (Hex2(length) + text);
    assert line[1..] == [kind] + (Hex2(length) + text);
    assert line[1..][1..] == Hex2(length) + text;
    TakeHexBack(length, text);
  }

  lemma DecodeTail(kind: char, length: byte, width: nat, address: seq<byte>, data: seq<byte>, check: byte)
    requires 2 <= width <= 4 && |address| == width && kind != '5' && length as int == width + 1 + |data|
    requires check == CheckByte(length + Sum(address) + Sum(data))
    ensures DecodeBody(kind, length, width, HexBytes(address) + (HexBytes(data) + Hex2(check)))
            == Decoded(kind, BigEndian(address) % TWO_32, data, |data|)
  {
    hide TakeBytes, TakeHex, HexBytes, Hex2, Sum, BigEndian, CheckByte;
    var last := Hex2(check);
    TakeBytesBack(address, HexBytes(data) + last);
    TakeBytesBack(data, last);
    TakeHexBack(check, "");
    assert last + "" == last;
  }

  lemma RecordText(length: byte, address: seq<byte>, data: seq<byte>, check: byte)
    ensures HexBytes([length] + address + data + [check]) == Hex2(length) + (HexBytes(address) + (HexBytes(data) + Hex2(check)))
  {
    var rest := address + (data + [check]);
    var all := [length] + address + data + [check];
    assert all[0] == length && all[1..] == rest;
    HexConcat(address, data + [check]);
    HexConcat(data, [check]);
    OneByte(check);
  }

  lemma OneByte(b: byte)
    ensures HexBytes([b]) == Hex2(b)
  {
    assert [b][1..] == [];
    assert Hex2(b) + "" == Hex2(b);
  }

  /** `srec_decode` gives back kind, address and bytes of any record with a right length and check. */
  lemma RecordBack(kind: char, length: byte, address: seq<byte>, data: seq<byte>, check: byte)
    requires AddressBytes(kind) == Some(|address|) && kind != '5' && length as int == |address| + 1 + |data|
    requires check == CheckByte(length + Sum(address) + Sum(data))
    ensures Decode(['S', kind] + HexBytes([length] + address + data + [check]))
            == Decoded(kind, BigEndian(address) % TWO_32, data, |data|)
  {
    hide Decode, DecodeBody, HexBytes, Hex2, Sum, BigEndian, CheckByte;
    var text := HexBytes(address) + (HexBytes(data) + Hex2(check));
    RecordText(length, address, data, check);
    DecodeHead(kind, length, text);
    DecodeTail(kind, length, |address|, address, data, check);
  }

  /** In particular those of a data record. */
  lemma DataRecordBack(address: u32, data: seq<byte>)
    requires |data| <= 250
    ensures Decode(DataRecord(address, data)) == Decoded('3', address, data, |data|)
  {
    var a, check := AddressOf(address), CheckByte(Sum(Covered(address, data)));
    CoveredSum(address, data);
    AddressBack(address);
    WholeAddress(address, a);
    RecordBack('3', 5 + |data|, a, data, check);
  }

  lemma WholeAddress(address: u32, a: seq<byte>)
    requires BigEndian(a) == address
    ensures BigEndian(a) % TWO_32 == address
  {
  }

  lemma CoveredSum(address: u32, data: seq<byte>)
    requires |data| <= 250
    ensures Sum(Covered(address, data)) == 5 + |data| + Sum(AddressOf(address)) + Sum(data)
  {
    var rest := AddressOf(address) + data;
    assert Covered(address, data) == [5 + |data|] + rest;
    assert ([5 + |data|] + rest)[1..] == rest;
    SumConcat(AddressOf(address), data);
  }
}

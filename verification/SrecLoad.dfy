/**
 Loading S-record files that other tools have written: every kind of record, with 16-, 24- and
 32-bit addresses, either case of hexadecimal digits and any line ends.
 */
module SrecLoad {
  import opened Machine
  import opened Sequences
  import N = NumberRead
  import opened SrecFormat
  import opened SrecTransfer

  // ----- a record as the format defines it

  datatype Rec = Rec(kind: char, address: seq<byte>, data: seq<byte>, check: byte)

  /** Kinds 0, 1, 5 and 9 have two address bytes, 2 and 8 three, 3 and 7 four; a count record has no data. */
  predicate Wide(kind: char, width: nat) {
    || (width == 2 && (kind == '0' || kind == '1' || kind == '5' || kind == '9'))
    || (width == 3 && (kind == '2' || kind == '8'))
    || (width == 4 && (kind == '3' || kind == '7'))
  }

  predicate IsData(kind: char) {
    kind == '1' || kind == '2' || kind == '3'
  }

  predicate IsEnd(kind: char) {
    kind == '7' || kind == '8' || kind == '9'
  }

  predicate Shaped(r: Rec) {
    && Wide(r.kind, |r.address|)
    && |r.address| + |r.data| + 1 <= 255 && (r.kind == '5' ==> r.data == [])
  }

  /** Length, address, data and check. */
  function Contents(r: Rec): seq<byte>
    requires Shaped(r)
  {
    [|r.address| + |r.data| + 1] + (r.address + (r.data + [r.check]))
  }

  /** All bytes of a right record add up to 0xFF. */
  predicate RightSum(r: Rec)
    requires Shaped(r)
  {
    Sum(Contents(r)) % 256 == 255
  }

  function AddressValue(a: seq<byte>): nat
    requires 2 <= |a| <= 4
  {
    if |a| == 2 then a[0] as int * 0x100 + a[1]
    else if |a| == 3 then a[0] as int * 0x1_0000 + a[1] as int * 0x100 + a[2]
    else a[0] as int * 0x100_0000 + a[1] as int * 0x1_0000 + a[2] as int * 0x100 + a[3]
  }

  predicate Spells(s: string, bs: seq<byte>) {
    && |s| == 2 * |bs|
    && forall i :: 0 <= i < |bs| ==> N.DigitIs(s[2 * i], bs[i] / 16) && N.DigitIs(s[2 * i + 1], bs[i] % 16)
  }

  // ----- reading the digits

  lemma DigitRead(c: char, d: nat)
    requires d < 16 && N.DigitIs(c, d)
    ensures HexValue(c) == Some(d) && Plain([c])
  {
  }

  lemma ByteTaken(s: string, b: byte, rest: string)
    requires Spells(s, [b])
    ensures TakeHex(s + rest) == Some(Taken(b, rest))
  {
    assert [b][0] == b && s[2 * 0] == s[0] && s[2 * 0 + 1] == s[1];
    DigitRead(s[0], b / 16);
    DigitRead(s[1], b % 16);
    assert (s + rest)[2..] == rest;
  }

  lemma SpelledApart(s: string, a: seq<byte>, b: seq<byte>)
    requires Spells(s, a + b)
    ensures Spells(s[..2 * |a|], a) && Spells(s[2 * |a|..], b) && s == s[..2 * |a|] + s[2 * |a|..]
  {
    var k := 2 * |a|;
    forall i | 0 <= i < |a| ensures N.DigitIs(s[..k][2 * i], a[i] / 16) && N.DigitIs(s[..k][2 * i + 1], a[i] % 16) {
      assert a[i] == (a + b)[i];
    }
    forall i | 0 <= i < |b| ensures N.DigitIs(s[k..][2 * i], b[i] / 16) && N.DigitIs(s[k..][2 * i + 1], b[i] % 16) {
      assert b[i] == (a + b)[|a| + i] && s[k..][2 * i] == s[2 * (|a| + i)] && s[k..][2 * i + 1] == s[2 * (|a| + i) + 1];
    }
  }

  lemma {:induction false} BytesTaken(s: string, bs: seq<byte>, rest: string)
    requires Spells(s, bs)
    ensures TakeBytes(s + rest, |bs|) == Some(Bytes(bs, rest))
    decreases |bs|
  {
    if bs == [] {
      assert s + rest == rest;
    } else {
      hide Spells, TakeHex;
      var b, more := bs[0], bs[1..];
      assert bs == [b] + more;
      SpelledApart(s, [b], more);
      Associate(s[..2], s[2..], rest);
      ByteTaken(s[..2], b, s[2..] + rest);
      BytesTaken(s[2..], more, rest);
    }
  }

  lemma SpelledPlain(s: string, bs: seq<byte>)
    requires Spells(s, bs)
    ensures Plain(s)
  {
    forall k | 0 <= k < |s| ensures s[k] != '\r' && s[k] != '\n' && s[k] != '\0' && s[k] != CTRL_C {
      var i := k / 2;
      assert k == 2 * i || k == 2 * i + 1;
      DigitRead(s[2 * i], bs[i] / 16);
      DigitRead(s[2 * i + 1], bs[i] % 16);
      assert [s[k]][0] == s[k];
    }
  }

  // ----- decoding one line

  lemma {:induction false} JunkSkipped(before: string, s: string)
    requires 'S' !in before && s != []
    ensures SkipToS(before + (['S'] + s)) == Some(s)
    decreases |before|
  {
    var t := before + (['S'] + s);
    if before == [] {
      assert t == ['S'] + s && t[1..] == s;
    } else {
      assert t[1..] == before[1..] + (['S'] + s);
      JunkSkipped(before[1..], s);
    }
  }

  lemma NoAddress()
    ensures BigEndian([]) == 0
  {
  }

  lemma AddressRead(a: seq<byte>)
    requires 2 <= |a| <= 4
    ensures BigEndian(a) % TWO_32 == AddressValue(a) == BigEndian(a)
  {
    NoAddress();
    hide BigEndian;
    BigEndianSnoc([], a[0]);
    BigEndianSnoc([a[0]], a[1]);
    assert [] + [a[0]] == [a[0]] && [a[0]] + [a[1]] == a[..2];
    if |a| == 2 {
      assert a[..2] == a;
    } else {
      BigEndianSnoc(a[..2], a[2]);
      assert a[..2] + [a[2]] == a[..3];
      if |a| == 3 {
        assert a[..3] == a;
      } else {
        BigEndianSnoc(a[..3], a[3]);
        assert a[..3] + [a[3]] == a;
      }
    }
  }

  lemma SumRead(r: Rec)
    requires Shaped(r)
    ensures RightSum(r) <==> r.check == CheckByte(|r.address| + |r.data| + 1 + Sum(r.address) + Sum(r.data))
  {
    var length := |r.address| + |r.data| + 1;
    var rest := r.address + (r.data + [r.check]);
    assert Contents(r)[0] == length && Contents(r)[1..] == rest;
    SumConcat(r.address, r.data + [r.check]);
    SumConcat(r.data, [r.check]);
    assert Sum([r.check]) == r.check by { assert [r.check][1..] == []; }
    CheckUnique(length + Sum(r.address) + Sum(r.data), r.check);
  }

  lemma CheckUnique(sum: nat, check: byte)
    ensures (sum + check) % 256 == 255 <==> check == CheckByte(sum)
  {
    var q, low := sum / 256, sum % 256;
    assert sum == 256 * q + low;
    if low + check < 256 {
      assert (256 * q + (low + check)) % 256 == low + check;
    } else {
      assert (256 * (q + 1) + (low + check - 256)) % 256 == low + check - 256;
    }
  }

  /** The fields behind the kind and the length. */
  lemma BodyRead(r: Rec, s: string)
    requires Shaped(r) && Spells(s, r.address + (r.data + [r.check]))
    ensures DecodeBody(r.kind, |r.address| + |r.data| + 1, |r.address|, s)
            == if RightSum(r) then Decoded(r.kind, AddressValue(r.address), r.data, |r.data|) else Invalid
  {
    hide Spells, TakeBytes, TakeHex, BigEndian, CheckByte, RightSum, Sum, AddressValue;
    var w, n := 2 * |r.address|, 2 * |r.data|;
    SpelledApart(s, r.address, r.data + [r.check]);
    var t := s[w..];
    SpelledApart(t, r.data, [r.check]);
    var last := t[n..];
    BytesTaken(s[..w], r.address, t);
    BytesTaken(t[..n], r.data, last);
    ByteTaken(last, r.check, "");
    assert last + "" == last;
    SumRead(r);
    AddressRead(r.address);
  }

  /** The line: anything without an 'S', then "S", the kind and the digits. */
  function RecordLine(before: string, r: Rec, digits: string): string {
    before + (['S'] + ([r.kind] + digits))
  }

  lemma LineDecoded(before: string, r: Rec, digits: string)
    requires Shaped(r) && 'S' !in before && Spells(digits, Contents(r))
    ensures Decode(RecordLine(before, r, digits))
            == if RightSum(r) then Decoded(r.kind, AddressValue(r.address), r.data, |r.data|) else Invalid
  {
    hide Spells, SkipToS, TakeHex, DecodeBody, RightSum, AddressValue;
    var s := [r.kind] + digits;
    JunkSkipped(before, s);
    assert s[1..] == digits && s[0] == r.kind;
    var length := |r.address| + |r.data| + 1;
    SpelledApart(digits, [length], r.address + (r.data + [r.check]));
    ByteTaken(digits[..2], length, digits[2..]);
    BodyRead(r, digits[2..]);
  }

  /** Any other kind is an error, whatever follows. */
  lemma UnknownKind(before: string, kind: char, more: string)
    requires 'S' !in before && forall width :: !Wide(kind, width)
    ensures Decode(before + (['S'] + ([kind] + more))) == Invalid
  {
    hide SkipToS, TakeHex;
    JunkSkipped(before, [kind] + more);
    assert ([kind] + more)[0] == kind;
    assert !Wide(kind, 2) && !Wide(kind, 3) && !Wide(kind, 4);
  }

  // ----- lines of a file

  datatype Item = Item(before: string, r: Rec, digits: string, eol: string)

  predicate LineEnd(eol: string) {
    eol == "\n" || eol == "\r" || eol == "\r\n"
  }

  /** A line that fits the buffer. */
  predicate Written(i: Item) {
    && Shaped(i.r) && Spells(i.digits, Contents(i.r)) && LineEnd(i.eol)
    && Plain(i.before) && 'S' !in i.before && |i.before| + 2 + |i.digits| < 516
  }

  function Text(i: Item): string {
    RecordLine(i.before, i.r, i.digits) + i.eol
  }

  lemma {:induction false} LineRead(line: string, c: char, rest: string, room: nat, got: string)
    requires Plain(line) && |line| < room && (c == '\n' || c == '\r')
    ensures ReadLine(line + ([c] + rest), room, got) == Got(got + line, rest)
    decreases |line|
  {
    var s := line + ([c] + rest);
    if line == [] {
      assert s == [c] + rest && s[1..] == rest;
      assert got + line == got;
    } else {
      assert s[1..] == line[1..] + ([c] + rest);
      LineRead(line[1..], c, rest, room - 1, got + [line[0]]);
      MoveHead(got, line);
    }
  }

  lemma EmptyLine(rest: string, offset: int, st: Loading)
    ensures Load("\n" + rest, offset, st) == Load(rest, offset, st)
  {
    assert [] + (['\n'] + rest) == "\n" + rest;
    LineRead("", '\n', rest, MAX_LINE, "");
    assert Decode("") == Blank;
  }

  lemma PlainConcat(a: string, b: string)
    requires Plain(a) && Plain(b)
    ensures Plain(a + b)
  {
  }

  lemma ItemPlain(i: Item)
    requires Written(i)
    ensures var line := RecordLine(i.before, i.r, i.digits); Plain(line) && |line| < MAX_LINE
  {
    hide Spells;
    SpelledPlain(i.digits, Contents(i.r));
    assert Plain(['S'] + [i.r.kind]);
    PlainConcat(['S'] + [i.r.kind], i.digits);
    assert ['S'] + ([i.r.kind] + i.digits) == ['S'] + [i.r.kind] + i.digits;
    PlainConcat(i.before, ['S'] + ([i.r.kind] + i.digits));
  }

  // ----- what a record does

  function ByteAt(at: int, data: seq<byte>, a: int): byte
    requires at <= a < at + |data|
  {
    data[a - at]
  }

  /** The bytes of a data record lie at its address; everything else is as it was. */
  function Placed(st: Loading, at: u32, data: seq<byte>): Loading {
    var end := (at + |data| - 1) % TWO_32;
    Loading(st.mem + (map a: int | at <= a < at + |data| :: ByteAt(at, data, a)),
            if at < st.first then at else st.first,
            if end > st.last then end else st.last)
  }

  lemma StoreIsPlaced(st: Loading, addr: u32, data: seq<byte>, offset: int)
    ensures StoreRecord(st, addr, data, offset) == Placed(st, (addr + offset) % TWO_32, data)
  {
    var at := (addr + offset) % TWO_32;
    var m, m' := Write(st.mem, at, data), Placed(st, at, data).mem;
    forall x ensures (x in m <==> x in m') && (x in m ==> m[x] == m'[x]) { WriteMeans(st.mem, at, data, x); }
    assert m == m';
  }

  /** The outcome of a line with `more` to follow: by kind, and by the sum of its bytes. */
  function Outcome(r: Rec, offset: int, st: Loading, more: string): Loaded
    requires Shaped(r)
  {
    var address := AddressValue(r.address);
    if Sum(Contents(r)) % 256 != 255 then Failed
    else if IsData(r.kind) then Load(more, offset, Placed(st, (address + offset) % TWO_32, r.data))
    else if IsEnd(r.kind) then Done(address, st)
    else Load(more, offset, st)
  }

  lemma KindDecided(s: string, line: string, rest: string, r: Rec, offset: int, st: Loading)
    requires Shaped(r) && ReadLine(s, MAX_LINE, "") == Got(line, rest)
    requires Decode(line) == if RightSum(r) then Decoded(r.kind, AddressValue(r.address), r.data, |r.data|) else Invalid
    ensures Load(s, offset, st) == Outcome(r, offset, st, rest)
  {
    hide Decode, ReadLine, StoreRecord, Placed;
    if RightSum(r) { StoreIsPlaced(st, AddressValue(r.address), r.data, offset); }
  }

  /** One line of a file, in either case of digits and with any line end, is handled as its kind demands. */
  lemma ItemLoaded(i: Item, rest: string, offset: int, st: Loading)
    requires Written(i)
    ensures Load(Text(i) + rest, offset, st) == Outcome(i.r, offset, st, rest)
  {
    hide Load, Decode, ReadLine, Spells, RightSum, AddressValue, Placed, RecordLine;
    var line := RecordLine(i.before, i.r, i.digits);
    ItemPlain(i);
    LineDecoded(i.before, i.r, i.digits);
    var c := i.eol[0];
    var more := i.eol[1..] + rest;
    assert Text(i) + rest == line + ([c] + more);
    LineRead(line, c, more, MAX_LINE, "");
    assert "" + line == line;
    KindDecided(Text(i) + rest, line, more, i.r, offset, st);
    if i.eol == "\r\n" {
      assert more == "\n" + rest;
      EmptyLine(rest, offset, st);
      EmptyLine(rest, offset, Placed(st, (AddressValue(i.r.address) + offset) % TWO_32, i.r.data));
    } else {
      assert more == rest;
    }
  }

  // ----- a whole file

  function FileText(items: seq<Item>): string {
    if items == [] then "" else Text(items[0]) + FileText(items[1..])
  }

  /** The data records in turn, each at its address plus the offset. */
  function AllPlaced(items: seq<Item>, offset: int, st: Loading): Loading
    requires forall k :: 0 <= k < |items| ==> Shaped(items[k].r)
  {
    if items == [] then st
    else
      var r := items[0].r;
      assert Shaped(items[0].r);
      AllPlaced(items[1..], offset,
                if IsData(r.kind) then Placed(st, (AddressValue(r.address) + offset) % TWO_32, r.data) else st)
  }

  /** Right records up to an end record. */
  ghost predicate GoodFile(items: seq<Item>, end: Item) {
    && (forall k :: 0 <= k < |items| ==> Written(items[k]) && RightSum(items[k].r) && !IsEnd(items[k].r.kind))
    && Written(end) && RightSum(end.r) && IsEnd(end.r.kind)
  }

  /**
   A file of header, data and count records of any address widths and an end record loads whole:
   the memory holds the data records, the ends of the range are theirs, and the entry point is
   the address of the end record; what follows that is not read.
   */
  lemma {:induction false} FileLoaded(items: seq<Item>, end: Item, rest: string, offset: int, st: Loading)
    requires GoodFile(items, end)
    ensures Load(FileText(items) + (Text(end) + rest), offset, st)
            == Done(AddressValue(end.r.address), AllPlaced(items, offset, st))
    decreases |items|
  {
    hide Load, Text, Placed, AddressValue, RightSum, Spells;
    if items == [] {
      assert FileText(items) + (Text(end) + rest) == Text(end) + rest;
      ItemLoaded(end, rest, offset, st) by { assert Written(end); }
      EndOutcome(end.r, offset, st, rest);
    } else {
      var r, more := items[0].r, FileText(items[1..]) + (Text(end) + rest);
      assert FileText(items) + (Text(end) + rest) == Text(items[0]) + more;
      ItemLoaded(items[0], more, offset, st);
      ItemOutcome(r, offset, st, more);
      var next := if IsData(r.kind) then Placed(st, (AddressValue(r.address) + offset) % TWO_32, r.data) else st;
      FileLoaded(items[1..], end, rest, offset, next);
    }
  }

  lemma EndOutcome(r: Rec, offset: int, st: Loading, more: string)
    requires Shaped(r) && RightSum(r) && IsEnd(r.kind)
    ensures Outcome(r, offset, st, more) == Done(AddressValue(r.address), st)
  {
  }

  lemma ItemOutcome(r: Rec, offset: int, st: Loading, more: string)
    requires Shaped(r) && RightSum(r) && !IsEnd(r.kind)
    ensures Outcome(r, offset, st, more)
            == Load(more, offset, if IsData(r.kind) then Placed(st, (AddressValue(r.address) + offset) % TWO_32, r.data) else st)
  {
  }

  /** A wrong byte anywhere that changes the sum makes the whole load fail, however much was loaded before. */
  lemma {:induction false} CorruptFails(items: seq<Item>, bad: Item, rest: string, offset: int, st: Loading)
    requires forall k :: 0 <= k < |items| ==> Written(items[k]) && RightSum(items[k].r) && !IsEnd(items[k].r.kind)
    requires Written(bad) && !RightSum(bad.r)
    ensures Load(FileText(items) + (Text(bad) + rest), offset, st) == Failed
    decreases |items|
  {
    hide Load, Text, Placed, AddressValue, Spells;
    if items == [] {
      assert FileText(items) + (Text(bad) + rest) == Text(bad) + rest;
      ItemLoaded(bad, rest, offset, st) by { assert Written(bad); }
    } else {
      var r, more := items[0].r, FileText(items[1..]) + (Text(bad) + rest);
      assert FileText(items) + (Text(bad) + rest) == Text(items[0]) + more;
      ItemLoaded(items[0], more, offset, st);
      ItemOutcome(r, offset, st, more);
      var next := if IsData(r.kind) then Placed(st, (AddressValue(r.address) + offset) % TWO_32, r.data) else st;
      CorruptFails(items[1..], bad, rest, offset, next);
    }
  }

  /** A line that is cut off by a NUL or ^C ends the load the same way. */
  lemma {:induction false} AbortRead(line: string, c: char, rest: string, room: nat, got: string)
    requires Plain(line) && |line| < room && (c == '\0' || c == '\U{0003}')
    ensures ReadLine(line + ([c] + rest), room, got) == Abort
    decreases |line|
  {
    var s := line + ([c] + rest);
    if line == [] {
      assert s == [c] + rest;
    } else {
      assert s[1..] == line[1..] + ([c] + rest);
      AbortRead(line[1..], c, rest, room - 1, got + [line[0]]);
    }
  }

  lemma {:induction false} AbortFails(items: seq<Item>, line: string, c: char, rest: string, offset: int, st: Loading)
    requires forall k :: 0 <= k < |items| ==> Written(items[k]) && RightSum(items[k].r) && !IsEnd(items[k].r.kind)
    requires Plain(line) && |line| < 516 && (c == '\0' || c == '\U{0003}')
    ensures Load(FileText(items) + (line + ([c] + rest)), offset, st) == Failed
    decreases |items|
  {
    hide Text, Placed, AddressValue, Spells, ReadLine, Decode, RightSum;
    var last := line + ([c] + rest);
    if items == [] {
      assert FileText(items) + last == last;
      AbortRead(line, c, rest, MAX_LINE, "");
    } else {
      hide Load;
      var r, more := items[0].r, FileText(items[1..]) + last;
      assert FileText(items) + last == Text(items[0]) + more;
      ItemLoaded(items[0], more, offset, st);
      ItemOutcome(r, offset, st, more);
      var next := if IsData(r.kind) then Placed(st, (AddressValue(r.address) + offset) % TWO_32, r.data) else st;
      AbortFails(items[1..], line, c, rest, offset, next);
    }
  }

  /** A line that does not fit the buffer is cut off there, and the rest of it is the next line. */
  lemma {:induction false} LongLineCut(line: string, rest: string, room: nat, got: string)
    requires Plain(line) && |line| == room
    ensures ReadLine(line + rest, room, got) == Got(got + line, rest)
    decreases |line|
  {
    var s := line + rest;
    if line == [] {
      assert s == rest && got + line == got;
    } else {
      assert s[1..] == line[1..] + rest;
      LongLineCut(line[1..], rest, room - 1, got + [line[0]]);
      MoveHead(got, line);
    }
  }

  /** A line without an 'S' is passed over. */
  lemma CommentSkipped(line: string, c: char, rest: string, offset: int, st: Loading)
    requires Plain(line) && 'S' !in line && |line| < 516 && (c == '\n' || c == '\r')
    ensures Load(line + ([c] + rest), offset, st) == Load(rest, offset, st)
  {
    hide ReadLine;
    LineRead(line, c, rest, MAX_LINE, "");
    assert "" + line == line;
    NoRecord(line);
  }

  lemma {:induction false} NoRecord(line: string)
    requires 'S' !in line
    ensures SkipToS(line) == None
  {
    if line != [] { NoRecord(line[1..]); }
  }
}

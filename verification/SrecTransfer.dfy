/** `load_serial` undoes `save_serial`. */
module SrecTransfer {
  import opened Machine
  import opened Sequences
  import opened SrecFormat

  // ----- save_serial

  const HEADER: string := "S0030000FC\n"
  const TRAILER: string := "S70500000000FA\n"

  function Chunk(data: seq<byte>): nat {
    if |data| < BYTES_PER_RECORD then |data| else BYTES_PER_RECORD
  }

  /** Contiguous records of at most 16 bytes. */
  function Records(address: nat, data: seq<byte>): string
    requires address + |data| <= TWO_32
    decreases |data|
  {
    if data == [] then ""
    else DataRecord(address, data[..Chunk(data)]) + "\n" + Records(address + Chunk(data), data[Chunk(data)..])
  }

  function Saved(address: nat, data: seq<byte>): string
    requires address + |data| <= TWO_32
  {
    HEADER + Records(address, data) + TRAILER
  }

  // ----- load_serial

  datatype Line = Starved | Abort | Got(line: string, rest: string)

  const MAX_LINE: nat := 516
  const CTRL_C: char := '\U{0003}'

  /** `read_record`: `room` characters are left in the buffer. */
  function ReadLine(s: string, room: nat, got: string): (l: Line)
    ensures l.Got? && room > 0 ==> |l.rest| < |s|
    ensures l.Got? ==> |l.rest| <= |s|
    decreases |s|
  {
    if room == 0 then Got(got, s)
    else if s == [] then Starved
    else if s[0] == '\r' || s[0] == '\n' then Got(got, s[1..])
    else if s[0] == '\0' || s[0] == CTRL_C then Abort
    else ReadLine(s[1..], room - 1, got + [s[0]])
  }

  /** Memory, and the lowest and highest address stored to. */
  datatype Loading = Loading(mem: map<int, byte>, first: u32, last: u32)

  function Write(mem: map<int, byte>, at: int, data: seq<byte>): map<int, byte>
    decreases |data|
  {
    if data == [] then mem else Write(mem[at := data[0]], at + 1, data[1..])
  }

  function StoreRecord(st: Loading, addr: u32, data: seq<byte>, offset: int): Loading {
    var at := (addr + offset) % TWO_32;
    var end := (at + |data| - 1) % TWO_32;
    Loading(Write(st.mem, at, data), if at < st.first then at else st.first, if end > st.last then end else st.last)
  }

  /** `Failed` is the return value ~0; a data record whose length field is too short has no defined effect. */
  datatype Loaded = Waiting | Failed | Undefined | Done(entry: u32, st: Loading)

  function Size(st: Loading): u32 {
    (st.last - st.first + 1) % TWO_32
  }

  function Load(s: string, offset: int, st: Loading): Loaded
    decreases |s|
  {
    match ReadLine(s, MAX_LINE, "")
    case Starved => Waiting
    case Abort => Failed
    case Got(line, rest) =>
      match Decode(line)
      case Invalid => Failed
      case Blank => Load(rest, offset, st)
      case Decoded(kind, addr, data, count) =>
        if kind == '1' || kind == '2' || kind == '3' then
          if count < 0 then Undefined else Load(rest, offset, StoreRecord(st, addr, data, offset))
        else if kind == '7' || kind == '8' || kind == '9' then Done(addr, st)
        else Load(rest, offset, st)
  }

  function Fresh(mem: map<int, byte>): Loading {
    Loading(mem, TWO_32 - 1, 0)
  }

  // ----- lines

  predicate Plain(s: string) {
    forall i :: 0 <= i < |s| ==> s[i] != '\r' && s[i] != '\n' && s[i] != '\0' && s[i] != CTRL_C
  }

  lemma {:induction false} ReadPlain(line: string, rest: string, room: nat, got: string)
    requires Plain(line) && |line| < room
    ensures ReadLine(line + ("\n" + rest), room, got) == Got(got + line, rest)
    decreases |line|
  {
    var s := line + ("\n" + rest);
    if line == [] {
      assert s == "\n" + rest && s[1..] == rest;
      assert got + line == got;
    } else {
      assert s[1..] == line[1..] + ("\n" + rest);
      ReadPlain(line[1..], rest, room - 1, got + [line[0]]);
      MoveHead(got, line);
    }
  }

  lemma {:induction false} HexPlain(bs: seq<byte>)
    ensures Plain(HexBytes(bs)) && |HexBytes(bs)| == 2 * |bs|
    decreases |bs|
  {
    if bs != [] {
      HexPlain(bs[1..]);
      CharPlain(bs[0] / 16);
      CharPlain(bs[0] % 16);
    }
  }

  lemma CharPlain(d: nat)
    requires d < 16
    ensures Plain([HexChar(d)])
  {
  }

  lemma DataLine(address: u32, data: seq<byte>, rest: string)
    requires |data| <= BYTES_PER_RECORD
    ensures ReadLine(DataRecord(address, data) + ("\n" + rest), MAX_LINE, "") == Got(DataRecord(address, data), rest)
  {
    var line := DataRecord(address, data);
    HexPlain(Covered(address, data) + [CheckByte(Sum(Covered(address, data)))]);
    ReadPlain(line, rest, MAX_LINE, "");
    assert "" + line == line;
  }

  // ----- the two fixed records

  lemma FixedBytes()
    ensures HexBytes([0]) == "00" && HexBytes([3]) == "03" && HexBytes([5]) == "05"
    ensures HexBytes([250]) == "FA" && HexBytes([252]) == "FC"
  {
    OneByte(0); OneByte(3); OneByte(5); OneByte(250); OneByte(252);
  }

  lemma ZeroBytes()
    ensures HexBytes([0, 0]) == "0000" && HexBytes([0, 0, 0, 0]) == "00000000"
  {
    hide HexBytes;
    FixedBytes();
    assert [0, 0] == [0] + [0] && [0, 0, 0, 0] == [0, 0] + [0, 0];
    HexConcat([0], [0]);
    HexConcat([0, 0], [0, 0]);
  }

  lemma HexOfThree(a: byte, b: seq<byte>, c: byte)
    ensures HexBytes([a] + b + [] + [c]) == HexBytes([a]) + HexBytes(b) + HexBytes([c])
  {
    hide HexBytes;
    assert [a] + b + [] == [a] + b;
    HexConcat([a] + b, [c]);
    HexConcat([a], b);
  }

  lemma HeaderText()
    ensures HEADER == ['S', '0'] + HexBytes([3] + [0, 0] + [] + [252]) + "\n"
  {
    hide HexBytes;
    HexOfThree(3, [0, 0], 252);
    FixedBytes();
    ZeroBytes();
  }

  lemma TrailerText()
    ensures TRAILER == ['S', '7'] + HexBytes([5] + [0, 0, 0, 0] + [] + [250]) + "\n"
  {
    hide HexBytes;
    HexOfThree(5, [0, 0, 0, 0], 250);
    FixedBytes();
    ZeroBytes();
  }

  /** One turn of the loop of `load_serial`, by the kind of record it meets. */
  lemma LoadSkip(s: string, line: string, rest: string, offset: int, st: Loading)
    requires ReadLine(s, MAX_LINE, "") == Got(line, rest) && Decode(line).Decoded? && Decode(line).kind == '0'
    ensures Load(s, offset, st) == Load(rest, offset, st)
  {
  }

  lemma LoadEnd(s: string, line: string, rest: string, offset: int, st: Loading)
    requires ReadLine(s, MAX_LINE, "") == Got(line, rest) && Decode(line).Decoded? && Decode(line).kind == '7'
    ensures Load(s, offset, st) == Done(Decode(line).addr, st)
  {
  }

  lemma LoadData(s: string, line: string, rest: string, addr: u32, data: seq<byte>, offset: int, st: Loading)
    requires ReadLine(s, MAX_LINE, "") == Got(line, rest) && Decode(line) == Decoded('3', addr, data, |data|)
    ensures Load(s, offset, st) == Load(rest, offset, StoreRecord(st, addr, data, offset))
  {
  }

  lemma PlainLine(line: string, rest: string)
    requires Plain(line) && |line| < MAX_LINE
    ensures ReadLine(line + ("\n" + rest), MAX_LINE, "") == Got(line, rest)
  {
    ReadPlain(line, rest, MAX_LINE, "");
    assert "" + line == line;
  }

  lemma HeaderLine() returns (line: string)
    ensures HEADER == line + "\n" && Plain(line) && |line| < MAX_LINE
    ensures Decode(line).Decoded? && Decode(line).kind == '0'
  {
    hide Decode, HexBytes, Sum, BigEndian;
    HeaderText();
    line := ['S', '0'] + HexBytes([3] + [0, 0] + [] + [252]);
    HexPlain([3] + [0, 0] + [] + [252]);
    TwoZeros();
    RecordBack('0', 3, [0, 0], [], 252);
  }

  lemma HeaderBack(rest: string, offset: int, st: Loading)
    ensures Load(HEADER + rest, offset, st) == Load(rest, offset, st)
  {
    hide Load, Decode, ReadLine;
    var line := HeaderLine();
    assert HEADER + rest == line + ("\n" + rest);
    PlainLine(line, rest);
    LoadSkip(line + ("\n" + rest), line, rest, offset, st);
  }

  lemma TwoZeros()
    ensures Sum([]) == Sum([0, 0]) == Sum([0, 0, 0, 0]) == 0
    ensures BigEndian([0, 0, 0, 0]) == 0
  {
    assert [0, 0] == [0] + [0];
    assert [0, 0, 0, 0] == [0, 0] + [0, 0];
    SumConcat([0], [0]);
    SumConcat([0, 0], [0, 0]);
    assert Sum([0]) == 0;
    assert AddressOf(0) == [0, 0, 0, 0];
    AddressBack(0);
  }

  lemma TrailerLine() returns (line: string)
    ensures TRAILER == line + "\n" && Plain(line) && |line| < MAX_LINE
    ensures Decode(line).Decoded? && Decode(line).kind == '7' && Decode(line).addr == 0
  {
    hide Decode, HexBytes, Sum, BigEndian;
    TrailerText();
    line := ['S', '7'] + HexBytes([5] + [0, 0, 0, 0] + [] + [250]);
    HexPlain([5] + [0, 0, 0, 0] + [] + [250]);
    TwoZeros();
    RecordBack('7', 5, [0, 0, 0, 0], [], 250);
  }

  lemma TrailerBack(offset: int, st: Loading)
    ensures Load(TRAILER, offset, st) == Done(0, st)
  {
    hide Load, Decode, ReadLine;
    var line := TrailerLine();
    assert TRAILER == line + ("\n" + "");
    PlainLine(line, "");
    LoadEnd(line + ("\n" + ""), line, "", offset, st);
  }

  // ----- memory

  lemma {:induction false} WriteMeans(mem: map<int, byte>, at: int, data: seq<byte>, x: int)
    ensures var m := Write(mem, at, data);
            if at <= x < at + |data| then x in m && m[x] == data[x - at]
            else (x in m <==> x in mem) && (x in mem ==> m[x] == mem[x])
    decreases |data|
  {
    if data != [] { WriteMeans(mem[at := data[0]], at + 1, data[1..], x); }
  }

  lemma {:induction false} WriteConcat(mem: map<int, byte>, at: int, a: seq<byte>, b: seq<byte>)
    ensures Write(mem, at, a + b) == Write(Write(mem, at, a), at + |a|, b)
    decreases |a|
  {
    if a == [] {
      assert a + b == b;
    } else {
      assert (a + b)[1..] == a[1..] + b;
      WriteConcat(mem[at := a[0]], at + 1, a[1..], b);
    }
  }

  // ----- the round trip

  function LowOf(a: int, b: int): int { if a < b then a else b }
  function HighOf(a: int, b: int): int { if a > b then a else b }

  /** What loading a stretch of memory does to the state. */
  function Stored(st: Loading, at: nat, data: seq<byte>): Loading
    requires at + |data| <= TWO_32
  {
    if data == [] then st
    else Loading(Write(st.mem, at, data), LowOf(at, st.first), HighOf(at + |data| - 1, st.last))
  }

  lemma StoredRecord(st: Loading, address: nat, data: seq<byte>, offset: int)
    requires 0 < |data| && address < TWO_32 && 0 <= address + offset && address + offset + |data| <= TWO_32
    ensures StoreRecord(st, address, data, offset) == Stored(st, address + offset, data)
  {
  }

  lemma OneRecord(address: nat, data: seq<byte>, rest: string, offset: int, st: Loading)
    requires 0 < |data| <= BYTES_PER_RECORD && address + |data| <= TWO_32
    requires 0 <= address + offset && address + offset + |data| <= TWO_32
    ensures Load(DataRecord(address, data) + ("\n" + rest), offset, st)
            == Load(rest, offset, Stored(st, address + offset, data))
  {
    var line := DataRecord(address, data);
    DataLine(address, data, rest);
    DataRecordBack(address, data);
    StoredRecord(st, address, data, offset);
    LoadData(line + ("\n" + rest), line, rest, address, data, offset, st);
  }

  lemma StoredTwice(st: Loading, at: nat, head: seq<byte>, tail: seq<byte>)
    requires head != [] && at + |head| + |tail| <= TWO_32
    ensures Stored(Stored(st, at, head), at + |head|, tail) == Stored(st, at, head + tail)
  {
    WriteConcat(st.mem, at, head, tail);
    if tail == [] { assert head + tail == head; }
  }

  lemma NothingStored(st: Loading, at: nat)
    requires at <= TWO_32
    ensures Stored(st, at, []) == st
  {
  }

  lemma SplitRecords(address: nat, data: seq<byte>, rest: string)
    requires data != [] && address + |data| <= TWO_32
    ensures var k := Chunk(data);
            Records(address, data) + rest
            == DataRecord(address, data[..k]) + ("\n" + (Records(address + k, data[k..]) + rest))
  {
    hide DataRecord;
    var k := Chunk(data);
    Regroup(DataRecord(address, data[..k]), "\n", Records(address + k, data[k..]), rest);
  }

  lemma RecordsStep(address: nat, data: seq<byte>, rest: string, offset: int, st: Loading)
    requires data != [] && address + |data| <= TWO_32
    requires 0 <= address + offset && address + offset + |data| <= TWO_32
    ensures var k := Chunk(data);
            Load(Records(address, data) + rest, offset, st)
            == Load(Records(address + k, data[k..]) + rest, offset, Stored(st, address + offset, data[..k]))
  {
    hide Decode, ReadLine, DataRecord, StoreRecord;
    var k := Chunk(data);
    SplitRecords(address, data, rest);
    OneRecord(address, data[..k], Records(address + k, data[k..]) + rest, offset, st);
  }

  lemma {:induction false} AllRecords(address: nat, data: seq<byte>, rest: string, offset: int, st: Loading)
    requires address + |data| <= TWO_32
    requires 0 <= address + offset && address + offset + |data| <= TWO_32
    ensures Load(Records(address, data) + rest, offset, st) == Load(rest, offset, Stored(st, address + offset, data))
    decreases |data|
  {
    hide Decode, ReadLine, DataRecord, StoreRecord, Stored;
    if data == [] {
      assert Records(address, data) + rest == rest;
      assert Stored(st, address + offset, data) == st by { NothingStored(st, address + offset); }
    } else {
      var k := Chunk(data);
      assert data == data[..k] + data[k..];
      StoredTwice(st, address + offset, data[..k], data[k..]);
      RecordsStep(address, data, rest, offset, st);
      AllRecords(address + k, data[k..], rest, offset, Stored(st, address + offset, data[..k]));
    }
  }

  lemma SavedBack(address: nat, data: seq<byte>, offset: int, mem: map<int, byte>)
    requires address + |data| <= TWO_32
    requires 0 <= address + offset && address + offset + |data| <= TWO_32
    ensures Load(Saved(address, data), offset, Fresh(mem)) == Done(0, Stored(Fresh(mem), address + offset, data))
  {
    hide Load, Records, Stored;
    var st, records := Fresh(mem), Records(address, data);
    assert Saved(address, data) == HEADER + (records + TRAILER);
    HeaderBack(records + TRAILER, offset, st);
    AllRecords(address, data, TRAILER, offset, st);
    TrailerBack(offset, Stored(st, address + offset, data));
  }

  /**
   Loading what was saved stores every byte at its address (moved by the offset), touches
   nothing else, and reports the number of bytes saved.
   */
  lemma SaveLoad(address: nat, data: seq<byte>, offset: int, mem: map<int, byte>)
    requires data != [] && address + |data| <= TWO_32
    requires 0 <= address + offset && address + offset + |data| <= TWO_32
    ensures var r := Load(Saved(address, data), offset, Fresh(mem));
            r.Done? && Size(r.st) == |data| % TWO_32 && Copied(mem, r.st.mem, address + offset, data)
  {
    hide Load, Saved, Write, Copied;
    SavedBack(address, data, offset, mem);
    WriteCopies(mem, address + offset, data);
  }

  /** `data` lies at `at`, and everything else is as it was. */
  ghost predicate Copied(mem: map<int, byte>, mem': map<int, byte>, at: int, data: seq<byte>) {
    && (forall x :: at <= x < at + |data| ==> x in mem' && mem'[x] == data[x - at])
    && (forall x :: x < at || at + |data| <= x ==> (x in mem' <==> x in mem) && (x in mem ==> mem'[x] == mem[x]))
  }

  lemma WriteCopies(mem: map<int, byte>, at: int, data: seq<byte>)
    ensures Copied(mem, Write(mem, at, data), at, data)
  {
    var m := Write(mem, at, data);
    forall x | at <= x < at + |data| ensures x in m && m[x] == data[x - at] { WriteMeans(mem, at, data, x); }
    forall x | x < at || at + |data| <= x ensures (x in m <==> x in mem) && (x in mem ==> m[x] == mem[x]) {
      WriteMeans(mem, at, data, x);
    }
  }

  /** Saving nothing and loading it reports two bytes: the size is right exactly when something was saved. */
  lemma EmptySave(address: nat, offset: int, mem: map<int, byte>)
    requires address < TWO_32 && 0 <= address + offset < TWO_32
    ensures var r := Load(Saved(address, []), offset, Fresh(mem));
            r.Done? && r.st.mem == mem && Size(r.st) == 2
  {
    hide Load, Saved, Write;
    SavedBack(address, [], offset, mem);
  }
}

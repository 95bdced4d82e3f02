/** The loops of `save_serial`, `read_record` and `load_serial`, proved against `SrecTransfer`. */
module SrecCode {
  import opened Machine
  import opened Sequences
  import opened SrecFormat
  import opened SrecTransfer

  ghost predicate Present(mem: map<int, byte>, address: int, count: nat) {
    forall x :: address <= x < address + count ==> x in mem
  }

  /** The bytes of memory from `address` on. */
  ghost function Contents(mem: map<int, byte>, address: int, count: nat): (s: seq<byte>)
    requires Present(mem, address, count)
    ensures |s| == count && forall i :: 0 <= i < count ==> s[i] == mem[address + i]
  {
    seq(count, i requires 0 <= i < count => mem[address + i])
  }

  /** The four address bytes added to the checksum, low byte first. */
  method AddressSum(address: u32) returns (sum: nat)
    ensures sum == Sum(AddressOf(address))
  {
    var a := address / 256;
    var b := a / 256;
    sum := address % 256 + a % 256 + b % 256 + b / 256;
    var bs := AddressOf(address);
    assert bs == [b / 256, b % 256] + [a % 256, address % 256];
    SumConcat([b / 256, b % 256], [a % 256, address % 256]);
    SumTwo(b / 256, b % 256);
    SumTwo(a % 256, address % 256);
  }

  /** Completing the checksum and printing one record. */
  method WriteDataRecord(address: u32, hex: string, sum: nat, ghost data: seq<byte>, reclen: nat) returns (record: string)
    requires |data| == reclen <= BYTES_PER_RECORD && hex == HexBytes(data) && sum == Sum(data)
    ensures record == DataRecord(address, data) + "\n"
  {
    var length: byte := 4 + reclen + 1;
    var addressSum := AddressSum(address);
    var checksum: byte := 255 - (sum + length + addressSum) % 256;
    CoveredSum(address, data);
    RecordText(length, AddressOf(address), data, checksum);
    record := "S3" + Hex2(length) + HexBytes(AddressOf(address)) + hex + Hex2(checksum) + "\n";
    RegroupFive("S3", Hex2(length), HexBytes(AddressOf(address)), hex, Hex2(checksum));
    assert ['S', '3'] == "S3";
  }

  /** One more byte collected for the current record. */
  lemma Collect(data: seq<byte>, c: byte)
    ensures HexBytes(data + [c]) == HexBytes(data) + Hex2(c) && Sum(data + [c]) == Sum(data) + c
  {
    HexConcat(data, [c]);
    OneByte(c);
    SumConcat(data, [c]);
    assert Sum([c]) == c;
  }

  /** A full record, or the last one, moves from what is left to what is written. */
  lemma Flush(text: string, address: nat, left: seq<byte>, k: nat)
    requires address + |left| <= TWO_32 && left != [] && k == Chunk(left)
    ensures text + (DataRecord(address, left[..k]) + "\n") + Records(address + k, left[k..]) == text + Records(address, left)
  {
    Associate(text, DataRecord(address, left[..k]) + "\n", Records(address + k, left[k..]));
  }

  /** Dumping the collected bytes as one record. */
  method FlushRecord(text: string, address: nat, hex: string, sum: nat, reclen: nat, ghost left: seq<byte>) returns (out: string)
    requires address + |left| <= TWO_32 && reclen <= |left| && (left != [] ==> reclen == Chunk(left))
    requires hex == HexBytes(left[..reclen]) && sum == Sum(left[..reclen])
    ensures out + Records(address + reclen, left[reclen..]) == text + Records(address, left)
  {
    out := text;
    if reclen > 0 {
      var record := WriteDataRecord(address, hex, sum, left[..reclen], reclen);
      Flush(text, address, left, reclen);
      out := text + record;
    }
  }

  /** `save_serial`, without the console hang-up test. */
  method SaveSerial(mem: map<int, byte>, start: u32, total: nat) returns (text: string)
    requires start as int + total <= TWO_32 && Present(mem, start, total)
    ensures text == Saved(start, Contents(mem, start, total))
  {
    hide DataRecord, Hex2, HexBytes, Sum, Contents;
    ghost var all := Contents(mem, start, total);
    NoBytes();
    var address: nat, count: nat, reclen: nat, checksum: nat, data := start, total, 0, 0, "";
    text := HEADER;
    ghost var left, taken: seq<byte> := all, [];
    while true
      invariant start <= address && |left| == reclen + count && address + |left| == start + total && reclen < BYTES_PER_RECORD
      invariant count == 0 ==> reclen == 0
      invariant forall i :: 0 <= i < |left| ==> left[i] == mem[address + i]
      invariant taken == left[..reclen] && data == HexBytes(taken) && checksum == Sum(taken)
      invariant text + Records(address, left) == HEADER + Records(start, all)
      decreases count
    {
      if count > 0 {
        var c := mem[address + reclen];
        Collect(taken, c);
        checksum := checksum + c;
        data := data + Hex2(c);
        taken := taken + [c];
        reclen, count := reclen + 1, count - 1;
        assert taken == left[..reclen];
      }
      if reclen == BYTES_PER_RECORD || count == 0 {
        text := FlushRecord(text, address, data, checksum, reclen, left);
        address, left := address + reclen, left[reclen..];
        checksum, reclen, data, taken := 0, 0, "", [];
      }
      if count == 0 { break; }
    }
    text := text + TRAILER;
  }

  lemma NoBytes()
    ensures HexBytes([]) == "" && Sum([]) == 0
  {
  }

  /** `read_record` on the stream from `p`. */
  method ReadRecord(s: string, p: nat) returns (l: Line, q: nat)
    requires p <= |s|
    ensures p <= q <= |s|
    ensures l == ReadLine(s[p..], MAX_LINE, "")
    ensures l.Got? ==> q > p && l.rest == s[q..]
  {
    var line := "";
    q := p;
    while |line| < MAX_LINE
      invariant p <= q <= |s| && |line| == q - p <= MAX_LINE
      invariant ReadLine(s[p..], MAX_LINE, "") == ReadLine(s[q..], MAX_LINE - |line|, line)
      decreases MAX_LINE - |line|
    {
      if q == |s| { return Starved, q; }
      var c := s[q];
      assert s[q..][1..] == s[q + 1..];
      q := q + 1;
      if c == '\r' || c == '\n' { return Got(line, s[q..]), q; }
      if c == '\0' || c == CTRL_C { return Abort, q; }
      line := line + [c];
    }
    l := Got(line, s[q..]);
  }

  /** What the switch of `load_serial` does with one record: go on with a new state, or stop. */
  function Handle(r: Record, offset: int, st: Loading): (Option<Loaded>, Loading) {
    match r
    case Invalid => (Some(Failed), st)
    case Blank => (None, st)
    case Decoded(kind, addr, data, count) =>
      if kind == '1' || kind == '2' || kind == '3' then
        if count < 0 then (Some(Undefined), st) else (None, StoreRecord(st, addr, data, offset))
      else if kind == '7' || kind == '8' || kind == '9' then (Some(Done(addr, st)), st)
      else (None, st)
  }

  lemma HandleIsLoad(s: string, offset: int, st: Loading, line: string, rest: string)
    requires ReadLine(s, MAX_LINE, "") == Got(line, rest)
    ensures var (stop, next) := Handle(Decode(line), offset, st);
            Load(s, offset, st) == if stop.Some? then stop.value else Load(rest, offset, next)
  {
  }

  /** `load_serial` into memory. */
  method LoadSerial(s: string, offset: int, mem: map<int, byte>) returns (r: Loaded)
    ensures r == Load(s, offset, Fresh(mem))
  {
    var st, p := Fresh(mem), 0;
    assert s[0..] == s;
    while true
      invariant 0 <= p <= |s| && Load(s, offset, Fresh(mem)) == Load(s[p..], offset, st)
      decreases |s| - p
    {
      hide Decode, ReadLine, StoreRecord;
      var l, q := ReadRecord(s, p);
      match l {
        case Starved => return Waiting;
        case Abort => return Failed;
        case Got(line, rest) =>
          var (stop, next) := Handle(Decode(line), offset, st);
          HandleIsLoad(s[p..], offset, st, line, rest);
          if stop.Some? { return stop.value; }
          st, p := next, q;
      }
    }
  }
}

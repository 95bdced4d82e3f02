/** The cursor-moving loops of `mtdparts.c`, proved against `MtdText`. */
module MtdCode {
  import opened Machine
  import opened Sequences
  import opened NumberText
  import opened MtdDevice
  import opened MtdTable
  import opened MtdText

  // ----- generate_mtdparts

  /** The text of the first `n` partitions, the separators behind them included. */
  function Printed(parts: seq<Part>, n: nat): string
    requires n <= |parts|
  {
    if n == 0 then ""
    else
      Printed(parts, n - 1) + PartText(parts[n - 1], if n == 1 then 0 else EndOf(parts[n - 2]))
      + (if n < |parts| then "," else "")
  }

  lemma {:induction false} PrintedSuffix(parts: seq<Part>, n: nat)
    requires n <= |parts|
    ensures PartsText(parts, 0) == Printed(parts, n) + PartsText(parts[n..], if n == 0 then 0 else EndOf(parts[n - 1]))
  {
    hide PartText, EndOf;
    if n == 0 {
      assert parts[0..] == parts;
    } else {
      PrintedSuffix(parts, n - 1);
      var rest := parts[n - 1..];
      assert rest[0] == parts[n - 1] && rest[1..] == parts[n..];
      Regroup(Printed(parts, n - 1), PartText(rest[0], if n == 1 then 0 else EndOf(parts[n - 2])),
                  if |rest| > 1 then "," else "", PartsText(rest[1..], EndOf(rest[0])));
    }
  }

  method GeneratePart(part: Part, prev: Option<Part>) returns (text: string)
    ensures text == PartText(part, if prev.Some? then EndOf(prev.value) else 0)
  {
    text := MemsizeFormat(part.size);
    if (prev.None? && part.offset != 0) || (prev.Some? && (prev.value.offset + prev.value.size) % TWO_64 != part.offset) {
      text := text + "@" + MemsizeFormat(part.offset);
    }
    if part.name.Some? {
      text := text + "(" + part.name.value + ")";
    }
    if part.readOnly {
      text := text + "ro";
    }
  }

  method GenerateDevice(dev: Device) returns (text: string)
    requires dev.numParts == |dev.parts|
    ensures text == DeviceText(dev)
  {
    hide PartText, EndOf;
    var list := "";
    var prev: Option<Part> := None;
    var partCnt := 0;
    for i := 0 to |dev.parts|
      invariant partCnt == i && prev == (if i == 0 then None else Some(dev.parts[i - 1]))
      invariant list == Printed(dev.parts, i)
    {
      var part := dev.parts[i];
      partCnt := partCnt + 1;
      var one := GeneratePart(part, prev);
      list := list + one;
      if dev.numParts > partCnt { list := list + ","; }
      prev := Some(part);
    }
    PrintedSuffix(dev.parts, |dev.parts|);
    text := dev.id.mtdId + ":" + list;
  }

  function PrintedDevices(devices: seq<Device>, n: nat): string
    requires n <= |devices|
  {
    if n == 0 then ""
    else PrintedDevices(devices, n - 1) + DeviceText(devices[n - 1]) + (if n < |devices| then ";" else "")
  }

  lemma {:induction false} PrintedDevicesSuffix(devices: seq<Device>, n: nat)
    requires n <= |devices|
    ensures DevicesText(devices) == PrintedDevices(devices, n) + DevicesText(devices[n..])
  {
    if n == 0 {
      assert devices[0..] == devices;
    } else {
      PrintedDevicesSuffix(devices, n - 1);
      var rest := devices[n - 1..];
      assert rest[0] == devices[n - 1] && rest[1..] == devices[n..];
      Regroup(PrintedDevices(devices, n - 1), DeviceText(rest[0]), if |rest| > 1 then ";" else "", DevicesText(rest[1..]));
    }
  }

  /** `generate_mtdparts`, without its buffer limit. */
  method GenerateMtdparts(devices: seq<Device>) returns (text: string)
    requires forall i :: 0 <= i < |devices| ==> devices[i].numParts == |devices[i].parts|
    ensures text == Generate(devices)
  {
    if devices == [] { return ""; }
    var list := "";
    for i := 0 to |devices|
      invariant list == PrintedDevices(devices, i)
    {
      var one := GenerateDevice(devices[i]);
      list := list + one;
      if i + 1 != |devices| { list := list + ";"; }
    }
    PrintedDevicesSuffix(devices, |devices|);
    text := "mtdparts=" + list;
  }

  // ----- part_parse

  method Strchr(s: string, p: nat, c: char) returns (k: Option<nat>)
    requires p <= |s|
    ensures k == match Find(s[p..], c) case None => None case Some(d) => Some(p + d)
  {
    var q := p;
    while q < |s|
      invariant p <= q <= |s|
      invariant Find(s[p..], c) == match Find(s[q..], c) case None => None case Some(d) => Some(q - p + d)
    {
      if s[q] == c { return Some(q); }
      assert s[q..][1..] == s[q + 1..];
      q := q + 1;
    }
    k := None;
  }

  /** The name field: nothing on a missing or empty name, else the name and the cursor behind it. */
  method ParseNameAt(s: string, p: nat) returns (ok: bool, name: Option<string>, q: nat)
    requires p <= |s|
    ensures ok == ParseName(s[p..]).Some?
    ensures p <= q <= |s| && (ok ==> ParseName(s[p..]) == Some(Named(name, s[q..])))
  {
    q, name := p, None;
    if p < |s| && s[p] == '(' {
      assert s[p..][1..] == s[p + 1..];
      var k := Strchr(s, p + 1, ')');
      if k.None? { return false, None, p; }
      if k.value == p + 1 { return false, None, p; }
      name := Some(s[p + 1..k.value]);
      q := k.value + 1;
      ghost var d := k.value - (p + 1);
      assert s[p..][1..d + 1] == s[p + 1..k.value] && s[p..][d + 2..] == s[q..];
    }
    ok := true;
  }

  /** `part_parse` from the cursor `p`; `q` is where `*ret` points. */
  method PartParseAt(s: string, p: nat) returns (part: Option<Part>, q: nat)
    requires p <= |s|
    ensures p <= q <= |s|
    ensures match PartParse(s[p..])
            case PartError => part == None
            case PartOk(read, rest) => part == Some(read) && rest == s[q..] && p < q
  {
    hide MemsizeParse, ParseName, Finish, StartsWith;
    var size: u64, offset: u64;
    q := p;
    if q < |s| && s[q] == '-' {
      size := SIZE_REMAINING;
      assert s[q..][1..] == s[q + 1..];
      q := q + 1;
    } else {
      size, q := ParseMemsize(s, q);
      if size < MIN_PART_SIZE { return None, q; }
    }
    ghost var afterSize := q;
    assert ParseSize(s[p..]) == Some(Parsed(size, s[q..]));
    offset := OFFSET_NOT_SPECIFIED;
    if q < |s| && s[q] == '@' {
      assert s[q..][1..] == s[q + 1..];
      offset, q := ParseMemsize(s, q + 1);
    }
    assert ParseOffset(s[afterSize..]) == Parsed(offset, s[q..]);
    part, q := FinishParse(s, q, size, offset);
  }

  /** Name, option and separator. */
  method FinishParse(s: string, p: nat, size: u64, offset: u64) returns (part: Option<Part>, q: nat)
    requires p <= |s|
    ensures p <= q <= |s|
    ensures var r := match ParseName(s[p..])
                     case None => PartError
                     case Some(named) =>
                       var ro := StartsWith(named.rest, "ro");
                       Finish(Part(size, offset, named.name, ro), if ro then named.rest[2..] else named.rest);
            match r
            case PartError => part == None
            case PartOk(read, rest) => part == Some(read) && rest == s[q..]
  {
    var ok, name, q1 := ParseNameAt(s, p);
    q := q1;
    if !ok { return None, q; }
    var ro := q + 2 <= |s| && s[q..q + 2] == "ro";
    assert ro == StartsWith(s[q..], "ro") by { assert |s[q..]| >= 2 ==> s[q..][..2] == s[q..q + 2]; }
    if ro {
      assert s[q..][2..] == s[q + 2..];
      q := q + 2;
    }
    var read := Part(size, offset, name, ro);
    if q < |s| && s[q] == ',' {
      if size == SIZE_REMAINING { return None, q; }
      assert s[q..][1..] == s[q + 1..];
      return Some(read), q + 1;
    }
    if q == |s| || s[q] == ';' { return Some(read), q; }
    part := None;
  }

  // ----- device_parse and parse_mtdparts

  /** A uniform device has an erase size to divide by. */
  ghost predicate Divisible(id: Id) {
    id.geometry.Some? && id.geometry.value.regions == [] ==> id.geometry.value.erasesize > 0
  }

  /** Fill in the offset and run `part_validate`, which fills in the size. */
  method PlacePart(id: Id, part: Part, offset: u64) returns (placed: Option<Part>)
    requires Divisible(id)
    ensures placed == Place(id, part, offset)
  {
    var at := if part.offset == OFFSET_NOT_SPECIFIED then offset else part.offset;
    var size := part.size;
    if size == SIZE_REMAINING { size := (id.size - at) % TWO_64; }
    if at > id.size { return None; }
    if (at + size) % TWO_64 <= at { return None; }
    if (at + size) % TWO_64 > id.size { return None; }
    var ok := PartValidateEraseblock(id, at, size);
    placed := if ok then Some(part.(offset := at, size := size)) else None;
  }

  /** One turn of the partition loop. */
  method ParseOne(id: Id, s: string, q: nat, offset: u64, ghost list: seq<Part>) returns (placed: Option<Part>, next: nat)
    requires q < |s| && s[q] != ';' && Divisible(id)
    ensures placed.None? ==> ParseParts(id, s[q..], offset, list) == PartsError
    ensures placed.Some? ==>
              && q < next <= |s|
              && ParseParts(id, s[q..], offset, list) == ParseParts(id, s[next..], EndOf(placed.value), list + [placed.value])
  {
    var part, n := PartParseAt(s, q);
    next := n;
    if part.None? { return None, next; }
    placed := PlacePart(id, part.value, offset);
  }

  /** The partition loop: collects into `tmp_list`. */
  method ParsePartsAt(id: Id, s: string, p: nat, first: u64) returns (parts: Option<seq<Part>>, q: nat)
    requires p <= |s| && Divisible(id)
    ensures p <= q <= |s|
    ensures match ParseParts(id, s[p..], first, [])
            case PartsError => parts == None
            case PartsOk(read, rest) => parts == Some(read) && rest == s[q..]
  {
    var list: seq<Part>, offset: u64, err := [], first, true;
    ghost var result := ParseParts(id, s[p..], first, []);
    q := p;
    while q < |s| && s[q] != ';'
      invariant p <= q <= |s| && err == (list == [])
      invariant result == ParseParts(id, s[q..], offset, list)
    {
      var placed, next := ParseOne(id, s, q, offset, list);
      if placed.None? { return None, q; }
      offset := EndOf(placed.value);
      list, err, q := list + [placed.value], false, next;
    }
    parts := if err then None else Some(list);
  }

  method FindIdIn(ids: seq<Id>, mtdId: string) returns (id: Option<Id>)
    ensures id == FindId(ids, mtdId)
  {
    for i := 0 to |ids|
      invariant FindId(ids, mtdId) == FindId(ids[i..], mtdId)
    {
      if ids[i].mtdId == mtdId { return Some(ids[i]); }
      assert ids[i..][1..] == ids[i + 1..];
    }
    id := None;
  }

  method FindDeviceIn(devices: seq<Device>, id: Id) returns (k: Option<nat>)
    ensures k == FindDevice(devices, id)
  {
    for i := 0 to |devices|
      invariant FindDevice(devices, id) == match FindDevice(devices[i..], id) case None => None case Some(d) => Some(i + d)
    {
      if devices[i].id.kind == id.kind && devices[i].id.num == id.num { return Some(i); }
      assert devices[i..][1..] == devices[i + 1..];
    }
    k := None;
  }

  /** Move the partitions to the new device, one `part_sort_add` after the other. */
  method SortParts(id: Id, parts: seq<Part>) returns (sorted: Option<seq<Part>>)
    ensures sorted == AddAll([], parts)
  {
    var t := new PartitionTable(Table([Device(id, [], 0)], None, 0));
    for i := 0 to |parts|
      invariant |t.devices| == 1 && Sorted(t.devices[0].parts)
      invariant AddAll([], parts) == AddAll(t.devices[0].parts, parts[i..])
    {
      InsertKeepsOrder(t.devices[0].parts, parts[i]);
      assert parts[i..][1..] == parts[i + 1..];
      var ok := t.PartSortAdd(0, parts[i]);
      if !ok { return None; }
    }
    sorted := Some(t.devices[0].parts);
  }

  /** Behind the last partition of a device that is already listed. */
  method StartOffset(devices: seq<Device>, id: Id) returns (offset: u64)
    ensures offset == FirstOffset(devices, id)
  {
    var k := FindDeviceIn(devices, id);
    offset := 0;
    if k.Some? && devices[k.value].parts != [] {
      var last := devices[k.value].parts[|devices[k.value].parts| - 1];
      offset := (last.offset + last.size) % TWO_64;
    }
  }

  method DeviceParseAt(ids: seq<Id>, devices: seq<Device>, s: string, p: nat) returns (dev: Option<Device>, q: nat)
    requires p <= |s| && forall i :: 0 <= i < |ids| ==> Divisible(ids[i])
    ensures p <= q <= |s|
    ensures match DeviceParse(ids, devices, s[p..])
            case DeviceError => dev == None
            case DeviceOk(read, rest) => dev == Some(read) && rest == s[q..]
  {
    hide Find, FindId, FirstOffset, ParseParts, AddAll;
    var colon := Strchr(s, p, ':');
    if colon.None? { return None, p; }
    var mtdId := s[p..colon.value];
    assert s[p..][..colon.value - p] == mtdId;
    var id := FindIdIn(ids, mtdId);
    if id.None? { return None, p; }
    FoundIdIsListed(ids, mtdId);
    var offset := StartOffset(devices, id.value);
    assert s[p..][colon.value - p + 1..] == s[colon.value + 1..];
    dev, q := DeviceBody(id.value, s, colon.value + 1, offset);
  }

  lemma FoundIdIsListed(ids: seq<Id>, mtdId: string)
    ensures FindId(ids, mtdId).Some? ==> FindId(ids, mtdId).value in ids
  {
  }

  /** Partitions, the step over the separator, and the new device. */
  method DeviceBody(id: Id, s: string, p: nat, offset: u64) returns (dev: Option<Device>, q: nat)
    requires p <= |s| && Divisible(id)
    ensures p <= q <= |s|
    ensures var r := match ParseParts(id, s[p..], offset, [])
                     case PartsError => DeviceError
                     case PartsOk(parts, rest) =>
                       match AddAll([], parts)
                       case None => DeviceError
                       case Some(sorted) => DeviceOk(Device(id, sorted, |sorted|), if rest == [] then rest else rest[1..]);
            match r
            case DeviceError => dev == None
            case DeviceOk(read, rest) => dev == Some(read) && rest == s[q..]
  {
    var parts, q1 := ParsePartsAt(id, s, p, offset);
    q := q1;
    if parts.None? { return None, q; }
    if q < |s| && s[q] == ';' {
      assert s[q..][1..] == s[q + 1..];
      q := q + 1;
    }
    var sorted := SortParts(id, parts.value);
    if sorted.None? { return None, q; }
    dev := Some(Device(id, sorted.value, |sorted.value|));
  }

  /** `parse_mtdparts`. */
  method ParseMtdparts(ids: seq<Id>, s: string) returns (devices: Option<seq<Device>>)
    requires forall i :: 0 <= i < |ids| ==> Divisible(ids[i])
    ensures devices == Parse(ids, s)
  {
    if !(|s| >= 9 && s[..9] == "mtdparts=") { return None; }
    var p, list: seq<Device>, err := 9, [], true;
    while p < |s|
      invariant 9 <= p <= |s| && err == (list == [])
      invariant Parse(ids, s) == ParseDevices(ids, s[p..], list)
      decreases |s| - p
    {
      ghost var result := DeviceParse(ids, list, s[p..]);
      var dev, q := DeviceParseAt(ids, list, s, p);
      if dev.None? { return None; }
      var k := FindDeviceIn(list, dev.value.id);
      if k.Some? { return None; }
      list, err, p := list + [dev.value], false, q;
    }
    devices := if err then None else Some(list);
  }
}

/** Parsing the generated `mtdparts` text rebuilds the device list. */
module MtdRoundTrip {
  import opened Machine
  import opened Sequences
  import opened NumberText
  import opened MtdDevice
  import opened MtdTable
  import opened MtdText

  // ----- what can be printed and read back

  ghost predicate GoodPart(id: Id, part: Part) {
    && MIN_PART_SIZE <= part.size < SIZE_REMAINING
    && PartValidate(id, part.offset, part.size) == Some(part.size)
  }

  ghost predicate Increasing(parts: seq<Part>) {
    forall i, j :: 0 <= i < j < |parts| ==> parts[i].offset < parts[j].offset
  }

  ghost predicate GoodDevice(ids: seq<Id>, dev: Device) {
    && FindId(ids, dev.id.mtdId) == Some(dev.id)
    && dev.parts != [] && dev.numParts == |dev.parts|
    && Increasing(dev.parts)
    && forall i :: 0 <= i < |dev.parts| ==> GoodPart(dev.id, dev.parts[i])
  }

  predicate SameUnit(a: Id, b: Id) {
    a.kind == b.kind && a.num == b.num
  }

  ghost predicate GoodList(ids: seq<Id>, devices: seq<Device>) {
    && (forall i :: 0 <= i < |devices| ==> GoodDevice(ids, devices[i]))
    && forall i, j :: 0 <= i < j < |devices| ==> !SameUnit(devices[i].id, devices[j].id)
  }

  /** The name is generated, or one that the parser takes whole. */
  predicate Nameable(part: Part) {
    part.name.Some? ==> part.name.value != [] && ')' !in part.name.value
  }

  predicate AllNameable(parts: seq<Part>) {
    forall i :: 0 <= i < |parts| ==> Nameable(parts[i])
  }

  /** Neither the id nor a partition name is one that the parser would cut short or refuse. */
  predicate Legible(dev: Device) {
    ':' !in dev.id.mtdId && AllNameable(dev.parts)
  }

  predicate AllLegible(devices: seq<Device>) {
    forall i :: 0 <= i < |devices| ==> Legible(devices[i])
  }

  // ----- one partition

  lemma {:induction false} NumeralStarts(n: nat)
    ensures IsDigit(Numeral(n, 10)[0])
    decreases n
  {
    if n >= 10 { NumeralStarts(Quotient(n, 10)); }
  }

  lemma MemsizeStarts(size: u64)
    ensures MemsizeFormat(size) != [] && IsDigit(MemsizeFormat(size)[0])
  {
    NumeralStarts(size / 0x4000_0000);
    NumeralStarts(size / 0x10_0000);
    NumeralStarts(size / 0x400);
    NumeralStarts(size);
  }

  /** The end of a partition: nothing, or a separator. */
  predicate Separated(tail: string) {
    tail == [] || tail[0] == ',' || tail[0] == ';'
  }

  function FlagText(part: Part): string {
    if part.readOnly then "ro" else ""
  }

  function NameText(part: Part): string {
    if part.name.Some? then "(" + part.name.value + ")" else ""
  }

  function OffsetText(part: Part, expected: u64): string {
    if part.offset != expected then "@" + MemsizeFormat(part.offset) else ""
  }

  lemma SizeField(size: u64, rest: string)
    requires Delimited(rest) && size >= MIN_PART_SIZE
    ensures ParseSize(MemsizeFormat(size) + rest) == Some(Parsed(size, rest))
  {
    MemsizeStarts(size);
    MemsizeRoundTrip(size, rest);
  }

  lemma OffsetField(part: Part, expected: u64, rest: string)
    requires Delimited(rest) && !At(rest, '@')
    ensures ParseOffset(OffsetText(part, expected) + rest)
            == Parsed(if part.offset == expected then OFFSET_NOT_SPECIFIED else part.offset, rest)
  {
    hide MemsizeFormat, MemsizeParse;
    var s := OffsetText(part, expected) + rest;
    if part.offset == expected {
      assert s == rest;
    } else {
      assert s[1..] == MemsizeFormat(part.offset) + rest;
      MemsizeRoundTrip(part.offset, rest);
    }
  }

  lemma Bracketed(name: string, rest: string)
    ensures var s := ['('] + (name + ([')'] + rest));
            s[0] == '(' && s[1..] == name + ([')'] + rest) && s[1..|name| + 1] == name && s[|name| + 2..] == rest
  {
  }

  lemma NameTextOf(part: Part, rest: string)
    ensures NameText(part) + rest ==
            if part.name.None? then rest else ['('] + (part.name.value + ([')'] + rest))
  {
  }

  lemma NameField(part: Part, rest: string)
    requires !At(rest, '(') && Nameable(part)
    ensures ParseName(NameText(part) + rest) == Some(Named(part.name, rest))
  {
    hide Find, NameText;
    NameTextOf(part, rest);
    if part.name.Some? {
      Bracketed(part.name.value, rest);
      FindBehind(part.name.value, ')', rest);
    }
  }

  lemma {:induction false} FindBehind(s: string, c: char, rest: string)
    requires c !in s
    ensures Find(s + ([c] + rest), c) == Some(|s|)
    decreases |s|
  {
    var t := s + ([c] + rest);
    if s != [] {
      assert t[1..] == s[1..] + ([c] + rest);
      FindBehind(s[1..], c, rest);
    }
  }

  lemma FlagField(part: Part, tail: string)
    requires Separated(tail)
    ensures StartsWith(FlagText(part) + tail, "ro") == part.readOnly
    ensures part.readOnly ==> (FlagText(part) + tail)[2..] == tail
    ensures !part.readOnly ==> FlagText(part) + tail == tail
  {
    var s := FlagText(part) + tail;
    if part.readOnly {
      assert s[..2] == "ro";
    } else if |s| >= 2 {
      assert s[..2][0] == s[0] && "ro"[0] == 'r';
    }
  }

  lemma PartTextOf(part: Part, expected: u64, tail: string)
    ensures PartText(part, expected) + tail ==
            MemsizeFormat(part.size) + (OffsetText(part, expected) + (NameText(part) + (FlagText(part) + tail)))
  {
    hide MemsizeFormat;
    RegroupFive(MemsizeFormat(part.size), OffsetText(part, expected), NameText(part), FlagText(part), tail);
  }

  /** What may follow a field does not run on into it. */
  lemma FieldsApart(part: Part, tail: string)
    requires Separated(tail)
    ensures var s3 := FlagText(part) + tail;
            var s2 := NameText(part) + s3;
            !At(s3, '(') && Delimited(s2) && !At(s2, '@')
  {
  }

  /** A partition text is read field by field. */
  lemma PartRoundTrip(part: Part, expected: u64, tail: string)
    requires part.size >= MIN_PART_SIZE && Separated(tail)
    requires Nameable(part)
    ensures var read := part.(offset := if part.offset == expected then OFFSET_NOT_SPECIFIED else part.offset);
            PartParse(PartText(part, expected) + tail) == Finish(read, tail)
  {
    var s3 := FlagText(part) + tail;
    var s2 := NameText(part) + s3;
    var s1 := OffsetText(part, expected) + s2;
    assert Delimited(s1) by { OffsetDelimited(part, expected, s2) by { FieldsApart(part, tail); } }
    hide PartText, MemsizeFormat, OffsetText, NameText, FlagText, ParseSize, ParseOffset, ParseName, StartsWith, Finish, Delimited;
    PartTextOf(part, expected, tail);
    FieldsApart(part, tail);
    SizeField(part.size, s1);
    OffsetField(part, expected, s2);
    NameField(part, s3);
    FlagField(part, tail);
  }

  lemma OffsetDelimited(part: Part, expected: u64, rest: string)
    requires Delimited(rest)
    ensures Delimited(OffsetText(part, expected) + rest)
  {
  }

  // ----- the partitions of a device

  lemma PartTextStarts(part: Part, expected: u64)
    ensures PartText(part, expected) != [] && IsDigit(PartText(part, expected)[0])
  {
    MemsizeStarts(part.size);
  }

  lemma PlaceBack(id: Id, part: Part, expected: u64)
    requires GoodPart(id, part)
    ensures Place(id, part.(offset := if part.offset == expected then OFFSET_NOT_SPECIFIED else part.offset), expected)
            == Some(part)
  {
    BoundsExact(id, part.offset, part.size);
  }

  /** The loop of `device_parse` passes one partition and stands behind its separator. */
  lemma FirstPart(id: Id, part: Part, expected: u64, done: seq<Part>, tail: string)
    requires GoodPart(id, part) && Nameable(part) && Separated(tail)
    ensures ParseParts(id, PartText(part, expected) + tail, expected, done)
            == ParseParts(id, if At(tail, ',') then tail[1..] else tail, EndOf(part), done + [part])
  {
    PartTextStarts(part, expected);
    PartRoundTrip(part, expected, tail);
    PlaceBack(id, part, expected);
  }

  /** What follows the first partition, its separator included. */
  function Remainder(parts: seq<Part>, tail: string): string
    requires parts != []
  {
    (if |parts| > 1 then "," else "") + (PartsText(parts[1..], EndOf(parts[0])) + tail)
  }

  lemma SplitParts(parts: seq<Part>, expected: u64, tail: string)
    requires parts != []
    ensures PartsText(parts, expected) + tail == PartText(parts[0], expected) + Remainder(parts, tail)
  {
    var head, sep := PartText(parts[0], expected), if |parts| > 1 then "," else "";
    var rest := PartsText(parts[1..], EndOf(parts[0]));
    assert PartsText(parts, expected) == head + sep + rest;
    Regroup(head, sep, rest, tail);
  }

  lemma PassSeparator(parts: seq<Part>, tail: string)
    requires parts != [] && (tail == [] || tail[0] == ';')
    ensures var sep := Remainder(parts, tail);
            && Separated(sep)
            && (if At(sep, ',') then sep[1..] else sep) == PartsText(parts[1..], EndOf(parts[0])) + tail
  {
    var rest := PartsText(parts[1..], EndOf(parts[0])) + tail;
    if |parts| == 1 {
      assert rest == tail;
      assert "" + rest == rest;
    } else {
      assert ("," + rest)[1..] == rest;
    }
  }

  lemma PartsStep(id: Id, parts: seq<Part>, expected: u64, done: seq<Part>, tail: string)
    requires parts != [] && GoodPart(id, parts[0]) && Nameable(parts[0]) && (tail == [] || tail[0] == ';')
    ensures ParseParts(id, PartsText(parts, expected) + tail, expected, done)
            == ParseParts(id, PartsText(parts[1..], EndOf(parts[0])) + tail, EndOf(parts[0]), done + [parts[0]])
  {
    SplitParts(parts, expected, tail);
    PassSeparator(parts, tail);
    FirstPart(id, parts[0], expected, done, Remainder(parts, tail));
  }

  lemma {:induction false} PartsRoundTrip(id: Id, parts: seq<Part>, expected: u64, done: seq<Part>, tail: string)
    requires AllNameable(parts) && forall i :: 0 <= i < |parts| ==> GoodPart(id, parts[i])
    requires parts != [] || done != []
    requires tail == [] || tail[0] == ';'
    ensures ParseParts(id, PartsText(parts, expected) + tail, expected, done) == PartsOk(done + parts, tail)
    decreases |parts|
  {
    if parts == [] {
      assert PartsText(parts, expected) + tail == tail;
      assert done + parts == done;
    } else {
      var more := done + [parts[0]];
      PartsStep(id, parts, expected, done, tail);
      MoveHead(done, parts);
      PartsRoundTrip(id, parts[1..], EndOf(parts[0]), more, tail);
    }
  }

  lemma {:induction false} AddedInOrder(done: seq<Part>, parts: seq<Part>)
    requires Increasing(done + parts)
    ensures AddAll(done, parts) == Some(done + parts)
    decreases |parts|
  {
    if parts == [] {
      assert done + parts == done;
    } else {
      var all, part := done + parts, parts[0];
      assert all[|done|] == part;
      assert forall i :: 0 <= i < |done| ==> all[i] == done[i] && done[i].offset < part.offset;
      assert Position(done, part.offset) == |done|;
      assert Insert(done, |done|, part) == done + [part];
      MoveHead(done, parts);
      AddedInOrder(done + [part], parts[1..]);
    }
  }

  // ----- the devices

  /** `device_parse` on a text that starts with a known id. */
  lemma DeviceHead(ids: seq<Id>, before: seq<Device>, id: Id, body: string)
    requires FindId(ids, id.mtdId) == Some(id) && ':' !in id.mtdId
    ensures DeviceParse(ids, before, id.mtdId + ([':'] + body)) ==
            match ParseParts(id, body, FirstOffset(before, id), [])
            case PartsError => DeviceError
            case PartsOk(parts, rest) =>
              match AddAll([], parts)
              case None => DeviceError
              case Some(sorted) => DeviceOk(Device(id, sorted, |sorted|), if rest == [] then rest else rest[1..])
  {
    var s, k := id.mtdId + ([':'] + body), |id.mtdId|;
    FindBehind(id.mtdId, ':', body);
    assert s[..k] == id.mtdId && s[k + 1..] == body;
  }

  lemma {:induction false} FoundName(ids: seq<Id>, mtdId: string)
    ensures FindId(ids, mtdId).Some? ==> FindId(ids, mtdId).value.mtdId == mtdId
  {
    if ids != [] { FoundName(ids[1..], mtdId); }
  }

  lemma ReadNameable(s: string)
    ensures PartParse(s).PartOk? ==> Nameable(PartParse(s).part)
  {
    hide ParseSize, ParseOffset, Find;
  }

  lemma {:induction false} PartsNameable(id: Id, s: string, offset: u64, done: seq<Part>)
    requires AllNameable(done) && ParseParts(id, s, offset, done).PartsOk?
    ensures AllNameable(ParseParts(id, s, offset, done).parts)
    decreases |s|
  {
    hide PartParse;
    if s != [] && s[0] != ';' {
      var read := PartParse(s);
      ReadNameable(s);
      var placed := Place(id, read.part, offset).value;
      PartsNameable(id, read.rest, EndOf(placed), done + [placed]);
    }
  }

  lemma {:induction false} AddedNameable(sorted: seq<Part>, parts: seq<Part>)
    requires AllNameable(sorted) && AllNameable(parts) && AddAll(sorted, parts).Some?
    ensures AllNameable(AddAll(sorted, parts).value)
    decreases |parts|
  {
    if parts != [] {
      AddedNameable(Insert(sorted, Position(sorted, parts[0].offset), parts[0]), parts[1..]);
    }
  }

  /** Whatever device is read: its id ends at the first colon, its names at the first parenthesis. */
  lemma ReadIsLegible(ids: seq<Id>, before: seq<Device>, s: string)
    ensures DeviceParse(ids, before, s).DeviceOk? ==> Legible(DeviceParse(ids, before, s).dev)
  {
    hide ParseParts, AddAll, FindId, FirstOffset, AllNameable;
    if DeviceParse(ids, before, s).DeviceOk? {
      var k := Find(s, ':').value;
      FoundName(ids, s[..k]);
      var id := FindId(ids, s[..k]).value;
      assert AllNameable([]) by { NothingToName(); }
      PartsNameable(id, s[k + 1..], FirstOffset(before, id), []);
      AddedNameable([], ParseParts(id, s[k + 1..], FirstOffset(before, id), []).parts);
    }
  }

  lemma NothingToName()
    ensures AllNameable([])
  {
  }

  /** A printed device is read back if and only if its id and names are legible. */
  lemma DeviceRoundTrip(ids: seq<Id>, before: seq<Device>, dev: Device, tail: string)
    requires GoodDevice(ids, dev) && (tail == [] || tail[0] == ';')
    requires FindDevice(before, dev.id).None?
    ensures DeviceParse(ids, before, DeviceText(dev) + tail) == DeviceOk(dev, if tail == [] then tail else tail[1..])
       <==> Legible(dev)
  {
    hide PartsText, ParseParts, AddAll, Find, FindId, FindDevice, DeviceParse;
    ReadIsLegible(ids, before, DeviceText(dev) + tail);
    if Legible(dev) {
      var body := PartsText(dev.parts, 0) + tail;
      assert DeviceText(dev) + tail == dev.id.mtdId + ([':'] + body);
      DeviceHead(ids, before, dev.id, body);
      PartsRoundTrip(dev.id, dev.parts, 0, [], tail);
      assert [] + dev.parts == dev.parts;
      AddedInOrder([], dev.parts);
    }
  }

  lemma NotYetListed(ids: seq<Id>, before: seq<Device>, devices: seq<Device>)
    requires GoodList(ids, before + devices) && devices != []
    ensures GoodDevice(ids, devices[0]) && FindDevice(before, devices[0].id).None?
  {
    var all := before + devices;
    assert all[|before|] == devices[0];
    assert forall i :: 0 <= i < |before| ==> all[i] == before[i] && !SameUnit(before[i].id, devices[0].id);
  }

  /** The same for a whole list, whatever the text: what is read follows the devices read before. */
  lemma {:induction false} ListIsLegible(ids: seq<Id>, s: string, before: seq<Device>)
    requires ParseDevices(ids, s, before).Some?
    ensures var all := ParseDevices(ids, s, before).value; before <= all && AllLegible(all[|before|..])
    decreases |s|
  {
    hide DeviceParse;
    if s != [] {
      var read := DeviceParse(ids, before, s);
      ReadIsLegible(ids, before, s);
      ListIsLegible(ids, read.rest, before + [read.dev]);
      var all := ParseDevices(ids, s, before).value;
      assert all[|before|] == (before + [read.dev])[|before|] == read.dev;
      assert forall i :: 0 < i < |all| - |before| ==> all[|before|..][i] == all[|before| + 1..][i - 1];
    }
  }

  lemma {:induction false} DevicesRead(ids: seq<Id>, before: seq<Device>, devices: seq<Device>)
    requires GoodList(ids, before + devices) && before + devices != [] && AllLegible(devices)
    ensures ParseDevices(ids, DevicesText(devices), before) == Some(before + devices)
    decreases |devices|
  {
    hide DeviceText, DeviceParse;
    if devices == [] {
      assert before + devices == before;
    } else {
      var dev, rest := devices[0], DevicesText(devices[1..]);
      var tail := if |devices| > 1 then ";" + rest else rest;
      assert DevicesText(devices) == DeviceText(dev) + tail;
      assert |devices| == 1 ==> rest == "";
      NotYetListed(ids, before, devices);
      DeviceRoundTrip(ids, before, dev, tail);
      assert (if tail == [] then tail else tail[1..]) == rest;
      MoveHead(before, devices);
      DevicesRead(ids, before + [dev], devices[1..]);
    }
  }

  lemma DevicesRoundTrip(ids: seq<Id>, before: seq<Device>, devices: seq<Device>)
    requires GoodList(ids, before + devices) && before + devices != []
    ensures ParseDevices(ids, DevicesText(devices), before) == Some(before + devices) <==> AllLegible(devices)
  {
    hide ParseDevices, DevicesText;
    var s := DevicesText(devices);
    if AllLegible(devices) {
      DevicesRead(ids, before, devices);
    } else if ParseDevices(ids, s, before).Some? {
      ListIsLegible(ids, s, before);
      assert (before + devices)[|before|..] == devices;
    }
  }

  /**
   For known distinct devices whose partitions are valid, at least 4096 bytes and at strictly
   increasing offsets, parsing the generated text rebuilds the list (sizes, offsets, also those left
   out for adjacent partitions, user names and read-only flags) if and only if no device id holds a
   colon and no user name is empty or holds a closing parenthesis.
   */
  lemma RoundTrip(ids: seq<Id>, devices: seq<Device>)
    requires devices != [] && GoodList(ids, devices)
    ensures Parse(ids, Generate(devices)) == Some(devices) <==> AllLegible(devices)
  {
    var s := Generate(devices);
    assert s[..9] == "mtdparts=" && s[9..] == DevicesText(devices);
    assert [] + devices == devices;
    DevicesRoundTrip(ids, [], devices);
  }
}

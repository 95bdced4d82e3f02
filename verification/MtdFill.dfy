/** Fill-up partitions: what a size written as "-" is read as, in a text that could have been generated and in any other. */
module MtdFill {
  import opened Machine
  import opened Sequences
  import opened NumberText
  import opened MtdDevice
  import opened MtdTable
  import opened MtdText
  import opened MtdRoundTrip

  // ----- one fill-up partition

  /** A partition as `PartText` prints it, but for its size. */
  function FillText(part: Part, expected: u64): string {
    "-" + (OffsetText(part, expected) + (NameText(part) + FlagText(part)))
  }

  /** It runs to the end of the device. */
  ghost predicate GoodFill(id: Id, part: Part) {
    PartValidate(id, part.offset, part.size) == Some(part.size) && part.offset + part.size == id.size
  }

  lemma FillTextOf(part: Part, expected: u64, tail: string)
    ensures var s := FillText(part, expected) + tail;
            At(s, '-') && s[1..] == OffsetText(part, expected) + (NameText(part) + (FlagText(part) + tail))
  {
    hide OffsetText, NameText, FlagText;
    Regroup(OffsetText(part, expected), NameText(part), FlagText(part), tail);
    assert (FillText(part, expected) + tail)[1..] == FillText(part, expected)[1..] + tail;
  }

  lemma FillRead(part: Part, expected: u64, tail: string)
    requires Separated(tail) && Nameable(part)
    ensures var at := if part.offset == expected then OFFSET_NOT_SPECIFIED else part.offset;
            PartParse(FillText(part, expected) + tail) == Finish(part.(size := SIZE_REMAINING, offset := at), tail)
  {
    hide FillText, OffsetText, NameText, FlagText, ParseOffset, ParseName, StartsWith, Finish, Delimited;
    var s3 := FlagText(part) + tail;
    FillTextOf(part, expected, tail);
    FieldsApart(part, tail);
    OffsetField(part, expected, NameText(part) + s3);
    NameField(part, s3);
    FlagField(part, tail);
  }

  /** Nothing may follow it. */
  lemma FillThenComma(part: Part, expected: u64, tail: string)
    requires Nameable(part)
    ensures PartParse(FillText(part, expected) + ("," + tail)) == PartError
  {
    FillRead(part, expected, "," + tail);
  }

  lemma FillPlaced(id: Id, part: Part, expected: u64)
    requires GoodFill(id, part)
    ensures var at := if part.offset == expected then OFFSET_NOT_SPECIFIED else part.offset;
            Place(id, part.(size := SIZE_REMAINING, offset := at), expected) == Some(part)
  {
    hide EraseAligned;
    BoundsExact(id, part.offset, part.size);
  }

  // ----- a device that ends with one

  function PartsFill(parts: seq<Part>, expected: u64, fill: bool): string {
    if parts == [] then ""
    else if |parts| == 1 then (if fill then FillText(parts[0], expected) else PartText(parts[0], expected))
    else PartText(parts[0], expected) + ("," + PartsFill(parts[1..], EndOf(parts[0]), fill))
  }

  ghost predicate GoodParts(id: Id, parts: seq<Part>, fill: bool) {
    forall i :: 0 <= i < |parts| ==>
      if fill && i == |parts| - 1 then GoodFill(id, parts[i]) else GoodPart(id, parts[i])
  }

  lemma FillFirst(id: Id, part: Part, expected: u64, done: seq<Part>, tail: string)
    requires GoodFill(id, part) && Nameable(part) && (tail == [] || tail[0] == ';')
    ensures ParseParts(id, FillText(part, expected) + tail, expected, done) == PartsOk(done + [part], tail)
  {
    FillRead(part, expected, tail);
    FillPlaced(id, part, expected);
  }

  lemma {:induction false} PartsFillRead(id: Id, parts: seq<Part>, expected: u64, done: seq<Part>, fill: bool, tail: string)
    requires parts != [] && GoodParts(id, parts, fill) && AllNameable(parts) && (tail == [] || tail[0] == ';')
    ensures ParseParts(id, PartsFill(parts, expected, fill) + tail, expected, done) == PartsOk(done + parts, tail)
    decreases |parts|
  {
    hide PartText, FillText, GoodPart, GoodFill, Nameable;
    if |parts| == 1 {
      assert parts == [parts[0]];
      if fill { FillFirst(id, parts[0], expected, done, tail); } else { FirstPart(id, parts[0], expected, done, tail); }
    } else {
      hide ParseParts;
      var more := PartsFill(parts[1..], EndOf(parts[0]), fill) + tail;
      assert PartsFill(parts, expected, fill) + tail == PartText(parts[0], expected) + ("," + more);
      FirstPart(id, parts[0], expected, done, "," + more);
      assert ("," + more)[1..] == more;
      PartsFillRead(id, parts[1..], EndOf(parts[0]), done + [parts[0]], fill, tail);
      MoveHead(done, parts);
    }
  }

  ghost predicate GoodFillDevice(ids: seq<Id>, dev: Device, fill: bool) {
    && FindId(ids, dev.id.mtdId) == Some(dev.id)
    && dev.parts != [] && dev.numParts == |dev.parts| && Increasing(dev.parts)
    && GoodParts(dev.id, dev.parts, fill)
  }

  function DeviceFill(dev: Device, fill: bool): string {
    dev.id.mtdId + ([':'] + PartsFill(dev.parts, 0, fill))
  }

  lemma DeviceFillRead(ids: seq<Id>, before: seq<Device>, dev: Device, fill: bool, tail: string)
    requires GoodFillDevice(ids, dev, fill) && (tail == [] || tail[0] == ';') && FindDevice(before, dev.id).None?
    ensures DeviceParse(ids, before, DeviceFill(dev, fill) + tail) == DeviceOk(dev, if tail == [] then tail else tail[1..])
       <==> Legible(dev)
  {
    hide PartsFill, ParseParts, AddAll, Find, FindId, FindDevice, DeviceParse;
    ReadIsLegible(ids, before, DeviceFill(dev, fill) + tail);
    if Legible(dev) {
      var body := PartsFill(dev.parts, 0, fill) + tail;
      assert DeviceFill(dev, fill) + tail == dev.id.mtdId + ([':'] + body);
      DeviceHead(ids, before, dev.id, body);
      PartsFillRead(dev.id, dev.parts, 0, [], fill, tail);
      assert [] + dev.parts == dev.parts;
      AddedInOrder([], dev.parts);
    }
  }

  // ----- a list, with any choice of devices that end with a fill-up partition

  function DevicesFill(devices: seq<Device>, fills: seq<bool>): string
    requires |fills| == |devices|
  {
    if devices == [] then ""
    else DeviceFill(devices[0], fills[0]) + (if |devices| > 1 then ";" + DevicesFill(devices[1..], fills[1..]) else "")
  }

  function FillList(devices: seq<Device>, fills: seq<bool>): string
    requires |fills| == |devices|
  {
    "mtdparts=" + DevicesFill(devices, fills)
  }

  ghost predicate GoodFillList(ids: seq<Id>, devices: seq<Device>, fills: seq<bool>) {
    && |fills| == |devices|
    && (forall i :: 0 <= i < |devices| ==> GoodFillDevice(ids, devices[i], fills[i]))
    && forall i, j :: 0 <= i < j < |devices| ==> !SameUnit(devices[i].id, devices[j].id)
  }

  lemma FirstIsNew(before: seq<Device>, devices: seq<Device>)
    requires devices != []
    requires forall i, j :: 0 <= i < j < |before + devices| ==> !SameUnit((before + devices)[i].id, (before + devices)[j].id)
    ensures FindDevice(before, devices[0].id).None?
  {
    var all := before + devices;
    assert all[|before|] == devices[0];
    assert forall i :: 0 <= i < |before| ==> all[i] == before[i] && !SameUnit(before[i].id, devices[0].id);
  }

  lemma {:induction false} DevicesFillRead(ids: seq<Id>, before: seq<Device>, devices: seq<Device>, fills: seq<bool>)
    requires |fills| == |devices| && devices != [] && AllLegible(devices)
    requires forall i :: 0 <= i < |devices| ==> GoodFillDevice(ids, devices[i], fills[i])
    requires forall i, j :: 0 <= i < j < |before + devices| ==> !SameUnit((before + devices)[i].id, (before + devices)[j].id)
    ensures ParseDevices(ids, DevicesFill(devices, fills), before) == Some(before + devices)
    decreases |devices|
  {
    hide DeviceFill, DeviceParse, SameUnit, GoodFillDevice, Legible;
    var dev, text := devices[0], DevicesFill(devices, fills);
    var tail := if |devices| > 1 then ";" + DevicesFill(devices[1..], fills[1..]) else "";
    FirstIsNew(before, devices);
    DeviceFillRead(ids, before, dev, fills[0], tail);
    DeviceFillStarts(dev, fills[0]);
    MoveHead(before, devices);
    if |devices| > 1 {
      assert tail[1..] == DevicesFill(devices[1..], fills[1..]);
      DevicesFillRead(ids, before + [dev], devices[1..], fills[1..]);
    } else {
      assert devices == [dev];
    }
  }

  lemma DeviceFillStarts(dev: Device, fill: bool)
    ensures DeviceFill(dev, fill) != []
  {
  }

  /**
   A list in which any devices whose last partition runs to the end say "-" for its size is still
   read back as it was, if and only if ids and names are legible; such a partition may be smaller
   than a written size is allowed to be.
   */
  lemma FillRoundTrip(ids: seq<Id>, devices: seq<Device>, fills: seq<bool>)
    requires devices != [] && GoodFillList(ids, devices, fills)
    ensures Parse(ids, FillList(devices, fills)) == Some(devices) <==> AllLegible(devices)
  {
    hide ParseDevices, DevicesFill, Legible;
    var s := FillList(devices, fills);
    assert s[..9] == "mtdparts=" && s[9..] == DevicesFill(devices, fills);
    assert [] + devices == devices;
    if AllLegible(devices) {
      DevicesFillRead(ids, [], devices, fills);
    } else if ParseDevices(ids, s[9..], []).Some? {
      ListIsLegible(ids, s[9..], []);
    }
  }

  // ----- any text

  /** A size written "-" is read only where nothing else of the device follows. */
  lemma FillIsLast(s: string)
    requires At(s, '-') && PartParse(s).PartOk?
    ensures var r := PartParse(s); r.part.size == SIZE_REMAINING && (r.rest == [] || r.rest[0] == ';')
  {
    hide ParseOffset, ParseName, StartsWith;
  }

  /** It is then the device's last, starts where it says or where the one before ends, and runs to the end. */
  lemma FillRunsToEnd(id: Id, s: string, offset: u64, done: seq<Part>)
    requires At(s, '-') && ParseParts(id, s, offset, done).PartsOk?
    ensures var parts := ParseParts(id, s, offset, done).parts;
            && |parts| == |done| + 1 && parts[..|done|] == done
            && parts[|done|].offset + parts[|done|].size == id.size
            && (!At(s[1..], '@') ==> parts[|done|].offset == offset)
  {
    hide PartParse, PartValidate;
    FillIsLast(s);
    var r := PartParse(s);
    var at := if r.part.offset == OFFSET_NOT_SPECIFIED then offset else r.part.offset;
    BoundsExact(id, at, SIZE_REMAINING);
    if !At(s[1..], '@') { NoOffset(s); }
  }

  lemma NoOffset(s: string)
    requires At(s, '-') && !At(s[1..], '@') && PartParse(s).PartOk?
    ensures PartParse(s).part.offset == OFFSET_NOT_SPECIFIED
  {
    hide ParseName, StartsWith;
  }
}

/** The form of the generated text, and where the partitions of any accepted text are placed. */
module MtdFormat {
  import opened Machine
  import opened Sequences
  import opened NumberText
  import opened MtdDevice
  import opened MtdTable
  import opened MtdText

  // ----- printing

  function Join(texts: seq<string>, separator: string): string {
    if texts == [] then "" else if |texts| == 1 then texts[0] else texts[0] + separator + Join(texts[1..], separator)
  }

  /** Size, offset if the partition does not follow the one before, name in parentheses if given, and "ro". */
  function Written(part: Part, follows: bool): string {
    var offset := if follows then "" else "@" + MemsizeFormat(part.offset);
    var name := if part.name.Some? then "(" + part.name.value + ")" else "";
    MemsizeFormat(part.size) + offset + name + (if part.readOnly then "ro" else "")
  }

  /** Partition `i` starts where the one before it ends, or the first one at `expected`. */
  predicate Follows(parts: seq<Part>, expected: nat, i: nat)
    requires i < |parts|
  {
    parts[i].offset == if i == 0 then expected else parts[i - 1].offset + parts[i - 1].size
  }

  function WrittenParts(parts: seq<Part>, expected: nat): seq<string> {
    seq(|parts|, i requires 0 <= i < |parts| => Written(parts[i], Follows(parts, expected, i)))
  }

  lemma PartsStep(parts: seq<Part>, expected: nat)
    requires parts != []
    ensures WrittenParts(parts, expected)
            == [Written(parts[0], parts[0].offset == expected)] + WrittenParts(parts[1..], parts[0].offset + parts[0].size)
  {
    var rest, next := parts[1..], parts[0].offset + parts[0].size;
    forall i | 0 < i < |parts| ensures Follows(parts, expected, i) == Follows(rest, next, i - 1) {}
  }

  /** The partitions of a device, separated by commas. */
  lemma {:induction false} PartsJoined(parts: seq<Part>, expected: u64)
    requires forall i :: 0 <= i < |parts| ==> parts[i].offset + parts[i].size < TWO_64
    ensures PartsText(parts, expected) == Join(WrittenParts(parts, expected), ",")
    decreases |parts|
  {
    hide Written, PartText, MemsizeFormat;
    if parts != [] {
      var head, rest := parts[0], parts[1..];
      PartWritten(head, expected);
      PartsStep(parts, expected);
      PartsJoined(rest, EndOf(head));
      var texts := WrittenParts(parts, expected);
      assert texts[0] == Written(head, head.offset == expected) && texts[1..] == WrittenParts(rest, head.offset + head.size);
      if rest == [] { assert PartText(head, expected) + "" + "" == PartText(head, expected); }
    }
  }

  lemma PartWritten(part: Part, expected: u64)
    ensures PartText(part, expected) == Written(part, part.offset == expected)
  {
  }

  lemma {:induction false} DevicesJoined(devices: seq<Device>)
    ensures DevicesText(devices) == Join(seq(|devices|, i requires 0 <= i < |devices| => DeviceText(devices[i])), ";")
    decreases |devices|
  {
    hide DeviceText;
    if devices != [] {
      var rest := devices[1..];
      DevicesJoined(rest);
      var texts := seq(|devices|, i requires 0 <= i < |devices| => DeviceText(devices[i]));
      assert texts[1..] == seq(|rest|, i requires 0 <= i < |rest| => DeviceText(rest[i]));
      if rest == [] { assert DeviceText(devices[0]) + "" + "" == DeviceText(devices[0]); }
    }
  }

  function WrittenDevice(dev: Device): string {
    dev.id.mtdId + ":" + Join(WrittenParts(dev.parts, 0), ",")
  }

  /** The whole list: devices separated by semicolons, partitions by commas, nothing in front or behind. */
  lemma GenerateForm(devices: seq<Device>)
    requires devices != []
    requires forall d, i :: 0 <= d < |devices| && 0 <= i < |devices[d].parts| ==>
               devices[d].parts[i].offset + devices[d].parts[i].size < TWO_64
    ensures Generate(devices)
            == "mtdparts=" + Join(seq(|devices|, d requires 0 <= d < |devices| => WrittenDevice(devices[d])), ";")
  {
    hide Join, PartsText, WrittenParts;
    DevicesJoined(devices);
    forall d | 0 <= d < |devices| ensures DeviceText(devices[d]) == WrittenDevice(devices[d]) {
      PartsJoined(devices[d].parts, 0);
    }
    assert seq(|devices|, i requires 0 <= i < |devices| => DeviceText(devices[i]))
        == seq(|devices|, d requires 0 <= d < |devices| => WrittenDevice(devices[d]));
  }

  // ----- reading

  /** The partitions of a text one by one, before they are placed. */
  function Raw(s: string): seq<Part>
    decreases |s|
  {
    if s == [] || s[0] == ';' then []
    else
      match PartParse(s)
      case PartError => []
      case PartOk(part, rest) => [part] + Raw(rest)
  }

  /** A partition that says where it starts starts there, any other right behind the one before. */
  ghost predicate InTurn(id: Id, raw: seq<Part>, parts: seq<Part>, offset: u64) {
    && |parts| == |raw|
    && forall k :: 0 <= k < |raw| ==>
         && parts[k].name == raw[k].name && parts[k].readOnly == raw[k].readOnly
         && (if raw[k].offset != TWO_64 - 1 then parts[k].offset == raw[k].offset else Follows(parts, offset, k))
         && parts[k].size == if raw[k].size != TWO_64 - 1 then raw[k].size else id.size - parts[k].offset
  }

  lemma InTurnStep(id: Id, first: Part, raw: seq<Part>, placed: Part, parts: seq<Part>, offset: u64)
    requires Place(id, first, offset) == Some(placed)
    requires InTurn(id, raw, parts, EndOf(placed))
    ensures InTurn(id, [first] + raw, [placed] + parts, offset)
  {
    hide PartValidate;
    var at := if first.offset == OFFSET_NOT_SPECIFIED then offset else first.offset;
    BoundsExact(id, at, first.size);
    var all, raws := [placed] + parts, [first] + raw;
    assert EndOf(placed) == placed.offset + placed.size;
    forall k | 0 < k < |all|
      ensures all[k] == parts[k - 1] && raws[k] == raw[k - 1]
      ensures Follows(all, offset, k) == Follows(parts, EndOf(placed), k - 1)
    {}
  }

  /** Whatever text is accepted, its partitions are the ones it lists, each placed in turn and none left out. */
  lemma {:induction false} PlacedInTurn(id: Id, s: string, offset: u64, done: seq<Part>)
    requires ParseParts(id, s, offset, done).PartsOk?
    ensures var parts := ParseParts(id, s, offset, done).parts;
            |parts| >= |done| && parts[..|done|] == done && InTurn(id, Raw(s), parts[|done|..], offset)
    decreases |s|
  {
    hide PartParse, InTurn, Place;
    var parts := ParseParts(id, s, offset, done).parts;
    if s == [] || s[0] == ';' {
      assert parts == done;
      NothingInTurn(id, offset);
    } else {
      var read := PartParse(s);
      var placed := Place(id, read.part, offset).value;
      PlacedInTurn(id, read.rest, EndOf(placed), done + [placed]);
      var n := |done|;
      assert parts[n] == parts[..n + 1][n] == placed && parts[..n] == parts[..n + 1][..n] == done;
      assert parts[n..] == [placed] + parts[n + 1..];
      InTurnStep(id, read.part, Raw(read.rest), placed, parts[n + 1..], offset);
    }
  }

  lemma NothingInTurn(id: Id, offset: u64)
    ensures InTurn(id, [], [], offset)
  {
  }
}

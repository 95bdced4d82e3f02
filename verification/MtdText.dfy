/** The `mtdparts` text: what `generate_mtdparts` prints and how `parse_mtdparts` reads it. */
module MtdText {
  import opened Machine
  import opened NumberText
  import opened MtdDevice
  import opened MtdTable

  // ----- printing

  /** The offset is printed only where a partition does not follow the one before it. */
  function PartText(part: Part, expected: u64): string {
    MemsizeFormat(part.size)
    + (if part.offset != expected then "@" + MemsizeFormat(part.offset) else "")
    + (if part.name.Some? then "(" + part.name.value + ")" else "")
    + (if part.readOnly then "ro" else "")
  }

  function EndOf(part: Part): u64 {
    (part.offset + part.size) % TWO_64
  }

  function PartsText(parts: seq<Part>, expected: u64): string {
    if parts == [] then ""
    else PartText(parts[0], expected) + (if |parts| > 1 then "," else "") + PartsText(parts[1..], EndOf(parts[0]))
  }

  function DeviceText(dev: Device): string {
    dev.id.mtdId + ":" + PartsText(dev.parts, 0)
  }

  function DevicesText(devices: seq<Device>): string {
    if devices == [] then ""
    else DeviceText(devices[0]) + (if |devices| > 1 then ";" else "") + DevicesText(devices[1..])
  }

  function Generate(devices: seq<Device>): string {
    if devices == [] then "" else "mtdparts=" + DevicesText(devices)
  }

  // ----- parsing

  predicate StartsWith(s: string, prefix: string) {
    |s| >= |prefix| && s[..|prefix|] == prefix
  }

  predicate At(s: string, c: char) {
    s != [] && s[0] == c
  }

  /** `strchr`: how far to the first `c`. */
  function Find(s: string, c: char): (k: Option<nat>)
    ensures k.Some? ==> k.value < |s| && s[k.value] == c && c !in s[..k.value]
    ensures k.None? ==> c !in s
  {
    if s == [] then None
    else if s[0] == c then Some(0)
    else match Find(s[1..], c) case None => None case Some(k) => Some(k + 1)
  }

  datatype PartResult = PartError | PartOk(part: Part, rest: string)

  /** The size field. */
  function ParseSize(s: string): (p: Option<Parsed>)
    ensures p.Some? ==> |p.value.rest| < |s|
  {
    if At(s, '-') then Some(Parsed(SIZE_REMAINING, s[1..]))
    else
      var p := MemsizeParse(s);
      if p.value < MIN_PART_SIZE then None else Some(p)
  }

  function ParseOffset(s: string): (p: Parsed)
    ensures |p.rest| <= |s|
  {
    if At(s, '@') then MemsizeParse(s[1..]) else Parsed(OFFSET_NOT_SPECIFIED, s)
  }

  datatype Named = Named(name: Option<string>, rest: string)

  function ParseName(s: string): (n: Option<Named>)
    ensures n.Some? ==> |n.value.rest| <= |s|
  {
    if At(s, '(') then
      match Find(s[1..], ')')
      case None => None
      case Some(k) => if k == 0 then None else Some(Named(Some(s[1..k + 1]), s[k + 2..]))
    else Some(Named(None, s))
  }

  /** The separator, and `part_parse`'s verdict. */
  function Finish(part: Part, s: string): (r: PartResult)
    ensures r.PartOk? ==> |r.rest| <= |s|
  {
    if At(s, ',') then
      if part.size == SIZE_REMAINING then PartError else PartOk(part, s[1..])
    else if s == [] || s[0] == ';' then PartOk(part, s)
    else PartError
  }

  function PartParse(s: string): (r: PartResult)
    ensures r.PartOk? ==> |r.rest| < |s|
  {
    match ParseSize(s)
    case None => PartError
    case Some(size) =>
      var offset := ParseOffset(size.rest);
      match ParseName(offset.rest)
      case None => PartError
      case Some(named) =>
        var ro := StartsWith(named.rest, "ro");
        Finish(Part(size.value, offset.value, named.name, ro), if ro then named.rest[2..] else named.rest)
  }

  datatype PartsResult = PartsError | PartsOk(parts: seq<Part>, rest: string)

  /** One partition placed and validated: where it starts when it does not say, and its final size. */
  function Place(id: Id, part: Part, offset: u64): Option<Part> {
    var at := if part.offset == OFFSET_NOT_SPECIFIED then offset else part.offset;
    match PartValidate(id, at, part.size)
    case None => None
    case Some(size) => Some(part.(offset := at, size := size))
  }

  /** The partition loop of `device_parse`. */
  function ParseParts(id: Id, s: string, offset: u64, parts: seq<Part>): (r: PartsResult)
    ensures r.PartsOk? ==> r.rest == [] || r.rest[0] == ';'
    ensures r.PartsOk? ==> |r.rest| <= |s|
    decreases |s|
  {
    if s == [] || s[0] == ';' then (if parts == [] then PartsError else PartsOk(parts, s))
    else
      match PartParse(s)
      case PartError => PartsError
      case PartOk(part, rest) =>
        match Place(id, part, offset)
        case None => PartsError
        case Some(placed) =>
          ParseParts(id, rest, EndOf(placed), parts + [placed])
  }

  /** The device gets its partitions one `part_sort_add` at a time. */
  function AddAll(sorted: seq<Part>, parts: seq<Part>): Option<seq<Part>>
    decreases |parts|
  {
    if parts == [] then Some(sorted)
    else if Conflict(sorted, parts[0]) then None
    else AddAll(Insert(sorted, Position(sorted, parts[0].offset), parts[0]), parts[1..])
  }

  function FindId(ids: seq<Id>, mtdId: string): Option<Id> {
    if ids == [] then None
    else if ids[0].mtdId == mtdId then Some(ids[0])
    else FindId(ids[1..], mtdId)
  }

  /** `device_find`. */
  function FindDevice(devices: seq<Device>, id: Id): (k: Option<nat>)
    ensures k.Some? ==> k.value < |devices| && devices[k.value].id.kind == id.kind && devices[k.value].id.num == id.num
    ensures k.None? ==> forall i :: 0 <= i < |devices| ==> !(devices[i].id.kind == id.kind && devices[i].id.num == id.num)
  {
    if devices == [] then None
    else if devices[0].id.kind == id.kind && devices[0].id.num == id.num then Some(0)
    else match FindDevice(devices[1..], id) case None => None case Some(k) => Some(k + 1)
  }

  datatype DeviceResult = DeviceError | DeviceOk(dev: Device, rest: string)

  /** A device that is already listed continues behind its last partition. */
  function FirstOffset(devices: seq<Device>, id: Id): u64 {
    match FindDevice(devices, id)
    case None => 0
    case Some(k) =>
      var parts := devices[k].parts;
      if parts == [] then 0 else EndOf(parts[|parts| - 1])
  }

  function DeviceParse(ids: seq<Id>, devices: seq<Device>, s: string): (r: DeviceResult)
    ensures r.DeviceOk? ==> |r.rest| < |s|
  {
    match Find(s, ':')
    case None => DeviceError
    case Some(k) =>
      match FindId(ids, s[..k])
      case None => DeviceError
      case Some(id) =>
        match ParseParts(id, s[k + 1..], FirstOffset(devices, id), [])
        case PartsError => DeviceError
        case PartsOk(parts, rest) =>
          match AddAll([], parts)
          case None => DeviceError
          case Some(sorted) =>
            DeviceOk(Device(id, sorted, |sorted|), if rest == [] then rest else rest[1..])
  }

  /** The device loop of `parse_mtdparts`; nothing remains of a list with an error in it. */
  function ParseDevices(ids: seq<Id>, s: string, devices: seq<Device>): Option<seq<Device>>
    decreases |s|
  {
    if s == [] then (if devices == [] then None else Some(devices))
    else
      match DeviceParse(ids, devices, s)
      case DeviceError => None
      case DeviceOk(dev, rest) =>
        if FindDevice(devices, dev.id).Some? then None else ParseDevices(ids, rest, devices + [dev])
  }

  function Parse(ids: seq<Id>, s: string): Option<seq<Device>> {
    if StartsWith(s, "mtdparts=") then ParseDevices(ids, s[9..], []) else None
  }
}

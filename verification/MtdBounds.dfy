/** What every list accepted by `parse_mtdparts` satisfies, whatever the text. */
module MtdBounds {
  import opened Machine
  import opened NumberText
  import opened MtdDevice
  import opened MtdTable
  import opened MtdText

  /** A uniform device, or one whose erase regions tile all of it below 4 GiB. */
  ghost predicate Regular(id: Id)
    requires id.geometry.Some?
  {
    var g := id.geometry.value;
    if g.regions == [] then g.erasesize > 0 else Tiled(g) && DeviceEnd(g) == id.size < TWO_32
  }

  /** Starts and ends between two erase blocks, or at an end of the device. */
  ghost predicate OnBoundaries(g: Geometry, part: Part) {
    Boundary(g, part.offset) && Boundary(g, part.offset + part.size)
  }

  /** Inside the device in exact integers, passed by the erase-block check and, on a regular device, on boundaries. */
  ghost predicate InBounds(id: Id, part: Part) {
    && 0 <= part.offset < part.offset + part.size <= id.size
    && id.geometry.Some? && EraseAligned(id.geometry.value, part.offset, part.size)
    && (Regular(id) ==> OnBoundaries(id.geometry.value, part))
  }

  /** What the check passes on a regular device is on boundaries. */
  lemma PassedOnBoundaries(id: Id, part: Part)
    requires 0 <= part.offset < part.offset + part.size <= id.size
    requires id.geometry.Some? && EraseAligned(id.geometry.value, part.offset, part.size) && Regular(id)
    ensures OnBoundaries(id.geometry.value, part)
  {
    hide Boundary, EraseAligned;
    var g := id.geometry.value;
    if g.regions == [] {
      UniformJudged(g, id.size, part.offset, part.size);
    } else {
      TiledJudged(g, part.offset, part.size);
    }
  }

  ghost predicate AllInBounds(id: Id, parts: seq<Part>) {
    forall i :: 0 <= i < |parts| ==> InBounds(id, parts[i])
  }

  lemma PlacedInBounds(id: Id, part: Part, offset: u64)
    requires Place(id, part, offset).Some?
    ensures InBounds(id, Place(id, part, offset).value)
  {
    hide EraseAligned, OnBoundaries, Regular;
    BoundsExact(id, if part.offset == OFFSET_NOT_SPECIFIED then offset else part.offset, part.size);
    var placed := Place(id, part, offset).value;
    if Regular(id) { PassedOnBoundaries(id, placed); }
  }

  lemma {:induction false} PartsInBounds(id: Id, s: string, offset: u64, done: seq<Part>)
    requires AllInBounds(id, done) && ParseParts(id, s, offset, done).PartsOk?
    ensures AllInBounds(id, ParseParts(id, s, offset, done).parts)
    decreases |s|
  {
    if s != [] && s[0] != ';' {
      var read := PartParse(s);
      PlacedInBounds(id, read.part, offset);
      var placed := Place(id, read.part, offset).value;
      PartsInBounds(id, read.rest, EndOf(placed), done + [placed]);
    }
  }

  lemma InsertedInBounds(id: Id, sorted: seq<Part>, k: nat, part: Part)
    requires AllInBounds(id, sorted) && InBounds(id, part) && k <= |sorted|
    ensures AllInBounds(id, Insert(sorted, k, part))
  {
    var next := Insert(sorted, k, part);
    forall i | 0 <= i < |next| ensures InBounds(id, next[i]) {
      assert next[i] == if i < k then sorted[i] else if i == k then part else sorted[i - 1];
    }
  }

  lemma {:induction false} AddedInBounds(id: Id, sorted: seq<Part>, parts: seq<Part>)
    requires AllInBounds(id, sorted) && AllInBounds(id, parts) && Sorted(sorted)
    requires AddAll(sorted, parts).Some?
    ensures AllInBounds(id, AddAll(sorted, parts).value) && Sorted(AddAll(sorted, parts).value)
    decreases |parts|
  {
    if parts != [] {
      var k := Position(sorted, parts[0].offset);
      InsertKeepsOrder(sorted, parts[0]);
      assert InBounds(id, parts[0]);
      InsertedInBounds(id, sorted, k, parts[0]);
      AddedInBounds(id, Insert(sorted, k, parts[0]), parts[1..]);
    }
  }

  // ----- nothing is lost in sorting

  /** How many partitions start at offset zero. */
  function ZeroStarts(parts: seq<Part>): nat {
    if parts == [] then 0 else (if parts[0].offset == 0 then 1 else 0) + ZeroStarts(parts[1..])
  }

  lemma {:induction false} ZeroStartsConcat(a: seq<Part>, b: seq<Part>)
    ensures ZeroStarts(a + b) == ZeroStarts(a) + ZeroStarts(b)
    decreases |a|
  {
    if a == [] {
      assert a + b == b;
    } else {
      assert (a + b)[1..] == a[1..] + b;
      ZeroStartsConcat(a[1..], b);
    }
  }

  lemma {:induction false} ZeroStartsInserted(parts: seq<Part>, k: nat, part: Part)
    requires k <= |parts|
    ensures ZeroStarts(Insert(parts, k, part)) == ZeroStarts(parts) + ZeroStarts([part])
  {
    hide ZeroStarts;
    ZeroStartsConcat(parts[..k], [part]);
    ZeroStartsConcat(parts[..k] + [part], parts[k..]);
    ZeroStartsConcat(parts[..k], parts[k..]);
    assert parts == parts[..k] + parts[k..];
  }

  lemma {:induction false} NoneAtZero(parts: seq<Part>)
    requires forall i :: 0 <= i < |parts| ==> parts[i].offset > 0
    ensures ZeroStarts(parts) == 0
  {
    if parts != [] { NoneAtZero(parts[1..]); }
  }

  /** The partitions of a device are those read, sorted; two that start at offset zero are refused, and only they. */
  lemma {:induction false} AddedAll(sorted: seq<Part>, parts: seq<Part>)
    requires Sorted(sorted) && ZeroStarts(sorted) <= 1
    ensures AddAll(sorted, parts).Some? <==> ZeroStarts(sorted + parts) <= 1
    ensures AddAll(sorted, parts).Some? ==>
              && multiset(AddAll(sorted, parts).value) == multiset(sorted) + multiset(parts)
              && Sorted(AddAll(sorted, parts).value)
    decreases |parts|
  {
    hide Insert;
    ZeroStartsConcat(sorted, parts);
    if parts != [] {
      var part, rest := parts[0], parts[1..];
      var next := Insert(sorted, Position(sorted, part.offset), part);
      InsertedContents(sorted, Position(sorted, part.offset), part);
      ZeroStartsInserted(sorted, Position(sorted, part.offset), part);
      InsertKeepsOrder(sorted, part);
      OneAtZero(part);
      assert parts == [part] + rest;
      if part.offset == 0 && !Conflict(sorted, part) { NoneAtZero(sorted); }
      if !Conflict(sorted, part) {
        AddedAll(next, rest);
        ZeroStartsConcat(next, rest);
      }
    }
  }

  lemma OneAtZero(part: Part)
    ensures ZeroStarts([part]) == if part.offset == 0 then 1 else 0
  {
  }

  /** A partition is at least 4096 bytes, unless it fills the device up. */
  ghost predicate LargeEnough(id: Id, part: Part) {
    part.size >= 4096 || part.offset + part.size == id.size
  }

  ghost predicate AllLargeEnough(id: Id, parts: seq<Part>) {
    forall part :: part in parts ==> LargeEnough(id, part)
  }

  lemma ReadLargeEnough(id: Id, s: string, offset: u64)
    requires PartParse(s).PartOk? && Place(id, PartParse(s).part, offset).Some?
    ensures LargeEnough(id, Place(id, PartParse(s).part, offset).value)
  {
    hide PartParse, PartValidate;
    var part := PartParse(s).part;
    assert part.size >= 4096 by { SizeRead(s); }
    BoundsExact(id, if part.offset == OFFSET_NOT_SPECIFIED then offset else part.offset, part.size);
  }

  lemma SizeRead(s: string)
    requires PartParse(s).PartOk?
    ensures PartParse(s).part.size >= 4096
  {
    hide MemsizeParse, ParseOffset, ParseName, StartsWith;
  }

  lemma {:induction false} PartsLargeEnough(id: Id, s: string, offset: u64, done: seq<Part>)
    requires AllLargeEnough(id, done) && ParseParts(id, s, offset, done).PartsOk?
    ensures AllLargeEnough(id, ParseParts(id, s, offset, done).parts)
    decreases |s|
  {
    hide PartParse, LargeEnough;
    if s != [] && s[0] != ';' {
      var read := PartParse(s);
      ReadLargeEnough(id, s, offset);
      var placed := Place(id, read.part, offset).value;
      PartsLargeEnough(id, read.rest, EndOf(placed), done + [placed]);
    }
  }

  // ----- devices

  ghost predicate Sound(dev: Device) {
    && AllInBounds(dev.id, dev.parts) && AllLargeEnough(dev.id, dev.parts)
    && Sorted(dev.parts) && dev.numParts == |dev.parts| && ZeroStarts(dev.parts) <= 1
  }

  lemma SortedSound(id: Id, s: string, offset: u64)
    requires ParseParts(id, s, offset, []).PartsOk? && AddAll([], ParseParts(id, s, offset, []).parts).Some?
    ensures var sorted := AddAll([], ParseParts(id, s, offset, []).parts).value;
            AllLargeEnough(id, sorted) && ZeroStarts(sorted) <= 1
  {
    hide ParseParts, LargeEnough;
    var parts := ParseParts(id, s, offset, []).parts;
    PartsLargeEnough(id, s, offset, []);
    AddedAll([], parts);
    var sorted := AddAll([], parts).value;
    forall part | part in sorted ensures LargeEnough(id, part) {
      assert part in multiset(sorted);
      assert part in multiset(parts);
    }
    assert [] + parts == parts;
    SameZeroStarts(sorted, parts);
  }

  /** The number depends on what the partitions are, not on their order. */
  lemma {:induction false} SameZeroStarts(a: seq<Part>, b: seq<Part>)
    requires multiset(a) == multiset(b)
    ensures ZeroStarts(a) == ZeroStarts(b)
    decreases |a|
  {
    if a == [] {
      assert |multiset(b)| == |b|;
    } else {
      assert a[0] in multiset(b);
      var k :| 0 <= k < |b| && b[k] == a[0];
      var rest := b[..k] + b[k + 1..];
      assert Insert(rest, k, b[k]) == b;
      InsertedContents(rest, k, b[k]);
      ZeroStartsInserted(rest, k, b[k]);
      assert a == [a[0]] + a[1..];
      assert multiset(a[1..]) == multiset(a) - multiset{a[0]};
      assert multiset(rest) == multiset(b) - multiset{a[0]};
      SameZeroStarts(a[1..], rest);
      OneAtZero(a[0]);
    }
  }

  lemma DeviceSound(ids: seq<Id>, devices: seq<Device>, s: string)
    ensures DeviceParse(ids, devices, s).DeviceOk? ==> Sound(DeviceParse(ids, devices, s).dev)
  {
    if DeviceParse(ids, devices, s).DeviceOk? {
      var k := Find(s, ':').value;
      var id := FindId(ids, s[..k]).value;
      var offset := FirstOffset(devices, id);
      var parts := ParseParts(id, s[k + 1..], offset, []).parts;
      PartsInBounds(id, s[k + 1..], offset, []);
      AddedInBounds(id, [], parts);
      SortedSound(id, s[k + 1..], offset);
    }
  }

  lemma {:induction false} DevicesSound(ids: seq<Id>, s: string, done: seq<Device>)
    requires forall i :: 0 <= i < |done| ==> Sound(done[i])
    requires ParseDevices(ids, s, done).Some?
    ensures forall i :: 0 <= i < |ParseDevices(ids, s, done).value| ==> Sound(ParseDevices(ids, s, done).value[i])
    decreases |s|
  {
    if s != [] {
      DeviceSound(ids, done, s);
      var read := DeviceParse(ids, done, s);
      DevicesSound(ids, read.rest, done + [read.dev]);
    }
  }

  /**
   Whatever text is accepted, every partition lies inside its device in exact integers and, on a
   uniform device or a tiled one below 4 GiB, starts and ends on erase-block boundaries, and every
   device lists its partitions in order, at most one of them at offset zero, and counts them.  Each
   has at least 4096 bytes or runs to the end of the device.
   */
  lemma AcceptedIsSound(ids: seq<Id>, s: string)
    ensures Parse(ids, s).Some? ==> forall i :: 0 <= i < |Parse(ids, s).value| ==> Sound(Parse(ids, s).value[i])
  {
    if Parse(ids, s).Some? {
      DevicesSound(ids, s[9..], []);
    }
  }

  // ----- which devices

  ghost predicate KnownOnce(ids: seq<Id>, devices: seq<Device>) {
    && (forall i :: 0 <= i < |devices| ==> devices[i].id in ids && devices[i].parts != [])
    && (forall i, j :: 0 <= i < j < |devices| ==>
          !(devices[i].id.kind == devices[j].id.kind && devices[i].id.num == devices[j].id.num))
  }

  lemma {:induction false} FoundKnown(ids: seq<Id>, mtdId: string)
    requires FindId(ids, mtdId).Some?
    ensures FindId(ids, mtdId).value in ids
  {
    if ids[0].mtdId != mtdId { FoundKnown(ids[1..], mtdId); }
  }

  lemma {:induction false} SomeParts(id: Id, s: string, offset: u64, done: seq<Part>)
    requires ParseParts(id, s, offset, done).PartsOk?
    ensures ParseParts(id, s, offset, done).parts != []
    decreases |s|
  {
    hide PartParse;
    if s != [] && s[0] != ';' {
      var read := PartParse(s);
      var placed := Place(id, read.part, offset).value;
      SomeParts(id, read.rest, EndOf(placed), done + [placed]);
    }
  }

  lemma DeviceKnown(ids: seq<Id>, devices: seq<Device>, s: string)
    requires DeviceParse(ids, devices, s).DeviceOk?
    ensures var dev := DeviceParse(ids, devices, s).dev; dev.id in ids && dev.parts != []
  {
    hide ParseParts, AddAll, Find;
    var k := Find(s, ':').value;
    FoundKnown(ids, s[..k]);
    var id := FindId(ids, s[..k]).value;
    var parts := ParseParts(id, s[k + 1..], FirstOffset(devices, id), []).parts;
    SomeParts(id, s[k + 1..], FirstOffset(devices, id), []);
    AddedAll([], parts);
    var sorted := AddAll([], parts).value;
    assert parts[0] in multiset(parts) && parts[0] in multiset(sorted);
  }

  lemma {:induction false} DevicesKnown(ids: seq<Id>, s: string, done: seq<Device>)
    requires KnownOnce(ids, done) && ParseDevices(ids, s, done).Some?
    ensures KnownOnce(ids, ParseDevices(ids, s, done).value) && ParseDevices(ids, s, done).value != []
    decreases |s|
  {
    hide DeviceParse;
    if s != [] {
      DeviceKnown(ids, done, s);
      var read := DeviceParse(ids, done, s);
      DevicesKnown(ids, read.rest, done + [read.dev]);
    }
  }

  /** Whatever text is accepted lists known devices, at least one, each once and with partitions. */
  lemma AcceptedIsKnown(ids: seq<Id>, s: string)
    ensures Parse(ids, s).Some? ==> KnownOnce(ids, Parse(ids, s).value) && Parse(ids, s).value != []
  {
    if Parse(ids, s).Some? { DevicesKnown(ids, s[9..], []); }
  }
}

/** MTD devices and the checks `part_validate` makes on a partition, in 64-bit wrapping arithmetic. */
module MtdDevice {
  import opened Machine
  import opened Arithmetic

  /** An erase region of a non-uniform NOR device. */
  datatype Region = Region(offset: u64, erasesize: u32, numblocks: nat)

  /** `regions` is empty for a uniform device. */
  datatype Geometry = Geometry(erasesize: u32, regions: seq<Region>)

  /** An entry of the `mtdids` map; the geometry is missing when the device is not found. */
  datatype Id = Id(kind: nat, num: nat, size: u64, mtdId: string, geometry: Option<Geometry>)

  /** A partition; the name is missing when it is generated from size and offset. */
  datatype Part = Part(size: u64, offset: u64, name: Option<string>, readOnly: bool)

  const SIZE_REMAINING: u64 := TWO_64 - 1
  const OFFSET_NOT_SPECIFIED: u64 := TWO_64 - 1
  const MIN_PART_SIZE: u64 := 4096

  // ----- erase blocks

  function ExactAddress(r: Region, j: nat): nat {
    r.offset + j * r.erasesize
  }

  /** Block `j` of a region, as a 32-bit `ulong` sees its address. */
  function BlockAddress(r: Region, j: nat): u32 {
    ExactAddress(r, j) % TWO_32
  }

  predicate StartsBlock(regions: seq<Region>, address: u64) {
    exists i, j :: 0 <= i < |regions| && 0 <= j < regions[i].numblocks && address == BlockAddress(regions[i], j)
  }

  /** What the erase-block check accepts. */
  predicate EraseAligned(g: Geometry, offset: u64, size: u64) {
    if g.regions == [] then
      g.erasesize > 0 && offset % g.erasesize == 0 && size % g.erasesize == 0
    else
      var last := g.regions[|g.regions| - 1];
      var end := (offset + size) % TWO_64;
      && StartsBlock(g.regions, offset)
      && (StartsBlock(g.regions, end) || end == BlockAddress(last, last.numblocks))
  }

  /** One of the two searches over all blocks; `final` is where `start` stops. */
  method FindBlock(regions: seq<Region>, address: u64) returns (found: bool, final: u32)
    requires regions != []
    ensures found == StartsBlock(regions, address)
    ensures !found ==> var last := regions[|regions| - 1]; final == BlockAddress(last, last.numblocks)
  {
    final := 0;
    for i := 0 to |regions|
      invariant forall i', j' :: 0 <= i' < i && 0 <= j' < regions[i'].numblocks ==> address != BlockAddress(regions[i'], j')
      invariant i > 0 ==> final == BlockAddress(regions[i - 1], regions[i - 1].numblocks)
    {
      var r := regions[i];
      var start := r.offset % TWO_32;
      for j := 0 to r.numblocks
        invariant start == BlockAddress(r, j)
        invariant forall j' :: 0 <= j' < j ==> address != BlockAddress(r, j')
      {
        if address == start { return true, start; }
        BlockStep(r, j);
        start := (start + r.erasesize) % TWO_32;
      }
      final := start;
    }
    found := false;
  }

  lemma BlockStep(r: Region, j: nat)
    ensures BlockAddress(r, j + 1) == (BlockAddress(r, j) + r.erasesize) % TWO_32
  {
    var x := r.offset + j * r.erasesize;
    assert r.offset + (j + 1) * r.erasesize == x + r.erasesize;
    ModAdd(x, r.erasesize);
  }

  lemma ModAdd(x: nat, y: nat)
    ensures (x + y) % TWO_32 == (x % TWO_32 + y) % TWO_32
  {
    assert x + y == TWO_32 * (x / TWO_32) + (x % TWO_32 + y);
  }

  /** `part_validate_eraseblock`; `do_div` by a zero erase size does not return, so none is assumed. */
  method PartValidateEraseblock(id: Id, offset: u64, size: u64) returns (ok: bool)
    requires id.geometry.Some? && id.geometry.value.regions == [] ==> id.geometry.value.erasesize > 0
    ensures ok == (id.geometry.Some? && EraseAligned(id.geometry.value, offset, size))
  {
    if id.geometry.None? { return false; }
    var g := id.geometry.value;
    if g.regions == [] {
      return offset % g.erasesize == 0 && size % g.erasesize == 0;
    }
    var found, final := FindBlock(g.regions, offset);
    if !found { return false; }
    var end := (offset + size) % TWO_64;
    found, final := FindBlock(g.regions, end);
    ok := found || end == final;
  }

  // ----- exact meaning of the erase-block check

  /** A boundary between erase blocks, in exact addresses. */
  ghost predicate Boundary(g: Geometry, address: int) {
    if g.regions == [] then g.erasesize > 0 && address % g.erasesize == 0
    else exists i, j :: 0 <= i < |g.regions| && 0 <= j <= g.regions[i].numblocks
                        && address == ExactAddress(g.regions[i], j)
  }

  /** The regions tile the device from its start. */
  ghost predicate Tiled(g: Geometry) {
    && g.regions != [] && g.regions[0].offset == 0
    && (forall i :: 0 <= i < |g.regions| ==> g.regions[i].numblocks > 0)
    && (forall i :: 0 < i < |g.regions| ==> g.regions[i].offset == RegionEnd(g.regions[i - 1]))
  }

  ghost function DeviceEnd(g: Geometry): nat
    requires g.regions != []
  {
    RegionEnd(g.regions[|g.regions| - 1])
  }

  lemma {:induction false} RegionBelowEnd(g: Geometry, i: nat)
    requires Tiled(g) && i < |g.regions|
    ensures RegionEnd(g.regions[i]) <= DeviceEnd(g)
    decreases |g.regions| - i
  {
    if i + 1 < |g.regions| {
      RegionBelowEnd(g, i + 1);
      MulMonotone(0, g.regions[i + 1].numblocks, g.regions[i + 1].erasesize);
    }
  }

  function RegionEnd(r: Region): nat {
    ExactAddress(r, r.numblocks)
  }

  lemma BlockBelowEnd(r: Region, j: nat)
    requires j <= r.numblocks && RegionEnd(r) < TWO_32
    ensures BlockAddress(r, j) == ExactAddress(r, j) <= RegionEnd(r)
  {
    MulMonotone(j, r.numblocks, r.erasesize);
  }

  /** Block starts, and the end of the device, are exactly the boundaries of a tiled device below 4 GiB. */
  lemma BoundaryIsStartOrEnd(g: Geometry, address: u64)
    requires Tiled(g) && DeviceEnd(g) < TWO_32
    ensures Boundary(g, address) <==> StartsBlock(g.regions, address) || address == DeviceEnd(g)
  {
    var n := |g.regions|;
    if StartsBlock(g.regions, address) {
      var i, j :| 0 <= i < n && 0 <= j < g.regions[i].numblocks && address == BlockAddress(g.regions[i], j);
      RegionBelowEnd(g, i);
      BlockBelowEnd(g.regions[i], j);
    }
    if Boundary(g, address) {
      var i, j :| 0 <= i < n && 0 <= j <= g.regions[i].numblocks
                  && address == ExactAddress(g.regions[i], j);
      RegionBelowEnd(g, i);
      BlockBelowEnd(g.regions[i], j);
      if j == g.regions[i].numblocks && i < n - 1 {
        RegionBelowEnd(g, i + 1);
        BlockBelowEnd(g.regions[i + 1], 0);
        assert address == BlockAddress(g.regions[i + 1], 0);
      }
    }
  }

  /** The check accepts exactly the partitions of a device that start and end on a boundary. */
  ghost predicate Judges(g: Geometry, total: nat, offset: u64, size: u64) {
    0 <= offset < offset + size <= total ==>
      (EraseAligned(g, offset, size) <==> Boundary(g, offset) && Boundary(g, offset + size))
  }

  lemma UniformJudged(g: Geometry, total: nat, offset: u64, size: u64)
    requires g.regions == [] && g.erasesize > 0 && total < TWO_64
    ensures Judges(g, total, offset, size)
  {
    SumAligned(g.erasesize, offset, size);
  }

  lemma TiledJudged(g: Geometry, offset: u64, size: u64)
    requires Tiled(g) && DeviceEnd(g) < TWO_32
    ensures Judges(g, DeviceEnd(g), offset, size)
  {
    hide Boundary, StartsBlock;
    if 0 <= offset < offset + size <= DeviceEnd(g) {
      var last := g.regions[|g.regions| - 1];
      BoundaryIsStartOrEnd(g, offset);
      BoundaryIsStartOrEnd(g, offset + size);
      BlockBelowEnd(last, last.numblocks);
    }
  }

  /** A partition over the whole of a device that ends at 4 GiB or above is refused. */
  lemma WholeDeviceRefused(g: Geometry)
    requires Tiled(g) && TWO_32 <= DeviceEnd(g) < TWO_64
    ensures !Judges(g, DeviceEnd(g), 0, DeviceEnd(g))
  {
    var n := |g.regions|;
    assert ExactAddress(g.regions[0], 0) == 0;
    assert Boundary(g, 0);
    assert ExactAddress(g.regions[n - 1], g.regions[n - 1].numblocks) == DeviceEnd(g);
    assert Boundary(g, DeviceEnd(g));
    assert !StartsBlock(g.regions, DeviceEnd(g));
  }

  /** On a tiled device the erase-block check is right for every partition exactly when the device ends below 4 GiB. */
  lemma EraseAlignedExactly(g: Geometry)
    requires Tiled(g) && DeviceEnd(g) < TWO_64
    ensures (forall offset: u64, size: u64 :: Judges(g, DeviceEnd(g), offset, size)) <==> DeviceEnd(g) < TWO_32
  {
    hide Judges;
    if DeviceEnd(g) < TWO_32 {
      forall offset: u64, size: u64 ensures Judges(g, DeviceEnd(g), offset, size) {
        TiledJudged(g, offset, size);
      }
    } else {
      WholeDeviceRefused(g);
    }
  }

  lemma SumAligned(e: nat, a: nat, b: nat)
    requires e > 0
    ensures a % e == 0 ==> ((a + b) % e == 0 <==> b % e == 0)
  {
    if a % e == 0 {
      Divide(a, e);
      Divide(b, e);
      Distribute(e, a / e, b / e);
      DivMod(e, a / e + b / e, b % e);
    }
  }

  // ----- bounds

  /** The size after `part_validate` has replaced the fill-up sentinel. */
  function Resolve(id: Id, offset: u64, size: u64): u64 {
    if size == SIZE_REMAINING then (id.size - offset) % TWO_64 else size
  }

  /** `part_validate`: the final size, or nothing when the partition is refused. */
  function PartValidate(id: Id, offset: u64, size: u64): Option<u64> {
    var actual := Resolve(id, offset, size);
    if offset > id.size then None
    else if (offset + actual) % TWO_64 <= offset then None
    else if (offset + actual) % TWO_64 > id.size then None
    else if id.geometry.Some? && EraseAligned(id.geometry.value, offset, actual) then Some(actual)
    else None
  }

  /** An accepted partition lies inside the device in exact integers, sentinel and wrap-around included. */
  lemma BoundsExact(id: Id, offset: u64, size: u64)
    ensures PartValidate(id, offset, size).Some? <==>
            var exact := if size == SIZE_REMAINING then id.size - offset else size;
            && 0 <= offset < offset + exact <= id.size
            && id.geometry.Some? && EraseAligned(id.geometry.value, offset, exact)
    ensures PartValidate(id, offset, size).Some? ==>
            PartValidate(id, offset, size).value == if size == SIZE_REMAINING then id.size - offset else size
  {
    hide EraseAligned;
    var actual := Resolve(id, offset, size);
    if offset <= id.size && offset + actual >= TWO_64 {
      assert (offset + actual) % TWO_64 == offset + actual - TWO_64;
    }
  }

  /** Two blocks of 2 GiB and two small ones behind: a start in the first block is taken for that of the last. */
  lemma TruncatedStart()
    ensures var g := Geometry(65536, [Region(0, 0x8000_0000, 2), Region(TWO_32, 65536, 2)]);
            Tiled(g) && EraseAligned(g, 65536, 65536) && !Boundary(g, 65536)
  {
    var g := Geometry(65536, [Region(0, 0x8000_0000, 2), Region(TWO_32, 65536, 2)]);
    assert RegionEnd(g.regions[0]) == TWO_32;
    assert BlockAddress(g.regions[1], 1) == 65536 && StartsBlock(g.regions, 65536);
    var last := g.regions[1];
    assert BlockAddress(last, last.numblocks) == 131072;
    forall i, j | 0 <= i < |g.regions| && 0 <= j <= g.regions[i].numblocks
      ensures 65536 != ExactAddress(g.regions[i], j)
    {
      if i == 0 { assert ExactAddress(g.regions[0], j) == j * 0x8000_0000; }
    }
  }
}

/**
 The device list of `mtdparts.c`: partitions kept in order of offset, and a current partition
 remembered by its number, which has to follow every insertion and deletion.
 */
module MtdTable {
  import opened Machine
  import opened MtdDevice

  datatype Device = Device(id: Id, parts: seq<Part>, numParts: nat)

  /** `current` is the index of the current device; `partnum` is a `u8`. */
  datatype Table = Table(devices: seq<Device>, current: Option<nat>, partnum: byte)

  // ----- sorted insertion

  ghost predicate Sorted(parts: seq<Part>) {
    forall i, j :: 0 <= i < j < |parts| ==> parts[i].offset <= parts[j].offset
  }

  /** The first entry that does not lie below `offset`. */
  function Position(parts: seq<Part>, offset: u64): (k: nat)
    ensures k <= |parts|
    ensures forall i :: 0 <= i < k ==> parts[i].offset < offset
    ensures k < |parts| ==> offset <= parts[k].offset
  {
    if parts == [] || offset <= parts[0].offset then 0 else 1 + Position(parts[1..], offset)
  }

  function Insert(parts: seq<Part>, k: nat, part: Part): seq<Part>
    requires k <= |parts|
  {
    parts[..k] + [part] + parts[k..]
  }

  function Remove(parts: seq<Part>, k: nat): seq<Part>
    requires k < |parts|
  {
    parts[..k] + parts[k + 1..]
  }

  /** Only one partition may start at offset zero. */
  predicate Conflict(parts: seq<Part>, part: Part) {
    part.offset == 0 && parts != [] && parts[0].offset == 0
  }

  lemma InsertKeepsOrder(parts: seq<Part>, part: Part)
    requires Sorted(parts)
    ensures Sorted(Insert(parts, Position(parts, part.offset), part))
  {
  }

  lemma RemoveKeepsOrder(parts: seq<Part>, k: nat)
    requires Sorted(parts) && k < |parts|
    ensures Sorted(Remove(parts, k))
  {
  }

  // ----- the operations as functions of the table

  /** `mtd_part_info(dev, partnum) != NULL` for the current device. */
  predicate HasCurrent(t: Table, d: nat)
    requires d < |t.devices|
  {
    t.current == Some(d) && t.partnum < t.devices[d].numParts && t.partnum < |t.devices[d].parts|
  }

  function SortAdd(t: Table, d: nat, part: Part): Table
    requires d < |t.devices|
  {
    var dev := t.devices[d];
    var parts := dev.parts;
    var k := Position(parts, part.offset);
    if Conflict(parts, part) then t
    else
      var bump := HasCurrent(t, d) && k < |parts| && parts[k].offset <= parts[t.partnum].offset;
      t.(devices := t.devices[d := dev.(parts := Insert(parts, k, part), numParts := dev.numParts + 1)],
         partnum := if bump then (t.partnum + 1) % 256 else t.partnum)
  }

  function DeviceDel(t: Table, d: nat): Table
    requires d < |t.devices|
  {
    var devices := t.devices[..d] + t.devices[d + 1..];
    if t.current == Some(d) then
      if devices == [] then Table(devices, None, t.partnum) else Table(devices, Some(0), 0)
    else if t.current.Some? && d < t.current.value then
      Table(devices, Some(t.current.value - 1), t.partnum)
    else Table(devices, t.current, t.partnum)
  }

  function PartDel(t: Table, d: nat, k: nat): Table
    requires d < |t.devices| && k < |t.devices[d].parts|
  {
    var dev := t.devices[d];
    if dev.numParts == 1 then DeviceDel(t, d)
    else
      var partnum :=
        if !HasCurrent(t, d) then t.partnum
        else if k == t.partnum then 0
        else if dev.parts[k].offset <= dev.parts[t.partnum].offset then (t.partnum - 1) % 256
        else t.partnum;
      t.(devices := t.devices[d := dev.(parts := Remove(dev.parts, k), numParts := if dev.numParts == 0 then 0 else dev.numParts - 1)],
         partnum := partnum)
  }

  // ----- the code

  class PartitionTable {
    var devices: seq<Device>
    var currentDev: Option<nat>
    var currentPartnum: byte

    ghost function View(): Table
      reads this
    {
      Table(devices, currentDev, currentPartnum)
    }

    constructor (t: Table)
      ensures View() == t
    {
      devices, currentDev, currentPartnum := t.devices, t.current, t.partnum;
    }

    /** `list_add_tail(&part->link, entry)` in front of entry `i`, and the current number kept up to date. */
    method LinkBefore(d: nat, i: nat, part: Part)
      requires d < |devices| && i < |devices[d].parts| && !Conflict(devices[d].parts, part)
      requires i == Position(devices[d].parts, part.offset)
      modifies this
      ensures View() == SortAdd(old(View()), d, part)
    {
      var dev := devices[d];
      var parts := dev.parts;
      if currentDev == Some(d) && currentPartnum < dev.numParts && currentPartnum < |parts| {
        var curr := parts[currentPartnum];
        if parts[i].offset <= curr.offset {
          currentPartnum := (currentPartnum + 1) % 256;
        }
      }
      devices := devices[d := dev.(parts := parts[..i] + [part] + parts[i..], numParts := dev.numParts + 1)];
    }

    method LinkLast(d: nat, part: Part)
      requires d < |devices| && !Conflict(devices[d].parts, part)
      requires Position(devices[d].parts, part.offset) == |devices[d].parts|
      modifies this
      ensures View() == SortAdd(old(View()), d, part)
    {
      var dev := devices[d];
      assert dev.parts + [part] == Insert(dev.parts, |dev.parts|, part);
      devices := devices[d := dev.(parts := dev.parts + [part], numParts := dev.numParts + 1)];
    }

    method PartSortAdd(d: nat, part: Part) returns (ok: bool)
      requires d < |devices| && Sorted(devices[d].parts)
      modifies this
      ensures ok == !Conflict(old(devices[d].parts), part)
      ensures View() == SortAdd(old(View()), d, part)
    {
      var parts := devices[d].parts;
      for i := 0 to |parts|
        invariant View() == old(View())
        invariant forall j :: 0 <= j < i ==> parts[j].offset < part.offset
      {
        var pi := parts[i];
        if part.offset == pi.offset && pi.offset == 0 { return false; }
        if part.offset <= pi.offset {
          LinkBefore(d, i, part);
          return true;
        }
      }
      LinkLast(d, part);
      ok := true;
    }

    method DeleteDevice(d: nat)
      requires d < |devices|
      modifies this
      ensures View() == DeviceDel(old(View()), d)
    {
      devices := devices[..d] + devices[d + 1..];
      if currentDev == Some(d) {
        if devices == [] {
          currentDev := None;
        } else {
          currentDev, currentPartnum := Some(0), 0;
        }
      } else if currentDev.Some? && d < currentDev.value {
        currentDev := Some(currentDev.value - 1);  // the same device, one place further down the list
      }
    }

    method DeletePart(d: nat, k: nat)
      requires d < |devices| && k < |devices[d].parts| && devices[d].numParts == |devices[d].parts|
      modifies this
      ensures View() == PartDel(old(View()), d, k)
    {
      var dev := devices[d];
      if dev.numParts == 1 {
        DeleteDevice(d);
        return;
      }
      if currentDev == Some(d) && currentPartnum < dev.numParts {
        if currentPartnum == k {
          currentPartnum := 0;
        } else if dev.parts[k].offset <= dev.parts[currentPartnum].offset {
          currentPartnum := (currentPartnum - 1) % 256;
        }
      }
      devices := devices[d := dev.(parts := dev.parts[..k] + dev.parts[k + 1..], numParts := dev.numParts - 1)];
    }
  }

  // ----- the current partition is followed

  ghost predicate ValidDevice(dev: Device) {
    Sorted(dev.parts) && dev.numParts == |dev.parts| && 0 < |dev.parts| <= 256
  }

  ghost predicate Valid(t: Table) {
    && (forall d :: 0 <= d < |t.devices| ==> ValidDevice(t.devices[d]))
    && (t.current.Some? ==> t.current.value < |t.devices| && t.partnum < |t.devices[t.current.value].parts|)
  }

  /** Where entry `c` of a list stands after an insertion, or the deletion of another entry, at `k`. */
  function Pushed(k: nat, c: nat): nat { if k <= c then c + 1 else c }
  function Pulled(k: nat, c: nat): nat { if k < c then c - 1 else c }

  lemma PushedDenotes(parts: seq<Part>, k: nat, part: Part, c: nat)
    requires k <= |parts| && c < |parts|
    ensures Insert(parts, k, part)[Pushed(k, c)] == parts[c]
    ensures Remove(Insert(parts, k, part), k) == parts
  {
  }

  lemma PulledDenotes(parts: seq<Part>, k: nat, c: nat)
    requires k < |parts| && c < |parts| && k != c
    ensures Pulled(k, c) < |Remove(parts, k)| && Remove(parts, k)[Pulled(k, c)] == parts[c]
  {
  }

  lemma InsertedContents(parts: seq<Part>, k: nat, part: Part)
    requires k <= |parts|
    ensures multiset(Insert(parts, k, part)) == multiset(parts) + multiset{part}
  {
    assert parts == parts[..k] + parts[k..];
  }

  /** A second partition at offset zero is refused; every other one is added, in order, and nothing else changes. */
  lemma InsertionExact(t: Table, d: nat, part: Part)
    requires d < |t.devices| && Sorted(t.devices[d].parts)
    ensures var parts, t' := t.devices[d].parts, SortAdd(t, d, part);
            if part.offset == 0 && exists i :: 0 <= i < |parts| && parts[i].offset == 0 then t' == t
            else
              && |t'.devices| == |t.devices| && (forall e :: 0 <= e < |t.devices| && e != d ==> t'.devices[e] == t.devices[e])
              && t'.devices[d].id == t.devices[d].id && t'.devices[d].numParts == t.devices[d].numParts + 1
              && multiset(t'.devices[d].parts) == multiset(parts) + multiset{part} && Sorted(t'.devices[d].parts)
  {
    hide HasCurrent, Insert;
    var parts := t.devices[d].parts;
    var k := Position(parts, part.offset);
    InsertedContents(parts, k, part);
    InsertKeepsOrder(parts, part);
    if part.offset == 0 && exists i :: 0 <= i < |parts| && parts[i].offset == 0 {
      var i :| 0 <= i < |parts| && parts[i].offset == 0;
      assert parts[0].offset <= parts[i].offset;
    }
  }

  lemma InsertionKeepsValid(t: Table, d: nat, part: Part)
    requires Valid(t) && d < |t.devices| && |t.devices[d].parts| < 256
    ensures Valid(SortAdd(t, d, part))
  {
    var parts, t' := t.devices[d].parts, SortAdd(t, d, part);
    assert ValidDevice(t.devices[d]);
    InsertKeepsOrder(parts, part);
    if !Conflict(parts, part) {
      forall e | 0 <= e < |t'.devices| ensures ValidDevice(t'.devices[e]) {
        assert ValidDevice(t.devices[e]);
      }
    }
  }

  /** Insertion, equal offsets included: the current number moves exactly as its partition does. */
  lemma InsertionTracks(t: Table, d: nat, part: Part)
    requires Valid(t) && d < |t.devices| && |t.devices[d].parts| < 256
    ensures Valid(SortAdd(t, d, part))
    ensures var parts, t' := t.devices[d].parts, SortAdd(t, d, part);
            && t'.current == t.current
            && (!Conflict(parts, part) ==>
                  && t'.devices[d].parts == Insert(parts, Position(parts, part.offset), part)
                  && t'.partnum == if t.current == Some(d) then Pushed(Position(parts, part.offset), t.partnum) else t.partnum)
            && (Conflict(parts, part) ==> t' == t)
  {
    InsertionKeepsValid(t, d, part);
    assert ValidDevice(t.devices[d]);
  }

  /** The deletion is safe for the current number: not an entry behind the current one with its offset. */
  predicate SafeDeletion(t: Table, d: nat, k: nat)
    requires d < |t.devices| && k < |t.devices[d].parts|
  {
    HasCurrent(t, d) && t.partnum < k ==> t.devices[d].parts[k].offset != t.devices[d].parts[t.partnum].offset
  }

  /** Deleting one of several partitions: the current number follows, or is reset with its own partition, exactly when safe. */
  lemma DeletionTracks(t: Table, d: nat, k: nat)
    requires Valid(t) && d < |t.devices| && k < |t.devices[d].parts| && |t.devices[d].parts| > 1
    ensures PartDel(t, d, k).devices == t.devices[d := Device(t.devices[d].id, Remove(t.devices[d].parts, k), t.devices[d].numParts - 1)]
    ensures PartDel(t, d, k).current == t.current
    ensures (PartDel(t, d, k).partnum ==
              if t.current != Some(d) then t.partnum else if t.partnum == k then 0 else Pulled(k, t.partnum))
            <==> SafeDeletion(t, d, k)
  {
    var parts := t.devices[d].parts;
    assert ValidDevice(t.devices[d]);
    if t.current == Some(d) && k < t.partnum {
      assert parts[k].offset <= parts[t.partnum].offset;
    }
  }

  lemma DeletionKeepsValid(t: Table, d: nat, k: nat)
    requires Valid(t) && d < |t.devices| && k < |t.devices[d].parts| && SafeDeletion(t, d, k)
    ensures Valid(PartDel(t, d, k))
  {
    var t', dev := PartDel(t, d, k), t.devices[d];
    assert ValidDevice(dev);
    if |dev.parts| == 1 {
      forall e | 0 <= e < |t'.devices| ensures ValidDevice(t'.devices[e]) {
        assert ValidDevice(t.devices[if e < d then e else e + 1]);
      }
    } else {
      DeletionTracks(t, d, k);
      RemoveKeepsOrder(dev.parts, k);
      forall e | 0 <= e < |t'.devices| ensures ValidDevice(t'.devices[e]) {
        assert ValidDevice(t.devices[e]);
      }
    }
  }

  /** Two partitions at one offset, the first current: deleting the second wraps the current number to 255. */
  lemma UnsafeDeletionWraps(id: Id, a: Part, b: Part)
    requires a.offset == b.offset
    ensures var t := Table([Device(id, [a, b], 2)], Some(0), 0);
            Valid(t) && PartDel(t, 0, 1).partnum == 255
  {
    var dev := Device(id, [a, b], 2);
    assert ValidDevice(dev);
  }

  // ----- the partition that is current

  /** The current partition and the id of its device. */
  ghost function Denoted(t: Table): Option<(Id, Part)>
    requires Valid(t)
  {
    if t.current.None? then None
    else Some((t.devices[t.current.value].id, t.devices[t.current.value].parts[t.partnum]))
  }

  /** The first partition of the current device. */
  ghost function FirstOf(t: Table): Option<(Id, Part)>
    requires Valid(t)
  {
    if t.current.None? then None
    else
      assert ValidDevice(t.devices[t.current.value]);
      Some((t.devices[t.current.value].id, t.devices[t.current.value].parts[0]))
  }

  /** A device that goes takes the current partition with it only if it is its own: then the first of all takes over. */
  lemma DeviceDeletionTracks(t: Table, d: nat)
    requires Valid(t) && d < |t.devices|
    ensures Valid(DeviceDel(t, d))
    ensures t.current != Some(d) ==> Denoted(DeviceDel(t, d)) == Denoted(t)
    ensures t.current == Some(d) ==>
              var t' := DeviceDel(t, d);
              Denoted(t') == FirstOf(t') && t'.current == if t'.devices == [] then None else Some(0)
  {
    var t' := DeviceDel(t, d);
    forall e | 0 <= e < |t'.devices| ensures t'.devices[e] == t.devices[if e < d then e else e + 1] && ValidDevice(t'.devices[e]) {
      assert ValidDevice(t.devices[if e < d then e else e + 1]);
    }
  }

  lemma InsertionDenotes(t: Table, d: nat, part: Part)
    requires Valid(t) && d < |t.devices| && |t.devices[d].parts| < 256
    ensures Valid(SortAdd(t, d, part)) && Denoted(SortAdd(t, d, part)) == Denoted(t)
  {
    var parts := t.devices[d].parts;
    InsertionTracks(t, d, part);
    if t.current == Some(d) { PushedDenotes(parts, Position(parts, part.offset), part, t.partnum); }
  }

  /** Any safe deletion: the partition deleted, if current, is replaced by the first; otherwise the current one stays. */
  lemma DeletionDenotes(t: Table, d: nat, k: nat)
    requires Valid(t) && d < |t.devices| && k < |t.devices[d].parts| && SafeDeletion(t, d, k)
    ensures Valid(PartDel(t, d, k))
    ensures Denoted(PartDel(t, d, k)) ==
            if t.current == Some(d) && t.partnum == k then FirstOf(PartDel(t, d, k)) else Denoted(t)
  {
    assert ValidDevice(t.devices[d]);
    DeletionKeepsValid(t, d, k);
    if |t.devices[d].parts| == 1 {
      DeviceDeletionTracks(t, d);
    } else {
      DeletionTracks(t, d, k);
      if t.current == Some(d) && t.partnum != k { PulledDenotes(t.devices[d].parts, k, t.partnum); }
    }
  }

  // ----- over any sequence of commands

  /** A partition added, a partition deleted, with its device if it is the only one, or a device deleted. */
  datatype Command = Add(d: nat, part: Part) | Del(d: nat, k: nat) | Drop(d: nat)

  /** Room for the insertion, a safe deletion. */
  ghost predicate Allowed(t: Table, c: Command) {
    && c.d < |t.devices|
    && match c
       case Add(d, _) => |t.devices[d].parts| < 256
       case Del(d, k) => k < |t.devices[d].parts| && SafeDeletion(t, d, k)
       case Drop(_) => true
  }

  function Execute(t: Table, c: Command): Table
    requires c.d < |t.devices| && (c.Del? ==> c.k < |t.devices[c.d].parts|)
  {
    match c
    case Add(d, part) => SortAdd(t, d, part)
    case Del(d, k) => PartDel(t, d, k)
    case Drop(d) => DeviceDel(t, d)
  }

  predicate DeletesCurrent(t: Table, c: Command) {
    t.current == Some(c.d) && (c.Drop? || (c.Del? && c.k == t.partnum))
  }

  ghost predicate AllowedRun(t: Table, cs: seq<Command>)
    decreases |cs|
  {
    cs != [] ==> Allowed(t, cs[0]) && AllowedRun(Execute(t, cs[0]), cs[1..])
  }

  ghost function ExecuteAll(t: Table, cs: seq<Command>): Table
    requires AllowedRun(t, cs)
    decreases |cs|
  {
    if cs == [] then t else ExecuteAll(Execute(t, cs[0]), cs[1..])
  }

  /** One command: the table stays valid, and the current partition the same unless it is the one deleted. */
  lemma CommandDenotes(t: Table, c: Command)
    requires Valid(t) && Allowed(t, c)
    ensures Valid(Execute(t, c))
    ensures Denoted(Execute(t, c)) == if DeletesCurrent(t, c) then FirstOf(Execute(t, c)) else Denoted(t)
  {
    match c {
      case Add(d, part) => InsertionDenotes(t, d, part);
      case Del(d, k) => DeletionDenotes(t, d, k);
      case Drop(d) => DeviceDeletionTracks(t, d);
    }
  }

  /** No command deletes the partition that is current when it comes. */
  ghost predicate Spared(t: Table, cs: seq<Command>)
    requires AllowedRun(t, cs)
    decreases |cs|
  {
    cs != [] ==> !DeletesCurrent(t, cs[0]) && Spared(Execute(t, cs[0]), cs[1..])
  }

  /**
   Over every run of insertions, safe deletions and device removals the lists stay sorted and
   counted, and the current partition is the one it was for as long as it is not deleted itself.
   */
  lemma {:induction false} CurrentFollows(t: Table, cs: seq<Command>)
    requires Valid(t) && AllowedRun(t, cs)
    ensures Valid(ExecuteAll(t, cs))
    ensures Spared(t, cs) ==> Denoted(ExecuteAll(t, cs)) == Denoted(t)
    decreases |cs|
  {
    if cs != [] {
      CommandDenotes(t, cs[0]);
      CurrentFollows(Execute(t, cs[0]), cs[1..]);
    }
  }

  lemma {:induction false} RunSplits(t: Table, a: seq<Command>, b: seq<Command>)
    requires AllowedRun(t, a + b)
    ensures AllowedRun(t, a) && AllowedRun(ExecuteAll(t, a), b)
    ensures ExecuteAll(t, a + b) == ExecuteAll(ExecuteAll(t, a), b)
    decreases |a|
  {
    if a == [] {
      assert a + b == b;
    } else {
      assert (a + b)[0] == a[0] && (a + b)[1..] == a[1..] + b;
      RunSplits(Execute(t, a[0]), a[1..], b);
    }
  }

  /** Once it is deleted, the first partition takes over: of its device, or of the first device left. */
  lemma CurrentReset(t: Table, before: seq<Command>, c: Command, after: seq<Command>)
    requires Valid(t) && AllowedRun(t, before + ([c] + after))
    ensures AllowedRun(t, before) && Allowed(ExecuteAll(t, before), c)
    ensures Valid(ExecuteAll(t, before + ([c] + after)))
    ensures var mid := ExecuteAll(t, before);
            var reset := Execute(mid, c);
            && Valid(reset) && AllowedRun(reset, after)
            && (DeletesCurrent(mid, c) && Spared(reset, after) ==> Denoted(ExecuteAll(t, before + ([c] + after))) == FirstOf(reset))
  {
    RunSplits(t, before, [c] + after);
    CurrentFollows(t, before);
    var mid := ExecuteAll(t, before);
    assert ([c] + after)[0] == c && ([c] + after)[1..] == after;
    CommandDenotes(mid, c);
    CurrentFollows(Execute(mid, c), after);
  }
}

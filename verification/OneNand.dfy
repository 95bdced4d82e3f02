/**
 OneNAND block streaming: `onenand_block_write` skips bad blocks and remembers by how much, so
 that the next write of a stream continues where the last one really ended.  All offsets are
 multiples of the erase block and are counted in blocks.
 */
module OneNand {
  import opened Machine
  import opened Sequences

  type Block = seq<byte>

  // ----- layout over a fixed bad-block map

  /** At least `n` good blocks from `ofs` on. */
  predicate Room(bad: seq<bool>, ofs: nat, n: nat)
    decreases |bad| - ofs
  {
    n == 0 || (ofs < |bad| && if bad[ofs] then Room(bad, ofs + 1, n) else Room(bad, ofs + 1, n - 1))
  }

  /** The offset behind the `n`-th good block from `ofs` on. */
  function Behind(bad: seq<bool>, ofs: nat, n: nat): nat
    requires Room(bad, ofs, n)
    decreases |bad| - ofs
  {
    if n == 0 then ofs else if bad[ofs] then Behind(bad, ofs + 1, n) else Behind(bad, ofs + 1, n - 1)
  }

  /** The device once `data` has been written to the good blocks from `ofs` on. */
  function LayOut(blocks: seq<Block>, bad: seq<bool>, ofs: nat, data: seq<Block>): seq<Block>
    requires |blocks| == |bad| && Room(bad, ofs, |data|)
    decreases |bad| - ofs
  {
    if data == [] then blocks
    else if bad[ofs] then LayOut(blocks, bad, ofs + 1, data)
    else LayOut(blocks[ofs := data[0]], bad, ofs + 1, data[1..])
  }

  /** The first `n` good blocks from `ofs` on. */
  function Collect(blocks: seq<Block>, bad: seq<bool>, ofs: nat, n: nat): seq<Block>
    requires |blocks| == |bad| && Room(bad, ofs, n)
    decreases |bad| - ofs
  {
    if n == 0 then []
    else if bad[ofs] then Collect(blocks, bad, ofs + 1, n)
    else [blocks[ofs]] + Collect(blocks, bad, ofs + 1, n - 1)
  }

  lemma {:induction false} RoomSplits(bad: seq<bool>, ofs: nat, n: nat, m: nat)
    requires Room(bad, ofs, n + m)
    ensures Room(bad, ofs, n) && Room(bad, Behind(bad, ofs, n), m)
    ensures Behind(bad, Behind(bad, ofs, n), m) == Behind(bad, ofs, n + m)
    decreases |bad| - ofs
  {
    if n > 0 {
      if bad[ofs] { RoomSplits(bad, ofs + 1, n, m); } else { RoomSplits(bad, ofs + 1, n - 1, m); }
    }
  }

  /** Two writes, the second where the first ended, are one write of both. */
  lemma {:induction false} LayOutConcat(blocks: seq<Block>, bad: seq<bool>, ofs: nat, a: seq<Block>, b: seq<Block>)
    requires |blocks| == |bad| && Room(bad, ofs, |a| + |b|)
    ensures Room(bad, ofs, |a|) && Room(bad, Behind(bad, ofs, |a|), |b|)
    ensures |LayOut(blocks, bad, ofs, a)| == |bad|
    ensures LayOut(LayOut(blocks, bad, ofs, a), bad, Behind(bad, ofs, |a|), b) == LayOut(blocks, bad, ofs, a + b)
    decreases |bad| - ofs
  {
    RoomSplits(bad, ofs, |a|, |b|);
    if a == [] {
      assert a + b == b;
    } else if bad[ofs] {
      LayOutConcat(blocks, bad, ofs + 1, a, b);
    } else {
      assert (a + b)[1..] == a[1..] + b;
      LayOutConcat(blocks[ofs := a[0]], bad, ofs + 1, a[1..], b);
    }
  }

  /** Bad blocks, those in front of the first block written and those behind the last keep what they held. */
  lemma {:induction false} LayOutFrame(blocks: seq<Block>, bad: seq<bool>, ofs: nat, data: seq<Block>)
    requires |blocks| == |bad| && Room(bad, ofs, |data|)
    ensures |LayOut(blocks, bad, ofs, data)| == |bad| && ofs <= Behind(bad, ofs, |data|)
    ensures forall i :: 0 <= i < |bad| && (i < ofs || bad[i] || i >= Behind(bad, ofs, |data|))
              ==> LayOut(blocks, bad, ofs, data)[i] == blocks[i]
    decreases |bad| - ofs
  {
    if data != [] {
      if bad[ofs] { LayOutFrame(blocks, bad, ofs + 1, data); }
      else { LayOutFrame(blocks[ofs := data[0]], bad, ofs + 1, data[1..]); }
    }
  }

  /** How many of the blocks from `ofs` up to `i` are good. */
  function GoodUpTo(bad: seq<bool>, ofs: nat, i: nat): nat
    requires ofs <= i <= |bad|
    decreases i - ofs
  {
    if ofs == i then 0 else (if bad[ofs] then 0 else 1) + GoodUpTo(bad, ofs + 1, i)
  }

  /** Each good block in between holds the block of data with its number, for writing and for reading. */
  lemma {:induction false} LayOutAt(blocks: seq<Block>, bad: seq<bool>, ofs: nat, data: seq<Block>, i: nat)
    requires |blocks| == |bad| && Room(bad, ofs, |data|)
    requires ofs <= i < Behind(bad, ofs, |data|) && i < |bad| && !bad[i]
    ensures |LayOut(blocks, bad, ofs, data)| == |bad| && |Collect(blocks, bad, ofs, |data|)| == |data|
    ensures GoodUpTo(bad, ofs, i) < |data|
    ensures LayOut(blocks, bad, ofs, data)[i] == data[GoodUpTo(bad, ofs, i)]
    ensures Collect(blocks, bad, ofs, |data|)[GoodUpTo(bad, ofs, i)] == blocks[i]
    decreases |bad| - ofs
  {
    LayOutFrame(blocks, bad, ofs, data);
    CollectLength(blocks, bad, ofs, |data|);
    if bad[ofs] {
      LayOutAt(blocks, bad, ofs + 1, data, i);
    } else {
      var next := blocks[ofs := data[0]];
      LayOutFrame(next, bad, ofs + 1, data[1..]);
      if ofs < i {
        LayOutAt(next, bad, ofs + 1, data[1..], i);
        LayOutAt(blocks, bad, ofs + 1, data[1..], i);
      }
    }
  }

  lemma {:induction false} CollectLength(blocks: seq<Block>, bad: seq<bool>, ofs: nat, n: nat)
    requires |blocks| == |bad| && Room(bad, ofs, n)
    ensures |Collect(blocks, bad, ofs, n)| == n
    decreases |bad| - ofs
  {
    if n > 0 {
      if bad[ofs] { CollectLength(blocks, bad, ofs + 1, n); } else { CollectLength(blocks, bad, ofs + 1, n - 1); }
    }
  }

  /** Reading back from where the data was written returns it. */
  lemma {:induction false} ReadBack(blocks: seq<Block>, bad: seq<bool>, ofs: nat, data: seq<Block>)
    requires |blocks| == |bad| && Room(bad, ofs, |data|)
    ensures |LayOut(blocks, bad, ofs, data)| == |bad|
    ensures Collect(LayOut(blocks, bad, ofs, data), bad, ofs, |data|) == data
    decreases |bad| - ofs
  {
    LayOutFrame(blocks, bad, ofs, data);
    if data != [] {
      if bad[ofs] {
        ReadBack(blocks, bad, ofs + 1, data);
      } else {
        var next := blocks[ofs := data[0]];
        LayOutFrame(next, bad, ofs + 1, data[1..]);
        ReadBack(next, bad, ofs + 1, data[1..]);
      }
    }
  }

  // ----- the driver

  /** The device and the two static offsets. */
  datatype State = State(blocks: seq<Block>, nextOfs: nat, skipOfs: nat)

  /** Where a write at `to` really starts. */
  function StartOf(s: State, to: nat): nat {
    if to == s.nextOfs then to + s.skipOfs else to
  }

  function WriteBlocks(s: State, bad: seq<bool>, to: nat, data: seq<Block>): State
    requires |s.blocks| == |bad| && Room(bad, StartOf(s, to), |data|)
  {
    var ofs := StartOf(s, to);
    BehindAtLeast(bad, ofs, |data|);
    State(LayOut(s.blocks, bad, ofs, data), to + |data|, Behind(bad, ofs, |data|) - to - |data|)
  }

  lemma BehindAtLeast(bad: seq<bool>, ofs: nat, n: nat)
    requires Room(bad, ofs, n)
    ensures ofs + n <= Behind(bad, ofs, n) <= if ofs < |bad| then |bad| else ofs
    decreases |bad| - ofs
  {
  }

  class Driver {
    const bad: seq<bool>
    var blocks: seq<Block>
    var nextOfs: nat
    var skipOfs: nat

    ghost predicate Valid()
      reads this
    {
      |blocks| == |bad|
    }

    ghost function View(): State
      reads this
    {
      State(blocks, nextOfs, skipOfs)
    }

    constructor (bad: seq<bool>, blocks: seq<Block>)
      requires |blocks| == |bad|
      ensures Valid() && this.bad == bad && View() == State(blocks, 0, 0)
    {
      this.bad, this.blocks := bad, blocks;
      nextOfs, skipOfs := 0, 0;
    }

    /** `onenand_block_write`, every write to a good block succeeding. */
    method BlockWrite(to: nat, buf: seq<Block>)
      requires Valid() && Room(bad, StartOf(View(), to), |buf|)
      modifies this`blocks, this`nextOfs, this`skipOfs
      ensures Valid() && View() == WriteBlocks(old(View()), bad, to, buf)
    {
      var ofs := to;
      if to == nextOfs {
        nextOfs := to + |buf|;
        ofs := to + skipOfs;
      } else {
        nextOfs := to + |buf|;
        skipOfs := 0;
      }
      ghost var start := ofs;
      BehindAtLeast(bad, start, |buf|);
      var k := 0;
      LayOutFrame(blocks, bad, start, buf);
      while k < |buf|
        invariant 0 <= k <= |buf| && Valid() && nextOfs == to + |buf|
        invariant ofs == to + skipOfs + k
        invariant Room(bad, ofs, |buf| - k) && Behind(bad, ofs, |buf| - k) == Behind(bad, start, |buf|)
        invariant LayOut(blocks, bad, ofs, buf[k..]) == LayOut(old(blocks), bad, start, buf)
        decreases |bad| - ofs
      {
        if bad[ofs] {
          skipOfs := skipOfs + 1;
        } else {
          assert buf[k..][1..] == buf[k + 1..];
          blocks := blocks[ofs := buf[k]];
          k := k + 1;
        }
        ofs := ofs + 1;
      }
    }

    /** `onenand_block_read`, every read of a good block succeeding. */
    method BlockRead(from: nat, n: nat) returns (buf: seq<Block>)
      requires Valid() && Room(bad, from, n)
      ensures buf == Collect(blocks, bad, from, n)
    {
      hide Room, Collect;
      var ofs, left: nat := from, n;
      buf := [];
      NothingBefore(Collect(blocks, bad, from, n));
      while left > 0
        invariant Room(bad, ofs, left)
        invariant Collect(blocks, bad, from, n) == buf + Collect(blocks, bad, ofs, left)
        decreases |bad| - ofs
      {
        CollectStep(blocks, bad, ofs, left, buf);
        if !bad[ofs] {
          buf := buf + [blocks[ofs]];
          left := left - 1;
        }
        ofs := ofs + 1;
      }
      CollectNone(blocks, bad, ofs, buf);
    }
  }

  lemma CollectStep(blocks: seq<Block>, bad: seq<bool>, ofs: nat, left: nat, buf: seq<Block>)
    requires |blocks| == |bad| && left > 0 && Room(bad, ofs, left)
    ensures ofs < |bad| && Room(bad, ofs + 1, if bad[ofs] then left else left - 1)
    ensures buf + Collect(blocks, bad, ofs, left)
         == if bad[ofs] then buf + Collect(blocks, bad, ofs + 1, left)
            else (buf + [blocks[ofs]]) + Collect(blocks, bad, ofs + 1, left - 1)
  {
  }

  lemma CollectNone(blocks: seq<Block>, bad: seq<bool>, ofs: nat, buf: seq<Block>)
    requires |blocks| == |bad|
    ensures Room(bad, ofs, 0) && buf + Collect(blocks, bad, ofs, 0) == buf
  {
  }

  // ----- streams

  function Flatten(chunks: seq<seq<Block>>): seq<Block> {
    if chunks == [] then [] else chunks[0] + Flatten(chunks[1..])
  }

  /** Each chunk written at the (logical) end of the one before. */
  ghost function WriteStream(s: State, bad: seq<bool>, to: nat, chunks: seq<seq<Block>>): State
    requires |s.blocks| == |bad| && Room(bad, StartOf(s, to), |Flatten(chunks)|)
    decreases |chunks|
  {
    if chunks == [] then s
    else
      var first, rest := chunks[0], Flatten(chunks[1..]);
      RoomSplits(bad, StartOf(s, to), |first|, |rest|);
      LayOutFrame(s.blocks, bad, StartOf(s, to), first);
      ContinuesBehind(s, bad, to, first);
      WriteStream(WriteBlocks(s, bad, to, first), bad, to + |first|, chunks[1..])
  }

  /** The next chunk of the stream starts exactly behind the last block written. */
  lemma ContinuesBehind(s: State, bad: seq<bool>, to: nat, data: seq<Block>)
    requires |s.blocks| == |bad| && Room(bad, StartOf(s, to), |data|)
    ensures StartOf(WriteBlocks(s, bad, to, data), to + |data|) == Behind(bad, StartOf(s, to), |data|)
  {
    BehindAtLeast(bad, StartOf(s, to), |data|);
  }

  /** However a stream is cut into chunks, the device ends up as after one write of the whole. */
  lemma {:induction false} StreamIsOneWrite(s: State, bad: seq<bool>, to: nat, chunks: seq<seq<Block>>)
    requires |s.blocks| == |bad| && Room(bad, StartOf(s, to), |Flatten(chunks)|)
    ensures WriteStream(s, bad, to, chunks).blocks == LayOut(s.blocks, bad, StartOf(s, to), Flatten(chunks))
    decreases |chunks|
  {
    if chunks != [] {
      var first, rest := chunks[0], Flatten(chunks[1..]);
      var start := StartOf(s, to);
      RoomSplits(bad, start, |first|, |rest|);
      LayOutFrame(s.blocks, bad, start, first);
      ContinuesBehind(s, bad, to, first);
      StreamIsOneWrite(WriteBlocks(s, bad, to, first), bad, to + |first|, chunks[1..]);
      LayOutConcat(s.blocks, bad, start, first, rest);
    }
  }

  /**
   A stream written in chunks from `to` on is read back from `to` as it was, provided the first
   write does not meet a skip left over from another stream that ended at `to`.
   */
  lemma StreamReadBack(s: State, bad: seq<bool>, to: nat, chunks: seq<seq<Block>>)
    requires |s.blocks| == |bad| && Room(bad, to, |Flatten(chunks)|)
    requires to == s.nextOfs ==> s.skipOfs == 0
    ensures |WriteStream(s, bad, to, chunks).blocks| == |bad|
    ensures Collect(WriteStream(s, bad, to, chunks).blocks, bad, to, |Flatten(chunks)|) == Flatten(chunks)
  {
    StreamIsOneWrite(s, bad, to, chunks);
    ReadBack(s.blocks, bad, to, Flatten(chunks));
  }

  // ----- a skip left over from another stream

  /** No good block is jumped over between where the write is asked for and where it starts. */
  ghost predicate OnlyBadBetween(bad: seq<bool>, to: nat, start: nat)
    requires start <= |bad|
  {
    forall i :: to <= i < start ==> bad[i]
  }

  lemma {:induction false} RoomEarlier(bad: seq<bool>, to: nat, start: nat, n: nat)
    requires to <= start && n > 0 && Room(bad, start, n)
    ensures start < |bad| && Room(bad, to, n)
    decreases start - to
  {
    if to < start {
      RoomEarlier(bad, to + 1, start, n);
      if !bad[to] { RoomFewer(bad, to + 1, n); }
    }
  }

  lemma {:induction false} RoomFewer(bad: seq<bool>, ofs: nat, n: nat)
    requires n > 0 && Room(bad, ofs, n)
    ensures Room(bad, ofs, n - 1)
    decreases |bad| - ofs
  {
    if n > 1 {
      if bad[ofs] { RoomFewer(bad, ofs + 1, n); } else { RoomFewer(bad, ofs + 1, n - 1); }
    }
  }

  lemma {:induction false} SkipBad(blocks: seq<Block>, bad: seq<bool>, to: nat, start: nat, data: seq<Block>)
    requires |blocks| == |bad| && to <= start && data != [] && Room(bad, start, |data|) && start < |bad|
    requires OnlyBadBetween(bad, to, start)
    ensures Room(bad, to, |data|) && LayOut(blocks, bad, to, data) == LayOut(blocks, bad, start, data)
    decreases start - to
  {
    if to < start { SkipBad(blocks, bad, to + 1, start, data); }
  }

  /** A good block jumped over gets the first block of data in one layout and keeps its own in the other. */
  lemma {:induction false} GoodBlockDiffers(blocks: seq<Block>, bad: seq<bool>, to: nat, start: nat, i: nat, data: seq<Block>)
    requires |blocks| == |bad| && to <= i < start < |bad| && !bad[i] && OnlyBadBetween(bad, to, i)
    requires data != [] && Room(bad, start, |data|) && Room(bad, to, |data|) && blocks[i] != data[0]
    ensures LayOut(blocks, bad, to, data) != LayOut(blocks, bad, start, data)
    decreases i - to
  {
    LayOutFrame(blocks, bad, start, data);
    if to == i {
      LayOutFrame(blocks[i := data[0]], bad, i + 1, data[1..]);
    } else {
      GoodBlockDiffers(blocks, bad, to + 1, start, i, data);
    }
  }

  lemma {:induction false} FirstGood(bad: seq<bool>, to: nat, start: nat) returns (i: nat)
    requires to <= start <= |bad| && !OnlyBadBetween(bad, to, start)
    ensures to <= i < start && !bad[i] && OnlyBadBetween(bad, to, i)
    decreases start - to
  {
    if bad[to] {
      i := FirstGood(bad, to + 1, start);
    } else {
      i := to;
    }
  }

  /**
   A stream ends up as one write at the offset asked for, whatever the device held before, exactly
   when the skip the first write finds (if it finds one) covers bad blocks only.
   */
  lemma LandsWhereAsked(s: State, bad: seq<bool>, to: nat, chunks: seq<seq<Block>>)
    requires Flatten(chunks) != [] && Room(bad, StartOf(s, to), |Flatten(chunks)|)
    ensures StartOf(s, to) < |bad| && Room(bad, to, |Flatten(chunks)|)
    ensures (forall blocks :: |blocks| == |bad| ==>
              WriteStream(s.(blocks := blocks), bad, to, chunks).blocks == LayOut(blocks, bad, to, Flatten(chunks)))
            <==> OnlyBadBetween(bad, to, StartOf(s, to))
  {
    var start, data := StartOf(s, to), Flatten(chunks);
    RoomEarlier(bad, to, start, |data|);
    forall blocks | |blocks| == |bad|
      ensures WriteStream(s.(blocks := blocks), bad, to, chunks).blocks == LayOut(blocks, bad, start, data)
    {
      StreamIsOneWrite(s.(blocks := blocks), bad, to, chunks);
    }
    if OnlyBadBetween(bad, to, start) {
      forall blocks | |blocks| == |bad| ensures LayOut(blocks, bad, to, data) == LayOut(blocks, bad, start, data) {
        SkipBad(blocks, bad, to, start, data);
      }
    } else {
      var i := FirstGood(bad, to, start);
      var blocks := seq(|bad|, _ => if data[0] == [] then [0] else []);
      GoodBlockDiffers(blocks, bad, to, start, i, data);
    }
  }
}

/** What every event of a `KermitSession` keeps: the receiver is at its checkpoint or one packet behind it. */
module KermitInvariant {
  import opened Machine
  import opened Sequences
  import opened KermitCodec
  import opened KermitProtocol
  import opened KermitSession

  // ----- memory

  ghost predicate SameBelow(m: map<int, byte>, m': map<int, byte>, limit: int) {
    forall a :: a < limit ==> (a in m <==> a in m') && (a in m ==> m[a] == m'[a])
  }

  /** `content` lies at `base` and nothing below `base` has changed. */
  ghost predicate Holds(mem: map<int, byte>, base: int, mem0: map<int, byte>, content: seq<byte>) {
    && (forall a :: base <= a < base + |content| ==> a in mem && mem[a] == content[a - base])
    && SameBelow(mem0, mem, base)
  }

  lemma HoldsBelow(mem: map<int, byte>, mem': map<int, byte>, base: int, mem0: map<int, byte>, content: seq<byte>)
    requires Holds(mem, base, mem0, content) && SameBelow(mem, mem', base + |content|)
    ensures Holds(mem', base, mem0, content)
  {
    forall a | a < base ensures (a in mem0 <==> a in mem') && (a in mem0 ==> mem0[a] == mem'[a]) {
      assert a in mem <==> a in mem';
    }
  }

  lemma StoreHolds(s: Sink, c: byte, base: int, mem0: map<int, byte>, content: seq<byte>)
    requires Holds(s.mem, base, mem0, content) && s.addr == base + |content|
    ensures Holds(Store(s, c).mem, base, mem0, content + [c])
  {
  }

  /** One data character stores at most one byte, the one decoding it gives. */
  lemma TakeOne(r: Receiver, data: seq<byte>, base: int, mem0: map<int, byte>, content: seq<byte>) returns (stored: seq<byte>)
    requires data != [] && Holds(r.sink.mem, base, mem0, content) && r.sink.addr == base + |content|
    ensures var r1 := Take(r, DATA_TYPE, data[0]);
            var d, d1 := Decode(r.params.quote, r.sink.escape, data), Decode(r.params.quote, r1.sink.escape, data[1..]);
            && r1 == r.(sink := r1.sink) && r1.sink.addr == base + |content + stored|
            && d.bytes == stored + d1.bytes && d.escape == d1.escape
            && Holds(r1.sink.mem, base, mem0, content + stored)
  {
    hide Ktrans, Holds;
    var r1 := Take(r, DATA_TYPE, data[0]);
    if r1.sink.addr == r.sink.addr {
      stored := [];
      assert content + stored == content;
    } else {
      stored := [r1.sink.mem[r.sink.addr]];
      StoreHolds(r.sink, stored[0], base, mem0, content);
    }
  }

  /** Data characters are decoded behind what is already stored. */
  lemma {:induction false} TakeData(r: Receiver, data: seq<byte>, base: int, mem0: map<int, byte>, content: seq<byte>)
    requires Holds(r.sink.mem, base, mem0, content) && r.sink.addr == base + |content|
    ensures var d := Decode(r.params.quote, r.sink.escape, data);
            var r' := TakeAll(r, DATA_TYPE, data);
            && r' == r.(sink := r'.sink)
            && r'.sink.addr == base + |content + d.bytes| && r'.sink.escape == d.escape
            && Holds(r'.sink.mem, base, mem0, content + d.bytes)
    decreases |data|
  {
    hide Holds, Take;
    if data == [] {
      assert content + [] == content;
    } else {
      hide Decode;
      var stored := TakeOne(r, data, base, mem0, content);
      var r1 := Take(r, DATA_TYPE, data[0]);
      TakeData(r1, data[1..], base, mem0, content + stored);
      Associate(content, stored, Decode(r.params.quote, r1.sink.escape, data[1..]).bytes);
    }
  }

  lemma {:induction false} TakeOther(r: Receiver, kind: byte, data: seq<byte>)
    requires kind != DATA_TYPE
    ensures TakeAll(r, kind, data) == r
    decreases |data|
  {
    if data != [] { TakeOther(r, kind, data[1..]); }
  }

  // ----- rejected packets leave everything below the checkpoint alone

  ghost predicate RolledBack(r: Receiver, r': Receiver) {
    && r'.sink.addr == r.savedAddr && r'.sink.escape == r.savedEscape
    && r' == r.(sink := r'.sink, out := r'.out)
    && SameBelow(r.sink.mem, r'.sink.mem, r.savedAddr)
  }

  lemma {:induction false} RejectedData(r: Receiver, kind: byte, length: int, sum: nat, parms: seq<byte>, s: seq<byte>)
    requires AllPrintable(parms) && r.savedAddr <= r.sink.addr
    requires ReceiveData(r, kind, length, sum, parms, s).Rejected?
    ensures RolledBack(r, ReceiveData(r, kind, length, sum, parms, s).r)
    decreases |s|
  {
    if Printable(s[0]) && length > 1 {
      var r1 := Take(r, kind, s[0]);
      RejectedData(r1, kind, length - 1, sum + s[0], parms + [s[0]], s[1..]);
    }
  }

  lemma RejectedNumbered(r: Receiver, bytes: seq<byte>)
    requires |bytes| >= 2 && Printable(bytes[0]) && Printable(bytes[1])
    requires ReceivePacket(r, bytes).Rejected?
    requires r.savedAddr <= r.sink.addr
    ensures RolledBack(Number(r, UnToChar(bytes[1])), ReceivePacket(r, bytes).r)
  {
    hide ReceiveData;
    var r1 := Number(r, UnToChar(bytes[1]));
    if Printable(bytes[2]) {
      var sum: nat := bytes[0] as int + bytes[1] as int + bytes[2] as int;
      var s := bytes[3..];
      if UnToChar(bytes[0]) != 0 {
        RejectedData(r1, bytes[2], UnToChar(bytes[0]) - 2, sum, [], s);
      } else if |s| >= 3 && AllPrintable(s[..3]) && s[2] == Check(sum + s[0] + s[1]) {
        assert Printable(s[..3][0]) && Printable(s[..3][1]);
        RejectedData(r1, bytes[2], UnToChar(s[0]) * 95 + UnToChar(s[1]), sum + s[0] + s[1] + s[2], [], s[3..]);
      }
    }
  }

  // ----- the bytes that follow a rejected packet do not matter to it

  lemma {:induction false} MoreData(r: Receiver, kind: byte, length: int, sum: nat, parms: seq<byte>, s: seq<byte>, more: seq<byte>)
    requires AllPrintable(parms)
    requires ReceiveData(r, kind, length, sum, parms, s).Rejected?
    ensures var o := ReceiveData(r, kind, length, sum, parms, s);
            ReceiveData(r, kind, length, sum, parms, s + more) == Rejected(o.r, o.rest + more)
    decreases |s|
  {
    assert (s + more)[1..] == s[1..] + more;
    if Printable(s[0]) {
      if length > 1 {
        MoreData(Take(r, kind, s[0]), kind, length - 1, sum + s[0], parms + [s[0]], s[1..], more);
      } else if s[0] == Check(sum) {
        assert (s + more)[2..] == s[2..] + more;
      }
    }
  }

  lemma MoreLong(r: Receiver, kind: byte, sum: nat, s: seq<byte>, more: seq<byte>)
    requires ReceiveLong(r, kind, sum, s).Rejected?
    ensures var o := ReceiveLong(r, kind, sum, s);
            ReceiveLong(r, kind, sum, s + more) == Rejected(o.r, o.rest + more)
  {
    assert (s + more)[1..] == s[1..] + more;
    if Printable(s[0]) {
      assert (s + more)[2..] == s[2..] + more;
      if Printable(s[1]) {
        assert (s + more)[3..] == s[3..] + more;
        if Printable(s[2]) && s[2] == Check(sum + s[0] + s[1]) {
          MoreData(r, kind, UnToChar(s[0]) * 95 + UnToChar(s[1]), sum + s[0] + s[1] + s[2], [], s[3..], more);
        }
      }
    }
  }

  lemma MorePacket(r: Receiver, s: seq<byte>, more: seq<byte>)
    requires ReceivePacket(r, s).Rejected?
    ensures var o := ReceivePacket(r, s);
            ReceivePacket(r, s + more) == Rejected(o.r, o.rest + more)
  {
    assert (s + more)[1..] == s[1..] + more;
    if Printable(s[0]) {
      assert (s + more)[2..] == s[2..] + more;
      if Printable(s[1]) {
        assert (s + more)[3..] == s[3..] + more;
        var r1 := Number(r, UnToChar(s[1]));
        var sum: nat := s[0] as int + s[1] as int + s[2] as int;
        if Printable(s[2]) {
          if UnToChar(s[0]) == 0 {
            MoreLong(r1, s[2], sum, s[3..], more);
          } else {
            MoreData(r1, s[2], UnToChar(s[0]) - 2, sum, [], s[3..], more);
          }
        }
      }
    }
  }

  lemma {:induction false} SkipNoise(r: Receiver, noise: seq<byte>, s: seq<byte>)
    requires Quiet(noise)
    ensures Run(r, noise + s) == Run(r, s)
    decreases |noise|
  {
    if noise == [] {
      assert noise + s == s;
    } else {
      assert (noise + s)[1..] == noise[1..] + s;
      SkipNoise(r, noise[1..], s);
    }
  }

  /** One event seen by the main loop of `k_recv`, with anything after it on the line. */
  lemma RunEvent(packets: seq<Packet>, s: System, e: Event, more: seq<byte>)
    requires ValidSession(packets) && s.peer < |packets| && Possible(s.r, s.peer, e)
    ensures var r' := Next(packets, s, e).r;
            Run(s.r, Arriving(packets, s.peer, e) + more)
            == if Finishes(packets, s, e) then Complete(r') else Run(r', more)
  {
    hide Frame, ReceivePacket, TakeAll;
    var body := if e.Intact? then Frame(s.peer % 64, packets[s.peer]) else e.bytes;
    var line := [START_CHAR] + (body + more);
    assert Arriving(packets, s.peer, e) + more == e.noise + line;
    SkipNoise(s.r, e.noise, line);
    assert line[1..] == body + more;
    if e.Intact? {
      AcceptFrame(s.r, s.peer % 64, packets[s.peer], []);
      AcceptFrame(s.r, s.peer % 64, packets[s.peer], more);
    } else {
      MorePacket(s.r, body, more);
      SkipNoise(ReceivePacket(s.r, body).r, ReceivePacket(s.r, body).rest, more);
    }
  }

  // ----- the invariant

  /** The sink stands where the first `i` packets leave it. */
  ghost predicate At(packets: seq<Packet>, i: nat, sink: Sink, base: int, mem0: map<int, byte>)
    requires i <= |packets| && ValidSession(packets)
  {
    var p := After(packets, i);
    && sink.addr == base + |p.content| && sink.escape == p.escape
    && Holds(sink.mem, base, mem0, p.content)
  }

  predicate StoresNothing(p: Packet) {
    p.kind != DATA_TYPE || p.data == []
  }

  /** The quote character is right for packet `i`, or will be set right before any data is decoded. */
  ghost predicate QuoteRight(packets: seq<Packet>, i: nat, quote: byte)
    requires i <= |packets| && ValidSession(packets)
    decreases |packets| - i
  {
    || quote == After(packets, i).quote
    || (i < |packets| && StoresNothing(packets[i]) && (packets[i].kind == SEND_TYPE || QuoteRight(packets, i + 1, quote)))
  }

  /** The number of packet `i`; the packet before the first has none. */
  function NumberOf(i: int): int {
    if i < 0 then -1 else i % 64
  }

  /**
   The checkpoint is where the packets before `c` end and the receiver stands behind `k` packets.
   When the number read last is that of the peer's packet, the checkpoint is in front of that
   packet; otherwise the receiver itself is, and the checkpoint is there too or, if the number is
   that of the packet before, in front of that one.
   */
  ghost predicate Inv(packets: seq<Packet>, s: System, c: nat, k: nat, base: int, mem0: map<int, byte>)
    requires ValidSession(packets)
  {
    var p := s.peer;
    && p <= |packets| && c <= |packets| && k <= |packets|
    && At(packets, c, Restore(s.r).sink, base, mem0) && At(packets, k, s.r.sink, base, mem0)
    && QuoteRight(packets, p, s.r.params.quote) && QuoteRight(packets, c, s.r.params.quote)
    && (s.r.n == s.r.lastN || (s.r.n == 0 && s.r.lastN == -1 && p == 0))
    && (if s.r.lastN == p % 64 then c == p && (k == p || k == p + 1)
        else k == p && (if p > 0 && s.r.lastN == NumberOf(p - 1) then c == p - 1 else c == p))
  }

  /** In front of packet `i`, with a quote character that is right for it. */
  ghost predicate Ready(packets: seq<Packet>, i: nat, r: Receiver, base: int, mem0: map<int, byte>)
    requires i < |packets| && ValidSession(packets)
  {
    && r.n == r.lastN == i % 64
    && r.sink.addr == r.savedAddr && r.sink.escape == r.savedEscape
    && At(packets, i, r.sink, base, mem0) && QuoteRight(packets, i, r.params.quote)
  }

  /** After the number of the peer's packet is read, the sink is at the checkpoint in front of that packet. */
  lemma NumberAtCheckpoint(packets: seq<Packet>, s: System, c: nat, k: nat, base: int, mem0: map<int, byte>)
    requires ValidSession(packets) && Inv(packets, s, c, k, base, mem0) && s.peer < |packets|
    ensures Ready(packets, s.peer, Number(s.r, s.peer % 64), base, mem0)
  {
  }

  lemma TakePacket(packets: seq<Packet>, i: nat, r: Receiver, base: int, mem0: map<int, byte>)
    requires i < |packets| && ValidSession(packets) && Ready(packets, i, r, base, mem0)
    ensures var r' := TakeAll(r, packets[i].kind, packets[i].data);
            && r' == r.(sink := r'.sink)
            && At(packets, i + 1, r'.sink, base, mem0)
            && At(packets, i, Restore(r').sink, base, mem0)
  {
    var p, before := packets[i], After(packets, i);
    assert After(packets, i + 1) == Advance(before, p);
    if p.kind == DATA_TYPE {
      TakeData(r, p.data, base, mem0, before.content);
      var r' := TakeAll(r, p.kind, p.data);
      var all := After(packets, i + 1).content;
      forall a | base <= a < base + |before.content|
        ensures a in r'.sink.mem && r'.sink.mem[a] == before.content[a - base]
      {
        assert all[a - base] == before.content[a - base];
      }
    } else {
      TakeOther(r, p.kind, p.data);
    }
  }

  /** What an accepted packet makes of the quote character is right for it, should it come again, and for the next. */
  lemma QuoteAfter(packets: seq<Packet>, i: nat, quote: byte)
    requires i < |packets| && ValidSession(packets) && QuoteRight(packets, i, quote)
    ensures var next := if packets[i].kind == SEND_TYPE then Negotiate(packets[i].data).quote else quote;
            QuoteRight(packets, i, next) && QuoteRight(packets, i + 1, next)
  {
    assert After(packets, i + 1) == Advance(After(packets, i), packets[i]);
  }

  lemma AcceptedStep(packets: seq<Packet>, s: System, c: nat, k: nat, base: int, mem0: map<int, byte>, e: Event)
    requires ValidSession(packets) && Inv(packets, s, c, k, base, mem0) && s.peer < |packets|
    requires Possible(s.r, s.peer, e) && e.Intact?
    ensures Inv(packets, Next(packets, s, e), s.peer, s.peer + 1, base, mem0)
  {
    hide At, Frame, ReceivePacket, TakeAll, QuoteRight, Number, Next;
    PeerMoves(packets, s, e);
    var p, i := packets[s.peer], s.peer;
    var r := Number(s.r, i % 64);
    NumberAtCheckpoint(packets, s, c, k, base, mem0);
    assert r.params == s.r.params by { NumberKeeps(s.r, i % 64); }
    AcceptFrame(s.r, i % 64, p, []);
    TakePacket(packets, i, r, base, mem0);
    QuoteAfter(packets, i, r.params.quote);
  }

  lemma NumberKeeps(r: Receiver, n: small)
    ensures Number(r, n).params == r.params
  {
  }

  /** A rejected packet whose number was read: the receiver is at the checkpoint that reading the number left. */
  lemma RejectedAt(packets: seq<Packet>, r: Receiver, bytes: seq<byte>, i: nat, base: int, mem0: map<int, byte>)
    requires ValidSession(packets) && i <= |packets|
    requires |bytes| >= 2 && Printable(bytes[0]) && Printable(bytes[1]) && ReceivePacket(r, bytes).Rejected?
    requires r.savedAddr <= r.sink.addr && At(packets, i, Restore(Number(r, UnToChar(bytes[1]))).sink, base, mem0)
    ensures var r1, r' := Number(r, UnToChar(bytes[1])), ReceivePacket(r, bytes).r;
            && At(packets, i, r'.sink, base, mem0) && At(packets, i, Restore(r').sink, base, mem0)
            && r'.n == r1.n == UnToChar(bytes[1]) && r'.lastN == r1.lastN == r'.n && r'.params == r.params
  {
    RejectedNumbered(r, bytes);
    var r1, r' := Number(r, UnToChar(bytes[1])), ReceivePacket(r, bytes).r;
    HoldsBelow(r1.sink.mem, r'.sink.mem, base, mem0, After(packets, i).content);
  }

  lemma DamagedStep(packets: seq<Packet>, s: System, c: nat, k: nat, base: int, mem0: map<int, byte>, e: Event)
    requires ValidSession(packets) && Inv(packets, s, c, k, base, mem0) && s.peer < |packets|
    requires Possible(s.r, s.peer, e) && e.Damaged?
    ensures Inv(packets, Next(packets, s, e), s.peer, s.peer, base, mem0)
  {
    hide At, ReceivePacket, QuoteRight, Next;
    PeerMoves(packets, s, e);
    NumberAtCheckpoint(packets, s, c, k, base, mem0);
    assert UnToChar(e.bytes[1]) == s.peer % 64;
    SavedBelow(packets, s, c, k, base, mem0);
    RejectedAt(packets, s.r, e.bytes, s.peer, base, mem0);
  }

  lemma SavedBelow(packets: seq<Packet>, s: System, c: nat, k: nat, base: int, mem0: map<int, byte>)
    requires ValidSession(packets) && Inv(packets, s, c, k, base, mem0)
    ensures s.r.savedAddr <= s.r.sink.addr
  {
    hide QuoteRight, Holds;
    if k == c + 1 { assert After(packets, k) == Advance(After(packets, c), packets[c]); }
  }

  /** The receiver falls back to the checkpoint; if that is in front of the packet before, the NAK names it. */
  lemma HeaderLostStep(packets: seq<Packet>, s: System, c: nat, k: nat, base: int, mem0: map<int, byte>, e: Event)
    requires ValidSession(packets) && Inv(packets, s, c, k, base, mem0) && s.peer < |packets|
    requires Possible(s.r, s.peer, e) && e.HeaderLost?
    ensures Inv(packets, Next(packets, s, e), c, c, base, mem0)
  {
    hide At, QuoteRight, Next;
    PeerMoves(packets, s, e);
  }

  // ----- another number

  /**
   What a rejected copy with the number `m` does not spoil: nothing is stored behind the checkpoint
   if that is in front of the peer's packet, and if the NAK makes the peer fall back, the packet
   before carries no data.  A number that repeats the last one only rolls back.
   */
  predicate Harmless(packets: seq<Packet>, s: System, m: small)
    requires s.peer <= |packets|
  {
    m == s.r.lastN ||
    (&& (s.r.lastN == s.peer % 64 ==> Restore(s.r).sink == s.r.sink)
     && (PeerOnNak(s.peer, m) < s.peer ==> StoresNothing(packets[s.peer - 1])))
  }

  /** Every data character moves the position: a byte more, or a quote pending. */
  function Weight(p: Progress): nat {
    2 * |p.content| + (if p.escape then 1 else 0)
  }

  lemma {:induction false} DecodeWeight(quote: byte, escape: bool, data: seq<byte>)
    ensures var d := Decode(quote, escape, data);
            2 * |d.bytes| + (if d.escape then 1 else 0) >= |data| + (if escape then 1 else 0)
    decreases |data|
  {
    if data != [] { DecodeWeight(quote, !escape && data[0] == quote, data[1..]); }
  }

  lemma WeightGrows(packets: seq<Packet>, i: nat)
    requires ValidSession(packets) && i < |packets|
    ensures Weight(After(packets, i)) <= Weight(After(packets, i + 1))
    ensures Weight(After(packets, i)) == Weight(After(packets, i + 1)) <==> StoresNothing(packets[i])
    ensures StoresNothing(packets[i]) ==>
              After(packets, i).content == After(packets, i + 1).content && After(packets, i).escape == After(packets, i + 1).escape
  {
    var before, p := After(packets, i), packets[i];
    assert After(packets, i + 1) == Advance(before, p);
    if p.kind == DATA_TYPE {
      DecodeWeight(before.quote, before.escape, p.data);
      assert before.content + [] == before.content;
    }
  }

  lemma AtWeight(packets: seq<Packet>, i: nat, k: nat, sink: Sink, sink': Sink, base: int, mem0: map<int, byte>)
    requires ValidSession(packets) && i <= |packets| && k <= |packets|
    requires At(packets, i, sink, base, mem0) && At(packets, k, sink', base, mem0)
    requires sink.addr == sink'.addr && sink.escape == sink'.escape
    ensures Weight(After(packets, i)) == Weight(After(packets, k))
  {
  }

  /** In front of a packet that stores nothing is behind it, for the memory and for the quote character. */
  lemma AtBefore(packets: seq<Packet>, i: nat, r: Receiver, base: int, mem0: map<int, byte>)
    requires ValidSession(packets) && i < |packets| && StoresNothing(packets[i])
    requires At(packets, i + 1, r.sink, base, mem0)
    ensures At(packets, i, r.sink, base, mem0)
    ensures QuoteRight(packets, i + 1, r.params.quote) ==> QuoteRight(packets, i, r.params.quote)
  {
    WeightGrows(packets, i);
  }

  /** The number read last is repeated: the receiver rolls back, and the peer with it. */
  lemma RepeatedNumberStep(packets: seq<Packet>, s: System, c: nat, k: nat, base: int, mem0: map<int, byte>, e: Event)
    requires ValidSession(packets) && Inv(packets, s, c, k, base, mem0) && s.peer < |packets|
    requires Possible(s.r, s.peer, e) && e.Misnumbered? && UnToChar(e.bytes[1]) == s.r.lastN
    ensures Inv(packets, Next(packets, s, e), c, c, base, mem0)
  {
    hide At, ReceivePacket, QuoteRight, Next;
    PeerMoves(packets, s, e);
    SavedBelow(packets, s, c, k, base, mem0);
    RejectedAt(packets, s.r, e.bytes, c, base, mem0);
  }

  /** The receiver stands in front of the packet that the peer sends next. */
  lemma StandsBefore(packets: seq<Packet>, s: System, c: nat, k: nat, base: int, mem0: map<int, byte>, m: small)
    requires ValidSession(packets) && Inv(packets, s, c, k, base, mem0) && s.peer < |packets|
    requires m != s.peer % 64 && m != s.r.lastN && Harmless(packets, s, m)
    ensures var q := PeerOnNak(s.peer, m); At(packets, q, s.r.sink, base, mem0) && QuoteRight(packets, q, s.r.params.quote)
  {
    hide Holds, QuoteRight;
    var p := s.peer;
    if k == p + 1 {
      AtWeight(packets, p, k, Restore(s.r).sink, s.r.sink, base, mem0);
      WeightGrows(packets, p);
      AtBefore(packets, p, s.r, base, mem0);
    }
    if PeerOnNak(p, m) < p { AtBefore(packets, p - 1, s.r, base, mem0); }
  }

  lemma HarmlessStep(packets: seq<Packet>, s: System, c: nat, k: nat, base: int, mem0: map<int, byte>, e: Event) returns (i: nat)
    requires ValidSession(packets) && Inv(packets, s, c, k, base, mem0) && s.peer < |packets|
    requires Possible(s.r, s.peer, e) && e.Misnumbered? && Harmless(packets, s, UnToChar(e.bytes[1]))
    ensures Inv(packets, Next(packets, s, e), i, i, base, mem0)
  {
    hide At, ReceivePacket, QuoteRight, Next;
    PeerMoves(packets, s, e);
    var m := UnToChar(e.bytes[1]);
    if m == s.r.lastN {
      i := c;
      RepeatedNumberStep(packets, s, c, k, base, mem0, e);
    } else {
      i := PeerOnNak(s.peer, m);
      StandsBefore(packets, s, c, k, base, mem0, m);
      SavedBelow(packets, s, c, k, base, mem0);
      assert Restore(Number(s.r, m)).sink == s.r.sink;
      RejectedAt(packets, s.r, e.bytes, i, base, mem0);
    }
  }

  /** After any other misnumbered copy the receiver stands, checkpoint included, behind a packet that comes again. */
  lemma HarmfulStep(packets: seq<Packet>, s: System, c: nat, k: nat, base: int, mem0: map<int, byte>, e: Event)
    requires ValidSession(packets) && Inv(packets, s, c, k, base, mem0) && s.peer < |packets|
    requires Possible(s.r, s.peer, e) && e.Misnumbered? && !Harmless(packets, s, UnToChar(e.bytes[1]))
    ensures var s', q := Next(packets, s, e), PeerOnNak(s.peer, UnToChar(e.bytes[1]));
            && s'.peer == q < k && Weight(After(packets, q)) < Weight(After(packets, k))
            && At(packets, k, s'.r.sink, base, mem0) && At(packets, k, Restore(s'.r).sink, base, mem0)
            && s'.r.n == s'.r.lastN == UnToChar(e.bytes[1]) && s'.r.params == s.r.params
  {
    hide ReceivePacket, QuoteRight, Holds, Next;
    PeerMoves(packets, s, e);
    var p, m := s.peer, UnToChar(e.bytes[1]);
    SavedBelow(packets, s, c, k, base, mem0);
    assert Restore(Number(s.r, m)).sink == s.r.sink;
    RejectedAt(packets, s.r, e.bytes, k, base, mem0);
    if k == p + 1 { WeightGrows(packets, p); }
    if PeerOnNak(p, m) < p { WeightGrows(packets, p - 1); }
    if StoresNothing(packets[p]) && k == p + 1 { AtBefore(packets, p, s.r, base, mem0); }
  }

  /** A rejected copy with another number keeps the invariant if and only if it is harmless. */
  lemma MisnumberedStep(packets: seq<Packet>, s: System, c: nat, k: nat, base: int, mem0: map<int, byte>, e: Event)
    requires ValidSession(packets) && Inv(packets, s, c, k, base, mem0) && s.peer < |packets|
    requires Possible(s.r, s.peer, e) && e.Misnumbered?
    ensures (exists c', k' :: Inv(packets, Next(packets, s, e), c', k', base, mem0))
            <==> Harmless(packets, s, UnToChar(e.bytes[1]))
  {
    hide Next, Harmless, QuoteRight, Holds, ReceivePacket;
    if Harmless(packets, s, UnToChar(e.bytes[1])) {
      var i := HarmlessStep(packets, s, c, k, base, mem0, e);
    } else {
      HarmfulStep(packets, s, c, k, base, mem0, e);
      var s', q := Next(packets, s, e), PeerOnNak(s.peer, UnToChar(e.bytes[1]));
      forall c', k' ensures !Inv(packets, s', c', k', base, mem0) {
        if Inv(packets, s', c', k', base, mem0) {
          NotInFront(packets, s', c', k', k, base, mem0);
        }
      }
    }
  }

  lemma NotInFront(packets: seq<Packet>, s: System, c: nat, k: nat, i: nat, base: int, mem0: map<int, byte>)
    requires ValidSession(packets) && Inv(packets, s, c, k, base, mem0) && i <= |packets|
    requires At(packets, i, s.r.sink, base, mem0) && At(packets, i, Restore(s.r).sink, base, mem0)
    ensures Weight(After(packets, s.peer)) == Weight(After(packets, i))
  {
    hide QuoteRight, Holds;
    if c == s.peer {
      AtWeight(packets, c, i, Restore(s.r).sink, Restore(s.r).sink, base, mem0);
    } else {
      AtWeight(packets, k, i, s.r.sink, s.r.sink, base, mem0);
    }
  }

  /** The receiver stands where `at` says, with its quote character. */
  ghost predicate Stands(r: Receiver, at: Progress, base: int, mem0: map<int, byte>) {
    && r.sink.addr == base + |at.content| && r.sink.escape == at.escape && r.params.quote == at.quote
    && Holds(r.sink.mem, base, mem0, at.content)
  }

  /** The receiver after intact copies of packets `q` to `k - 1`. */
  ghost function Resent(r: Receiver, packets: seq<Packet>, q: nat, k: nat): Receiver
    requires q <= k <= |packets| && ValidSession(packets)
    decreases k - q
  {
    if q == k then r
    else
      AcceptFrame(r, q % 64, packets[q], []);
      Resent(ReceivePacket(r, Frame(q % 64, packets[q]) + []).r, packets, q + 1, k)
  }

  /** What those packets add to a position. */
  function Again(at: Progress, packets: seq<Packet>, q: nat, k: nat): Progress
    requires q <= k <= |packets| && ValidSession(packets)
    decreases k - q
  {
    if q == k then at else Again(Advance(at, packets[q]), packets, q + 1, k)
  }

  lemma TakesOnce(r: Receiver, n: small, p: Packet, at: Progress, base: int, mem0: map<int, byte>)
    requires ValidPacket(p) && Stands(Number(r, n), at, base, mem0)
    ensures var o := ReceivePacket(r, Frame(n, p) + []);
            o.Accepted? && Stands(o.r, Advance(at, p), base, mem0) && o.r.n == o.r.lastN == n
  {
    hide Holds, Frame, ReceivePacket, TakeAll;
    var r1 := Number(r, n);
    AcceptFrame(r, n, p, []);
    TakeAllLast(r1, p.kind, p.data);
    if p.kind == DATA_TYPE {
      TakeData(r1, p.data, base, mem0, at.content);
    } else {
      TakeOther(r1, p.kind, p.data);
    }
  }

  lemma {:induction false} ResentStores(r: Receiver, packets: seq<Packet>, q: nat, k: nat, at: Progress, base: int, mem0: map<int, byte>)
    requires q < k <= |packets| && ValidSession(packets) && Stands(Number(r, q % 64), at, base, mem0)
    ensures Stands(Resent(r, packets, q, k), Again(at, packets, q, k), base, mem0)
    decreases k - q
  {
    hide Holds, Frame, ReceivePacket, Advance;
    TakesOnce(r, q % 64, packets[q], at, base, mem0);
    if q + 1 < k {
      var o := ReceivePacket(r, Frame(q % 64, packets[q]) + []);
      assert (q + 1) % 64 != q % 64;
      ResentStores(o.r, packets, q + 1, k, Advance(at, packets[q]), base, mem0);
    }
  }

  lemma AdvanceWeight(at: Progress, p: Packet)
    requires AllPrintable(p.data)
    ensures Weight(Advance(at, p)) >= Weight(at)
    ensures !StoresNothing(p) ==> Weight(Advance(at, p)) > Weight(at)
  {
    if p.kind == DATA_TYPE { DecodeWeight(at.quote, at.escape, p.data); }
  }

  lemma {:induction false} AgainWeight(at: Progress, packets: seq<Packet>, q: nat, k: nat)
    requires q <= k <= |packets| && ValidSession(packets)
    ensures Weight(Again(at, packets, q, k)) >= Weight(at)
    ensures Weight(After(packets, q)) < Weight(After(packets, k)) ==> Weight(Again(at, packets, q, k)) > Weight(at)
    decreases k - q
  {
    hide Advance, Weight, After;
    if q < k {
      AdvanceWeight(at, packets[q]);
      WeightGrows(packets, q);
      AgainWeight(Advance(at, packets[q]), packets, q + 1, k);
    }
  }

  /**
   When the peer then goes on and its packets arrive intact, those up to where the receiver stood
   are stored a second time, behind all that was there; they do carry data.
   */
  lemma PacketTwice(packets: seq<Packet>, s: System, c: nat, k: nat, base: int, mem0: map<int, byte>, e: Event)
    requires ValidSession(packets) && Inv(packets, s, c, k, base, mem0) && s.peer < |packets|
    requires Possible(s.r, s.peer, e) && e.Misnumbered? && !Harmless(packets, s, UnToChar(e.bytes[1]))
    ensures var s' := Next(packets, s, e);
            var before := After(packets, k).(quote := s.r.params.quote);
            && s'.peer < k && Stands(s'.r, before, base, mem0)
            && Stands(Resent(s'.r, packets, s'.peer, k), Again(before, packets, s'.peer, k), base, mem0)
            && Weight(Again(before, packets, s'.peer, k)) > Weight(before)
  {
    hide Next, Possible, Harmless, QuoteRight, Holds, Resent, Again;
    HarmfulStep(packets, s, c, k, base, mem0, e);
    var s', before := Next(packets, s, e), After(packets, k).(quote := s.r.params.quote);
    assert Stands(Number(s'.r, s'.peer % 64), before, base, mem0);
    ResentStores(s'.r, packets, s'.peer, k, before, base, mem0);
    AgainWeight(before, packets, s'.peer, k);
  }

  /** This is all it takes: the ACK of a data packet is lost and three damaged characters arrive. */
  lemma LostAckThenHarm(packets: seq<Packet>, s: System, c: nat, k: nat, base: int, mem0: map<int, byte>, e: Event)
    requires ValidSession(packets) && Inv(packets, s, c, k, base, mem0) && s.peer < |packets|
    requires Possible(s.r, s.peer, e) && e.Intact? && !e.acked && !StoresNothing(packets[s.peer])
    ensures var s', bytes := Next(packets, s, e), [ToChar(3), ToChar((s.peer + 1) % 64), END_CHAR];
            Possible(s'.r, s'.peer, Misnumbered([], bytes)) && !Harmless(packets, s', UnToChar(bytes[1]))
  {
    hide Frame, QuoteRight, Holds;
    AcceptedStep(packets, s, c, k, base, mem0, e);
    var s', p := Next(packets, s, e), s.peer;
    assert s'.r.lastN == p % 64 && s'.peer == p by { NumberRead(packets, s, e); }
    WeightGrows(packets, p);
  }

  lemma NumberRead(packets: seq<Packet>, s: System, e: Event)
    requires ValidSession(packets) && s.peer < |packets| && Possible(s.r, s.peer, e) && e.Intact?
    ensures Next(packets, s, e).r.lastN == s.peer % 64
  {
    hide Frame, ReceivePacket;
    var p := packets[s.peer];
    AcceptFrame(s.r, s.peer % 64, p, []);
    TakeAllLast(Number(s.r, s.peer % 64), p.kind, p.data);
  }

  lemma {:induction false} TakeAllLast(r: Receiver, kind: byte, data: seq<byte>)
    ensures TakeAll(r, kind, data).n == r.n && TakeAll(r, kind, data).lastN == r.lastN
    decreases |data|
  {
    if data != [] { TakeAllLast(Take(r, kind, data[0]), kind, data[1..]); }
  }
}

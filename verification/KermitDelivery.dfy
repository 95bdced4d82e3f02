/** Delivery over every run of `KermitSession`, and what happens when a NAK is not honoured. */
module KermitDelivery {
  import opened Machine
  import opened Sequences
  import opened KermitCodec
  import opened KermitProtocol
  import opened KermitReply
  import opened KermitSession
  import opened KermitInvariant

  // ----- whole runs

  /** The last event hands the break packet over intact. */
  predicate Completes(packets: seq<Packet>, s: System, events: seq<Event>)
    requires ValidSession(packets) && LineRun(packets, s, events)
    decreases |events|
  {
    events != [] &&
    (Finishes(packets, s, events[0]) || Completes(packets, Next(packets, s, events[0]), events[1..]))
  }

  /** No copy with another number arrives where it does harm. */
  predicate HarmlessRun(packets: seq<Packet>, s: System, events: seq<Event>)
    requires ValidSession(packets) && LineRun(packets, s, events)
    decreases |events|
  {
    events != [] ==>
      && (events[0].Misnumbered? ==> Harmless(packets, s, UnToChar(events[0].bytes[1])))
      && (Finishes(packets, s, events[0]) || HarmlessRun(packets, Next(packets, s, events[0]), events[1..]))
  }

  /** Whatever arrives, harmless if misnumbered, keeps the invariant. */
  lemma EventStep(packets: seq<Packet>, s: System, c: nat, k: nat, base: int, mem0: map<int, byte>, e: Event)
    returns (c': nat, k': nat)
    requires ValidSession(packets) && Inv(packets, s, c, k, base, mem0) && s.peer < |packets|
    requires Possible(s.r, s.peer, e)
    requires e.Misnumbered? ==> Harmless(packets, s, UnToChar(e.bytes[1]))
    ensures Inv(packets, Next(packets, s, e), c', k', base, mem0)
    ensures e.Intact? ==> k' == s.peer + 1
  {
    hide Inv, Next, Harmless;
    match e {
      case Intact(_, _) =>
        AcceptedStep(packets, s, c, k, base, mem0, e);
        c', k' := s.peer, s.peer + 1;
      case Damaged(_, _) =>
        DamagedStep(packets, s, c, k, base, mem0, e);
        c', k' := s.peer, s.peer;
      case Misnumbered(_, _) =>
        c' := HarmlessStep(packets, s, c, k, base, mem0, e);
        k' := c';
      case HeaderLost(_, _) =>
        HeaderLostStep(packets, s, c, k, base, mem0, e);
        c', k' := c, c;
    }
  }

  lemma {:induction false} DeliveryFrom(
    packets: seq<Packet>, s: System, c: nat, k: nat, base: int, mem0: map<int, byte>, events: seq<Event>)
    requires ValidSession(packets) && Inv(packets, s, c, k, base, mem0)
    requires LineRun(packets, s, events) && HarmlessRun(packets, s, events)
    ensures match Run(s.r, Stream(packets, s, events))
            case Aborted => false
            case Waiting => !Completes(packets, s, events)
            case Complete(r) => Completes(packets, s, events) && At(packets, |packets|, r.sink, base, mem0)
    decreases |events|
  {
    hide At, Frame, ReceivePacket, Harmless, QuoteRight;
    if events != [] {
      var e, s' := events[0], Next(packets, s, events[0]);
      var more := if Finishes(packets, s, e) then [] else Stream(packets, s', events[1..]);
      RunEvent(packets, s, e, more);
      var c', k' := EventStep(packets, s, c, k, base, mem0, e);
      if !Finishes(packets, s, e) { DeliveryFrom(packets, s', c', k', base, mem0, events[1..]); }
    }
  }

  /**
   However many damaged or repeated copies arrive and however many ACKs are lost, the transfer
   ends exactly when the break packet gets through, and then the memory at the load address holds
   the decoded data packets in order, each once, and the returned length is their size.
   */
  lemma Delivery(packets: seq<Packet>, base: int, mem0: map<int, byte>, events: seq<Event>)
    requires ValidSession(packets) && packets != []
    requires LineRun(packets, System(0, Init(base, mem0)), events)
    requires HarmlessRun(packets, System(0, Init(base, mem0)), events)
    ensures var start := System(0, Init(base, mem0));
            match Run(Init(base, mem0), Stream(packets, start, events))
            case Aborted => false
            case Waiting => !Completes(packets, start, events)
            case Complete(r) =>
              && Completes(packets, start, events)
              && r.sink.addr - base == |Content(packets)|
              && Holds(r.sink.mem, base, mem0, Content(packets))
  {
    DeliveryFrom(packets, System(0, Init(base, mem0)), 0, 0, base, mem0, events);
  }

  /** A ^C between packets ends every transfer that is not complete, whatever has come before and whatever follows. */
  lemma {:induction false} AbortEnds(packets: seq<Packet>, s: System, events: seq<Event>, noise: seq<byte>, rest: seq<byte>)
    requires ValidSession(packets) && LineRun(packets, s, events) && !Completes(packets, s, events) && Quiet(noise)
    ensures Run(s.r, Stream(packets, s, events) + (noise + ([3] + rest))) == Aborted
    decreases |events|
  {
    hide Frame, ReceivePacket, Next, Possible;
    var tail := noise + ([3] + rest);
    if events == [] {
      assert Stream(packets, s, events) + tail == tail;
      SkipNoise(s.r, noise, [3] + rest);
    } else {
      var s' := Next(packets, s, events[0]);
      var more := Stream(packets, s', events[1..]);
      RunEvent(packets, s, events[0], more + tail);
      Associate(Arriving(packets, s.peer, events[0]), more, tail);
      AbortEnds(packets, s', events[1..], noise, rest);
    }
  }

  // ----- from packets to the file they carry

  /** The data fields of the first `i` packets, end to end. */
  function Payload(packets: seq<Packet>, i: nat): seq<byte>
    requires i <= |packets|
  {
    if i == 0 then []
    else Payload(packets, i - 1) + (if packets[i - 1].kind == DATA_TYPE then packets[i - 1].data else [])
  }

  /** A send-init packet first, no other later: the quote character is fixed before any data. */
  predicate Opened(packets: seq<Packet>, quote: byte)
    requires ValidSession(packets)
  {
    && packets != [] && packets[0].kind == SEND_TYPE && Negotiate(packets[0].data).quote == quote
    && forall i :: 0 < i < |packets| ==> packets[i].kind != SEND_TYPE
  }

  lemma {:induction false} AfterIsDecoded(packets: seq<Packet>, quote: byte, i: nat)
    requires ValidSession(packets) && Opened(packets, quote) && 1 <= i <= |packets|
    ensures var d := Decode(quote, false, Payload(packets, i));
            After(packets, i) == Progress(d.bytes, d.escape, quote)
  {
    if i == 1 {
      assert After(packets, 1) == Advance(After(packets, 0), packets[0]);
      assert Payload(packets, 1) == Payload(packets, 0) + [] == [];
    } else {
      AfterIsDecoded(packets, quote, i - 1);
      var more := if packets[i - 1].kind == DATA_TYPE then packets[i - 1].data else [];
      DecodeConcat(quote, false, Payload(packets, i - 1), more);
      assert Payload(packets, i - 1) + [] == Payload(packets, i - 1);
    }
  }

  /** A file quoted with the announced character and cut into data packets anywhere arrives as it was. */
  lemma FileDelivery(packets: seq<Packet>, quote: byte, file: seq<byte>)
    requires ValidSession(packets) && Opened(packets, quote) && Unambiguous(quote)
    requires Payload(packets, |packets|) == Encode(quote, file)
    ensures Content(packets) == file
  {
    QuoteIsPrintable(packets[0].data);
    AfterIsDecoded(packets, quote, |packets|);
    DecodeEncode(quote, file);
  }

  lemma QuoteIsPrintable(parms: seq<byte>)
    requires AllPrintable(parms)
    ensures Printable(Negotiate(parms).quote)
  {
  }

  // ----- a NAK that is not honoured

  /**
   When the peer has moved on and the next header is lost, the receiver falls back in front of the
   packet it had already acknowledged.  It still stands behind that packet only if the packet
   stored nothing.
   */
  lemma HeaderLostRollsBack(packets: seq<Packet>, s: System, j: nat, base: int, mem0: map<int, byte>, e: Event)
    requires ValidSession(packets) && Inv(packets, s, j, j + 1, base, mem0)
    requires s.peer == j + 1 < |packets|
    requires Possible(s.r, s.peer, e) && e.HeaderLost?
    ensures var sink := Next(packets, s, e).r.sink;
            && At(packets, j, sink, base, mem0)
            && (At(packets, j + 1, sink, base, mem0) <==> packets[j].kind != DATA_TYPE || packets[j].data == [])
  {
    var before, p := After(packets, j), packets[j];
    assert After(packets, j + 1) == Advance(before, p);
    if p.kind == DATA_TYPE {
      DecodeProgress(before.quote, before.escape, p.data);
      assert before.content + [] == before.content;
    }
  }

  lemma DecodeProgress(quote: byte, escape: bool, s: seq<byte>)
    ensures (Decode(quote, escape, s) == Decoded([], escape)) <==> s == []
  {
  }

  function Without(packets: seq<Packet>, j: nat): seq<Packet>
    requires j < |packets|
  {
    packets[..j] + packets[j + 1..]
  }

  lemma {:induction false} AfterPrefix(packets: seq<Packet>, packets': seq<Packet>, i: nat)
    requires ValidSession(packets) && ValidSession(packets')
    requires i <= |packets| && i <= |packets'| && packets[..i] == packets'[..i]
    ensures After(packets, i) == After(packets', i)
  {
    if i > 0 {
      assert packets[..i - 1] == packets[..i][..i - 1] == packets'[..i - 1];
      AfterPrefix(packets, packets', i - 1);
      assert packets[i - 1] == packets[..i][i - 1] == packets'[i - 1];
    }
  }

  /** Leaving out a packet that negotiates nothing leaves every quote character behind it as it was. */
  lemma {:induction false} QuoteWithout(packets: seq<Packet>, j: nat, i: nat)
    requires j <= i < |packets| && ValidSession(packets) && ValidSession(Without(packets, j))
    requires packets[j].kind != SEND_TYPE
    ensures After(Without(packets, j), i).quote == After(packets, i + 1).quote
    decreases i
  {
    var rest := Without(packets, j);
    assert After(packets, i + 1) == Advance(After(packets, i), packets[i]);
    if i == j {
      assert rest[..j] == packets[..j];
      AfterPrefix(packets, rest, j);
    } else {
      QuoteWithout(packets, j, i - 1);
      assert rest[i - 1] == packets[i];
    }
  }

  lemma {:induction false} QuoteRightWithout(packets: seq<Packet>, j: nat, i: nat, quote: byte)
    requires j <= i < |packets| && ValidSession(packets) && ValidSession(Without(packets, j))
    requires packets[j].kind != SEND_TYPE && QuoteRight(packets, i + 1, quote)
    ensures QuoteRight(Without(packets, j), i, quote)
    decreases |packets| - i
  {
    QuoteWithout(packets, j, i);
    if i + 1 < |packets| {
      assert Without(packets, j)[i] == packets[i + 1];
      if quote != After(packets, i + 1).quote && packets[i + 1].kind != SEND_TYPE {
        QuoteRightWithout(packets, j, i + 1, quote);
      }
    }
  }

  /**
   If the peer ignores that NAK, or it is lost, and the peer's next packet arrives intact, the
   receiver stands exactly where it would if the acknowledged packet had never been sent.
   */
  lemma IgnoredNakDropsPacket(packets: seq<Packet>, s: System, j: nat, base: int, mem0: map<int, byte>, e: Event)
    requires ValidSession(packets) && Inv(packets, s, j, j + 1, base, mem0)
    requires s.peer == j + 1 < |packets| && packets[j].kind != SEND_TYPE
    requires Possible(s.r, s.peer, e) && e.HeaderLost?
    ensures ValidSession(Without(packets, j))
    ensures var o := ReceivePacket(Next(packets, s, e).r, Frame(s.peer % 64, packets[s.peer]));
            o.Accepted? && At(Without(packets, j), j + 1, o.r.sink, base, mem0)
  {
    hide Frame, TakeAll;
    var rest := Without(packets, j);
    assert forall i :: 0 <= i < |rest| ==> rest[i] == packets[if i < j then i else i + 1];
    assert rest[..j] == packets[..j];
    AfterPrefix(packets, rest, j);
    assert After(packets, j + 1) == Advance(After(packets, j), packets[j]);
    var r := Number(Next(packets, s, e).r, s.peer % 64);
    assert (j + 1) % 64 != j % 64;
    var r1 := r.(n := j % 64, lastN := j % 64);
    QuoteRightWithout(packets, j, j, r.params.quote);
    assert Ready(rest, j, r1, base, mem0);
    TakePacket(rest, j, r1, base, mem0);
    AcceptFrame(Next(packets, s, e).r, s.peer % 64, packets[s.peer], []);
    assert Frame(s.peer % 64, packets[s.peer]) + [] == Frame(s.peer % 64, packets[s.peer]);
    TakeAllSink(r, r1, packets[s.peer].kind, packets[s.peer].data);
  }

  lemma {:induction false} TakeAllSink(r: Receiver, r1: Receiver, kind: byte, data: seq<byte>)
    requires r.sink == r1.sink && r.params == r1.params
    ensures TakeAll(r, kind, data).sink == TakeAll(r1, kind, data).sink
    decreases |data|
  {
    if data != [] { TakeAllSink(Take(r, kind, data[0]), Take(r1, kind, data[0]), kind, data[1..]); }
  }

  // ----- the receiver's own replies

  /** Every reply, its padding removed, is a packet the receiver's own rules accept when the peer's end of line is CR. */
  lemma RepliesAreFrames(r: Receiver, p: Params, n: small, received: nat, kind: byte, data: seq<byte>)
    requires p.eol == END_CHAR && Printable(kind)
    requires data == [] || data == SendInitReply(ParmCount(received))
    ensures |data| <= 13
    ensures var sent := Reply(p, n, kind, data);
            var o := ReceivePacket(r, sent[p.padCount + 1..]);
            && sent[..p.padCount] == Repeat(p.padCount, p.padChar) && sent[p.padCount] == START_CHAR
            && o.Accepted? && o.kind == kind && o.r.n == n && o.rest == []
  {
    SendInitReplyPrintable(received);
    var packet := Packet(kind, data, false);
    var sent := Reply(p, n, kind, data);
    assert sent[p.padCount + 1..] == Frame(n, packet) + [];
    AcceptFrame(r, n, packet, []);
    TakeAllLast(Number(r, n), kind, data);
  }

  /**
   A send-init packet is answered parameter by parameter, as many as it has, and from the tenth on
   with all three characters of the extension: 94 characters, 1 second, no padding, CR, '#', no
   eighth-bit prefix, check 1, no repeat prefix, long packets of up to 94 times 95 and 94 characters.
   The end of line and the padding of the answer are those it has just asked for.
   */
  lemma SendInitAnswer(r: Receiver, n: small, p: Packet, rest: seq<byte>)
    requires ValidPacket(p) && p.kind == 83
    ensures var o := ReceivePacket(r, Frame(n, p) + rest);
            var all := [126, 33, 32, 64, 45, 35, 78, 49, 78, 34, 32, 126, 126];
            && o.Accepted? && r.out <= o.r.out && o.r.params == Negotiate(p.data)
            && Heard(Sent(r, o.r))
               == Some(Answer(89, n, if |p.data| >= 10 then all else all[..|p.data|], EndOfLine(Negotiate(p.data))))
  {
    hide Frame, ReceivePacket, TakeAll, Heard, Negotiate;
    AcceptFrame(r, n, p, rest);
    var r1 := TakeAll(Number(r, n), p.kind, p.data);
    TakeOther(Number(r, n), p.kind, p.data);
    var data := SendInitReply(ParmCount(|p.data|));
    HeardReply(Negotiate(p.data), n, ACK_TYPE, data);
    var o := ReceivePacket(r, Frame(n, p) + rest);
    assert Sent(r, o.r) == Reply(Negotiate(p.data), n, ACK_TYPE, data);
  }
}

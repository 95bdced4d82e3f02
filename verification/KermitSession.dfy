/**
 A whole transfer: a peer that sends numbered packets one at a time and moves on only when
 acknowledged, a line that may damage or repeat packets and lose replies, and the receiver
 of `KermitProtocol`.  What every run delivers is shown in `KermitDelivery`.
 */
module KermitSession {
  import opened Machine
  import opened Sequences
  import opened KermitCodec
  import opened KermitProtocol
  import opened KermitReply

  // ----- what the peer sends

  datatype Packet = Packet(kind: byte, data: seq<byte>, long: bool)

  /** Section 6 of the manual: LEN is at most 94, the two characters of LENX count up to 94 * 95 + 94. */
  predicate ValidPacket(p: Packet) {
    && Printable(p.kind)
    && AllPrintable(p.data)
    && |p.data| <= (if p.long then 94 * 95 + 93 else 91)
  }

  /** A session ends with its only break packet. */
  predicate ValidSession(packets: seq<Packet>) {
    forall i :: 0 <= i < |packets| ==>
      ValidPacket(packets[i]) && (packets[i].kind == BREAK_TYPE <==> i == |packets| - 1)
  }

  function LongHeader(n: small, p: Packet): seq<byte>
    requires ValidPacket(p) && p.long
  {
    var length := |p.data| + 1;
    var head := [ToChar(0), ToChar(n), p.kind, ToChar(length / 95), ToChar(length % 95)];
    head + [Check(Sum(head))]
  }

  /** The characters of a packet after its start mark. */
  function Frame(n: small, p: Packet): seq<byte>
    requires ValidPacket(p)
  {
    if p.long then
      var text := LongHeader(n, p) + p.data;
      text + [Check(Sum(text)), END_CHAR]
    else
      Body(n, p.kind, p.data) + [END_CHAR]
  }

  // ----- what has been received after the first i packets

  datatype Progress = Progress(content: seq<byte>, escape: bool, quote: byte)

  function Advance(p: Progress, packet: Packet): Progress
    requires AllPrintable(packet.data)
  {
    if packet.kind == DATA_TYPE then
      var d := Decode(p.quote, p.escape, packet.data);
      Progress(p.content + d.bytes, d.escape, p.quote)
    else if packet.kind == SEND_TYPE then
      p.(quote := Negotiate(packet.data).quote)
    else p
  }

  function After(packets: seq<Packet>, i: nat): Progress
    requires i <= |packets| && ValidSession(packets)
  {
    if i == 0 then Progress([], false, K_ESCAPE) else Advance(After(packets, i - 1), packets[i - 1])
  }

  /** The file: every data packet decoded in order, each once. */
  function Content(packets: seq<Packet>): seq<byte>
    requires ValidSession(packets)
  {
    After(packets, |packets|).content
  }

  // ----- the line

  predicate Quiet(s: seq<byte>) {
    START_CHAR !in s && ETX_CHAR !in s
  }

  /** One transmission of the peer's current packet, after some line noise. */
  datatype Event =
    | Intact(noise: seq<byte>, acked: bool)           // received whole; the ACK may be lost
    | Damaged(noise: seq<byte>, bytes: seq<byte>)     // rejected, but its sequence number was read
    | Misnumbered(noise: seq<byte>, bytes: seq<byte>) // rejected, and another sequence number was read
    | HeaderLost(noise: seq<byte>, bytes: seq<byte>)  // rejected before its sequence number was read

  /** What can arrive: damage is anything the receiver rejects. */
  predicate Possible(r: Receiver, peer: nat, e: Event) {
    && Quiet(e.noise)
    && match e
       case Intact(_, _) => true
       case Damaged(_, bytes) =>
         && |bytes| >= 2 && Printable(bytes[0]) && bytes[1] == ToChar(peer % 64)
         && Refused(r, bytes)
       case Misnumbered(_, bytes) =>
         && |bytes| >= 2 && Printable(bytes[0]) && Printable(bytes[1]) && bytes[1] != ToChar(peer % 64)
         && Refused(r, bytes)
       case HeaderLost(_, bytes) =>
         && |bytes| >= 1 && (!Printable(bytes[0]) || (|bytes| >= 2 && !Printable(bytes[1])))
         && Refused(r, bytes)
  }

  /** The receiver answers NAK and what is left of the packet does not look like another one. */
  predicate Refused(r: Receiver, bytes: seq<byte>) {
    var o := ReceivePacket(r, bytes);
    o.Rejected? && Quiet(o.rest)
  }

  function Arriving(packets: seq<Packet>, peer: nat, e: Event): seq<byte>
    requires peer < |packets| && ValidSession(packets)
  {
    e.noise + [START_CHAR] + (if e.Intact? then Frame(peer % 64, packets[peer]) else e.bytes)
  }

  /** NAK(n) makes the peer send packet n again: its current packet or the one before. */
  function PeerOnNak(peer: nat, n: int): nat {
    if peer > 0 && n != peer % 64 && n == (peer - 1) % 64 then peer - 1 else peer
  }

  /** The peer moves on when its packet is acknowledged and goes back when told to; anything else it ignores. */
  function PeerHears(peer: nat, heard: Option<Answer>): nat {
    match heard
    case None => peer
    case Some(a) =>
      if a.kind == 89 && a.n == peer % 64 then peer + 1     // 'Y'
      else if a.kind == 78 then PeerOnNak(peer, a.n)        // 'N'
      else peer
  }

  datatype System = System(peer: nat, r: Receiver)

  /** The receiver when the packet of an event has come in. */
  function Received(packets: seq<Packet>, s: System, e: Event): Receiver
    requires s.peer < |packets| && ValidSession(packets) && Possible(s.r, s.peer, e)
  {
    if e.Intact? then
      AcceptFrame(s.r, s.peer % 64, packets[s.peer], []);
      ReceivePacket(s.r, Frame(s.peer % 64, packets[s.peer]) + []).r
    else ReceivePacket(s.r, e.bytes).r
  }

  /** The peer acts on what it hears of the characters the receiver has put on the line. */
  function Next(packets: seq<Packet>, s: System, e: Event): System
    requires s.peer < |packets| && ValidSession(packets) && Possible(s.r, s.peer, e)
  {
    var r := Received(packets, s, e);
    var lost := e.Intact? && !e.acked;
    System(PeerHears(s.peer, if lost then None else Heard(Sent(s.r, r))), r)
  }

  /** Where the answers lead the peer. */
  lemma PeerMoves(packets: seq<Packet>, s: System, e: Event)
    requires s.peer < |packets| && ValidSession(packets) && Possible(s.r, s.peer, e)
    ensures Next(packets, s, e).r == Received(packets, s, e)
    ensures Next(packets, s, e).peer
            == match e
               case Intact(_, acked) => if acked then s.peer + 1 else s.peer
               case Damaged(_, _) => s.peer
               case Misnumbered(_, bytes) => PeerOnNak(s.peer, UnToChar(bytes[1]))
               case HeaderLost(_, _) => PeerOnNak(s.peer, s.r.n)
  {
    hide ReceivePacket, Frame, Heard, Accept, TakeAll, Number;
    if e.Intact? {
      var f := Frame(s.peer % 64, packets[s.peer]) + [];
      AcceptFrame(s.r, s.peer % 64, packets[s.peer], []);
      OneAnswer(s.r, f);
      FrameNumber(s.peer % 64, packets[s.peer]);
    } else {
      OneAnswer(s.r, e.bytes);
    }
  }

  lemma FrameNumber(n: small, p: Packet)
    requires ValidPacket(p)
    ensures var f := Frame(n, p) + []; |f| >= 2 && Printable(f[0]) && f[1] == ToChar(n)
  {
  }

  predicate Finishes(packets: seq<Packet>, s: System, e: Event) {
    e.Intact? && s.peer == |packets| - 1
  }

  /** Every event is possible where it happens, and nothing follows the accepted break packet. */
  predicate LineRun(packets: seq<Packet>, s: System, events: seq<Event>)
    requires ValidSession(packets)
    decreases |events|
  {
    events != [] ==>
      && s.peer < |packets| && Possible(s.r, s.peer, events[0])
      && (if Finishes(packets, s, events[0]) then |events| == 1
          else LineRun(packets, Next(packets, s, events[0]), events[1..]))
  }

  function Stream(packets: seq<Packet>, s: System, events: seq<Event>): seq<byte>
    requires ValidSession(packets) && LineRun(packets, s, events)
    decreases |events|
  {
    if events == [] then []
    else
      Arriving(packets, s.peer, events[0])
      + (if Finishes(packets, s, events[0]) then []
         else Stream(packets, Next(packets, s, events[0]), events[1..]))
  }

  // ----- an intact frame is accepted, whatever follows it

  function TakeAll(r: Receiver, kind: byte, data: seq<byte>): Receiver
    decreases |data|
  {
    if data == [] then r else TakeAll(Take(r, kind, data[0]), kind, data[1..])
  }

  /** `k` data characters, the right check and the end mark: the packet is accepted. */
  lemma {:induction false} AcceptData(r: Receiver, kind: byte, sum: nat, parms: seq<byte>, k: nat, s: seq<byte>)
    requires |s| >= k + 2 && AllPrintable(s[..k]) && AllPrintable(parms)
    requires s[k] == Check(sum + Sum(s[..k])) && s[k + 1] == END_CHAR
    ensures ReceiveData(r, kind, k + 1, sum, parms, s)
            == Accepted(Accept(TakeAll(r, kind, s[..k]), kind, parms + s[..k]), kind, s[k + 2..])
    decreases k
  {
    hide Take, Accept;
    if k == 0 {
      assert parms + s[..k] == parms;
    } else {
      var t := s[1..];
      assert s[..k][1..] == t[..k - 1];
      assert s[..k][0] == s[0];
      AcceptData(Take(r, kind, s[0]), kind, sum + s[0], parms + [s[0]], k - 1, t);
      assert parms + [s[0]] + t[..k - 1] == parms + s[..k];
      assert t[k + 1..] == s[k + 2..];
    }
  }

  lemma AcceptFrame(r: Receiver, n: small, p: Packet, rest: seq<byte>)
    requires ValidPacket(p)
    ensures ReceivePacket(r, Frame(n, p) + rest)
            == Accepted(Accept(TakeAll(Number(r, n), p.kind, p.data), p.kind, p.data), p.kind, rest)
  {
    if p.long {
      AcceptLongFrame(r, n, p, rest);
    } else {
      AcceptShortFrame(r, n, p, rest);
    }
  }

  /** Where the fields of a short frame lie. */
  lemma ShortFrame(n: small, p: Packet)
    requires ValidPacket(p) && !p.long
    ensures var f, k := Frame(n, p), |p.data|;
            && |f| == k + 5 && f[3..k + 3] == p.data
            && f[0] == ToChar(k + 3) && f[1] == ToChar(n) && f[2] == p.kind
            && AllPrintable(f[..3])
            && f[k + 3] == Check(f[0] as int + f[1] as int + f[2] as int + Sum(p.data))
            && f[k + 4] == END_CHAR
  {
    var head := [ToChar(3 + |p.data|), ToChar(n), p.kind];
    SumConcat(head, p.data);
    SumThree(head);
  }

  lemma AcceptShortFrame(r: Receiver, n: small, p: Packet, rest: seq<byte>)
    requires ValidPacket(p) && !p.long
    ensures ReceivePacket(r, Frame(n, p) + rest)
            == Accepted(Accept(TakeAll(Number(r, n), p.kind, p.data), p.kind, p.data), p.kind, rest)
  {
    hide Check, Sum, TakeAll, Number, Accept, Frame, ReceiveData;
    ShortFrame(n, p);
    var f, k := Frame(n, p), |p.data|;
    var s := f + rest;
    var t := s[3..];
    var sum: nat := s[0] as int + s[1] as int + s[2] as int;
    assert t[..k] == p.data && t[k + 2..] == rest;
    AcceptData(Number(r, n), p.kind, sum, [], k, t);
    assert [] + p.data == p.data;
    assert ReceivePacket(r, s) == ReceiveData(Number(r, n), p.kind, k + 1, sum, [], t);
  }

  /** Where the fields of a long frame lie. */
  lemma LongFrame(n: small, p: Packet)
    requires ValidPacket(p) && p.long
    ensures var f, k := Frame(n, p), |p.data|;
            && |f| == k + 8 && f[6..k + 6] == p.data
            && f[0] == ToChar(0) && f[1] == ToChar(n) && f[2] == p.kind
            && AllPrintable(f[..6])
            && UnToChar(f[3]) as int * 95 + UnToChar(f[4]) as int == k + 1
            && f[5] == Check(f[0] as int + f[1] as int + f[2] as int + f[3] as int + f[4] as int)
            && f[k + 6] == Check(f[0] as int + f[1] as int + f[2] as int + f[3] as int + f[4] as int + f[5] as int
                                 + Sum(p.data))
            && f[k + 7] == END_CHAR
  {
    var h := LongHeader(n, p);
    SumFive(h[..5]);
    assert h == h[..5] + [h[5]];
    SumConcat(h[..5], [h[5]]);
    assert Sum([h[5]]) == h[5];
    SumConcat(h, p.data);
  }

  /** A correct extended header followed by `k` data characters and a correct trailer. */
  lemma AcceptLong(r: Receiver, kind: byte, sum: nat, k: nat, t: seq<byte>)
    requires |t| >= k + 5 && AllPrintable(t[..k + 3])
    requires UnToChar(t[0]) as int * 95 + UnToChar(t[1]) as int == k + 1
    requires t[2] == Check(sum + t[0] + t[1])
    requires t[k + 3] == Check(sum + t[0] + t[1] + t[2] + Sum(t[3..k + 3])) && t[k + 4] == END_CHAR
    ensures var data := t[3..k + 3];
            ReceiveLong(r, kind, sum, t) == Accepted(Accept(TakeAll(r, kind, data), kind, data), kind, t[k + 5..])
  {
    hide Check, TakeAll, Accept, ReceiveData, Sum;
    var u := t[3..];
    assert u[..k] == t[3..k + 3] && u[k + 2..] == t[k + 5..] && u[k] == t[k + 3] && u[k + 1] == t[k + 4];
    assert Printable(t[..k + 3][0]) && Printable(t[..k + 3][1]) && Printable(t[..k + 3][2]);
    assert AllPrintable(u[..k]) by { assert forall i :: 0 <= i < k ==> u[..k][i] == t[..k + 3][i + 3]; }
    AcceptData(r, kind, sum + t[0] + t[1] + t[2], [], k, u);
    assert [] + u[..k] == u[..k];
  }

  lemma AcceptLongFrame(r: Receiver, n: small, p: Packet, rest: seq<byte>)
    requires ValidPacket(p) && p.long
    ensures ReceivePacket(r, Frame(n, p) + rest)
            == Accepted(Accept(TakeAll(Number(r, n), p.kind, p.data), p.kind, p.data), p.kind, rest)
  {
    hide Check, Sum, TakeAll, Number, Accept, Frame, ReceiveLong;
    LongFrame(n, p);
    var f, k := Frame(n, p), |p.data|;
    var s := f + rest;
    var t := s[3..];
    assert t[3..k + 3] == p.data && t[k + 5..] == rest;
    AcceptLong(Number(r, n), p.kind, s[0] as int + s[1] as int + s[2] as int, k, t);
  }

  lemma SumFive(s: seq<byte>)
    requires |s| == 5
    ensures Sum(s) == s[0] as int + s[1] as int + s[2] as int + s[3] as int + s[4] as int
  {
    assert s == s[..3] + [s[3], s[4]];
    SumThree(s[..3]);
    SumConcat(s[..3], [s[3], s[4]]);
    SumTwo(s[3], s[4]);
  }

  lemma SumThree(s: seq<byte>)
    requires |s| == 3
    ensures Sum(s) == s[0] as int + s[1] as int + s[2] as int
  {
    assert s[1..] == [s[1], s[2]];
    SumTwo(s[1], s[2]);
  }

  lemma SendInitReplyPrintable(received: nat)
    ensures AllPrintable(SendInitReply(ParmCount(received)))
    ensures |SendInitReply(ParmCount(received))| <= 13
  {
  }
}

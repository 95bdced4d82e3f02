/**
 The Kermit receiver of `k_recv` as a function of the characters on the line, one
 packet at a time.  `KermitLoader` is the code; this is what it is proved against.
 */
module KermitProtocol {
  import opened Machine
  import opened Sequences
  import opened KermitCodec

  const START_CHAR: byte := 1
  const ETX_CHAR: byte := 3
  const END_CHAR: byte := 13
  const K_ESCAPE: byte := 35
  const SEND_TYPE: byte := 83   // 'S'
  const DATA_TYPE: byte := 68   // 'D'
  const ACK_TYPE: byte := 89    // 'Y'
  const NACK_TYPE: byte := 78   // 'N'
  const BREAK_TYPE: byte := 66  // 'B'

  /** What the peer asked for in its send-init packet. */
  datatype Params = Params(eol: byte, padCount: nat, padChar: byte, quote: byte)

  const DEFAULTS := Params(END_CHAR, 0, 0, K_ESCAPE)

  /** Memory, the next address to store to, and whether a quote is pending. */
  datatype Sink = Sink(mem: map<int, byte>, addr: int, escape: bool)

  /** Everything `k_recv` carries from one packet to the next. */
  datatype Receiver = Receiver(
    sink: Sink, savedAddr: int, savedEscape: bool, n: small, lastN: int, params: Params, out: seq<byte>)

  function Init(base: int, mem: map<int, byte>): Receiver {
    Receiver(Sink(mem, base, false), base, false, 0, -1, DEFAULTS, [])
  }

  // ----- storing data

  predicate AllPrintable(s: seq<byte>) {
    forall i :: 0 <= i < |s| ==> Printable(s[i])
  }

  function Store(s: Sink, c: byte): Sink {
    Sink(s.mem[s.addr := c], s.addr + 1, false)
  }

  function PutChar(s: Sink, quote: byte, c: byte): Sink {
    if s.escape then Store(s, Ktrans(c))
    else if c == quote then s.(escape := true)
    else Store(s, c)
  }

  function Restore(r: Receiver): Receiver {
    r.(sink := r.sink.(addr := r.savedAddr, escape := r.savedEscape))
  }

  /** A repeated sequence number rolls back to the checkpoint; a new one takes a checkpoint. */
  function Number(r: Receiver, n: small): Receiver {
    if n == r.lastN then Restore(r).(n := n)
    else r.(n := n, lastN := n, savedAddr := r.sink.addr, savedEscape := r.sink.escape)
  }

  // ----- replies

  function Repeat(count: nat, c: byte): seq<byte> {
    seq(count, _ => c)
  }

  /** A packet without its start character, up to and including its check. */
  function Body(n: small, kind: byte, data: seq<byte>): seq<byte>
    requires |data| <= 220
  {
    var text := [ToChar(3 + |data|), ToChar(n), kind] + data;
    text + [Check(Sum(text))]
  }

  /** Padding, packet and end-of-line; a NUL end-of-line ends the C string and is not sent. */
  function Reply(p: Params, n: small, kind: byte, data: seq<byte>): seq<byte>
    requires |data| <= 220
  {
    Repeat(p.padCount, p.padChar) + [START_CHAR] + Body(n, kind, data)
      + (if p.eol == 0 then [] else [p.eol])
  }

  const SEND_DATA_SIZE: nat := 20

  /** How many of the received parameter bytes `handle_send_packet` looks at. */
  function ParmCount(received: nat): nat {
    if received >= SEND_DATA_SIZE - 1 then SEND_DATA_SIZE - 2 else received
  }

  function Negotiate(parms: seq<byte>): Params
    requires AllPrintable(parms)
  {
    var count := ParmCount(|parms|);
    Params(
      if count > 4 then UnToChar(parms[4]) else END_CHAR,
      if count > 2 then UnToChar(parms[2]) else 0,
      if count > 3 then Ktrans(parms[3]) else 0,
      if count > 5 then parms[5] else K_ESCAPE)
  }

  /** MAXL, TIME, NPAD, PADC, EOL, QCTL, QBIN, CHKT, REPT, then CAPAS with its three extensions. */
  const CAPABILITIES: seq<byte> := [126, 33, 32, 64, 45, 35, 78, 49, 78, 34, 32, 126, 126]

  function SendInitReply(count: nat): seq<byte> {
    if count >= 10 then CAPABILITIES else CAPABILITIES[..count]
  }

  // ----- receiving

  datatype Outcome =
    | Starved
    | Rejected(r: Receiver, rest: seq<byte>)
    | Accepted(r: Receiver, kind: byte, rest: seq<byte>)

  function Reject(r: Receiver): Receiver {
    Restore(r).(out := r.out + Reply(r.params, r.n, NACK_TYPE, []))
  }

  function Accept(r: Receiver, kind: byte, parms: seq<byte>): Receiver
    requires AllPrintable(parms)
  {
    if kind == SEND_TYPE then
      var params := Negotiate(parms);
      r.(params := params,
         out := r.out + Reply(params, r.n, ACK_TYPE, SendInitReply(ParmCount(|parms|))))
    else
      r.(out := r.out + Reply(r.params, r.n, ACK_TYPE, []))
  }

  /** One character of the data field. */
  function Take(r: Receiver, kind: byte, c: byte): Receiver {
    if kind == DATA_TYPE then r.(sink := PutChar(r.sink, r.params.quote, c)) else r
  }

  /** The data field and the trailer: `length` counts the characters left, the check included. */
  function ReceiveData(r: Receiver, kind: byte, length: int, sum: nat, parms: seq<byte>, s: seq<byte>): (o: Outcome)
    requires AllPrintable(parms)
    ensures !o.Starved? ==> |o.rest| < |s|
    decreases |s|
  {
    if s == [] then Starved
    else if !Printable(s[0]) then Rejected(Reject(r), s[1..])
    else if length > 1 then
      ReceiveData(Take(r, kind, s[0]), kind, length - 1, sum + s[0], parms + [s[0]], s[1..])
    else if s[0] != Check(sum) then Rejected(Reject(r), s[1..])
    else if |s| == 1 then Starved
    else if s[1] != END_CHAR then Rejected(Reject(r), s[2..])
    else Accepted(Accept(r, kind, parms), kind, s[2..])
  }

  /** The extended header of a long packet: two length characters and a header check. */
  function ReceiveLong(r: Receiver, kind: byte, sum: nat, s: seq<byte>): (o: Outcome)
    ensures !o.Starved? ==> |o.rest| < |s|
  {
    if s == [] then Starved
    else if !Printable(s[0]) then Rejected(Reject(r), s[1..])
    else if |s| == 1 then Starved
    else if !Printable(s[1]) then Rejected(Reject(r), s[2..])
    else if |s| == 2 then Starved
    else if !Printable(s[2]) || s[2] != Check(sum + s[0] + s[1]) then Rejected(Reject(r), s[3..])
    else ReceiveData(r, kind, UnToChar(s[0]) * 95 + UnToChar(s[1]), sum + s[0] + s[1] + s[2], [], s[3..])
  }

  /** One packet, from the character after its start mark. */
  function ReceivePacket(r: Receiver, s: seq<byte>): (o: Outcome)
    ensures !o.Starved? ==> |o.rest| < |s|
  {
    if s == [] then Starved
    else if !Printable(s[0]) then Rejected(Reject(r), s[1..])
    else if |s| == 1 then Starved
    else if !Printable(s[1]) then Rejected(Reject(r), s[2..])
    else if |s| == 2 then Starved
    else
      var r1 := Number(r, UnToChar(s[1]));
      var sum: nat := s[0] as int + s[1] as int + s[2] as int;
      var length := UnToChar(s[0]) - 2;
      if !Printable(s[2]) then Rejected(Reject(r1), s[3..])
      else if length == -2 then ReceiveLong(r1, s[2], sum, s[3..])
      else ReceiveData(r1, s[2], length, sum, [], s[3..])
  }

  datatype Session =
    | Waiting                 // the line fell silent before the transfer ended
    | Aborted                 // ^C between packets
    | Complete(r: Receiver)   // a break packet was accepted

  /** The whole transfer, over everything that arrives on the line. */
  function Run(r: Receiver, s: seq<byte>): Session
    decreases |s|
  {
    if s == [] then Waiting
    else if s[0] == ETX_CHAR then Aborted
    else if s[0] != START_CHAR then Run(r, s[1..])
    else
      match ReceivePacket(r, s[1..])
      case Starved => Waiting
      case Rejected(r1, rest) => Run(r1, rest)
      case Accepted(r1, kind, rest) => if kind == BREAK_TYPE then Complete(r1) else Run(r1, rest)
  }
}

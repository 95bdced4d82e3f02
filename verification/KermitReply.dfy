/**
 The receiver's answers as the peer reads them off the line: sections 5 and 6 of the Kermit
 Protocol Manual (sixth edition), written without the receiver's own functions.
 */
module KermitReply {
  import opened Machine
  import opened Sequences
  import opened KermitCodec
  import opened KermitProtocol

  // ----- the block check

  /** The single-character check of the manual: bits 6 and 7 of the sum are added in, and six bits kept. */
  function ManualCheck(sum: nat): nat {
    (sum + sum % 256 / 64) % 64
  }

  lemma CheckIsManual(sum: nat)
    ensures Check(sum) == 32 + ManualCheck(sum)
  {
    FoldedBits(sum);
  }

  lemma FoldedBits(sum: nat)
    ensures sum / 64 % 4 == sum % 256 / 64
  {
    var q, fold, low := sum / 256, sum / 64 % 4, sum % 64;
    assert sum == 256 * q + (64 * fold + low);
    assert sum % 256 == 64 * fold + low;
  }

  const BITS: set<int> := {1, 2, 4, 8, 16, 32, 64, 128}

  lemma CheckOfParts(q: nat, fold: nat, low: nat)
    requires fold < 4 && low < 64
    ensures ManualCheck(256 * q + 64 * fold + low) == (low + fold) % 64
  {
    assert (256 * q + 64 * fold + low) % 256 == 64 * fold + low;
    assert (64 * fold + low) / 64 == fold;
  }

  lemma OneBitOfSum(sum: nat, bit: int)
    requires bit in BITS
    ensures ManualCheck(sum) != ManualCheck(sum + bit)
  {
    hide ManualCheck;
    var q, fold, low := sum / 256, sum / 64 % 4, sum % 64;
    assert sum == 256 * q + 64 * fold + low;
    CheckOfParts(q, fold, low);
    var carry := if bit >= 64 then bit / 64 else if low + bit >= 64 then 1 else 0;
    var low' := low + bit - 64 * carry;
    if fold + carry < 4 {
      CheckOfParts(q, fold + carry, low');
      assert sum + bit == 256 * q + 64 * (fold + carry) + low';
    } else {
      CheckOfParts(q + 1, fold + carry - 4, low');
      assert sum + bit == 256 * (q + 1) + 64 * (fold + carry - 4) + low';
    }
  }

  /** Whatever the packet, a character of it with one bit the other way round changes the check. */
  lemma OneBitDetected(text: seq<byte>, i: nat, c: byte)
    requires i < |text| && (c - text[i] in BITS || text[i] - c in BITS)
    ensures Check(Sum(text)) != Check(Sum(text[i := c]))
  {
    var sum, sum' := Sum(text), Sum(text[i := c]);
    SumUpdated(text, i, c);
    CheckIsManual(sum);
    CheckIsManual(sum');
    if c > text[i] { OneBitOfSum(sum, c - text[i]); } else { OneBitOfSum(sum', text[i] - c); }
  }

  lemma SumUpdated(text: seq<byte>, i: nat, c: byte)
    requires i < |text|
    ensures Sum(text[i := c]) == Sum(text) + c - text[i]
  {
    assert text == text[..i] + ([text[i]] + text[i + 1..]);
    assert text[i := c] == text[..i] + ([c] + text[i + 1..]);
    SumConcat(text[..i], [text[i]] + text[i + 1..]);
    SumConcat(text[..i], [c] + text[i + 1..]);
  }

  // ----- what the peer hears

  /** An answer and what follows it on the line. */
  datatype Answer = Answer(kind: byte, n: small, data: seq<byte>, rest: seq<byte>)

  /** LEN counts the characters behind it: SEQ, TYPE, the data and the check. */
  function HeardFrame(f: seq<byte>): Option<Answer> {
    if |f| < 4 || !Printable(f[0]) || !Printable(f[1]) then None
    else
      var length := f[0] - 32;
      if length < 3 || |f| <= length || f[length] != 32 + ManualCheck(Sum(f[..length])) then None
      else Some(Answer(f[2], f[1] - 32, f[3..length], f[length + 1..]))
  }

  /** Everything up to a start mark is passed over, and a start mark right behind another begins anew. */
  function Heard(s: seq<byte>): Option<Answer> {
    if |s| < 2 then None
    else if s[0] != 1 || s[1] == 1 then Heard(s[1..])
    else HeardFrame(s[1..])
  }

  lemma {:induction false} HeardBehindPadding(count: nat, c: byte, f: seq<byte>)
    requires f != [] && f[0] != 1
    ensures Heard(Repeat(count, c) + [START_CHAR] + f) == HeardFrame(f)
  {
    var s := Repeat(count, c) + [START_CHAR] + f;
    if count == 0 {
      assert s[1..] == f;
    } else {
      assert s[1..] == Repeat(count - 1, c) + [START_CHAR] + f;
      HeardBehindPadding(count - 1, c, f);
    }
  }

  lemma HeardBody(n: small, kind: byte, data: seq<byte>, rest: seq<byte>)
    requires |data| <= 220
    ensures HeardFrame(Body(n, kind, data) + rest) == Some(Answer(kind, n, data, rest))
  {
    var head := [ToChar(3 + |data|), ToChar(n), kind];
    var text := head + data;
    var f := Body(n, kind, data) + rest;
    CheckIsManual(Sum(text));
    assert f[..3 + |data|] == text && f[3..3 + |data|] == data && f[4 + |data|..] == rest;
  }

  function EndOfLine(p: Params): seq<byte> {
    if p.eol == 0 then [] else [p.eol]
  }

  lemma HeardReply(p: Params, n: small, kind: byte, data: seq<byte>)
    requires |data| <= 220
    ensures Heard(Reply(p, n, kind, data)) == Some(Answer(kind, n, data, EndOfLine(p)))
  {
    hide Heard, HeardFrame, Body;
    var f := Body(n, kind, data) + EndOfLine(p);
    assert Body(n, kind, data)[0] != 1 && |Body(n, kind, data)| > 0 by { BodyStarts(n, kind, data); }
    assert Reply(p, n, kind, data) == Repeat(p.padCount, p.padChar) + [START_CHAR] + f;
    HeardBehindPadding(p.padCount, p.padChar, f);
    HeardBody(n, kind, data, EndOfLine(p));
  }

  lemma BodyStarts(n: small, kind: byte, data: seq<byte>)
    requires |data| <= 220
    ensures |Body(n, kind, data)| > 0 && Body(n, kind, data)[0] > 32
  {
  }

  // ----- one answer to every packet

  /** What the receiver has put on the line since. */
  function Sent(r: Receiver, r': Receiver): seq<byte> {
    if r.out <= r'.out then r'.out[|r.out|..] else []
  }

  /**
   Exactly one answer was added to what had been sent: the padding the peer has asked for, 'Y' for an
   accepted packet or 'N' for a rejected one, with the number `n`, and the end of line asked for.
   Only the answer to a send-init packet carries data.
   */
  ghost predicate Answered(r: Receiver, o: Outcome, n: small)
    requires !o.Starved?
  {
    var sent, p := Sent(r, o.r), o.r.params;
    var heard := Heard(sent);
    && r.out <= o.r.out
    && p.padCount <= |sent| && (forall i :: 0 <= i < p.padCount ==> sent[i] == p.padChar)
    && heard.Some? && heard.value.kind == (if o.Accepted? then 89 else 78) && heard.value.n == n
    && (o.Rejected? || o.kind != 83 ==> heard.value.data == [])
    && heard.value.data <= [126, 33, 32, 64, 45, 35, 78, 49, 78, 34, 32, 126, 126]
    && heard.value.rest == EndOfLine(p) && Heard(EndOfLine(p)) == None
  }

  lemma ReplyAnswers(r: Receiver, o: Outcome, n: small, data: seq<byte>)
    requires !o.Starved? && data <= CAPABILITIES
    requires o.Rejected? || o.kind != SEND_TYPE ==> data == []
    requires o.r.out == r.out + Reply(o.r.params, n, if o.Accepted? then ACK_TYPE else NACK_TYPE, data)
    ensures Answered(r, o, n)
  {
    hide Heard;
    HeardReply(o.r.params, n, if o.Accepted? then ACK_TYPE else NACK_TYPE, data);
    HeardShort(EndOfLine(o.r.params));
  }

  lemma HeardShort(s: seq<byte>)
    requires |s| < 2
    ensures Heard(s) == None
  {
  }

  lemma RejectAnswers(r: Receiver, r1: Receiver, rest: seq<byte>)
    requires r1.out == r.out
    ensures Answered(r, Rejected(Reject(r1), rest), r1.n)
  {
    ReplyAnswers(r, Rejected(Reject(r1), rest), r1.n, []);
  }

  lemma AcceptAnswers(r: Receiver, r1: Receiver, kind: byte, parms: seq<byte>, rest: seq<byte>)
    requires r1.out == r.out && AllPrintable(parms)
    ensures Answered(r, Accepted(Accept(r1, kind, parms), kind, rest), r1.n)
  {
    var data := if kind == SEND_TYPE then SendInitReply(ParmCount(|parms|)) else [];
    ReplyAnswers(r, Accepted(Accept(r1, kind, parms), kind, rest), r1.n, data);
  }

  lemma {:induction false} DataAnswered(
    r: Receiver, r1: Receiver, kind: byte, length: int, sum: nat, parms: seq<byte>, s: seq<byte>)
    requires AllPrintable(parms) && r1.out == r.out && !ReceiveData(r1, kind, length, sum, parms, s).Starved?
    ensures Answered(r, ReceiveData(r1, kind, length, sum, parms, s), r1.n)
    decreases |s|
  {
    hide Answered, Accept, Reject;
    if Printable(s[0]) && length > 1 {
      DataAnswered(r, Take(r1, kind, s[0]), kind, length - 1, sum + s[0], parms + [s[0]], s[1..]);
    } else {
      var o := ReceiveData(r1, kind, length, sum, parms, s);
      if o.Rejected? { RejectAnswers(r, r1, o.rest); } else { AcceptAnswers(r, r1, kind, parms, o.rest); }
    }
  }

  lemma LongAnswered(r: Receiver, r1: Receiver, kind: byte, sum: nat, s: seq<byte>)
    requires r1.out == r.out && !ReceiveLong(r1, kind, sum, s).Starved?
    ensures Answered(r, ReceiveLong(r1, kind, sum, s), r1.n)
  {
    hide Answered, Accept, Reject, ReceiveData, Check;
    var o := ReceiveLong(r1, kind, sum, s);
    if |s| >= 3 && Printable(s[0]) && Printable(s[1]) && Printable(s[2]) && s[2] == Check(sum + s[0] + s[1]) {
      DataAnswered(r, r1, kind, UnToChar(s[0]) * 95 + UnToChar(s[1]), sum + s[0] + s[1] + s[2], [], s[3..]);
    } else {
      RejectAnswers(r, r1, o.rest);
    }
  }

  /** The number that is answered: the one in the packet, or the last one seen if the packet was given up before it. */
  function AnsweredNumber(r: Receiver, s: seq<byte>): small {
    if |s| >= 2 && Printable(s[0]) && Printable(s[1]) then s[1] - 32 else r.n
  }

  /** Every packet that ends is answered once: whether it was accepted, and for which number. */
  lemma OneAnswer(r: Receiver, s: seq<byte>)
    requires !ReceivePacket(r, s).Starved?
    ensures Answered(r, ReceivePacket(r, s), AnsweredNumber(r, s))
  {
    hide Answered, Accept, Reject, ReceiveData, ReceiveLong;
    var o := ReceivePacket(r, s);
    if |s| < 2 || !Printable(s[0]) || !Printable(s[1]) {
      RejectAnswers(r, r, o.rest);
    } else {
      var r1 := Number(r, UnToChar(s[1]));
      var sum: nat := s[0] as int + s[1] as int + s[2] as int;
      if !Printable(s[2]) {
        RejectAnswers(r, r1, o.rest);
      } else if UnToChar(s[0]) == 0 {
        LongAnswered(r, r1, s[2], sum, s[3..]);
      } else {
        DataAnswered(r, r1, s[2], UnToChar(s[0]) - 2, sum, [], s[3..]);
      }
    }
  }

  // ----- what the peer has asked for

  /** The first six parameters of a send-init packet, as the manual encodes them. */
  function Announce(maxl: byte, time: byte, p: Params): seq<byte>
    requires p.padCount < 224 && p.eol < 224
  {
    [maxl, time, ToChar(p.padCount), Flip(p.padChar), ToChar(p.eol), p.quote]
  }

  /** Padding, end of line and quote are what was announced; what was left off is CR, no padding and '#'. */
  lemma AnnouncedBack(maxl: byte, time: byte, p: Params, more: seq<byte>, k: nat)
    requires Printable(maxl) && Printable(time) && Printable(p.quote) && AllPrintable(more)
    requires p.padCount < 224 && p.eol < 224 && IsControl(p.padChar) && p.padChar < 128
    requires k <= 6 + |more|
    ensures var parms := (Announce(maxl, time, p) + more)[..k];
            && AllPrintable(parms)
            && Negotiate(parms) == Params(
                 if k >= 5 then p.eol else 13,
                 if k >= 3 then p.padCount else 0,
                 if k >= 4 then p.padChar else 0,
                 if k >= 6 then p.quote else 35)
  {
  }
}

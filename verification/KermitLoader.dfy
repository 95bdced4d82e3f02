/** The code of `k_recv` and its helpers, updating its static state character by character. */
module KermitLoader {
  import opened Machine
  import opened Sequences
  import opened KermitCodec
  import opened KermitProtocol
  import KermitSession

  datatype Status = Silent | Nak | Ack(kind: byte)

  /** How `k_recv` ends: a byte count, or blocked in `getc` on a line that stays silent. */
  datatype Result = Blocked | Size(size: int)

  /** A sealed buffer reads as the reply, padding aside. */
  lemma SealedReply(a: seq<byte>, length: nat, p: Params, n: small, kind: byte, data: seq<byte>)
    requires length == 3 + |data| && length + 4 <= |a| && |data| <= 220
    requires a[..length + 1] == [START_CHAR, ToChar(length), ToChar(n), kind] + data
    requires a[length + 1] == Check(Sum(a[1..length + 1])) && a[length + 2] == p.eol
    ensures var end := if p.eol == 0 then length + 2 else length + 3;
            Reply(p, n, kind, data) == Repeat(p.padCount, p.padChar) + a[..end]
  {
    var text := [ToChar(length), ToChar(n), kind] + data;
    assert a[1..length + 1] == a[..length + 1][1..] == text;
    assert a[..length + 2] == a[..length + 1] + [a[length + 1]];
    assert a[..length + 2] == [START_CHAR] + Body(n, kind, data);
  }

  class Loader {
    var line: seq<byte>         // what the serial line will still deliver
    var out: seq<byte>          // what has been written to it
    var mem: map<int, byte>

    var hisEol: byte
    var hisPadCount: nat
    var hisPadChar: byte
    var hisQuote: byte

    const aB: array<byte>
    const sendParms: array<byte>
    var sendPtr: nat

    const binStartAddress: int
    var osDataAddr: int
    var osDataAddrSaved: int
    var kDataEscape: bool
    var kDataEscapeSaved: bool

    var n: small                // locals of k_recv that live across packets
    var lastN: int

    ghost predicate Valid()
      reads this
    {
      aB.Length == 24 && sendParms.Length == SEND_DATA_SIZE && aB != sendParms && sendPtr < SEND_DATA_SIZE
    }

    ghost function View(): Receiver
      reads this
    {
      Receiver(Sink(mem, osDataAddr, kDataEscape), osDataAddrSaved, kDataEscapeSaved, n, lastN,
               Params(hisEol, hisPadCount, hisPadChar, hisQuote), out)
    }

    constructor (addr: int, mem: map<int, byte>, line: seq<byte>)
      ensures Valid() && fresh(aB) && fresh(sendParms)
      ensures this.line == line && binStartAddress == addr && View() == Init(addr, mem)
    {
      this.line, out, this.mem := line, [], mem;
      hisEol, hisPadCount, hisPadChar, hisQuote := END_CHAR, 0, 0, K_ESCAPE;
      aB := new byte[24];
      sendParms := new byte[20];
      sendPtr := 0;
      binStartAddress, osDataAddr, osDataAddrSaved := addr, addr, addr;
      kDataEscape, kDataEscapeSaved := false, false;
      n, lastN := 0, -1;
    }

    method Getc() returns (c: byte)
      requires line != []
      modifies this`line
      ensures c == old(line)[0] && line == old(line)[1..]
    {
      c := line[0];
      line := line[1..];
    }

    // ----- k_data_*, os_data_*, bin_data_*

    method KDataRestore()
      modifies this`kDataEscape, this`osDataAddr
      ensures View() == Restore(old(View()))
    {
      kDataEscape := kDataEscapeSaved;
      osDataAddr := osDataAddrSaved;
    }

    method BinDataChar(c: byte)
      modifies this`mem, this`osDataAddr
      ensures mem == old(mem)[old(osDataAddr) := c] && osDataAddr == old(osDataAddr) + 1
    {
      mem := mem[osDataAddr := c];
      osDataAddr := osDataAddr + 1;
    }

    method KDataChar(c: byte)
      modifies this`mem, this`osDataAddr, this`kDataEscape
      ensures View() == old(View()).(sink := PutChar(old(View()).sink, hisQuote, c))
    {
      if kDataEscape {
        BinDataChar(Ktrans(c));
        kDataEscape := false;
      } else if c == hisQuote {
        kDataEscape := true;
      } else {
        BinDataChar(c);
      }
    }

    // ----- replies

    /** `chk1(&a_b[1])`: sums up to the NUL at `k`. */
    method Chk1(ghost k: nat) returns (check: small)
      requires Valid() && 1 <= k < 24 && aB[k] == 0
      requires forall i :: 1 <= i < k ==> aB[i] != 0
      ensures ToChar(check) == Check(Sum(aB[1..k]))
    {
      var i, total: nat := 1, 0;
      while aB[i] != 0
        invariant 1 <= i <= k
        invariant total == Sum(aB[1..i])
        decreases k - i
      {
        assert aB[1..i + 1] == aB[1..i] + [aB[i]];
        SumConcat(aB[1..i], [aB[i]]);
        assert Sum([aB[i]]) == aB[i];
        total := total + aB[i];
        i := i + 1;
      }
      check := (total + (total / 64) % 4) % 64;
    }

    /** `s1_sendpacket(a_b)`: padding, then everything up to the NUL at `k`. */
    method S1SendPacket(ghost k: nat)
      requires Valid() && k < 24 && aB[k] == 0
      requires forall i :: 0 <= i < k ==> aB[i] != 0
      modifies this`out
      ensures out == old(out) + Repeat(hisPadCount, hisPadChar) + aB[..k]
    {
      var count := hisPadCount;
      while count > 0
        invariant 0 <= count <= hisPadCount
        invariant out == old(out) + Repeat(hisPadCount - count, hisPadChar)
      {
        out := out + [hisPadChar];
        count := count - 1;
        assert Repeat(hisPadCount - count, hisPadChar) == Repeat(hisPadCount - count - 1, hisPadChar) + [hisPadChar];
      }
      var i := 0;
      while aB[i] != 0
        invariant 0 <= i <= k
        invariant out == old(out) + Repeat(hisPadCount, hisPadChar) + aB[..i]
        decreases k - i
      {
        out := out + [aB[i]];
        i := i + 1;
      }
    }

    /** The tail every reply shares: the check over what is there, end of line, NUL. */
    method Seal(length: nat)
      requires Valid() && 3 <= length < 20 && forall i :: 1 <= i <= length ==> aB[i] != 0
      modifies aB
      ensures aB[..length + 1] == old(aB[..length + 1])
      ensures aB[length + 1] == Check(Sum(aB[1..length + 1]))
      ensures aB[length + 2] == hisEol && aB[length + 3] == 0
    {
      aB[length + 1] := 0;
      var check := Chk1(length + 1);
      ghost var text := aB[1..length + 1];
      aB[length + 1] := ToChar(check);
      aB[length + 2] := hisEol;
      aB[length + 3] := 0;
      assert aB[1..length + 1] == text;
    }

    method Finish(length: nat, kind: byte, ghost data: seq<byte>)
      requires Valid() && length == 3 + |data| && length < 20
      requires aB[..length + 1] == [START_CHAR, ToChar(length), ToChar(n), kind] + data
      requires AllPrintable(data) && Printable(kind)
      modifies this`out, aB
      ensures out == old(out) + Reply(View().params, n, kind, data)
    {
      hide Reply, Repeat;
      assert forall i :: 0 <= i <= length ==> aB[i] == aB[..length + 1][i];
      Seal(length);
      SealedReply(aB[..], length, View().params, n, kind, data);
      ghost var end := if hisEol == 0 then length + 2 else length + 3;
      assert forall i :: 0 <= i < end ==> aB[i] == aB[..][i];
      S1SendPacket(end);
      assert aB[..end] == aB[..][..end];
    }

    /** `send_ack` and `send_nack`. */
    method SendSimple(kind: byte)
      requires Valid() && Printable(kind)
      modifies this`out, aB
      ensures Valid() && out == old(out) + Reply(View().params, n, kind, [])
    {
      aB[0], aB[1], aB[2], aB[3] := START_CHAR, ToChar(3), ToChar(n), kind;
      assert aB[..4] == [START_CHAR, ToChar(3), ToChar(n), kind] + [];
      Finish(3, kind, []);
    }

    /** The parameter bytes kept by the receive loop: the pointer stops at the last slot. */
    ghost predicate Kept(parms: seq<byte>)
      reads this, sendParms
    {
      && Valid()
      && sendPtr == (if |parms| < SEND_DATA_SIZE - 1 then |parms| else SEND_DATA_SIZE - 1)
      && sendParms[..sendPtr] == parms[..sendPtr]
    }

    /** The cascade of `handle_send_packet`: it stops where the peer's parameters do. */
    method Crack(ghost parms: seq<byte>, bytes: nat) returns (length: nat)
      requires Kept(parms) && AllPrintable(parms) && bytes == ParmCount(|parms|)
      modifies this`hisEol, this`hisPadCount, this`hisPadChar, this`hisQuote, aB
      ensures View() == old(View()).(params := Negotiate(parms))
      ensures length == 3 + |SendInitReply(bytes)|
      ensures forall i :: 4 <= i <= length ==> aB[i] == SendInitReply(bytes)[i - 4]
    {
      length := 3;
      hisEol, hisPadCount, hisPadChar, hisQuote := END_CHAR, 0, 0, K_ESCAPE;
      label Parameters: {
        if bytes <= 0 { break Parameters; }
        length := length + 1; aB[length] := ToChar(94);       // MAXL
        if bytes <= 1 { break Parameters; }
        length := length + 1; aB[length] := ToChar(1);        // TIME
        if bytes <= 2 { break Parameters; }
        length := CrackRemembered(parms, bytes);
      }
    }

    /** The cascade from NPAD on, where the peer's wishes are remembered. */
    method CrackRemembered(ghost parms: seq<byte>, bytes: nat) returns (length: nat)
      requires Kept(parms) && AllPrintable(parms) && bytes == ParmCount(|parms|) && bytes > 2
      requires View().params == DEFAULTS && aB[4] == CAPABILITIES[0] && aB[5] == CAPABILITIES[1]
      modifies this`hisEol, this`hisPadCount, this`hisPadChar, this`hisQuote, aB
      ensures View() == old(View()).(params := Negotiate(parms))
      ensures length == 3 + |SendInitReply(bytes)|
      ensures forall i :: 4 <= i <= length ==> aB[i] == SendInitReply(bytes)[i - 4]
    {
      hide Ktrans;
      ParmsKept(parms);
      hisPadCount := UnToChar(sendParms[2]);                  // NPAD
      length := 6; aB[length] := ToChar(0);
      if bytes <= 3 { return; }
      hisPadChar := Ktrans(sendParms[3]);                     // PADC
      length := length + 1; aB[length] := 0x40;
      if bytes <= 4 { return; }
      length := CrackEol(parms, bytes);
    }

    lemma ParmsKept(parms: seq<byte>)
      requires Kept(parms)
      ensures forall i :: 0 <= i < sendPtr ==> sendParms[i] == parms[i]
    {
      assert forall i :: 0 <= i < sendPtr ==> sendParms[i] == sendParms[..sendPtr][i] == parms[..sendPtr][i];
    }

    method CrackEol(ghost parms: seq<byte>, bytes: nat) returns (length: nat)
      requires Kept(parms) && AllPrintable(parms) && bytes == ParmCount(|parms|) && bytes > 4
      requires View().params == Params(END_CHAR, UnToChar(parms[2]), Ktrans(parms[3]), K_ESCAPE)
      requires forall i :: 4 <= i <= 7 ==> aB[i] == CAPABILITIES[i - 4]
      modifies this`hisEol, this`hisQuote, aB
      ensures View() == old(View()).(params := Negotiate(parms))
      ensures length == 3 + |SendInitReply(bytes)|
      ensures forall i :: 4 <= i <= length ==> aB[i] == SendInitReply(bytes)[i - 4]
    {
      hide Ktrans;
      ParmsKept(parms);
      hisEol := UnToChar(sendParms[4]);                       // EOL
      length := 8; aB[length] := ToChar(END_CHAR);
      if bytes <= 5 { return; }
      hisQuote := sendParms[5];                               // QCTL
      length := CrackRest(bytes);
    }

    /** The cascade from QCTL on, where nothing the peer says is remembered. */
    method CrackRest(bytes: nat) returns (length: nat)
      requires Valid() && bytes > 5
      requires forall i :: 4 <= i <= 8 ==> aB[i] == CAPABILITIES[i - 4]
      modifies aB
      ensures length == 3 + |SendInitReply(bytes)|
      ensures forall i :: 4 <= i <= length ==> aB[i] == SendInitReply(bytes)[i - 4]
    {
      length := 9; aB[length] := K_ESCAPE;
      label Parameters: {
        if bytes <= 6 { break Parameters; }
        length := length + 1; aB[length] := 78;               // QBIN: refused
        if bytes <= 7 { break Parameters; }
        length := length + 1; aB[length] := 49;               // CHKT: type 1
        if bytes <= 8 { break Parameters; }
        length := length + 1; aB[length] := 78;               // REPT: refused
        if bytes <= 9 { break Parameters; }
        length := length + 1; aB[length] := ToChar(2);        // CAPAS: only long packets
        length := length + 1; aB[length] := ToChar(0);
        length := length + 1; aB[length] := ToChar(94);
        length := length + 1; aB[length] := ToChar(94);
      }
    }

    method HandleSendPacket(ghost parms: seq<byte>)
      requires Kept(parms) && AllPrintable(parms)
      modifies this`hisEol, this`hisPadCount, this`hisPadChar, this`hisQuote, this`out, this`sendPtr, aB
      ensures Valid() && View() == Accept(old(View()), SEND_TYPE, parms)
    {
      hide Reply, Negotiate, Check;
      // ignore the last character if it filled the buffer
      var bytes := if sendPtr == SEND_DATA_SIZE - 1 then sendPtr - 1 else sendPtr;
      var length := Crack(parms, bytes);
      aB[0], aB[1], aB[2], aB[3] := START_CHAR, ToChar(length), ToChar(n), ACK_TYPE;
      ghost var data := SendInitReply(bytes);
      hide SendInitReply;
      assert aB[..length + 1] == [START_CHAR, ToChar(length), ToChar(n), ACK_TYPE] + data;
      KermitSession.SendInitReplyPrintable(|parms|);
      Finish(length, ACK_TYPE, data);
    }

    // ----- receiving

    method PacketError() returns (s: Status)
      requires Valid()
      modifies this`kDataEscape, this`osDataAddr, this`out, aB
      ensures Valid() && s == Nak && View() == Reject(old(View()))
    {
      KDataRestore();
      SendSimple(NACK_TYPE);
      s := Nak;
    }

    /** `*send_ptr++ = c`, backed off when the buffer is full. */
    method SaveParm(c: byte, ghost parms: seq<byte>)
      requires Kept(parms)
      modifies this`sendPtr, sendParms
      ensures Kept(parms + [c])
    {
      ghost var kept := sendParms[..sendPtr];
      sendParms[sendPtr] := c;
      sendPtr := sendPtr + 1;
      if sendPtr >= SEND_DATA_SIZE { sendPtr := sendPtr - 1; }
      assert forall i :: 0 <= i < |kept| && i < sendPtr ==> sendParms[i] == kept[i];
    }

    ghost predicate Answers(s: Status, o: Outcome)
      reads this
    {
      match o
      case Starved => s == Silent
      case Rejected(r, rest) => s == Nak && View() == r && line == rest
      case Accepted(r, kind, rest) => s == Ack(kind) && View() == r && line == rest
    }

    /** The check, the end mark and the answer. */
    method ReceiveTrailer(kState: byte, sum: nat, ghost length: int, ghost parms: seq<byte>) returns (s: Status)
      requires Valid() && AllPrintable(parms) && (kState == SEND_TYPE ==> Kept(parms)) && length <= 1
      modifies this, aB, sendParms
      ensures Valid() && Answers(s, ReceiveData(old(View()), kState, length, sum, parms, old(line)))
    {
      hide Check, Negotiate, Reply, SendInitReply, PutChar;
      if line == [] { return Silent; }
      var c := Getc();
      if !Printable(c) || c != Check(sum) {
        s := PacketError();
        return;
      }
      if line == [] { return Silent; }
      c := Getc();
      if c != END_CHAR {
        s := PacketError();
      } else if kState == SEND_TYPE {
        HandleSendPacket(parms);
        s := Ack(kState);
      } else {
        SendSimple(ACK_TYPE);
        s := Ack(kState);
      }
    }

    /** The data field, the check and the end mark. */
    method ReceiveRest(kState: byte, len: int, total: nat) returns (s: Status)
      requires Valid() && sendPtr == 0
      modifies this, aB, sendParms
      ensures Valid() && Answers(s, ReceiveData(old(View()), kState, len, total, [], old(line)))
    {
      hide Check, Reply, PutChar;
      ghost var o := ReceiveData(View(), kState, len, total, [], line);
      ghost var parms := [];
      var length, sum: nat := len, total;
      while length > 1
        invariant Valid() && AllPrintable(parms)
        invariant kState == SEND_TYPE ==> Kept(parms)
        invariant o == ReceiveData(View(), kState, length, sum, parms, line)
        decreases length
      {
        if line == [] { return Silent; }
        var c := Getc();
        if !Printable(c) {
          s := PacketError();
          return;
        }
        sum := sum + c;
        length := length - 1;
        if kState == DATA_TYPE {
          KDataChar(c);
        } else if kState == SEND_TYPE {
          SaveParm(c, parms);
        }
        parms := parms + [c];
      }
      s := ReceiveTrailer(kState, sum, length, parms);
    }

    method ReceiveExtended(kState: byte, total: nat) returns (s: Status)
      requires Valid() && sendPtr == 0
      modifies this, aB, sendParms
      ensures Valid() && Answers(s, ReceiveLong(old(View()), kState, total, old(line)))
    {
      if line == [] { return Silent; }
      var hi := Getc();
      if !Printable(hi) { s := PacketError(); return; }
      if line == [] { return Silent; }
      var lo := Getc();
      if !Printable(lo) { s := PacketError(); return; }
      var sum := total + hi + lo;
      if line == [] { return Silent; }
      var c := Getc();
      if !Printable(c) || c != Check(sum) { s := PacketError(); return; }
      s := ReceiveRest(kState, UnToChar(hi) * 95 + UnToChar(lo), sum + c);
    }

    /** Roll back on a repeated sequence number, take a checkpoint on a new one. */
    method Sequence(number: small)
      modifies this`n, this`lastN, this`kDataEscape, this`osDataAddr, this`kDataEscapeSaved, this`osDataAddrSaved
      ensures View() == Number(old(View()), number)
    {
      n := number;
      if n == lastN {
        KDataRestore();
      } else {
        lastN := n;
        kDataEscapeSaved, osDataAddrSaved := kDataEscape, osDataAddr;
      }
    }

    /** From the type on: `whole` is the packet, whose length and number have been read. */
    method ReceiveTyped(first: byte, second: byte, ghost r: Receiver, ghost whole: seq<byte>) returns (s: Status)
      requires Valid() && sendPtr == 0 && Printable(first) && Printable(second)
      requires |whole| >= 2 && whole[0] == first && whole[1] == second && line == whole[2..]
      requires View() == Number(r, UnToChar(second))
      modifies this, aB, sendParms
      ensures Valid() && Answers(s, ReceivePacket(r, whole))
    {
      hide ReceiveData, ReceiveLong, Number, Reply, Check;
      if line == [] { return Silent; }
      var kState := Getc();
      assert line == whole[3..];
      if !Printable(kState) { s := PacketError(); return; }
      var length := UnToChar(first) - 2;
      var sum: nat := first as int + second as int + kState as int;
      if length == -2 {
        s := ReceiveExtended(kState, sum);
      } else {
        s := ReceiveRest(kState, length, sum);
      }
    }

    /** One turn of the main loop, from the character after the start mark. */
    method ReceiveOne() returns (s: Status)
      requires Valid()
      modifies this, aB, sendParms
      ensures Valid() && Answers(s, ReceivePacket(old(View()), old(line)))
    {
      hide ReceiveData, ReceiveLong, Number, Reply, Check;
      sendPtr := 0;
      if line == [] { return Silent; }
      var first := Getc();
      if !Printable(first) { s := PacketError(); return; }
      if line == [] { return Silent; }
      var second := Getc();
      assert line == old(line)[2..];
      if !Printable(second) { s := PacketError(); return; }
      Sequence(UnToChar(second));
      s := ReceiveTyped(first, second, old(View()), old(line));
    }

    /** `k_recv`: the whole transfer follows `Run`. */
    method KRecv() returns (result: Result)
      requires Valid()
      modifies this, aB, sendParms
      ensures Valid()
      ensures match Run(old(View()), old(line))
              case Waiting => result == Blocked
              case Aborted => result == Size(0)
              case Complete(r) => View() == r && result == Size(r.sink.addr - binStartAddress)
    {
      ghost var session := Run(View(), line);
      while true
        invariant Valid() && session == Run(View(), line)
        decreases |line|
      {
        if line == [] { return Blocked; }
        var c := Getc();
        if c == ETX_CHAR { return Size(0); }
        if c == START_CHAR {
          ghost var o := ReceivePacket(View(), line);
          var s := ReceiveOne();
          if s == Silent { return Blocked; }
          if s == Ack(BREAK_TYPE) { return Size(osDataAddr - binStartAddress); }
        }
      }
    }
  }
}

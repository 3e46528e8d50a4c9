/** The kernel's one TCP connection, its record changed in place by each event. */
module Tcp {
  import opened Bytes
  import opened TwosComplement
  import opened TcpSegment
  import opened TcpSpec

  class TcpConn {
    const myIp: nat
    var phase: Phase
    var remoteIp: nat
    var localPort: nat
    var remotePort: nat
    var sndUna: nat
    var sndNxt: nat
    var rcvNxt: nat
    var ticks: nat
    var retries: nat
    var ackPending: bool
    var closePending: bool
    var isnCounter: nat
    /** Segments given to the network, and the bytes of the last of them. */
    ghost var sent: seq<Segment>
    ghost var wire: seq<u8>
    /** Bytes given to the user, and whether the peer's FIN has been counted. */
    ghost var delivered: seq<u8>
    ghost var finTaken: bool
    /** How often the user's close callback has been called. */
    ghost var closes: nat

    ghost function S(): State
      reads this
    {
      State(phase, remoteIp, localPort, remotePort, sndUna, sndNxt, rcvNxt, ticks, retries, ackPending, closePending,
            isnCounter, sent, delivered, finTaken, closes)
    }

    ghost predicate Valid()
      reads this
    {
      Words(S()) && myIp < MOD
    }

    constructor (myIp: nat)
      requires myIp < MOD
      ensures Valid() && phase == Closed && this.myIp == myIp
    {
      this.myIp := myIp;
      phase, remoteIp, localPort, remotePort, sndUna, sndNxt, rcvNxt := Closed, 0, 0, 0, 0, 0, 0;
      ticks, retries, ackPending, closePending, isnCounter := 0, 0, false, false, 0x1000;
      sent, wire, delivered, finTaken, closes := [], [], [], false, 0;
    }

    /** Hands a segment to IP. */
    method SendSegment(flags: nat, num: nat, data: seq<u8>)
      requires Valid() && flags < 256 && num < MOD
      modifies this`sent, this`wire
      ensures Valid() && S() == Emit(old(S()), flags, num, data)
      ensures |data| <= MSS ==>
        wire == Encode(Segment(localPort, remotePort, num, if HasFlag(flags, ACK) then rcvNxt else 0, flags, data),
        myIp, remoteIp)
    {
      hide HasFlag, Encode;
      if |data| > MSS {
        return;
      }
      var ack := if HasFlag(flags, ACK) then rcvNxt else 0;
      wire := BuildSegment(flags, num, ack, data);
      sent := sent + [Segment(localPort, remotePort, num, ack, flags, data)];
    }

    /** The bytes of a segment, the checksum last. */
    method BuildSegment(flags: nat, num: nat, ack: nat, data: seq<u8>) returns (bytes: seq<u8>)
      requires Valid() && flags < 256 && num < MOD && ack < MOD && |data| <= MSS
      ensures bytes == Encode(Segment(localPort, remotePort, num, ack, flags, data), myIp, remoteIp)
    {
      hide Head, Checksum, BeBytes;
      ghost var g := Segment(localPort, remotePort, num, ack, flags, data);
      var seg := new u8[HEADER + |data|];
      FillHeader(seg, flags, num, ack);
      CopyTo(seg, HEADER, data);
      assert Head(g) == Head(Segment(localPort, remotePort, num, ack, flags, [])) by {
        HeadIgnoresData(g);
      }
      assert seg[..] == Head(g) + [0, 0] + ([0, 0] + data);
      var c := TcpChecksum(myIp, remoteIp, seg[..]);
      Put16(seg, 16, c);
      assert seg[..] == Head(g) + BeBytes(c, 2) + ([0, 0] + data);
      bytes := seg[..];
    }

    static lemma HeadIgnoresData(g: Segment)
      requires g.flags < 256
      ensures Head(g) == Head(g.(data := []))
    {
    }

    method FillHeader(seg: array<u8>, flags: nat, num: nat, ack: nat)
      requires Valid() && seg.Length >= HEADER && flags < 256 && num < MOD && ack < MOD
      modifies seg
      ensures seg[..20] == Head(Segment(localPort, remotePort, num, ack, flags, [])) + [0, 0, 0, 0]
    {
      hide BeBytes, Words;
      FillPorts(seg, num, ack);
      ghost var front := seg[..12];
      seg[12], seg[13] := 0x50, flags as u8;
      assert seg[..14] == front + [0x50, flags as u8];
      Put16(seg, 14, WINDOW);
      Put16(seg, 16, 0);
      Put16(seg, 18, 0);
      TwoBytes(0);
    }

    method FillPorts(seg: array<u8>, num: nat, ack: nat)
      requires Valid() && seg.Length >= HEADER && num < MOD && ack < MOD
      modifies seg
      ensures seg[..12] == BeBytes(localPort, 2) + BeBytes(remotePort, 2) + BeBytes(num, 4) + BeBytes(ack, 4)
    {
      hide BeBytes;
      Put16(seg, 0, localPort);
      Put16(seg, 2, remotePort);
      PutBe32(seg, 4, num);
      PutBe32(seg, 8, ack);
    }

    /** Opens a connection; false when there is one already. */
    method Connect(dstIp: nat, dstPort: nat) returns (ok: bool)
      requires Valid() && dstIp < MOD && dstPort < 65536
      modifies this
      ensures Valid() && ok == (old(phase) == Closed) && S() == TcpSpec.Connect(old(S()), dstIp, dstPort)
    {
      hide HasFlag, Emit, Opening;
      if phase != Closed {
        return false;
      }
      Open(dstIp, dstPort);
      SendSegment(SYN, sndUna, []);
      ok := true;
    }

    method Open(dstIp: nat, dstPort: nat)
      requires Valid() && dstIp < MOD && dstPort < 65536
      modifies this
      ensures Valid() && S() == Opening(old(S()), dstIp, dstPort)
    {
      hide AddSeq, NextIsn, LocalPort;
      OpeningWords(S(), dstIp, dstPort);
      var isn := NextIsn(isnCounter);
      remoteIp, remotePort, localPort := dstIp, dstPort, LocalPort(isnCounter);
      isnCounter, sndUna, sndNxt := isn, isn, AddSeq(isn, 1);
      phase := SynSent;
      Clear();
    }

    /** Nothing received, nothing pending. */
    method Clear()
      requires Valid()
      modifies this`rcvNxt, this`ticks, this`retries, this`ackPending, this`closePending, this`delivered, this`finTaken,
        this`closes
      ensures Valid()
      ensures S() == old(S()).(rcvNxt := 0, ticks := 0, retries := 0, ackPending := false, closePending := false,
                               delivered := [], finTaken := false, closes := 0)
    {
      rcvNxt, ticks, retries := 0, 0, 0;
      ackPending, closePending := false, false;
      delivered, finTaken, closes := [], false, 0;
    }

    static lemma OpeningWords(s: State, dstIp: nat, dstPort: nat)
      requires Words(s) && dstIp < MOD && dstPort < 65536
      ensures Words(Opening(s, dstIp, dstPort))
    {
      hide AddSeq, NextIsn, LocalPort;
    }

    /** Sends what fits one segment and returns its length. */
    method SendChunk(data: seq<u8>) returns (chunk: nat)
      requires Valid() && data != []
      modifies this`sndNxt, this`sent, this`wire
      ensures Valid() && 0 < chunk <= |data| && TcpSpec.Send(S(), data[chunk..]) == TcpSpec.Send(old(S()), data)
    {
      hide HasFlag, TcpSpec.Send;
      chunk := if |data| > MSS then MSS else |data|;
      var num := sndNxt;
      SendUnfolds(S(), data);
      sndNxt := AddSeq(sndNxt, chunk);
      SendSegment(PSH + ACK, num, data[..chunk]);
    }

    /** Sends the data in segments of at most 1400 bytes; false when the connection is not open. */
    method Send(data: seq<u8>) returns (ok: bool)
      requires Valid()
      modifies this`sndNxt, this`sent, this`wire
      ensures Valid() && ok == (phase == Established)
      ensures S() == if ok then TcpSpec.Send(old(S()), data) else old(S())
    {
      hide HasFlag, TcpSpec.Send;
      if phase != Established {
        return false;
      }
      var done := 0;
      assert data[0..] == data;
      while done < |data|
        invariant Valid() && done <= |data|
        invariant TcpSpec.Send(S(), data[done..]) == TcpSpec.Send(old(S()), data)
      {
        var chunk := SendChunk(data[done..]);
        assert data[done..][chunk..] == data[done + chunk..];
        done := done + chunk;
      }
      SendUnfolds(S(), data[done..]);
      ok := true;
    }

    method Close()
      requires Valid()
      modifies this`phase, this`sndNxt, this`sent, this`wire
      ensures Valid() && S() == TcpSpec.Close(old(S()))
    {
      hide HasFlag;
      if phase == Established || phase == CloseWait {
        var num := sndNxt;
        sndNxt := AddSeq(sndNxt, 1);
        phase := if phase == Established then FinWait1 else LastAck;
        SendSegment(FIN + ACK, num, []);
      }
    }

    /** The timer: a due close or acknowledgement is sent, and the SYN again every 50 ticks. */
    method Tick()
      requires Valid()
      modifies this
      ensures Valid() && S() == TcpSpec.Tick(old(S()))
    {
      hide HasFlag, TcpSpec.Close;
      if closePending {
        closePending, ackPending := false, false;
        Close();
      } else if ackPending {
        ackPending := false;
        SendSegment(ACK, sndNxt, []);
      }
      Retry();
    }

    method Retry()
      requires Valid()
      modifies this
      ensures Valid() && S() == TcpSpec.Retry(old(S()))
    {
      hide HasFlag;
      if phase == SynSent {
        ticks := ticks + 1;
        if ticks >= SYN_RETRY_TICKS {
          ticks := 0;
          retries := retries + 1;
          if retries > SYN_RETRIES {
            phase := Closed;
            return;
          }
          SendSegment(SYN, sndUna, []);
        }
      }
    }

    method Abort()
      requires Valid()
      modifies this`phase, this`ackPending, this`closePending
      ensures Valid() && S() == TcpSpec.Abort(old(S()))
    {
      phase, ackPending, closePending := Closed, false, false;
    }

    /** A segment arrives from the network. */
    method Receive(b: seq<u8>)
      requires Valid() && |b| <= 65535
      modifies this
      ensures Valid() && S() == TcpSpec.Receive(old(S()), myIp, b)
    {
      hide HasFlag, Take, Checksum;
      if |b| < HEADER || phase == Closed {
        return;
      }
      var sum := TcpChecksum(remoteIp, myIp, b);
      if sum != 0 {
        return;
      }
      var dstPort, srcPort := b[2] as int * 256 + b[3] as int, b[0] as int * 256 + b[1] as int;
      ReadWords(b);
      if dstPort != localPort || srcPort != remotePort {
        return;
      }
      var hdrLen := b[12] as int / 16 * 4;
      if hdrLen < HEADER || hdrLen > |b| {
        return;
      }
      Accept(b[13] as int, BeVal(b[4..8]), BeVal(b[8..12]), b[hdrLen..], srcPort, dstPort);
    }

    static lemma ReadWords(b: seq<u8>)
      requires |b| >= HEADER
      ensures BeVal(b[..2]) == b[0] as int * 256 + b[1] as int && BeVal(b[2..4]) == b[2] as int * 256 + b[3] as int
      ensures BeVal(b[4..8]) < MOD && BeVal(b[8..12]) < MOD
    {
      hide BeVal;
      BeLast(b[..2], 1);
      BeLast(b[..2][..1], 0);
      BeLast(b[2..4], 1);
      BeLast(b[2..4][..1], 0);
      NoValue(b[..2][..1][..0]);
      NoValue(b[2..4][..1][..0]);
      BeValBound(b[4..8]);
      BeValBound(b[8..12]);
      Pow2Values();
      Pow2Add(16, 16);
    }

    static lemma NoValue(s: seq<u8>)
      requires s == []
      ensures BeVal(s) == 0
    {
    }

    /** The state machine, for a segment that has passed the checks. */
    method Accept(flags: nat, num: nat, ack: nat, data: seq<u8>, ghost srcPort: nat, ghost dstPort: nat)
      requires Valid() && phase != Closed && num < MOD && ack < MOD
      modifies this
      ensures Valid() && S() == Take(old(S()), Segment(srcPort, dstPort, num, ack, flags, data))
    {
      hide HasFlag, TakePayload;
      if HasFlag(flags, RST) {
        phase := Closed;
        closes := closes + 1;
        return;
      }
      if phase == SynSent {
        if HasFlag(flags, SYN) && HasFlag(flags, ACK) && ack == sndNxt {
          sndUna := ack;
          rcvNxt := AddSeq(num, 1);
          ackPending := true;
          phase := Established;
        }
        return;
      }
      if HasFlag(flags, SYN) {
        ackPending := true;
        return;
      }
      if HasFlag(flags, ACK) {
        sndUna := ack;
        if phase == FinWait1 && ack == sndNxt {
          phase := FinWait2;
        }
        if phase == LastAck && ack == sndNxt {
          phase := Closed;
          closes := closes + 1;
          return;
        }
      }
      AcceptPayload(flags, num, ack, data, srcPort, dstPort);
    }

    method AcceptPayload(flags: nat, num: nat, ghost ack: nat, data: seq<u8>, ghost srcPort: nat, ghost dstPort: nat)
      requires Valid() && num < MOD
      modifies this
      ensures Valid() && S() == TakePayload(old(S()), Segment(srcPort, dstPort, num, ack, flags, data))
    {
      hide HasFlag, TakeFin;
      if |data| > 0 {
        var inOrder := num == rcvNxt;
        if inOrder {
          rcvNxt := AddSeq(rcvNxt, |data|);
          delivered := delivered + data;
        }
        ackPending := true;
        if !inOrder {
          return;
        }
      }
      if HasFlag(flags, FIN) && AddSeq(num, |data|) == rcvNxt {
        AcceptFin();
      }
    }

    method AcceptFin()
      requires Valid()
      modifies this
      ensures Valid() && S() == TakeFin(old(S()))
    {
      rcvNxt := AddSeq(rcvNxt, 1);
      ackPending := true;
      finTaken := true;
      if phase == Established {
        phase := CloseWait;
        closePending := true;
        closes := closes + 1;
      } else if phase == FinWait1 || phase == FinWait2 {
        phase := Closed;
        closes := closes + 1;
      }
    }
  }
}

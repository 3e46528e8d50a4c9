/** One TCP connection as steps, against a network that loses, repeats and reorders segments. */
module TcpSpec {
  import opened Bytes
  import opened TcpSegment

  const MOD: nat := 0x1_0000_0000
  const SYN_RETRY_TICKS: nat := 50
  const SYN_RETRIES: nat := 5

  datatype Phase = Closed | SynSent | Established | FinWait1 | FinWait2 | CloseWait | LastAck

  /** The connection record. `sent` is what has gone to the network and `delivered` what has come to the
      user since the connection was opened; `finTaken` says the peer's FIN has been counted, and `closes` how
      often the user has been told that the connection closes. */
  datatype State = State(
    phase: Phase, remoteIp: nat, localPort: nat, remotePort: nat, sndUna: nat, sndNxt: nat, rcvNxt: nat,
    ticks: nat, retries: nat, ackPending: bool, closePending: bool, isnCounter: nat,
    sent: seq<Segment>, delivered: seq<u8>, finTaken: bool, closes: nat)

  ghost predicate Words(s: State) {
    && s.remoteIp < MOD && s.localPort < 65536 && s.remotePort < 65536
    && s.sndUna < MOD && s.sndNxt < MOD && s.rcvNxt < MOD && s.isnCounter < MOD
  }

  /** Sequence numbers are 32-bit words. */
  function AddSeq(a: nat, n: nat): (r: nat)
    ensures r < MOD
  {
    (a + n) % MOD
  }

  function NextIsn(isn: nat): (r: nat)
    ensures r < MOD
  {
    (isn + 64000) % MOD
  }

  function LocalPort(isn: nat): (p: nat)
    ensures 49152 <= p < 65536
  {
    49152 + isn % 0x4000
  }

  // ----- sending -----

  function Emit(s: State, flags: nat, num: nat, data: seq<u8>): State
    requires flags < 256
  {
    if |data| > MSS then s
    else s.(sent := s.sent + [Segment(s.localPort, s.remotePort, num, if HasFlag(flags, ACK) then s.rcvNxt
      else 0, flags, data)])
  }

  /** A fresh connection with the next initial sequence number. */
  function Opening(s: State, dstIp: nat, dstPort: nat): State {
    var isn := NextIsn(s.isnCounter);
    State(SynSent, dstIp, LocalPort(s.isnCounter), dstPort, isn, AddSeq(isn, 1), 0, 0, 0, false, false, isn, s.sent,
      [], false, 0)
  }

  function Connect(s: State, dstIp: nat, dstPort: nat): State {
    if s.phase != Closed then s else Emit(Opening(s, dstIp, dstPort), SYN, Opening(s, dstIp, dstPort).sndUna, [])
  }

  /** Chunks of at most 1400 bytes, numbered one after the other. */
  function Send(s: State, data: seq<u8>): State
    decreases |data|
  {
    if data == [] then s
    else
      var n := if |data| > MSS then MSS else |data|;
      Send(Emit(s.(sndNxt := AddSeq(s.sndNxt, n)), PSH + ACK, s.sndNxt, data[..n]), data[n..])
  }

  lemma SendUnfolds(s: State, data: seq<u8>)
    ensures data == [] ==> Send(s, data) == s
    ensures data != [] ==>
      var n := if |data| > MSS then MSS else |data|;
      Send(s, data) == Send(Emit(s.(sndNxt := AddSeq(s.sndNxt, n)), PSH + ACK, s.sndNxt, data[..n]), data[n..])
  {
    hide HasFlag;
  }

  function Close(s: State): State {
    if s.phase == Established || s.phase == CloseWait then
      Emit(s.(sndNxt := AddSeq(s.sndNxt, 1), phase := if s.phase == Established then FinWait1 else LastAck), FIN
        + ACK, s.sndNxt, [])
    else s
  }

  function Retry(s: State): State {
    if s.phase != SynSent then s
    else if s.ticks + 1 < SYN_RETRY_TICKS then s.(ticks := s.ticks + 1)
    else if s.retries + 1 > SYN_RETRIES then s.(ticks := 0, retries := s.retries + 1, phase := Closed)
    else Emit(s.(ticks := 0, retries := s.retries + 1), SYN, s.sndUna, [])
  }

  function Tick(s: State): State {
    Retry(if s.closePending then Close(s.(closePending := false, ackPending := false))
          else if s.ackPending then Emit(s.(ackPending := false), ACK, s.sndNxt, [])
          else s)
  }

  function Abort(s: State): State {
    s.(phase := Closed, ackPending := false, closePending := false)
  }

  // ----- receiving -----

  /** A segment for this connection that passes the checks. */
  ghost predicate Accepted(s: State, myIp: nat, b: seq<u8>) {
    && s.phase != Closed && Checksum(s.remoteIp, myIp, b) == 0
    && Parse(b).Seg? && Parse(b).g.dstPort == s.localPort && Parse(b).g.srcPort == s.remotePort
  }

  function TakeAck(s: State, ack: nat): State {
    s.(sndUna := ack,
       phase := if s.phase == FinWait1 && ack == s.sndNxt then FinWait2
                else if s.phase == LastAck && ack == s.sndNxt then Closed
                else s.phase,
       closes := if s.phase == LastAck && ack == s.sndNxt then s.closes + 1 else s.closes)
  }

  function TakeData(s: State, data: seq<u8>): State {
    s.(rcvNxt := AddSeq(s.rcvNxt, |data|), delivered := s.delivered + data, ackPending := true)
  }

  function TakeFin(s: State): State {
    s.(rcvNxt := AddSeq(s.rcvNxt, 1), ackPending := true, finTaken := true,
       closePending := s.closePending || s.phase == Established,
       phase := if s.phase == Established then CloseWait
                else if s.phase == FinWait1 || s.phase == FinWait2 then Closed
                else s.phase,
       closes := if s.phase == Established || s.phase == FinWait1 || s.phase == FinWait2 then s.closes + 1
                 else s.closes)
  }

  /** The data, if it is the next in order, and then the FIN, if everything before it is here. */
  function TakePayload(s: State, g: Segment): State {
    if g.data != [] && g.seqNum != s.rcvNxt then s.(ackPending := true)
    else
      var s1 := if g.data != [] then TakeData(s, g.data) else s;
      if HasFlag(g.flags, FIN) && AddSeq(g.seqNum, |g.data|) == s1.rcvNxt then TakeFin(s1) else s1
  }

  function Take(s: State, g: Segment): State {
    if HasFlag(g.flags, RST) then s.(phase := Closed, closes := s.closes + 1)
    else if s.phase == SynSent then
      if HasFlag(g.flags, SYN) && HasFlag(g.flags, ACK) && g.ackNum == s.sndNxt
      then s.(sndUna := g.ackNum, rcvNxt := AddSeq(g.seqNum, 1), ackPending := true, phase := Established)
      else s
    else if HasFlag(g.flags, SYN) then s.(ackPending := true)
    else
      var s1 := if HasFlag(g.flags, ACK) then TakeAck(s, g.ackNum) else s;
      if s1.phase == Closed then s1 else TakePayload(s1, g)
  }

  ghost function Receive(s: State, myIp: nat, b: seq<u8>): State {
    if Accepted(s, myIp, b) then Take(s, Parse(b).g) else s
  }

  // ----- the peer -----

  /** What the peer of this connection may have sent: its initial sequence number is `irs` and its whole stream
      is `stream`. Its SYN has number irs; what carries data or the FIN carries a piece of the stream at its
      place, the FIN with the end of it; a bare acknowledgement, before or after the FIN, may have any number. */
  ghost predicate FromPeer(stream: seq<u8>, irs: nat, g: Segment) {
    if HasFlag(g.flags, RST) then true
    else if HasFlag(g.flags, SYN) then g.seqNum == irs
    else if g.data == [] && !HasFlag(g.flags, FIN) then true
    else exists off: nat :: Piece(stream, irs, g, off)
  }

  ghost predicate Piece(stream: seq<u8>, irs: nat, g: Segment, off: nat) {
    && off + |g.data| <= |stream| && g.seqNum == AddSeq(irs + 1, off) && g.data == stream[off..off + |g.data|]
    && (HasFlag(g.flags, FIN) ==> off + |g.data| == |stream|)
  }

  /** What the network hands over: anything that the checks refuse, or something the peer sent. */
  ghost predicate Genuine(s: State, myIp: nat, stream: seq<u8>, irs: nat, b: seq<u8>) {
    Accepted(s, myIp, b) ==> FromPeer(stream, irs, Parse(b).g)
  }

  /** The receiver's promise about the peer's stream. */
  ghost predicate Follows(s: State, stream: seq<u8>, irs: nat) {
    && |s.delivered| <= |stream| && s.delivered == stream[..|s.delivered|]
    && (s.finTaken ==> s.delivered == stream)
    && (s.phase == SynSent ==> s.delivered == [] && !s.finTaken)
    && (s.phase != SynSent && s.phase != Closed ==>
      s.rcvNxt == (irs + 1 + |s.delivered| + (if s.finTaken then 1 else 0)) % MOD)
    && (s.phase == CloseWait || s.phase == LastAck ==> s.finTaken)
  }

  /** Two places in a stream this short have the same number only when they are the same. */
  lemma SamePlace(base: nat, a: nat, b: nat)
    requires a < MOD && b < MOD && (base + a) % MOD == (base + b) % MOD
    ensures a == b
  {
    if a < b {
    } else if b < a {
    }
  }

  lemma AddMod(x: nat, n: nat)
    ensures (x % 0x1_0000_0000 + n) % 0x1_0000_0000 == (x + n) % 0x1_0000_0000
  {
  }

  /** How far the receiver is: the data and the FIN. */
  function Here(s: State): nat {
    |s.delivered| + (if s.finTaken then 1 else 0)
  }

  lemma TakeDataFollows(s: State, g: Segment, stream: seq<u8>, irs: nat, off: nat)
    requires Follows(s, stream, irs) && s.phase != SynSent && s.phase != Closed
    requires Piece(stream, irs, g, off) && |stream| < MOD - 2 && g.data != [] && g.seqNum == s.rcvNxt
    ensures Follows(TakeData(s, g.data), stream, irs) && !s.finTaken && |s.delivered| == off
  {
    SamePlace(irs + 1, off, Here(s));
    assert stream[..off] + stream[off..off + |g.data|] == stream[..off + |g.data|];
    AddMod(irs + 1 + off, |g.data|);
  }

  lemma TakeFinFollows(s: State, g: Segment, stream: seq<u8>, irs: nat, off: nat)
    requires Follows(s, stream, irs) && s.phase != SynSent && s.phase != Closed
    requires Piece(stream, irs, g, off) && |stream| < MOD - 2
    requires HasFlag(g.flags, FIN) && AddSeq(g.seqNum, |g.data|) == s.rcvNxt
    ensures Follows(TakeFin(s), stream, irs)
  {
    AddMod(irs + 1 + off, |g.data|);
    SamePlace(irs + 1, off + |g.data|, Here(s));
    assert stream[..|stream|] == stream;
    AddMod(irs + 1 + Here(s), 1);
  }

  lemma TakePayloadFollows(s: State, g: Segment, stream: seq<u8>, irs: nat, off: nat)
    requires Follows(s, stream, irs) && s.phase != SynSent && s.phase != Closed
    requires Piece(stream, irs, g, off) && |stream| < MOD - 2
    ensures Follows(TakePayload(s, g), stream, irs)
  {
    hide Piece, HasFlag, TakeFin;
    if g.data == [] || g.seqNum == s.rcvNxt {
      var s1 := if g.data != [] then TakeData(s, g.data) else s;
      if g.data != [] {
        TakeDataFollows(s, g, stream, irs, off);
      }
      if HasFlag(g.flags, FIN) && AddSeq(g.seqNum, |g.data|) == s1.rcvNxt {
        TakeFinFollows(s1, g, stream, irs, off);
      }
    }
  }

  lemma BareAckTaken(s: State, g: Segment)
    requires g.data == [] && !HasFlag(g.flags, FIN)
    ensures TakePayload(s, g) == s
  {
    hide HasFlag;
  }

  lemma AckFollows(s: State, ack: nat, stream: seq<u8>, irs: nat)
    requires Follows(s, stream, irs) && s.phase != SynSent && s.phase != Closed
    ensures Follows(TakeAck(s, ack), stream, irs) && TakeAck(s, ack).phase != SynSent
  {
    hide AddSeq;
  }

  /** A reset, an answer to the SYN, and a SYN that comes late. */
  lemma ControlFollows(s: State, g: Segment, stream: seq<u8>, irs: nat)
    requires Follows(s, stream, irs) && s.phase != Closed && FromPeer(stream, irs, g)
    requires HasFlag(g.flags, RST) || s.phase == SynSent || HasFlag(g.flags, SYN)
    ensures Follows(Take(s, g), stream, irs)
  {
    hide TakePayload, TakeAck, HasFlag, Piece;
  }

  /** Any segment of the peer keeps the promise, whenever and however often it arrives. */
  lemma TakeFollows(s: State, g: Segment, stream: seq<u8>, irs: nat)
    requires Follows(s, stream, irs) && s.phase != Closed && FromPeer(stream, irs, g) && |stream| < MOD - 2
    ensures Follows(Take(s, g), stream, irs)
  {
    hide TakePayload, TakeAck, HasFlag, Follows, Piece;
    if HasFlag(g.flags, RST) || s.phase == SynSent || HasFlag(g.flags, SYN) {
      ControlFollows(s, g, stream, irs);
    } else {
      var s1 := if HasFlag(g.flags, ACK) then TakeAck(s, g.ackNum) else s;
      AckFollows(s, g.ackNum, stream, irs);
      if g.data == [] && !HasFlag(g.flags, FIN) {
        BareAckTaken(s1, g);
      } else if s1.phase != Closed {
        var off: nat :| Piece(stream, irs, g, off);
        TakePayloadFollows(s1, g, stream, irs, off);
      }
    }
  }

  // ----- runs -----

  datatype Event = Arrive(b: seq<u8>) | Timer | Write(data: seq<u8>) | Shut | Drop

  ghost function Step(s: State, myIp: nat, e: Event): State {
    match e
    case Arrive(b) => Receive(s, myIp, b)
    case Timer => Tick(s)
    case Write(data) => if s.phase == Established then Send(s, data) else s
    case Shut => Close(s)
    case Drop => Abort(s)
  }

  lemma {:induction false} SendKeeps(s: State, data: seq<u8>)
    ensures Send(s, data) == s.(sndNxt := Send(s, data).sndNxt, sent := Send(s, data).sent)
    decreases |data|
  {
    if data != [] {
      var n := if |data| > MSS then MSS else |data|;
      SendKeeps(Emit(s.(sndNxt := AddSeq(s.sndNxt, n)), PSH + ACK, s.sndNxt, data[..n]), data[n..]);
    }
  }

  lemma CloseFollows(s: State, stream: seq<u8>, irs: nat)
    requires Follows(s, stream, irs)
    ensures Follows(Close(s), stream, irs)
  {
  }

  lemma TickFollows(s: State, stream: seq<u8>, irs: nat)
    requires Follows(s, stream, irs)
    ensures Follows(Tick(s), stream, irs)
  {
    hide Close, Retry, HasFlag;
    var s1 := s.(closePending := false, ackPending := false);
    CloseFollows(s1, stream, irs);
    RetryFollows(Close(s1), stream, irs);
    RetryFollows(Emit(s.(ackPending := false), ACK, s.sndNxt, []), stream, irs);
    RetryFollows(s, stream, irs);
  }

  lemma RetryFollows(s: State, stream: seq<u8>, irs: nat)
    requires Follows(s, stream, irs)
    ensures Follows(Retry(s), stream, irs)
  {
  }

  lemma StepFollows(s: State, myIp: nat, e: Event, stream: seq<u8>, irs: nat)
    requires Follows(s, stream, irs) && |stream| < MOD - 2
    requires e.Arrive? ==> Genuine(s, myIp, stream, irs, e.b)
    ensures Follows(Step(s, myIp, e), stream, irs)
  {
    hide Take, Tick, Close, Send, FromPeer;
    match e {
      case Arrive(b) =>
        if Accepted(s, myIp, b) {
          TakeFollows(s, Parse(b).g, stream, irs);
        }
      case Timer =>
        TickFollows(s, stream, irs);
      case Write(data) =>
        SendKeeps(s, data);
      case Shut =>
        CloseFollows(s, stream, irs);
      case Drop =>
    }
  }

  /** The state after a run, and that the network stayed genuine throughout. */
  ghost function Run(s: State, myIp: nat, es: seq<Event>): State {
    if es == [] then s else Step(Run(s, myIp, es[..|es| - 1]), myIp, es[|es| - 1])
  }

  ghost predicate GenuineRun(s: State, myIp: nat, stream: seq<u8>, irs: nat, es: seq<Event>) {
    forall k :: 0 <= k < |es| && es[k].Arrive? ==> Genuine(Run(s, myIp, es[..k]), myIp, stream, irs, es[k].b)
  }

  /** In every run after opening the connection, whatever is lost, repeated or out of order, the bytes delivered
      are a prefix of the peer's stream, rcvNxt counts them, and CLOSE_WAIT means that all of it is here. */
  lemma {:induction false} RunFollows(s0: State, dstIp: nat, dstPort: nat, myIp: nat, stream: seq<u8>, irs: nat,
      es: seq<Event>)
    requires s0.phase == Closed && |stream| < MOD - 2
    requires GenuineRun(Connect(s0, dstIp, dstPort), myIp, stream, irs, es)
    ensures Follows(Run(Connect(s0, dstIp, dstPort), myIp, es), stream, irs)
    decreases |es|
  {
    hide Step, Genuine;
    var s := Connect(s0, dstIp, dstPort);
    if es == [] {
      assert stream[..0] == [];
    } else {
      var n := |es| - 1;
      assert GenuineRun(s, myIp, stream, irs, es[..n]) by {
        forall k | 0 <= k < n && es[k].Arrive? ensures Genuine(Run(s, myIp, es[..n][..k]), myIp, stream, irs, es[k].b) {
          assert es[..n][..k] == es[..k];
        }
      }
      RunFollows(s0, dstIp, dstPort, myIp, stream, irs, es[..n]);
      StepFollows(Run(s, myIp, es[..n]), myIp, es[n], stream, irs);
    }
  }

  // ----- what is sent -----

  function Payload(gs: seq<Segment>): seq<u8> {
    if gs == [] then [] else Payload(gs[..|gs| - 1]) + gs[|gs| - 1].data
  }

  /** Each segment starts where the one before it ended. */
  ghost predicate Consecutive(gs: seq<Segment>, from: nat) {
    forall k :: 0 <= k < |gs| ==> gs[k].seqNum == AddSeq(from, |Payload(gs[..k])|) && 0 < |gs[k].data| <= MSS
  }

  lemma ConsecutiveNext(gs: seq<Segment>, from: nat, g: Segment)
    requires Consecutive(gs, from) && g.seqNum == AddSeq(from, |Payload(gs)|) && 0 < |g.data| <= MSS
    ensures Consecutive(gs + [g], from) && Payload(gs + [g]) == Payload(gs) + g.data
  {
    hide Payload, AddSeq;
    var r := gs + [g];
    PayloadLast(gs, g);
    forall k | 0 <= k < |r| ensures r[k].seqNum == AddSeq(from, |Payload(r[..k])|) && 0 < |r[k].data| <= MSS {
      if k < |gs| {
        assert r[..k] == gs[..k] && r[k] == gs[k];
      } else {
        assert r[..k] == gs && r[k] == g;
      }
    }
  }

  lemma PayloadLast(gs: seq<Segment>, g: Segment)
    ensures Payload(gs + [g]) == Payload(gs) + g.data
  {
    assert (gs + [g])[..|gs|] == gs;
  }

  /** A send adds segments that carry exactly the data, numbered without gaps from sndNxt on. */
  lemma {:induction false} SendCovers(s: State, data: seq<u8>, base: State,
      gs: seq<Segment>) returns (all: seq<Segment>)
    requires s.sent == base.sent + gs && Consecutive(gs, base.sndNxt)
    requires base.sndNxt < MOD && s.sndNxt == AddSeq(base.sndNxt, |Payload(gs)|)
    ensures Send(s, data).sent == base.sent + all && Consecutive(all, base.sndNxt) && Payload(all) == Payload(gs) + data
    ensures Send(s, data).sndNxt == AddSeq(base.sndNxt, |Payload(gs)| + |data|)
    decreases |data|
  {
    hide HasFlag, Consecutive, Payload;
    all := gs;
    if data == [] {
      assert Payload(gs) + data == Payload(gs);
    } else {
      var n := if |data| > MSS then MSS else |data|;
      var s1 := Emit(s.(sndNxt := AddSeq(s.sndNxt, n)), PSH + ACK, s.sndNxt, data[..n]);
      var g := s1.sent[|s1.sent| - 1];
      ConsecutiveNext(gs, base.sndNxt, g);
      AddMod(base.sndNxt + |Payload(gs)|, n);
      assert s.sent + [g] == base.sent + (gs + [g]);
      all := SendCovers(s1, data[n..], base, gs + [g]);
      assert Payload(gs) + data[..n] + data[n..] == Payload(gs) + data;
    }
  }
}

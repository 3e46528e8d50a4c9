/** What a TCP connection delivers, and not only that it delivers nothing wrong: every segment that comes in its
    turn, and in a run exactly the segments that have come in order. */
module TcpProgress {
  import opened Bytes
  import opened TcpSegment
  import opened TcpSpec

  // ----- single segments; the flags are FIN 1, SYN 2, RST 4, PSH 8 and ACK 16 -----

  /** A segment that is sent to this connection is accepted as what it is. */
  lemma SentIsAccepted(s: State, myIp: nat, g: Segment)
    requires s.phase != Closed && InRange(g) && g.dstPort == s.localPort && g.srcPort == s.remotePort
    ensures Accepted(s, myIp, Encode(g, s.remoteIp, myIp)) && Parse(Encode(g, s.remoteIp, myIp)) == Seg(g)
  {
    SentIsReceived(g, s.remoteIp, myIp);
    SameBothWays(s.remoteIp, myIp, Encode(g, s.remoteIp, myIp));
    hide Checksum, Encode, Parse;
  }

  lemma SameBothWays(a: nat, b: nat, seg: seq<u8>)
    ensures Checksum(a, b, seg) == Checksum(b, a, seg)
  {
  }

  lemma Flags(f: nat)
    ensures HasFlag(f, FIN) <==> f % 2 == 1
    ensures HasFlag(f, SYN) <==> f / 2 % 2 == 1
    ensures HasFlag(f, RST) <==> f / 4 % 2 == 1
    ensures HasFlag(f, ACK) <==> f / 16 % 2 == 1
  {
  }

  /** The answer to the SYN opens the connection. */
  lemma SynAckEstablishes(s: State, g: Segment)
    requires s.phase == SynSent && g.ackNum == s.sndNxt
    requires g.flags / 2 % 2 == 1 && g.flags / 16 % 2 == 1 && g.flags / 4 % 2 == 0
    ensures Take(s, g) == s.(sndUna := g.ackNum, rcvNxt := (g.seqNum + 1) % 0x1_0000_0000, ackPending := true,
                             phase := Established)
  {
  }

  /** Data with the number that is expected is delivered, a FIN behind it is counted, and both are acknowledged. */
  lemma DataIsDelivered(s: State, g: Segment)
    requires s.phase == Established || s.phase == FinWait1 || s.phase == FinWait2
    requires g.flags / 4 % 2 == 0 && g.flags / 2 % 2 == 0 && g.data != [] && g.seqNum == s.rcvNxt
    ensures var r := Take(s, g);
      && r.delivered == s.delivered + g.data && r.ackPending
      && r.rcvNxt == (s.rcvNxt + |g.data| + g.flags % 2) % 0x1_0000_0000
      && (r.finTaken <==> s.finTaken || g.flags % 2 == 1)
  {
    hide HasFlag;
    Flags(g.flags);
    AddMod(s.rcvNxt + |g.data|, 1);
  }

  /** Data with any other number is not, even if it contains what is expected; it is acknowledged all the same. */
  lemma OutOfOrder(s: State, g: Segment)
    requires s.phase == Established || s.phase == FinWait1 || s.phase == FinWait2
    requires g.flags / 4 % 2 == 0 && g.flags / 2 % 2 == 0 && g.data != [] && g.seqNum != s.rcvNxt
    ensures var r := Take(s, g); r.delivered == s.delivered && r.rcvNxt == s.rcvNxt && r.ackPending
  {
  }

  /** The peer's FIN in its turn leads from an open connection to CLOSE_WAIT. */
  lemma FinIsTaken(s: State, g: Segment)
    requires s.phase == Established && s.rcvNxt < 0x1_0000_0000
    requires g.flags / 4 % 2 == 0 && g.flags / 2 % 2 == 0 && g.flags % 2 == 1 && g.seqNum == s.rcvNxt
    ensures var r := Take(s, g);
      && r.phase == CloseWait && r.finTaken && r.closePending && r.delivered == s.delivered + g.data
      && r.rcvNxt == (s.rcvNxt + |g.data| + 1) % 0x1_0000_0000 && r.closes == s.closes + 1
  {
    hide HasFlag;
    Flags(g.flags);
    AddMod(s.rcvNxt + |g.data|, 1);
    assert s.delivered + [] == s.delivered;
  }

  // ----- runs -----

  /** The segments a peer cuts its stream into, and sends again as often as it likes: one after the other from
      number irs + 1 on, each with data, the last with the FIN and perhaps without data. */
  ghost predicate Cut(pieces: seq<Segment>, irs: nat) {
    && pieces != [] && |Payload(pieces)| < MOD - 2
    && forall k :: 0 <= k < |pieces| ==> GoodPiece(pieces, irs, k)
  }

  ghost predicate GoodPiece(pieces: seq<Segment>, irs: nat, k: nat)
    requires k < |pieces|
  {
    && pieces[k].seqNum == (irs + 1 + |Payload(pieces[..k])|) % MOD
    && (k + 1 < |pieces| ==> pieces[k].data != [])
  }

  /** These bytes bring this connection piece k, with any acknowledgement. */
  ghost predicate Brings(s: State, myIp: nat, b: seq<u8>, pieces: seq<Segment>, k: nat)
    requires k < |pieces|
  {
    && Addressed(s, myIp, b)
    && var g := Parse(b).g;
      && g.seqNum == pieces[k].seqNum && g.data == pieces[k].data
      && g.flags / 4 % 2 == 0 && g.flags / 2 % 2 == 0 && (g.flags % 2 == 1 <==> k + 1 == |pieces|)
  }

  /** They pass the checks and are for this connection. */
  ghost predicate Addressed(s: State, myIp: nat, b: seq<u8>) {
    && Checksum(s.remoteIp, myIp, b) == 0
    && Parse(b).Seg? && Parse(b).g.dstPort == s.localPort && Parse(b).g.srcPort == s.remotePort
  }

  /** What may happen: the timer, writing, and any bytes that do not pass the checks or bring a piece, a bare
      acknowledgement or a late SYN. The user does not close or abort, and the peer does not reset. */
  ghost predicate Friendly(s: State, myIp: nat, pieces: seq<Segment>, e: Event) {
    match e
    case Timer => true
    case Write(_) => true
    case Shut => false
    case Drop => false
    case Arrive(b) =>
      Addressed(s, myIp, b) ==>
        || (exists k: nat :: k < |pieces| && Brings(s, myIp, b, pieces, k))
        || (Parse(b).g.flags / 4 % 2 == 0
            && (Parse(b).g.flags / 2 % 2 == 1 || (Parse(b).g.data == [] && Parse(b).g.flags % 2 == 0)))
  }

  /** How many pieces have come in order. */
  ghost function InOrder(s: State, myIp: nat, pieces: seq<Segment>, es: seq<Event>): (n: nat)
    ensures n <= |pieces|
  {
    if es == [] then 0
    else
      var n, e := InOrder(s, myIp, pieces, es[..|es| - 1]), es[|es| - 1];
      if n < |pieces| && e.Arrive? && Brings(s, myIp, e.b, pieces, n) then n + 1 else n
  }

  /** The first n pieces have been delivered; the connection is open until the last of them. */
  ghost predicate Has(s: State, pieces: seq<Segment>, irs: nat, n: nat) {
    && n <= |pieces| && s.delivered == Payload(pieces[..n]) && (s.finTaken <==> n == |pieces|)
    && (n < |pieces| ==> s.phase == Established && !s.closePending)
    && (n == |pieces| ==> s.phase == CloseWait || s.phase == LastAck || s.phase == Closed)
    && s.rcvNxt == (irs + 1 + |Payload(pieces[..n])| + (if n == |pieces| then 1 else 0)) % MOD
  }

  lemma {:induction false} PayloadGrows(gs: seq<Segment>, k: nat, n: nat)
    requires k <= n <= |gs|
    ensures |Payload(gs[..k])| <= |Payload(gs[..n])|
    decreases n
  {
    if k < n {
      PayloadGrows(gs, k, n - 1);
      assert gs[..n][..n - 1] == gs[..n - 1];
    }
  }

  lemma PayloadStep(gs: seq<Segment>, k: nat)
    requires k < |gs|
    ensures Payload(gs[..k + 1]) == Payload(gs[..k]) + gs[k].data
  {
    assert gs[..k + 1][..k] == gs[..k];
  }

  /** A piece has the number that is expected only when it is its turn. */
  lemma OnlyInTurn(pieces: seq<Segment>, irs: nat, n: nat, k: nat)
    requires Cut(pieces, irs) && k < |pieces| && n <= |pieces|
    requires pieces[k].seqNum == (irs + 1 + |Payload(pieces[..n])| + (if n == |pieces| then 1 else 0)) % MOD
    ensures n == k
  {
    hide Payload;
    assert GoodPiece(pieces, irs, k);
    assert n < |pieces| ==> GoodPiece(pieces, irs, n);
    assert pieces[..|pieces|] == pieces;
    PayloadGrows(pieces, k, |pieces|);
    PayloadGrows(pieces, n, |pieces|);
    SamePlace(irs + 1, |Payload(pieces[..k])|, |Payload(pieces[..n])| + (if n == |pieces| then 1 else 0));
    if k < n {
      PayloadStep(pieces, k);
      PayloadGrows(pieces, k + 1, n);
    } else if n < k {
      PayloadStep(pieces, n);
      PayloadGrows(pieces, n + 1, k);
    }
  }

  /** A piece that comes in its turn is delivered. */
  lemma PieceTaken(s: State, pieces: seq<Segment>, irs: nat, n: nat, g: Segment)
    requires Cut(pieces, irs) && Has(s, pieces, irs, n) && n < |pieces|
    requires g.seqNum == pieces[n].seqNum && g.data == pieces[n].data
    requires g.flags / 4 % 2 == 0 && g.flags / 2 % 2 == 0 && (g.flags % 2 == 1 <==> n + 1 == |pieces|)
    ensures Has(Take(s, g), pieces, irs, n + 1) && (n + 1 == |pieces| ==> Take(s, g).phase == CloseWait)
  {
    hide Payload;
    assert GoodPiece(pieces, irs, n);
    PayloadStep(pieces, n);
    assert s.rcvNxt == g.seqNum;
    var p := |Payload(pieces[..n])|;
    AddMod(irs + 1 + p, |g.data|);
    AddMod(irs + 1 + p, |g.data| + 1);
    if g.flags % 2 == 1 {
      FinIsTaken(s, g);
    } else {
      DataIsDelivered(s, g);
      StaysOpen(s, g);
    }
  }

  lemma StaysOpen(s: State, g: Segment)
    requires s.phase == Established && g.flags / 4 % 2 == 0 && g.flags % 2 == 0
    ensures Take(s, g).phase == Established && Take(s, g).closePending == s.closePending
  {
  }

  /** Any other changes nothing that has been delivered. */
  lemma OtherIgnored(s: State, pieces: seq<Segment>, irs: nat, n: nat, k: nat, g: Segment)
    requires Cut(pieces, irs) && Has(s, pieces, irs, n) && k < |pieces| && k != n && s.phase != Closed
    requires g.seqNum == pieces[k].seqNum && g.data == pieces[k].data
    requires g.flags / 4 % 2 == 0 && g.flags / 2 % 2 == 0 && (g.flags % 2 == 1 <==> k + 1 == |pieces|)
    ensures Has(Take(s, g), pieces, irs, n)
  {
    hide Payload;
    if g.seqNum == s.rcvNxt {
      OnlyInTurn(pieces, irs, n, k);
    }
    assert GoodPiece(pieces, irs, k);
    assert g.seqNum < MOD;
  }

  /** Nor does a bare acknowledgement or a late SYN. */
  lemma BareIgnored(s: State, pieces: seq<Segment>, irs: nat, n: nat, g: Segment)
    requires Has(s, pieces, irs, n) && s.phase != Closed && g.flags / 4 % 2 == 0
    requires g.flags / 2 % 2 == 1 || (g.data == [] && g.flags % 2 == 0)
    ensures Has(Take(s, g), pieces, irs, n)
  {
    hide Payload;
  }

  lemma TickHas(s: State, pieces: seq<Segment>, irs: nat, n: nat)
    requires Has(s, pieces, irs, n)
    ensures Has(Tick(s), pieces, irs, n)
  {
    hide Payload, HasFlag;
  }

  ghost predicate SameEnds(s: State, r: State) {
    r.remoteIp == s.remoteIp && r.localPort == s.localPort && r.remotePort == s.remotePort
  }

  lemma StepEnds(s: State, myIp: nat, e: Event)
    ensures SameEnds(s, Step(s, myIp, e))
  {
    hide HasFlag, Accepted, AddSeq, Parse;
    if e.Write? {
      SendKeeps(s, e.data);
    }
  }

  lemma StepHas(s: State, myIp: nat, pieces: seq<Segment>, irs: nat, n: nat, e: Event)
    requires Cut(pieces, irs) && Has(s, pieces, irs, n) && Friendly(s, myIp, pieces, e)
    ensures Has(Step(s, myIp, e), pieces, irs,
      if n < |pieces| && e.Arrive? && Brings(s, myIp, e.b, pieces, n) then n + 1 else n)
    ensures n + 1 == |pieces| && e.Arrive? && Brings(s, myIp, e.b, pieces, n) ==> Step(s, myIp, e).phase == CloseWait
  {
    hide Has, Cut, Take, Tick, Payload, Checksum, Parse;
    match e {
      case Timer =>
        TickHas(s, pieces, irs, n);
      case Write(data) =>
        SendKeeps(s, data);
        SameHas(s, Step(s, myIp, e), pieces, irs, n);
      case Arrive(b) =>
        ClosedHas(s, pieces, irs, n);
        if Accepted(s, myIp, b) {
          var g := Parse(b).g;
          if n < |pieces| && Brings(s, myIp, b, pieces, n) {
            PieceTaken(s, pieces, irs, n, g);
          } else if exists k: nat :: k < |pieces| && Brings(s, myIp, b, pieces, k) {
            var k: nat :| k < |pieces| && Brings(s, myIp, b, pieces, k);
            OtherIgnored(s, pieces, irs, n, k, g);
          } else {
            BareIgnored(s, pieces, irs, n, g);
          }
        }
    }
  }

  /** A connection that is closed has everything. */
  lemma ClosedHas(s: State, pieces: seq<Segment>, irs: nat, n: nat)
    requires Has(s, pieces, irs, n)
    ensures s.phase == Closed ==> n == |pieces|
  {
  }

  lemma SameHas(s: State, r: State, pieces: seq<Segment>, irs: nat, n: nat)
    requires Has(s, pieces, irs, n) && r == s.(sndNxt := r.sndNxt, sent := r.sent)
    ensures Has(r, pieces, irs, n)
  {
  }

  lemma EndsMatter(s: State, r: State, myIp: nat, pieces: seq<Segment>, e: Event)
    requires SameEnds(s, r) && Friendly(s, myIp, pieces, e)
    ensures Friendly(r, myIp, pieces, e)
    ensures forall k: nat :: k < |pieces| && e.Arrive? ==>
      Brings(r, myIp, e.b, pieces, k) == Brings(s, myIp, e.b, pieces, k)
  {
    hide Checksum, Parse;
    if e.Arrive? {
      assert Addressed(r, myIp, e.b) == Addressed(s, myIp, e.b);
      if exists k: nat :: k < |pieces| && Brings(s, myIp, e.b, pieces, k) {
        var k: nat :| k < |pieces| && Brings(s, myIp, e.b, pieces, k);
        assert Brings(r, myIp, e.b, pieces, k);
      }
    }
  }

  /** On an open connection, whatever is lost, repeated or out of order, exactly the pieces that have come in order
      have been delivered, and the end of the stream is known exactly when all have come. */
  lemma {:induction false} RunDelivers(s: State, myIp: nat, pieces: seq<Segment>, irs: nat, es: seq<Event>)
    requires Cut(pieces, irs) && Has(s, pieces, irs, 0)
    requires forall k :: 0 <= k < |es| ==> Friendly(s, myIp, pieces, es[k])
    ensures SameEnds(s, Run(s, myIp, es))
    ensures Has(Run(s, myIp, es), pieces, irs, InOrder(s, myIp, pieces, es))
    ensures InOrder(s, myIp, pieces, es) == |pieces| ==>
      exists m :: 0 <= m <= |es| && Run(s, myIp, es[..m]).phase == CloseWait
    decreases |es|
  {
    hide Step, Has, Cut, Friendly, Brings;
    if es != [] {
      var n := |es| - 1;
      RunDelivers(s, myIp, pieces, irs, es[..n]);
      var r := Run(s, myIp, es[..n]);
      EndsMatter(s, r, myIp, pieces, es[n]);
      StepHas(r, myIp, pieces, irs, InOrder(s, myIp, pieces, es[..n]), es[n]);
      StepEnds(r, myIp, es[n]);
      assert es[..|es|] == es;
      if InOrder(s, myIp, pieces, es[..n]) == |pieces| {
        var m :| 0 <= m <= n && Run(s, myIp, es[..n][..m]).phase == CloseWait;
        assert es[..n][..m] == es[..m];
      }
    } else {
      NotEmpty(pieces, irs);
    }
  }

  /** Events at increasing places that bring the pieces one after the other make all of them come in order. */
  lemma {:induction false} AllInOrder(s: State, myIp: nat, pieces: seq<Segment>, es: seq<Event>, at: seq<nat>, n: nat)
    requires |at| == |pieces| && n <= |es| && forall j, k :: 0 <= j < k < |at| ==> at[j] < at[k]
    requires forall k :: 0 <= k < |at| ==>
      at[k] < |es| && es[at[k]].Arrive? && Brings(s, myIp, es[at[k]].b, pieces, k)
    ensures forall k :: 0 <= k < |at| && at[k] < n ==> InOrder(s, myIp, pieces, es[..n]) > k
    decreases n
  {
    hide Brings;
    if n > 0 {
      AllInOrder(s, myIp, pieces, es, at, n - 1);
      assert es[..n][..n - 1] == es[..n - 1];
      forall k | 0 <= k < |at| && at[k] < n ensures InOrder(s, myIp, pieces, es[..n]) > k {
        if at[k] == n - 1 && k > 0 {
          assert at[k - 1] < n - 1;
        }
      }
    }
  }

  /** From the answer to the SYN on: when every piece has come in order, the user has the whole stream, the
      connection knows that it is all, and it has been through CLOSE_WAIT. */
  lemma WholeStream(s: State, myIp: nat, g: Segment, pieces: seq<Segment>, es: seq<Event>, at: seq<nat>)
    requires s.phase == SynSent && s.delivered == [] && !s.finTaken && !s.closePending
    requires g.ackNum == s.sndNxt && g.flags / 2 % 2 == 1 && g.flags / 16 % 2 == 1 && g.flags / 4 % 2 == 0
    requires Cut(pieces, g.seqNum) && forall k :: 0 <= k < |es| ==> Friendly(s, myIp, pieces, es[k])
    requires |at| == |pieces| && forall j, k :: 0 <= j < k < |at| ==> at[j] < at[k]
    requires forall k :: 0 <= k < |at| ==>
      at[k] < |es| && es[at[k]].Arrive? && Brings(s, myIp, es[at[k]].b, pieces, k)
    ensures var r := Run(Take(s, g), myIp, es); r.delivered == Payload(pieces) && r.finTaken
    ensures exists m :: 0 <= m <= |es| && Run(Take(s, g), myIp, es[..m]).phase == CloseWait
  {
    hide Run, Cut, Friendly, Brings, InOrder;
    var s1 := Take(s, g);
    SynAckEstablishes(s, g);
    assert pieces[..0] == [] && Payload([]) == [];
    NotEmpty(pieces, g.seqNum);
    assert Has(s1, pieces, g.seqNum, 0);
    assert SameEnds(s, s1);
    forall k | 0 <= k < |es| ensures Friendly(s1, myIp, pieces, es[k]) {
      EndsMatter(s, s1, myIp, pieces, es[k]);
    }
    forall k | 0 <= k < |at| ensures Brings(s1, myIp, es[at[k]].b, pieces, k) {
      EndsMatter(s, s1, myIp, pieces, es[at[k]]);
    }
    RunDelivers(s1, myIp, pieces, g.seqNum, es);
    AllInOrder(s1, myIp, pieces, es, at, |es|);
    assert es[..|es|] == es && pieces[..|pieces|] == pieces;
    assert at[|at| - 1] < |es|;
  }

  lemma NotEmpty(pieces: seq<Segment>, irs: nat)
    requires Cut(pieces, irs)
    ensures |pieces| > 0
  {
  }

  // ----- what is sent -----

  /** Opening sends one SYN, numbered 64000 after the last opening, from a port of the dynamic range. */
  lemma ConnectSends(s: State, dstIp: nat, dstPort: nat)
    requires s.phase == Closed
    ensures var r, isn := Connect(s, dstIp, dstPort), (s.isnCounter + 64000) % 0x1_0000_0000;
      && r.phase == SynSent && r.remoteIp == dstIp && r.remotePort == dstPort && r.isnCounter == isn
      && r.localPort == 49152 + s.isnCounter % 16384 && r.delivered == [] && !r.finTaken && !r.closePending
      && r.sndNxt == (isn + 1) % 0x1_0000_0000
      && r.sent == s.sent + [Segment(r.localPort, dstPort, isn, 0, 2, [])]
  {
  }

  /** Data goes out with PSH and ACK, between the two ends, acknowledging all that is here. */
  lemma {:induction false} SendAddresses(s: State, data: seq<u8>)
    ensures |s.sent| <= |Send(s, data).sent| && Send(s, data).sent[..|s.sent|] == s.sent
    ensures forall k :: |s.sent| <= k < |Send(s, data).sent| ==>
      var g := Send(s, data).sent[k];
      g.srcPort == s.localPort && g.dstPort == s.remotePort && g.flags == 24 && g.ackNum == s.rcvNxt
    decreases |data|
  {
    if data != [] {
      var n := if |data| > MSS then MSS else |data|;
      var s1 := Emit(s.(sndNxt := AddSeq(s.sndNxt, n)), PSH + ACK, s.sndNxt, data[..n]);
      SendAddresses(s1, data[n..]);
      var last := Send(s, data).sent;
      assert last == Send(s1, data[n..]).sent;
      assert last[..|s1.sent|] == s1.sent && s1.sent[..|s.sent|] == s.sent;
      assert last[|s.sent|] == s1.sent[|s.sent|];
    }
  }

  /** Closing sends a FIN behind everything that was sent. */
  lemma CloseSends(s: State)
    ensures var r := Close(s);
      if s.phase == Established || s.phase == CloseWait then
        r.phase == (if s.phase == Established then FinWait1 else LastAck) && r.sndNxt == (s.sndNxt + 1) % 0x1_0000_0000
          && r.sent == s.sent + [Segment(s.localPort, s.remotePort, s.sndNxt, s.rcvNxt, 17, [])]
      else r == s
  {
  }

  /** What such a connection sends and closes behind is a stream cut as its peer needs it. */
  lemma SentIsCut(gs: seq<Segment>, irs: nat, fin: Segment)
    requires Consecutive(gs, (irs + 1) % MOD) && |Payload(gs)| < MOD - 2
    requires fin.data == [] && fin.seqNum == (irs + 1 + |Payload(gs)|) % MOD
    ensures Cut(gs + [fin], irs) && Payload(gs + [fin]) == Payload(gs)
  {
    hide Payload, GoodPiece, Consecutive;
    PayloadLast(gs, fin);
    forall k | 0 <= k < |gs + [fin]| ensures GoodPiece(gs + [fin], irs, k) {
      SentPiece(gs, irs, fin, k);
    }
  }

  lemma SentPiece(gs: seq<Segment>, irs: nat, fin: Segment, k: nat)
    requires Consecutive(gs, (irs + 1) % MOD) && k <= |gs|
    requires fin.seqNum == (irs + 1 + |Payload(gs)|) % MOD
    ensures GoodPiece(gs + [fin], irs, k)
  {
    hide Payload, Consecutive, AddSeq;
    var pieces := gs + [fin];
    assert pieces[..k] == gs[..k];
    if k < |gs| {
      SentNumber(gs, (irs + 1) % MOD, k);
      NumberFrom(irs, |Payload(gs[..k])|);
    } else {
      assert gs[..k] == gs;
    }
  }

  lemma SentNumber(gs: seq<Segment>, from: nat, k: nat)
    requires Consecutive(gs, from) && k < |gs|
    ensures gs[k].seqNum == AddSeq(from, |Payload(gs[..k])|) && gs[k].data != []
  {
    hide Payload, AddSeq;
  }

  lemma NumberFrom(irs: nat, p: nat)
    ensures AddSeq((irs + 1) % MOD, p) == (irs + 1 + p) % MOD
  {
    AddMod(irs + 1, p);
  }
}

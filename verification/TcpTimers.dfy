/** What the timer of a TCP connection achieves, and how often its user is told that it closes. */
module TcpTimers {
  import opened Bytes
  import opened TcpSegment
  import opened TcpSpec

  // ----- opening a connection nobody answers -----

  function Timers(es: seq<Event>): nat {
    if es == [] then 0 else Timers(es[..|es| - 1]) + (if es[|es| - 1] == Timer then 1 else 0)
  }

  /** No segment is accepted, and the user does not abort. */
  ghost predicate Unanswered(s: State, myIp: nat, es: seq<Event>) {
    forall k :: 0 <= k < |es| ==>
      es[k] != Drop && (es[k].Arrive? ==> !Accepted(Run(s, myIp, es[..k]), myIp, es[k].b))
  }

  /** The SYN a connection is opened with. */
  function Syn(s: State): Segment {
    Segment(s.localPort, s.remotePort, s.sndUna, 0, SYN, [])
  }

  function Repeat(g: Segment, n: nat): seq<Segment> {
    if n == 0 then [] else Repeat(g, n - 1) + [g]
  }

  /** After n timer events without an answer: the SYN has been repeated every 50, five times; at the 300th the
      connection is closed, and stays so. */
  function Waiting(s: State, n: nat): State {
    if n < 300 then s.(ticks := n % 50, retries := n / 50, sent := s.sent + Repeat(Syn(s), n / 50))
    else s.(ticks := 0, retries := 6, phase := Closed, sent := s.sent + Repeat(Syn(s), 5))
  }

  lemma SynIsNoAck()
    ensures !HasFlag(SYN, ACK) && SYN < 256
  {
  }

  lemma WaitingTick(s: State, n: nat)
    requires s.phase == SynSent && s.ticks == 0 && s.retries == 0 && !s.ackPending && !s.closePending
    ensures Tick(Waiting(s, n)) == Waiting(s, n + 1)
  {
    hide HasFlag, Close;
    SynIsNoAck();
    var w := Waiting(s, n);
    if n < 299 && n % 50 == 49 {
      assert n / 50 + 1 == (n + 1) / 50 && (n + 1) % 50 == 0;
      assert s.sent + Repeat(Syn(s), n / 50) + [Syn(s)] == s.sent + Repeat(Syn(s), (n + 1) / 50);
    } else if n < 299 {
      assert n / 50 == (n + 1) / 50 && n % 50 + 1 == (n + 1) % 50;
    }
  }

  lemma WaitingElse(s: State, n: nat, myIp: nat, e: Event)
    requires s.phase == SynSent && e != Timer && e != Drop
    requires e.Arrive? ==> !Accepted(Waiting(s, n), myIp, e.b)
    ensures Step(Waiting(s, n), myIp, e) == Waiting(s, n)
  {
    hide Accepted, Take;
  }

  /** Whatever else is done, a connection that is opened and never answered sends its SYN six times in all and
      closes with the 300th timer event. */
  lemma {:induction false} GivesUp(s: State, myIp: nat, es: seq<Event>)
    requires s.phase == SynSent && s.ticks == 0 && s.retries == 0 && !s.ackPending && !s.closePending
    requires Unanswered(s, myIp, es)
    ensures Run(s, myIp, es) == Waiting(s, Timers(es))
    decreases |es|
  {
    hide Step, Accepted, Waiting;
    if es == [] {
      NoWait(s);
    } else {
      var n := |es| - 1;
      assert Unanswered(s, myIp, es[..n]) by {
        forall k | 0 <= k < n
          ensures es[k].Arrive? ==> !Accepted(Run(s, myIp, es[..n][..k]), myIp, es[k].b)
        {
          assert es[..n][..k] == es[..k];
        }
      }
      GivesUp(s, myIp, es[..n]);
      if es[n] == Timer {
        WaitingTick(s, Timers(es[..n]));
        TimerIsTick(Waiting(s, Timers(es[..n])), myIp);
      } else {
        WaitingElse(s, Timers(es[..n]), myIp, es[n]);
      }
    }
  }

  lemma NoWait(s: State)
    requires s.ticks == 0 && s.retries == 0
    ensures Waiting(s, 0) == s
  {
    assert s.sent + [] == s.sent;
  }

  lemma TimerIsTick(s: State, myIp: nat)
    ensures Step(s, myIp, Timer) == Tick(s)
  {
  }

  // ----- what is due -----

  /** The peer's FIN is answered by one FIN, with the next timer event. */
  lemma CloseAnswers(s: State)
    requires s.phase == CloseWait && s.closePending
    ensures var r := Tick(s);
      && r.phase == LastAck && !r.closePending && !r.ackPending && r.sndNxt == AddSeq(s.sndNxt, 1)
      && r.sent == s.sent + [Segment(s.localPort, s.remotePort, s.sndNxt, s.rcvNxt, FIN + ACK, [])]
  {
  }

  /** Something is sent that acknowledges all that has been taken. */
  ghost predicate Acknowledged(s: State, r: State) {
    |r.sent| > |s.sent| && HasFlag(r.sent[|s.sent|].flags, ACK) && r.sent[|s.sent|].ackNum == s.rcvNxt
  }

  /** A due acknowledgement goes out with the next timer event, except that it is forgotten when a close is
      pending too and can no longer be made, because the user has closed in the meantime. */
  lemma TickAcknowledges(s: State)
    requires s.ackPending && s.phase != SynSent
    ensures !Tick(s).ackPending
    ensures Acknowledged(s, Tick(s)) <==> !s.closePending || s.phase == Established || s.phase == CloseWait
  {
  }

  // ----- the close callback -----

  /** Told once when the peer's FIN arrives first, and once when the connection is gone. */
  ghost predicate Told(s: State) {
    && s.closes <= 2 && (s.phase == CloseWait || s.phase == LastAck ==> s.closes <= 1)
    && (s.phase == SynSent || s.phase == Established || s.phase == FinWait1 || s.phase == FinWait2 ==> s.closes == 0)
  }

  lemma TakeTold(s: State, g: Segment)
    requires Told(s) && s.phase != Closed
    ensures Told(Take(s, g))
  {
    hide HasFlag, TakePayload, TakeAck;
    AckTold(s, g.ackNum);
    var s1 := if HasFlag(g.flags, ACK) then TakeAck(s, g.ackNum) else s;
    PayloadTold(s1, g);
  }

  lemma AckTold(s: State, ack: nat)
    requires Told(s)
    ensures Told(TakeAck(s, ack))
  {
  }

  lemma PayloadTold(s: State, g: Segment)
    requires Told(s)
    ensures Told(TakePayload(s, g))
  {
    hide HasFlag;
  }

  lemma StepTold(s: State, myIp: nat, e: Event)
    requires Told(s)
    ensures Told(Step(s, myIp, e))
  {
    hide Take, Told, HasFlag;
    match e {
      case Arrive(b) =>
        if Accepted(s, myIp, b) {
          TakeTold(s, Parse(b).g);
        }
      case Timer =>
        TickTold(s);
      case Write(data) =>
        SendKeeps(s, data);
        SameTold(s, Send(s, data));
      case Shut =>
        CloseTold(s);
      case Drop =>
        DropTold(s);
    }
  }

  lemma SameTold(s: State, r: State)
    requires Told(s) && r.phase == s.phase && r.closes == s.closes
    ensures Told(r)
  {
  }

  lemma DropTold(s: State)
    requires Told(s)
    ensures Told(Abort(s))
  {
  }

  lemma CloseTold(s: State)
    requires Told(s)
    ensures Told(Close(s))
  {
    hide HasFlag;
  }

  lemma TickTold(s: State)
    requires Told(s)
    ensures Told(Tick(s))
  {
    hide HasFlag;
  }

  /** Whatever arrives, the close callback is called at most twice between two openings. */
  lemma {:induction false} AtMostTwice(s: State, myIp: nat, es: seq<Event>)
    requires Told(s)
    ensures Told(Run(s, myIp, es))
    decreases |es|
  {
    hide Told, Step;
    if es != [] {
      AtMostTwice(s, myIp, es[..|es| - 1]);
      StepTold(Run(s, myIp, es[..|es| - 1]), myIp, es[|es| - 1]);
    }
  }

  /** And it is called twice in every passive close: for the peer's FIN, and when ours is acknowledged. */
  lemma PassiveCloseTellsTwice(s: State, fin: Segment, ack: Segment)
    requires s.phase == Established && s.closes == 0
    requires fin.flags == FIN + ACK && fin.data == [] && fin.seqNum == s.rcvNxt < MOD
    requires ack.flags == ACK && ack.data == [] && ack.ackNum == AddSeq(s.sndNxt, 1)
    ensures var r := Take(Tick(Take(s, fin)), ack); r.phase == Closed && r.closes == 2
  {
    var s1 := Take(s, fin);
    assert s1.phase == CloseWait && s1.closePending && s1.closes == 1;
    CloseAnswers(s1);
  }
}

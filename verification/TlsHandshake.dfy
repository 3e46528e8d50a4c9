/** That a handshake with a correct server succeeds: its messages, as they are built, are read for what they say,
    and the connection becomes ready. */
module TlsHandshake {
  import opened Bytes
  import opened TwosComplement
  import opened Gcm
  import opened TlsSpec
  import opened TlsProofs

  // ----- the messages as a server builds them -----

  /** A ServerHello: version 3.3, 32 random bytes, a session id, a suite, no compression, extensions. */
  function HelloBody(random: seq<u8>, sid: seq<u8>, suite: nat, extensions: seq<u8>): seq<u8>
    requires |sid| < 256 && suite < 65536
  {
    [3, 3] + random + [|sid| as u8] + sid + [(suite / 256) as u8, (suite % 256) as u8, 0] + extensions
  }

  /** A ServerKeyExchange: a named curve, x25519, a key of 32 bytes, and a signature. */
  function KeyBody(pub: seq<u8>, signature: seq<u8>): seq<u8> {
    [3, 0, 0x1d, 32] + pub + signature
  }

  /** The random bytes and the suite are read from a ServerHello with one of the two suites. */
  lemma HelloRead(c: Conn, random: seq<u8>, sid: seq<u8>, suite: nat, extensions: seq<u8>)
    requires !c.gotHello && |random| == 32 && |sid| < 256 && (suite == 0xC02F || suite == 0xC02B)
    ensures HandleServerHello(c, HelloBody(random, sid, suite, extensions))
      == c.(serverRandom := random, suite := suite, gotHello := true)
  {
    var b := HelloBody(random, sid, suite, extensions);
    assert b[2..34] == random;
    assert b[35 + |sid|..][..3] == [(suite / 256) as u8, (suite % 256) as u8, 0];
    assert b[35 + |sid|] == b[35 + |sid|..][0] && b[36 + |sid|] == b[35 + |sid|..][1] && b[37 + |sid|]
      == b[35 + |sid|..][2];
  }

  /** Nothing else is taken for one. */
  lemma HelloOnly(c: Conn, b: seq<u8>) returns (random: seq<u8>, sid: seq<u8>, suite: nat, extensions: seq<u8>)
    requires HandleServerHello(c, b).state != Failed
    ensures !c.gotHello && |random| == 32 && |sid| < 256 && (suite == 0xC02F || suite == 0xC02B)
    ensures b == HelloBody(random, sid, suite, extensions)
  {
    hide HelloBody;
    var pos := 35 + b[34] as int;
    random, sid, suite, extensions := b[2..34], b[35..pos], b[pos] as int * 256 + b[pos + 1] as int, b[pos + 3..];
    HelloParts(b, pos);
  }

  lemma HelloParts(b: seq<u8>, pos: nat)
    requires |b| >= 38 && b[0] == b[1] == 3 && pos == 35 + b[34] as int && pos + 3 <= |b| && b[pos + 2] == 0
    ensures HelloBody(b[2..34], b[35..pos], b[pos] as int * 256 + b[pos + 1] as int, b[pos + 3..]) == b
  {
    var suite := b[pos] as int * 256 + b[pos + 1] as int;
    assert b[..2] == [3, 3] && b[34..35] == [b[34]];
    assert b[pos..pos + 3] == [(suite / 256) as u8, (suite % 256) as u8, 0];
    assert b == b[..2] + b[2..34] + b[34..35] + b[35..pos] + b[pos..pos + 3] + b[pos + 3..];
  }

  /** The server's key is read from a ServerKeyExchange. */
  lemma KeyRead(c: Conn, pub: seq<u8>, signature: seq<u8>)
    requires c.gotHello && |pub| == 32 && |signature| >= 4
    ensures HandleKeyExchange(c, KeyBody(pub, signature)) == c.(serverPub := pub, gotKeyExchange := true)
  {
    assert KeyBody(pub, signature)[4..36] == pub;
  }

  lemma KeyOnly(c: Conn, b: seq<u8>) returns (pub: seq<u8>, signature: seq<u8>)
    requires HandleKeyExchange(c, b).state != Failed
    ensures c.gotHello && |pub| == 32 && |signature| >= 4 && b == KeyBody(pub, signature)
  {
    pub, signature := b[4..36], b[36..];
    assert b[..4] == [3, 0, 0x1d, 32];
    assert b == b[..4] + b[4..36] + b[36..];
  }

  // ----- what the client sends -----

  /** The client's key share, as a message. */
  function Share(p: Setup): seq<u8> {
    [16, 0, 0, 33, 32] + p.pub
  }

  function FinishedMessage(verify: Verify): seq<u8> {
    [20, 0, 0, 12] + verify
  }

  lemma ThreeBytes(v: nat)
    requires v < 65536
    ensures BeBytes(v, 3) == [0, (v / 256) as u8, (v % 256) as u8]
  {
    TwoBytes(v / 256);
    assert BeBytes(v, 3) == BeBytes(v / 256, 2) + [(v % 256) as u8];
    assert v / 256 / 256 == 0 && v / 256 % 256 == v / 256;
  }

  /** The answer to the server's flight: key share and change of cipher in the clear, and, encrypted, the Finished
      over everything said so far. */
  lemma FinishSends(p: Setup, c: Conn, shared: seq<u8>)
    requires !c.encOut
    ensures var keys := p.derive(shared, p.clientRandom, c.serverRandom);
      var said := c.transcript + Share(p);
      var fin := FinishedMessage(p.finished(keys.master, false, said));
      Finish(p, c, shared) == c.(keys := keys, transcript := said + fin, encOut := true, sentFinished := true,
        wrSeq := NextSeq(c.wrSeq),
        sent := c.sent + [[22, 3, c.recMinor, 0, 37] + Share(p), [20, 3, c.recMinor, 0, 1, 1],
          [22, 3, c.recMinor, 0, 40] + Sealed(keys.wr, keys.wrIv, c.wrSeq, 22, fin)])
  {
    hide BeBytes, Sealed;
    ThreeBytes(33);
    ThreeBytes(12);
    TwoBytes(37);
    TwoBytes(1);
    TwoBytes(40);
    var c1 := c.(keys := p.derive(shared, p.clientRandom, c.serverRandom));
    assert Message(CLIENT_KEY_EXCHANGE, [32] + p.pub) == Share(p);
    ShareSent(p, c1);
    var c3 := SendRecord(SendHandshake(c1, CLIENT_KEY_EXCHANGE, [32] + p.pub), CCS, [1]).(encOut := true);
    var verify := p.finished(c3.keys.master, false, c3.transcript);
    assert Message(FINISHED, verify) == FinishedMessage(verify);
    FinishedSent(c3, verify);
    SentThree(c.sent, [22, 3, c.recMinor, 0, 37] + Share(p), [20, 3, c.recMinor, 0, 1, 1],
      [22, 3, c.recMinor, 0, 40] + Sealed(c3.keys.wr, c3.keys.wrIv, c3.wrSeq, 22, FinishedMessage(verify)));
  }

  lemma SentThree(s: seq<seq<u8>>, a: seq<u8>, b: seq<u8>, c: seq<u8>)
    ensures s + [a] + [b] + [c] == s + [a, b, c]
  {
  }

  lemma ShareSent(p: Setup, c: Conn)
    requires !c.encOut && BeBytes(37, 2) == [0, 37] && BeBytes(1, 2) == [0, 1]
    requires Message(CLIENT_KEY_EXCHANGE, [32] + p.pub) == Share(p)
    ensures SendRecord(SendHandshake(c, CLIENT_KEY_EXCHANGE, [32] + p.pub), CCS, [1])
      == c.(transcript := c.transcript + Share(p),
            sent := c.sent + [[22, 3, c.recMinor, 0, 37] + Share(p)] + [[20, 3, c.recMinor, 0, 1, 1]])
  {
    hide BeBytes, Message;
    assert Header(HANDSHAKE, c.recMinor, 37) == [22, 3, c.recMinor, 0, 37];
    assert Header(CCS, c.recMinor, 1) + [1] == [20, 3, c.recMinor, 0, 1, 1];
  }

  lemma FinishedSent(c: Conn, verify: Verify)
    requires c.encOut && BeBytes(40, 2) == [0, 40] && Message(FINISHED, verify) == FinishedMessage(verify)
    ensures SendHandshake(c, FINISHED, verify)
      == c.(transcript := c.transcript + FinishedMessage(verify), wrSeq := NextSeq(c.wrSeq),
            sent := c.sent + [[22, 3, c.recMinor, 0, 40]
              + Sealed(c.keys.wr, c.keys.wrIv, c.wrSeq, 22, FinishedMessage(verify))])
  {
    hide BeBytes, Sealed, Message;
    assert Header(HANDSHAKE, c.recMinor, 40) == [22, 3, c.recMinor, 0, 40];
  }

  // ----- messages in the buffer -----

  /** One complete message in front of the buffer is recorded, unless it is a Finished, and handled. */
  lemma MessageTaken(p: Setup, c: Conn, kind: u8, body: seq<u8>, rest: seq<u8>)
    requires c.state == Handshaking && |body| + 4 <= HS_MAX && c.hs == Message(kind, body) + rest
    ensures ProcessHandshake(p, c) == ProcessHandshake(p, Handle(p,
      if kind != FINISHED then c.(transcript := c.transcript + Message(kind, body)) else c, kind, body).(hs := rest))
  {
    hide Handle, ProcessHandshake;
    MessageShape(kind, body, rest);
    ProcessOne(p, c, |body| + 4);
  }

  lemma MessageShape(kind: u8, body: seq<u8>, rest: seq<u8>)
    requires |body| + 4 <= HS_MAX
    ensures var hs := Message(kind, body) + rest; var n := |body| + 4;
      && |hs| >= n && MessageLength(hs) + 4 == n && hs[..n] == Message(kind, body) && hs[0] == kind
      && hs[4..n] == body && hs[n..] == rest
  {
    hide BeVal, BeBytes;
    var hs := Message(kind, body) + rest;
    assert hs[1..4] == BeBytes(|body|, 3);
    TwentyFour(|body|);
  }

  lemma TwentyFour(v: nat)
    requires v < 65536
    ensures BeVal(BeBytes(v, 3)) == v
  {
    ThreeBytes(v);
    var s := BeBytes(v, 3);
    BeLast(s, 2);
    BeLast(s[..2], 1);
    BeLast(s[..2][..1], 0);
    assert s[..2][..1][..0] == [] && BeVal([]) == 0;
  }

  lemma ProcessOne(p: Setup, c: Conn, n: nat)
    requires |c.hs| >= n >= 4 && c.state == Handshaking && MessageLength(c.hs) + 4 == n <= HS_MAX
    ensures ProcessHandshake(p, c) == ProcessHandshake(p, TakeMessage(p, c, n))
  {
    hide TakeMessage;
  }

  lemma NothingWaits(p: Setup, c: Conn)
    requires c.hs == []
    ensures ProcessHandshake(p, c) == c
  {
  }

  /** What a server sends in answer to the hello: its own hello, a certificate, its key, and that it is done. */
  function ServerFlight(hello: seq<u8>, cert: seq<u8>, key: seq<u8>): seq<u8> {
    Message(2, hello) + Message(11, cert) + Message(12, key) + Message(14, [])
  }

  /** A connection that has said hello and nothing more. */
  ghost predicate Waiting(c: Conn) {
    && c.state == Handshaking && c.rec == [] && c.hs == []
    && !c.gotHello && !c.gotKeyExchange && !c.certRequested && !c.sentFinished && !c.encOut && !c.encIn
  }

  /** Where the server's flight takes such a connection. */
  function Answered(p: Setup, c: Conn, random: seq<u8>, suite: nat, pub: seq<u8>, flight: seq<u8>): Conn {
    Finish(p, c.(serverRandom := random, suite := suite, gotHello := true, serverPub := pub, gotKeyExchange := true,
                 transcript := c.transcript + flight), p.agree(p.priv, pub))
  }

  lemma FlightTaken(p: Setup, c: Conn, random: seq<u8>, sid: seq<u8>, suite: nat, ext: seq<u8>, cert: seq<u8>,
      pub: seq<u8>, signature: seq<u8>)
    requires Waiting(c) && |random| == 32 && |sid| < 256 && (suite == 0xC02F || suite == 0xC02B)
    requires |pub| == 32 && |signature| >= 4 && !AllZero(p.agree(p.priv, pub))
    requires |ServerFlight(HelloBody(random, sid, suite, ext), cert, KeyBody(pub, signature))| <= HS_MAX
    ensures var flight := ServerFlight(HelloBody(random, sid, suite, ext), cert, KeyBody(pub, signature));
      ProcessHandshake(p, c.(hs := flight)) == Answered(p, c, random, suite, pub, flight)
  {
    hide ProcessHandshake, HandleServerHello, HandleKeyExchange, HelloBody, KeyBody, Message, Finish, AllZero;
    var hello, key := HelloBody(random, sid, suite, ext), KeyBody(pub, signature);
    var m1, m2, m3, m4 := Message(2, hello), Message(11, cert), Message(12, key), Message(14, []);
    MessageLengths(hello, cert, key);
    assert m1 + m2 + m3 + m4 == m1 + (m2 + (m3 + (m4 + [])));
    MessageTaken(p, c.(hs := m1 + m2 + m3 + m4), 2, hello, m2 + (m3 + (m4 + [])));
    HelloRead(c.(hs := m1 + m2 + m3 + m4, transcript := c.transcript + m1), random, sid, suite, ext);
    var c1 := c.(serverRandom := random, suite := suite, gotHello := true, transcript := c.transcript + m1,
                 hs := m2 + (m3 + (m4 + [])));
    MessageTaken(p, c1, 11, cert, m3 + (m4 + []));
    var c2 := c1.(transcript := c1.transcript + m2, hs := m3 + (m4 + []));
    MessageTaken(p, c2, 12, key, m4 + []);
    KeyRead(c2.(transcript := c2.transcript + m3), pub, signature);
    var c3 := c2.(transcript := c2.transcript + m3, serverPub := pub, gotKeyExchange := true, hs := m4 + []);
    MessageTaken(p, c3, 14, [], []);
    assert c.transcript + m1 + m2 + m3 + m4 == c.transcript + (m1 + m2 + m3 + m4);
    DoneHandled(p, c3.(transcript := c3.transcript + m4), c.hs);
    NothingWaits(p, Handle(p, c3.(transcript := c3.transcript + m4), 14, []).(hs := []));
  }

  lemma MessageLengths(hello: seq<u8>, cert: seq<u8>, key: seq<u8>)
    requires |ServerFlight(hello, cert, key)| <= HS_MAX
    ensures |hello| + 4 <= HS_MAX && |cert| + 4 <= HS_MAX && |key| + 4 <= HS_MAX
  {
  }

  /** The buffer plays no part in the answer. */
  lemma DoneHandled(p: Setup, c: Conn, hs: seq<u8>)
    requires c.gotHello && c.gotKeyExchange && !c.certRequested && !AllZero(p.agree(p.priv, c.serverPub))
    ensures Handle(p, c, 14, []).(hs := hs) == Finish(p, c.(hs := hs), p.agree(p.priv, c.serverPub))
  {
    hide Sealed, Message, AllZero;
  }

  // ----- records -----

  /** A handshake record in the clear. */
  function PlainRecord(minor: u8, body: seq<u8>): seq<u8> {
    Header(22, minor, |body|) + body
  }

  lemma PlainShape(kind: u8, minor: u8, body: seq<u8>)
    requires |body| <= REC_MAX
    ensures var rec := Header(kind, minor, |body|) + body;
      |rec| == 5 + RecordLength(rec) && RecordLength(rec) == |body| && rec[0] == kind && rec[1] == 3 && rec[5..] == body
  {
    TwoBytes(|body|);
  }

  /** In the clear, a record adds its body to the buffer. */
  lemma PlainFed(p: Setup, c: Conn, minor: u8, body: seq<u8>)
    requires Sound(c) && c.state == Handshaking && c.rec == [] && !c.encIn && |body| <= REC_MAX
      && |c.hs| + |body| <= HS_MAX
    ensures Feed(p, c, PlainRecord(minor, body)) == ProcessHandshake(p, c.(hs := c.hs + body))
  {
    hide Feed, ProcessHandshake, Sound, Header;
    PlainShape(22, minor, body);
    FeedRecord(p, c, PlainRecord(minor, body));
  }

  /** Whether the messages of a server come in one record or are cut anywhere between records, the result is the
      same. */
  lemma {:induction false} ProcessSplit(p: Setup, c: Conn, x: seq<u8>, y: seq<u8>)
    requires c.hs == x && c.state == Handshaking
    ensures var r := ProcessHandshake(p, c);
      if r.state == Handshaking then ProcessHandshake(p, c.(hs := x + y)) == ProcessHandshake(p, r.(hs := r.hs + y))
      else ProcessHandshake(p, c.(hs := x + y)).state == r.state
    decreases |x|
  {
    hide ProcessHandshake, TakeMessage, MessageLength;
    if |x| >= 4 {
      SameLength(x, y);
      var n := MessageLength(x) + 4;
      var d := c.(hs := x + y);
      if n > HS_MAX {
        TooLong(p, c);
        TooLong(p, d);
      } else if n <= |x| {
        ProcessOne(p, c, n);
        ProcessOne(p, d, n);
        TakenSame(p, c, x, y, n);
        var t := TakeMessage(p, c, n);
        if t.state == Handshaking {
          ProcessSplit(p, t, x[n..], y);
        } else {
          Stopped(p, t);
          Stopped(p, t.(hs := x[n..] + y));
        }
      } else {
        Incomplete(p, c);
      }
    } else {
      Incomplete(p, c);
    }
  }

  lemma SameLength(x: seq<u8>, y: seq<u8>)
    requires |x| >= 4
    ensures MessageLength(x + y) == MessageLength(x)
  {
    assert (x + y)[1..4] == x[1..4];
  }

  lemma TooLong(p: Setup, c: Conn)
    requires |c.hs| >= 4 && c.state == Handshaking && MessageLength(c.hs) + 4 > HS_MAX
    ensures ProcessHandshake(p, c).state == Failed
  {
  }

  lemma Incomplete(p: Setup, c: Conn)
    requires |c.hs| < 4 || |c.hs| < MessageLength(c.hs) + 4 <= HS_MAX
    ensures ProcessHandshake(p, c) == c
  {
  }

  /** Once what is there has been processed, there is nothing left to process. */
  lemma ProcessTwice(p: Setup, c: Conn)
    requires c.state == Handshaking && ProcessHandshake(p, c).state == Handshaking
    ensures var r := ProcessHandshake(p, c); ProcessHandshake(p, r) == r
  {
    hide ProcessHandshake;
    ProcessSplit(p, c, c.hs, []);
    NothingAdded(c);
    NothingAdded(ProcessHandshake(p, c));
  }

  lemma NothingAdded(c: Conn)
    ensures c.(hs := c.hs + []) == c
  {
    assert c.hs + [] == c.hs;
  }

  lemma Stopped(p: Setup, c: Conn)
    requires c.state != Handshaking
    ensures ProcessHandshake(p, c) == c
  {
  }

  lemma TakenSame(p: Setup, c: Conn, x: seq<u8>, y: seq<u8>, n: nat)
    requires c.hs == x && 4 <= n <= |x|
    ensures TakeMessage(p, c.(hs := x + y), n) == TakeMessage(p, c, n).(hs := x[n..] + y)
  {
    hide Handle, TakeMessage, Recorded;
    assert (x + y)[4..n] == x[4..n] && (x + y)[n..] == x[n..] + y && (x + y)[0] == x[0];
    TakeIs(p, c, n);
    TakeIs(p, c.(hs := x + y), n);
    RecordedSame(c, x, y, n);
    HandleIgnores(p, Recorded(c, n), x[0], x[4..n], x + y);
    Overwrite(Handle(p, Recorded(c, n), x[0], x[4..n]), x + y, x[n..] + y);
    Overwrite(Handle(p, Recorded(c, n), x[0], x[4..n]), x[n..], x[n..] + y);
  }

  /** The first message is in the transcript unless it is a Finished. */
  function Recorded(c: Conn, n: nat): Conn
    requires 0 < n <= |c.hs|
  {
    if c.hs[0] != FINISHED then c.(transcript := c.transcript + c.hs[..n]) else c
  }

  lemma TakeIs(p: Setup, c: Conn, n: nat)
    requires 4 <= n <= |c.hs|
    ensures TakeMessage(p, c, n) == Handle(p, Recorded(c, n), c.hs[0], c.hs[4..n]).(hs := c.hs[n..])
  {
    hide Handle;
  }

  lemma RecordedSame(c: Conn, x: seq<u8>, y: seq<u8>, n: nat)
    requires c.hs == x && 0 < n <= |x|
    ensures Recorded(c.(hs := x + y), n) == Recorded(c, n).(hs := x + y)
  {
    assert (x + y)[..n] == x[..n] && (x + y)[0] == x[0];
  }

  lemma Overwrite(c: Conn, a: seq<u8>, b: seq<u8>)
    ensures c.(hs := a).(hs := b) == c.(hs := b) && c.(hs := a).hs == a
  {
  }

  /** No handler looks at the buffer. */
  lemma HandleIgnores(p: Setup, c: Conn, kind: u8, body: seq<u8>, hs: seq<u8>)
    ensures Handle(p, c.(hs := hs), kind, body) == Handle(p, c, kind, body).(hs := hs)
  {
    hide HandleHelloDone, HandleServerHello, HandleKeyExchange, HandleFinished;
    DoneIgnores(p, c, |body|, hs);
    HelloIgnores(c, body, hs);
    KeyIgnores(c, body, hs);
    FinishedIgnores(p, c, body, hs);
    RequestIgnores(c, hs);
  }

  lemma RequestIgnores(c: Conn, hs: seq<u8>)
    ensures c.(hs := hs).(certRequested := true) == c.(certRequested := true).(hs := hs)
  {
  }

  lemma FailIgnores(c: Conn, hs: seq<u8>)
    ensures Fail(c.(hs := hs)) == Fail(c).(hs := hs)
  {
  }

  lemma HelloIgnores(c: Conn, b: seq<u8>, hs: seq<u8>)
    ensures HandleServerHello(c.(hs := hs), b) == HandleServerHello(c, b).(hs := hs)
  {
    hide HandleServerHello, ChooseSuite, Fail;
    HelloIs(c, b);
    HelloIs(c.(hs := hs), b);
    FailIgnores(c, hs);
    if !c.gotHello && |b| >= 38 && b[0] == b[1] == 3 {
      RandomIgnores(c, b[2..34], hs);
      AfterIgnores(c.(serverRandom := b[2..34]), b, hs);
    }
  }

  /** What is read once the random bytes are stored. */
  function AfterRandom(c: Conn, b: seq<u8>): Conn
    requires |b| >= 38
  {
    if 35 + b[34] as int + 3 > |b| then Fail(c) else ChooseSuite(c, b, 35 + b[34] as int)
  }

  lemma HelloIs(c: Conn, b: seq<u8>)
    ensures HandleServerHello(c, b)
      == if c.gotHello || |b| < 38 || b[0] != 3 || b[1] != 3 then Fail(c)
         else AfterRandom(c.(serverRandom := b[2..34]), b)
  {
    hide ChooseSuite;
  }

  lemma AfterIgnores(c: Conn, b: seq<u8>, hs: seq<u8>)
    requires |b| >= 38
    ensures AfterRandom(c.(hs := hs), b) == AfterRandom(c, b).(hs := hs)
  {
    hide ChooseSuite, Fail;
    FailIgnores(c, hs);
    if 35 + b[34] as int + 3 <= |b| {
      SuiteIgnores(c, b, 35 + b[34] as int, hs);
    }
  }

  lemma RandomIgnores(c: Conn, random: seq<u8>, hs: seq<u8>)
    ensures c.(hs := hs).(serverRandom := random) == c.(serverRandom := random).(hs := hs)
  {
  }

  lemma SuiteIgnores(c: Conn, b: seq<u8>, pos: nat, hs: seq<u8>)
    requires pos + 3 <= |b|
    ensures ChooseSuite(c.(hs := hs), b, pos) == ChooseSuite(c, b, pos).(hs := hs)
  {
    hide Fail;
    var suite := b[pos] as int * 256 + b[pos + 1] as int;
    SuiteSet(c, suite, hs);
    FailIgnores(c.(suite := suite), hs);
  }

  lemma SuiteSet(c: Conn, suite: nat, hs: seq<u8>)
    ensures c.(hs := hs).(suite := suite) == c.(suite := suite).(hs := hs)
    ensures c.(suite := suite).(hs := hs).(gotHello := true) == c.(suite := suite).(gotHello := true).(hs := hs)
  {
  }

  lemma KeyIgnores(c: Conn, b: seq<u8>, hs: seq<u8>)
    ensures HandleKeyExchange(c.(hs := hs), b) == HandleKeyExchange(c, b).(hs := hs)
  {
  }

  lemma FinishedIgnores(p: Setup, c: Conn, b: seq<u8>, hs: seq<u8>)
    ensures HandleFinished(p, c.(hs := hs), b) == HandleFinished(p, c, b).(hs := hs)
  {
  }

  lemma SendIgnores(c: Conn, kind: u8, data: seq<u8>, hs: seq<u8>)
    ensures SendRecord(c.(hs := hs), kind, data) == SendRecord(c, kind, data).(hs := hs)
  {
    hide Sealed, Header;
  }

  lemma SaidIgnores(c: Conn, message: seq<u8>, hs: seq<u8>)
    ensures c.(hs := hs).(transcript := c.(hs := hs).transcript + message)
      == c.(transcript := c.transcript + message).(hs := hs)
  {
  }

  lemma MessageIgnores(c: Conn, kind: u8, body: seq<u8>, hs: seq<u8>)
    ensures SendHandshake(c.(hs := hs), kind, body) == SendHandshake(c, kind, body).(hs := hs)
  {
    hide SendRecord, Message, Fail;
    FailIgnores(c, hs);
    SaidIgnores(c, Message(kind, body), hs);
    SendIgnores(c.(transcript := c.transcript + Message(kind, body)), HANDSHAKE, Message(kind, body), hs);
  }

  /** The four steps of the answer. */
  function Keyed(p: Setup, c: Conn, shared: seq<u8>): Conn {
    c.(keys := p.derive(shared, p.clientRandom, c.serverRandom))
  }

  function Changed(p: Setup, c: Conn): Conn {
    SendRecord(SendHandshake(c, CLIENT_KEY_EXCHANGE, [32] + p.pub), CCS, [1])
  }

  function Encrypting(c: Conn): Conn {
    c.(encOut := true)
  }

  function Said(p: Setup, c: Conn): Conn {
    SendHandshake(c, FINISHED, p.finished(c.keys.master, false, c.transcript))
  }

  function Sent(c: Conn): Conn {
    c.(sentFinished := true)
  }

  lemma FinishIs(p: Setup, c: Conn, shared: seq<u8>)
    ensures Finish(p, c, shared) == Sent(Said(p, Encrypting(Changed(p, Keyed(p, c, shared)))))
  {
    hide SendRecord, SendHandshake;
  }

  lemma StepsIgnore(p: Setup, c: Conn, shared: seq<u8>, hs: seq<u8>)
    ensures Keyed(p, c.(hs := hs), shared) == Keyed(p, c, shared).(hs := hs)
    ensures Encrypting(c.(hs := hs)) == Encrypting(c).(hs := hs) && Sent(c.(hs := hs)) == Sent(c).(hs := hs)
  {
  }

  lemma ChangedIgnores(p: Setup, c: Conn, hs: seq<u8>)
    ensures Changed(p, c.(hs := hs)) == Changed(p, c).(hs := hs)
  {
    hide SendRecord, SendHandshake;
    MessageIgnores(c, CLIENT_KEY_EXCHANGE, [32] + p.pub, hs);
    SendIgnores(SendHandshake(c, CLIENT_KEY_EXCHANGE, [32] + p.pub), CCS, [1], hs);
  }

  lemma SaidFinished(p: Setup, c: Conn, hs: seq<u8>)
    ensures Said(p, c.(hs := hs)) == Said(p, c).(hs := hs)
  {
    hide SendHandshake;
    MessageIgnores(c, FINISHED, p.finished(c.keys.master, false, c.transcript), hs);
  }

  lemma FinishIgnores(p: Setup, c: Conn, shared: seq<u8>, hs: seq<u8>)
    ensures Finish(p, c.(hs := hs), shared) == Finish(p, c, shared).(hs := hs)
  {
    hide Finish, Keyed, Changed, Encrypting, Said, Sent;
    FinishIs(p, c, shared);
    FinishIs(p, c.(hs := hs), shared);
    var c1 := Keyed(p, c, shared);
    var c2 := Changed(p, c1);
    var c3 := Encrypting(c2);
    var c4 := Said(p, c3);
    StepsIgnore(p, c, shared, hs);
    ChangedIgnores(p, c1, hs);
    StepsIgnore(p, c2, shared, hs);
    SaidFinished(p, c3, hs);
    StepsIgnore(p, c4, shared, hs);
  }

  lemma CertifyIgnores(c: Conn, hs: seq<u8>)
    ensures Certify(c.(hs := hs)) == Certify(c).(hs := hs)
  {
    hide SendHandshake;
    MessageIgnores(c, CERTIFICATE, [0, 0, 0], hs);
  }

  lemma DoneIgnores(p: Setup, c: Conn, len: nat, hs: seq<u8>)
    ensures HandleHelloDone(p, c.(hs := hs), len) == HandleHelloDone(p, c, len).(hs := hs)
  {
    hide Certify, Finish, AllZero, Fail;
    FailIgnores(c, hs);
    CertifyIgnores(c, hs);
    FailIgnores(Certify(c), hs);
    FinishIgnores(p, Certify(c), p.agree(p.priv, Certify(c).serverPub), hs);
  }

  // ----- the whole handshake -----

  /** The records that carry the given bodies in the clear. */
  function PlainRecords(minor: u8, bodies: seq<seq<u8>>): seq<u8>
    decreases |bodies|
  {
    if bodies == [] then [] else PlainRecord(minor, bodies[0]) + PlainRecords(minor, bodies[1..])
  }

  /** Handshake data in any number of records ends up where it does in one piece, if that goes well. */
  lemma {:induction false} RecordsFed(p: Setup, c: Conn, minor: u8, bodies: seq<seq<u8>>)
    requires Sound(c) && c.state == Handshaking && c.rec == [] && !c.encIn && ProcessHandshake(p, c) == c
    requires |c.hs| + |Flat(bodies)| <= HS_MAX && forall i :: 0 <= i < |bodies| ==> |bodies[i]| <= REC_MAX
    requires ProcessHandshake(p, c.(hs := c.hs + Flat(bodies))).state == Handshaking
    ensures Feed(p, c, PlainRecords(minor, bodies)) == ProcessHandshake(p, c.(hs := c.hs + Flat(bodies)))
    decreases |bodies|
  {
    hide ProcessHandshake, Feed, Sound, PlainRecord, PlainRecords, Flat;
    Pieces(minor, bodies);
    if bodies == [] {
      NothingAdded(c);
      EmptyFeed(p, c);
    } else {
      var first, rest := bodies[0], bodies[1..];
      var d := c.(hs := c.hs + first);
      var c1 := ProcessHandshake(p, d);
      assert c.hs + (first + Flat(rest)) == c.hs + first + Flat(rest);
      assert d.(hs := c.hs + first + Flat(rest)) == c.(hs := c.hs + first + Flat(rest));
      PlainFed(p, c, minor, first);
      FeedAppend(p, c, PlainRecord(minor, first), PlainRecords(minor, rest));
      ProcessSplit(p, d, d.hs, Flat(rest));
      OneStep(p, c, minor, first);
      RecordsFed(p, c1, minor, rest);
    }
  }

  lemma Pieces(minor: u8, bodies: seq<seq<u8>>)
    ensures bodies == [] ==> Flat(bodies) == [] && PlainRecords(minor, bodies) == []
    ensures bodies != [] ==>
              Flat(bodies) == bodies[0] + Flat(bodies[1..])
              && PlainRecords(minor, bodies) == PlainRecord(minor, bodies[0]) + PlainRecords(minor, bodies[1..])
  {
  }

  lemma OneStep(p: Setup, c: Conn, minor: u8, body: seq<u8>)
    requires Sound(c) && c.state == Handshaking && c.rec == [] && !c.encIn && |body| <= REC_MAX
      && |c.hs| + |body| <= HS_MAX
    requires ProcessHandshake(p, c.(hs := c.hs + body)).state == Handshaking
    ensures var r := ProcessHandshake(p, c.(hs := c.hs + body));
      && Sound(r) && r.rec == [] && !r.encIn && ProcessHandshake(p, r) == r && |r.hs| <= |c.hs| + |body|
  {
    hide ProcessHandshake, Feed, Counted, PlainRecord;
    var d := c.(hs := c.hs + body);
    PlainFed(p, c, minor, body);
    FeedSound(p, c, PlainRecord(minor, body));
    HandshakeKeepsBuffer(p, d);
    ProcessHandshakeOrdered(p, d);
    ProcessTwice(p, d);
  }

  /** The server's flight arrives in any number of records, and the connection answers. */
  lemma FlightArrives(p: Setup, c: Conn, random: seq<u8>, sid: seq<u8>, suite: nat, ext: seq<u8>, cert: seq<u8>,
      pub: seq<u8>, signature: seq<u8>, minor: u8, bodies: seq<seq<u8>>)
    requires Sound(c) && Waiting(c) && |random| == 32 && |sid| < 256 && (suite == 0xC02F || suite == 0xC02B)
    requires |pub| == 32 && |signature| >= 4 && !AllZero(p.agree(p.priv, pub))
    requires Flat(bodies) == ServerFlight(HelloBody(random, sid, suite, ext), cert, KeyBody(pub, signature))
    requires |Flat(bodies)| <= HS_MAX && forall i :: 0 <= i < |bodies| ==> |bodies[i]| <= REC_MAX
    ensures Feed(p, c, PlainRecords(minor, bodies)) == Answered(p, c, random, suite, pub, Flat(bodies))
  {
    hide ProcessHandshake, Feed, Sound, PlainRecords, Flat, Answered, ServerFlight, HelloBody, KeyBody, AllZero;
    FlightTaken(p, c, random, sid, suite, ext, cert, pub, signature);
    NothingWaits(p, c);
    AnsweredState(p, c, random, suite, pub, Flat(bodies));
    assert c.hs + Flat(bodies) == Flat(bodies);
    RecordsFed(p, c, minor, bodies);
  }

  lemma AnsweredState(p: Setup, c: Conn, random: seq<u8>, suite: nat, pub: seq<u8>, flight: seq<u8>)
    requires Waiting(c)
    ensures var r := Answered(p, c, random, suite, pub, flight);
      && r.state == Handshaking && r.rec == [] && r.hs == [] && r.sentFinished && !r.encIn
      && r.gotHello && r.gotKeyExchange
  {
    hide Finish, Sealed;
    FinishSends(p, c.(serverRandom := random, suite := suite, gotHello := true, serverPub := pub,
      gotKeyExchange := true, transcript := c.transcript + flight), p.agree(p.priv, pub));
  }

  /** What a server sends to end the handshake: a change of cipher, and its Finished under its key. */
  function ServerEnd(p: Setup, c: Conn, minor: u8): seq<u8> {
    [20, 3, minor, 0, 1, 1] + ([22, 3, minor, 0, 40]
      + Sealed(c.keys.rd, c.keys.rdIv, c.rdSeq, 22, FinishedMessage(p.finished(c.keys.master, true, c.transcript))))
  }

  /** That makes a connection that has sent its own Finished ready. */
  lemma EndArrives(p: Setup, c: Conn, minor: u8)
    requires Sound(c) && c.state == Handshaking && c.rec == [] && c.hs == [] && c.sentFinished && !c.encIn
    ensures Feed(p, c, ServerEnd(p, c, minor))
      == c.(encIn := true, rdSeq := NextSeq(c.rdSeq), state := Ready)
  {
    hide Feed, Sound, Sealed, FinishedMessage;
    var ccs: seq<u8> := [20, 3, minor, 0, 1, 1];
    var fin := FinishedMessage(p.finished(c.keys.master, true, c.transcript));
    var record := [22, 3, minor, 0, 40] + Sealed(c.keys.rd, c.keys.rdIv, c.rdSeq, 22, fin);
    ChangeFed(p, c, minor);
    FeedAppend(p, c, ccs, record);
    FeedSound(p, c, ccs);
    FinishedFed(p, c.(encIn := true), minor);
  }

  lemma ChangeFed(p: Setup, c: Conn, minor: u8)
    requires Sound(c) && c.state == Handshaking && c.rec == [] && c.sentFinished && !c.encIn
    ensures Feed(p, c, [20, 3, minor, 0, 1, 1]) == c.(encIn := true)
  {
    hide Feed, Sound;
    FeedRecord(p, c, [20, 3, minor, 0, 1, 1]);
  }

  lemma FinishedFed(p: Setup, c: Conn, minor: u8)
    requires Sound(c) && c.state == Handshaking && c.rec == [] && c.hs == [] && c.sentFinished && c.encIn
    ensures Feed(p, c, [22, 3, minor, 0, 40] + Sealed(c.keys.rd, c.keys.rdIv, c.rdSeq, 22,
        FinishedMessage(p.finished(c.keys.master, true, c.transcript))))
      == c.(rdSeq := NextSeq(c.rdSeq), state := Ready)
  {
    hide Feed, Sound, Sealed, Unseal, FinishedMessage, ProcessHandshake;
    var verify := p.finished(c.keys.master, true, c.transcript);
    var fin := FinishedMessage(verify);
    var sealed := Sealed(c.keys.rd, c.keys.rdIv, c.rdSeq, 22, fin);
    var record := [22, 3, minor, 0, 40] + sealed;
    FinishedLength(verify);
    assert record[5..] == sealed;
    FeedRecord(p, c, record);
    UnsealsAny(c, 22, fin);
    var d := c.(rdSeq := NextSeq(c.rdSeq));
    assert [] + fin == fin;
    FinishedTaken(p, d.(hs := fin), verify);
  }

  lemma FinishedLength(verify: Verify)
    ensures |FinishedMessage(verify)| == 16
  {
  }

  /** A record sealed under the key and number that are next opens to what was sealed. */
  lemma UnsealsAny(c: Conn, kind: u8, data: seq<u8>)
    ensures Unseal(c, kind, Sealed(c.keys.rd, c.keys.rdIv, c.rdSeq, kind, data)) == Plain(data)
  {
    hide Seal, Open, Tag, BeBytes;
    var (x, t) := Seal(c.keys.rd, Nonce(c.keys.rdIv, c.rdSeq), Aad(c.rdSeq, kind, |data|), data);
    OpenSealed(c.keys.rd, Nonce(c.keys.rdIv, c.rdSeq), Aad(c.rdSeq, kind, |data|), data, t);
    var body := BeBytes(c.rdSeq, 8) + x + t;
    assert body[..8] == BeBytes(c.rdSeq, 8) && body[8..8 + |data|] == x && body[8 + |data|..] == t;
  }

  lemma FinishedTaken(p: Setup, c: Conn, verify: Verify)
    requires c.state == Handshaking && c.hs == FinishedMessage(verify) && c.sentFinished && c.encIn
    requires verify == p.finished(c.keys.master, true, c.transcript)
    ensures ProcessHandshake(p, c) == c.(hs := [], state := Ready)
  {
    hide ProcessHandshake, Message;
    ThreeBytes(12);
    FinishedIsMessage(verify);
    assert c.hs == Message(20, verify) + [];
    MessageTaken(p, c, 20, verify, []);
    Stopped(p, c.(hs := [], state := Ready));
  }

  lemma FinishedIsMessage(verify: Verify)
    ensures Message(20, verify) == FinishedMessage(verify)
  {
    hide BeBytes;
    ThreeBytes(12);
  }

  /** The handshake as a whole: from the hello on, the server's flight in any number of records, and its change of
      cipher and Finished under the keys that both have derived, cut by the network anywhere, leave the connection
      ready, with everything sent that a server waits for. */
  lemma Completes(p: Setup, c: Conn, random: seq<u8>, sid: seq<u8>, suite: nat, ext: seq<u8>, cert: seq<u8>,
      pub: seq<u8>, signature: seq<u8>, minor: u8, bodies: seq<seq<u8>>, pieces: seq<seq<u8>>)
    requires Sound(c) && Waiting(c) && |random| == 32 && |sid| < 256 && (suite == 0xC02F || suite == 0xC02B)
    requires |pub| == 32 && |signature| >= 4 && !AllZero(p.agree(p.priv, pub))
    requires Flat(bodies) == ServerFlight(HelloBody(random, sid, suite, ext), cert, KeyBody(pub, signature))
    requires |Flat(bodies)| <= HS_MAX && forall i :: 0 <= i < |bodies| ==> |bodies[i]| <= REC_MAX
    requires Flat(pieces) == PlainRecords(minor, bodies)
      + ServerEnd(p, Answered(p, c, random, suite, pub, Flat(bodies)), minor)
    ensures var a := Answered(p, c, random, suite, pub, Flat(bodies));
      FeedPieces(p, c, pieces) == a.(encIn := true, rdSeq := NextSeq(a.rdSeq), state := Ready)
  {
    hide Feed, FeedPieces, Sound, PlainRecords, Flat, Answered, ServerFlight, HelloBody, KeyBody, AllZero, ServerEnd;
    var a := Answered(p, c, random, suite, pub, Flat(bodies));
    PiecesDoNotMatter(p, c, pieces);
    FlightArrives(p, c, random, sid, suite, ext, cert, pub, signature, minor, bodies);
    FeedAppend(p, c, PlainRecords(minor, bodies), ServerEnd(p, a, minor));
    FeedSound(p, c, PlainRecords(minor, bodies));
    AnsweredState(p, c, random, suite, pub, Flat(bodies));
    EndArrives(p, a, minor);
  }

  /** The hello of a fresh connection goes out in a record of its own, and the connection waits. */
  lemma StartWaits(c: Conn, hello: seq<u8>)
    requires c.state == Idle && |hello| <= 596 && Waiting(c.(state := Handshaking))
    ensures Start(c, hello) == c.(state := Handshaking, recMinor := 3,
      transcript := c.transcript + Message(1, hello),
      sent := c.sent + [Header(22, c.recMinor, |hello| + 4) + Message(1, hello)])
    ensures Waiting(Start(c, hello))
  {
    hide BeBytes;
  }

  /** A server that asks for a certificate gets an empty one before the key share. */
  lemma AskedAnswers(p: Setup, c: Conn, request: seq<u8>)
    requires c.gotHello && c.gotKeyExchange && !c.encOut && !AllZero(p.agree(p.priv, c.serverPub))
    ensures HandleHelloDone(p, Handle(p, c, 13, request), 0)
      == Finish(p, c.(certRequested := true, transcript := c.transcript + [11, 0, 0, 3, 0, 0, 0],
        sent := c.sent + [[22, 3, c.recMinor, 0, 7, 11, 0, 0, 3, 0, 0, 0]]), p.agree(p.priv, c.serverPub))
  {
    hide BeBytes, Finish, AllZero;
    ThreeBytes(3);
    TwoBytes(7);
    assert Message(CERTIFICATE, [0, 0, 0]) == [11, 0, 0, 3, 0, 0, 0];
    assert Record(c, HANDSHAKE, [11, 0, 0, 3, 0, 0, 0]) == [22, 3, c.recMinor, 0, 7, 11, 0, 0, 3, 0, 0, 0];
  }

  // ----- records on the wire -----

  /** An encrypted record, byte for byte: kind, version, length; the number as 8 bytes, which with the 4 bytes of the
      keys is the nonce; ciphertext and tag over number, kind, version 3.3 and length of the data. */
  lemma RecordOnWire(c: Conn, kind: u8, data: seq<u8>) returns (number: seq<u8>)
    requires Sound(c) && c.encOut && |data| <= 16384
    ensures |number| == 8 && BeVal(number) == c.wrSeq
    ensures var len := |data| + 24;
      var (text, tag) := Seal(c.keys.wr, c.keys.wrIv + number,
        number + [kind, 3, 3, (|data| / 256) as u8, (|data| % 256) as u8], data);
      Record(c, kind, data)
        == [kind, 3, c.recMinor, (len / 256) as u8, (len % 256) as u8] + (number + text + tag)
  {
    hide Seal, BeBytes, BeVal, Pow2, NumberedFrom;
    number := BeBytes(c.wrSeq, 8);
    var k: nat :| NumberedFrom(c.sent, c.wrSeq, k);
    NumberBound(c.sent, c.wrSeq, k);
    TwoBytes(|data|);
    TwoBytes(|data| + 24);
    Pow2Values();
    BeValOfBytes(c.wrSeq, 8);
    assert number + [kind, 3, 3] + [(|data| / 256) as u8, (|data| % 256) as u8]
      == number + [kind, 3, 3, (|data| / 256) as u8, (|data| % 256) as u8];
  }

  lemma NumberBound(sent: seq<seq<u8>>, wrSeq: nat, k: nat)
    requires NumberedFrom(sent, wrSeq, k)
    ensures wrSeq < 0x1_0000_0000_0000_0000
  {
  }

  /** The closing alert of one end closes the other. */
  lemma CloseArrives(p: Setup, s: Conn, r: Conn)
    requires Paired(s, r) && s.state == Ready
    ensures var record := [21, 3, s.recMinor, 0, 26] + Sealed(s.keys.wr, s.keys.wrIv, s.wrSeq, 21, [1, 0]);
      && Close(s) == s.(sent := s.sent + [record], wrSeq := NextSeq(s.wrSeq), state := Closed)
      && Feed(p, r, record) == r.(rdSeq := NextSeq(r.rdSeq), alertCode := 0, state := Closed)
  {
    hide Feed, Sound, Sealed, Unseal, BeBytes;
    TwoBytes(26);
    var sealed := Sealed(s.keys.wr, s.keys.wrIv, s.wrSeq, 21, [1, 0]);
    var record := [21, 3, s.recMinor, 0, 26] + sealed;
    assert Header(21, s.recMinor, 26) == [21, 3, s.recMinor, 0, 26];
    assert record[5..] == sealed;
    FeedRecord(p, r, record);
    UnsealsAny(r, 21, [1, 0]);
  }

  /** An alert in the clear: its code is kept, the code 0 closes, and any other at level 2 fails the connection. */
  lemma AlertTaken(p: Setup, c: Conn, minor: u8, level: u8, code: u8)
    requires Sound(c) && !Over(c) && c.rec == [] && !c.encIn
    ensures Feed(p, c, [21, 3, minor, 0, 2, level, code]) == c.(alertCode := code as int,
      state := if code == 0 then Closed else if level == 2 then Failed else c.state)
  {
    hide Feed, Sound;
    FeedRecord(p, c, [21, 3, minor, 0, 2, level, code]);
  }
}

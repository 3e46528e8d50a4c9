/** What holds of every TLS connection, whatever bytes it is fed. */
module TlsProofs {
  import opened Bytes
  import opened TwosComplement
  import opened Gcm
  import opened TlsSpec

  // ----- bounds and the order of the handshake -----

  /** The buffers are never outgrown, and what is open to the user has been through the whole handshake. */
  ghost predicate Sound(c: Conn) {
    && |c.hs| <= HS_MAX
    && (|c.rec| >= 5 ==> |c.rec| <= 5 + REC_MAX)
    && (!Over(c) && |c.rec| >= 5 ==> RecordLength(c.rec) <= REC_MAX && |c.rec| < 5 + RecordLength(c.rec))
    && Ordered(c)
  }

  /** Keys are exchanged before the Finished is sent, that before the peer's records are decrypted, and that
      before the connection is ready or anything is delivered. */
  ghost predicate Ordered(c: Conn) {
    && (c.sentFinished ==> c.encOut && c.gotHello && c.gotKeyExchange)
    && (c.encIn ==> c.sentFinished)
    && (c.state == Ready ==> c.encIn)
    && (c.received != [] ==> c.encIn)
    && Counted(c.sent, c.wrSeq, c.encOut)
  }

  // ----- the numbers of the records that are sent -----

  /** From record k on, the records carry the numbers 0, 1, 2, ... in front of their ciphertext, and wrSeq is
      the next one. */
  ghost predicate NumberedFrom(sent: seq<seq<u8>>, wrSeq: nat, k: nat) {
    && k <= |sent| && wrSeq == (|sent| - k) % 0x1_0000_0000_0000_0000
    && forall j :: k <= j < |sent| ==>
      |sent[j]| >= 13 && sent[j][5..13] == BeBytes((j - k) % 0x1_0000_0000_0000_0000, 8)
  }

  /** The numbers start when encryption does, and never start again. */
  ghost predicate Counted(sent: seq<seq<u8>>, wrSeq: nat, encOut: bool) {
    if encOut then exists k: nat :: NumberedFrom(sent, wrSeq, k) else wrSeq == 0
  }

  lemma RecordNumber(c: Conn, kind: u8, data: seq<u8>)
    requires c.encOut
    ensures |Record(c, kind, data)| >= 13 && Record(c, kind, data)[5..13] == BeBytes(c.wrSeq, 8)
  {
    hide BeBytes, Seal;
    var sealed := Sealed(c.keys.wr, c.keys.wrIv, c.wrSeq, kind, data);
    assert Record(c, kind, data)[5..] == sealed && sealed[..8] == BeBytes(c.wrSeq, 8);
    assert Record(c, kind, data)[5..13] == Record(c, kind, data)[5..][..8];
  }

  lemma NextNumber(sent: seq<seq<u8>>, wrSeq: nat, k: nat, rec: seq<u8>)
    requires NumberedFrom(sent, wrSeq, k) && |rec| >= 13 && rec[5..13] == BeBytes(wrSeq, 8)
    ensures NumberedFrom(sent + [rec], NextSeq(wrSeq), k)
  {
    hide BeBytes;
  }

  lemma SendCounted(c: Conn, kind: u8, data: seq<u8>)
    requires Counted(c.sent, c.wrSeq, c.encOut)
    ensures var r := SendRecord(c, kind, data); Counted(r.sent, r.wrSeq, r.encOut)
  {
    hide NumberedFrom, Record, NextSeq;
    if c.encOut {
      var k: nat :| NumberedFrom(c.sent, c.wrSeq, k);
      RecordNumber(c, kind, data);
      NextNumber(c.sent, c.wrSeq, k, Record(c, kind, data));
    }
  }

  lemma MessageCounted(c: Conn, kind: u8, body: seq<u8>)
    requires Counted(c.sent, c.wrSeq, c.encOut)
    ensures var r := SendHandshake(c, kind, body); Counted(r.sent, r.wrSeq, r.encOut)
  {
    hide Counted, SendRecord;
    SendCounted(c.(transcript := c.transcript + Message(kind, body)), HANDSHAKE, Message(kind, body));
  }

  lemma SwitchCounted(sent: seq<seq<u8>>, wrSeq: nat, encOut: bool)
    requires Counted(sent, wrSeq, encOut)
    ensures Counted(sent, wrSeq, true)
  {
    if !encOut {
      assert NumberedFrom(sent, wrSeq, |sent|);
    }
  }

  lemma FinishCounted(p: Setup, c: Conn, shared: seq<u8>)
    requires Counted(c.sent, c.wrSeq, c.encOut)
    ensures var r := Finish(p, c, shared); Counted(r.sent, r.wrSeq, r.encOut)
  {
    hide Counted, SendHandshake, SendRecord;
    var c1 := c.(keys := p.derive(shared, p.clientRandom, c.serverRandom));
    var share := SendHandshake(c1, CLIENT_KEY_EXCHANGE, [32] + p.pub);
    MessageCounted(c1, CLIENT_KEY_EXCHANGE, [32] + p.pub);
    SendCounted(share, CCS, [1]);
    var c2 := SendRecord(share, CCS, [1]);
    SwitchCounted(c2.sent, c2.wrSeq, c2.encOut);
    var c3 := c2.(encOut := true);
    MessageCounted(c3, FINISHED, p.finished(c3.keys.master, false, c3.transcript));
  }

  lemma HelloDoneCounted(p: Setup, c: Conn, len: nat)
    requires Counted(c.sent, c.wrSeq, c.encOut)
    ensures var r := HandleHelloDone(p, c, len); Counted(r.sent, r.wrSeq, r.encOut)
  {
    hide Counted, SendHandshake, Finish;
    MessageCounted(c, CERTIFICATE, [0, 0, 0]);
    FinishCounted(p, Certify(c), p.agree(p.priv, Certify(c).serverPub));
  }

  // ----- the order of the handshake -----

  lemma HelloDoneOrdered(p: Setup, c: Conn, len: nat)
    requires Ordered(c)
    ensures var r := HandleHelloDone(p, c, len);
      Ordered(r) && r.received == c.received && (r.state == Ready ==> c.state == Ready)
  {
    hide Record, Message, Counted;
    HelloDoneCounted(p, c, len);
  }

  lemma ServerHelloOrdered(c: Conn, b: seq<u8>)
    requires Ordered(c)
    ensures var r := HandleServerHello(c, b);
      Ordered(r) && r.received == c.received && (r.state == Ready ==> c.state == Ready)
  {
  }

  lemma KeyExchangeOrdered(c: Conn, b: seq<u8>)
    requires Ordered(c)
    ensures var r := HandleKeyExchange(c, b);
      Ordered(r) && r.received == c.received && (r.state == Ready ==> c.state == Ready)
  {
  }

  lemma FinishedOrdered(p: Setup, c: Conn, b: seq<u8>)
    requires Ordered(c)
    ensures var r := HandleFinished(p, c, b); Ordered(r) && r.received == c.received
    ensures HandleFinished(p, c, b).state == Ready && c.state != Ready ==>
              c.sentFinished && c.encIn && b == p.finished(c.keys.master, true, c.transcript)
  {
  }

  /** A message makes the connection ready only by being the right Finished at the right time. */
  lemma HandleOrdered(p: Setup, c: Conn, kind: u8, body: seq<u8>)
    requires Ordered(c)
    ensures var r := Handle(p, c, kind, body); Ordered(r) && r.received == c.received
    ensures Handle(p, c, kind, body).state == Ready && c.state != Ready ==>
              kind == FINISHED && c.sentFinished && c.encIn && body == p.finished(c.keys.master, true, c.transcript)
  {
    hide HandleServerHello, HandleKeyExchange, HandleHelloDone, HandleFinished;
    ServerHelloOrdered(c, body);
    KeyExchangeOrdered(c, body);
    HelloDoneOrdered(p, c, |body|);
    FinishedOrdered(p, c, body);
  }

  lemma {:induction false} ProcessHandshakeOrdered(p: Setup, c: Conn)
    requires Ordered(c)
    ensures var r := ProcessHandshake(p, c); Ordered(r) && r.received == c.received && |r.hs| <= |c.hs|
    decreases |c.hs|
  {
    if |c.hs| >= 4 && c.state == Handshaking {
      var n := MessageLength(c.hs) + 4;
      if n <= HS_MAX && n <= |c.hs| {
        TakeOrdered(p, c, n);
        ProcessHandshakeOrdered(p, TakeMessage(p, c, n));
      }
    }
  }

  lemma TakeOrdered(p: Setup, c: Conn, n: nat)
    requires Ordered(c) && 4 <= n <= |c.hs|
    ensures Ordered(TakeMessage(p, c, n)) && TakeMessage(p, c, n).received == c.received
  {
    hide Handle;
    var c1 := if c.hs[0] != FINISHED then c.(transcript := c.transcript + c.hs[..n]) else c;
    HandleOrdered(p, c1, c.hs[0], c.hs[4..n]);
  }

  lemma DispatchOrdered(p: Setup, c: Conn, kind: u8, body: seq<u8>)
    requires Ordered(c) && |c.hs| <= HS_MAX
    ensures var r := Dispatch(p, c, kind, body); Ordered(r) && |r.hs| <= HS_MAX
    ensures Dispatch(p, c, kind, body).received != c.received ==>
              kind == APP_DATA && c.state == Ready && Dispatch(p, c, kind, body) == c.(received := c.received + body)
  {
    hide ProcessHandshake;
    if kind == HANDSHAKE && c.state == Handshaking && |c.hs| + |body| <= HS_MAX {
      ProcessHandshakeOrdered(p, c.(hs := c.hs + body));
    }
  }

  lemma RecordOrdered(p: Setup, c: Conn, record: seq<u8>)
    requires Ordered(c) && |c.hs| <= HS_MAX && |record| >= 5
    ensures var r := ProcessRecord(p, c, record); Ordered(r) && |r.hs| <= HS_MAX
  {
    hide Dispatch, Open, Ordered;
    var body := record[5..];
    DispatchOrdered(p, c, record[0], body);
    FailOrdered(c);
    if c.encIn && |body| >= 24 && Unseal(c, record[0], body).Plain? {
      NextOrdered(c);
      DispatchOrdered(p, c.(rdSeq := NextSeq(c.rdSeq)), record[0], Unseal(c, record[0], body).bytes);
    }
  }

  lemma FailOrdered(c: Conn)
    requires Ordered(c)
    ensures Ordered(Fail(c))
  {
  }

  lemma NextOrdered(c: Conn)
    requires Ordered(c)
    ensures Ordered(c.(rdSeq := NextSeq(c.rdSeq)))
  {
  }

  /** Every byte keeps the connection sound. */
  lemma FeedByteSound(p: Setup, c: Conn, b: u8)
    requires Sound(c)
    ensures Sound(FeedByte(p, c, b))
  {
    hide ProcessRecord, Ordered;
    if !Over(c) {
      var rec := c.rec + [b];
      SameOrdered(c, c.(rec := rec));
      SameOrdered(c, c.(rec := []));
      FailOrdered(c.(rec := rec));
      if |c.rec| >= 5 {
        assert rec[3] == c.rec[3] && rec[4] == c.rec[4];
      }
      if |rec| >= 5 && RecordLength(rec) <= REC_MAX && |rec| == 5 + RecordLength(rec) {
        RecordOrdered(p, c.(rec := []), rec);
        RecordEmpty(p, c.(rec := []), rec);
      }
    }
  }

  lemma SameOrdered(c: Conn, d: Conn)
    requires Ordered(c) && d == c.(rec := d.rec)
    ensures Ordered(d)
  {
  }

  /** Processing leaves the record buffer alone. */
  lemma RecordEmpty(p: Setup, c: Conn, record: seq<u8>)
    requires |record| >= 5
    ensures ProcessRecord(p, c, record).rec == c.rec
  {
    hide Dispatch, Open;
    var body := record[5..];
    DispatchKeepsBuffer(p, c, record[0], body);
    if c.encIn && |body| >= 24 && Unseal(c, record[0], body).Plain? {
      DispatchKeepsBuffer(p, c.(rdSeq := NextSeq(c.rdSeq)), record[0], Unseal(c, record[0], body).bytes);
    }
  }

  lemma DispatchKeepsBuffer(p: Setup, c: Conn, kind: u8, body: seq<u8>)
    ensures Dispatch(p, c, kind, body).rec == c.rec
  {
    hide ProcessHandshake;
    if kind == HANDSHAKE && c.state == Handshaking && |c.hs| + |body| <= HS_MAX {
      HandshakeKeepsBuffer(p, c.(hs := c.hs + body));
    }
  }

  predicate SameInput(r: Conn, c: Conn) {
    r.rec == c.rec && r.encIn == c.encIn
  }

  /** Nor do handshake messages, which do not turn on decryption either. */
  lemma {:induction false} HandshakeKeepsBuffer(p: Setup, c: Conn)
    ensures SameInput(ProcessHandshake(p, c), c)
    decreases |c.hs|
  {
    if |c.hs| >= 4 && c.state == Handshaking {
      var n := MessageLength(c.hs) + 4;
      if n <= HS_MAX && n <= |c.hs| {
        TakeKeepsBuffer(p, c, n);
        HandshakeKeepsBuffer(p, TakeMessage(p, c, n));
      }
    }
  }

  lemma TakeKeepsBuffer(p: Setup, c: Conn, n: nat)
    requires 4 <= n <= |c.hs|
    ensures SameInput(TakeMessage(p, c, n), c)
  {
    hide Handle;
    HandleKeepsBuffer(p, if c.hs[0] != FINISHED then c.(transcript := c.transcript + c.hs[..n])
      else c, c.hs[0], c.hs[4..n]);
  }

  lemma HandleKeepsBuffer(p: Setup, c: Conn, kind: u8, body: seq<u8>)
    ensures SameInput(Handle(p, c, kind, body), c)
  {
    hide HandleServerHello, HandleKeyExchange, HandleHelloDone, HandleFinished;
    HelloDoneKeepsBuffer(p, c, |body|);
    HelloKeepsBuffer(c, body);
    KeyKeepsBuffer(p, c, body);
  }

  lemma HelloKeepsBuffer(c: Conn, body: seq<u8>)
    ensures SameInput(HandleServerHello(c, body), c)
  {
  }

  lemma KeyKeepsBuffer(p: Setup, c: Conn, body: seq<u8>)
    ensures SameInput(HandleKeyExchange(c, body), c) && SameInput(HandleFinished(p, c, body), c)
  {
  }

  lemma HelloDoneKeepsBuffer(p: Setup, c: Conn, len: nat)
    ensures SameInput(HandleHelloDone(p, c, len), c)
  {
    hide SendHandshake, SendRecord;
    SendKeepsBuffer(c, CERTIFICATE, [0, 0, 0]);
    FinishKeepsBuffer(p, Certify(c), p.agree(p.priv, Certify(c).serverPub));
  }

  lemma SendKeepsBuffer(c: Conn, kind: u8, body: seq<u8>)
    ensures SameInput(SendHandshake(c, kind, body), c) && SameInput(SendRecord(c, kind, body), c)
  {
    hide Record, Message;
  }

  lemma FinishKeepsBuffer(p: Setup, c: Conn, shared: seq<u8>)
    ensures SameInput(Finish(p, c, shared), c)
  {
    hide SendHandshake, SendRecord;
    var c1 := c.(keys := p.derive(shared, p.clientRandom, c.serverRandom));
    var share := SendHandshake(c1, CLIENT_KEY_EXCHANGE, [32] + p.pub);
    SendKeepsBuffer(c1, CLIENT_KEY_EXCHANGE, [32] + p.pub);
    SendKeepsBuffer(share, CCS, [1]);
    var c3 := SendRecord(share, CCS, [1]).(encOut := true);
    SendKeepsBuffer(c3, FINISHED, p.finished(c3.keys.master, false, c3.transcript));
  }

  /** So does any run. */
  lemma {:induction false} FeedSound(p: Setup, c: Conn, data: seq<u8>)
    requires Sound(c)
    ensures Sound(Feed(p, c, data))
    decreases |data|
  {
    if data != [] {
      FeedByteSound(p, c, data[0]);
      FeedSound(p, FeedByte(p, c, data[0]), data[1..]);
    }
  }

  /** Whatever is delivered is the content of one application record that was authentic under the peer's key
      and the next sequence number, and the connection was ready for it. */
  lemma DeliveredIsAuthentic(p: Setup, c: Conn, b: u8)
    requires Sound(c) && FeedByte(p, c, b).received != c.received
    ensures c.state == Ready && c.encIn && |c.rec + [b]| >= 29 && (c.rec + [b])[0] == APP_DATA
    ensures Unseal(c, APP_DATA, (c.rec + [b])[5..]).Plain?
    ensures FeedByte(p, c, b) == c.(rec := [], rdSeq := NextSeq(c.rdSeq), received := c.received
      + Unseal(c, APP_DATA, (c.rec + [b])[5..]).bytes)
  {
    hide Dispatch, Open, Ordered;
    var rec := c.rec + [b];
    var c1 := c.(rec := []);
    var body := rec[5..];
    SameOrdered(c, c1);
    NextOrdered(c1);
    if c.encIn {
      DispatchOrdered(p, c1.(rdSeq := NextSeq(c1.rdSeq)), rec[0], Unseal(c1, rec[0], body).bytes);
    } else {
      DispatchOrdered(p, c1, rec[0], body);
    }
  }

  // ----- pieces -----

  function FeedPieces(p: Setup, c: Conn, pieces: seq<seq<u8>>): Conn
    decreases |pieces|
  {
    if pieces == [] then c else FeedPieces(p, Feed(p, c, pieces[0]), pieces[1..])
  }

  /** Feeding the pieces one after the other is feeding their concatenation, however they are cut. */
  lemma {:induction false} PiecesDoNotMatter(p: Setup, c: Conn, pieces: seq<seq<u8>>)
    ensures FeedPieces(p, c, pieces) == Feed(p, c, Flat(pieces))
    decreases |pieces|
  {
    if pieces != [] {
      PiecesDoNotMatter(p, Feed(p, c, pieces[0]), pieces[1..]);
      FeedAppend(p, c, pieces[0], Flat(pieces[1..]));
    }
  }

  /** How many more bytes the record at hand takes, as far as is known. */
  function Need(c: Conn): int {
    if |c.rec| < 5 then 5 - |c.rec| else 5 + RecordLength(c.rec) - |c.rec|
  }

  /** Up to that many bytes are only stored until the last one is there. */
  lemma {:induction false} FeedPart(p: Setup, c: Conn, x: seq<u8>)
    requires Sound(c) && !Over(c) && 0 < |x| <= Need(c)
    ensures Feed(p, c, x) == Arrived(p, c.(rec := c.rec + x))
    decreases |x|
  {
    hide ProcessRecord, Ordered;
    var c1 := FeedByte(p, c, x[0]);
    if |x| == 1 {
      assert x[1..] == [] && [x[0]] == x;
    } else {
      var rec := c.rec + [x[0]];
      if |c.rec| >= 5 {
        assert rec[3] == c.rec[3] && rec[4] == c.rec[4];
      }
      assert c1 == c.(rec := rec);
      FeedByteSound(p, c, x[0]);
      FeedPart(p, c1, x[1..]);
      assert rec + x[1..] == c.rec + x;
    }
  }

  /** A record that arrives at an empty buffer is processed as a whole. */
  lemma FeedRecord(p: Setup, c: Conn, record: seq<u8>)
    requires Sound(c) && !Over(c) && c.rec == [] && |record| >= 5 && |record| == 5 + RecordLength(record) <= 5 + REC_MAX
    ensures Feed(p, c, record) == ProcessRecord(p, c, record)
  {
    hide ProcessRecord, FeedByte, Sound;
    var head := record[..5];
    assert record == head + record[5..] && c.rec + head == head;
    StoredHeader(c, record);
    FeedPart(p, c, head);
    if |record| > 5 {
      FeedSound(p, c, head);
      FeedAppend(p, c, head, record[5..]);
      FeedBody(p, c.(rec := head), record);
    }
  }

  lemma FeedBody(p: Setup, c: Conn, record: seq<u8>)
    requires Sound(c) && !Over(c) && 5 < |record| == 5 + RecordLength(record) <= 5 + REC_MAX && c.rec == record[..5]
      && Need(c) == |record| - 5
    ensures Feed(p, c, record[5..]) == ProcessRecord(p, c.(rec := []), record)
  {
    hide ProcessRecord, FeedByte, Sound;
    FeedPart(p, c, record[5..]);
    assert c.rec + record[5..] == record;
  }

  lemma StoredHeader(c: Conn, record: seq<u8>)
    requires Sound(c) && !Over(c) && c.rec == [] && |record| >= 5 && |record| == 5 + RecordLength(record) <= 5 + REC_MAX
    ensures var c1 := c.(rec := record[..5]);
      Need(c) == 5 && Need(c1) == |record| - 5 && !Over(c1) && c1.(rec := []) == c
    ensures |record| == 5 ==> record[..5] == record
  {
  }

  // ----- from one end to the other -----

  /** What tlsWrite does to a ready connection: records of at most 16384 bytes. */
  function Write(c: Conn, data: seq<u8>): Conn
    decreases |data|
  {
    if data == [] then c
    else
      var n := if |data| > CHUNK then CHUNK else |data|;
      Write(SendRecord(c, APP_DATA, data[..n]), data[n..])
  }

  /** The records that it sends. */
  function Written(c: Conn, data: seq<u8>): seq<seq<u8>>
    decreases |data|
  {
    if data == [] then []
    else
      var n := if |data| > CHUNK then CHUNK else |data|;
      [Record(c, APP_DATA, data[..n])] + Written(SendRecord(c, APP_DATA, data[..n]), data[n..])
  }

  /** Every record but the last carries 16384 bytes. */
  lemma {:induction false} RecordCount(c: Conn, data: seq<u8>)
    ensures |Written(c, data)| == (|data| + 16383) / 16384
    decreases |data|
  {
    hide Record;
    if data != [] {
      var n := if |data| > CHUNK then CHUNK else |data|;
      RecordCount(SendRecord(c, APP_DATA, data[..n]), data[n..]);
    }
  }

  lemma {:induction false} WriteSends(c: Conn, data: seq<u8>)
    ensures Write(c, data).sent == c.sent + Written(c, data)
    decreases |data|
  {
    hide Record, Write, Written, Flat;
    WriteUnfolds(c, data);
    if data != [] {
      var n := if |data| > CHUNK then CHUNK else |data|;
      WriteSends(SendRecord(c, APP_DATA, data[..n]), data[n..]);
    }
  }

  /** The receiver can read what the sender writes next. */
  ghost predicate Paired(s: Conn, r: Conn) {
    && Sound(r) && s.encOut && r.state == Ready && r.encIn && r.rec == []
    && r.keys.rd == s.keys.wr && r.keys.rdIv == s.keys.wrIv
    && r.rdSeq == s.wrSeq
  }

  lemma SealedRecord(s: Conn, data: seq<u8>)
    requires s.encOut && |data| <= CHUNK
    ensures var rec := Record(s, APP_DATA, data);
      && |rec| == |data| + 29 && RecordLength(rec) == |data| + 24 && rec[0] == APP_DATA && rec[1] == 3
      && rec[5..] == Sealed(s.keys.wr, s.keys.wrIv, s.wrSeq, APP_DATA, data)
  {
    hide Sealed;
    TwoBytes(|data| + 24);
    var sealed := Sealed(s.keys.wr, s.keys.wrIv, s.wrSeq, APP_DATA, data);
    var rec := Record(s, APP_DATA, data);
    assert rec == Header(APP_DATA, s.recMinor, |data| + 24) + sealed;
  }

  /** The peer opens the record body to the data. */
  lemma UnsealsToData(s: Conn, r: Conn, data: seq<u8>)
    requires Paired(s, r)
    ensures Unseal(r, APP_DATA, Sealed(s.keys.wr, s.keys.wrIv, s.wrSeq, APP_DATA, data)) == Plain(data)
  {
    hide Seal, Open, Tag, BeBytes;
    var (c, t) := Seal(s.keys.wr, Nonce(s.keys.wrIv, s.wrSeq), Aad(s.wrSeq, APP_DATA, |data|), data);
    OpenSealed(s.keys.wr, Nonce(s.keys.wrIv, s.wrSeq), Aad(s.wrSeq, APP_DATA, |data|), data, t);
    var body := BeBytes(s.wrSeq, 8) + c + t;
    assert body[..8] == BeBytes(s.wrSeq, 8) && body[8..8 + |data|] == c && body[8 + |data|..] == t;
  }

  lemma OneRecordArrives(p: Setup, s: Conn, r: Conn, data: seq<u8>)
    requires Paired(s, r) && |data| <= CHUNK
    ensures Feed(p, r, Record(s, APP_DATA, data)) == r.(received := r.received + data, rdSeq := NextSeq(r.rdSeq))
    ensures Paired(SendRecord(s, APP_DATA, data), Feed(p, r, Record(s, APP_DATA, data)))
  {
    hide Sealed, Record, Unseal, FeedByte;
    var rec := Record(s, APP_DATA, data);
    SealedRecord(s, data);
    FeedRecord(p, r, rec);
    UnsealsToData(s, r, data);
    FeedSound(p, r, rec);
  }

  /** Whatever is written arrives, all of it and in order, and the two ends stay in step. */
  lemma {:induction false} WrittenArrives(p: Setup, s: Conn, r: Conn, data: seq<u8>)
    requires Paired(s, r)
    ensures Feed(p, r, Flat(Written(s, data))) == r.(received := r.received + data, rdSeq := Write(s, data).wrSeq)
    ensures Paired(Write(s, data), Feed(p, r, Flat(Written(s, data))))
    decreases |data|
  {
    hide Record, Feed, Sealed, Write, Written, Flat, Sound;
    WriteUnfolds(s, data);
    if data == [] {
      EmptyFeed(p, r);
      assert r.received + data == r.received;
    } else {
      var n := if |data| > CHUNK then CHUNK else |data|;
      var s1 := SendRecord(s, APP_DATA, data[..n]);
      OneRecordArrives(p, s, r, data[..n]);
      WrittenArrives(p, s1, Feed(p, r, Record(s, APP_DATA, data[..n])), data[n..]);
      FeedAppend(p, r, Record(s, APP_DATA, data[..n]), Flat(Written(s1, data[n..])));
      assert r.received + data[..n] + data[n..] == r.received + data;
    }
  }

  /** A write sends its first chunk, then the rest. */
  lemma WriteUnfolds(s: Conn, data: seq<u8>)
    ensures data == [] ==> Write(s, data) == s && Written(s, data) == [] && Flat(Written(s, data)) == []
    ensures data != [] ==>
      var n := if |data| > CHUNK then CHUNK else |data|;
      var s1 := SendRecord(s, APP_DATA, data[..n]);
      Write(s, data) == Write(s1, data[n..])
        && Written(s, data) == [Record(s, APP_DATA, data[..n])] + Written(s1, data[n..])
      && Flat(Written(s, data)) == Record(s, APP_DATA, data[..n]) + Flat(Written(s1, data[n..]))
  {
    hide Record;
    if data != [] {
      var n := if |data| > CHUNK then CHUNK else |data|;
      var s1 := SendRecord(s, APP_DATA, data[..n]);
      assert Written(s, data)[0] == Record(s, APP_DATA, data[..n]) && Written(s, data)[1..] == Written(s1, data[n..]);
    }
  }

  lemma EmptyFeed(p: Setup, c: Conn)
    ensures Feed(p, c, []) == c
  {
  }

  /** The network may cut the records as it likes. */
  lemma AnyCutArrives(p: Setup, s: Conn, r: Conn, data: seq<u8>, pieces: seq<seq<u8>>)
    requires Paired(s, r) && Flat(pieces) == Flat(Written(s, data))
    ensures FeedPieces(p, r, pieces) == r.(received := r.received + data, rdSeq := Write(s, data).wrSeq)
  {
    PiecesDoNotMatter(p, r, pieces);
    WrittenArrives(p, s, r, data);
  }

  // ----- nonces -----

  /** Of any 2^64 records in a row that a connection sends encrypted, in the handshake, as data or at the
      end, no two have the same explicit nonce. */
  lemma SentNoncesDistinct(sent: seq<seq<u8>>, wrSeq: nat, k: nat, i: nat, j: nat)
    requires NumberedFrom(sent, wrSeq, k) && k <= i < j < |sent| && j - i < 0x1_0000_0000_0000_0000
    ensures |sent[i]| >= 13 && |sent[j]| >= 13 && sent[i][5..13] != sent[j][5..13]
  {
    hide BeBytes;
    NoncesDistinct([0, 0, 0, 0], i - k, 0, j - i);
  }

  /** No nonce repeats in 2^64 records. */
  lemma NoncesDistinct(iv: Iv4, n: nat, i: nat, j: nat)
    requires i < j < 0x1_0000_0000_0000_0000
    ensures Nonce(iv, (n + i) % 0x1_0000_0000_0000_0000) != Nonce(iv, (n + j) % 0x1_0000_0000_0000_0000)
  {
    var a, b := (n + i) % 0x1_0000_0000_0000_0000, (n + j) % 0x1_0000_0000_0000_0000;
    if a == b {
      assert false;
    }
    Pow2Values();
    assert Pow2(64) == 0x1_0000_0000_0000_0000;
    BeValOfBytes(a, 8);
    BeValOfBytes(b, 8);
    assert Nonce(iv, a)[4..] == BeBytes(a, 8) && Nonce(iv, b)[4..] == BeBytes(b, 8);
  }

  // ----- everything a user does -----

  datatype Use = Begin(hello: seq<u8>) | Receive(data: seq<u8>) | Say(data: seq<u8>) | Leave

  function Act(p: Setup, c: Conn, u: Use): Conn {
    match u
    case Begin(hello) => Start(c, hello)
    case Receive(data) => Feed(p, c, data)
    case Say(data) => if c.state == Ready then Write(c, data) else c
    case Leave => Close(c)
  }

  function Acts(p: Setup, c: Conn, us: seq<Use>): Conn
    decreases |us|
  {
    if us == [] then c else Acts(p, Act(p, c, us[0]), us[1..])
  }

  lemma {:induction false} WriteSound(c: Conn, data: seq<u8>)
    requires Sound(c)
    ensures Sound(Write(c, data)) && Write(c, data).state == c.state
    decreases |data|
  {
    hide Counted, Record;
    if data != [] {
      var n := if |data| > CHUNK then CHUNK else |data|;
      SendCounted(c, APP_DATA, data[..n]);
      WriteSound(SendRecord(c, APP_DATA, data[..n]), data[n..]);
    }
  }

  lemma StartSound(c: Conn, hello: seq<u8>)
    requires Sound(c)
    ensures Sound(Start(c, hello))
  {
    hide Counted, Record, Message;
    MessageCounted(c.(state := Handshaking), CLIENT_HELLO, hello);
  }

  lemma CloseSound(c: Conn)
    requires Sound(c)
    ensures Sound(Close(c))
  {
    hide Counted, Record;
    SendCounted(c, ALERT, [1, 0]);
  }

  /** Whatever is done with a connection and whatever the network delivers, the buffers are not outgrown,
      nothing is delivered before the handshake is through, and the records sent are numbered without a gap. */
  lemma {:induction false} ActsSound(p: Setup, c: Conn, us: seq<Use>)
    requires Sound(c)
    ensures Sound(Acts(p, c, us))
    decreases |us|
  {
    hide Sound, Start, Feed, Write, Close;
    if us != [] {
      match us[0] {
        case Begin(hello) => StartSound(c, hello);
        case Receive(data) => FeedSound(p, c, data);
        case Say(data) => WriteSound(c, data);
        case Leave => CloseSound(c);
      }
      ActsSound(p, Act(p, c, us[0]), us[1..]);
    }
  }
}

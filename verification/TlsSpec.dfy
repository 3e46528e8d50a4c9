/** The client side of a TLS 1.2 connection as a function of the bytes fed to it. */
module TlsSpec {
  import opened Bytes
  import opened Gcm

  const REC_MAX: nat := 18432
  const HS_MAX: nat := 20480
  const CHUNK: nat := 16384

  const CCS: u8 := 20
  const ALERT: u8 := 21
  const HANDSHAKE: u8 := 22
  const APP_DATA: u8 := 23

  const SERVER_HELLO: u8 := 2
  const CERTIFICATE: u8 := 11
  const SERVER_KEY_EXCHANGE: u8 := 12
  const CERT_REQUEST: u8 := 13
  const SERVER_HELLO_DONE: u8 := 14
  const CLIENT_KEY_EXCHANGE: u8 := 16
  const FINISHED: u8 := 20

  const ECDHE_RSA_GCM_128: nat := 0xC02F
  const ECDHE_ECDSA_GCM_128: nat := 0xC02B

  datatype Phase = Idle | Handshaking | Ready | Closed | Failed

  type Iv4 = s: seq<u8> | |s| == 4 witness [0, 0, 0, 0]

  datatype Keys = Keys(master: seq<u8>, wr: Key, rd: Key, wrIv: Iv4, rdIv: Iv4)

  /** What a connection starts with: the client's random and key pair, and the primitives it is built from:
      key agreement, key derivation from the shared secret and both randoms, and the 12 bytes of a Finished
      message over what has been said so far. */
  datatype Setup = Setup(
    clientRandom: seq<u8>, priv: seq<u8>, pub: PublicKey,
    agree: (seq<u8>, seq<u8>) -> seq<u8>,
    derive: (seq<u8>, seq<u8>, seq<u8>) -> Keys,
    finished: (seq<u8>, bool, seq<u8>) -> Verify)

  type PublicKey = s: seq<u8> | |s| == 32 witness seq(32, _ => 0)
  type Verify = s: seq<u8> | |s| == 12 witness seq(12, _ => 0)

  /** One connection. `rec` and `hs` are the bytes waiting in the two buffers; `sent` and `received` are what
      has been handed to the network and to the user. */
  datatype Conn = Conn(
    state: Phase, alertCode: int,
    serverRandom: seq<u8>, serverPub: seq<u8>, suite: nat,
    gotHello: bool, gotKeyExchange: bool, certRequested: bool, sentFinished: bool,
    transcript: seq<u8>, keys: Keys, wrSeq: nat, rdSeq: nat, encOut: bool, encIn: bool, recMinor: u8,
    rec: seq<u8>, hs: seq<u8>, sent: seq<seq<u8>>, received: seq<u8>)

  function Fail(c: Conn): Conn {
    c.(state := Failed)
  }

  // ----- records -----

  function NextSeq(n: nat): nat {
    (n + 1) % 0x1_0000_0000_0000_0000
  }

  function Header(kind: u8, minor: u8, len: nat): (h: seq<u8>)
    ensures |h| == 5
  {
    [kind, 3, minor] + BeBytes(len, 2)
  }

  function Nonce(iv: Iv4, n: nat): Iv {
    iv + BeBytes(n, 8)
  }

  function Aad(n: nat, kind: u8, len: nat): seq<u8> {
    BeBytes(n, 8) + [kind, 3, 3] + BeBytes(len, 2)
  }

  /** The bytes of an encrypted record: explicit nonce, ciphertext and tag. */
  function Sealed(key: Key, iv: Iv4, n: nat, kind: u8, data: seq<u8>): (s: seq<u8>)
    ensures |s| == |data| + 24
  {
    var (c, t) := Seal(key, Nonce(iv, n), Aad(n, kind, |data|), data);
    BeBytes(n, 8) + c + t
  }

  function Record(c: Conn, kind: u8, data: seq<u8>): seq<u8> {
    if c.encOut then Header(kind, c.recMinor, |data| + 24) + Sealed(c.keys.wr, c.keys.wrIv, c.wrSeq, kind, data)
    else Header(kind, c.recMinor, |data|) + data
  }

  function SendRecord(c: Conn, kind: u8, data: seq<u8>): Conn {
    c.(sent := c.sent + [Record(c, kind, data)], wrSeq := if c.encOut then NextSeq(c.wrSeq) else c.wrSeq)
  }

  function Message(kind: u8, body: seq<u8>): seq<u8> {
    [kind] + BeBytes(|body|, 3) + body
  }

  function SendHandshake(c: Conn, kind: u8, body: seq<u8>): Conn {
    if |body| + 4 > 600 then Fail(c)
    else SendRecord(c.(transcript := c.transcript + Message(kind, body)), HANDSHAKE, Message(kind, body))
  }

  // ----- handshake messages -----

  function HandleServerHello(c: Conn, b: seq<u8>): Conn {
    if c.gotHello || |b| < 38 || b[0] != 3 || b[1] != 3 then Fail(c)
    else
      var c1 := c.(serverRandom := b[2..34]);
      var pos := 35 + b[34] as int;
      if pos + 3 > |b| then Fail(c1) else ChooseSuite(c1, b, pos)
  }

  /** The suite and the compression method follow the session id. */
  function ChooseSuite(c: Conn, b: seq<u8>, pos: nat): Conn
    requires pos + 3 <= |b|
  {
    var suite := b[pos] as int * 256 + b[pos + 1] as int;
    var c1 := c.(suite := suite);
    if suite != ECDHE_RSA_GCM_128 && suite != ECDHE_ECDSA_GCM_128 then Fail(c1)
    else if b[pos + 2] != 0 then Fail(c1)
    else c1.(gotHello := true)
  }

  function HandleKeyExchange(c: Conn, b: seq<u8>): Conn {
    if !c.gotHello || |b| < 40 || b[0] != 3 || b[1] != 0 || b[2] != 0x1d || b[3] != 32 then Fail(c)
    else c.(serverPub := b[4..36], gotKeyExchange := true)
  }

  predicate AllZero(s: seq<u8>) {
    forall i :: 0 <= i < |s| ==> s[i] == 0
  }

  /** Sends the empty certificate if one was asked for. */
  function Certify(c: Conn): Conn {
    if c.certRequested then SendHandshake(c, CERTIFICATE, [0, 0, 0]) else c
  }

  /** With the keys in place: key share, ChangeCipherSpec, and from there on encrypted the Finished. */
  function Finish(p: Setup, c: Conn, shared: seq<u8>): Conn {
    var c1 := c.(keys := p.derive(shared, p.clientRandom, c.serverRandom));
    var c2 := SendRecord(SendHandshake(c1, CLIENT_KEY_EXCHANGE, [32] + p.pub), CCS, [1]);
    var c3 := c2.(encOut := true);
    SendHandshake(c3, FINISHED, p.finished(c3.keys.master, false, c3.transcript)).(sentFinished := true)
  }

  function HandleHelloDone(p: Setup, c: Conn, len: nat): Conn {
    if len != 0 || !c.gotHello || !c.gotKeyExchange then Fail(c)
    else
      var c1 := Certify(c);
      var shared := p.agree(p.priv, c1.serverPub);
      if AllZero(shared) then Fail(c1) else Finish(p, c1, shared)
  }

  function HandleFinished(p: Setup, c: Conn, b: seq<u8>): Conn {
    if !c.sentFinished || !c.encIn || |b| != 12 then Fail(c)
    else if p.finished(c.keys.master, true, c.transcript) != b then Fail(c)
    else c.(state := Ready)
  }

  /** One complete message, which is in the transcript unless it is the Finished. */
  function Handle(p: Setup, c: Conn, kind: u8, body: seq<u8>): Conn {
    if kind == SERVER_HELLO then HandleServerHello(c, body)
    else if kind == SERVER_KEY_EXCHANGE then HandleKeyExchange(c, body)
    else if kind == CERT_REQUEST then c.(certRequested := true)
    else if kind == SERVER_HELLO_DONE then HandleHelloDone(p, c, |body|)
    else if kind == FINISHED then HandleFinished(p, c, body)
    else c
  }

  function MessageLength(hs: seq<u8>): nat
    requires |hs| >= 4
  {
    BeVal(hs[1..4])
  }

  /** Takes complete messages off the handshake buffer while the handshake lasts. */
  function ProcessHandshake(p: Setup, c: Conn): (r: Conn)
    decreases |c.hs|
  {
    if |c.hs| < 4 || c.state != Handshaking then c
    else
      var n := MessageLength(c.hs) + 4;
      if n > HS_MAX then Fail(c)
      else if |c.hs| < n then c
      else ProcessHandshake(p, TakeMessage(p, c, n))
  }

  /** The first message, n bytes with its header, is recorded, handled and removed. */
  function TakeMessage(p: Setup, c: Conn, n: nat): (r: Conn)
    requires 4 <= n <= |c.hs|
    ensures r.hs == c.hs[n..]
  {
    var c1 := if c.hs[0] != FINISHED then c.(transcript := c.transcript + c.hs[..n]) else c;
    Handle(p, c1, c.hs[0], c.hs[4..n]).(hs := c.hs[n..])
  }

  // ----- records coming in -----

  /** The body of a record once it is in the clear. */
  function Dispatch(p: Setup, c: Conn, kind: u8, body: seq<u8>): Conn {
    if kind == CCS then
      if c.encIn || !c.sentFinished || |body| != 1 || body[0] != 1 then Fail(c) else c.(encIn := true)
    else if kind == ALERT then
      if |body| < 2 then c
      else
        var c1 := c.(alertCode := body[1] as int);
        if body[1] == 0 then c1.(state := Closed)
        else if body[0] == 2 then Fail(c1)
        else c1
    else if kind == HANDSHAKE then
      if c.state != Handshaking || |c.hs| + |body| > HS_MAX then Fail(c)
      else ProcessHandshake(p, c.(hs := c.hs + body))
    else if kind == APP_DATA then
      if c.state != Ready then Fail(c) else c.(received := c.received + body)
    else Fail(c)
  }

  /** What decrypting the body of a record gives. */
  function Unseal(c: Conn, kind: u8, body: seq<u8>): Opened
    requires |body| >= 24
  {
    var n := |body| - 24;
    Open(c.keys.rd, c.keys.rdIv + body[..8], Aad(c.rdSeq, kind, n), body[8..8 + n], body[8 + n..])
  }

  function ProcessRecord(p: Setup, c: Conn, record: seq<u8>): Conn
    requires |record| >= 5
  {
    var body := record[5..];
    if record[1] != 3 then Fail(c)
    else if !c.encIn then Dispatch(p, c, record[0], body)
    else if |body| < 24 then Fail(c)
    else
      match Unseal(c, record[0], body)
      case BadTag => Fail(c)
      case Plain(plain) => Dispatch(p, c.(rdSeq := NextSeq(c.rdSeq)), record[0], plain)
  }

  predicate Over(c: Conn) {
    c.state == Failed || c.state == Closed
  }

  /** The length a record header announces. */
  function RecordLength(rec: seq<u8>): nat
    requires |rec| >= 5
  {
    rec[3] as int * 256 + rec[4] as int
  }

  /** The bytes in the record buffer have just grown: a complete record is processed. */
  function Arrived(p: Setup, c: Conn): Conn {
    if |c.rec| < 5 then c
    else if RecordLength(c.rec) > REC_MAX then Fail(c)
    else if |c.rec| == 5 + RecordLength(c.rec) then ProcessRecord(p, c.(rec := []), c.rec)
    else c
  }

  function FeedByte(p: Setup, c: Conn, b: u8): Conn {
    if Over(c) then c else Arrived(p, c.(rec := c.rec + [b]))
  }

  function Feed(p: Setup, c: Conn, data: seq<u8>): Conn
    decreases |data|
  {
    if data == [] then c else Feed(p, FeedByte(p, c, data[0]), data[1..])
  }

  /** How the bytes are cut into pieces does not matter. */
  lemma {:induction false} FeedAppend(p: Setup, c: Conn, a: seq<u8>, b: seq<u8>)
    ensures Feed(p, c, a + b) == Feed(p, Feed(p, c, a), b)
    decreases |a|
  {
    if a == [] {
      assert a + b == b;
    } else {
      assert (a + b)[0] == a[0] && (a + b)[1..] == a[1..] + b;
      FeedAppend(p, FeedByte(p, c, a[0]), a[1..], b);
    }
  }

  lemma {:induction false} FeedOver(p: Setup, c: Conn, data: seq<u8>)
    requires Over(c)
    ensures Feed(p, c, data) == c
    decreases |data|
  {
    if data != [] {
      FeedOver(p, c, data[1..]);
    }
  }

  const CLIENT_HELLO: u8 := 1

  /** The client speaks first; records after the ClientHello carry version 3.3. */
  function Start(c: Conn, hello: seq<u8>): Conn {
    if c.state != Idle then c
    else SendHandshake(c.(state := Handshaking), CLIENT_HELLO, hello).(recMinor := 3)
  }

  function Close(c: Conn): Conn {
    if c.state == Ready then SendRecord(c, ALERT, [1, 0]).(state := Closed) else c
  }
}

/** The TLS connection as the kernel keeps it: fixed buffers, two-word sequence numbers and flags changed
    step by step, proved equal to the function of the fed bytes in TlsSpec. */
module Tls {
  import opened Bytes
  import opened Gcm
  import opened TlsSpec
  import opened TlsProofs

  const OUT_MAX: nat := 16413

  class TlsConn {
    const p: Setup
    var state: Phase
    var alertCode: int
    var serverRandom: seq<u8>
    var serverPub: seq<u8>
    var suite: nat
    var gotHello: bool
    var gotKeyExchange: bool
    var certRequested: bool
    var sentFinished: bool
    var transcript: seq<u8>
    var keys: Keys
    var wrSeqHi: nat
    var wrSeqLo: nat
    var rdSeqHi: nat
    var rdSeqLo: nat
    var encOut: bool
    var encIn: bool
    var recMinor: u8
    var recLen: nat
    var hsLen: nat
    const rec: array<u8>
    const hs: array<u8>
    const out: array<u8>
    /** What the two callbacks have been given so far. */
    ghost var sent: seq<seq<u8>>
    ghost var received: seq<u8>

    ghost predicate Valid()
      reads this
    {
      && rec.Length == 5 + REC_MAX && hs.Length == HS_MAX && out.Length == OUT_MAX
      && rec != hs && rec != out && hs != out
      && recLen <= rec.Length && hsLen <= hs.Length
      && wrSeqHi < 0x1_0000_0000 && wrSeqLo < 0x1_0000_0000 && rdSeqHi < 0x1_0000_0000 && rdSeqLo < 0x1_0000_0000
    }

    static function Pair(hi: nat, lo: nat): nat {
      hi * 0x1_0000_0000 + lo
    }

    /** The connection apart from the record buffer. */
    ghost function Core(): Conn
      reads this, hs
      requires Valid()
    {
      Conn(state, alertCode, serverRandom, serverPub, suite,
           gotHello, gotKeyExchange, certRequested, sentFinished,
           transcript, keys, Pair(wrSeqHi, wrSeqLo), Pair(rdSeqHi, rdSeqLo), encOut, encIn, recMinor,
           [], hs[..hsLen], sent, received)
    }

    ghost function S(): Conn
      reads this, rec, hs
      requires Valid()
    {
      Core().(rec := rec[..recLen])
    }

    constructor (p: Setup, noKeys: Keys)
      ensures Valid() && this.p == p && fresh(rec) && fresh(hs) && fresh(out)
      ensures S().state == Idle && S().rec == [] && S().hs == [] && S().received == [] && S().sent == [] && Sound(S())
    {
      this.p := p;
      state, alertCode := Idle, 0;
      serverRandom, serverPub, suite := [], [], 0;
      gotHello, gotKeyExchange, certRequested, sentFinished := false, false, false, false;
      transcript, keys := [], noKeys;
      wrSeqHi, wrSeqLo, rdSeqHi, rdSeqLo := 0, 0, 0, 0;
      encOut, encIn, recMinor, recLen, hsLen := false, false, 1, 0, 0;
      rec, hs, out := new u8[5 + REC_MAX], new u8[HS_MAX], new u8[OUT_MAX];
      sent, received := [], [];
    }

    // ----- sequence numbers -----

    /** Adds one to a two-word number. */
    static method SeqNext(hi: nat, lo: nat) returns (hi': nat, lo': nat)
      requires hi < 0x1_0000_0000 && lo < 0x1_0000_0000
      ensures hi' < 0x1_0000_0000 && lo' < 0x1_0000_0000
      ensures Pair(hi', lo') == NextSeq(Pair(hi, lo)) && Pair(hi, lo) < 0x1_0000_0000_0000_0000
    {
      hi', lo' := hi, (lo + 1) % 0x1_0000_0000;
      if lo' == 0 {
        hi' := (hi + 1) % 0x1_0000_0000;
      }
    }

    /** The eight bytes of a sequence number, from its two words. */
    static method SeqBytes(hi: nat, lo: nat) returns (b: seq<u8>)
      requires hi < 0x1_0000_0000 && lo < 0x1_0000_0000
      ensures b == BeBytes(Pair(hi, lo), 8)
    {
      hide BeBytes, LowFour;
      b := LowFour(hi) + LowFour(lo);
      FourBytes(Pair(hi, lo), 4);
      FourBytes(hi, 0);
      NoBytes(hi / 0x1_0000_0000);
      assert Pair(hi, lo) / 0x1_0000_0000 == hi && Pair(hi, lo) % 0x1_0000_0000 == lo;
      LowFourOfRest(Pair(hi, lo));
    }

    method Fail()
      requires Valid()
      modifies this`state
      ensures Valid() && Core() == TlsSpec.Fail(old(Core()))
    {
      if state != Failed {
        state := Failed;
      }
    }

    // ----- sending -----

    /** Builds an encrypted record in the output buffer. */
    method SealInto(kind: u8, data: array<u8>, from: nat, len: nat)
      requires Valid() && from + len <= data.Length && len <= CHUNK && data != out && out[..3] == [kind, 3, recMinor]
      modifies out
      ensures out[..29 + len] == Header(kind, recMinor, len + 24)
           + Sealed(keys.wr, keys.wrIv, Pair(wrSeqHi, wrSeqLo), kind, old(data[from..from + len]))
    {
      hide BeBytes, Seal;
      ghost var n := Pair(wrSeqHi, wrSeqLo);
      ghost var plain := data[from..from + len];
      var num := SeqBytes(wrSeqHi, wrSeqLo);
      var nonce := keys.wrIv + num;
      TwoBytes(len);
      var aad := num + [kind, 3, 3] + [(len / 256) as u8, (len % 256) as u8];
      Put16(out, 3, 8 + len + 16);
      CopyTo(out, 5, num);
      ghost var head := out[..13];
      assert head == Header(kind, recMinor, len + 24) + num;
      var tag := GcmSeal(keys.wr, nonce, aad, data, from, len, out, 13);
      ghost var cipher := Seal(keys.wr, nonce, aad, plain).0;
      assert out[..13 + len] == head + cipher;
      CopyTo(out, 13 + len, tag[..]);
      assert out[..13 + len + 16] == head + cipher + tag[..];
      SealedIs(keys.wr, keys.wrIv, n, kind, plain, Header(kind, recMinor, len + 24), num, cipher, tag[..]);
    }

    static lemma SealedIs(key: Key, iv: Iv4, n: nat, kind: u8, plain: seq<u8>, header: seq<u8>, num: seq<u8>,
        cipher: seq<u8>, tag: seq<u8>)
      requires num == BeBytes(n, 8) && (cipher, tag) == Seal(key, Nonce(iv, n), Aad(n, kind, |plain|), plain)
      ensures header + num + cipher + tag == header + Sealed(key, iv, n, kind, plain)
    {
      hide Seal, BeBytes;
    }

    /** Builds a record in the clear in the output buffer. */
    method PlainInto(kind: u8, data: array<u8>, from: nat, len: nat)
      requires Valid() && from + len <= data.Length && len <= CHUNK && data != out && out[..3] == [kind, 3, recMinor]
      modifies out
      ensures out[..5 + len] == Header(kind, recMinor, len) + old(data[from..from + len])
    {
      hide BeBytes;
      Put16(out, 3, len);
      CopyTo(out, 5, data[from..from + len]);
    }

    /** Builds the next record and returns its length. */
    method BuildRecord(kind: u8, data: array<u8>, from: nat, len: nat) returns (n: nat)
      requires Valid() && from + len <= data.Length && len <= CHUNK && data != out
      modifies out
      ensures n <= OUT_MAX && out[..n] == Record(Core(), kind, old(data[from..from + len]))
    {
      hide Seal, Sealed, BeBytes, Header;
      out[0], out[1], out[2] := kind, 3, recMinor;
      assert out[..3] == [kind, 3, recMinor];
      if !encOut {
        PlainInto(kind, data, from, len);
        return 5 + len;
      }
      SealInto(kind, data, from, len);
      n := 13 + len + 16;
    }

    method SendRecord(kind: u8, data: array<u8>, from: nat, len: nat)
      requires Valid() && from + len <= data.Length && len <= CHUNK && data != out
      modifies this, out
      ensures recLen == old(recLen) && hsLen == old(hsLen)
      ensures Valid() && state == old(state)
      ensures Core() == TlsSpec.SendRecord(old(Core()), kind, old(data[from..from + len]))
    {
      hide Record, NextSeq, Pair;
      var n := BuildRecord(kind, data, from, len);
      if encOut {
        wrSeqHi, wrSeqLo := SeqNext(wrSeqHi, wrSeqLo);
      }
      sent := sent + [out[..n]];
    }

    method SendHandshake(kind: u8, body: seq<u8>)
      requires Valid() && |body| < 0x100_0000
      modifies this, out
      ensures recLen == old(recLen) && hsLen == old(hsLen)
      ensures Valid() && Core() == TlsSpec.SendHandshake(old(Core()), kind, body)
    {
      hide TlsSpec.SendRecord, Message, BeBytes;
      if |body| + 4 > 600 {
        Fail();
        return;
      }
      var msg := new u8[600];
      ThreeBytes(|body|);
      CopyTo(msg, 0, [kind, (|body| / 0x1_0000) as u8, (|body| / 256 % 256) as u8, (|body| % 256) as u8]);
      CopyTo(msg, 4, body);
      MessageIs(kind, body, msg[..|body| + 4]);
      transcript := transcript + msg[..|body| + 4];
      assert msg[0..0 + (|body| + 4)] == msg[..|body| + 4];
      SendRecord(HANDSHAKE, msg, 0, |body| + 4);
    }

    static lemma ThreeBytes(v: nat)
      requires v < 0x100_0000
      ensures BeBytes(v, 3) == [(v / 0x1_0000) as u8, (v / 256 % 256) as u8, (v % 256) as u8]
    {
      assert BeBytes(v, 3) == BeBytes(v / 256, 2) + [(v % 256) as u8];
      TwoBytes(v / 256);
    }

    static lemma MessageIs(kind: u8, body: seq<u8>, msg: seq<u8>)
      requires |body| < 0x100_0000
      requires msg == [kind, (|body| / 0x1_0000) as u8, (|body| / 256 % 256) as u8, (|body| % 256) as u8] + body
      ensures msg == Message(kind, body)
    {
      ThreeBytes(|body|);
    }

    // ----- handshake messages -----

    method HandleServerHello(b: seq<u8>)
      requires Valid()
      modifies this
      ensures recLen == old(recLen) && hsLen == old(hsLen)
      ensures Valid() && Core() == TlsSpec.HandleServerHello(old(Core()), b)
    {
      hide Pair, TlsSpec.ChooseSuite;
      if gotHello || |b| < 38 || b[0] != 3 || b[1] != 3 {
        Fail();
        return;
      }
      serverRandom := b[2..34];
      var pos := 35 + b[34] as int;
      if pos + 3 > |b| {
        Fail();
        return;
      }
      ChooseSuite(b, pos);
    }

    method ChooseSuite(b: seq<u8>, pos: nat)
      requires Valid() && pos + 3 <= |b|
      modifies this`state, this`suite, this`gotHello
      ensures Valid() && Core() == TlsSpec.ChooseSuite(old(Core()), b, pos)
    {
      hide Pair;
      suite := b[pos] as int * 256 + b[pos + 1] as int;
      if suite != ECDHE_RSA_GCM_128 && suite != ECDHE_ECDSA_GCM_128 {
        Fail();
        return;
      }
      if b[pos + 2] != 0 {
        Fail();
        return;
      }
      gotHello := true;
    }

    method HandleKeyExchange(b: seq<u8>)
      requires Valid()
      modifies this
      ensures recLen == old(recLen) && hsLen == old(hsLen)
      ensures Valid() && Core() == TlsSpec.HandleKeyExchange(old(Core()), b)
    {
      if !gotHello || |b| < 40 || b[0] != 3 || b[1] != 0 || b[2] != 0x1d || b[3] != 32 {
        Fail();
        return;
      }
      serverPub := b[4..36];
      gotKeyExchange := true;
    }

    /** The key share, the switch to encryption and the Finished. */
    method FinishFlight(shared: seq<u8>)
      requires Valid()
      modifies this, out
      ensures recLen == old(recLen) && hsLen == old(hsLen)
      ensures Valid() && Core() == Finish(p, old(Core()), shared)
    {
      hide TlsSpec.SendRecord, TlsSpec.SendHandshake, Pair;
      DeriveKeys(shared);
      SendHandshake(CLIENT_KEY_EXCHANGE, [32] + p.pub);
      SendCcs();
      ghost var c2 := Core();
      encOut := true;
      assert Core() == c2.(encOut := true);
      SendFinished();
    }

    method DeriveKeys(shared: seq<u8>)
      requires Valid()
      modifies this`keys
      ensures Valid() && Core() == old(Core()).(keys := p.derive(shared, p.clientRandom, old(Core()).serverRandom))
    {
      keys := p.derive(shared, p.clientRandom, serverRandom);
    }

    method SendCcs()
      requires Valid()
      modifies this, out
      ensures recLen == old(recLen) && hsLen == old(hsLen)
      ensures Valid() && Core() == TlsSpec.SendRecord(old(Core()), CCS, [1])
    {
      hide TlsSpec.SendRecord, Pair;
      ghost var h := hs[..hsLen];
      var ccs := new u8[1](_ => 1);
      assert ccs[0..1] == [1];
      SendRecord(CCS, ccs, 0, 1);
    }

    method SendFinished()
      requires Valid()
      modifies this, out
      ensures recLen == old(recLen) && hsLen == old(hsLen)
      ensures Valid() && Core() == TlsSpec.SendHandshake(old(Core()), FINISHED,
        p.finished(old(Core()).keys.master, false, old(Core()).transcript)).(sentFinished := true)
    {
      hide TlsSpec.SendHandshake, Pair;
      var verify := p.finished(keys.master, false, transcript);
      SendHandshake(FINISHED, verify);
      ghost var c := Core();
      sentFinished := true;
      assert Core() == c.(sentFinished := true);
    }

    method HandleHelloDone(len: nat)
      requires Valid()
      modifies this, out
      ensures recLen == old(recLen) && hsLen == old(hsLen)
      ensures Valid() && Core() == TlsSpec.HandleHelloDone(p, old(Core()), len)
    {
      hide TlsSpec.SendRecord, TlsSpec.SendHandshake, Finish;
      if len != 0 || !gotHello || !gotKeyExchange {
        Fail();
        return;
      }
      if certRequested {
        SendHandshake(CERTIFICATE, [0, 0, 0]);
      }
      assert Core() == Certify(old(Core()));
      var shared := p.agree(p.priv, serverPub);
      var zero := true;
      for i := 0 to |shared|
        invariant zero <==> AllZero(shared[..i])
      {
        if shared[i] != 0 {
          zero := false;
        }
      }
      assert shared[..|shared|] == shared;
      if zero {
        Fail();
        return;
      }
      FinishFlight(shared);
    }

    method HandleFinished(b: seq<u8>)
      requires Valid()
      modifies this
      ensures recLen == old(recLen) && hsLen == old(hsLen)
      ensures Valid() && Core() == TlsSpec.HandleFinished(p, old(Core()), b)
    {
      if !sentFinished || !encIn || |b| != 12 {
        Fail();
        return;
      }
      var expected := p.finished(keys.master, true, transcript);
      var eq := ConstEq(expected, b);
      if !eq {
        Fail();
        return;
      }
      state := Ready;
    }

    method Handle(kind: u8, body: seq<u8>)
      requires Valid()
      modifies this, out
      ensures recLen == old(recLen) && hsLen == old(hsLen)
      ensures Valid() && Core() == TlsSpec.Handle(p, old(Core()), kind, body)
    {
      hide TlsSpec.HandleServerHello, TlsSpec.HandleKeyExchange, TlsSpec.HandleHelloDone, TlsSpec.HandleFinished;
      if kind == SERVER_HELLO {
        HandleServerHello(body);
      } else if kind == SERVER_KEY_EXCHANGE {
        HandleKeyExchange(body);
      } else if kind == CERT_REQUEST {
        certRequested := true;
      } else if kind == SERVER_HELLO_DONE {
        HandleHelloDone(|body|);
      } else if kind == FINISHED {
        HandleFinished(body);
      }
    }

    /** Moves what follows the first n handshake bytes to the front. */
    method DropMessage(n: nat)
      requires Valid() && n <= hsLen
      modifies this, hs
      ensures recLen == old(recLen)
      ensures Valid() && Core() == old(Core()).(hs := old(hs[..hsLen])[n..])
    {
      hide Pair;
      ghost var h := hs[..hsLen];
      MoveDown(hs, n, hsLen);
      assert old(hs[n..hsLen]) == h[n..];
      hsLen := hsLen - n;
    }

    method TakeFirst(n: nat)
      requires Valid() && 4 <= n <= hsLen
      modifies this, out, hs
      ensures recLen == old(recLen)
      ensures Valid() && Core() == TakeMessage(p, old(Core()), n)
    {
      hide TlsSpec.Handle;
      var kind, body := hs[0], hs[4..n];
      ghost var c := Core();
      assert body == c.hs[4..n] && hs[..n] == c.hs[..n];
      if kind != FINISHED {
        transcript := transcript + hs[..n];
      }
      Handle(kind, body);
      DropMessage(n);
    }

    /** Takes complete messages off the buffer while the handshake lasts. */
    method ProcessHandshake()
      requires Valid()
      modifies this, out, hs
      ensures recLen == old(recLen)
      ensures Valid() && Core() == TlsSpec.ProcessHandshake(p, old(Core()))
    {
      hide TakeMessage, MessageLength;
      while hsLen >= 4 && state == Handshaking
        invariant recLen == old(recLen)
        invariant Valid() && TlsSpec.ProcessHandshake(p, Core()) == TlsSpec.ProcessHandshake(p, old(Core()))
        decreases hsLen
      {
        var mlen := hs[1] as int * 0x1_0000 + hs[2] as int * 256 + hs[3] as int;
        LengthIs(hs[..hsLen], mlen);
        if mlen + 4 > HS_MAX {
          Fail();
          return;
        }
        if hsLen < mlen + 4 {
          return;
        }
        TakeFirst(mlen + 4);
      }
    }

    static lemma LengthIs(s: seq<u8>, n: int)
      requires |s| >= 4 && n == s[1] as int * 0x1_0000 + s[2] as int * 256 + s[3] as int
      ensures n == MessageLength(s)
    {
      var t := s[1..4];
      BeLast(t, 2);
      BeLast(t[..2], 1);
      BeLast(t[..2][..1], 0);
    }

    // ----- incoming records -----

    method Dispatch(kind: u8, len: nat)
      requires Valid() && 5 + len <= recLen
      modifies this, out, hs
      ensures recLen == old(recLen)
      ensures Valid() && Core() == TlsSpec.Dispatch(p, old(Core()), kind, old(rec[5..5 + len]))
    {
      hide TlsSpec.ProcessHandshake;
      ghost var body := rec[5..5 + len];
      if kind == CCS {
        if encIn || !sentFinished || len != 1 || rec[5] != 1 {
          Fail();
          return;
        }
        encIn := true;
      } else if kind == ALERT {
        HandleAlert(rec[5..5 + len]);
      } else if kind == HANDSHAKE {
        if state != Handshaking {
          Fail();
          return;
        }
        if hsLen + len > HS_MAX {
          Fail();
          return;
        }
        StoreBody(len);
        ProcessHandshake();
      } else if kind == APP_DATA {
        if state != Ready {
          Fail();
          return;
        }
        if len > 0 {
          received := received + rec[5..5 + len];
        }
      } else {
        Fail();
      }
    }

    method HandleAlert(body: seq<u8>)
      requires Valid()
      modifies this
      ensures recLen == old(recLen) && hsLen == old(hsLen)
      ensures Valid() && Core() == TlsSpec.Dispatch(p, old(Core()), ALERT, body)
    {
      hide Pair;
      if |body| >= 2 {
        alertCode := body[1] as int;
        if body[1] == 0 {
          state := Closed;
        } else if body[0] == 2 {
          Fail();
        }
      }
    }

    method StoreBody(len: nat)
      requires Valid() && 5 + len <= recLen && hsLen + len <= HS_MAX
      modifies this, hs
      ensures recLen == old(recLen)
      ensures Valid() && Core() == old(Core()).(hs := old(hs[..hsLen]) + old(rec[5..5 + len]))
    {
      CopyTo(hs, hsLen, rec[5..5 + len]);
      hsLen := hsLen + len;
    }

    /** Checks and decrypts the body of the record in place; the output starts 8 bytes before its input. */
    method OpenBody(kind: u8, plain: nat) returns (ok: bool)
      requires Valid() && 5 + plain + 24 == recLen
      modifies this, rec
      ensures recLen == old(recLen) && hsLen == old(hsLen)
      ensures Valid() && (ok <==> Unseal(old(Core()), kind, old(rec[5..recLen])).Plain?)
      ensures !ok ==> Core() == old(Core())
      ensures ok ==> Core() == old(Core()).(rdSeq := NextSeq(old(Core()).rdSeq))
      ensures ok ==> rec[5..5 + plain] == Unseal(old(Core()), kind, old(rec[5..recLen])).bytes
    {
      hide BeBytes, Tag, Gctr, Pair, NextSeq;
      ghost var c, body := Core(), rec[5..recLen];
      var nonce := keys.rdIv + rec[5..13];
      var num := SeqBytes(rdSeqHi, rdSeqLo);
      TwoBytes(plain);
      var aad := num + [kind, 3, 3] + [(plain / 256) as u8, (plain % 256) as u8];
      BodyParts(rec[..], recLen, plain);
      assert rec[..][5..recLen] == body;
      ok := GcmOpen(keys.rd, nonce, aad, rec, 13, plain, rec[13 + plain..recLen], 5);
      if ok {
        rdSeqHi, rdSeqLo := SeqNext(rdSeqHi, rdSeqLo);
      }
    }

    /** Explicit nonce, ciphertext and tag of a record in the buffer. */
    static lemma BodyParts(rec: seq<u8>, recLen: nat, plain: nat)
      requires 5 + plain + 24 == recLen <= |rec|
      ensures rec[5..recLen][..8] == rec[5..13]
      ensures rec[5..recLen][8..8 + plain] == rec[13..13 + plain]
      ensures rec[5..recLen][8 + plain..] == rec[13 + plain..recLen]
    {
      SubSlice(rec, 5, recLen, 0, 8);
      SubSlice(rec, 5, recLen, 8, 8 + plain);
      SubSlice(rec, 5, recLen, 8 + plain, recLen - 5);
      assert rec[5..recLen][8 + plain..recLen - 5] == rec[5..recLen][8 + plain..];
      assert rec[5..recLen][0..8] == rec[5..recLen][..8];
    }

    static lemma SubSlice(s: seq<u8>, a: nat, b: nat, i: nat, j: nat)
      requires a <= b <= |s| && i <= j <= b - a
      ensures s[a..b][i..j] == s[a + i..a + j]
    {
      var t := s[a..b];
      assert forall x :: 0 <= x < b - a ==> t[x] == s[a + x];
      assert forall x :: 0 <= x < j - i ==> t[i..j][x] == t[i + x];
      var u := s[a + i..a + j];
      assert forall x :: 0 <= x < j - i ==> u[x] == s[a + (i + x)];
      assert t[i..j] == u;
    }

    /** A whole record is in the buffer. */
    method ProcessRecord()
      requires Valid() && recLen >= 5 && recLen == 5 + RecordLength(rec[..recLen])
      modifies this, out, hs, rec
      ensures recLen == old(recLen)
      ensures Valid() && Core() == TlsSpec.ProcessRecord(p, old(Core()), old(rec[..recLen]))
    {
      hide TlsSpec.Dispatch, Unseal, NextSeq;
      ghost var record := rec[..recLen];
      var kind := rec[0];
      var len := rec[3] as int * 256 + rec[4] as int;
      assert record[5..] == rec[5..recLen];
      if rec[1] != 3 {
        Fail();
        return;
      }
      if encIn {
        if len < 24 {
          Fail();
          return;
        }
        var plain := len - 24;
        var ok := OpenBody(kind, plain);
        if !ok {
          Fail();
          return;
        }
        len := plain;
      }
      Dispatch(kind, len);
    }

    method StoreBytes(x: seq<u8>)
      requires Valid() && recLen + |x| <= rec.Length
      modifies this, rec
      ensures Valid() && recLen == old(recLen) + |x| && S() == old(S()).(rec := old(S()).rec + x)
    {
      hide Pair;
      CopyTo(rec, recLen, x);
      recLen := recLen + |x|;
    }

    /** Processes the record in the buffer if it is complete. */
    method ProcessWhole()
      requires Valid()
      modifies this, out, hs, rec
      ensures Valid() && S() == Arrived(p, old(S()))
    {
      hide TlsSpec.ProcessRecord, Pair;
      if recLen >= 5 {
        var rl := rec[3] as int * 256 + rec[4] as int;
        assert rl == RecordLength(rec[..recLen]);
        if rl > REC_MAX {
          Fail();
        } else if recLen == 5 + rl {
          ConsumeRecord();
        }
      }
    }

    method ConsumeRecord()
      requires Valid() && recLen >= 5 && recLen == 5 + RecordLength(rec[..recLen])
      modifies this, out, hs, rec
      ensures Valid() && S() == TlsSpec.ProcessRecord(p, old(S()).(rec := []), old(S()).rec)
    {
      hide TlsSpec.ProcessRecord, Pair;
      RecordEmpty(p, Core(), rec[..recLen]);
      ProcessRecord();
      ghost var c := Core();
      recLen := 0;
      assert Core() == c;
      assert S() == c;
    }

    /** The network delivers some bytes. */
    method Feed(data: seq<u8>)
      requires Valid() && Sound(S())
      modifies this, out, hs, rec
      ensures Valid() && Sound(S()) && S() == TlsSpec.Feed(p, old(S()), data)
    {
      hide Sound, Arrived, TlsSpec.Feed, Pair;
      var done := 0;
      assert data[0..] == data;
      while done < |data| && state != Failed && state != Closed
        invariant Valid() && Sound(S()) && done <= |data|
        invariant TlsSpec.Feed(p, S(), data[done..]) == TlsSpec.Feed(p, old(S()), data)
      {
        ghost var c := S();
        SoundNeed(c);
        var need;
        if recLen < 5 {
          need := 5 - recLen;
        } else {
          need := 5 + (rec[3] as int * 256 + rec[4] as int) - recLen;
        }
        assert need == Need(c);
        var n := if |data| - done < need then |data| - done else need;
        var x := data[done..done + n];
        FeedPart(p, c, x);
        FeedSound(p, c, x);
        FeedAppend(p, c, x, data[done + n..]);
        assert data[done..] == x + data[done + n..];
        StoreBytes(x);
        ProcessWhole();
        done := done + n;
      }
      if done < |data| {
        FeedOver(p, S(), data[done..]);
      } else {
        EmptyFeed(p, S());
        assert data[done..] == [];
      }
    }

    static lemma SoundNeed(c: Conn)
      requires Sound(c) && !Over(c)
      ensures 0 < Need(c) && |c.rec| + Need(c) <= 5 + REC_MAX
    {
    }

    // ----- the user's side -----

    /** Sends the data in records of at most 16384 bytes; -1 when the connection is not ready. */
    method Write(data: array<u8>, len: nat) returns (r: int)
      requires Valid() && len <= data.Length && data != out
      modifies this, out
      ensures recLen == old(recLen) && hsLen == old(hsLen)
      ensures Valid() && r == (if state == Ready then 0 else -1)
      ensures Core() == if r == 0 then TlsProofs.Write(old(Core()), old(data[..len])) else old(Core())
    {
      hide TlsSpec.SendRecord, TlsProofs.Write, Flat, Written;
      if state != Ready {
        return -1;
      }
      ghost var plain := data[..len];
      var done := 0;
      assert plain[0..] == plain;
      while done < len
        invariant Valid() && done <= len && data[..len] == plain && state == Ready
        invariant recLen == old(recLen) && hsLen == old(hsLen)
        invariant TlsProofs.Write(Core(), plain[done..]) == TlsProofs.Write(old(Core()), plain)
      {
        var n := if len - done > CHUNK then CHUNK else len - done;
        WriteUnfolds(Core(), plain[done..]);
        assert data[done..done + n] == plain[done..done + n];
        assert plain[done..][..n] == plain[done..done + n] && plain[done..][n..] == plain[done + n..];
        SendRecord(APP_DATA, data, done, n);
        done := done + n;
      }
      assert plain[done..] == [];
      WriteUnfolds(Core(), plain[done..]);
      r := 0;
    }

    /** Begins the handshake with a ClientHello of this content. */
    method Start(hello: seq<u8>)
      requires Valid() && |hello| <= 512
      modifies this, out
      ensures recLen == old(recLen) && hsLen == old(hsLen)
      ensures Valid() && Core() == TlsSpec.Start(old(Core()), hello)
    {
      hide TlsSpec.SendHandshake;
      if state != Idle {
        return;
      }
      state := Handshaking;
      SendHandshake(CLIENT_HELLO, hello);
      recMinor := 3;
    }

    method Close()
      requires Valid()
      modifies this, out
      ensures recLen == old(recLen) && hsLen == old(hsLen)
      ensures Valid() && Core() == TlsSpec.Close(old(Core()))
    {
      hide TlsSpec.SendRecord;
      if state == Ready {
        var alert := new u8[2](i => if i == 0 then 1 else 0);
        assert alert[0..2] == [1, 0];
        SendRecord(ALERT, alert, 0, 2);
        state := Closed;
      }
    }
  }
}

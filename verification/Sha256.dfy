/** The streaming hash of FIPS 180-4, over any compression function. */
module Sha256 {
  import opened Bytes
  import opened TwosComplement

  const MOD: nat := 0x1_0000_0000

  /** Eight 32-bit words. */
  type Chain = h: seq<nat> | |h| == 8 && forall i :: 0 <= i < 8 ==>
    h[i] < 0x1_0000_0000 witness [0, 0, 0, 0, 0, 0, 0, 0]
  type Block64 = b: seq<u8> | |b| == 64 witness seq(64, _ => 0)

  const INITIAL: Chain := [0x6a09e667, 0xbb67ae85, 0x3c6ef372, 0xa54ff53a, 0x510e527f, 0x9b05688c, 0x1f83d9ab,
    0x5be0cd19]

  /** The chain after all whole blocks of s. */
  function Fold(f: (Chain, Block64) -> Chain, h: Chain, s: seq<u8>): Chain
    decreases |s|
  {
    if |s| < 64 then h else Fold(f, f(h, s[..64]), s[64..])
  }

  lemma {:induction false} FoldAppend(f: (Chain, Block64) -> Chain, h: Chain, s: seq<u8>, t: seq<u8>)
    requires |s| % 64 == 0
    ensures Fold(f, h, s + t) == Fold(f, Fold(f, h, s), t)
    decreases |s|
  {
    if s == [] {
      assert s + t == t;
    } else {
      assert (s + t)[..64] == s[..64] && (s + t)[64..] == s[64..] + t;
      FoldAppend(f, f(h, s[..64]), s[64..], t);
    }
  }

  // ----- padding: section 5.1.1 -----

  /** The zero bytes that bring a message with its 1 bit to 8 bytes short of a whole block. */
  function ZeroCount(n: nat): (k: nat)
    ensures k < 64 && (n + 1 + k) % 64 == 56
  {
    if n % 64 < 56 then 55 - n % 64 else 119 - n % 64
  }

  function Pad(m: seq<u8>): (p: seq<u8>)
    ensures |p| % 64 == 0
  {
    m + [0x80] + seq(ZeroCount(|m|), _ => 0) + BeBytes(8 * |m|, 8)
  }

  function Output(h: Chain): (o: seq<u8>)
    ensures |o| == 32
  {
    LowFour(h[0]) + LowFour(h[1]) + LowFour(h[2]) + LowFour(h[3]) + LowFour(h[4]) + LowFour(h[5]) + LowFour(h[6])
      + LowFour(h[7])
  }

  /** The hash of a whole message. */
  function Hash(f: (Chain, Block64) -> Chain, m: seq<u8>): (o: seq<u8>)
    ensures |o| == 32
  {
    Output(Fold(f, INITIAL, Pad(m)))
  }

  // ----- the hash as section 6.2.2 computes it -----

  lemma {:induction false} BlocksLength(blocks: seq<Block64>)
    ensures |Flat(blocks)| == 64 * |blocks|
  {
    if blocks != [] {
      BlocksLength(blocks[1..]);
    }
  }

  lemma {:induction false} FoldBlocks(f: (Chain, Block64) -> Chain, blocks: seq<Block64>, chain: seq<Chain>)
    requires |chain| == |blocks| + 1
    requires forall j :: 0 <= j < |blocks| ==> chain[j + 1] == f(chain[j], blocks[j])
    ensures Fold(f, chain[0], Flat(blocks)) == chain[|blocks|]
  {
    if blocks != [] {
      BlocksLength(blocks);
      assert Flat(blocks)[..64] == blocks[0] && Flat(blocks)[64..] == Flat(blocks[1..]);
      FoldBlocks(f, blocks[1..], chain[1..]);
    }
  }

  lemma LengthBytes(n: nat, len: seq<u8>)
    requires |len| == 8 && BeVal(len) == n % 0x1_0000_0000_0000_0000
    ensures len == BeBytes(n, 8)
  {
    hide BeVal, BeBytes, LowFour;
    var r := n % 0x1_0000_0000_0000_0000;
    BeBytesOfVal(len);
    FourBytes(n, 4);
    FourBytes(n / MOD, 0);
    FourBytes(r, 4);
    FourBytes(r / MOD, 0);
    NoBytes(n / MOD / MOD);
    NoBytes(r / MOD / MOD);
    LowWords(n);
  }

  lemma LowWords(n: nat)
    ensures var r := n % 0x1_0000_0000_0000_0000;
      LowFour(r) == LowFour(n) && LowFour(r / MOD) == LowFour(n / MOD)
  {
    hide LowFour;
    var r, q := n % 0x1_0000_0000_0000_0000, n / 0x1_0000_0000_0000_0000;
    assert n == MOD * (MOD * q) + r;
    assert n % MOD == r % MOD && n / MOD == MOD * q + r / MOD;
    assert n / MOD % MOD == r / MOD % MOD;
    LowFourOfRest(n);
    LowFourOfRest(r);
    LowFourOfRest(n / MOD);
    LowFourOfRest(r / MOD);
  }

  /** Word i of the digest, in big-endian order, is word i of the chain. */
  lemma OutputWord(h: Chain, i: nat)
    requires i < 8
    ensures BeVal(Output(h)[4 * i..4 * i + 4]) == h[i]
  {
    hide BeVal, BeBytes, LowFour;
    assert Output(h)[4 * i..4 * i + 4] == LowFour(h[i]) by {
      OutputFour(h, i);
    }
    FourBytes(h[i], 0);
    NoBytes(h[i] / MOD);
    assert BeBytes(h[i], 4) == LowFour(h[i]);
    Pow2Values();
    BeValOfBytes(h[i], 4);
  }

  lemma OutputFour(h: Chain, i: nat)
    requires i < 8
    ensures Output(h)[4 * i..4 * i + 4] == LowFour(h[i])
  {
  }

  /** Whoever appends a 1 bit, enough zeros and the length in bits as a 64-bit number, and compresses the blocks of
      the result one after the other from the words of section 5.3.3, ends with the words of this hash. */
  lemma HashIs(f: (Chain, Block64) -> Chain, m: seq<u8>, zeros: seq<u8>, len: seq<u8>, blocks: seq<Block64>,
      chain: seq<Chain>, i: nat)
    requires |zeros| < 64 && (forall j :: 0 <= j < |zeros| ==> zeros[j] == 0)
    requires |len| == 8 && BeVal(len) == 8 * |m| % 0x1_0000_0000_0000_0000
    requires Flat(blocks) == m + [0x80] + zeros + len
    requires |chain| == |blocks| + 1 && chain[0] == [0x6a09e667, 0xbb67ae85, 0x3c6ef372, 0xa54ff53a, 0x510e527f,
      0x9b05688c, 0x1f83d9ab, 0x5be0cd19]
    requires forall j :: 0 <= j < |blocks| ==> chain[j + 1] == f(chain[j], blocks[j])
    requires i < 8
    ensures BeVal(Hash(f, m)[4 * i..4 * i + 4]) == chain[|blocks|][i]
  {
    hide BeVal, BeBytes, Fold, Output, Pad, ZeroCount;
    BlocksLength(blocks);
    ZerosIs(|m|, |zeros|, |blocks|);
    LengthBytes(8 * |m|, len);
    PadIs(m, zeros);
    FoldBlocks(f, blocks, chain);
    OutputWord(chain[|blocks|], i);
  }

  lemma PadIs(m: seq<u8>, zeros: seq<u8>)
    requires |zeros| == ZeroCount(|m|) && (forall j :: 0 <= j < |zeros| ==> zeros[j] == 0)
    ensures m + [0x80] + zeros + BeBytes(8 * |m|, 8) == Pad(m)
  {
    hide BeBytes, ZeroCount;
    assert zeros == seq(ZeroCount(|m|), _ => 0);
  }

  lemma ZerosIs(n: nat, z: nat, blocks: nat)
    requires z < 64 && n + 1 + z + 8 == 64 * blocks
    ensures z == ZeroCount(n)
  {
  }

  // ----- streaming -----

  /** The chain has taken the whole blocks of m; b is what is left over. */
  ghost predicate Absorbed(f: (Chain, Block64) -> Chain, h: Chain, b: seq<u8>, m: seq<u8>) {
    && |b| < 64 && |b| <= |m| && (|m| - |b|) % 64 == 0
    && b == m[|m| - |b|..] && h == Fold(f, INITIAL, m[..|m| - |b|])
  }

  lemma AbsorbMore(f: (Chain, Block64) -> Chain, h: Chain, b: seq<u8>, m: seq<u8>, x: seq<u8>)
    requires Absorbed(f, h, b, m) && |b| + |x| < 64
    ensures Absorbed(f, h, b + x, m + x)
  {
    assert (m + x)[..|m| - |b|] == m[..|m| - |b|];
  }

  lemma AbsorbBlock(f: (Chain, Block64) -> Chain, h: Chain, b: seq<u8>, m: seq<u8>, x: seq<u8>)
    requires Absorbed(f, h, b, m) && |b| + |x| == 64
    ensures Absorbed(f, f(h, b + x), [], m + x)
  {
    var p := m[..|m| - |b|];
    assert m + x == p + (b + x);
    FoldAppend(f, INITIAL, p, b + x);
    assert (b + x)[..64] == b + x && (b + x)[64..] == [];
    assert (m + x)[..|m + x|] == m + x;
  }

  /** When the left-over is empty the chain is that of the whole message. */
  lemma AbsorbedAll(f: (Chain, Block64) -> Chain, h: Chain, b: seq<u8>, m: seq<u8>)
    requires Absorbed(f, h, b, m) && |m| % 64 == 0
    ensures h == Fold(f, INITIAL, m)
  {
    hide Fold;
    assert m[..|m|] == m;
  }

  class Hasher {
    const compress: (Chain, Block64) -> Chain
    var h: Chain
    const buf: array<u8>
    var bufLen: nat
    var lenLo: nat
    var lenHi: nat
    /** Everything hashed so far. */
    ghost var message: seq<u8>

    ghost predicate Valid()
      reads this, buf
    {
      && buf.Length == 64 && bufLen < 64 && lenLo < MOD && lenHi < MOD
      && Absorbed(compress, h, buf[..bufLen], message)
      && lenHi * MOD + lenLo == |message| % 0x1_0000_0000_0000_0000
    }

    constructor (compress: (Chain, Block64) -> Chain)
      ensures Valid() && message == [] && fresh(buf) && this.compress == compress
    {
      this.compress := compress;
      h, bufLen, lenLo, lenHi, message := INITIAL, 0, 0, 0, [];
      buf := new u8[64];
    }

    /** Adds to the two-word length. */
    method CountLength(len: nat)
      requires lenLo < MOD && lenHi < MOD && len < MOD
      modifies this`lenLo, this`lenHi
      ensures lenLo < MOD && lenHi < MOD
      ensures forall n: nat :: old(lenHi * MOD + lenLo) == n % 0x1_0000_0000_0000_0000 ==>
        lenHi * MOD + lenLo == (n + len) % 0x1_0000_0000_0000_0000
    {
      var before, hi := lenLo, lenHi;
      lenLo := (lenLo + len) % MOD;
      if lenLo < before {
        lenHi := (lenHi + 1) % MOD;
      }
      forall n: nat | hi * MOD + before == n % 0x1_0000_0000_0000_0000 ensures lenHi * MOD + lenLo
        == (n + len) % 0x1_0000_0000_0000_0000 {
        CountBytes(before, hi, n, len, lenLo, lenHi);
      }
      CountBytes(before, hi, hi * MOD + before, len, lenLo, lenHi);
    }

    /** Copies bytes to the buffer and compresses it when it is full. */
    method Take(x: seq<u8>, ghost now: seq<u8>)
      requires buf.Length == 64 && bufLen + |x| <= 64 && bufLen < 64 && Absorbed(compress, h, buf[..bufLen], now)
      modifies this`h, this`bufLen, buf
      ensures bufLen < 64 && Absorbed(compress, h, buf[..bufLen], now + x)
    {
      hide Absorbed;
      ghost var b := buf[..bufLen];
      CopyTo(buf, bufLen, x);
      assert buf[..bufLen + |x|] == b + x;
      bufLen := bufLen + |x|;
      if bufLen == 64 {
        assert buf[..] == b + x;
        AbsorbBlock(compress, h, b, now, x);
        h := compress(h, buf[..]);
        bufLen := 0;
        assert buf[..0] == [];
      } else {
        AbsorbMore(compress, h, b, now, x);
      }
    }

    /** Hashes some more bytes; the length is kept in two words. */
    method Update(data: seq<u8>)
      requires Valid() && |data| < MOD
      modifies this, buf
      ensures Valid() && message == old(message) + data
    {
      hide Absorbed;
      ghost var m := message;
      CountLength(|data|);
      var done := 0;
      assert m + data[..0] == m;
      while done < |data|
        invariant done <= |data| && bufLen < 64 && Absorbed(compress, h, buf[..bufLen], m + data[..done])
        modifies this`h, this`bufLen, buf
      {
        var n := 64 - bufLen;
        if n > |data| - done {
          n := |data| - done;
        }
        Take(data[done..done + n], m + data[..done]);
        assert m + data[..done] + data[done..done + n] == m + data[..done + n];
        done := done + n;
      }
      assert data[..done] == data;
      message := m + data;
    }

    static lemma CountBytes(lo: nat, hi: nat, n: nat, k: nat, lo1: nat, hi1: nat)
      requires lo < MOD && hi < MOD && k < MOD && hi * MOD + lo == n % 0x1_0000_0000_0000_0000
      requires lo1 == (lo + k) % MOD && hi1 == if lo1 < lo then (hi + 1) % MOD else hi
      ensures hi1 * MOD + lo1 == (n + k) % 0x1_0000_0000_0000_0000 && hi1 < MOD && lo1 < MOD
    {
      var q := n / 0x1_0000_0000_0000_0000;
      assert n + k == q * 0x1_0000_0000_0000_0000 + (hi * MOD + lo + k);
    }

    static lemma SplitWord(x: int, r: nat)
      requires r < MOD
      ensures (x * MOD + r) / MOD == x && (x * MOD + r) % MOD == r
    {
    }

    /** Eight times a word leaves its low three bits clear. */
    static lemma ShiftedWord(w: nat, c: nat)
      requires c < 8
      ensures (8 * w + c) % MOD == 8 * w % MOD + c
    {
      var d := w / 0x2000_0000;
      SplitWord(d, 8 * (w % 0x2000_0000));
      SplitWord(d, 8 * (w % 0x2000_0000) + c);
    }

    /** Eight times a two-word length, as two words. */
    static lemma BitWords(lo: nat, hi: nat, n: nat)
      requires lo < MOD && hi < MOD && hi * MOD + lo == n % 0x1_0000_0000_0000_0000
      ensures 8 * n % MOD == 8 * lo % MOD
      ensures 8 * n / MOD % MOD == 8 * hi % MOD + lo / 0x2000_0000
    {
      var q := n / 0x1_0000_0000_0000_0000;
      var c, r := lo / 0x2000_0000, 8 * (lo % 0x2000_0000);
      var v := 8 * hi + c;
      SplitWord(c, r);
      SplitWord(8 * q * MOD + v, r);
      SplitWord(8 * q + v / MOD, v % MOD);
      ShiftedWord(hi, c);
    }

    /** The eight bytes of the length in bits, from the two words of the length in bytes. */
    static lemma BitLength(lo: nat, hi: nat, n: nat)
      requires lo < MOD && hi < MOD && hi * MOD + lo == n % 0x1_0000_0000_0000_0000
      ensures LowFour(8 * hi % MOD + lo / 0x2000_0000) + LowFour(8 * lo % MOD) == BeBytes(8 * n, 8)
    {
      hide LowFour, BeBytes;
      BitWords(lo, hi, n);
      FourBytes(8 * n, 4);
      FourBytes(8 * n / MOD, 0);
      NoBytes(8 * n / MOD / MOD);
      LowFourOfRest(8 * n);
      LowFourOfRest(8 * n / MOD);
    }

    /** Pads, hashes the length and gives the digest. */
    method Final() returns (out: seq<u8>)
      requires Valid()
      modifies this, buf
      ensures out == Hash(compress, old(message))
    {
      hide Absorbed, LowFour, BeBytes;
      ghost var m := message;
      var bitsHi := 8 * lenHi % MOD + lenLo / 0x2000_0000;
      var bitsLo := 8 * lenLo % MOD;
      BitLength(lenLo, lenHi, |m|);
      LeftOver();
      var padLen := if bufLen < 56 then 56 - bufLen else 120 - bufLen;
      var pad := [0x80] + seq(padLen - 1, _ => 0);
      Update(pad);
      Update(LowFour(bitsHi) + LowFour(bitsLo));
      assert message == Pad(m) by {
        assert padLen - 1 == ZeroCount(|m|);
      }
      AbsorbedAll(compress, h, buf[..bufLen], message);
      out := Output(h);
    }

    lemma LeftOver()
      requires Valid()
      ensures bufLen == |message| % 64
    {
    }

    /** However a message is cut up, hashing the pieces gives its hash. */
    method HashPieces(pieces: seq<seq<u8>>) returns (out: seq<u8>)
      requires Valid() && message == [] && forall i :: 0 <= i < |pieces| ==> |pieces[i]| < MOD
      modifies this, buf
      ensures out == Hash(compress, Flat(pieces))
    {
      hide Absorbed, Hash;
      for i := 0 to |pieces|
        invariant Valid() && message == Flat(pieces[..i])
      {
        Update(pieces[i]);
        FlatLast(pieces[..i], pieces[i]);
        assert pieces[..i + 1] == pieces[..i] + [pieces[i]];
      }
      assert pieces[..|pieces|] == pieces;
      out := Final();
    }
  }
}

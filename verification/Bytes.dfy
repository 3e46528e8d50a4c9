/** Bytes and their little-endian and big-endian readings. */
module Bytes {
  import opened TwosComplement

  newtype u8 = x: int | 0 <= x < 256

  function XorByte(x: u8, y: u8): u8 {
    XorFits(x as int, y as int, 8);
    Pow2Values();
    XorNonNegative(x as int, y as int, 8);
    Xor(x as int, y as int, 8) as u8
  }

  function OrByte(x: u8, y: u8): u8 {
    Pow2Values();
    AndFits(Not(x as int), Not(y as int), 8);
    AndOnes(Not(x as int), Not(y as int), 8);
    Or(x as int, y as int, 8) as u8
  }

  lemma OrZero(x: u8, y: u8)
    ensures OrByte(x, y) == 0 <==> x == 0 && y == 0
  {
    hide And;
    Pow2Values();
    AndOnes(Not(x as int), Not(y as int), 8);
  }

  /** An or is zero only when both are, and an xor only when they agree. */
  lemma OrXorZero(d: u8, x: u8, y: u8)
    ensures OrByte(d, XorByte(x, y)) == 0 <==> d == 0 && x == y
  {
    hide OrByte, XorByte;
    OrZero(d, XorByte(x, y));
    XorByteTwice(x, y);
    XorByteTwice(0, x);
    XorByteTwice(y, y);
  }

  lemma {:induction false} XorNonNegative(x: int, y: int, n: nat)
    requires x >= 0 && y >= 0
    ensures Xor(x, y, n) >= 0
    decreases n
  {
    if n > 0 {
      XorNonNegative(x / 2, y / 2, n - 1);
    }
  }

  /** Adding the same mask twice gives the byte back. */
  lemma XorByteTwice(x: u8, m: u8)
    ensures XorByte(XorByte(x, m), m) == x
    ensures XorByte(0, x) == x && XorByte(x, 0) == x
  {
    Pow2Values();
    XorCommutes(x as int, m as int, 8);
    XorCancels(m as int, x as int, 8);
    XorCommutes(XorByte(x, m) as int, m as int, 8);
    XorZero(x as int, 8);
    XorCommutes(x as int, 0, 8);
  }

  // ----- little endian -----

  function LeVal(s: seq<u8>): (v: int)
    ensures v >= 0
  {
    if s == [] then 0 else s[0] as int + 256 * LeVal(s[1..])
  }

  function LeBytes(v: nat, n: nat): (s: seq<u8>)
    ensures |s| == n
    decreases n, v
  {
    if n == 0 then [] else [(v % 256) as u8] + LeBytes(v / 256, n - 1)
  }

  /** Encoding is the inverse of decoding, so an integer has at most one encoding of each length. */
  lemma {:induction false} LeBytesOfVal(s: seq<u8>)
    ensures LeBytes(LeVal(s), |s|) == s
  {
    if s != [] {
      LeBytesOfVal(s[1..]);
      LowByte(s[0], LeVal(s[1..]));
      assert s == [s[0]] + s[1..];
    }
  }

  lemma LowByte(x: u8, v: int)
    ensures (x as int + 256 * v) % 256 == x as int && (x as int + 256 * v) / 256 == v
  {
  }

  lemma {:induction false} LeValOfBytes(v: nat, n: nat)
    requires v < Pow2(8 * n)
    ensures LeVal(LeBytes(v, n)) == v
    decreases n
  {
    if n > 0 {
      BytePow2(n - 1);
      LeValOfBytes(v / 256, n - 1);
      var s := LeBytes(v, n);
      assert s[1..] == LeBytes(v / 256, n - 1);
    }
  }

  lemma {:induction false} LeBytesZero(v: nat, n: nat)
    requires v == 0
    ensures forall i :: 0 <= i < n ==> LeBytes(v, n)[i] == 0
    decreases n
  {
    if n > 0 {
      LeBytesZero(v / 256, n - 1);
    }
  }

  lemma BytePow2(n: nat)
    ensures Pow2(8 * (n + 1)) == 256 * Pow2(8 * n)
  {
    Pow2Add(8, 8 * n);
    Pow2Values();
  }

  /** Bit i of a nonnegative integer. */
  lemma {:induction false} LeValBound(s: seq<u8>)
    ensures LeVal(s) < Pow2(8 * |s|)
  {
    if s != [] {
      LeValBound(s[1..]);
      BytePow2(|s| - 1);
    }
  }

  lemma {:induction false} LeAppend(s: seq<u8>, b: u8)
    ensures LeVal(s + [b]) == LeVal(s) + Pow2(8 * |s|) * b as int
  {
    if s == [] {
      assert s + [b] == [b] && LeVal([b]) == b as int + 256 * LeVal([]);
    } else {
      assert (s + [b])[1..] == s[1..] + [b];
      LeAppend(s[1..], b);
      BytePow2(|s| - 1);
      assert 256 * (Pow2(8 * (|s| - 1)) * b as int) == Pow2(8 * |s|) * b as int;
    }
  }

  function Bit(v: int, i: nat): (b: int)
    ensures b == 0 || b == 1
    decreases i
  {
    if i == 0 then v % 2 else Bit(v / 2, i - 1)
  }

  lemma BitPastByte(x: u8, v: int, i: nat)
    ensures Bit(x as int + 256 * v, i + 8) == Bit(v, i)
    ensures i < 8 ==> Bit(x as int + 256 * v, i) == Bit(x as int, i)
  {
    LowBits(x as int, v, 8, i);
    Pow2Values();
  }

  lemma {:induction false} LowBits(x: int, v: int, n: nat, i: nat)
    requires 0 <= x < Pow2(n)
    ensures Bit(x + Pow2(n) * v, i + n) == Bit(v, i)
    ensures i < n ==> Bit(x + Pow2(n) * v, i) == Bit(x, i)
    decreases n
  {
    if n > 0 {
      var w := Pow2(n - 1);
      assert (2 * w) * v == 2 * (w * v);
      assert (x + 2 * (w * v)) / 2 == x / 2 + w * v;
      LowBits(x / 2, v, n - 1, i);
      if 0 < i < n {
        LowBits(x / 2, v, n - 1, i - 1);
      }
    }
  }

  /** Bit i of a little-endian integer is bit i mod 8 of byte i / 8. */
  lemma {:induction false} BitOfLe(s: seq<u8>, i: nat)
    requires i < 8 * |s|
    ensures Bit(LeVal(s), i) == Bit(s[i / 8] as int, i % 8)
  {
    if i < 8 {
      BitPastByte(s[0], LeVal(s[1..]), i);
    } else {
      BitPastByte(s[0], LeVal(s[1..]), i - 8);
      BitOfLe(s[1..], i - 8);
    }
  }

  // ----- big endian -----

  function BeVal(s: seq<u8>): (v: int)
    ensures v >= 0
  {
    if s == [] then 0 else 256 * BeVal(s[..|s| - 1]) + s[|s| - 1] as int
  }

  function BeBytes(v: nat, n: nat): (s: seq<u8>)
    ensures |s| == n
    decreases n, v
  {
    if n == 0 then [] else BeBytes(v / 256, n - 1) + [(v % 256) as u8]
  }

  lemma {:induction false} BeValOfBytes(v: nat, n: nat)
    requires v < Pow2(8 * n)
    ensures BeVal(BeBytes(v, n)) == v
    decreases n
  {
    if n > 0 {
      Pow2Add(8, 8 * (n - 1));
      Pow2Values();
      BeValOfBytes(v / 256, n - 1);
      var s := BeBytes(v, n);
      assert s[..n - 1] == BeBytes(v / 256, n - 1);
    }
  }

  lemma {:induction false} BeBytesOfVal(s: seq<u8>)
    ensures BeBytes(BeVal(s), |s|) == s
  {
    if s != [] {
      BeBytesOfVal(s[..|s| - 1]);
      LowByte(s[|s| - 1], BeVal(s[..|s| - 1]));
      assert s == s[..|s| - 1] + [s[|s| - 1]];
    }
  }

  lemma {:induction false} BeValBound(s: seq<u8>)
    ensures BeVal(s) < Pow2(8 * |s|)
  {
    if s != [] {
      BeValBound(s[..|s| - 1]);
      BytePow2(|s| - 1);
    }
  }

  lemma BeLast(s: seq<u8>, n: nat)
    requires |s| == n + 1
    ensures BeVal(s) == s[n] as int + 256 * BeVal(s[..n])
  {
  }

  lemma TwoBytes(v: nat)
    requires v < 65536
    ensures BeBytes(v, 2) == [(v / 256) as u8, (v % 256) as u8]
  {
    assert BeBytes(v, 2) == BeBytes(v / 256, 1) + [(v % 256) as u8];
    assert BeBytes(v / 256, 1) == BeBytes(v / 256 / 256, 0) + [(v / 256 % 256) as u8];
  }

  function LowFour(v: nat): seq<u8> {
    [(v / 0x100_0000 % 256) as u8, (v / 0x1_0000 % 256) as u8, (v / 256 % 256) as u8, (v % 256) as u8]
  }

  lemma FourBytes(v: nat, n: nat)
    ensures BeBytes(v, n + 4) == BeBytes(v / 0x1_0000_0000, n) + LowFour(v)
  {
    assert v / 256 / 256 == v / 0x1_0000 && v / 256 / 256 / 256 == v / 0x100_0000
      && v / 256 / 256 / 256 / 256 == v / 0x1_0000_0000;
    assert BeBytes(v, n + 4) == BeBytes(v / 256, n + 3) + [(v % 256) as u8];
    assert BeBytes(v / 256, n + 3) == BeBytes(v / 256 / 256, n + 2) + [(v / 256 % 256) as u8];
    assert BeBytes(v / 256 / 256, n + 2) == BeBytes(v / 256 / 256 / 256, n + 1) + [(v / 256 / 256 % 256) as u8];
    assert BeBytes(v / 256 / 256 / 256, n + 1) == BeBytes(v / 256 / 256 / 256 / 256, n)
      + [(v / 256 / 256 / 256 % 256) as u8];
  }

  lemma LowFourOfRest(v: nat)
    ensures LowFour(v % 0x1_0000_0000) == LowFour(v)
  {
    var q, r := v / 0x1_0000_0000, v % 0x1_0000_0000;
    assert v == 256 * (0x100_0000 * q) + r;
    assert v / 256 == 256 * (0x1_0000 * q) + r / 256;
    assert v / 0x1_0000 == 256 * (256 * q) + r / 0x1_0000;
    assert v / 0x100_0000 == 256 * q + r / 0x100_0000;
    LastByte(0x100_0000 * q, r);
    LastByte(0x1_0000 * q, r / 256);
    LastByte(256 * q, r / 0x1_0000);
    LastByte(q, r / 0x100_0000);
  }

  lemma LastByte(q: nat, r: nat)
    ensures (256 * q + r) % 256 == r % 256
  {
  }

  lemma NoBytes(v: nat)
    ensures BeBytes(v, 0) == []
  {
  }

  /** The pieces one after the other. */
  function Flat(pieces: seq<seq<u8>>): seq<u8> {
    if pieces == [] then [] else pieces[0] + Flat(pieces[1..])
  }

  lemma {:induction false} FlatLast(pieces: seq<seq<u8>>, last: seq<u8>)
    ensures Flat(pieces + [last]) == Flat(pieces) + last
  {
    if pieces == [] {
      assert [last][1..] == [];
    } else {
      assert (pieces + [last])[1..] == pieces[1..] + [last];
      FlatLast(pieces[1..], last);
    }
  }

  method PutBe32(p: array<u8>, at: nat, v: nat)
    requires at + 4 <= p.Length && v < 0x1_0000_0000
    modifies p
    ensures p[..] == old(p[..at]) + BeBytes(v, 4) + old(p[at + 4..])
    ensures p[..at + 4] == old(p[..at]) + BeBytes(v, 4)
  {
    ghost var was := p[..];
    p[at] := (v / 0x100_0000) as u8;
    p[at + 1] := (v / 0x1_0000 % 256) as u8;
    p[at + 2] := (v / 256 % 256) as u8;
    p[at + 3] := (v % 256) as u8;
    FourBytes(v, 0);
    assert p[..] == was[..at] + BeBytes(v, 4) + was[at + 4..];
  }

  method Put16(b: array<u8>, at: nat, v: nat)
    requires at + 2 <= b.Length && v < 65536
    modifies b
    ensures b[..] == old(b[..at]) + BeBytes(v, 2) + old(b[at + 2..])
    ensures b[..at + 2] == old(b[..at]) + BeBytes(v, 2)
  {
    ghost var was := b[..];
    TwoBytes(v);
    b[at] := (v / 256) as u8;
    b[at + 1] := (v % 256) as u8;
    assert b[..] == was[..at] + BeBytes(v, 2) + was[at + 2..];
  }

  method CopyTo(dst: array<u8>, at: nat, src: seq<u8>)
    requires at + |src| <= dst.Length
    modifies dst
    ensures dst[..] == old(dst[..at]) + src + old(dst[at + |src|..])
  {
    ghost var was := dst[..];
    for i := 0 to |src|
      invariant forall j :: 0 <= j < dst.Length ==> dst[j] == if at <= j < at + i then src[j - at] else was[j]
    {
      dst[at + i] := src[i];
    }
    assert dst[..] == was[..at] + src + was[at + |src|..];
  }

  /** Moves the bytes from n up to len down to the front, lowest first. */
  method MoveDown(a: array<u8>, n: nat, len: nat)
    requires n <= len <= a.Length
    modifies a
    ensures a[..len - n] == old(a[n..len])
  {
    ghost var was := a[..];
    for i := 0 to len - n
      invariant forall j :: 0 <= j < i ==> a[j] == was[j + n]
      invariant forall j :: i <= j < a.Length ==> a[j] == was[j]
    {
      a[i] := a[i + n];
    }
    assert a[..len - n] == was[n..len];
  }
}

/** Galois/Counter Mode as in NIST SP 800-38D, over any block cipher, and the byte loops that compute it. */
module Gcm {
  import opened Bytes
  import opened TwosComplement

  type Block16 = s: seq<u8> | |s| == 16 witness seq(16, _ => 0)
  type Iv = s: seq<u8> | |s| == 12 witness seq(12, _ => 0)

  /** A key set up for use: the cipher under it and the hash subkey, the cipher's value at zero. */
  datatype Key = Key(cipher: Block16 -> Block16)

  function Zero16(): Block16 {
    seq(16, _ => 0)
  }

  function Subkey(key: Key): Block16 {
    key.cipher(Zero16())
  }

  function XorSeq(a: seq<u8>, b: seq<u8>): (r: seq<u8>)
    requires |a| <= |b|
    ensures |r| == |a| && forall i :: 0 <= i < |a| ==> r[i] == XorByte(a[i], b[i])
  {
    if a == [] then [] else XorSeq(a[..|a| - 1], b) + [XorByte(a[|a| - 1], b[|a| - 1])]
  }

  // ----- blocks as 128-bit integers; the leftmost bit is the most significant -----

  /** The low k bits of x below a. */
  function Join(x: int, a: int, k: nat): int
    decreases k, x
  {
    if k == 0 then a else x % 2 + 2 * Join(x / 2, a, k - 1)
  }

  lemma {:induction false} XorJoined(x: int, y: int, a: int, b: int, k: nat, n: nat)
    ensures Xor(Join(x, a, k), Join(y, b, k), n + k) == Join(Xor(x, y, k), Xor(a, b, n), k)
    decreases k
  {
    if k > 0 {
      XorHalves(x, y, k);
      XorJoined(x / 2, y / 2, a, b, k - 1, n);
    }
  }

  lemma JoinByte(x: int, a: int)
    requires 0 <= x < 256
    ensures Join(x, a, 8) == x + 256 * a
  {
    assert Join(x / 128, a, 1) == x / 128 + 2 * a by { assert Join(x / 128 / 2, a, 0) == a; }
    assert Join(x / 64, a, 2) == x / 64 + 4 * a by { assert x / 64 / 2 == x / 128; }
    assert Join(x / 32, a, 3) == x / 32 + 8 * a by { assert x / 32 / 2 == x / 64; }
    assert Join(x / 16, a, 4) == x / 16 + 16 * a by { assert x / 16 / 2 == x / 32; }
    assert Join(x / 8, a, 5) == x / 8 + 32 * a by { assert x / 8 / 2 == x / 16; }
    assert Join(x / 4, a, 6) == x / 4 + 64 * a by { assert x / 4 / 2 == x / 8; }
    assert Join(x / 2, a, 7) == x / 2 + 128 * a by { assert x / 2 / 2 == x / 4; }
  }

  lemma XorPastByte(x: u8, y: u8, a: int, b: int, xa: int, yb: int, n: nat)
    requires xa == x as int + 256 * a && yb == y as int + 256 * b && n >= 8
    ensures Xor(xa, yb, n) == XorByte(x, y) as int + 256 * Xor(a, b, n - 8)
  {
    hide Join, Xor;
    JoinByte(x as int, a);
    JoinByte(y as int, b);
    XorJoined(x as int, y as int, a, b, 8, n - 8);
    JoinByte(XorByte(x, y) as int, Xor(a, b, n - 8));
  }

  lemma {:induction false} BeXor(a: seq<u8>, b: seq<u8>)
    requires |a| == |b|
    ensures BeVal(XorSeq(a, b)) == Xor(BeVal(a), BeVal(b), 8 * |a|)
    decreases |a|
  {
    hide Xor, XorByte, XorSeq, BeVal;
    if a == [] {
      NoXor(a, b);
    } else {
      var n := |a| - 1;
      BeXor(a[..n], b[..n]);
      XorSeqLast(a, b);
      BeLast(a, n);
      BeLast(b, n);
      BeLast(XorSeq(a, b), n);
      XorPastByte(a[n], b[n], BeVal(a[..n]), BeVal(b[..n]), BeVal(a), BeVal(b), 8 * |a|);
    }
  }

  lemma NoXor(a: seq<u8>, b: seq<u8>)
    requires a == [] == b
    ensures BeVal(XorSeq(a, b)) == Xor(BeVal(a), BeVal(b), 8 * |a|)
  {
    assert XorSeq(a, b) == [];
  }

  lemma XorSeqLast(a: seq<u8>, b: seq<u8>)
    requires |a| == |b| > 0
    ensures XorSeq(a, b)[..|a| - 1] == XorSeq(a[..|a| - 1], b[..|a| - 1])
    ensures XorSeq(a, b)[|a| - 1] == XorByte(a[|a| - 1], b[|a| - 1])
  {
    hide XorByte;
  }

  lemma {:induction false} BitOfBe(s: seq<u8>, i: nat)
    requires i < 8 * |s|
    ensures Bit(BeVal(s), 8 * |s| - 1 - i) == Bit(s[i / 8] as int, 7 - i % 8)
  {
    var n := |s| - 1;
    if i / 8 == n {
      BitPastByte(s[n], BeVal(s[..n]), 7 - i % 8);
    } else {
      BitPastByte(s[n], BeVal(s[..n]), 8 * n - 1 - i);
      BitOfBe(s[..n], i);
      assert s[..n][i / 8] == s[i / 8];
    }
  }

  /** Every byte takes the low bit of the one before it. */
  ghost predicate Halved(s: seq<u8>, r: seq<u8>) {
    |r| == |s| && forall j :: 0 <= j < |s| ==> r[j] as int == s[j] as int / 2 + Carried(s, j)
  }

  function Carried(s: seq<u8>, j: nat): int {
    if 0 < j <= |s| then 128 * (s[j - 1] as int % 2) else 0
  }

  lemma {:induction false} BeHalf(s: seq<u8>, r: seq<u8>)
    requires Halved(s, r)
    ensures BeVal(r) == BeVal(s) / 2 && (s != [] ==> BeVal(s) % 2 == s[|s| - 1] as int % 2)
  {
    if s != [] {
      var n := |s| - 1;
      forall j | 0 <= j < n
        ensures r[..n][j] as int == s[..n][j] as int / 2 + Carried(s[..n], j)
      {
        assert r[j] as int == s[j] as int / 2 + Carried(s, j);
      }
      BeHalf(s[..n], r[..n]);
      assert r[n] as int == s[n] as int / 2 + Carried(s, n);
    }
  }

  // ----- multiplication: Algorithm 1 of section 6.3 -----

  /** The byte 11100001 followed by 120 zero bits. */
  function Reduction(): (r: Block16) {
    [0xe1] + seq(15, _ => 0)
  }

  function NextV(v: int): int {
    if v % 2 == 0 then v / 2 else Xor(v / 2, BeVal(Reduction()), 128)
  }

  /** The steps i, i + 1, ..., 127 of the algorithm. */
  function Product(x: int, z: int, v: int, i: nat): int
    decreases 128 - i
  {
    if i >= 128 then z
    else Product(x, if Bit(x, 127 - i) == 1 then Xor(z, v, 128) else z, NextV(v), i + 1)
  }

  lemma {:induction false} ProductFits(x: int, z: int, v: int, i: nat)
    requires 0 <= z < Pow2(128) && 0 <= v < Pow2(128)
    ensures 0 <= Product(x, z, v, i) < Pow2(128)
    decreases 128 - i
  {
    if i < 128 {
      XorFits(z, v, 128);
      XorNonNegative(z, v, 128);
      NextFits(v);
      ProductFits(x, if Bit(x, 127 - i) == 1 then Xor(z, v, 128) else z, NextV(v), i + 1);
    }
  }

  lemma NextFits(v: int)
    requires 0 <= v < Pow2(128)
    ensures 0 <= NextV(v) < Pow2(128)
  {
    BeValBound(Reduction());
    XorFits(v / 2, BeVal(Reduction()), 128);
    XorNonNegative(v / 2, BeVal(Reduction()), 128);
  }

  /** The product of two blocks. */
  function Mul(x: Block16, h: Block16): Block16 {
    BeValBound(h);
    ProductFits(BeVal(x), 0, BeVal(h), 0);
    BeBytes(Product(BeVal(x), 0, BeVal(h), 0), 16)
  }

  function AndByte(x: u8, y: u8): u8 {
    AndFits(x as int, y as int, 8);
    AndNonNegative(x as int, y as int, 8);
    Pow2Values();
    And(x as int, y as int, 8) as u8
  }

  lemma {:induction false} AndNonNegative(x: int, y: int, n: nat)
    requires x >= 0
    ensures And(x, y, n) >= 0
    decreases n
  {
    if n > 0 {
      AndNonNegative(x / 2, y / 2, n - 1);
    }
  }

  lemma AndByteMask(x: u8, bit: int)
    requires bit == 0 || bit == 1
    ensures AndByte(x, (255 * bit) as u8) == if bit == 1 then x else 0
  {
    hide And;
    Pow2Values();
    if bit == 1 {
      AndLowBits(x as int, 8, 8);
    } else {
      AndLowBits(x as int, 0, 8);
    }
  }

  /** What one round does to z and v, on bytes. */
  ghost predicate Round(z: seq<u8>, v: seq<u8>, bit: int, z1: seq<u8>, v1: seq<u8>) {
    && |z| == |v| == |z1| == |v1| == 16
    && z1 == (if bit == 1 then XorSeq(z, v) else z)
    && exists half: seq<u8> ::
      Halved(v, half) && v1 == if v[15] as int % 2 == 1 then XorSeq(half, Reduction()) else half
  }

  lemma RoundIsStep(x: seq<u8>, z: seq<u8>, v: seq<u8>, i: nat, z1: seq<u8>, v1: seq<u8>)
    requires |x| == 16 && i < 128 && Round(z, v, Bit(x[i / 8] as int, 7 - i % 8), z1, v1)
    ensures Product(BeVal(x), BeVal(z), BeVal(v), i) == Product(BeVal(x), BeVal(z1), BeVal(v1), i + 1)
  {
    hide Xor, XorByte, XorSeq, Bit, BeVal, Reduction, Product;
    BitOfBe(x, i);
    RoundV(z, v, Bit(x[i / 8] as int, 7 - i % 8), z1, v1);
    ProductStep(BeVal(x), BeVal(z), BeVal(v), i);
  }

  lemma RoundV(z: seq<u8>, v: seq<u8>, bit: int, z1: seq<u8>, v1: seq<u8>)
    requires Round(z, v, bit, z1, v1)
    ensures BeVal(z1) == if bit == 1 then Xor(BeVal(z), BeVal(v), 128) else BeVal(z)
    ensures BeVal(v1) == NextV(BeVal(v))
  {
    hide Xor, XorByte, XorSeq, Bit, BeVal, Reduction;
    var half: seq<u8> :| Halved(v, half) && v1 == if v[15] as int % 2 == 1 then XorSeq(half, Reduction()) else half;
    hide Halved;
    BeXor(z, v);
    BeHalf(v, half);
    BeXor(half, Reduction());
  }

  lemma ProductStep(x: int, z: int, v: int, i: nat)
    requires i < 128
    ensures Product(x, z, v, i) == Product(x, if Bit(x, 127 - i) == 1 then Xor(z, v, 128) else z, NextV(v), i + 1)
  {
    hide Xor, Bit, NextV;
  }

  /** Round i of the multiplication by x. */
  method MulRound(x: array<u8>, z: array<u8>, v: array<u8>, i: nat)
    requires x.Length == z.Length == v.Length == 16 && z != v && z != x && v != x && i < 128
    modifies z, v
    ensures Product(BeVal(x[..]), BeVal(z[..]), BeVal(v[..]), i + 1)
      == Product(BeVal(x[..]), old(BeVal(z[..])), old(BeVal(v[..])), i)
  {
    hide Xor, And, Bit, Product, Round, BeVal;
    ghost var x0, z0, v0 := x[..], z[..], v[..];
    var bit := Bit(x[i / 8] as int, 7 - i % 8);
    var mask := (255 * bit) as u8;
    var lsb := v[15] as int % 2;
    AddMasked(z, v, mask, bit);
    ShiftDown(v);
    AndByteMask(0xe1, lsb);
    ghost var half := v[..];
    v[0] := XorByte(v[0], AndByte(0xe1, (255 * lsb) as u8));
    Reduced(half, lsb, v[..]);
    assert x[..] == x0 && x0[i / 8] == x[i / 8];
    RoundDone(z0, v0, bit, half, z[..], v[..]);
    RoundIsStep(x0, z0, v0, i, z[..], v[..]);
  }

  /** x becomes the product of x and h. */
  method GMul(x: array<u8>, h: Block16)
    requires x.Length == 16
    modifies x
    ensures x[..] == Mul(old(x[..]), h)
  {
    hide Xor, And, Bit, Product, Round, BeVal;
    ghost var x0 := x[..];
    var z := new u8[16](_ => 0);
    var v := new u8[16](i requires 0 <= i < 16 => h[i]);
    assert v[..] == h;
    ZeroVal(z[..]);
    for i := 0 to 128
      invariant x[..] == x0 && fresh(z) && fresh(v) && z != v && z != x && v != x
      invariant Product(BeVal(x0), BeVal(z[..]), BeVal(v[..]), i) == Product(BeVal(x0), 0, BeVal(h), 0)
      modifies z, v
    {
      MulRound(x, z, v, i);
    }
    LastProduct(BeVal(x0), BeVal(z[..]), BeVal(v[..]));
    BeBytesOfVal(z[..]);
    for k := 0 to 16
      invariant forall j :: 0 <= j < k ==> x[j] == z[j]
      modifies x
    {
      x[k] := z[k];
    }
    assert x[..] == z[..];
  }

  lemma LastProduct(x: int, z: int, v: int)
    ensures Product(x, z, v, 128) == z
  {
  }

  lemma {:induction false} ZeroVal(s: seq<u8>)
    requires forall i :: 0 <= i < |s| ==> s[i] == 0
    ensures BeVal(s) == 0
  {
    if s != [] {
      ZeroVal(s[..|s| - 1]);
    }
  }

  lemma Reduced(half: seq<u8>, lsb: int, v: seq<u8>)
    requires |half| == 16 == |v| && (lsb == 0 || lsb == 1)
    requires v == half[0 := XorByte(half[0], if lsb == 1 then 0xe1 else 0)]
    ensures v == if lsb == 1 then XorSeq(half, Reduction()) else half
  {
    hide XorByte;
    forall j | 0 <= j < 16 ensures XorByte(half[j], 0) == half[j] {
      XorByteTwice(half[j], 0);
    }
    if lsb == 1 {
      assert v == XorSeq(half, Reduction());
    }
  }

  lemma RoundDone(z: seq<u8>, v: seq<u8>, bit: int, half: seq<u8>, z1: seq<u8>, v1: seq<u8>)
    requires |z| == |v| == |z1| == |v1| == 16 && Halved(v, half) && z1 == if bit == 1 then XorSeq(z, v) else z
    requires v1 == if v[15] as int % 2 == 1 then XorSeq(half, Reduction()) else half
    ensures Round(z, v, bit, z1, v1)
  {
  }

  method AddMasked(z: array<u8>, v: array<u8>, mask: u8, bit: int)
    requires z.Length == 16 == v.Length && z != v && (bit == 0 || bit == 1) && mask as int == 255 * bit
    modifies z
    ensures z[..] == if bit == 1 then XorSeq(old(z[..]), v[..]) else old(z[..])
  {
    ghost var z0 := z[..];
    for j := 0 to 16
      invariant forall k :: 0 <= k < 16 ==>
        z[k] == if k < j then XorByte(z0[k], if bit == 1 then v[k] else 0) else z0[k]
    {
      AndByteMask(v[j], bit);
      z[j] := XorByte(z[j], AndByte(v[j], mask));
    }
    forall j | 0 <= j < 16 ensures XorByte(z0[j], 0) == z0[j] {
      XorByteTwice(z0[j], 0);
    }
    if bit == 1 {
      assert z[..] == XorSeq(z0, v[..]);
    } else {
      assert z[..] == z0;
    }
  }

  /** One bit to the right across the block, from the last byte up. */
  method ShiftDown(v: array<u8>)
    requires v.Length == 16
    modifies v
    ensures Halved(old(v[..]), v[..])
  {
    ghost var v0 := v[..];
    for j := 15 downto 0
      invariant forall k :: 0 <= k < 16 ==>
        v[k] as int == if k > j then v0[k] as int / 2 + Carried(v0, k) else v0[k] as int
    {
      v[j + 1] := (v[j + 1] as int / 2 + (v[j] as int * 128) % 256) as u8;
    }
    v[0] := v[0] / 2;
    assert forall k :: 0 <= k < 16 ==> v[..][k] as int == v0[k] as int / 2 + Carried(v0, k);
  }

  // ----- multiplication without the algorithm: powers of x, and their sums -----

  /** The block with bit i, counted from the left, set and no other. */
  ghost predicate Unit(u: Block16, i: nat) {
    forall k :: 0 <= k < 128 ==> Bit(u[k / 8] as int, 7 - k % 8) == (if k == i then 1 else 0)
  }

  /** Bit k of a block's value, counted from the left. */
  function LeftBit(x: int, k: nat): int {
    if k < 128 then Bit(x, 127 - k) else 0
  }

  lemma {:induction false} ProductRest(x: int, z: int, v: int, j: nat)
    requires j <= 128 && forall k :: j <= k < 128 ==> LeftBit(x, k) == 0
    ensures Product(x, z, v, j) == z
    decreases 128 - j
  {
    hide Xor, Bit, NextV;
    if j < 128 {
      assert LeftBit(x, j) == 0;
      ProductRest(x, z, NextV(v), j + 1);
    }
  }

  function Shifted(v: int, n: nat): int
    decreases n
  {
    if n == 0 then v else Shifted(NextV(v), n - 1)
  }

  /** From round j on, with only bit i to come. */
  lemma {:induction false} ProductUnit(x: int, v: int, i: nat, j: nat)
    requires j <= i < 128 && forall k :: 0 <= k < 128 ==> LeftBit(x, k) == (if k == i then 1 else 0)
    ensures Product(x, 0, v, j) == Xor(0, Shifted(v, i - j), 128)
    decreases 128 - j
  {
    hide Xor, Bit, NextV;
    if j == i {
      assert LeftBit(x, j) == 1;
      ProductRest(x, Xor(0, v, 128), NextV(v), j + 1);
    } else {
      assert LeftBit(x, j) == 0;
      ProductUnit(x, NextV(v), i, j + 1);
    }
  }

  lemma {:induction false} ShiftedFits(v: int, n: nat)
    requires 0 <= v < Pow2(128)
    ensures 0 <= Shifted(v, n) < Pow2(128)
    decreases n
  {
    hide NextV, Pow2;
    if n > 0 {
      NextFits(v);
      ShiftedFits(NextV(v), n - 1);
    }
  }

  lemma UnitMul(u: Block16, i: nat, h: Block16)
    requires Unit(u, i) && i < 128
    ensures Shifted(BeVal(h), i) >= 0 && Mul(u, h) == BeBytes(Shifted(BeVal(h), i), 16)
  {
    hide Xor, Bit, BeVal, NextV, Product, Shifted, BeBytes, Pow2;
    forall k | 0 <= k < 128 ensures LeftBit(BeVal(u), k) == (if k == i then 1 else 0) {
      BitOfBe(u, k);
    }
    BeValBound(h);
    ProductUnit(BeVal(u), BeVal(h), i, 0);
    ShiftedFits(BeVal(h), i);
    XorCommutes(0, Shifted(BeVal(h), i), 128);
    XorZero(Shifted(BeVal(h), i), 128);
  }

  /** The first unit is 1. */
  lemma MulOne(u: Block16, h: Block16)
    requires Unit(u, 0)
    ensures Mul(u, h) == h
  {
    hide Mul, BeVal, BeBytes, Unit;
    UnitMul(u, 0, h);
    BeBytesOfVal(h);
  }

  /** The second is x: every bit moves one place to the right, and when one falls off, 11100001 is added in front. */
  lemma MulX(u: Block16, h: Block16, r: seq<u8>)
    requires Unit(u, 1) && Halved(h, r)
    ensures Mul(u, h) == if h[15] as int % 2 == 1 then r[0 := XorByte(r[0], 0xe1)] else r
  {
    hide Mul, Bit, BeVal, BeBytes, XorByte, Xor, Halved, Unit;
    UnitMul(u, 1, h);
    ShiftedOnce(BeVal(h));
    BeHalf(h, r);
    HalvedLength(h, r);
    var v := if h[15] as int % 2 == 1 then r[0 := XorByte(r[0], 0xe1)] else r;
    if h[15] as int % 2 == 1 {
      Reduced(r, 1, v);
      BeXor(r, Reduction());
    }
    BeBytesOfVal(v);
  }

  lemma HalvedLength(h: seq<u8>, r: seq<u8>)
    requires Halved(h, r)
    ensures |r| == |h|
  {
  }

  lemma ShiftedOnce(v: int)
    ensures Shifted(v, 1) == NextV(v)
  {
    hide NextV;
    assert Shifted(NextV(v), 0) == NextV(v);
  }

  /** Each unit is x times the one before. */
  lemma MulUnits(one: Block16, u: Block16, w: Block16, i: nat, h: Block16)
    requires Unit(one, 1) && Unit(u, i) && Unit(w, i + 1) && i < 127
    ensures Mul(w, h) == Mul(one, Mul(u, h))
  {
    hide Mul, BeVal, BeBytes, NextV, Unit, Pow2;
    UnitMul(u, i, h);
    UnitMul(w, i + 1, h);
    UnitMul(one, 1, Mul(u, h));
    BeValBound(h);
    ShiftedFits(BeVal(h), i);
    BeValOfBytes(Shifted(BeVal(h), i), 16);
    ShiftedLast(BeVal(h), i);
    ShiftedOnce(Shifted(BeVal(h), i));
  }

  lemma {:induction false} ShiftedLast(v: int, n: nat)
    ensures Shifted(v, n + 1) == NextV(Shifted(v, n))
    decreases n
  {
    hide NextV;
    if n > 0 {
      ShiftedLast(NextV(v), n - 1);
    } else {
      ShiftedOnce(v);
    }
  }

  lemma {:induction false} XorAssociates(x: int, y: int, z: int, n: nat)
    ensures Xor(Xor(x, y, n), z, n) == Xor(x, Xor(y, z, n), n)
    decreases n
  {
    if n > 0 {
      XorHalves(x, y, n);
      XorHalves(y, z, n);
      XorAssociates(x / 2, y / 2, z / 2, n - 1);
    }
  }

  lemma {:induction false} XorBit(x: int, y: int, n: nat, i: nat)
    requires i < n
    ensures Bit(Xor(x, y, n), i) == if Bit(x, i) == Bit(y, i) then 0 else 1
    decreases i
  {
    XorHalves(x, y, n);
    if i > 0 {
      XorBit(x / 2, y / 2, n - 1, i - 1);
    }
  }

  /** The sum of two pairs, in either order. */
  lemma XorPairs(a: int, b: int, c: int, d: int)
    ensures Xor(Xor(a, b, 128), Xor(c, d, 128), 128) == Xor(Xor(a, c, 128), Xor(b, d, 128), 128)
  {
    hide Xor;
    XorAssociates(a, b, Xor(c, d, 128), 128);
    XorAssociates(b, c, d, 128);
    XorCommutes(b, c, 128);
    XorAssociates(c, b, d, 128);
    XorAssociates(a, c, Xor(b, d, 128), 128);
  }

  lemma XorSelf(v: int)
    requires 0 <= v < Pow2(128)
    ensures Xor(v, v, 128) == 0
  {
    hide Xor, Pow2;
    XorZero(v, 128);
    XorCancels(v, 0, 128);
    assert Fits(v, 128) && Fits(0, 128);
  }

  /** Adding v into both, one or none of the summands. */
  lemma XorInto2(y: int, z: int, v: int, b: bool, c: bool)
    requires 0 <= y < Pow2(128) && 0 <= z < Pow2(128) && 0 <= v < Pow2(128)
    ensures var y1, z1 := if b then Xor(y, v, 128) else y, if c then Xor(z, v, 128) else z;
      Xor(y1, z1, 128) == if b != c then Xor(Xor(y, z, 128), v, 128) else Xor(y, z, 128)
  {
    hide Xor, Pow2;
    assert Fits(0, 128);
    if b && c {
      XorPairs(y, v, z, v);
      XorSelf(v);
      XorSumFits(y, z);
      XorZero(Xor(y, z, 128), 128);
    } else if b {
      XorAssociates(y, v, z, 128);
      XorCommutes(v, z, 128);
      XorAssociates(y, z, v, 128);
    } else if c {
      XorAssociates(y, z, v, 128);
    }
  }

  lemma XorSumFits(y: int, z: int)
    requires 0 <= y < Pow2(128) && 0 <= z < Pow2(128)
    ensures 0 <= Xor(y, z, 128) < Pow2(128) && Fits(Xor(y, z, 128), 128)
  {
    hide Xor, Pow2;
    XorFits(y, z, 128);
    XorNonNegative(y, z, 128);
  }

  lemma {:induction false} ProductSum(x: int, y: int, zx: int, zy: int, v: int, i: nat)
    requires 0 <= zx < Pow2(128) && 0 <= zy < Pow2(128) && 0 <= v < Pow2(128)
    ensures Product(Xor(x, y, 128), Xor(zx, zy, 128), v, i) == Xor(Product(x, zx, v, i), Product(y, zy, v, i), 128)
    decreases 128 - i
  {
    hide Xor, Bit, NextV, Pow2;
    if i < 128 {
      XorBit(x, y, 128, 127 - i);
      var b, c := Bit(x, 127 - i) == 1, Bit(y, 127 - i) == 1;
      XorInto2(zx, zy, v, b, c);
      NextFits(v);
      XorSumFits(zx, v);
      XorSumFits(zy, v);
      ProductSum(x, y, if b then Xor(zx, v, 128) else zx, if c then Xor(zy, v, 128) else zy, NextV(v), i + 1);
    }
  }

  /** Multiplication distributes over addition, so the units determine it. */
  lemma MulSum(x: Block16, y: Block16, h: Block16)
    ensures Mul(XorSeq(x, y), h) == XorSeq(Mul(x, h), Mul(y, h))
  {
    hide Xor, XorByte, XorSeq, Product, BeVal, BeBytes, Pow2;
    BeValBound(h);
    BeXor(x, y);
    ZeroFits();
    ProductSum(BeVal(x), BeVal(y), 0, 0, BeVal(h), 0);
    ProductFits(BeVal(x), 0, BeVal(h), 0);
    ProductFits(BeVal(y), 0, BeVal(h), 0);
    BeValOfBytes(Product(BeVal(x), 0, BeVal(h), 0), 16);
    BeValOfBytes(Product(BeVal(y), 0, BeVal(h), 0), 16);
    BeXor(Mul(x, h), Mul(y, h));
    BeBytesOfVal(XorSeq(Mul(x, h), Mul(y, h)));
  }

  lemma ZeroFits()
    ensures Xor(0, 0, 128) == 0 && 0 < Pow2(128)
  {
    XorZero(0, 128);
  }

  // ----- GHASH: section 6.4 -----

  function Pad16(data: seq<u8>): (p: seq<u8>)
    ensures |p| % 16 == 0 && |data| <= |p| < |data| + 16
  {
    data + seq(Padding(|data|), _ => 0)
  }

  /** The zeros that complete the last block. */
  function Padding(n: nat): nat {
    if n % 16 == 0 then 0 else 16 - n % 16
  }

  function Ghash(h: Block16, y: Block16, blocks: seq<u8>): Block16
    decreases |blocks|
  {
    if |blocks| < 16 then y else Ghash(h, Mul(XorSeq(y, blocks[..16]), h), blocks[16..])
  }

  /** One block is added to what there is, and the sum multiplied. */
  lemma GhashBlock(h: Block16, y: Block16, b: Block16)
    ensures Ghash(h, y, b) == Mul(XorSeq(y, b), h)
  {
    hide Mul, XorSeq;
    assert b[..16] == b && b[16..] == [];
  }

  lemma {:induction false} GhashAppend(h: Block16, y: Block16, a: seq<u8>, b: seq<u8>)
    requires |a| % 16 == 0
    ensures Ghash(h, y, a + b) == Ghash(h, Ghash(h, y, a), b)
    decreases |a|
  {
    if a == [] {
      assert a + b == b;
    } else {
      assert (a + b)[..16] == a[..16] && (a + b)[16..] == a[16..] + b;
      GhashAppend(h, Mul(XorSeq(y, a[..16]), h), a[16..], b);
    }
  }

  /** Hashes data into y. A last short block only changes the bytes it has. */
  method GhashData(y: array<u8>, h: Block16, data: seq<u8>)
    requires y.Length == 16
    modifies y
    ensures y[..] == Ghash(h, old(y[..]), Pad16(data))
  {
    hide Mul, XorByte, XorSeq, Pad16;
    var done := 0;
    assert data[0..] == data;
    while done < |data|
      invariant done <= |data| && (done % 16 == 0 || done == |data|)
      invariant Ghash(h, y[..], Pad16(data[done..])) == Ghash(h, old(y[..]), Pad16(data))
    {
      var n := if |data| - done > 16 then 16 else |data| - done;
      ghost var y0 := y[..];
      for i := 0 to n
        invariant forall j :: 0 <= j < 16 ==> y[j] == if j < i then XorByte(y0[j], data[done + j]) else y0[j]
      {
        y[i] := XorByte(y[i], data[done + i]);
      }
      PaddedBlock(data[done..], y0, n, y[..]);
      PaddedRest(data[done..], n);
      assert data[done..][n..] == data[done + n..];
      GMul(y, h);
      done := done + n;
    }
    assert data[done..] == [];
  }

  lemma PaddedBlock(data: seq<u8>, y0: seq<u8>, n: nat, y: seq<u8>)
    requires data != [] && n == (if |data| > 16 then 16 else |data|) && |y0| == 16 == |y|
    requires forall j :: 0 <= j < 16 ==> y[j] == if j < n then XorByte(y0[j], data[j]) else y0[j]
    ensures y == XorSeq(y0, Pad16(data)[..16])
  {
    hide XorByte;
    var p := Pad16(data)[..16];
    forall j | 0 <= j < 16 ensures y[j] == XorByte(y0[j], p[j]) {
      XorByteTwice(y0[j], 0);
      assert p[j] == if j < n then data[j] else 0;
    }
    assert |XorSeq(y0, p)| == 16;
  }

  lemma PaddedRest(data: seq<u8>, n: nat)
    requires data != [] && n == if |data| > 16 then 16 else |data|
    ensures Pad16(data)[16..] == Pad16(data[n..])
  {
    if n == 16 {
      assert |data[n..]| % 16 == |data| % 16;
      assert Pad16(data)[16..] == data[16..] + seq(Padding(|data|), _ => 0);
    } else {
      assert |Pad16(data)| == 16 && data[n..] == [];
    }
  }

  // ----- authentication and encryption: sections 6.5, 7.1 and 7.2 -----

  /** The counter block for counter c. */
  function Counter(iv: Iv, c: nat): Block16 {
    iv + BeBytes(c, 4)
  }

  /** GCTR with counter blocks c, c + 1, ... */
  function Gctr(key: Key, iv: Iv, c: nat, data: seq<u8>): (r: seq<u8>)
    ensures |r| == |data|
    decreases |data|
  {
    if data == [] then []
    else
      var n := if |data| > 16 then 16 else |data|;
      XorSeq(data[..n], key.cipher(Counter(iv, c))) + Gctr(key, iv, c + 1, data[n..])
  }

  /** The block for counter c is the nonce and then c as a 32-bit big-endian number. */
  lemma CounterIs(iv: Iv, c: nat)
    ensures |Counter(iv, c)| == 16 && Counter(iv, c)[..12] == iv
    ensures BeVal(Counter(iv, c)[12..]) == c % 0x1_0000_0000
  {
    hide BeBytes, BeVal;
    assert Counter(iv, c)[12..] == BeBytes(c, 4);
    FourBytes(c, 0);
    FourBytes(c % 0x1_0000_0000, 0);
    NoBytes(c / 0x1_0000_0000);
    NoBytes(c % 0x1_0000_0000 / 0x1_0000_0000);
    LowFourOfRest(c);
    Pow2Values();
    BeValOfBytes(c % 0x1_0000_0000, 4);
  }

  /** A block with that nonce and that number is the counter block. */
  lemma IsCounter(iv: Iv, c: nat, b: Block16)
    requires b[..12] == iv && BeVal(b[12..]) == c % 0x1_0000_0000
    ensures b == Counter(iv, c)
  {
    hide BeVal, BeBytes;
    CounterIs(iv, c);
    BeBytesOfVal(b[12..]);
    BeBytesOfVal(Counter(iv, c)[12..]);
    assert b == b[..12] + b[12..];
    assert Counter(iv, c) == Counter(iv, c)[..12] + Counter(iv, c)[12..];
  }

  /** Different counters of 32 bits, or different nonces, have different blocks. */
  lemma CountersDiffer(iv: Iv, c: nat, iv': Iv, c': nat)
    requires c < 0x1_0000_0000 && c' < 0x1_0000_0000
    ensures Counter(iv, c) == Counter(iv', c') ==> iv == iv' && c == c'
  {
    hide Counter;
    CounterIs(iv, c);
    CounterIs(iv', c');
  }

  /** Byte i of the output is byte i of the input under byte i % 16 of the cipher at a counter block: the one with
      the nonce in front and the number c + i / 16, modulo 2^32, behind it. */
  lemma {:induction false} GctrByte(key: Key, iv: Iv, c: nat, data: seq<u8>, i: nat, b: Block16)
    requires i < |data| && b[..12] == iv && BeVal(b[12..]) == (c + i / 16) % 0x1_0000_0000
    ensures Gctr(key, iv, c, data)[i] == XorByte(data[i], key.cipher(b)[i % 16])
    decreases |data|
  {
    hide XorByte, BeVal, Counter;
    var n := if |data| > 16 then 16 else |data|;
    if i < n {
      IsCounter(iv, c, b);
    } else {
      assert (c + 1) + (i - 16) / 16 == c + i / 16;
      GctrByte(key, iv, c + 1, data[n..], i - 16, b);
      assert data[n..][i - 16] == data[i];
    }
  }

  lemma XorSeqTwice(a: seq<u8>, k: seq<u8>)
    requires |a| <= |k|
    ensures XorSeq(XorSeq(a, k), k) == a
  {
    forall i | 0 <= i < |a| ensures XorSeq(XorSeq(a, k), k)[i] == a[i] {
      XorByteTwice(a[i], k[i]);
    }
  }

  /** Decryption is the same operation. */
  lemma {:induction false} GctrTwice(key: Key, iv: Iv, c: nat, data: seq<u8>)
    ensures Gctr(key, iv, c, Gctr(key, iv, c, data)) == data
    decreases |data|
  {
    hide XorByte, XorSeq, Counter;
    if data != [] {
      var n := if |data| > 16 then 16 else |data|;
      var r := Gctr(key, iv, c, data);
      assert r[..n] == XorSeq(data[..n], key.cipher(Counter(iv, c)));
      assert r[n..] == Gctr(key, iv, c + 1, data[n..]);
      XorSeqTwice(data[..n], key.cipher(Counter(iv, c)));
      GctrTwice(key, iv, c + 1, data[n..]);
      assert data == data[..n] + data[n..];
    }
  }

  /** The tag over the padded additional data, the padded ciphertext and both lengths in bits. */
  function Tag(key: Key, iv: Iv, aad: seq<u8>, cipher: seq<u8>): Block16 {
    var lens := BeBytes(8 * |aad|, 8) + BeBytes(8 * |cipher|, 8);
    XorSeq(Ghash(Subkey(key), Zero16(), Pad16(aad) + Pad16(cipher) + lens), key.cipher(Counter(iv, 1)))
  }

  /** What is hashed for a tag: both parts, each with zeros up to a whole block, and both lengths in bits. */
  ghost predicate TagInput(x: seq<u8>, aad: seq<u8>, cipher: seq<u8>) {
    var a, c := (|aad| + 15) / 16 * 16, (|cipher| + 15) / 16 * 16;
    && |x| == a + c + 16
    && x[..|aad|] == aad && (forall k :: |aad| <= k < a ==> x[k] == 0)
    && x[a..a + |cipher|] == cipher && (forall k :: a + |cipher| <= k < a + c ==> x[k] == 0)
    && BeVal(x[a + c..a + c + 8]) == 8 * |aad| && BeVal(x[a + c + 8..]) == 8 * |cipher|
  }

  /** The tag is that hash, block by block, under the key's value at zero, masked by the block with number 1. */
  lemma TagIs(key: Key, iv: Iv, aad: seq<u8>, cipher: seq<u8>, x: seq<u8>, zero: Block16, b: Block16, j: nat)
    requires TagInput(x, aad, cipher) && (forall k :: 0 <= k < 16 ==> zero[k] == 0)
    requires b[..12] == iv && BeVal(b[12..]) == 1 && j < 16
    ensures Tag(key, iv, aad, cipher)[j] == XorByte(Ghash(key.cipher(zero), zero, x)[j], key.cipher(b)[j])
  {
    hide Ghash, BeBytes, BeVal, XorByte, Counter, Pad16;
    var a, c := (|aad| + 15) / 16 * 16, (|cipher| + 15) / 16 * 16;
    assert zero == Zero16();
    IsCounter(iv, 1, b);
    PadIs(aad, x[..a]);
    PadIs(cipher, x[a..a + c]);
    BeBytesOfVal(x[a + c..a + c + 8]);
    BeBytesOfVal(x[a + c + 8..]);
    assert x == x[..a] + x[a..a + c] + (x[a + c..a + c + 8] + x[a + c + 8..]);
  }

  lemma PadIs(s: seq<u8>, p: seq<u8>)
    requires |p| == (|s| + 15) / 16 * 16 && p[..|s|] == s && forall k :: |s| <= k < |p| ==> p[k] == 0
    ensures p == Pad16(s)
  {
    assert |p| == |Pad16(s)|;
    forall k | 0 <= k < |p| ensures p[k] == Pad16(s)[k] {
      if k < |s| {
        assert p[..|s|][k] == p[k];
      }
    }
  }

  /** A length in bits, from its byte count, as the two words the code writes. */
  lemma BitLength(len: nat)
    requires len < 0x1_0000_0000
    ensures BeBytes(8 * len, 8) == BeBytes(len / 0x2000_0000, 4) + BeBytes(8 * len % 0x1_0000_0000, 4)
  {
    hide BeBytes, LowFour;
    FourBytes(8 * len, 4);
    FourBytes(8 * len % 0x1_0000_0000, 0);
    LowFourOfRest(8 * len);
    assert 8 * len / 0x1_0000_0000 == len / 0x2000_0000;
    NoBytes(8 * len % 0x1_0000_0000 / 0x1_0000_0000);
  }

  method LengthBlock(aadLen: nat, len: nat) returns (block: array<u8>)
    requires aadLen < 0x1_0000_0000 && len < 0x1_0000_0000
    ensures fresh(block) && block.Length == 16 && block[..] == BeBytes(8 * aadLen, 8) + BeBytes(8 * len, 8)
  {
    hide BeBytes;
    block := new u8[16](_ => 0);
    PutBe32(block, 0, aadLen / 0x2000_0000);
    PutBe32(block, 4, 8 * aadLen % 0x1_0000_0000);
    PutBe32(block, 8, len / 0x2000_0000);
    PutBe32(block, 12, 8 * len % 0x1_0000_0000);
    BitLength(aadLen);
    BitLength(len);
  }

  /** The three parts hash like their concatenation. */
  lemma GhashParts(h: Block16, aad: seq<u8>, cipher: seq<u8>, lens: seq<u8>)
    requires |lens| == 16
    ensures Ghash(h, Ghash(h, Ghash(h, Zero16(), Pad16(aad)), Pad16(cipher)), Pad16(lens))
         == Ghash(h, Zero16(), Pad16(aad) + Pad16(cipher) + lens)
  {
    hide Ghash;
    assert Pad16(lens) == lens;
    GhashAppend(h, Zero16(), Pad16(aad), Pad16(cipher));
    GhashAppend(h, Zero16(), Pad16(aad) + Pad16(cipher), lens);
  }

  method GcmTag(key: Key, iv: Iv, aad: seq<u8>, cipher: seq<u8>) returns (tag: array<u8>)
    requires |aad| < 0x1_0000_0000 && |cipher| < 0x1_0000_0000
    ensures fresh(tag) && tag[..] == Tag(key, iv, aad, cipher)
  {
    hide Ghash, BeBytes, XorByte, Pad16, Counter;
    var h := Subkey(key);
    var y := new u8[16](_ => 0);
    assert y[..] == Zero16();
    GhashData(y, h, aad);
    GhashData(y, h, cipher);
    var lenBlock := LengthBlock(|aad|, |cipher|);
    GhashParts(h, aad, cipher, lenBlock[..]);
    GhashData(y, h, lenBlock[..]);
    var ek := key.cipher(Counter(iv, 1));
    tag := new u8[16](_ => 0);
    for i := 0 to 16
      invariant forall j :: 0 <= j < i ==> tag[j] == XorByte(y[j], ek[j])
      modifies tag
    {
      tag[i] := XorByte(y[i], ek[i]);
    }
    assert tag[..] == XorSeq(y[..], ek);
  }

  /** The next block of a longer input. */
  method CryptNext(key: Key, iv: Iv, counter: nat, src: array<u8>, from: nat, done: nat, n: nat, dst: array<u8>,
      to: nat,
                   ghost all: seq<u8>, ghost d0: seq<u8>, ghost s0: seq<u8>,
                     ghost written: seq<u8>) returns (ghost more: seq<u8>)
    requires n <= 16 && done + n <= |s0| && from + |s0| <= |all| == src.Length && to + |s0| <= dst.Length == |d0|
    requires s0 == all[from..from + |s0|] && |written| == done && (src == dst ==> to <= from && all == d0)
    requires (src != dst ==> src[..] == all) && Partly(dst[..], d0, to, written)
    modifies dst
    ensures more == XorSeq(s0[done..done + n], key.cipher(Counter(iv, counter)))
    ensures Partly(dst[..], d0, to, written + more) && (src != dst ==> src[..] == all)
  {
    hide XorByte, XorSeq, Counter, Partly;
    Unread(src, dst, from, to, done, n, all, d0, written, s0);
    ghost var before := dst[..];
    more := XorSeq(s0[done..done + n], key.cipher(Counter(iv, counter)));
    CryptBlock(key, iv, counter, src, from + done, n, dst, to + done);
    PartlyNext(before, d0, to, written, more, dst[..]);
  }

  /** Encrypts or decrypts len bytes at src[from..] to dst[to..]. Within one array the output may
      overlap its input when it starts no later: every input block is copied before it is overwritten. */
  method GcmCrypt(key: Key, iv: Iv, src: array<u8>, from: nat, len: nat, dst: array<u8>, to: nat)
    requires from + len <= src.Length && to + len <= dst.Length && len < 0x1_0000_0000
    requires src == dst ==> to <= from
    modifies dst
    ensures dst[..] == old(dst[..to]) + Gctr(key, iv, 2, old(src[from..from + len])) + old(dst[to + len..])
    ensures Crypted(key, iv, old(src[from..from + len]), dst[to..to + len])
  {
    hide XorByte, XorSeq, Gctr, Counter, Partly, Crypted;
    ghost var all, d0, s0, written := src[..], dst[..], src[from..from + len], [];
    var counter, done := 2, 0;
    PartlyStart(d0, to);
    assert s0[0..] == s0;
    while done < len
      invariant done <= len == |s0| && counter >= 2 && |written| == done
      invariant Partly(dst[..], d0, to, written)
      invariant src != dst ==> src[..] == all
      invariant written + Gctr(key, iv, counter, s0[done..]) == Gctr(key, iv, 2, s0)
    {
      var n := if len - done > 16 then 16 else len - done;
      ghost var more := CryptNext(key, iv, counter, src, from, done, n, dst, to, all, d0, s0, written);
      GctrAdvance(key, iv, counter, s0, done, n, written);
      written := written + more;
      done := done + n;
      counter := counter + 1;
    }
    PartlyEnd(dst[..], d0, to, written);
    assert written == Gctr(key, iv, 2, s0);
    CryptedIs(key, iv, s0);
    assert dst[to..to + len] == written;
  }

  /** Every byte is masked by its byte of the cipher at a counter block: the one with the nonce in front and, as a
      32-bit number behind it, 2 for the first 16 bytes, 3 for the next, and so on. */
  ghost predicate Crypted(key: Key, iv: Iv, data: seq<u8>, output: seq<u8>) {
    && |output| == |data|
    && forall i, b: Block16 ::
      0 <= i < |data| && b[..12] == iv && BeVal(b[12..]) == (2 + i / 16) % 0x1_0000_0000 ==>
        output[i] == XorByte(data[i], key.cipher(b)[i % 16])
  }

  lemma CryptedIs(key: Key, iv: Iv, data: seq<u8>)
    ensures Crypted(key, iv, data, Gctr(key, iv, 2, data))
  {
    hide XorByte, Gctr, BeVal;
    forall i, b: Block16 | 0 <= i < |data| && b[..12] == iv && BeVal(b[12..]) == (2 + i / 16) % 0x1_0000_0000
      ensures Gctr(key, iv, 2, data)[i] == XorByte(data[i], key.cipher(b)[i % 16])
    {
      GctrByte(key, iv, 2, data, i, b);
    }
  }

  /** The output so far, and the bytes around it as they were. */
  ghost predicate Partly(d: seq<u8>, d0: seq<u8>, to: nat, written: seq<u8>) {
    to + |written| <= |d0| && d == d0[..to] + written + d0[to + |written|..]
  }

  lemma PartlyStart(d0: seq<u8>, to: nat)
    requires to <= |d0|
    ensures Partly(d0, d0, to, [])
  {
  }

  lemma PartlyNext(d: seq<u8>, d0: seq<u8>, to: nat, written: seq<u8>, more: seq<u8>, d1: seq<u8>)
    requires Partly(d, d0, to, written) && to + |written| + |more| <= |d|
    requires d1 == d[..to + |written|] + more + d[to + |written| + |more|..]
    ensures Partly(d1, d0, to, written + more)
  {
  }

  lemma PartlyEnd(d: seq<u8>, d0: seq<u8>, to: nat, written: seq<u8>)
    requires Partly(d, d0, to, written)
    ensures to + |written| <= |d0| && d == d0[..to] + written + d0[to + |written|..]
  {
  }

  lemma GctrStep(key: Key, iv: Iv, c: nat, data: seq<u8>, n: nat)
    requires data != [] && n == if |data| > 16 then 16 else |data|
    ensures Gctr(key, iv, c, data) == XorSeq(data[..n], key.cipher(Counter(iv, c))) + Gctr(key, iv, c + 1, data[n..])
  {
  }

  lemma GctrAdvance(key: Key, iv: Iv, c: nat, s0: seq<u8>, done: nat, n: nat, written: seq<u8>)
    requires done < |s0| && n == if |s0| - done > 16 then 16 else |s0| - done
    requires written + Gctr(key, iv, c, s0[done..]) == Gctr(key, iv, 2, s0)
    ensures written + XorSeq(s0[done..done + n], key.cipher(Counter(iv, c))) + Gctr(key, iv, c + 1, s0[done + n..])
      == Gctr(key, iv, 2, s0)
  {
    hide Gctr, XorSeq, Counter;
    assert s0[done..][..n] == s0[done..done + n] && s0[done..][n..] == s0[done + n..];
    GctrStep(key, iv, c, s0[done..], n);
  }

  method XorInto(tmp: seq<u8>, ks: Block16, dst: array<u8>, at: nat)
    requires |tmp| <= 16 && at + |tmp| <= dst.Length
    modifies dst
    ensures dst[..] == old(dst[..at]) + XorSeq(tmp, ks) + old(dst[at + |tmp|..])
  {
    hide XorByte;
    ghost var before := dst[..];
    for i := 0 to |tmp|
      invariant forall k :: 0 <= k < dst.Length ==>
        dst[k] == if at <= k < at + i then XorByte(tmp[k - at], ks[k - at]) else before[k]
    {
      dst[at + i] := XorByte(tmp[i], ks[i]);
    }
    assert dst[..] == before[..at] + XorSeq(tmp, ks) + before[at + |tmp|..];
  }

  /** One block: its input is copied out before the output is written. */
  method CryptBlock(key: Key, iv: Iv, counter: nat, src: array<u8>, from: nat, n: nat, dst: array<u8>, to: nat)
    requires n <= 16 && from + n <= src.Length && to + n <= dst.Length
    modifies dst
    ensures dst[..] == old(dst[..to]) + XorSeq(old(src[from..from + n]), key.cipher(Counter(iv, counter)))
      + old(dst[to + n..])
  {
    hide XorByte, XorSeq, Counter;
    var ks := key.cipher(Counter(iv, counter));
    var tmp := src[from..from + n];
    XorInto(tmp, ks, dst, to);
  }

  /** The input of the block at hand is still there. */
  lemma Unread(src: array<u8>, dst: array<u8>, from: nat, to: nat, done: nat, n: nat, all: seq<u8>, d0: seq<u8>,
      written: seq<u8>, s0: seq<u8>)
    requires done + n <= |s0| && from + |s0| <= |all| && s0 == all[from..from + |s0|]
    requires from + done + n <= src.Length == |all| && to + done + n <= dst.Length == |d0| && |written| == done
    requires src == dst ==> to <= from && all == d0
    requires src != dst ==> src[..] == all
    requires Partly(dst[..], d0, to, written)
    ensures src[from + done..from + done + n] == s0[done..done + n]
  {
    if src == dst {
      forall k | from + done <= k < from + done + n ensures src[k] == all[k] {
        assert dst[..][k] == d0[to + done..][k - to - done];
      }
    } else {
      assert src[..][from + done..from + done + n] == all[from + done..from + done + n];
    }
    assert s0[done..done + n] == all[from + done..from + done + n];
  }

  // ----- sealing and opening -----

  /** Ciphertext and tag. */
  function Seal(key: Key, iv: Iv, aad: seq<u8>, plain: seq<u8>): (seq<u8>, Block16) {
    var c := Gctr(key, iv, 2, plain);
    (c, Tag(key, iv, aad, c))
  }

  datatype Opened = Plain(bytes: seq<u8>) | BadTag

  function Open(key: Key, iv: Iv, aad: seq<u8>, cipher: seq<u8>, tag: seq<u8>): Opened {
    if tag == Tag(key, iv, aad, cipher) then Plain(Gctr(key, iv, 2, cipher)) else BadTag
  }

  /** What was sealed opens to itself; with another tag it does not open. */
  lemma OpenSealed(key: Key, iv: Iv, aad: seq<u8>, plain: seq<u8>, tag: seq<u8>)
    ensures var (c, t) := Seal(key, iv, aad, plain);
      && |c| == |plain|
      && Open(key, iv, aad, c, tag) == (if tag == t then Plain(plain) else BadTag)
  {
    GctrTwice(key, iv, 2, plain);
  }

  /** Encrypts data[from..from + len] to dst[to..] and returns the tag. */
  method GcmSeal(key: Key, iv: Iv, aad: seq<u8>, data: array<u8>, from: nat, len: nat, dst: array<u8>,
      to: nat) returns (tag: array<u8>)
    requires from + len <= data.Length && to + len <= dst.Length && data != dst && len < 0x1_0000_0000
      && |aad| < 0x1_0000_0000
    modifies dst
    ensures fresh(tag) && tag[..] == Seal(key, iv, aad, old(data[from..from + len])).1
    ensures dst[..] == old(dst[..to]) + Seal(key, iv, aad, old(data[from..from + len])).0 + old(dst[to + len..])
    ensures Crypted(key, iv, old(data[from..from + len]), dst[to..to + len])
  {
    hide Crypted, Gctr, Tag;
    GcmCrypt(key, iv, data, from, len, dst, to);
    tag := GcmTag(key, iv, aad, dst[to..to + len]);
  }

  /** Compares all bytes whatever the first difference. */
  method ConstEq(a: seq<u8>, b: seq<u8>) returns (eq: bool)
    requires |a| == |b|
    ensures eq <==> a == b
  {
    hide OrByte, XorByte;
    var diff: u8 := 0;
    for i := 0 to |a|
      invariant diff == 0 <==> a[..i] == b[..i]
    {
      OrXorZero(diff, a[i], b[i]);
      assert a[..i + 1] == a[..i] + [a[i]] && b[..i + 1] == b[..i] + [b[i]];
      diff := OrByte(diff, XorByte(a[i], b[i]));
    }
    assert a[..|a|] == a && b[..|b|] == b;
    eq := diff == 0;
  }

  /** Checks the tag of buf[from..from + len] and, when it is right, decrypts within the buffer to `to`. */
  method GcmOpen(key: Key, iv: Iv, aad: seq<u8>, buf: array<u8>, from: nat, len: nat, tag: seq<u8>,
      to: nat) returns (ok: bool)
    requires to <= from && from + len <= buf.Length && len < 0x1_0000_0000 && |aad| < 0x1_0000_0000 && |tag| == 16
    modifies buf
    ensures var o := Open(key, iv, aad, old(buf[from..from + len]), tag);
      && ok == o.Plain?
      && buf[..] == if ok then old(buf[..to]) + o.bytes + old(buf[to + len..]) else old(buf[..])
    ensures ok ==> Crypted(key, iv, old(buf[from..from + len]), buf[to..to + len])
  {
    hide Crypted, Gctr, Tag;
    var computed := GcmTag(key, iv, aad, buf[from..from + len]);
    ok := ConstEq(computed[..], tag);
    if ok {
      GcmCrypt(key, iv, buf, from, len, buf, to);
    }
  }
}

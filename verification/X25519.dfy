/** The X25519 function: the Montgomery ladder of section 5 of RFC 7748 over integers modulo P,
    and the limb code that computes it. */
module X25519 {
  import opened LimbArithmetic
  import opened TwosComplement
  import opened Bytes
  import opened Field25519

  // ----- section 5 of RFC 7748 -----

  /** Scalar bits the ladder consumes. */
  const BITS: nat := 255

  /** (x_2, z_2, x_3, z_3), each reduced modulo P. */
  datatype Ladder = Ladder(x2: int, z2: int, x3: int, z3: int) {
    ghost predicate InField() {
      && 0 <= x2 < P && 0 <= z2 < P && 0 <= x3 < P && 0 <= z3 < P
    }

    function Swapped(swap: int): Ladder {
      if swap == 1 then Ladder(x3, z3, x2, z2) else this
    }

    /** One differential addition and doubling; u is the input coordinate. */
    function Step(u: int): Ladder {
      StepModulo(u, P)
    }

    function StepModulo(u: int, m: int): Ladder
      requires m > 0
    {
      var A := (x2 + z2) % m;
      var AA := (A * A) % m;
      var B := (x2 - z2) % m;
      var BB := (B * B) % m;
      var E := (AA - BB) % m;
      var C := (x3 + z3) % m;
      var D := (x3 - z3) % m;
      var DA := (D * A) % m;
      var CB := (C * B) % m;
      var sum := (DA + CB) % m;
      var diff := (DA - CB) % m;
      Ladder((AA * BB) % m,
             (E * ((AA + (121665 * E) % m) % m)) % m,
             (sum * sum) % m,
             (u * ((diff * diff) % m)) % m)
    }
  }

  /** Bits t - 1 down to 0 of k, with the pending swap of the RFC's pseudo-code. */
  function RfcLadder(k: int, u: int, t: nat, s: Ladder, swap: int): Ladder
    requires swap == 0 || swap == 1
    decreases t, k
  {
    if t == 0 then s.Swapped(swap)
    else
      var kt := Bit(k, t - 1);
      RfcLadder(k, u, t - 1, s.Swapped(if swap == kt then 0 else 1).Step(u), kt)
  }

  function DecodeScalar(k: seq<u8>): int
    requires |k| == 32
  {
    LeVal(k[0 := k[0] - k[0] % 8][31 := k[31] % 64 + 64])
  }

  function DecodeU(u: seq<u8>): int
    requires |u| == 32
  {
    LeVal(u[31 := u[31] % 128]) % P
  }

  function RfcX25519(scalar: seq<u8>, point: seq<u8>): (r: seq<u8>)
    requires |scalar| == |point| == 32
  {
    var k, u := DecodeScalar(scalar), DecodeU(point);
    LeBytes(Affine(RfcLadder(k, u, BITS, Ladder(1, 0, u, 1), 0)), 32)
  }

  /** x_2 / z_2, with 0 for the inverse of 0. */
  function Affine(s: Ladder): (v: int)
    ensures 0 <= v < P
  {
    (s.x2 * (Pow(s.z2, P - 2) % P)) % P
  }

  /** Results are canonical: a value below P in exactly one encoding. */
  lemma ResultCanonical(scalar: seq<u8>, point: seq<u8>)
    requires |scalar| == |point| == 32
    ensures LeVal(RfcX25519(scalar, point)) < P
  {
    var k, u := DecodeScalar(scalar), DecodeU(point);
    Pow2Values();
    Pow2Add(64, 64);
    Pow2Add(128, 128);
    LeValOfBytes(Affine(RfcLadder(k, u, BITS, Ladder(1, 0, u, 1), 0)), 32);
  }

  /** The bits the clamping overrides and the top bit of the point never matter, and neither does
      a point given above P. */
  lemma IgnoredBits(s1: seq<u8>, s2: seq<u8>, p1: seq<u8>, p2: seq<u8>)
    requires |s1| == |s2| == |p1| == |p2| == 32
    requires s1[1..31] == s2[1..31] && s1[0] / 8 == s2[0] / 8 && s1[31] % 64 == s2[31] % 64
    requires LeVal(p1[31 := p1[31] % 128]) % P == LeVal(p2[31 := p2[31] % 128]) % P
    ensures RfcX25519(s1, p1) == RfcX25519(s2, p2)
  {
    var t1 := s1[0 := s1[0] - s1[0] % 8][31 := s1[31] % 64 + 64];
    var t2 := s2[0 := s2[0] - s2[0] % 8][31 := s2[31] % 64 + 64];
    forall i | 0 <= i < 32 ensures t1[i] == t2[i] {
      if 0 < i < 31 {
        assert s1[1..31][i - 1] == s2[1..31][i - 1];
      }
    }
    assert t1 == t2;
  }

  /** From a ladder whose coordinates are infinity or zero, the input 0 leads to infinity. */
  lemma {:induction false} ZeroStaysAtInfinity(k: int, t: nat, s: Ladder, swap: int)
    requires s.InField() && (swap == 0 || swap == 1)
    requires (s.x2 == 0 || s.z2 == 0) && (s.x3 == 0 || s.z3 == 0)
    requires t == 0 ==> s.z2 == 0 && s.z3 == 0
    ensures RfcLadder(k, 0, t, s, swap).z2 == 0
    decreases t, k
  {
    if t > 0 {
      var kt := Bit(k, t - 1);
      var r := s.Swapped(if swap == kt then 0 else 1);
      ZeroStep(r);
      ZeroStaysAtInfinity(k, t - 1, r.Step(0), kt);
    }
  }

  lemma OppositeSquares(p: int, q: int, m: int)
    requires m > 0 && (p + q == 0 || p + q == m)
    ensures (p * p) % m == (q * q) % m
  {
    var k, d := if p + q == 0 then 0 else m - 2 * p, p * p / m;
    assert q * q == p * p + k * m by {
      assert p + q == m ==> (m - p) * (m - p) == p * p + (m - 2 * p) * m;
    }
    assert (d + k) * m == d * m + k * m;
    DivModUnique(q * q, m, d + k, (p * p) % m);
  }

  lemma Opposite(x: int, y: int)
    ensures (x - y) % P + (y - x) % P == 0 || (x - y) % P + (y - x) % P == P
  {
  }

  lemma ZeroStep(r: Ladder)
    requires r.InField() && (r.x2 == 0 || r.z2 == 0)
    ensures r.Step(0).InField() && r.Step(0).z2 == 0 && r.Step(0).z3 == 0
  {
    if r.x2 == 0 {
      Opposite(r.z2, 0);
      OppositeSquares((r.z2 - 0) % P, (0 - r.z2) % P, P);
    }
    var E := ((((r.x2 + r.z2) % P) * ((r.x2 + r.z2) % P)) % P - (((r.x2 - r.z2) % P) * ((r.x2 - r.z2) % P)) % P) % P;
    assert E == 0;
  }

  /** The point 0 has a result of all zero bytes for every scalar: what a caller must reject. */
  lemma ZeroPointGivesZero(scalar: seq<u8>, point: seq<u8>)
    requires |scalar| == |point| == 32
    requires DecodeU(point) == 0
    ensures forall i :: 0 <= i < 32 ==> RfcX25519(scalar, point)[i] == 0
  {
    var k, u := DecodeScalar(scalar), DecodeU(point);
    var s := RfcLadder(k, u, BITS, Ladder(1, 0, u, 1), 0);
    ZeroStaysAtInfinity(k, BITS, Ladder(1, 0, u, 1), 0);
    AffineAtInfinity(s);
    LeBytesZero(Affine(s), 32);
  }

  lemma AffineAtInfinity(s: Ladder)
    requires s.z2 == 0
    ensures Affine(s) == 0
  {
    assert Pow(s.z2, P - 2) == 0 * Pow(s.z2, P - 3);
    assert s.x2 * 0 == 0;
  }

  // ----- what one step computes: the doubling and the differential addition of the Montgomery curve -----

  function Red(a: int, m: int): int
    requires m > 0
  {
    a % m
  }

  function Times(a: int, b: int, m: int): int
    requires m > 0
  {
    (a * b) % m
  }

  lemma SameRest(a: int, b: int, k: int, m: int)
    requires m > 0 && a == b + k * m
    ensures Red(a, m) == Red(b, m)
  {
    assert b == m * (b / m) + b % m;
    assert m * (b / m + k) == m * (b / m) + k * m;
    DivModUnique(a, m, b / m + k, b % m);
  }

  lemma Rest(a: int, m: int) returns (k: int)
    requires m > 0
    ensures a == Red(a, m) + k * m
  {
    k := a / m;
  }

  lemma TimesOf(a: int, b: int, m: int)
    requires m > 0
    ensures Times(Red(a, m), Red(b, m), m) == Red(a * b, m)
  {
    hide Red;
    var j := Rest(a, m);
    var k := Rest(b, m);
    var x, y := Red(a, m), Red(b, m);
    assert a * b == x * y + (x * k + j * y + j * (k * m)) * m by {
      assert (x + j * m) * (y + k * m) == x * y + x * (k * m) + (j * m) * y + (j * m) * (k * m);
      assert x * (k * m) == (x * k) * m && (j * m) * y == (j * y) * m && (j * m) * (k * m) == (j * (k * m)) * m;
    }
    SameRest(a * b, x * y, x * k + j * y + j * (k * m), m);
    TimesIs(x, y, m);
  }

  lemma TimesIs(a: int, b: int, m: int)
    requires m > 0
    ensures Times(a, b, m) == Red(a * b, m)
  {
  }

  lemma SumOf(a: int, b: int, m: int)
    requires m > 0
    ensures Red(Red(a, m) + Red(b, m), m) == Red(a + b, m) && Red(Red(a, m) - Red(b, m), m) == Red(a - b, m)
  {
    hide Red;
    var j := Rest(a, m);
    var k := Rest(b, m);
    SameRest(a + b, Red(a, m) + Red(b, m), j + k, m);
    SameRest(a - b, Red(a, m) - Red(b, m), j - k, m);
  }

  lemma StepTerms(s: Ladder, u: int, m: int)
    requires m > 0
    ensures var A, B, C, D := Red(s.x2 + s.z2, m), Red(s.x2 - s.z2, m), Red(s.x3 + s.z3, m), Red(s.x3 - s.z3, m);
      var AA, BB, DA, CB := Times(A, A, m), Times(B, B, m), Times(D, A, m), Times(C, B, m);
      var E, sum, diff := Red(AA - BB, m), Red(DA + CB, m), Red(DA - CB, m);
      s.StepModulo(u, m) == Ladder(Times(AA, BB, m), Times(E, Red(AA + Times(121665, E, m), m), m),
        Times(sum, sum, m), Times(u, Times(diff, diff, m), m))
  {
  }

  lemma Outside(u: int, a: int, m: int)
    requires m > 0
    ensures Times(u, Red(a, m), m) == Red(u * a, m)
  {
    hide Red;
    var k := Rest(a, m);
    assert u * (Red(a, m) + k * m) == u * Red(a, m) + (u * k) * m;
    SameRest(u * a, u * Red(a, m), u * k, m);
    TimesIs(u, Red(a, m), m);
  }

  /** x^2 + 486662 x z + z^2 is what belongs to the curve: the coordinate of 2 * Q, for Q with coordinate x : z. The
      step is that of the curve over any modulus. */
  lemma StepDoubles(s: Ladder, u: int, m: int)
    requires m > 0
    ensures var x, z, r := s.x2, s.z2, s.StepModulo(u, m);
      && r.x2 == ((x * x - z * z) * (x * x - z * z)) % m
      && r.z2 == ((4 * (x * z)) * (x * x + 486662 * (x * z) + z * z)) % m
  {
    hide Red, Times, Ladder.StepModulo;
    var x, z := s.x2, s.z2;
    var p, q := DoubledTerms(s, u, m);
    RedIs(p, m);
    RedIs(q, m);
  }

  lemma DoubledTerms(s: Ladder, u: int, m: int) returns (p: int, q: int)
    requires m > 0
    ensures var x, z, r := s.x2, s.z2, s.StepModulo(u, m);
      && r.x2 == Red(p, m) && r.z2 == Red(q, m) && p == (x * x - z * z) * (x * x - z * z)
      && q == (4 * (x * z)) * (x * x + 486662 * (x * z) + z * z)
  {
    hide Red, Times, Ladder.StepModulo;
    var x, z := s.x2, s.z2;
    var a := (x + z) * (x + z);
    var b := (x - z) * (x - z);
    DoublingIdentity(x, z, a, b);
    p, q := StepSquares(s, u, m, a, b);
    SameProduct(a - b, a + 121665 * (a - b), 4 * (x * z), x * x + 486662 * (x * z) + z * z);
  }

  lemma SameProduct(a: int, b: int, c: int, d: int)
    requires a == c && b == d
    ensures a * b == c * d
  {
  }

  /** The doubling from the squares of sum and difference. */
  lemma StepSquares(s: Ladder, u: int, m: int, a: int, b: int) returns (p: int, q: int)
    requires m > 0 && a == (s.x2 + s.z2) * (s.x2 + s.z2) && b == (s.x2 - s.z2) * (s.x2 - s.z2)
    ensures p == a * b && q == (a - b) * (a + 121665 * (a - b))
    ensures var r := s.StepModulo(u, m); r.x2 == Red(p, m) && r.z2 == Red(q, m)
  {
    hide Red, Times, Ladder.StepModulo;
    p, q := a * b, (a - b) * (a + 121665 * (a - b));
    StepTerms(s, u, m);
    TimesOf(s.x2 + s.z2, s.x2 + s.z2, m);
    TimesOf(s.x2 - s.z2, s.x2 - s.z2, m);
    TimesOf(a, b, m);
    SumOf(a, b, m);
    Outside(121665, a - b, m);
    SumOf(a, 121665 * (a - b), m);
    TimesOf(a - b, a + 121665 * (a - b), m);
  }

  lemma RedIs(a: int, m: int)
    requires m > 0
    ensures Red(a, m) == a % m
  {
  }

  lemma DoublingIdentity(x: int, z: int, a: int, b: int)
    requires a == (x + z) * (x + z) && b == (x - z) * (x - z)
    ensures a * b == (x * x - z * z) * (x * x - z * z) && a - b == 4 * (x * z)
    ensures a + 121665 * (a - b) == x * x + 486662 * (x * z) + z * z
  {
    var p, q := x + z, x - z;
    assert p * q == x * x - z * z;
    assert (p * p) * (q * q) == (p * q) * (p * q);
    assert p * p == x * x + 2 * (x * z) + z * z;
    assert q * q == x * x - 2 * (x * z) + z * z;
  }

  /** The coordinate of Q + Q', for Q and Q' with these coordinates whose difference has u : 1. */
  lemma StepAdds(s: Ladder, u: int, m: int)
    requires m > 0
    ensures var p, q, r := s.x2 * s.x3 - s.z2 * s.z3, s.x3 * s.z2 - s.z3 * s.x2, s.StepModulo(u, m);
      && r.x3 == ((2 * p) * (2 * p)) % m && r.z3 == (u * ((2 * q) * (2 * q))) % m
  {
    hide Red, Times, Ladder.StepModulo;
    var da, cb := (s.x3 - s.z3) * (s.x2 + s.z2), (s.x3 + s.z3) * (s.x2 - s.z2);
    StepTerms(s, u, m);
    TimesOf(s.x3 - s.z3, s.x2 + s.z2, m);
    TimesOf(s.x3 + s.z3, s.x2 - s.z2, m);
    SumOf(da, cb, m);
    TimesOf(da + cb, da + cb, m);
    TimesOf(da - cb, da - cb, m);
    Outside(u, (da - cb) * (da - cb), m);
    AddingIdentity(s, da, cb);
    RedIs((da + cb) * (da + cb), m);
    RedIs(u * ((da - cb) * (da - cb)), m);
  }

  lemma AddingIdentity(s: Ladder, da: int, cb: int)
    requires da == (s.x3 - s.z3) * (s.x2 + s.z2) && cb == (s.x3 + s.z3) * (s.x2 - s.z2)
    ensures da + cb == 2 * (s.x2 * s.x3 - s.z2 * s.z3) && da - cb == 2 * (s.x3 * s.z2 - s.z3 * s.x2)
  {
    assert da == s.x3 * s.x2 + s.x3 * s.z2 - s.z3 * s.x2 - s.z3 * s.z2;
    assert cb == s.x3 * s.x2 - s.x3 * s.z2 + s.z3 * s.x2 - s.z3 * s.z2;
  }

  /** The result is the quotient x_2 / z_2, when the power is the inverse it stands for. */
  lemma AffineDivides(s: Ladder)
    requires Pow(s.z2, P - 1) % P == 1
    ensures (Affine(s) * s.z2) % P == s.x2 % P
  {
    hide Pow, Red, Times;
    var p := Pow(s.z2, P - 2);
    PowNext(s.z2, P - 2);
    AffineIs(s, p);
    Outside(s.x2, p, P);
    Outside(s.z2, s.x2 * p, P);
    Outside(s.x2, s.z2 * p, P);
    assert s.z2 * (s.x2 * p) == s.x2 * (s.z2 * p);
    RedIs(s.z2 * p, P);
    One(s.x2);
    RedIs(s.x2, P);
    Commutes(Affine(s), s.z2);
  }

  lemma AffineIs(s: Ladder, p: int)
    requires p == Pow(s.z2, P - 2)
    ensures Affine(s) == Times(s.x2, Red(p, P), P)
  {
    hide Pow;
  }

  lemma One(x: int)
    ensures Times(x, 1, P) == Red(x, P)
  {
  }

  lemma Commutes(a: int, b: int)
    ensures (a * b) % P == Times(b, a, P)
  {
    assert a * b == b * a;
  }

  lemma PowNext(x: int, n: nat)
    ensures Pow(x, n + 1) == x * Pow(x, n)
  {
  }

  // ----- the ladder as the code runs it -----

  /** The code swaps before and after every step instead of keeping a swap pending. */
  function CodeLadder(k: int, u: int, t: nat, s: Ladder): Ladder
    decreases t, k
  {
    if t == 0 then s
    else
      var kt := Bit(k, t - 1);
      CodeLadder(k, u, t - 1, s.Swapped(kt).Step(u).Swapped(kt))
  }

  /** Swapping eagerly refines the deferred swap. */
  lemma {:induction false} EagerSwapRefines(k: int, u: int, t: nat, s: Ladder, swap: int)
    requires swap == 0 || swap == 1
    ensures CodeLadder(k, u, t, s.Swapped(swap)) == RfcLadder(k, u, t, s, swap)
    decreases t, k
  {
    if t > 0 {
      var kt := Bit(k, t - 1);
      EagerSwapRefines(k, u, t - 1, s.Swapped(if swap == kt then 0 else 1).Step(u), kt);
    }
  }

  // ----- which multiple the ladder computes -----

  /** A relation between ladders and numbers that one step doubles, and doubles and adds one to when the two
      points are exchanged around it: as the points n * Q and (n + 1) * Q do for a point Q with coordinate u. */
  ghost predicate Counts(R: (Ladder, int) -> bool, u: int) {
    forall s: Ladder, n: int :: R(s, n) ==> R(s.Step(u), 2 * n) && R(s.Swapped(1).Step(u).Swapped(1), 2 * n + 1)
  }

  lemma CountsOnce(R: (Ladder, int) -> bool, u: int, s: Ladder, n: int, b: int)
    requires Counts(R, u) && R(s, n) && (b == 0 || b == 1)
    ensures R(s.Swapped(b).Step(u).Swapped(b), 2 * n + b)
  {
    hide Ladder.Step;
  }

  lemma {:induction false} BitIs(k: int, i: nat)
    ensures Bit(k, i) == k / Pow2(i) % 2
    decreases i
  {
    if i > 0 {
      BitIs(k / 2, i - 1);
      HalfThen(k, Pow2(i - 1));
    }
  }

  lemma HalfThen(k: int, w: int)
    requires w > 0
    ensures k / 2 / w == k / (2 * w)
  {
    var q, r := k / 2 / w, k / 2 % w;
    assert k == 2 * (q * w + r) + k % 2;
    assert (2 * w) * q == 2 * (q * w);
    DivModUnique(k, 2 * w, q, 2 * r + k % 2);
  }

  /** The low t bits are bit t - 1 and the ones below it. */
  lemma TopBit(k: int, t: nat)
    requires t > 0
    ensures k % Pow2(t) == Bit(k, t - 1) * Pow2(t - 1) + k % Pow2(t - 1)
  {
    hide Bit;
    BitIs(k, t - 1);
    SplitTop(k, Pow2(t - 1));
  }

  lemma SplitTop(k: int, w: int)
    requires w > 0
    ensures k % (2 * w) == (k / w % 2) * w + k % w
  {
    var m := k / w;
    OneMore(k, w, m / 2, m % 2, k % w);
  }

  lemma OneMore(k: int, w: int, q: int, b: int, r: int)
    requires w > 0 && 0 <= r < w && (b == 0 || b == 1) && k == (2 * q + b) * w + r
    ensures k % (2 * w) == b * w + r
  {
    assert (2 * q + b) * w == (2 * w) * q + b * w;
    DivModUnique(k, 2 * w, q, b * w + r);
  }

  /** Each round shifts the number by one bit of k, the highest first. */
  lemma {:induction false} CodeLadderCounts(R: (Ladder, int) -> bool, k: int, u: int, t: nat, s: Ladder, n: int)
    requires Counts(R, u) && R(s, n)
    ensures R(CodeLadder(k, u, t, s), Pow2(t) * n + k % Pow2(t))
    decreases t
  {
    hide Counts, Ladder.Step, Ladder.Swapped, Bit;
    if t == 0 {
      assert k % 1 == 0;
    } else {
      var b := Bit(k, t - 1);
      CountsOnce(R, u, s, n, b);
      CodeLadderCounts(R, k, u, t - 1, s.Swapped(b).Step(u).Swapped(b), 2 * n + b);
      TopBit(k, t);
      assert Pow2(t - 1) * (2 * n + b) == Pow2(t) * n + b * Pow2(t - 1);
    }
  }

  /** The ladder of the RFC on t bits, from n, leads to n shifted by t bits with the low t bits of k below it. */
  lemma LadderCounts(R: (Ladder, int) -> bool, k: int, u: int, t: nat, s: Ladder, n: int)
    requires Counts(R, u) && R(s, n)
    ensures R(RfcLadder(k, u, t, s, 0), Pow2(t) * n + k % Pow2(t))
  {
    hide Counts, Ladder.Step;
    CodeLadderCounts(R, k, u, t, s, n);
    EagerSwapRefines(k, u, t, s, 0);
    assert s.Swapped(0) == s;
  }

  /** The scalar has bit 254 set, is a multiple of 8, and has bits 3 to 253 of its bytes. */
  lemma ScalarBits(scalar: seq<u8>)
    requires |scalar| == 32
    ensures Pow2(254) <= DecodeScalar(scalar) < Pow2(255) && DecodeScalar(scalar) % 8 == 0
    ensures forall i :: 3 <= i < 254 ==> Bit(DecodeScalar(scalar), i) == Bit(scalar[i / 8] as int, i % 8)
  {
    hide Bit, LeVal, Pow2;
    var c := scalar[0 := scalar[0] - scalar[0] % 8][31 := scalar[31] % 64 + 64];
    forall i | 3 <= i < 254 ensures Bit(LeVal(c), i) == Bit(scalar[i / 8] as int, i % 8) {
      KeptBit(scalar, c, i);
    }
    TopByte(c);
    LowThree(c);
    assert c[0] % 8 == 0;
  }

  lemma KeptBit(scalar: seq<u8>, c: seq<u8>, i: nat)
    requires |scalar| == 32 && 3 <= i < 254
    requires c == scalar[0 := scalar[0] - scalar[0] % 8][31 := scalar[31] % 64 + 64]
    ensures Bit(LeVal(c), i) == Bit(scalar[i / 8] as int, i % 8)
  {
    hide Bit, LeVal;
    BitOfLe(c, i);
    if i / 8 == 0 {
      HighBits(scalar[0] as int, i);
    } else if i / 8 == 31 {
      BelowSix(scalar[31] as int, i % 8);
    }
  }

  /** Clearing the low three bits of a byte leaves the others. */
  lemma HighBits(x: int, i: nat)
    requires 3 <= i && 0 <= x < 256
    ensures Bit(x - x % 8, i) == Bit(x, i)
  {
    var y := x - x % 8;
    assert Bit(x, i) == Bit(x / 2 / 2 / 2, i - 3) && Bit(y, i) == Bit(y / 2 / 2 / 2, i - 3) by {
      assert Bit(x / 2, i - 1) == Bit(x / 2 / 2, i - 2);
      assert Bit(y / 2, i - 1) == Bit(y / 2 / 2, i - 2);
    }
    assert x / 2 / 2 / 2 == y / 2 / 2 / 2;
  }

  lemma BelowSix(x: int, i: nat)
    requires i < 6 && 0 <= x < 256
    ensures Bit(x % 64 + 64, i) == Bit(x, i)
  {
    hide Bit;
    Pow2Values();
    LowBits(x % 64, x / 64, 6, i);
    LowBits(x % 64, 1, 6, i);
  }

  lemma TopByte(c: seq<u8>)
    requires |c| == 32 && 64 <= c[31] < 128
    ensures Pow2(254) <= LeVal(c) < Pow2(255)
  {
    hide Pow2, LeVal;
    assert c == c[..31] + [c[31]];
    LeAppend(c[..31], c[31]);
    LeValBound(c[..31]);
    SixAndSeven();
    Pow2Add(248, 6);
    Pow2Add(248, 7);
    TopDigit(Pow2(248), LeVal(c[..31]), c[31] as int);
  }

  lemma SixAndSeven()
    ensures Pow2(6) == 64 && Pow2(7) == 128
  {
  }

  lemma LowThree(c: seq<u8>)
    requires c != []
    ensures LeVal(c) % 8 == c[0] as int % 8
  {
  }

  /** The point is read little-endian without its top bit. */
  lemma PointValue(point: seq<u8>)
    requires |point| == 32
    ensures DecodeU(point) == LeVal(point) % Pow2(255) % P
  {
    hide Pow2, LeVal;
    var low, b := point[..31], point[31];
    assert point == low + [b] && point[31 := b % 128] == low + [b % 128];
    LeAppend(low, b);
    LeAppend(low, b % 128);
    LeValBound(low);
    SixAndSeven();
    Pow2Add(248, 7);
    WithoutTop(Pow2(248), LeVal(low), b as int);
  }

  lemma WithoutTop(w: int, low: int, b: int)
    requires 0 <= low < w && 0 <= b < 256
    ensures (low + w * b) % (w * 128) == low + w * (b % 128)
  {
    LowDigit(w, low, b % 128);
    if b < 128 {
      DivModUnique(low + w * b, w * 128, 0, low + w * b);
    } else {
      assert w * b == w * 128 + w * (b - 128);
      DivModUnique(low + w * b, w * 128, 1, low + w * (b - 128));
    }
  }

  lemma LowDigit(w: int, low: int, r: int)
    requires 0 <= low < w && 0 <= r < 128
    ensures 0 <= low + w * r < w * 128
  {
    assert 0 <= w * r <= w * 127;
  }

  lemma TopDigit(w: int, low: int, top: int)
    requires 0 <= low < w && 64 <= top < 128
    ensures w * 64 <= low + w * top < w * 128
  {
    assert w * 64 <= w * top <= w * 127;
  }

  /** What is computed is the multiple by the scalar: in any relation that counts, and relates the starting point
      to 0, the projective result is related to the scalar. */
  lemma ScalarMultiple(R: (Ladder, int) -> bool, scalar: seq<u8>, point: seq<u8>) returns (s: Ladder)
    requires |scalar| == |point| == 32
    requires Counts(R, DecodeU(point)) && R(Ladder(1, 0, DecodeU(point), 1), 0)
    ensures R(s, DecodeScalar(scalar)) && RfcX25519(scalar, point) == LeBytes(Affine(s), 32)
  {
    hide Counts, RfcLadder, DecodeScalar, DecodeU, Affine, Pow2;
    var k, u := DecodeScalar(scalar), DecodeU(point);
    s := RfcLadder(k, u, BITS, Ladder(1, 0, u, 1), 0);
    LadderCounts(R, k, u, BITS, Ladder(1, 0, u, 1), 0);
    ScalarBits(scalar);
    assert k % Pow2(BITS) == k;
  }

  ghost function Elements(a: seq<i64>, c: seq<i64>, b: seq<i64>, d: seq<i64>): Ladder {
    Ladder(Fe(a), Fe(c), Fe(b), Fe(d))
  }

  ghost predicate Separate(s: seq<array<i64>>) {
    && (forall i :: 0 <= i < |s| ==> s[i].Length == 16)
    && (forall i, j :: 0 <= i < j < |s| ==> s[i] != s[j])
  }

  /** First half of the ladder step: the squares AA, BB and the cross products CB, DA. */
  method StepCross(a: array<i64>, b: array<i64>, c: array<i64>, d: array<i64>, e: array<i64>, f: array<i64>)
    requires Separate([a, b, c, d, e, f])
    requires Reduced(a[..]) && Reduced(b[..]) && Reduced(c[..]) && Reduced(d[..])
    modifies a, b, c, d, e, f
    ensures Reduced(a[..]) && Reduced(c[..]) && Reduced(d[..]) && Reduced(f[..])
    ensures var A, B := (old(Fe(a[..])) + old(Fe(c[..]))) % P, (old(Fe(a[..])) - old(Fe(c[..]))) % P;
      var C, D := (old(Fe(b[..])) + old(Fe(d[..]))) % P, (old(Fe(b[..])) - old(Fe(d[..]))) % P;
      && Fe(d[..]) == (A * A) % P && Fe(f[..]) == (B * B) % P
      && Fe(a[..]) == (C * B) % P && Fe(c[..]) == (D * A) % P
  {
    hide Fe, Val, Reduced, Small, Bounded;
    Distinct(a, b, c, d, e, f);
    ReducedBounded(a[..]);
    ReducedBounded(b[..]);
    ReducedBounded(c[..]);
    ReducedBounded(d[..]);
    FAdd(e, a, c);
    FSub(a, a, c);
    FAdd(c, b, d);
    FSub(b, b, d);
    FSqr(d, e);
    FSqr(f, a);
    FMul(a, c, a);
    FMul(c, b, e);
  }

  /** Second half, the x_3 and z_3 side: the sum and the squared difference of the cross products,
      and E = AA - BB. */
  method StepDifferences(a: array<i64>, b: array<i64>, c: array<i64>, d: array<i64>, e: array<i64>, f: array<i64>)
    requires Separate([a, b, c, d, e, f])
    requires Reduced(a[..]) && Reduced(c[..]) && Reduced(d[..]) && Reduced(f[..])
    modifies a, b, c, e
    ensures Small(e[..]) && Reduced(b[..]) && Small(c[..])
    ensures Fe(e[..]) == (old(Fe(a[..])) + old(Fe(c[..]))) % P
    ensures var diff := (old(Fe(a[..])) - old(Fe(c[..]))) % P; Fe(b[..]) == (diff * diff) % P
    ensures Fe(c[..]) == (Fe(d[..]) - Fe(f[..])) % P
  {
    Distinct(a, b, c, d, e, f);
    FAdd(e, a, c);
    FSub(a, a, c);
    FSqr(b, a);
    FSub(c, d, f);
  }

  /** The last products of the step. */
  method StepProducts(a: array<i64>, b: array<i64>, c: array<i64>, d: array<i64>, e: array<i64>, f: array<i64>,
                      x: array<i64>, k121665: array<i64>)
    requires Separate([a, b, c, d, e, f])
    requires x.Length == k121665.Length == 16 && x !in [a, b, c, d, e, f] && k121665 !in [a, b, c, d, e, f]
    requires Small(c[..]) && Reduced(d[..]) && Reduced(f[..]) && Reduced(b[..]) && Small(e[..])
    requires Small(x[..]) && Small(k121665[..])
    modifies a, b, c, d
    ensures Reduced(a[..]) && Reduced(b[..]) && Reduced(c[..]) && Reduced(d[..])
    ensures Fe(a[..]) == (old(Fe(d[..])) * Fe(f[..])) % P
    ensures var E := old(Fe(c[..]));
      Fe(c[..]) == (E * (((E * Fe(k121665[..])) % P + old(Fe(d[..]))) % P)) % P
    ensures Fe(b[..]) == (Fe(e[..]) * Fe(e[..])) % P
    ensures Fe(d[..]) == (old(Fe(b[..])) * Fe(x[..])) % P
  {
    Distinct(a, b, c, d, e, f);
    ReducedSmall(d[..]);
    ReducedSmall(f[..]);
    ReducedSmall(b[..]);
    FMul(a, c, k121665);
    FAdd(a, a, d);
    FMul(c, c, a);
    FMul(a, d, f);
    FMul(d, b, x);
    FSqr(b, e);
  }

  /** The body of the ladder loop, between the two pairs of conditional swaps. */
  method LadderStep(a: array<i64>, b: array<i64>, c: array<i64>, d: array<i64>, e: array<i64>, f: array<i64>,
                    x: array<i64>, k121665: array<i64>)
    requires Separate([a, b, c, d, e, f])
    requires x.Length == k121665.Length == 16 && x !in [a, b, c, d, e, f] && k121665 !in [a, b, c, d, e, f]
    requires Reduced(a[..]) && Reduced(b[..]) && Reduced(c[..]) && Reduced(d[..])
    requires Small(x[..]) && Small(k121665[..]) && Fe(k121665[..]) == 121665
    modifies a, b, c, d, e, f
    ensures Reduced(a[..]) && Reduced(b[..]) && Reduced(c[..]) && Reduced(d[..])
    ensures Elements(a[..], c[..], b[..], d[..]) == old(Elements(a[..], c[..], b[..], d[..])).Step(Fe(x[..]))
  {
    hide Fe, Val, Reduced, Small, Separate, Ladder.Step;
    ghost var s, u := Elements(a[..], c[..], b[..], d[..]), Fe(x[..]);
    Distinct(a, b, c, d, e, f);
    StepCross(a, b, c, d, e, f);
    ghost var AA, BB, CB, DA := Fe(d[..]), Fe(f[..]), Fe(a[..]), Fe(c[..]);
    StepDifferences(a, b, c, d, e, f);
    ghost var sum, square, E := Fe(e[..]), Fe(b[..]), Fe(c[..]);
    assert Fe(d[..]) == AA && Fe(f[..]) == BB;
    StepProducts(a, b, c, d, e, f, x, k121665);
    StepAlgebra(s, u, AA, BB, CB, DA, sum, square, E, Elements(a[..], c[..], b[..], d[..]));
  }

  lemma StepAlgebra(s: Ladder, u: int, AA: int, BB: int, CB: int, DA: int, sum: int, square: int, E: int, r: Ladder)
    requires var A, B, C, D := (s.x2 + s.z2) % P, (s.x2 - s.z2) % P, (s.x3 + s.z3) % P, (s.x3 - s.z3) % P;
      AA == (A * A) % P && BB == (B * B) % P && CB == (C * B) % P && DA == (D * A) % P
    requires sum == (CB + DA) % P && E == (AA - BB) % P
    requires var diff := (CB - DA) % P; square == (diff * diff) % P
    requires r.x2 == (AA * BB) % P && r.x3 == (sum * sum) % P && r.z3 == (square * u) % P
    requires r.z2 == (E * (((E * 121665) % P + AA) % P)) % P
    ensures r == s.Step(u)
  {
    var t := s.Step(u);
    var diff := (DA - CB) % P;
    // The code squares CB - DA where the RFC squares DA - CB.
    Opposite(CB, DA);
    OppositeSquares((CB - DA) % P, (DA - CB) % P, P);
    assert square * u == u * square;
    assert E * 121665 == 121665 * E;
    assert t.x2 == (AA * BB) % P;
    assert t.z2 == (E * ((AA + (121665 * E) % P) % P)) % P;
    assert t.x3 == (sum * sum) % P;
    assert t.z3 == (u * square) % P;
  }

  lemma Distinct(a: array<i64>, b: array<i64>, c: array<i64>, d: array<i64>, e: array<i64>, f: array<i64>)
    requires Separate([a, b, c, d, e, f])
    ensures a.Length == b.Length == c.Length == d.Length == e.Length == f.Length == 16
    ensures a != b && a != c && a != d && a != e && a != f && b != c && b != d && b != e && b != f
    ensures c != d && c != e && c != f && d != e && d != f && e != f
  {
    var s := [a, b, c, d, e, f];
    assert s[0] == a && s[1] == b && s[2] == c && s[3] == d && s[4] == e && s[5] == f;
  }

  /** One round of the loop: swap, step, swap back. */
  method LadderRound(a: array<i64>, b: array<i64>, c: array<i64>, d: array<i64>, e: array<i64>, f: array<i64>,
                     x: array<i64>, k121665: array<i64>, r: i64)
    requires Separate([a, b, c, d, e, f])
    requires x.Length == k121665.Length == 16 && x !in [a, b, c, d, e, f] && k121665 !in [a, b, c, d, e, f]
    requires Reduced(a[..]) && Reduced(b[..]) && Reduced(c[..]) && Reduced(d[..])
    requires Small(x[..]) && Small(k121665[..]) && Fe(k121665[..]) == 121665
    requires r == 0 || r == 1
    modifies a, b, c, d, e, f
    ensures Reduced(a[..]) && Reduced(b[..]) && Reduced(c[..]) && Reduced(d[..])
    ensures Elements(a[..], c[..], b[..], d[..])
      == old(Elements(a[..], c[..], b[..], d[..])).Swapped(r as int).Step(Fe(x[..])).Swapped(r as int)
  {
    Distinct(a, b, c, d, e, f);
    ghost var s, u := Elements(a[..], c[..], b[..], d[..]), Fe(x[..]);
    Sel25519(a, b, r);
    Sel25519(c, d, r);
    ghost var s1 := Elements(a[..], c[..], b[..], d[..]);
    assert s1 == s.Swapped(r as int);
    LadderStep(a, b, c, d, e, f, x, k121665);
    ghost var s2 := Elements(a[..], c[..], b[..], d[..]);
    assert s2 == s1.Step(u);
    Sel25519(a, b, r);
    Sel25519(c, d, r);
    assert Elements(a[..], c[..], b[..], d[..]) == s2.Swapped(r as int);
  }

  /** scalar[0] & 248 and (scalar[31] & 127) | 64 are the clamping of the RFC. */
  method Clamp(scalar: array<u8>) returns (z: array<u8>)
    requires scalar.Length == 32
    ensures fresh(z) && z.Length == 32
    ensures LeVal(z[..]) == DecodeScalar(scalar[..])
  {
    z := new u8[32];
    for i := 0 to 31
      invariant forall k :: 0 <= k < i ==> z[k] == scalar[k]
    {
      z[i] := scalar[i];
    }
    var low := scalar[31] % 128;
    z[31] := if low < 64 then low + 64 else low;
    z[0] := z[0] - z[0] % 8;
    assert z[..] == scalar[..][0 := scalar[0] - scalar[0] % 8][31 := scalar[31] % 64 + 64];
  }

  lemma ConstantLimbs(s: seq<i64>, x: i64, y: i64)
    requires |s| == 16 && s[0] == x && s[1] == y && forall k :: 2 <= k < 16 ==> s[k] == 0
    ensures Val(s) == x as int + 65536 * y as int
  {
    ZeroVal(s[1..][1..]);
    assert Val(s) == s[0] as int + 65536 * Val(s[1..]);
  }

  /** a = 1, b = x, c = 0, d = 1: the state the ladder starts from. */
  method InitLimbs(one: array<i64>, zero: array<i64>)
    requires one.Length == zero.Length == 16 && one != zero
    modifies one, zero
    ensures Digits(one[..]) && Digits(zero[..]) && Fe(one[..]) == 1 && Fe(zero[..]) == 0
  {
    for i := 0 to 16
      invariant forall k :: 0 <= k < i ==> one[k] == 0 && zero[k] == 0
    {
      zero[i] := 0;
      one[i] := 0;
    }
    one[0] := 1;
    ConstantLimbs(one[..], 1, 0);
    ConstantLimbs(zero[..], 0, 0);
  }

  /** The 255 rounds, from bit 254 of the clamped scalar down to bit 0. */
  method RunLadder(a: array<i64>, b: array<i64>, c: array<i64>, d: array<i64>, x: array<i64>, z: array<u8>)
    requires a.Length == b.Length == c.Length == d.Length == x.Length == 16 && z.Length == 32
    requires a != b && a != c && a != d && b != c && b != d && c != d && x !in [a, b, c, d]
    requires Reduced(a[..]) && Reduced(b[..]) && Reduced(c[..]) && Reduced(d[..]) && Small(x[..])
    modifies a, b, c, d
    ensures Reduced(a[..]) && Reduced(b[..]) && Reduced(c[..]) && Reduced(d[..])
    ensures Elements(a[..], c[..], b[..], d[..])
      == CodeLadder(LeVal(z[..]), Fe(x[..]), BITS, old(Elements(a[..], c[..], b[..], d[..])))
  {
    var e := new i64[16];
    var f := new i64[16];
    var k121665 := new i64[16](i => if i == 0 then 0xDB41 else if i == 1 then 1 else 0);
    ConstantLimbs(k121665[..], 0xDB41, 1);
    ghost var k, u := LeVal(z[..]), Fe(x[..]);
    ghost var s := Elements(a[..], c[..], b[..], d[..]);
    ghost var xs, ks, zs := x[..], k121665[..], z[..];
    for i := BITS downto 0
      invariant x[..] == xs && k121665[..] == ks
      invariant Reduced(a[..]) && Reduced(b[..]) && Reduced(c[..]) && Reduced(d[..])
      invariant CodeLadder(k, u, BITS, s) == CodeLadder(k, u, i, Elements(a[..], c[..], b[..], d[..]))
      modifies a, b, c, d, e, f
    {
      var r := Bit(z[i / 8] as int, i % 8) as i64;
      BitOfLe(zs, i);
      LadderRound(a, b, c, d, e, f, x, k121665, r);
    }
  }

  /** The four coordinates the ladder starts from. */
  method StartLimbs(a: array<i64>, b: array<i64>, c: array<i64>, d: array<i64>, x: array<i64>)
    requires Separate([a, b, c, d]) && x.Length == 16 && x !in [a, b, c, d]
    requires Digits(x[..])
    modifies a, b, c, d
    ensures Reduced(a[..]) && Reduced(b[..]) && Reduced(c[..]) && Reduced(d[..])
    ensures Elements(a[..], c[..], b[..], d[..]) == Ladder(1, 0, Fe(x[..]), 1)
  {
    assert [a, b, c, d][0] == a && [a, b, c, d][1] == b && [a, b, c, d][2] == c && [a, b, c, d][3] == d;
    CopyLimbs(b, x);
    InitLimbs(a, c);
    CopyLimbs(d, a);
  }

  /** The affine coordinate x_2 / z_2, encoded. */
  method Finish(out: array<u8>, a: array<i64>, c: array<i64>)
    requires out.Length == 32 && a.Length == c.Length == 16 && a != c
    requires Reduced(a[..]) && Reduced(c[..])
    modifies out, a, c
    ensures out[..] == LeBytes(Affine(Ladder(old(Fe(a[..])), old(Fe(c[..])), 0, 0)), 32)
  {
    FInv(c, c);
    ReducedSmall(a[..]);
    ReducedSmall(c[..]);
    FMul(a, a, c);
    ReducedSmall(a[..]);
    Pack25519(out, a);
  }

  /** Decoding and the ladder: the projective result x_2 : z_2. */
  method Coordinates(scalar: array<u8>, point: array<u8>) returns (a: array<i64>, c: array<i64>)
    requires scalar.Length == point.Length == 32
    ensures fresh(a) && fresh(c) && a.Length == c.Length == 16 && a != c
    ensures Reduced(a[..]) && Reduced(c[..])
    ensures var s := RfcLadder(DecodeScalar(scalar[..]), DecodeU(point[..]), BITS,
      Ladder(1, 0, DecodeU(point[..]), 1), 0);
      Fe(a[..]) == s.x2 && Fe(c[..]) == s.z2
  {
    var z := Clamp(scalar);
    var x := new i64[16];
    Unpack25519(x, point[..]);
    a := new i64[16];
    var b := new i64[16];
    c := new i64[16];
    var d := new i64[16];
    StartLimbs(a, b, c, d, x);
    ReducedSmall(x[..]);
    EagerSwapRefines(LeVal(z[..]), Fe(x[..]), BITS, Ladder(1, 0, Fe(x[..]), 1), 0);
    RunLadder(a, b, c, d, x, z);
  }

  /** out may be the same array as scalar or point. */
  method X25519(out: array<u8>, scalar: array<u8>, point: array<u8>)
    requires out.Length == scalar.Length == point.Length == 32
    modifies out
    ensures out[..] == RfcX25519(old(scalar[..]), old(point[..]))
  {
    var a, c := Coordinates(scalar, point);
    Finish(out, a, c);
  }
}

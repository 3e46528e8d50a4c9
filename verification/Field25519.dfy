/** Arithmetic on field elements held as sixteen signed 64-bit limbs, updated in place.
    Every operation on `i64` is checked by the verifier to stay within 64 bits. */
module Field25519 {
  import opened LimbArithmetic
  import opened TwosComplement
  import opened Bytes

  /** What two carry passes leave behind: digits, except that the lowest limb may be off by 38. */
  ghost predicate Reduced(s: seq<i64>) {
    |s| == 16 && -38 <= s[0] as int < 65536 + 38 && Digits(s[1..])
  }

  /** The field element a limb sequence stands for. */
  ghost function Fe(s: seq<i64>): int {
    Val(s) % P
  }

  // ----- the carry pass -----

  /** Before limb i is processed: lower limbs are digits, limb i has absorbed one carry. */
  ghost predicate Carrying(s: seq<i64>, i: nat, v: int) {
    && |s| == 16
    && (forall k :: 0 <= k < i && k < 16 ==> 0 <= s[k] as int < 65536)
    && (forall k :: i < k < 16 ==> -0x4000_0000_0000_0000 <= s[k] as int <= 0x4000_0000_0000_0000)
    && (i < 16 ==> -0x4001_0000_0000_0000 <= s[i] as int <= 0x4001_0000_0000_0000)
    && Val(s) == v
  }

  /** After the last limb, with q carried past 2^256 and brought back as 38 * q. */
  ghost predicate Carried(s: seq<i64>, v: int, q: int) {
    && |s| == 16
    && (forall k :: 1 <= k < 16 ==> 0 <= s[k] as int < 65536)
    && 0 <= s[0] as int - 38 * q < 65536
    && Val(s) == v + 38 * q - R * q
  }

  lemma CarryMiddle(s: seq<i64>, i: nat, v: int, c: int, r: seq<i64>)
    requires i < 15 && Carrying(s, i, v) && |r| == 16
    requires c == (s[i] as int + 65536) / 65536
    requires r[i] as int == s[i] as int + 65536 - c * 65536
    requires r[i + 1] as int == s[i + 1] as int + (c - 1)
    requires forall k :: 0 <= k < 16 && k != i && k != i + 1 ==> r[k] == s[k]
    ensures Carrying(r, i + 1, v)
  {
    var m := s[i := r[i]];
    assert r == m[i + 1 := r[i + 1]];
    ValUpdate(s, i, r[i]);
    ValUpdate(m, i + 1, r[i + 1]);
    assert (c - 1) * Weight(i + 1) == (c - 1) * (65536 * Weight(i));
  }

  lemma CarryTop(s: seq<i64>, v: int, c: int, r: seq<i64>)
    requires Carrying(s, 15, v) && |r| == 16
    requires c == (s[15] as int + 65536) / 65536
    requires r[15] as int == s[15] as int + 65536 - c * 65536
    requires r[0] as int == s[0] as int + 38 * (c - 1)
    requires forall k :: 1 <= k < 15 ==> r[k] == s[k]
    ensures Carried(r, v, c - 1)
  {
    var m := s[15 := r[15]];
    assert r == m[0 := r[0]];
    ValUpdate(s, 15, r[15]);
    ValUpdate(m, 0, r[0]);
    Weight16();
  }

  /** The digits and the carried-out part are exactly remainder and quotient by 2^256. */
  lemma CarryQuotient(s: seq<i64>, v: int, q: int)
    requires Carried(s, v, q) && -0x1000_0000_0000_0000 <= q <= 0x1000_0000_0000_0000
    ensures q == v / R && Val(s) == v % R + 38 * q
  {
    var x := (s[0] as int - 38 * q) as i64;
    var t := s[0 := x];
    ValUpdate(s, 0, x);
    ValDigits(t);
    Weight16();
    DivModUnique(v, R, q, Val(t));
  }

  /** One carry pass. The value modulo 2^256 is brought to digits, and the part above 2^256
      comes back into limb 0 multiplied by 38. */
  method Car25519(o: array<i64>)
    requires o.Length == 16
    requires Bounded(o[..], 0x4000_0000_0000_0000)
    modifies o
    ensures Val(o[..]) == Val(old(o[..])) % R + 38 * (Val(old(o[..])) / R)
    ensures 0 <= o[0] as int - 38 * (Val(old(o[..])) / R) < 65536
    ensures Digits(o[1..])
  {
    ghost var v := Val(o[..]);
    ghost var q := 0;
    for i := 0 to 16
      invariant i < 16 ==> Carrying(o[..], i, v)
      invariant i == 16 ==> Carried(o[..], v, q) && -0x1000_0000_0000_0000 <= q <= 0x1000_0000_0000_0000
    {
      ghost var before := o[..];
      assert o[i] == before[i];
      o[i] := o[i] + 65536;
      var c := o[i] / 65536;
      var next := if i < 15 then i + 1 else 0;
      assert o[next] == before[next];
      o[next] := o[next] + (c - 1 + 37 * (c - 1) * (if i == 15 then 1 else 0));
      o[i] := o[i] - c * 65536;
      if i < 15 {
        CarryMiddle(before, i, v, c as int, o[..]);
      } else {
        CarryTop(before, v, c as int, o[..]);
        q := c as int - 1;
      }
    }
    CarryQuotient(o[..], v, q);
  }

  lemma CarryTwice(v: int, v1: int, v2: int, s: seq<i64>)
    requires -0x4000_0000_0000_0000 * R <= 65535 * v <= 0x4000_0000_0000_0000 * R
    requires v1 == v % R + 38 * (v / R)
    requires v2 == v1 % R + 38 * (v1 / R)
    requires |s| == 16 && Digits(s[1..]) && 0 <= s[0] as int - 38 * (v1 / R) < 65536
    ensures Reduced(s)
    ensures v2 % P == v % P
  {
    assert v == R * (v / R) + v % R;
    assert v1 == R * (v1 / R) + v1 % R;
    FoldTop(v % R, v / R);
    FoldTop(v1 % R, v1 / R);
  }

  // ----- sums and products -----

  /** o may be the same array as a or b. */
  method FAdd(o: array<i64>, a: array<i64>, b: array<i64>)
    requires o.Length == a.Length == b.Length == 16
    requires Bounded(a[..], 0x2000_0000_0000_0000) && Bounded(b[..], 0x2000_0000_0000_0000)
    modifies o
    ensures Val(o[..]) == Val(old(a[..])) + Val(old(b[..]))
    ensures Fe(o[..]) == (Fe(old(a[..])) + Fe(old(b[..]))) % P
    ensures forall k :: 0 <= k < 16 ==> o[k] as int == old(a[k]) as int + old(b[k]) as int
    ensures Reduced(old(a[..])) && Reduced(old(b[..])) ==> Small(o[..])
  {
    for i := 0 to 16
      invariant forall k :: 0 <= k < i ==> o[k] as int == old(a[k]) as int + old(b[k]) as int
      invariant forall k :: i <= k < 16 ==> o[k] == old(o[k]) && a[k] == old(a[k]) && b[k] == old(b[k])
    {
      o[i] := a[i] + b[i];
    }
    ValAdd(old(a[..]), old(b[..]), o[..]);
    ModAdd(Val(old(a[..])), Val(old(b[..])));
    if Reduced(old(a[..])) && Reduced(old(b[..])) {
      ReducedSmall(old(a[..]));
      ReducedSmall(old(b[..]));
    }
  }

  /** o may be the same array as a or b. */
  method FSub(o: array<i64>, a: array<i64>, b: array<i64>)
    requires o.Length == a.Length == b.Length == 16
    requires Bounded(a[..], 0x2000_0000_0000_0000) && Bounded(b[..], 0x2000_0000_0000_0000)
    modifies o
    ensures Val(o[..]) == Val(old(a[..])) - Val(old(b[..]))
    ensures Fe(o[..]) == (Fe(old(a[..])) - Fe(old(b[..]))) % P
    ensures forall k :: 0 <= k < 16 ==> o[k] as int == old(a[k]) as int - old(b[k]) as int
    ensures Reduced(old(a[..])) && Reduced(old(b[..])) ==> Small(o[..])
  {
    for i := 0 to 16
      invariant forall k :: 0 <= k < i ==> o[k] as int == old(a[k]) as int - old(b[k]) as int
      invariant forall k :: i <= k < 16 ==> o[k] == old(o[k]) && a[k] == old(a[k]) && b[k] == old(b[k])
    {
      o[i] := a[i] - b[i];
    }
    ValAdd(o[..], old(b[..]), old(a[..]));
    ModSub(Val(old(a[..])), Val(old(b[..])));
    if Reduced(old(a[..])) && Reduced(old(b[..])) {
      ReducedSmall(old(a[..]));
      ReducedSmall(old(b[..]));
    }
  }

  lemma ProductBound(x: int, y: int, m: int)
    requires m >= 0
    requires -m <= x <= m && -m <= y <= m
    ensures -(m * m) <= x * y <= m * m
  {
    assert (m - x) * (m + y) >= 0;
    assert (m + x) * (m - y) >= 0;
    assert (m + x) * (m + y) >= 0;
    assert (m - x) * (m - y) >= 0;
    assert (m - x) * (m + y) == m * m + m * y - x * m - x * y;
    assert (m + x) * (m - y) == m * m - m * y + x * m - x * y;
    assert (m + x) * (m + y) == m * m + m * y + x * m + x * y;
    assert (m - x) * (m - y) == m * m - m * y - x * m + x * y;
  }

  /** Rows below i of the schoolbook product are summed, and the first j terms of row i;
      no entry has collected more than one product per row. */
  ghost predicate Rows(t: seq<i64>, a: seq<i64>, b: seq<i64>, i: nat, j: nat) {
    && |t| == 31 && |a| == |b| == 16 && i <= 16 && j <= 16
    && (i == 16 ==> j == 0)
    && Val(t) == Val(a[..i]) * Val(b) + (if i < 16 then a[i] as int * Weight(i) * Val(b[..j]) else 0)
    && (forall k :: 0 <= k < 31 ==> -((i + 1) * 0x10_0000_0000_0000) <= t[k] as int <= (i + 1) * 0x10_0000_0000_0000)
    && (forall k :: i + j <= k < 31 ==> -(i * 0x10_0000_0000_0000) <= t[k] as int <= i * 0x10_0000_0000_0000)
  }

  lemma AddTerm(t: seq<i64>, a: seq<i64>, b: seq<i64>, i: nat, j: nat, x: i64)
    requires i < 16 && j < 16 && Rows(t, a, b, i, j)
    requires -0x10_0000_0000_0000 <= a[i] as int * b[j] as int <= 0x10_0000_0000_0000
    requires x as int == t[i + j] as int + a[i] as int * b[j] as int
    ensures Rows(t[i + j := x], a, b, i, j + 1)
  {
    hide Val, Weight;
    ValUpdate(t, i + j, x);
    ValPrefix(b, j);
    WeightAdd(i, j);
  }

  lemma NextRow(t: seq<i64>, a: seq<i64>, b: seq<i64>, i: nat)
    requires i < 16 && Rows(t, a, b, i, 16)
    ensures Rows(t, a, b, i + 1, 0)
  {
    ValPrefix(a, i);
    assert b[..16] == b && Val(b[..0]) == 0;
    var y, w, v, u := a[i] as int, Weight(i), Val(b), Val(a[..i]);
    assert (u + y * w) * v == u * v + y * w * v;
  }

  /** The fold: t[k] + 38 * t[k + 16] below limb 15. */
  lemma FoldValue(t: seq<i64>, u: seq<i64>)
    requires |t| == 31 && |u| == 16
    requires forall k :: 0 <= k < 15 ==> u[k] as int == t[k] as int + 38 * t[k + 16] as int
    requires u[15] == t[15]
    requires Bounded(t, 0x110_0000_0000_0000)
    ensures Val(u) % P == Val(t) % P
    ensures Bounded(u, 39 * 0x110_0000_0000_0000)
  {
    hide Val, Weight;
    var lo, hi := t[..16], t[16..];
    assert t == lo + hi;
    ValConcat(lo, hi);
    Weight16();
    FoldTop(Val(lo), Val(hi));
    FoldLimbs(lo, hi, u);
  }

  /** Adding 38 times the upper limbs, limb by limb. */
  lemma FoldLimbs(lo: seq<i64>, hi: seq<i64>, u: seq<i64>)
    requires |lo| == |u| == 16 && |hi| == 15 && Bounded(hi, 0x110_0000_0000_0000)
    requires forall k :: 0 <= k < 15 ==> u[k] as int == lo[k] as int + 38 * hi[k] as int
    requires u[15] == lo[15]
    ensures Val(u) == Val(lo) + 38 * Val(hi)
  {
    hide Val;
    var h38 := seq(15, k requires 0 <= k < 15 => (38 * hi[k] as int) as i64);
    ValScale(hi, h38);
    assert u[..15] + [u[15]] == u && lo[..15] + [lo[15]] == lo;
    ValAdd(lo[..15], h38, u[..15]);
    ValAppend(u[..15], u[15]);
    ValAppend(lo[..15], lo[15]);
  }

  lemma {:induction false} ValScale(h: seq<i64>, s: seq<i64>)
    requires |h| == |s|
    requires forall k :: 0 <= k < |h| ==> s[k] as int == 38 * h[k] as int
    ensures Val(s) == 38 * Val(h)
  {
    if h != [] {
      ValScale(h[1..], s[1..]);
    }
  }

  lemma ZeroVal(s: seq<i64>)
    requires forall k :: 0 <= k < |s| ==> s[k] == 0
    ensures Val(s) == 0
  {
    if s != [] {
      ZeroVal(s[1..]);
    }
  }

  /** Limbs this small may be multiplied: sums of a few reduced elements qualify. */
  ghost predicate Small(s: seq<i64>) {
    |s| == 16 && Bounded(s, 0x400_0000)
  }

  /** The double loop of the product, into a fresh buffer of 31 limbs. */
  method Schoolbook(a: array<i64>, b: array<i64>) returns (t: array<i64>)
    requires a.Length == b.Length == 16
    requires Small(a[..]) && Small(b[..])
    ensures fresh(t) && t.Length == 31
    ensures Val(t[..]) == Val(a[..]) * Val(b[..])
    ensures Bounded(t[..], 0x100_0000_0000_0000 + 0x10_0000_0000_0000)
  {
    t := new i64[31];
    for i := 0 to 31
      invariant forall k :: 0 <= k < i ==> t[k] == 0
    {
      t[i] := 0;
    }
    ZeroVal(t[..]);
    for i := 0 to 16
      invariant Rows(t[..], a[..], b[..], i, 0)
    {
      for j := 0 to 16
        invariant Rows(t[..], a[..], b[..], i, j)
      {
        ProductBound(a[i] as int, b[j] as int, 0x400_0000);
        ghost var before := t[..];
        assert t[i + j] == before[i + j];
        t[i + j] := t[i + j] + a[i] * b[j];
        assert t[..] == before[i + j := t[i + j]];
        AddTerm(before, a[..], b[..], i, j, t[i + j]);
      }
      NextRow(t[..], a[..], b[..], i);
    }
    assert a[..16] == a[..];
  }

  /** The fold by 38 and the copy into the output. */
  method FoldInto(o: array<i64>, t: array<i64>)
    requires o.Length == 16 && t.Length == 31 && o != t
    requires Bounded(t[..], 0x110_0000_0000_0000)
    modifies o, t
    ensures Val(o[..]) % P == Val(old(t[..])) % P
    ensures Bounded(o[..], 39 * 0x110_0000_0000_0000)
  {
    ghost var full := t[..];
    for i := 0 to 15
      invariant forall k :: 0 <= k < i ==> t[k] as int == full[k] as int + 38 * full[k + 16] as int
      invariant forall k :: i <= k < 31 ==> t[k] == full[k]
    {
      t[i] := t[i] + 38 * t[i + 16];
    }
    ghost var folded := t[..16];
    for i := 0 to 16
      invariant t[..16] == folded
      invariant forall k :: 0 <= k < i ==> o[k] == folded[k]
    {
      o[i] := t[i];
    }
    assert o[..] == folded;
    FoldValue(full, folded);
  }

  /** The two carry passes that end a product. */
  method CarTwice(o: array<i64>)
    requires o.Length == 16
    requires Bounded(o[..], 39 * 0x110_0000_0000_0000)
    modifies o
    ensures Val(o[..]) % P == Val(old(o[..])) % P
    ensures Reduced(o[..])
  {
    ValBounded(o[..], 39 * 0x110_0000_0000_0000);
    Weight16();
    ghost var v := Val(o[..]);
    Car25519(o);
    ghost var v1 := Val(o[..]);
    Car25519(o);
    CarryTwice(v, v1, Val(o[..]), o[..]);
  }

  /** o may be the same array as a or b. */
  method FMul(o: array<i64>, a: array<i64>, b: array<i64>)
    requires o.Length == a.Length == b.Length == 16
    requires Small(a[..]) && Small(b[..])
    modifies o
    ensures Val(o[..]) % P == (Val(old(a[..])) * Val(old(b[..]))) % P
    ensures Fe(o[..]) == (Fe(old(a[..])) * Fe(old(b[..]))) % P
    ensures Reduced(o[..])
  {
    ModMul(Val(a[..]), Val(b[..]));
    var t := Schoolbook(a, b);
    FoldInto(o, t);
    CarTwice(o);
  }

  method FSqr(o: array<i64>, a: array<i64>)
    requires o.Length == a.Length == 16
    requires Small(a[..])
    modifies o
    ensures Val(o[..]) % P == (Val(old(a[..])) * Val(old(a[..]))) % P
    ensures Fe(o[..]) == (Fe(old(a[..])) * Fe(old(a[..]))) % P
    ensures Reduced(o[..])
  {
    FMul(o, a, a);
  }

  // ----- inversion -----

  function Pow(x: int, n: nat): int {
    if n == 0 then 1 else x * Pow(x, n - 1)
  }

  lemma {:induction false} PowAdd(x: int, m: nat, n: nat)
    ensures Pow(x, m + n) == Pow(x, m) * Pow(x, n)
  {
    if m > 0 {
      PowAdd(x, m - 1, n);
      assert (x * Pow(x, m - 1)) * Pow(x, n) == x * (Pow(x, m - 1) * Pow(x, n));
    }
  }

  /** The exponent reached by the addition chain once bits 253 down to a are processed. */
  function ChainExponent(a: nat): (e: nat)
    requires a <= 254
    decreases 254 - a
  {
    if a == 254 then 1 else 2 * ChainExponent(a + 1) + (if a != 2 && a != 4 then 1 else 0)
  }

  lemma {:induction false} ChainOnes(a: nat)
    requires 5 <= a <= 254
    ensures ChainExponent(a) == Pow2(255 - a) - 1
    decreases 254 - a
  {
    if a < 254 {
      ChainOnes(a + 1);
    } else {
      assert Pow2(1) == 2 * Pow2(0);
    }
  }

  /** The whole chain raises to 2^255 - 21, which is P - 2. */
  lemma ChainTotal()
    ensures ChainExponent(0) == P - 2
  {
    ChainOnes(5);
    assert ChainExponent(4) == 2 * Pow2(250) - 2;
    assert ChainExponent(2) == 8 * Pow2(250) - 6;
    assert ChainExponent(0) == 32 * Pow2(250) - 21;
    Pow2Values();
    Pow2Add(64, 64);
    Pow2Add(128, 64);
    Pow2Add(192, 32);
    Pow2Add(224, 16);
    Pow2Add(240, 8);
    Pow2Add(248, 2);
    assert Pow2(2) == 4;
  }

  lemma ChainStep(x: int, e: nat, c: int, c2: int)
    requires c % P == Pow(x, e) % P && c2 % P == (c * c) % P
    ensures c2 % P == Pow(x, 2 * e) % P
    ensures (c2 * x) % P == Pow(x, 2 * e + 1) % P
  {
    ModMul(c, c);
    ModMul(Pow(x, e), Pow(x, e));
    PowAdd(x, e, e);
    ModMul(c2, x);
    ModMul(Pow(x, 2 * e), x);
    assert Pow(x, 2 * e + 1) == x * Pow(x, 2 * e);
  }

  lemma {:induction false} PowMod(x: int, n: nat)
    ensures Pow(x, n) % P == Pow(x % P, n) % P
  {
    if n > 0 {
      PowMod(x, n - 1);
      var y, p, q := x % P, Pow(x, n - 1), Pow(x % P, n - 1);
      ModMul(x, p);
      ModMul(y, q);
      assert y % P == y && p % P == q % P;
    }
  }

  lemma PowOne(x: int)
    ensures Pow(x, ChainExponent(254)) == x
  {
    assert ChainExponent(254) == 1;
    assert Pow(x, 1) == x * Pow(x, 0);
  }

  /** o may be the same array as input. */
  method FInv(o: array<i64>, input: array<i64>)
    requires o.Length == input.Length == 16
    requires Reduced(input[..])
    modifies o
    ensures Fe(o[..]) == Pow(Fe(old(input[..])), P - 2) % P
    ensures Reduced(o[..])
  {
    ghost var s0 := input[..];
    ghost var x := Val(s0);
    var c := new i64[16];
    CopyLimbs(c, input);
    PowOne(x);
    ReducedSmall(s0);
    for a := 254 downto 0
      invariant input[..] == s0
      invariant Reduced(c[..])
      invariant Val(c[..]) % P == Pow(x, ChainExponent(a)) % P
      modifies c
    {
      ghost var c0 := Val(c[..]);
      ReducedSmall(c[..]);
      FSqr(c, c);
      ChainStep(x, ChainExponent(a + 1), c0, Val(c[..]));
      ReducedSmall(c[..]);
      if a != 2 && a != 4 {
        FMul(c, c, input);
      }
    }
    CopyLimbs(o, c);
    ChainTotal();
    PowMod(x, P - 2);
  }

  method CopyLimbs(o: array<i64>, a: array<i64>)
    requires o.Length == a.Length == 16
    modifies o
    ensures o[..] == old(a[..])
  {
    for i := 0 to 16
      invariant forall k :: 0 <= k < i ==> o[k] == old(a[k])
      invariant forall k :: i <= k < 16 ==> a[k] == old(a[k])
    {
      o[i] := a[i];
    }
  }

  lemma ReducedBounded(s: seq<i64>)
    requires Reduced(s)
    ensures Bounded(s, 0x2000_0000_0000_0000)
  {
    ReducedSmall(s);
  }

  lemma ReducedSmall(s: seq<i64>)
    requires Reduced(s)
    ensures Small(s) && Bounded(s, 0x1_0026)
  {
    forall k | 0 <= k < 16 ensures -0x1_0026 <= s[k] as int <= 0x1_0026 {
      if k > 0 {
        assert s[k] == s[1..][k - 1];
      }
    }
  }

  // ----- conditional swap -----

  function And64(x: i64, y: i64): (r: i64)
    ensures r as int == And(x as int, y as int, 63)
  {
    AndFits(x as int, y as int, 63);
    Pow2Values();
    And(x as int, y as int, 63) as i64
  }

  function Xor64(x: i64, y: i64): (r: i64)
    ensures r as int == Xor(x as int, y as int, 63)
  {
    XorFits(x as int, y as int, 63);
    Pow2Values();
    Xor(x as int, y as int, 63) as i64
  }

  /** Swaps p and q when b is 1, without branching on b. */
  method Sel25519(p: array<i64>, q: array<i64>, b: i64)
    requires p.Length == q.Length == 16 && p != q
    requires b == 0 || b == 1
    modifies p, q
    ensures p[..] == (if b == 1 then old(q[..]) else old(p[..]))
    ensures q[..] == (if b == 1 then old(p[..]) else old(q[..]))
  {
    var c := Not((b - 1) as int) as i64;
    for i := 0 to 16
      invariant forall k :: i <= k < 16 ==> p[k] == old(p[k]) && q[k] == old(q[k])
      invariant forall k :: 0 <= k < i ==> p[k] == (if b == 1 then old(q[k]) else old(p[k]))
      invariant forall k :: 0 <= k < i ==> q[k] == (if b == 1 then old(p[k]) else old(q[k]))
    {
      SelLimb(p[i], q[i], c);
      var t := And64(c, Xor64(p[i], q[i]));
      p[i] := Xor64(p[i], t);
      q[i] := Xor64(q[i], t);
    }
  }

  lemma SelLimb(x: i64, y: i64, c: i64)
    requires c == -1 || c == 0
    ensures Xor64(x, And64(c, Xor64(x, y))) == (if c == -1 then y else x)
    ensures Xor64(y, And64(c, Xor64(x, y))) == (if c == -1 then x else y)
  {
    Pow2Values();
    XorFits(x as int, y as int, 63);
    AndMask(Xor(x as int, y as int, 63), 63);
    XorCancels(x as int, y as int, 63);
    XorCommutes(x as int, y as int, 63);
    XorCancels(y as int, x as int, 63);
    XorZero(x as int, 63);
    XorZero(y as int, 63);
  }

  // ----- packing -----

  lemma Mask16(x: i64)
    ensures And64(x, 0xffff) as int == x as int % 65536
    ensures And64(x, 1) as int == x as int % 2
    ensures And64(x, 0xff) as int == x as int % 256
  {
    Pow2Values();
    assert Pow2(1) == 2;
    AndLowBits(x as int, 16, 63);
    AndLowBits(x as int, 1, 63);
    AndLowBits(x as int, 8, 63);
  }

  /** The digits of P. */
  function PLimb(k: nat): i64 {
    if k == 0 then 0xffed else if k < 15 then 0xffff else 0x7fff
  }

  function PLimbs(n: nat): (s: seq<i64>)
    ensures |s| == n && forall k :: 0 <= k < n ==> s[k] == PLimb(k)
  {
    if n == 0 then [] else PLimbs(n - 1) + [PLimb(n - 1)]
  }

  lemma {:induction false} PLimbsBelowTop(n: nat)
    requires 1 <= n <= 15
    ensures Val(PLimbs(n)) == Weight(n) - 19
  {
    ValAppend(PLimbs(n - 1), PLimb(n - 1));
    if n > 1 {
      PLimbsBelowTop(n - 1);
    } else {
      assert Weight(1) == 65536 * Weight(0);
    }
  }

  lemma PLimbsVal()
    ensures Val(PLimbs(16)) == P
  {
    PLimbsBelowTop(15);
    ValAppend(PLimbs(15), PLimb(15));
    Weight16();
  }

  /** Limbs below i of m hold t - P, with a borrow still pending in the top one. */
  ghost predicate Borrowing(m: seq<i64>, t: seq<i64>, i: nat) {
    && |m| == |t| == 16 && 1 <= i <= 16 && Digits(t)
    && (forall k :: 0 <= k < i - 1 ==> 0 <= m[k] as int < 65536)
    && -65536 <= m[i - 1] as int < 65536
    && (i == 16 ==> -32768 <= m[15] as int)
    && Val(m[..i]) == Val(t[..i]) - Val(PLimbs(i))
  }

  lemma BorrowStep(m: seq<i64>, t: seq<i64>, i: nat, r: seq<i64>)
    requires i < 16 && Borrowing(m, t, i) && |r| == 16
    requires forall k :: 0 <= k < i - 1 ==> r[k] == m[k]
    requires r[i - 1] as int == m[i - 1] as int % 65536
    requires r[i] as int == t[i] as int - PLimb(i) as int - (m[i - 1] as int / 65536) % 2
    ensures Borrowing(r, t, i + 1)
  {
    hide Val;
    var w := Weight(i - 1);
    assert r[..i - 1] == m[..i - 1];
    ValPrefix(m, i - 1);
    ValPrefix(r, i - 1);
    ValPrefix(r, i);
    ValPrefix(t, i);
    ValAppend(PLimbs(i), PLimb(i));
    var b := (m[i - 1] as int / 65536) % 2;
    BorrowAlgebra(m[i - 1] as int, b, t[i] as int, PLimb(i) as int, w);
  }

  lemma BorrowAlgebra(x: int, b: int, t: int, p: int, w: int)
    requires -65536 <= x < 65536 && b == (x / 65536) % 2
    ensures (x % 65536) * w + (t - p - b) * (65536 * w) == x * w + t * (65536 * w) - p * (65536 * w)
  {
    assert x % 65536 == x + b * 65536;
    assert (x + b * 65536) * w == x * w + b * (65536 * w);
    assert (t - p - b) * (65536 * w) == t * (65536 * w) - p * (65536 * w) - b * (65536 * w);
  }

  /** The final borrow says whether t was below P. */
  lemma BorrowSign(m: seq<i64>, t: seq<i64>)
    requires Borrowing(m, t, 16)
    ensures Val(m) == Val(t) - P
    ensures m[15] < 0 <==> Val(t) < P
    ensures m[15] as int / 65536 == if m[15] < 0 then -1 else 0
  {
    hide Val, Weight;
    PLimbsVal();
    assert m[..16] == m && t[..16] == t;
    ValPrefix(m, 15);
    var low := m[..15];
    assert Digits(low);
    ValDigits(low);
    SignedTop(Val(m[..15]), m[15] as int, Weight(15));
  }

  lemma SignedTop(low: int, top: int, w: int)
    requires 0 <= low < w
    ensures low + top * w < 0 <==> top < 0
  {
    if top < 0 {
      assert (-top - 1) * w >= 0;
      assert (-top - 1) * w == -(top * w) - w;
    } else {
      assert top * w >= 0;
    }
  }

  /** Computes limb i of t - P and settles limb i - 1. */
  method BorrowLimb(t: array<i64>, m: array<i64>, i: nat, p: i64)
    requires t.Length == m.Length == 16 && t != m
    requires i < 16 && Borrowing(m[..], t[..], i) && p == PLimb(i)
    modifies m
    ensures Borrowing(m[..], t[..], i + 1)
  {
    ghost var before := m[..];
    Mask16(m[i - 1]);
    Mask16(m[i - 1] / 65536);
    m[i] := t[i] - p - And64(m[i - 1] / 65536, 1);
    m[i - 1] := And64(m[i - 1], 0xffff);
    BorrowStep(before, t[..], i, m[..]);
  }

  ghost function TrialValue(v: int): int {
    if v >= P then v - P else v
  }

  /** All limbs of t - P; the result is 1 when t was below P. */
  method SubtractP(t: array<i64>, m: array<i64>) returns (b: i64)
    requires t.Length == m.Length == 16 && t != m
    requires Digits(t[..])
    modifies m
    ensures b == 0 || b == 1
    ensures b == 1 <==> Val(t[..]) < P
    ensures b == 0 ==> Digits(m[..]) && Val(m[..]) == Val(t[..]) - P
  {
    hide Val, PLimbs, And, Weight;
    m[0] := t[0] - 0xffed;
    BorrowStart(m[..], t[..]);
    for i := 1 to 15
      invariant Borrowing(m[..], t[..], i)
    {
      BorrowLimb(t, m, i, 0xffff);
    }
    BorrowLimb(t, m, 15, 0x7fff);
    b := And64(m[15] / 65536, 1);
    Mask16(m[15] / 65536);
    BorrowSign(m[..], t[..]);
  }

  /** One trial subtraction: t - P replaces t when it is not negative. m is scratch space. */
  method TrySubtractP(t: array<i64>, m: array<i64>)
    requires t.Length == m.Length == 16 && t != m
    requires Digits(t[..])
    modifies t, m
    ensures Digits(t[..])
    ensures Val(t[..]) == TrialValue(Val(old(t[..])))
  {
    ghost var t0 := t[..];
    var b := SubtractP(t, m);
    assert t[..] == t0;
    Sel25519(t, m, 1 - b);
  }

  lemma BorrowStart(m: seq<i64>, t: seq<i64>)
    requires |m| == |t| == 16 && Digits(t)
    requires m[0] as int == t[0] as int - 0xffed
    ensures Borrowing(m, t, 1)
  {
    ValPrefix(m, 0);
    ValPrefix(t, 0);
    ValAppend(PLimbs(0), PLimb(0));
    assert m[..0] == [] && t[..0] == [] && PLimbs(0) == [];
  }

  /** Three passes bring any limbs of this size to the digits of a value below 2^256. */
  lemma CarryThrice(v: int, v1: int, v2: int, v3: int, s: seq<i64>)
    requires -0x4000_0000_0000_0000 * R <= 65535 * v <= 0x4000_0000_0000_0000 * R
    requires v1 == v % R + 38 * (v / R) && v2 == v1 % R + 38 * (v1 / R) && v3 == v2 % R + 38 * (v2 / R)
    requires |s| == 16 && Digits(s[1..]) && 0 <= s[0] as int - 38 * (v2 / R) < 65536
    ensures Digits(s)
    ensures v3 % P == v % P
  {
    assert v == R * (v / R) + v % R;
    assert v1 == R * (v1 / R) + v1 % R;
    assert v2 == R * (v2 / R) + v2 % R;
    assert -1 <= v1 / R <= 1;
    assert v2 / R == 0;
    FoldTop(v % R, v / R);
    FoldTop(v1 % R, v1 / R);
    forall k | 0 <= k < 16 ensures 0 <= s[k] as int < 65536 {
      if k > 0 {
        assert s[k] == s[1..][k - 1];
      }
    }
  }

  /** The three carry passes of packing. */
  method CarThrice(o: array<i64>)
    requires o.Length == 16
    requires Bounded(o[..], 0x4000_0000_0000_0000)
    modifies o
    ensures Fe(o[..]) == Fe(old(o[..]))
    ensures Digits(o[..])
  {
    ValBounded(o[..], 0x4000_0000_0000_0000);
    Weight16();
    ghost var v := Val(o[..]);
    Car25519(o);
    ghost var v1 := Val(o[..]);
    Car25519(o);
    ghost var v2 := Val(o[..]);
    CarryTwice(v, v1, v2, o[..]);
    ReducedSmall(o[..]);
    Car25519(o);
    CarryThrice(v, v1, v2, Val(o[..]), o[..]);
  }

  /** Two bytes a limb, low byte first. */
  ghost predicate PairsOf(o: seq<u8>, t: seq<i64>) {
    |o| == 2 * |t| && forall k :: 0 <= k < |t| ==> t[k] as int == o[2 * k] as int + 256 * o[2 * k + 1] as int
  }

  lemma {:induction false} PairsValue(o: seq<u8>, t: seq<i64>)
    requires PairsOf(o, t)
    ensures LeVal(o) == Val(t)
  {
    if t != [] {
      var o', t' := o[2..], t[1..];
      assert o[1..][1..] == o';
      forall k | 0 <= k < |t'| ensures t'[k] as int == o'[2 * k] as int + 256 * o'[2 * k + 1] as int {
        assert t'[k] == t[k + 1];
      }
      PairsValue(o', t');
    }
  }

  /** What is below 2^256 needs at most two subtractions. */
  lemma TwoTrials(w: int)
    requires 0 <= w < R
    ensures TrialValue(TrialValue(w)) == w % P
  {
  }

  /** The limbs of the unique representative below P. */
  method Freeze(n: array<i64>) returns (t: array<i64>)
    requires n.Length == 16
    requires Bounded(n[..], 0x4000_0000_0000_0000)
    ensures fresh(t) && t.Length == 16
    ensures Digits(t[..]) && Val(t[..]) == Fe(n[..])
  {
    hide Val, Weight, TrialValue;
    var m := new i64[16];
    t := new i64[16];
    CopyLimbs(t, n);
    CarThrice(t);
    ValDigits(t[..]);
    Weight16();
    ghost var w := Val(t[..]);
    TwoTrials(w);
    for j := 0 to 2
      invariant Digits(t[..])
      invariant j == 0 ==> Val(t[..]) == w
      invariant j == 1 ==> Val(t[..]) == TrialValue(w)
      invariant j == 2 ==> Val(t[..]) == TrialValue(TrialValue(w))
      modifies t, m
    {
      TrySubtractP(t, m);
    }
  }

  method StoreLimbs(o: array<u8>, t: array<i64>)
    requires o.Length == 32 && t.Length == 16
    requires Digits(t[..])
    modifies o
    ensures LeVal(o[..]) == Val(t[..])
  {
    for i := 0 to 16
      invariant PairsOf(o[..2 * i], t[..i])
    {
      ghost var before := o[..2 * i];
      Mask16(t[i]);
      var low, high := And64(t[i], 0xff) as u8, (t[i] / 256) as u8;
      o[2 * i] := low;
      o[2 * i + 1] := high;
      assert o[..2 * (i + 1)] == before + [low, high];
      assert t[..i + 1] == t[..i] + [t[i]];
    }
    assert o[..32] == o[..] && t[..16] == t[..];
    PairsValue(o[..], t[..]);
  }

  /** The canonical encoding: the value modulo P, below P, in 32 little-endian bytes. */
  method Pack25519(o: array<u8>, n: array<i64>)
    requires o.Length == 32 && n.Length == 16
    requires Bounded(n[..], 0x4000_0000_0000_0000)
    modifies o
    ensures o[..] == LeBytes(Fe(n[..]), 32)
    ensures LeVal(o[..]) == Fe(n[..])
  {
    var t := Freeze(n);
    StoreLimbs(o, t);
    LeBytesOfVal(o[..]);
  }

  /** The top bit of the encoding is dropped. */
  method Unpack25519(o: array<i64>, n: seq<u8>)
    requires o.Length == 16 && |n| == 32
    modifies o
    ensures Val(o[..]) == LeVal(n[31 := n[31] % 128])
    ensures Digits(o[..])
  {
    for i := 0 to 16
      invariant forall k :: 0 <= k < i ==> o[k] as int == n[2 * k] as int + 256 * n[2 * k + 1] as int
    {
      o[i] := n[2 * i] as i64 + n[2 * i + 1] as i64 * 256;
    }
    ghost var raw := o[..];
    Mask15(o[15]);
    o[15] := And64(o[15], 0x7fff);
    DropTopBit(n, raw, o[..]);
  }

  lemma DropTopBit(n: seq<u8>, raw: seq<i64>, s: seq<i64>)
    requires PairsOf(n, raw) && |raw| == |s| == 16
    requires s[..15] == raw[..15] && s[15] as int == raw[15] as int % 32768
    ensures Val(s) == LeVal(n[31 := n[31] % 128])
    ensures Digits(s)
  {
    var n' := n[31 := n[31] % 128];
    forall k | 0 <= k < 16 ensures s[k] as int == n'[2 * k] as int + 256 * n'[2 * k + 1] as int {
      if k < 15 {
        assert s[k] == s[..15][k] == raw[..15][k];
      }
    }
    PairsValue(n', s);
  }

  lemma Mask15(x: i64)
    ensures And64(x, 0x7fff) as int == x as int % 32768
  {
    Pow2Values();
    assert Pow2(16) == 2 * Pow2(15);
    AndLowBits(x as int, 15, 63);
  }
}

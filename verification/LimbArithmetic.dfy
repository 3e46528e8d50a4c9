/** Sequences of base-65536 limbs, read as integers, and arithmetic modulo 2^255 - 19.
    A limb may be any signed 64-bit value: only canonical sequences have limbs below 65536. */
module LimbArithmetic {

  newtype i64 = x: int | -0x8000_0000_0000_0000 <= x < 0x8000_0000_0000_0000

  /** The field prime, 2^255 - 19. */
  const P: int := 0x7fffffffffffffffffffffffffffffffffffffffffffffffffffffffffffffed
  /** 2^256, the weight just above sixteen limbs. */
  const R: int := 0x1_0000000000000000000000000000000000000000000000000000000000000000

  // ----- weights -----

  function Weight(n: nat): (w: int)
    ensures w >= 1
  {
    if n == 0 then 1 else 65536 * Weight(n - 1)
  }

  lemma {:induction false} WeightAdd(m: nat, n: nat)
    ensures Weight(m + n) == Weight(m) * Weight(n)
  {
    if m > 0 {
      WeightAdd(m - 1, n);
      assert Weight(m + n) == 65536 * Weight(m - 1 + n);
      assert 65536 * (Weight(m - 1) * Weight(n)) == (65536 * Weight(m - 1)) * Weight(n);
    }
  }

  lemma Weight16()
    ensures Weight(15) * 65536 == R
    ensures Weight(16) == R
    ensures Weight(15) == 0x1_000000000000000000000000000000000000000000000000000000000000
  {
    assert Weight(2) == 0x1_0000_0000;
    assert Weight(4) == 0x1_0000_0000_0000_0000 by { WeightAdd(2, 2); }
    assert Weight(8) == 0x1_00000000000000000000000000000000 by { WeightAdd(4, 4); }
    WeightAdd(8, 8);
    assert Weight(16) == R;
    assert Weight(16) == 65536 * Weight(15);
  }

  // ----- the integer a limb sequence stands for -----

  function Val(s: seq<i64>): int {
    if s == [] then 0 else s[0] as int + 65536 * Val(s[1..])
  }

  lemma {:induction false} ValConcat(s: seq<i64>, u: seq<i64>)
    ensures Val(s + u) == Val(s) + Weight(|s|) * Val(u)
  {
    if s == [] {
      assert s + u == u;
    } else {
      assert (s + u)[1..] == s[1..] + u;
      ValConcat(s[1..], u);
      var w, v := Weight(|s| - 1), Val(u);
      assert (65536 * w) * v == 65536 * (w * v);
    }
  }

  lemma {:induction false} ValAppend(s: seq<i64>, x: i64)
    ensures Val(s + [x]) == Val(s) + x as int * Weight(|s|)
  {
    if s == [] {
      assert s + [x] == [x] && [x][1..] == [];
    } else {
      assert (s + [x])[1..] == s[1..] + [x];
      ValAppend(s[1..], x);
      var w, y := Weight(|s| - 1), x as int;
      assert y * (65536 * w) == 65536 * (y * w);
    }
  }

  lemma ValPrefix(s: seq<i64>, n: nat)
    requires n < |s|
    ensures Val(s[..n + 1]) == Val(s[..n]) + s[n] as int * Weight(n)
  {
    assert s[..n + 1] == s[..n] + [s[n]];
    ValAppend(s[..n], s[n]);
  }

  /** Changing one limb changes the integer by the difference times the limb's weight. */
  lemma {:induction false} ValUpdate(s: seq<i64>, i: nat, x: i64)
    requires i < |s|
    ensures Val(s[i := x]) == Val(s) + (x as int - s[i] as int) * Weight(i)
  {
    if i == 0 {
      assert s[i := x][1..] == s[1..];
    } else {
      assert s[i := x][1..] == s[1..][i - 1 := x];
      ValUpdate(s[1..], i - 1, x);
      var d, w := x as int - s[i] as int, Weight(i - 1);
      assert d * (65536 * w) == 65536 * (d * w);
    }
  }

  lemma {:induction false} ValAdd(a: seq<i64>, b: seq<i64>, o: seq<i64>)
    requires |o| == |a| == |b|
    requires forall k :: 0 <= k < |o| ==> o[k] as int == a[k] as int + b[k] as int
    ensures Val(o) == Val(a) + Val(b)
  {
    if o != [] {
      ValAdd(a[1..], b[1..], o[1..]);
    }
  }

  ghost predicate Bounded(s: seq<i64>, m: int) {
    forall k :: 0 <= k < |s| ==> -m <= s[k] as int <= m
  }

  ghost predicate Digits(s: seq<i64>) {
    forall k :: 0 <= k < |s| ==> 0 <= s[k] as int < 65536
  }

  lemma {:induction false} ValBounded(s: seq<i64>, m: nat)
    requires Bounded(s, m)
    ensures m - m * Weight(|s|) <= 65535 * Val(s) <= m * Weight(|s|) - m
  {
    if s != [] {
      ValBounded(s[1..], m);
      var w := Weight(|s| - 1);
      assert m * (65536 * w) == 65536 * (m * w);
    } else {
      assert m * Weight(|s|) == m;
    }
  }

  lemma {:induction false} ValDigits(s: seq<i64>)
    requires Digits(s)
    ensures 0 <= Val(s) < Weight(|s|)
  {
    if s != [] {
      ValDigits(s[1..]);
    }
  }

  // ----- congruence modulo P -----

  lemma ModShift(a: int, b: int, k: int)
    requires a == b + k * P
    ensures a % P == b % P
  {
    var qa, qb := a / P, b / P;
    assert a == P * qa + a % P && b == P * qb + b % P;
    assert a % P - b % P == P * (k + qb - qa);
  }

  lemma ModSplit(a: int) returns (k: int)
    ensures a == a % P + k * P
  {
    k := a / P;
  }

  lemma ModAdd(a: int, b: int)
    ensures (a + b) % P == (a % P + b % P) % P
  {
    var j := ModSplit(a);
    var k := ModSplit(b);
    assert a + b == a % P + b % P + (j + k) * P;
    ModShift(a + b, a % P + b % P, j + k);
  }

  lemma ModSub(a: int, b: int)
    ensures (a - b) % P == (a % P - b % P) % P
  {
    var j := ModSplit(a);
    var k := ModSplit(b);
    assert a - b == a % P - b % P + (j - k) * P;
    ModShift(a - b, a % P - b % P, j - k);
  }

  lemma ModMul(a: int, b: int)
    ensures (a * b) % P == ((a % P) * (b % P)) % P
  {
    var j := ModSplit(a);
    var k := ModSplit(b);
    var x, y := a % P, b % P;
    assert a * b == x * y + (x * k + j * y + j * (k * P)) * P by {
      assert (x + j * P) * (y + k * P) == x * y + x * (k * P) + (j * P) * y + (j * P) * (k * P);
      assert x * (k * P) == (x * k) * P;
      assert (j * P) * y == (j * y) * P;
      assert (j * P) * (k * P) == (j * (k * P)) * P;
    }
    ModShift(a * b, x * y, x * k + j * y + j * (k * P));
  }

  lemma FoldTop(lo: int, hi: int)
    ensures (lo + R * hi) % P == (lo + 38 * hi) % P
  {
    assert R == 2 * P + 38;
    assert lo + R * hi == (lo + 38 * hi) + (2 * hi) * P;
    ModShift(lo + R * hi, lo + 38 * hi, 2 * hi);
  }
}

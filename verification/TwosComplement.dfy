/** Bitwise operators on signed machine words, read as integers in two's complement.
    The last argument counts the bits below the sign bit: 63 for a 64-bit word. */
module TwosComplement {

  function Pow2(n: nat): (p: int)
    ensures p >= 1
  {
    if n == 0 then 1 else 2 * Pow2(n - 1)
  }

  ghost predicate Fits(x: int, n: nat) {
    -Pow2(n) <= x < Pow2(n)
  }

  function Not(x: int): int {
    -x - 1
  }

  function And(x: int, y: int, n: nat): int
    decreases n
  {
    if n == 0 then (if x < 0 && y < 0 then -1 else 0)
    else (if x % 2 == 1 && y % 2 == 1 then 1 else 0) + 2 * And(x / 2, y / 2, n - 1)
  }

  function Or(x: int, y: int, n: nat): int {
    Not(And(Not(x), Not(y), n))
  }

  function Xor(x: int, y: int, n: nat): int
    decreases n
  {
    if n == 0 then (if (x < 0) != (y < 0) then -1 else 0)
    else (if x % 2 != y % 2 then 1 else 0) + 2 * Xor(x / 2, y / 2, n - 1)
  }

  /** A mask of all ones keeps a word and a mask of zero clears it. */
  lemma {:induction false} AndMask(x: int, n: nat)
    requires Fits(x, n)
    ensures And(-1, x, n) == x
    ensures And(0, x, n) == 0
    decreases n
  {
    if n > 0 {
      AndMask(x / 2, n - 1);
    }
  }

  lemma {:induction false} AndFits(x: int, y: int, n: nat)
    ensures Fits(And(x, y, n), n)
    decreases n
  {
    if n > 0 {
      AndFits(x / 2, y / 2, n - 1);
    }
  }

  lemma {:induction false} AndOnes(x: int, y: int, n: nat)
    requires Fits(x, n) && Fits(y, n)
    ensures And(x, y, n) == -1 <==> x == -1 && y == -1
    ensures And(x, y, n) < 0 <==> x < 0 && y < 0
    decreases n
  {
    if n > 0 {
      AndOnes(x / 2, y / 2, n - 1);
    }
  }

  lemma {:induction false} XorFits(x: int, y: int, n: nat)
    ensures Fits(Xor(x, y, n), n)
    decreases n
  {
    if n > 0 {
      XorFits(x / 2, y / 2, n - 1);
    }
  }

  lemma XorHalves(x: int, y: int, n: nat)
    requires n > 0
    ensures Xor(x, y, n) / 2 == Xor(x / 2, y / 2, n - 1)
    ensures Xor(x, y, n) % 2 == if x % 2 != y % 2 then 1 else 0
  {
  }

  lemma {:induction false} XorCancels(x: int, y: int, n: nat)
    requires Fits(x, n) && Fits(y, n)
    ensures Xor(x, Xor(x, y, n), n) == y
    decreases n
  {
    if n > 0 {
      XorHalves(x, y, n);
      XorCancels(x / 2, y / 2, n - 1);
    }
  }

  lemma {:induction false} XorZero(x: int, n: nat)
    requires Fits(x, n)
    ensures Xor(x, 0, n) == x
    decreases n
  {
    if n > 0 {
      XorZero(x / 2, n - 1);
    }
  }

  lemma {:induction false} XorCommutes(x: int, y: int, n: nat)
    ensures Xor(x, y, n) == Xor(y, x, n)
    decreases n
  {
    if n > 0 {
      XorCommutes(x / 2, y / 2, n - 1);
    }
  }

  /** A mask of k ones takes the remainder modulo 2^k, for negative words too. */
  lemma {:induction false} AndLowBits(x: int, k: nat, n: nat)
    requires k <= n && Fits(x, n)
    ensures And(x, Pow2(k) - 1, n) == x % Pow2(k)
    decreases n
  {
    if n > 0 {
      if k == 0 {
        AndLowBits(x / 2, 0, n - 1);
      } else {
        AndLowBits(x / 2, k - 1, n - 1);
        assert (Pow2(k) - 1) / 2 == Pow2(k - 1) - 1;
        ModDouble(x, Pow2(k - 1));
      }
    }
  }

  lemma ModDouble(x: int, m: int)
    requires m >= 1
    ensures x % (2 * m) == x % 2 + 2 * ((x / 2) % m)
  {
    var h := x / 2;
    var q, r := h / m, h % m;
    assert h == m * q + r;
    assert x == x % 2 + 2 * h;
    assert x == (2 * m) * q + (x % 2 + 2 * r);
    DivModUnique(x, 2 * m, q, x % 2 + 2 * r);
  }

  lemma DivModUnique(x: int, m: int, q: int, r: int)
    requires m >= 1 && 0 <= r < m && x == m * q + r
    ensures x / m == q && x % m == r
  {
    var d := q - x / m;
    assert x == m * (x / m) + x % m;
    assert m * d == m * q - m * (x / m);
    assert -m < m * d < m;
    SmallMultiple(m, d);
  }

  lemma SmallMultiple(m: int, d: int)
    requires m >= 1 && -m < m * d < m
    ensures d == 0
  {
    if d > 0 {
      MultipleAtLeast(m, d);
    } else if d < 0 {
      MultipleAtLeast(m, -d);
    }
  }

  lemma {:induction false} MultipleAtLeast(m: int, d: int)
    requires m >= 1 && d >= 1
    ensures m * d >= m
    decreases d
  {
    if d > 1 {
      MultipleAtLeast(m, d - 1);
      assert m * d == m * (d - 1) + m;
    }
  }

  lemma {:induction false} Pow2Add(m: nat, n: nat)
    ensures Pow2(m + n) == Pow2(m) * Pow2(n)
  {
    if m > 0 {
      Pow2Add(m - 1, n);
      assert (2 * Pow2(m - 1)) * Pow2(n) == 2 * (Pow2(m - 1) * Pow2(n));
    }
  }

  lemma Pow2Values()
    ensures Pow2(8) == 256 && Pow2(16) == 0x1_0000 && Pow2(32) == 0x1_0000_0000
    ensures Pow2(63) == 0x8000_0000_0000_0000 && Pow2(64) == 0x1_0000_0000_0000_0000
  {
    assert Pow2(4) == 16;
    Pow2Add(4, 4);
    Pow2Add(8, 8);
    Pow2Add(16, 16);
    Pow2Add(32, 32);
    assert Pow2(64) == 2 * Pow2(63);
  }
}

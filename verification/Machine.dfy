/**
 Machine words and the arithmetic that the models share.
 */
module Machine {

  /** One past the largest 64-bit value. */
  const TWO_TO_64: nat := 0x1_0000_0000_0000_0000

  type size_t = n: nat | n < TWO_TO_64

  /** A 64-bit value read as a signed one. */
  function AsInt64(n: size_t): int { if n < 0x8000_0000_0000_0000 then n else n - TWO_TO_64 }

  /** 2 to the power k. */
  function Pow2(k: nat): (r: nat)
    ensures r > 0
  {
    if k == 0 then 1 else 2 * Pow2(k - 1)
  }

  lemma {:induction false} Pow2Sum(a: nat, b: nat)
    ensures Pow2(a + b) == Pow2(a) * Pow2(b)
  {
    if a > 0 {
      Pow2Sum(a - 1, b);
      assert Pow2(a + b) == 2 * (Pow2(a - 1) * Pow2(b));
    }
  }

  lemma Pow2Of64()
    ensures Pow2(64) == TWO_TO_64
  {
    var a, b, d := Pow2(8), Pow2(16), Pow2(32);
    assert a == 256;
    assert b == a * a by { Pow2Sum(8, 8); }
    assert d == b * b by { Pow2Sum(16, 16); }
    assert Pow2(64) == d * d by { Pow2Sum(32, 32); }
  }

  lemma LeMul(a: int, b: int, m: nat)
    requires a <= b
    ensures a * m <= b * m
  {
  }

  /** A multiple strictly between -m and m is zero. */
  lemma ZeroMultiple(d: int, m: nat)
    requires -(m as int) < d * m < m
    ensures d == 0
  {
    if d >= 1 { LeMul(1, d, m); }
    if d <= -1 { LeMul(d, -1, m); }
  }

  /** A quotient and a remainder in range determine both. */
  lemma DivModUnique(x: int, m: nat, q: int, r: int)
    requires 0 <= r < m
    requires x == q * m + r
    ensures x / m == q && x % m == r
  {
    var q' := x / m;
    assert (q' - q) * m == q' * m - q * m;
    ZeroMultiple(q' - q, m);
  }

  lemma Commute(x: int, y: int)
    ensures x * y == y * x
  {
  }
}

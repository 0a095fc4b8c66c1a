/**
 Capacities of the table: rounding a wanted size up to a ring size, and how many
 elements a capacity may hold before the table must grow.
 */
module Capacity {
  import opened Machine
  import opened ControlBytes

  /** The division of signed integers in C++ truncates toward zero. */
  function TruncDiv(a: int, b: nat): int
    requires b > 0
  {
    if a >= 0 then a / b else -((-a) / b)
  }

  /** Unsigned subtraction of size_t values wraps around below zero. */
  function SubWrap(a: nat, b: nat): int {
    if b <= a then a - b else a - b + TWO_TO_64
  }

  function CapacityToGrowth(cap: nat, w: nat): nat {
    if w == 8 && cap == 7 then 6 else cap - cap / 8
  }

  /** The cast of `growth` to a signed value makes the addend negative from 2^63 on. */
  function GrowthToLowerboundCapacity(growth: size_t, w: nat): size_t {
    if w == 8 && growth == 7 then 8 else growth + TruncDiv(AsInt64(growth) - 1, 7)
  }

  /** What the expression is meant to be: eight sevenths of the growth. */
  function Lowerbound(growth: nat, w: nat): nat {
    if w == 8 && growth == 7 then 8 else growth + TruncDiv(growth - 1, 7)
  }

  /** A large table may never be filled up. */
  lemma GrowthLeavesEmpty(cap: nat, w: nat)
    requires IsWidth(w) && !IsSmall(cap, w)
    ensures CapacityToGrowth(cap, w) < cap
  {
  }

  lemma SmallGrowth(cap: nat, w: nat)
    requires IsWidth(w) && IsSmall(cap, w) && IsRing(cap)
    ensures CapacityToGrowth(cap, w) == cap
  {
    var q := SmallRing(cap, w);
    LeMul(1, q, 2 * (cap + 1));
  }

  lemma {:induction false} Pow2Shape(k: nat)
    ensures Pow2(k) == 1 || Pow2(k) == 2 || Pow2(k) == 4 || Pow2(k) % 8 == 0
  {
    if k > 0 { Pow2Shape(k - 1); }
  }

  lemma RingShape(cap: nat)
    requires IsRing(cap)
    ensures cap == 0 || cap == 1 || cap == 3 || cap % 8 == 7
  {
    var k: nat :| cap + 1 == Pow2(k);
    Pow2Shape(k);
  }

  /** Seven eighths of the capacity, rounded up, but 6 of 7 for groups of eight. */
  lemma LoadFactor(cap: nat, w: nat)
    requires IsWidth(w)
    ensures 7 * cap - 1 <= 8 * CapacityToGrowth(cap, w) < 7 * cap + 8
    ensures CapacityToGrowth(cap, w) * 8 < 7 * cap <==> w == 8 && cap == 7
  {
  }

  /** The capacity after `rehash_and_grow_if_necessary`. */
  function GrownCapacity(cap: nat, size: nat, w: nat): nat {
    if cap == 0 then 1 else if size <= CapacityToGrowth(cap, w) / 2 then cap else 2 * cap + 1
  }

  /** A table grows only for its live elements, so to less than five slots for each. */
  lemma GrowthIsBounded(cap: nat, size: nat, w: nat)
    requires IsWidth(w)
    ensures GrownCapacity(cap, size, w) == cap || GrownCapacity(cap, size, w) <= 5 * size + (if cap == 0 then 1 else 0)
  {
    LoadFactor(cap, w);
  }

  /** A capacity allows n elements exactly when it is at least the lower bound. */
  lemma GrowthIffLowerbound(n: nat, cap: nat, w: nat)
    requires IsWidth(w) && IsValidCapacity(cap)
    ensures CapacityToGrowth(cap, w) >= n <==> cap >= Lowerbound(n, w)
  {
    RingShape(cap);
    if cap % 8 == 7 {
      var m := (cap + 1) / 8;
      assert cap == 8 * m - 1;
    }
  }

  /** m is the least valid capacity that is at least n. */
  ghost predicate IsNormalized(n: nat, m: nat) {
    && IsValidCapacity(m) && n <= m
    && forall c: nat :: IsValidCapacity(c) && n <= c ==> m <= c
  }

  /** The numbers of elements for which `reserve` asks for enough. */
  predicate ReserveSuffices(n: size_t) {
    n < 0x8000_0000_0000_0000 || 0x9000_0000_0000_0000 <= n <= 0xE000_0000_0000_0000
  }

  /** `reserve` for n elements asks for a capacity that may hold n exactly if n is one of
      those numbers, and then for the least one. */
  lemma ReserveIsLeast(n: size_t, m: nat, w: nat)
    requires IsWidth(w) && IsNormalized(GrowthToLowerboundCapacity(n, w), m)
    ensures CapacityToGrowth(m, w) >= n <==> ReserveSuffices(n)
    ensures ReserveSuffices(n) ==> forall c: nat :: IsValidCapacity(c) && CapacityToGrowth(c, w) >= n ==> m <= c
  {
    if n < 0x8000_0000_0000_0000 {
      forall c: nat | IsValidCapacity(c)
        ensures CapacityToGrowth(c, w) >= n <==> c >= GrowthToLowerboundCapacity(n, w)
      {
        GrowthIffLowerbound(n, c, w);
      }
    } else {
      HugeReserve(n, m, w);
    }
  }

  /** From 2^63 on, only the largest capacity could do. */
  lemma HugeReserve(n: size_t, m: nat, w: nat)
    requires IsWidth(w) && n >= 0x8000_0000_0000_0000 && IsNormalized(GrowthToLowerboundCapacity(n, w), m)
    ensures CapacityToGrowth(m, w) >= n <==> ReserveSuffices(n)
    ensures ReserveSuffices(n) ==> forall c: nat :: IsValidCapacity(c) && CapacityToGrowth(c, w) >= n ==> m <= c
  {
    var half, all := 0x7FFF_FFFF_FFFF_FFFF, 0xFFFF_FFFF_FFFF_FFFF;
    Pow2Of64();
    assert all + 1 == Pow2(64) && half + 1 == Pow2(63);
    assert IsValidCapacity(all) && IsValidCapacity(half);
    forall c: nat | IsValidCapacity(c) && c > half
      ensures c >= all
    {
      var k: nat :| c + 1 == Pow2(k);
      if k < 64 { Pow2Monotone(k, 63); } else { Pow2Monotone(64, k); }
    }
    var g := GrowthToLowerboundCapacity(n, w);
    assert g > half <==> n >= 0x9000_0000_0000_0000;
    assert m == if g > half then all else m;
    assert g <= half ==> m <= half;
  }

  lemma GrowthMonotone(a: nat, b: nat, w: nat)
    requires IsWidth(w) && a <= b
    ensures CapacityToGrowth(a, w) <= CapacityToGrowth(b, w)
  {
  }

  /** Doubling the ring allows strictly more elements. */
  lemma DoubledCapacity(cap: nat, w: nat)
    requires IsWidth(w) && IsRing(cap)
    ensures IsValidCapacity(2 * cap + 1)
    ensures CapacityToGrowth(cap, w) < CapacityToGrowth(2 * cap + 1, w)
  {
    var k: nat :| cap + 1 == Pow2(k);
    assert 2 * cap + 1 + 1 == Pow2(k + 1);
  }

  lemma NormalizedUnique(n: nat, a: nat, b: nat)
    requires IsNormalized(n, a) && IsNormalized(n, b)
    ensures a == b
  {
  }

  /** Rounding up does not double more than once. */
  lemma NormalizedBelowTwice(n: nat, m: nat)
    requires IsNormalized(n, m) && n > 0
    ensures m <= 2 * n
  {
    var k: nat :| m + 1 == Pow2(k);
    assert Pow2(0) == 1;
    var half := Pow2(k - 1) - 1;
    assert half + 1 == Pow2(k - 1);
    if half >= n { assert IsValidCapacity(half); }
  }

  lemma {:induction false} NormalizedExists(n: nat) returns (m: nat)
    ensures IsNormalized(n, m)
  {
    assert Pow2(1) == 2;
    if n <= 1 {
      m := 1;
    } else {
      var half := NormalizedExists(n / 2);
      m := 2 * half + 1;
      var j: nat :| half + 1 == Pow2(j);
      assert m + 1 == Pow2(j + 1);
      forall c: nat | IsValidCapacity(c) && n <= c
        ensures m <= c
      {
        var k: nat :| c + 1 == Pow2(k);
        assert IsValidCapacity(Pow2(k - 1) - 1);
      }
    }
  }

  // ----- Rounding up to a power of two minus one

  /** n >> s. */
  function Shr(n: nat, s: nat): nat
    decreases s
  {
    if s == 0 then n else Shr(n / 2, s - 1)
  }

  lemma {:induction false} ShrSum(n: nat, a: nat, b: nat)
    ensures Shr(Shr(n, a), b) == Shr(n, a + b)
    decreases a
  {
    if a > 0 { ShrSum(n / 2, a - 1, b); }
  }

  /** A shifted number is below 2^t exactly when the number is below 2^(s+t). */
  lemma {:induction false} ShrBelow(n: nat, s: nat, t: nat)
    ensures Shr(n, s) < Pow2(t) <==> n < Pow2(s + t)
    decreases s
  {
    if s > 0 { ShrBelow(n / 2, s - 1, t); }
  }

  lemma {:induction false} ShrAllOnes(k: nat, s: nat)
    requires s <= k
    ensures Shr(Pow2(k) - 1, s) == Pow2(k - s) - 1
    decreases s
  {
    if s > 0 {
      assert (Pow2(k) - 1) / 2 == Pow2(k - 1) - 1;
      ShrAllOnes(k - 1, s - 1);
    }
  }

  /** One step of the leading-zero count: `if (n >> s) zeroes -= s, n >>= s`. */
  method ShiftStep(n0: nat, n: nat, zeroes: nat, s: nat) returns (n': nat, zeroes': nat)
    requires s <= zeroes <= 60
    requires n == Shr(n0, 60 - zeroes) && n < Pow2(2 * s)
    requires zeroes < 60 ==> n > 0
    ensures zeroes - s <= zeroes' <= zeroes
    ensures n' == Shr(n0, 60 - zeroes') && n' < Pow2(s)
    ensures zeroes' < 60 ==> n' > 0
  {
    n', zeroes' := n, zeroes;
    ShrBelow(n, s, 0);
    if Shr(n, s) != 0 {
      zeroes' := zeroes - s;
      n' := Shr(n, s);
      ShrSum(n0, 60 - zeroes, s);
      ShrBelow(n, s, s);
    }
  }

  const NIBBLE_ZEROES: seq<nat> := [4, 3, 2, 2, 1, 1, 1, 1, 0, 0, 0, 0, 0, 0, 0, 0]

  method CountLeadingZeros64Slow(n0: size_t) returns (z: nat)
    ensures z <= 64 && n0 < Pow2(64 - z)
    ensures z < 64 ==> Pow2(63 - z) <= n0
  {
    assert n0 < Pow2(2 * 32) by { Pow2Of64(); }
    var n, zeroes := TopNibble(n0);
    NibbleBounds(n0, n, 60 - zeroes);
    z := NIBBLE_ZEROES[n] + zeroes;
  }

  /** Shifts n0 down to its highest non-zero nibble. */
  method TopNibble(n0: nat) returns (n: nat, zeroes: nat)
    requires n0 < Pow2(2 * 32)
    ensures zeroes <= 60 && n == Shr(n0, 60 - zeroes) && n < Pow2(4)
    ensures zeroes < 60 ==> n > 0
  {
    n, zeroes := ShiftStep(n0, n0, 60, 32);
    n, zeroes := ShiftStep(n0, n, zeroes, 16);
    n, zeroes := ShiftStep(n0, n, zeroes, 8);
    n, zeroes := ShiftStep(n0, n, zeroes, 4);
  }

  /** The top nibble n of n0 fixes n0 between two powers of two. */
  lemma NibbleBounds(n0: nat, n: nat, d: nat)
    requires n == Shr(n0, d) && n < Pow2(4)
    ensures n < 16 && NIBBLE_ZEROES[n] <= 4 && n0 < Pow2(d + 4 - NIBBLE_ZEROES[n])
    ensures n > 0 ==> NIBBLE_ZEROES[n] <= 3 && Pow2(d + 3 - NIBBLE_ZEROES[n]) <= n0
    ensures n == 0 ==> NIBBLE_ZEROES[n] == 4
  {
    NibbleTable(n);
    ShrBelow(n0, d, 4 - NIBBLE_ZEROES[n]);
    if n > 0 { ShrBelow(n0, d, 3 - NIBBLE_ZEROES[n]); }
  }

  lemma NibbleTable(n: nat)
    requires n < Pow2(4)
    ensures n < 16
    ensures NIBBLE_ZEROES[n] <= 4 && n < Pow2(4 - NIBBLE_ZEROES[n])
    ensures n > 0 ==> NIBBLE_ZEROES[n] <= 3 && Pow2(3 - NIBBLE_ZEROES[n]) <= n
    ensures n == 0 ==> NIBBLE_ZEROES[n] == 4
  {
    assert Pow2(0) == 1 && Pow2(1) == 2 && Pow2(2) == 4 && Pow2(3) == 8 && Pow2(4) == 16;
  }

  method NormalizeCapacity(n: size_t) returns (m: size_t)
    ensures IsNormalized(n, m)
  {
    if n == 0 {
      m := 1;
      assert Pow2(1) == m + 1;
    } else {
      var z := CountLeadingZeros64Slow(n);
      assert Pow2(0) == 1;
      Pow2Of64();
      ShrAllOnes(64, z);
      Pow2Monotone(64 - z, 64);
      m := Shr(TWO_TO_64 - 1, z);
      RingIsNormalized(n, m, 64 - z);
    }
  }

  lemma RingIsNormalized(n: nat, m: nat, k: nat)
    requires k > 0 && m + 1 == Pow2(k) && Pow2(k - 1) <= n <= m
    ensures IsNormalized(n, m)
  {
    forall c: nat | IsValidCapacity(c) && n <= c
      ensures m <= c
    {
      var i: nat :| c + 1 == Pow2(i);
      if i < k { Pow2Monotone(i, k - 1); } else { Pow2Monotone(k, i); }
    }
  }
}

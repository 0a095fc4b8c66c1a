/**
 The quadratic probe sequence of the open-addressing table: the i-th probe
 window starts Width * (1 + 2 + ... + i) positions after the first one, modulo
 the ring of capacity + 1 control positions.
 */
module Probing {
  import opened Machine

  /** The j-th triangular number, 0 + 1 + ... + j. */
  function Tri(j: nat): nat {
    if j == 0 then 0 else Tri(j - 1) + j
  }

  lemma {:induction false} TriDouble(j: nat)
    ensures 2 * Tri(j) == j * (j + 1)
  {
    if j > 0 {
      TriDouble(j - 1);
    }
  }

  // ----- Divisibility by powers of two

  lemma OddTimesOdd(x: int, y: int)
    requires x % 2 == 1 && y % 2 == 1
    ensures (x * y) % 2 == 1
  {
    var a, b := x / 2, y / 2;
    assert x * y == 2 * (2 * a * b + a + b) + 1;
  }

  lemma {:induction false} OddFactorCancels(x: int, y: int, q: int, k: nat) returns (h: int)
    requires x % 2 == 1
    requires x * y == q * Pow2(k)
    ensures y == h * Pow2(k)
    decreases k
  {
    if k == 0 {
      h := y;
    } else {
      var m := Pow2(k - 1);
      assert x * y == 2 * (q * m);
      if y % 2 == 1 { OddTimesOdd(x, y); }
      var z := y / 2;
      HalveProduct(x, y, z, q * m);
      h := OddFactorCancels(x, z, q, k - 1);
      assert y == 2 * (h * m);
    }
  }

  lemma HalveProduct(x: int, y: int, z: int, p: int)
    requires y == 2 * z && x * y == 2 * p
    ensures x * z == p
  {
  }

  lemma SmallMultiple(y: int, h: int, m: nat)
    requires y == h * m && 0 < y
    ensures m <= y
  {
  }

  /** Two different triangular numbers below 2^k differ modulo 2^k. */
  lemma TriInjective(k: nat, a: nat, b: nat)
    requires a < b < Pow2(k)
    ensures Tri(a) % Pow2(k) != Tri(b) % Pow2(k)
  {
    if Tri(a) % Pow2(k) == Tri(b) % Pow2(k) {
      TriCongruent(k, a, b);
    }
  }

  lemma TriCongruent(k: nat, a: nat, b: nat)
    requires a < b
    requires Tri(a) % Pow2(k) == Tri(b) % Pow2(k)
    ensures Pow2(k) <= b
  {
    var q := TriDifference(a, b, Pow2(k));
    ProductBound(b - a, b + a + 1, q, k + 1);
  }

  lemma ProductBound(x: int, y: int, q: int, k: nat)
    requires 0 < x <= y && (x + y) % 2 == 1
    requires x * y == q * Pow2(k)
    ensures Pow2(k) <= y
  {
    if x % 2 == 1 {
      OddFactorBound(x, y, q, k);
    } else {
      Commute(x, y);
      OddFactorBound(y, x, q, k);
    }
  }

  lemma OddFactorBound(x: int, y: int, q: int, k: nat)
    requires x % 2 == 1 && 0 < y
    requires x * y == q * Pow2(k)
    ensures Pow2(k) <= y
  {
    var h := OddFactorCancels(x, y, q, k);
    SmallMultiple(y, h, Pow2(k));
  }

  lemma DoubleInside(q: int, n: int)
    ensures 2 * (q * n) == q * (2 * n)
  {
  }

  lemma TriDifference(a: nat, b: nat, n: nat) returns (q: int)
    requires n > 0
    requires Tri(a) % n == Tri(b) % n
    ensures (b - a) * (b + a + 1) == q * (2 * n)
  {
    var qa, qb := Tri(a) / n, Tri(b) / n;
    q := qb - qa;
    assert q * n == qb * n - qa * n;
    TriDouble(a);
    TriDouble(b);
    DifferenceOfProducts(a, b);
    DoubleInside(q, n);
  }

  lemma DifferenceOfProducts(a: int, b: int)
    ensures (b - a) * (b + a + 1) == b * (b + 1) - a * (a + 1)
  {
  }

  // ----- Pigeonhole: the residues cover the whole range

  /** The residues of the first j triangular numbers. */
  ghost function Residues(n: nat, j: nat): (s: set<nat>)
    requires n > 0
  {
    set i: nat | i < j :: Tri(i) % n
  }

  lemma {:induction false} ResiduesDistinct(k: nat, j: nat)
    requires j <= Pow2(k)
    ensures |Residues(Pow2(k), j)| == j
  {
    var n := Pow2(k);
    if j > 0 {
      ResiduesDistinct(k, j - 1);
      var last := Tri(j - 1) % n;
      forall i: nat | i < j - 1
        ensures Tri(i) % n != last
      {
        TriInjective(k, i, j - 1);
      }
      assert Residues(n, j) == Residues(n, j - 1) + {last};
    }
  }

  lemma {:induction false} Below(s: set<nat>, n: nat)
    requires forall x :: x in s ==> x < n
    ensures |s| <= n
  {
    if n > 0 {
      Below(s - {n - 1}, n - 1);
    } else {
      assert s == {};
    }
  }

  /** Every residue is the residue of some triangular number below 2^k. */
  lemma TriSurjective(k: nat, d: nat) returns (j: nat)
    requires d < Pow2(k)
    ensures j < Pow2(k) && Tri(j) % Pow2(k) == d
  {
    var n := Pow2(k);
    ResiduesDistinct(k, n);
    if d !in Residues(n, n) {
      var s := Residues(n, n) + {d};
      Below(s, n);
    }
    j :| j < n && Tri(j) % n == d;
  }

  // ----- Probe windows

  /** The state of a probe: `probe_seq` with its mask written as ring size - 1. */
  datatype ProbeSeq = ProbeSeq(ring: nat, offset: nat, index: nat) {
    /** Moves on to the next window; `width` is the width of a group. */
    function Next(width: nat): ProbeSeq
      requires ring > 0
    {
      ProbeSeq(ring, (offset + (index + width)) % ring, index + width)
    }

    /** The slot at distance i from the start of the current window. */
    function At(i: nat): nat
      requires ring > 0
    {
      (offset + i) % ring
    }
  }

  function Probe(h1: nat, ring: nat): ProbeSeq
    requires ring > 0
  {
    ProbeSeq(ring, h1 % ring, 0)
  }

  /** The probe after j steps. */
  function ProbeAt(h1: nat, ring: nat, width: nat, j: nat): (s: ProbeSeq)
    requires ring > 0
    ensures s.ring == ring && s.offset < ring
  {
    if j == 0 then Probe(h1, ring) else ProbeAt(h1, ring, width, j - 1).Next(width)
  }

  /** Where the j-th window starts, by the closed form. */
  function WindowStart(start: nat, width: nat, ring: nat, j: nat): (r: nat)
    requires ring > 0
  {
    (start + width * Tri(j)) % ring
  }

  /** Ring position p lies in the window of `width` positions starting at `off`. */
  predicate InWindow(off: nat, width: nat, ring: nat, p: nat) {
    off <= p < off + width || off <= p + ring < off + width
  }

  /** Stepping the probe follows the closed form: P(j) = P(j-1) + j * width. */
  lemma {:induction false} ProbeClosedForm(h1: nat, ring: nat, width: nat, j: nat)
    requires ring > 0
    ensures ProbeAt(h1, ring, width, j).index == j * width
    ensures ProbeAt(h1, ring, width, j).offset == WindowStart(h1 % ring, width, ring, j)
  {
    if j == 0 {
      Wrap(h1 % ring, ring);
    } else {
      ProbeClosedForm(h1, ring, width, j - 1);
      NextFollowsTriangular(ProbeAt(h1, ring, width, j - 1), h1 % ring, width, j - 1);
    }
  }

  lemma NextFollowsTriangular(s: ProbeSeq, start: nat, width: nat, j: nat)
    requires s.ring > 0
    requires s.index == j * width
    requires s.offset == WindowStart(start, width, s.ring, j)
    ensures s.Next(width).index == (j + 1) * width
    ensures s.Next(width).offset == WindowStart(start, width, s.ring, j + 1)
  {
    AddMultiples(j, 1, width);
    var step := s.index + width;
    assert step == (j + 1) * width;
    var a, a' := width * Tri(j), width * Tri(j + 1);
    assert a' == a + step by { Distribute(width, Tri(j), j + 1); }
    StepOffset(start + a, step, s.ring, s.offset);
    assert s.Next(width).offset == (start + a + step) % s.ring;
  }

  lemma StepOffset(a: int, b: int, ring: nat, off: int)
    requires ring > 0 && off == a % ring
    ensures (off + b) % ring == (a + b) % ring
  {
    ModAdd(a, b, ring);
  }

  lemma Distribute(w: int, x: int, y: int)
    ensures w * (x + y) == w * x + y * w
  {
  }

  lemma ModAdd(a: int, b: int, m: nat)
    requires m > 0
    ensures (a % m + b) % m == (a + b) % m
  {
    var c := a % m + b;
    assert a + b == (a / m) * m + c;
    AddMultiples(c / m, a / m, m);
    DivModUnique(a + b, m, c / m + a / m, c % m);
  }

  lemma AddMultiples(x: int, y: int, m: int)
    ensures (x + y) * m == x * m + y * m
  {
  }

  /** The residue of the window a position lies in, counted from the first window. */
  function ProbeIndex(start: nat, width: nat, ring: nat, p: nat): (r: nat)
    requires ring > 0 && width > 0
  {
    ((p - start) % ring) / width
  }

  /** Position p lies in window j exactly when the j-th triangular number has
      p's residue. */
  lemma InWindowIffResidue(start: nat, width: nat, n: nat, j: nat, p: nat)
    requires width > 0 && n > 0
    requires start < width * n && p < width * n
    ensures InWindow(WindowStart(start, width, width * n, j), width, width * n, p)
            <==> ProbeIndex(start, width, width * n, p) == Tri(j) % n
  {
    var ring := width * n;
    var q := Tri(j) % n;
    WindowStartResidue(start, width, n, j);
    ScaleBound(width, q, n);
    RingDistance(start, width * q, ring, p, WindowStart(start, width, ring, j), width);
    QuotientIff((p - start) % ring, width, q);
  }

  /** Only the residue of the triangular number matters for where a window starts. */
  lemma WindowStartResidue(start: nat, width: nat, n: nat, j: nat)
    requires width > 0 && n > 0
    ensures WindowStart(start, width, width * n, j) == (start + width * (Tri(j) % n)) % (width * n)
  {
    var q, t := Tri(j) % n, Tri(j) / n;
    Scale(width, n, t, q, Tri(j));
    RemoveMultiple(start + width * q, t, width * n);
  }

  lemma QuotientIff(r: nat, width: nat, q: nat)
    requires width > 0
    ensures r / width == q <==> width * q <= r < width * q + width
  {
    if width * q <= r < width * q + width {
      DivModUnique(r, width, q, r - width * q);
    }
  }

  lemma Scale(w: int, n: int, t: int, q: int, x: int)
    requires x == n * t + q
    ensures w * x == (w * n) * t + w * q
  {
    assert w * (n * t) == (w * n) * t;
  }

  lemma ScaleBound(w: nat, q: nat, n: nat)
    requires q < n
    ensures 0 <= w * q <= w * n - w
  {
    ScaleStep(w, q, n);
  }

  lemma ScaleStep(w: nat, a: nat, b: nat)
    requires a < b
    ensures w * b >= w * a + w
  {
    LeMul(a + 1, b, w);
    AddMultiples(a, 1, w);
  }

  lemma DivBound(r: nat, w: nat, n: nat)
    requires w > 0 && r < w * n
    ensures r / w < n
  {
    if r / w >= n { LeMul(n, r / w, w); }
  }

  lemma RemoveMultiple(a: int, t: int, m: nat)
    requires m > 0
    ensures (a + m * t) % m == a % m
  {
    AddMultiples(a / m, t, m);
    DivModUnique(a + m * t, m, a / m + t, a % m);
  }

  /** With `shift` a window offset from `start`, the window holds p exactly when
      the ring distance from `start` to p lies in [shift, shift + width). */
  lemma RingDistance(start: nat, shift: nat, ring: nat, p: nat, off: nat, width: nat)
    requires start < ring && p < ring && shift + width <= ring
    requires off == (start + shift) % ring
    ensures InWindow(off, width, ring, p)
            <==> shift <= (p - start) % ring < shift + width
  {
    Wrap(start + shift, ring);
    if p < start { Wrap(p - start + ring, ring); RemoveMultiple(p - start, 1, ring); } else { Wrap(p - start, ring); }
  }

  /** Reducing a number below twice the modulus takes one subtraction. */
  lemma Wrap(x: nat, m: nat)
    requires m > 0 && x < 2 * m
    ensures x % m == if x < m then x else x - m
  {
    if x < m { DivModUnique(x, m, 0, x); } else { DivModUnique(x, m, 1, x - m); }
  }

  /** The first n = 2^k windows partition a ring of width * 2^k positions: every
      position lies in exactly one of them. */
  lemma WindowsPartition(start: nat, width: nat, k: nat, p: nat) returns (j: nat)
    requires width > 0
    requires start < width * Pow2(k) && p < width * Pow2(k)
    ensures j < Pow2(k)
    ensures InWindow(WindowStart(start, width, width * Pow2(k), j), width, width * Pow2(k), p)
    ensures forall i: nat :: i < Pow2(k) && i != j ==>
              !InWindow(WindowStart(start, width, width * Pow2(k), i), width, width * Pow2(k), p)
  {
    var n := Pow2(k);
    var ring := width * n;
    DivBound((p - start) % ring, width, n);
    j := TriSurjective(k, ProbeIndex(start, width, ring, p));
    InWindowIffResidue(start, width, n, j, p);
    forall i: nat | i < n && i != j
      ensures !InWindow(WindowStart(start, width, ring, i), width, ring, p)
    {
      InWindowIffResidue(start, width, n, i, p);
      if i < j { TriInjective(k, i, j); } else { TriInjective(k, j, i); }
    }
  }

  /** Positions with the same probe index lie in the same windows. */
  lemma SameProbeIndexSameWindow(start: nat, width: nat, n: nat, j: nat, p: nat, q: nat)
    requires width > 0 && n > 0
    requires start < width * n && p < width * n && q < width * n
    requires ProbeIndex(start, width, width * n, p) == ProbeIndex(start, width, width * n, q)
    ensures InWindow(WindowStart(start, width, width * n, j), width, width * n, p)
            <==> InWindow(WindowStart(start, width, width * n, j), width, width * n, q)
  {
    InWindowIffResidue(start, width, n, j, p);
    InWindowIffResidue(start, width, n, j, q);
  }
}

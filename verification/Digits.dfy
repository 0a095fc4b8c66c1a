/**
 Numbers as sequences of digits, most significant digit first, in any base.
 */
module Digits {
  import opened Machine

  function Pow(b: nat, e: nat): nat {
    if e == 0 then 1 else b * Pow(b, e - 1)
  }

  predicate AreDigits(s: seq<nat>, b: nat) {
    forall i :: 0 <= i < |s| ==> s[i] < b
  }

  function Value(s: seq<nat>, b: nat): nat {
    if |s| == 0 then 0 else Value(s[..|s| - 1], b) * b + s[|s| - 1]
  }

  /** The last digit of v. */
  function Last(v: nat, b: nat): (r: nat)
    requires b > 0
    ensures r < b
  {
    v % b
  }

  /** What is left of v without its last digit. */
  function Rest(v: nat, b: nat): (q: nat)
    requires b > 0
  {
    v / b
  }

  lemma RestLast(v: nat, b: nat)
    requires b > 0
    ensures v == Rest(v, b) * b + Last(v, b)
  {
  }

  /** The n digits of v in base b. */
  function ToDigits(v: nat, b: nat, n: nat): (s: seq<nat>)
    requires b > 0
    ensures |s| == n
    ensures AreDigits(s, b)
    decreases n
  {
    if n == 0 then [] else ToDigits(Rest(v, b), b, n - 1) + [Last(v, b)]
  }

  lemma StepBound(v: nat, d: nat, q: nat, b: nat)
    requires v < q && d < b
    ensures v * b + d < b * q
  {
    LeMul(v + 1, q, b);
  }

  lemma {:induction false} ValueBound(s: seq<nat>, b: nat)
    requires AreDigits(s, b)
    ensures Value(s, b) < Pow(b, |s|)
  {
    if |s| > 0 {
      var front, q := s[..|s| - 1], Pow(b, |s| - 1);
      ValueBound(front, b);
      StepBound(Value(front, b), s[|s| - 1], q, b);
    }
  }

  lemma {:induction false} ValueOfDigits(v: nat, b: nat, n: nat)
    requires b > 0 && v < Pow(b, n)
    ensures Value(ToDigits(v, b, n), b) == v
    decreases n
  {
    if n > 0 {
      QuotientBound(v, b, Pow(b, n - 1));
      ValueOfDigits(Rest(v, b), b, n - 1);
      var s := ToDigits(v, b, n);
      assert s[..n - 1] == ToDigits(Rest(v, b), b, n - 1);
      RestLast(v, b);
    }
  }

  lemma QuotientBound(v: nat, b: nat, q: nat)
    requires b > 0 && v < b * q
    ensures Rest(v, b) < q
  {
    if Rest(v, b) >= q { LeMul(q, v / b, b); }
  }

  lemma {:induction false} DigitsOfValue(s: seq<nat>, b: nat)
    requires AreDigits(s, b) && b > 0
    ensures ToDigits(Value(s, b), b, |s|) == s
  {
    if |s| > 0 {
      var front := s[..|s| - 1];
      DivModUnique(Value(s, b), b, Value(front, b), s[|s| - 1]);
      DigitsOfValue(front, b);
    }
  }

  /** Splitting off the first digit. */
  lemma {:induction false} ValueFront(s: seq<nat>, b: nat)
    requires |s| > 0
    ensures Value(s, b) == s[0] * Pow(b, |s| - 1) + Value(s[1..], b)
  {
    if |s| > 1 {
      var front := s[..|s| - 1];
      ValueFront(front, b);
      assert s[1..][..|s| - 2] == front[1..];
      Regroup(s[0], Pow(b, |s| - 2), Value(front[1..], b), b);
    }
  }

  lemma Regroup(d: nat, p: nat, v: nat, b: nat)
    ensures (d * p + v) * b == d * (b * p) + v * b
  {
  }

  lemma {:induction false} DigitsOfZero(b: nat, n: nat)
    requires b > 0
    ensures forall i :: 0 <= i < n ==> ToDigits(0, b, n)[i] == 0
  {
    if n > 0 { DigitsOfZero(b, n - 1); DivModUnique(0, b, 0, 0); }
  }
}

/**
 Encoding keeps the order: of two byte strings of one length, the one that comes
 first has the code that comes first. Together with the round trips this fixes every
 code, since the codes of a block are the first ones of their length.
 */
module Base58Order {
  import opened Machine
  import opened Digits
  import opened Base58

  /** The order of sequences of one length by their first difference. */
  predicate Before(a: seq<nat>, b: seq<nat>)
    requires |a| == |b|
  {
    |a| > 0 && (a[0] < b[0] || (a[0] == b[0] && Before(a[1..], b[1..])))
  }

  predicate TextBefore(a: string, b: string)
    requires |a| == |b|
  {
    |a| > 0 && (a[0] < b[0] || (a[0] == b[0] && TextBefore(a[1..], b[1..])))
  }

  /** The first digit counts most. */
  lemma {:induction false} ValueOrder(a: seq<nat>, b: seq<nat>, base: nat)
    requires |a| == |b| && AreDigits(a, base) && AreDigits(b, base)
    ensures Value(a, base) < Value(b, base) <==> Before(a, b)
  {
    if |a| > 0 {
      var p := Pow(base, |a| - 1);
      ValueFront(a, base);
      ValueFront(b, base);
      ValueBound(a[1..], base);
      ValueBound(b[1..], base);
      if a[0] == b[0] {
        ValueOrder(a[1..], b[1..], base);
      } else if a[0] < b[0] {
        LeadingDigit(a[0], Value(a[1..], base), b[0], Value(b[1..], base), p);
      } else {
        LeadingDigit(b[0], Value(b[1..], base), a[0], Value(a[1..], base), p);
      }
    }
  }

  lemma LeadingDigit(d: nat, v: nat, e: nat, w: nat, p: nat)
    requires d < e && v < p
    ensures d * p + v < e * p + w
  {
    LeMul(d + 1, e, p);
  }

  lemma {:induction false} SymbolsOrder(a: seq<nat>, b: seq<nat>)
    requires |a| == |b| && AreDigits(a, 58) && AreDigits(b, 58)
    ensures TextBefore(SymbolsOf(a), SymbolsOf(b)) <==> Before(a, b)
  {
    if |a| > 0 {
      assert SymbolsOf(a)[1..] == SymbolsOf(a[1..]) && SymbolsOf(b)[1..] == SymbolsOf(b[1..]);
      DigitOrder(Symbol(a[0]), Symbol(b[0]));
      DigitOrder(Symbol(b[0]), Symbol(a[0]));
      SymbolsOrder(a[1..], b[1..]);
    }
  }

  lemma BlockOrder(a: bytes, b: bytes)
    requires |a| == |b| <= 8
    ensures TextBefore(BlockCode(a), BlockCode(b)) <==> Before(a, b)
    ensures BlockCode(a) == BlockCode(b) ==> a == b
  {
    if |a| > 0 {
      var v, w, n := Value(a, 256), Value(b, 256), EncodedBlockSize(|a|);
      BlockRoundTrip(a);
      BlockRoundTrip(b);
      BlockFits(|a|);
      ValueBound(a, 256);
      ValueBound(b, 256);
      ValueOrder(a, b, 256);
      ValueOfDigits(v, 58, n);
      ValueOfDigits(w, 58, n);
      ValueOrder(ToDigits(v, 58, n), ToDigits(w, 58, n), 58);
      SymbolsOrder(ToDigits(v, 58, n), ToDigits(w, 58, n));
    }
  }

  /** Every string of symbols before a code of a block is a code of a block, too. */
  lemma CodesComeFirst(e: string, f: string)
    requires |e| == |f| && AllSymbols(e) && IsBlockCode(f) && TextBefore(e, f)
    ensures IsBlockCode(e)
  {
    SymbolsInverse(e, []);
    SymbolsInverse(f, []);
    SymbolsOrder(DigitsOf(e), DigitsOf(f));
    ValueOrder(DigitsOf(e), DigitsOf(f), 58);
  }

  lemma {:induction false} BeforeConcat(a: seq<nat>, b: seq<nat>, c: seq<nat>, d: seq<nat>)
    requires |a| == |b| && |c| == |d|
    ensures Before(a + c, b + d) <==> Before(a, b) || (a == b && Before(c, d))
  {
    if |a| == 0 {
      assert a + c == c && b + d == d;
    } else {
      assert (a + c)[1..] == a[1..] + c && (b + d)[1..] == b[1..] + d;
      assert a == [a[0]] + a[1..] && b == [b[0]] + b[1..];
      BeforeConcat(a[1..], b[1..], c, d);
    }
  }

  lemma {:induction false} TextBeforeConcat(a: string, b: string, c: string, d: string)
    requires |a| == |b| && |c| == |d|
    ensures TextBefore(a + c, b + d) <==> TextBefore(a, b) || (a == b && TextBefore(c, d))
  {
    if |a| == 0 {
      assert a + c == c && b + d == d;
    } else {
      assert (a + c)[1..] == a[1..] + c && (b + d)[1..] == b[1..] + d;
      assert a == [a[0]] + a[1..] && b == [b[0]] + b[1..];
      TextBeforeConcat(a[1..], b[1..], c, d);
    }
  }

  /** Codes of strings of one length have one length and the order of the strings. */
  lemma {:induction false} EncodeOrder(a: bytes, b: bytes)
    requires |a| == |b|
    ensures |EncodeSpec(a)| == |EncodeSpec(b)|
    ensures TextBefore(EncodeSpec(a), EncodeSpec(b)) <==> Before(a, b)
  {
    hide BlockCode;
    if |a| <= 8 {
      BlockOrder(a, b);
    } else {
      BlockOrder(a[..8], b[..8]);
      EncodeOrder(a[8..], b[8..]);
      TextBeforeConcat(BlockCode(a[..8]), BlockCode(b[..8]), EncodeSpec(a[8..]), EncodeSpec(b[8..]));
      BeforeConcat(a[..8], b[..8], a[8..], b[8..]);
      assert a == a[..8] + a[8..] && b == b[..8] + b[8..];
    }
  }

  /** The length of a code: eleven symbols for eight bytes, and what the rest needs. */
  lemma {:induction false} EncodedLength(data: bytes)
    ensures |EncodeSpec(data)| == |data| / 8 * 11 + EncodedBlockSize(|data| % 8)
  {
    hide BlockCode;
    if |data| > 8 { EncodedLength(data[8..]); }
  }

  lemma OneByte(b: nat)
    requires b < 256
    ensures EncodeSpec([b]) == [Symbol(b / 58), Symbol(b % 58)]
  {
    assert Value([b], 256) == b;
    assert ToDigits(b, 58, 2) == [b / 58, b % 58] by { assert ToDigits(b / 58, 58, 1) == [b / 58]; }
  }

  /** Codes that the library's tests ask for. */
  lemma KnownCodes()
    ensures EncodeSpec([0x00]) == "11" && EncodeSpec([0x39]) == "1z" && EncodeSpec([0xFF]) == "5Q"
  {
    hide EncodeSpec, Symbol;
    OneByte(0x00);
    OneByte(0x39);
    OneByte(0xFF);
    DigitInjective(Symbol(0), '1');
    DigitInjective(Symbol(57), 'z');
    DigitInjective(Symbol(4), '5');
    DigitInjective(Symbol(23), 'Q');
  }
}

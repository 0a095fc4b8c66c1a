/**
 The Base58 code as it runs: lookup tables filled by loops, 64-bit arithmetic that
 wraps, and blocks written into buffers in place. Every method is proved against
 the functions of module Base58.
 */
module Base58Codec {
  import opened Machine
  import opened Digits
  import opened Base58

  // ----- Lookup tables

  /** A lookup in the reverse alphabet, whose first entry is the first symbol's. */
  function Lookup(table: seq<int>, letter: char): int {
    var idx := letter as int - '1' as int;
    if 0 <= idx < |table| then table[idx] else -1
  }

  method ReverseAlphabet() returns (table: array<int>)
    ensures forall c: char :: Lookup(table[..], c) == Digit(c)
  {
    table := new int[74](i => -1);
    for i := 0 to 58
      invariant table.Length == 74
      invariant forall k :: 0 <= k < 74 ==> table[k] == var d := Digit((k + 49) as char); if d < i then d else -1
    {
      DigitOfSymbol(i);
      var idx := ALPHABET[i] as int - '1' as int;
      table[idx] := i;
      forall c | Digit(c) == i
        ensures c == ALPHABET[i]
      {
        DigitInjective(c, ALPHABET[i]);
      }
    }
  }

  method DecodedBlockSizes() returns (table: array<int>)
    ensures table.Length == 12 && forall n: nat :: n < 12 ==> table[n] == DecodedBlockSize(n)
  {
    table := new int[12](i => -1);
    for i := 0 to 9
      invariant forall n: nat :: n < 12 ==> table[n] == if DecodedBlockSize(n) < i then DecodedBlockSize(n) else -1
    {
      BlockSizesInverse(i);
      table[ENCODED_BLOCK_SIZES[i]] := i;
    }
  }

  // ----- Numbers and bytes

  method Uint8beTo64(data: bytes) returns (res: nat)
    requires 1 <= |data| <= 8
    ensures res == Value(data, 256) && res < Pow(256, |data|) <= TWO_TO_64
  {
    res := 0;
    for i := 0 to |data|
      invariant res == Value(data[..i], 256)
    {
      assert data[..i + 1][..i] == data[..i];
      ValueBound(data[..i], 256);
      PowersOf256();
      res := (res * 256) % TWO_TO_64 + data[i];
    }
    assert data[..|data|] == data;
    ValueBound(data, 256);
    BlockFits(|data|);
  }

  /** The last k of the n digits are the k digits. */
  lemma {:induction false} LastDigits(v: nat, b: nat, n: nat, k: nat)
    requires b > 0 && k <= n
    ensures ToDigits(v, b, n)[n - k..] == ToDigits(v, b, k)
    decreases k
  {
    if k > 0 {
      LastDigits(Rest(v, b), b, n - 1, k - 1);
      var s := ToDigits(Rest(v, b), b, n - 1);
      assert (s + [Last(v, b)])[n - k..] == s[n - k..] + [Last(v, b)];
    }
  }

  /** Replaces part of a sequence. */
  function Splice<T>(s: seq<T>, off: nat, part: seq<T>): (r: seq<T>)
    requires off + |part| <= |s|
    ensures |r| == |s|
  {
    s[..off] + part + s[off + |part|..]
  }

  lemma SpliceByElement<T>(s: seq<T>, off: nat, part: seq<T>, r: seq<T>)
    requires off + |part| <= |s| == |r|
    requires forall k :: 0 <= k < |s| ==> r[k] == if off <= k < off + |part| then part[k - off] else s[k]
    ensures r == Splice(s, off, part)
  {
  }

  /** The eight bytes of a number, most significant first. */
  method BigEndianImage(num: nat, ghost size: nat) returns (image: seq<nat>)
    requires size <= 8
    ensures |image| == 8 && image[8 - size..] == ToDigits(num, 256, size)
  {
    image := ToDigits(num, 256, 8);
    LastDigits(num, 256, 8, size);
  }

  /** Copies the low `size` bytes of the number's big-endian image. */
  method Uint64To8be(num: nat, size: nat, res: array<nat>, off: nat)
    requires 1 <= size <= 8 && off + size <= res.Length
    modifies res
    ensures res[..] == Splice(old(res[..]), off, ToDigits(num, 256, size))
  {
    var image := BigEndianImage(num, size);
    var low := image[8 - size..];
    for i := 0 to size
      invariant forall k :: 0 <= k < res.Length ==> res[k] == if off <= k < off + i then low[k - off] else old(res[k])
    {
      res[off + i] := low[i];
    }
    SpliceByElement(old(res[..]), off, low, res[..]);
  }

  // ----- Blocks

  /** The digits of num are the first i digits of the code. */
  ghost predicate FrontDigits(code: seq<nat>, num: nat, i: int) {
    -1 <= i < |code| && num < Pow(58, i + 1) && code[..i + 1] == ToDigits(num, 58, i + 1)
  }

  lemma FrontStep(code: seq<nat>, num: nat, i: int)
    requires FrontDigits(code, num, i) && num > 0
    ensures i >= 0 && code[i] == num % 58
    ensures FrontDigits(code, num / 58, i - 1)
  {
    QuotientBound(num, 58, Pow(58, i));
    assert code[i] == code[..i + 1][i];
    assert code[..i + 1][..i] == code[..i];
  }

  lemma FrontZero(code: seq<nat>, i: int)
    requires FrontDigits(code, 0, i)
    ensures forall k :: 0 <= k <= i ==> code[k] == 0
  {
    DigitsOfZero(58, i + 1);
    forall k | 0 <= k <= i
      ensures code[k] == 0
    {
      assert code[k] == code[..i + 1][k];
    }
  }

  /** The buffer already holds the zero symbol; only the digits that are needed are
      written, from the last one on, and never before the block. */
  method EncodeBlock(block: bytes, res: array<char>, off: nat)
    requires 1 <= |block| <= 8 && off + EncodedBlockSize(|block|) <= res.Length
    requires forall k :: off <= k < off + EncodedBlockSize(|block|) ==> res[k] == ALPHABET[0]
    modifies res
    ensures res[..] == Splice(old(res[..]), off, BlockCode(block))
  {
    var num := Uint8beTo64(block);
    BlockFits(|block|);
    var n := ENCODED_BLOCK_SIZES[|block|];
    assert n == EncodedBlockSize(|block|) by { BlockSizesInverse(|block|); }
    WriteDigits(num, n, res, off);
  }

  method WriteDigits(value: nat, n: nat, res: array<char>, off: nat)
    requires off + n <= res.Length && value < Pow(58, n)
    requires forall k :: off <= k < off + n ==> res[k] == ALPHABET[0]
    modifies res
    ensures res[..] == Splice(old(res[..]), off, SymbolsOf(ToDigits(value, 58, n)))
  {
    ghost var code := ToDigits(value, 58, n);
    hide ToDigits, Splice;
    var num := value;
    var i: int := n - 1;
    assert code[..n] == code;
    while 0 < num
      invariant FrontDigits(code, num, i)
      invariant forall k :: 0 <= k < res.Length ==>
                  res[k] == if off + i < k < off + n then Symbol(code[k - off]) else old(res[k])
    {
      FrontStep(code, num, i);
      var remainder := num % 58;
      num := num / 58;
      res[off + i] := Symbol(remainder);
      i := i - 1;
    }
    FrontZero(code, i);
    SpliceByElement(old(res[..]), off, SymbolsOf(code), res[..]);
  }

  /** The value of the last symbols of a string, from position i on. */
  function TailValue(s: string, i: nat): nat
    requires i <= |s| && AllSymbols(s[i..])
  {
    Value(DigitsOf(s[i..]), 58)
  }

  lemma TailStep(s: string, i: nat)
    requires i < |s| && AllSymbols(s[i + 1..]) && Digit(s[i]) >= 0
    ensures AllSymbols(s[i..])
    ensures TailValue(s, i) == Digit(s[i]) * Pow(58, |s| - 1 - i) + TailValue(s, i + 1)
  {
    forall k | 0 <= k < |s[i..]|
      ensures Digit(s[i..][k]) >= 0
    {
      if k > 0 { assert s[i..][k] == s[i + 1..][k - 1]; }
    }
    var d := DigitsOf(s[i..]);
    assert d[1..] == DigitsOf(s[i + 1..]);
    ValueFront(d, 58);
  }

  /** A tail that is too large makes the whole string too large. */
  lemma {:induction false} TailTooLarge(s: string, i: nat)
    requires i <= |s| <= 11 && AllSymbols(s[i..]) && TailValue(s, i) >= TWO_TO_64
    ensures !Fits64(s)
  {
    if i > 0 && Digit(s[i - 1]) >= 0 {
      hide Fits64, TailValue, Pow;
      TailStep(s, i - 1);
      NonNegative(Digit(s[i - 1]), Pow(58, |s| - i));
      TailTooLarge(s, i - 1);
    } else if i == 0 {
      assert s[0..] == s;
    }
  }

  /** Only symbols, and a number that fits 64 bits. */
  predicate Fits64(s: string) { AllSymbols(s) && Value(DigitsOf(s), 58) < TWO_TO_64 }

  lemma NonNegative(x: nat, y: nat)
    ensures x * y >= 0
  {
  }

  /** The low half of a 64 by 64 bit product, and the high half. */
  function Mul128(a: nat, b: nat): (nat, nat) { ((a * b) % TWO_TO_64, (a * b) / TWO_TO_64) }

  /** The two tests of the loop detect exactly that the sum leaves 64 bits. */
  lemma OverflowTest(res: nat, a: nat, b: nat)
    requires res < TWO_TO_64
    ensures var (lo, hi) := Mul128(a, b);
            var tmp := (res + lo) % TWO_TO_64;
            && ((tmp < res || hi != 0) <==> res + a * b >= TWO_TO_64)
            && (res + a * b < TWO_TO_64 ==> tmp == res + a * b)
  {
    var p := a * b;
    assert p == (p / TWO_TO_64) * TWO_TO_64 + p % TWO_TO_64;
  }

  /** `order` is an exact power of 58 whenever it is used. */
  lemma OrderIsExact(k: nat)
    requires k <= 10
    ensures Pow(58, k) < TWO_TO_64
  {
    PowersOf58();
    assert Pow(58, 0) == 1 && Pow(58, 1) == 58 && Pow(58, 4) == 11316496 && Pow(58, 8) == 128063081718016;
  }

  /** The number of the symbols from position i on. */
  ghost predicate NumberFrom(s: string, i: nat, num: nat) {
    i <= |s| && AllSymbols(s[i..]) && num == TailValue(s, i) < TWO_TO_64
  }

  /** One step of the loop: the sum stays exact, or the number of the string is too large. */
  lemma NumberStep(s: string, i: nat, num: nat, order: nat)
    requires i < |s| <= 11 && NumberFrom(s, i + 1, num) && Digit(s[i]) >= 0
    requires order == Pow(58, |s| - 1 - i)
    ensures var (lo, hi) := Mul128(order, Digit(s[i]));
            var tmp := (num + lo) % TWO_TO_64;
            if tmp < num || hi != 0 then !Fits64(s) else NumberFrom(s, i, tmp)
  {
    hide Fits64, TailValue, Pow;
    TailStep(s, i);
    OverflowTest(num, order, Digit(s[i]));
    Commute(order, Digit(s[i]));
    if num + order * Digit(s[i]) >= TWO_TO_64 { TailTooLarge(s, i); }
  }

  lemma NextOrder(n: nat, i: nat, order: nat)
    requires 0 < i < n <= 11 && order == Pow(58, n - 1 - i)
    ensures (order * 58) % TWO_TO_64 == Pow(58, n - 1 - (i - 1))
  {
    OrderIsExact(n - i);
  }

  method DecodeNumber(block: string) returns (ok: bool, num: nat)
    requires 1 <= |block| <= 11
    ensures ok <==> Fits64(block)
    ensures ok ==> num == Value(DigitsOf(block), 58)
  {
    var order := 1;
    num := 0;
    var i: int := |block| - 1;
    while i >= 0
      invariant -1 <= i < |block| && NumberFrom(block, i + 1, num)
      invariant i >= 0 ==> order == Pow(58, |block| - 1 - i)
    {
      var digit := Digit(block[i]);
      if digit < 0 {
        return false, 0;
      }
      NumberStep(block, i, num, order);
      var (lo, hi) := Mul128(order, digit);
      var tmp := (num + lo) % TWO_TO_64;
      if tmp < num || hi != 0 {
        return false, 0;
      }
      num := tmp;
      if i > 0 { NextOrder(|block|, i, order); }
      order := (order * 58) % TWO_TO_64;
      i := i - 1;
    }
    assert block[0..] == block;
    ok := true;
  }

  method DecodeBlock(block: string, res: array<nat>, off: nat) returns (ok: bool)
    requires 1 <= |block| <= 11
    requires DecodedBlockSize(|block|) > 0 ==> off + DecodedBlockSize(|block|) <= res.Length
    modifies res
    ensures ok <==> IsBlockCode(block)
    ensures res[..] == if ok then Splice(old(res[..]), off, BlockOf(block)) else old(res[..])
  {
    var size := DecodedBlockSize(|block|);
    if size <= 0 {
      return false;
    }
    var num;
    ok, num := DecodeNumber(block);
    if !ok {
      return;
    }
    BlockFits(size);
    if size < 8 && Pow(256, size) <= num {
      return false;
    }
    Uint64To8be(num, size, res, off);
  }

  // ----- Strings

  /** The first i blocks are encoded in the front of the buffer. */
  ghost predicate EncodedUpTo(data: bytes, out: string, i: nat) {
    && 8 * i <= |data| && 11 * i <= |out|
    && EncodeSpec(data) == out[..11 * i] + EncodeSpec(data[8 * i..])
    && forall k :: 11 * i <= k < |out| ==> out[k] == ALPHABET[0]
  }

  lemma EncodedStep(data: bytes, out: string, i: nat)
    requires EncodedUpTo(data, out, i) && 8 * i + 8 <= |data| && 11 * i + 11 <= |out|
    ensures EncodedUpTo(data, Splice(out, 11 * i, BlockCode(data[8 * i..8 * i + 8])), i + 1)
  {
    hide BlockCode, EncodeSpec;
    var rest := data[8 * i..];
    var code := BlockCode(data[8 * i..8 * i + 8]);
    var out' := Splice(out, 11 * i, code);
    EncodeFirst(rest);
    assert rest[..8] == data[8 * i..8 * i + 8] && rest[8..] == data[8 * (i + 1)..];
    assert out'[..11 * (i + 1)] == out[..11 * i] + code;
  }

  /** A rest of less than a full block ends the string. */
  lemma EncodedLast(data: bytes, out: string, i: nat)
    requires EncodedUpTo(data, out, i) && |data| < 8 * i + 8
    requires |out| == 11 * i + EncodedBlockSize(|data| - 8 * i)
    ensures EncodeSpec(data) == Splice(out, 11 * i, BlockCode(data[8 * i..]))
  {
    hide BlockCode;
  }

  method Encode(data: bytes) returns (s: string)
    ensures s == EncodeSpec(data) && DecodeSpec(s) == Some(data)
  {
    hide BlockCode, EncodeSpec, DecodeSpec;
    EmptyCodes();
    DecodeEncode(data);
    if |data| == 0 {
      return "";
    }
    var fullBlocks, lastSize := |data| / 8, |data| % 8;
    var res := new char[fullBlocks * 11 + EncodedBlockSize(lastSize)](i => ALPHABET[0]);
    assert data[8 * 0..] == data;
    for i := 0 to fullBlocks
      invariant EncodedUpTo(data, res[..], i)
    {
      EncodedStep(data, res[..], i);
      EncodeBlock(data[8 * i..8 * i + 8], res, 11 * i);
    }
    EncodedLast(data, res[..], fullBlocks);
    if 0 < lastSize {
      EncodeBlock(data[8 * fullBlocks..], res, 11 * fullBlocks);
    }
    return res[..];
  }

  lemma {:induction false} LastBlockSize(enc: string)
    requires DecodeSpec(enc).Some?
    ensures DecodedBlockSize(|enc| % 11) >= 0
  {
    hide BlockOf, DecodedBlockSize;
    if |enc| < 11 {
      ShortBlockSize(enc);
    } else {
      hide DecodeSpec, IsBlockCode;
      DecodeFirst(enc);
      LastBlockSize(enc[11..]);
      OneBlockLess(|enc|);
    }
  }

  lemma OneBlockLess(n: nat)
    requires n >= 11
    ensures (n - 11) % 11 == n % 11
  {
  }

  lemma ShortBlockSize(enc: string)
    requires |enc| < 11 && (|enc| == 0 || IsBlockCode(enc))
    ensures DecodedBlockSize(|enc| % 11) >= 0
  {
    hide BlockOf;
  }

  function Prepend(front: bytes, r: Option<bytes>): Option<bytes> {
    match r case None => None case Some(rest) => Some(front + rest)
  }

  /** The first i blocks are decoded in the front of the buffer. */
  ghost predicate DecodedUpTo(enc: string, data: seq<nat>, i: nat) {
    && 11 * i <= |enc| && 8 * i <= |data| && AreDigits(data[..8 * i], 256)
    && DecodeSpec(enc) == Prepend(data[..8 * i], DecodeSpec(enc[11 * i..]))
  }

  lemma DecodedStep(enc: string, data: seq<nat>, i: nat)
    requires DecodedUpTo(enc, data, i) && 11 * i + 11 <= |enc| && 8 * i + 8 <= |data|
    ensures var code := enc[11 * i..11 * i + 11];
            if IsBlockCode(code) then DecodedUpTo(enc, Splice(data, 8 * i, BlockOf(code)), i + 1)
            else DecodeSpec(enc) == None
  {
    hide BlockOf, IsBlockCode, DecodeSpec;
    var rest, code := enc[11 * i..], enc[11 * i..11 * i + 11];
    DecodeFirst(rest);
    assert rest[..11] == code && rest[11..] == enc[11 * (i + 1)..];
    if IsBlockCode(code) {
      var data' := Splice(data, 8 * i, BlockOf(code));
      assert data'[..8 * (i + 1)] == data[..8 * i] + BlockOf(code);
      PrependTwice(data[..8 * i], BlockOf(code), DecodeSpec(enc[11 * (i + 1)..]));
    }
  }

  lemma PrependTwice(a: bytes, b: bytes, r: Option<bytes>)
    ensures AreDigits(a + b, 256) && Prepend(a, Prepend(b, r)) == Prepend(a + b, r)
  {
    if r.Some? { assert a + (b + r.value) == a + b + r.value; }
  }

  lemma DecodedLast(enc: string, data: seq<nat>, i: nat)
    requires DecodedUpTo(enc, data, i) && |enc| < 11 * i + 11
    requires |data| == 8 * i + DecodedBlockSize(|enc| - 11 * i)
    ensures |enc| == 11 * i ==> AreDigits(data, 256) && DecodeSpec(enc) == Some(data)
    ensures |enc| > 11 * i ==>
              var code := enc[11 * i..];
              if IsBlockCode(code) then
                var out := Splice(data, 8 * i, BlockOf(code));
                AreDigits(out, 256) && DecodeSpec(enc) == Some(out)
              else DecodeSpec(enc) == None
  {
    var code := enc[11 * i..];
    ShortCode(code);
    hide BlockOf, IsBlockCode, DecodeSpec;
    if |code| == 0 {
      assert data[..8 * i] + [] == data[..8 * i];
      assert data[..8 * i] == data;
    } else if IsBlockCode(code) {
      assert Splice(data, 8 * i, BlockOf(code)) == data[..8 * i] + BlockOf(code);
    }
  }

  lemma ShortCode(code: string)
    requires |code| < 11
    ensures DecodeSpec(code) == if |code| == 0 then Some([]) else if IsBlockCode(code) then Some(BlockOf(code)) else None
  {
  }

  method Decode(enc: string) returns (r: Option<bytes>)
    ensures r == DecodeSpec(enc) && (r.Some? <==> exists data: bytes :: EncodeSpec(data) == enc)
    ensures r.Some? ==> EncodeSpec(r.value) == enc
  {
    DecodesIff(enc);
    hide BlockOf, IsBlockCode, DecodeSpec, EncodeSpec;
    EmptyCodes();
    if |enc| == 0 {
      return Some([]);
    }
    var fullBlocks, lastSize := |enc| / 11, |enc| % 11;
    var lastDecodedSize := DecodedBlockSize(lastSize);
    if lastDecodedSize < 0 {
      if DecodeSpec(enc).Some? { LastBlockSize(enc); }
      return None;
    }
    var data := new nat[fullBlocks * 8 + lastDecodedSize](i => 0);
    DecodedNothing(enc, data[..]);
    for i := 0 to fullBlocks
      invariant DecodedUpTo(enc, data[..], i)
    {
      DecodedStep(enc, data[..], i);
      var ok := DecodeBlock(enc[11 * i..11 * i + 11], data, 8 * i);
      if !ok {
        return None;
      }
    }
    DecodedLast(enc, data[..], fullBlocks);
    if 0 < lastSize {
      var ok := DecodeBlock(enc[11 * fullBlocks..], data, 8 * fullBlocks);
      if !ok {
        return None;
      }
    }
    return Some(data[..]);
  }

  lemma DecodedNothing(enc: string, data: seq<nat>)
    ensures DecodedUpTo(enc, data, 0)
  {
    assert enc[11 * 0..] == enc && data[..8 * 0] == [];
    var r := DecodeSpec(enc);
    if r.Some? { assert [] + r.value == r.value; }
  }
}

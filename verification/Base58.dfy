/**
 Block-wise Base58: data is cut into blocks of eight bytes, each block becomes
 eleven symbols (a shorter last block fewer), so that no number ever needs more
 than 64 bits.
 */
module Base58 {
  import opened Machine
  import opened Digits

  datatype Option<+T> = None | Some(value: T)

  type bytes = s: seq<nat> | AreDigits(s, 256) witness []

  const ALPHABET: string := "123456789" + "ABCDEFGH" + "JKLMN" + "PQRSTUVWXYZ" + "abcdefghijk" + "mnopqrstuvwxyz"
  const ENCODED_BLOCK_SIZES: seq<nat> := [0, 2, 3, 5, 6, 7, 9, 10, 11]

  // ----- Symbols

  /** The symbol's digit, or -1. */
  function Digit(c: char): (d: int)
    ensures -1 <= d < 58
  {
    if '1' <= c <= '9' then c as int - '1' as int
    else if 'A' <= c <= 'H' then c as int - 'A' as int + 9
    else if 'J' <= c <= 'N' then c as int - 'J' as int + 17
    else if 'P' <= c <= 'Z' then c as int - 'P' as int + 22
    else if 'a' <= c <= 'k' then c as int - 'a' as int + 33
    else if 'm' <= c <= 'z' then c as int - 'm' as int + 44
    else -1
  }

  /** The alphabet and the digits are inverse to each other. */
  lemma DigitOfSymbol(d: nat)
    requires d < 58
    ensures |ALPHABET| == 58 && Digit(ALPHABET[d]) == d
  {
    if d < 9 {
      assert ALPHABET[d] == "123456789"[d];
    } else if d < 22 {
      UpperSymbol(d);
    } else if d < 33 {
      assert ALPHABET[d] == "PQRSTUVWXYZ"[d - 22];
    } else {
      LowerSymbol(d);
    }
  }

  lemma UpperSymbol(d: nat)
    requires 9 <= d < 22
    ensures |ALPHABET| == 58 && Digit(ALPHABET[d]) == d
  {
    if d < 17 {
      assert ALPHABET[d] == "ABCDEFGH"[d - 9];
    } else {
      assert ALPHABET[d] == "JKLMN"[d - 17];
    }
  }

  lemma LowerSymbol(d: nat)
    requires 33 <= d < 58
    ensures |ALPHABET| == 58 && Digit(ALPHABET[d]) == d
  {
    if d < 44 {
      assert ALPHABET[d] == "abcdefghijk"[d - 33];
    } else {
      assert ALPHABET[d] == "mnopqrstuvwxyz"[d - 44];
    }
  }

  /** The symbols are the ASCII digits and letters without 0, I, O and l. */
  lemma IsSymbolIff(c: char)
    ensures Digit(c) >= 0 <==> ('1' <= c <= '9' || 'A' <= c <= 'Z' || 'a' <= c <= 'z') && c != 'I' && c != 'O' && c != 'l'
  {
  }

  /** Their digits follow the order of the characters. */
  lemma DigitOrder(c: char, e: char)
    requires Digit(c) >= 0 && Digit(e) >= 0
    ensures Digit(c) < Digit(e) <==> c < e
  {
  }

  /** Different symbols have different digits. */
  lemma DigitInjective(c: char, e: char)
    requires Digit(c) == Digit(e) >= 0
    ensures c == e
  {
  }

  function Symbol(d: nat): (c: char)
    requires d < 58
    ensures Digit(c) == d
  {
    DigitOfSymbol(d);
    ALPHABET[d]
  }

  predicate AllSymbols(s: string) { forall i :: 0 <= i < |s| ==> Digit(s[i]) >= 0 }

  /** The digits a string of symbols stands for. */
  function DigitsOf(s: string): (d: seq<nat>)
    requires AllSymbols(s)
    ensures |d| == |s| && AreDigits(d, 58)
  {
    seq(|s|, i requires 0 <= i < |s| => Digit(s[i]) as nat)
  }

  function SymbolsOf(d: seq<nat>): (s: string)
    requires AreDigits(d, 58)
    ensures |s| == |d| && AllSymbols(s)
  {
    seq(|d|, i requires 0 <= i < |d| => Symbol(d[i]))
  }

  lemma SymbolsInverse(s: string, d: seq<nat>)
    ensures AreDigits(d, 58) ==> DigitsOf(SymbolsOf(d)) == d
    ensures AllSymbols(s) ==> SymbolsOf(DigitsOf(s)) == s
  {
    if AllSymbols(s) {
      forall i | 0 <= i < |s|
        ensures SymbolsOf(DigitsOf(s))[i] == s[i]
      {
        DigitInjective(s[i], Symbol(Digit(s[i])));
      }
    }
  }

  // ----- Block sizes

  /** The number of symbols for a block of r bytes. */
  function EncodedBlockSize(r: nat): (n: nat)
    requires r <= 8
    ensures n <= 11
  {
    if r == 0 then 0 else if r == 1 then 2 else if r == 2 then 3 else if r == 3 then 5 else if r == 4 then 6
    else if r == 5 then 7 else if r == 6 then 9 else if r == 7 then 10 else 11
  }

  /** The number of bytes an encoded block of n symbols stands for, or -1. */
  function DecodedBlockSize(n: nat): (r: int)
    ensures -1 <= r <= 8
    ensures r >= 0 ==> EncodedBlockSize(r) == n
  {
    if n == 0 then 0 else if n == 2 then 1 else if n == 3 then 2 else if n == 5 then 3 else if n == 6 then 4
    else if n == 7 then 5 else if n == 9 then 6 else if n == 10 then 7 else if n == 11 then 8 else -1
  }

  lemma BlockSizesInverse(r: nat)
    requires r <= 8
    ensures DecodedBlockSize(EncodedBlockSize(r)) == r
    ensures ENCODED_BLOCK_SIZES[r] == EncodedBlockSize(r)
  {
  }

  /** Every block fits into its encoded size and into no smaller one, and the largest
      number into 64 bits. */
  lemma BlockFits(r: nat)
    requires 1 <= r <= 8
    ensures Pow(58, EncodedBlockSize(r) - 1) < Pow(256, r) <= Pow(58, EncodedBlockSize(r))
    ensures Pow(256, r) <= TWO_TO_64
    ensures Pow(256, 8) == TWO_TO_64
  {
    PowersOf58();
    PowersOf256();
  }

  lemma PowersOf256()
    ensures Pow(256, 1) == 0x100 && Pow(256, 2) == 0x1_0000 && Pow(256, 3) == 0x100_0000
    ensures Pow(256, 4) == 0x1_0000_0000 && Pow(256, 5) == 0x100_0000_0000 && Pow(256, 6) == 0x1_0000_0000_0000
    ensures Pow(256, 7) == 0x100_0000_0000_0000 && Pow(256, 8) == TWO_TO_64
  {
    assert Pow(256, 4) == 0x1_0000_0000;
  }

  lemma PowersOf58()
    ensures Pow(58, 1) == 58 && Pow(58, 4) == 11316496 && Pow(58, 8) == 128063081718016
    ensures Pow(58, 2) == 3364 && Pow(58, 3) == 195112 && Pow(58, 5) == 656356768
    ensures Pow(58, 6) == 38068692544 && Pow(58, 7) == 2207984167552 && Pow(58, 9) == 7427658739644928
    ensures Pow(58, 10) == 430804206899405824 && Pow(58, 11) == 24986644000165537792
  {
    assert Pow(58, 5) == 656356768;
    assert Pow(58, 8) == 128063081718016;
  }

  // ----- What a block and a string encode to

  /** The big-endian number of a block, written with the block's number of symbols. */
  function BlockCode(b: bytes): (s: string)
    requires |b| <= 8
    ensures |s| == EncodedBlockSize(|b|) && AllSymbols(s)
  {
    SymbolsOf(ToDigits(Value(b, 256), 58, EncodedBlockSize(|b|)))
  }

  /** The string is the code of some block of r bytes. */
  predicate IsBlockCode(s: string) {
    && DecodedBlockSize(|s|) > 0
    && AllSymbols(s)
    && Value(DigitsOf(s), 58) < Pow(256, DecodedBlockSize(|s|))
  }

  function BlockOf(s: string): (b: bytes)
    requires IsBlockCode(s)
    ensures |b| == DecodedBlockSize(|s|)
  {
    ToDigits(Value(DigitsOf(s), 58), 256, DecodedBlockSize(|s|))
  }

  lemma BlockRoundTrip(b: bytes)
    requires 1 <= |b| <= 8
    ensures IsBlockCode(BlockCode(b)) && BlockOf(BlockCode(b)) == b
  {
    var v, n := Value(b, 256), EncodedBlockSize(|b|);
    ValueBound(b, 256);
    BlockFits(|b|);
    BlockSizesInverse(|b|);
    SymbolsInverse("", ToDigits(v, 58, n));
    ValueOfDigits(v, 58, n);
    DigitsOfValue(b, 256);
  }

  lemma CodeRoundTrip(s: string)
    requires IsBlockCode(s)
    ensures BlockCode(BlockOf(s)) == s
  {
    var v, r := Value(DigitsOf(s), 58), DecodedBlockSize(|s|);
    ValueOfDigits(v, 256, r);
    DigitsOfValue(DigitsOf(s), 58);
    SymbolsInverse(s, []);
  }

  /** The code of a byte string: its full blocks, then the rest. */
  function EncodeSpec(data: bytes): (s: string) {
    if |data| <= 8 then BlockCode(data) else BlockCode(data[..8]) + EncodeSpec(data[8..])
  }

  function DecodeSpec(enc: string): (r: Option<bytes>) {
    if |enc| == 0 then Some([])
    else if |enc| <= 11 then if IsBlockCode(enc) then Some(BlockOf(enc)) else None
    else if !IsBlockCode(enc[..11]) then None
    else match DecodeSpec(enc[11..])
      case None => None
      case Some(rest) => Some(BlockOf(enc[..11]) + rest)
  }

  lemma EmptyCodes()
    ensures EncodeSpec([]) == "" && DecodeSpec("") == Some([])
  {
  }

  lemma EncodeCons(block: bytes, rest: bytes)
    requires |block| == 8 && |rest| > 0
    ensures AreDigits(block + rest, 256)
    ensures EncodeSpec(block + rest) == BlockCode(block) + EncodeSpec(rest)
  {
    assert (block + rest)[..8] == block && (block + rest)[8..] == rest;
  }

  lemma DecodeCons(code: string, rest: string)
    requires |code| == 11 && |rest| > 0
    ensures DecodeSpec(code + rest).Some? <==> IsBlockCode(code) && DecodeSpec(rest).Some?
    ensures DecodeSpec(code + rest).Some? ==> DecodeSpec(code + rest).value == BlockOf(code) + DecodeSpec(rest).value
  {
    assert (code + rest)[..11] == code && (code + rest)[11..] == rest;
  }

  /** The first full block of a string, whether or not anything follows. */
  lemma EncodeFirst(data: bytes)
    requires |data| >= 8
    ensures EncodeSpec(data) == BlockCode(data[..8]) + EncodeSpec(data[8..])
  {
    if |data| == 8 { assert data[..8] == data; }
  }

  lemma DecodeFirst(enc: string)
    requires |enc| >= 11
    ensures DecodeSpec(enc).Some? <==> IsBlockCode(enc[..11]) && DecodeSpec(enc[11..]).Some?
    ensures DecodeSpec(enc).Some? ==> DecodeSpec(enc).value == BlockOf(enc[..11]) + DecodeSpec(enc[11..]).value
  {
    if |enc| == 11 { assert enc[..11] == enc; }
  }

  lemma {:induction false} NonEmpty(data: bytes, enc: string)
    ensures |EncodeSpec(data)| > 0 <==> |data| > 0
    ensures DecodeSpec(enc).Some? ==> (|DecodeSpec(enc).value| > 0 <==> |enc| > 0)
  {
  }

  lemma DecodeEncodeStep(block: bytes, rest: bytes)
    requires |block| == 8 && |rest| > 0 && DecodeSpec(EncodeSpec(rest)) == Some(rest)
    ensures AreDigits(block + rest, 256)
    ensures DecodeSpec(EncodeSpec(block + rest)) == Some(block + rest)
  {
    BlockRoundTrip(block);
    NonEmpty(rest, "");
    EncodeCons(block, rest);
    DecodeCons(BlockCode(block), EncodeSpec(rest));
  }

  /** Decoding undoes encoding, for every byte string. */
  lemma {:induction false} DecodeEncode(data: bytes)
    ensures DecodeSpec(EncodeSpec(data)) == Some(data)
  {
    if |data| > 8 {
      DecodeEncode(data[8..]);
      DecodeEncodeStep(data[..8], data[8..]);
      assert data == data[..8] + data[8..];
    } else if |data| > 0 {
      BlockRoundTrip(data);
    }
  }

  lemma EncodeDecodeStep(code: string, rest: string)
    requires |code| == 11 && |rest| > 0 && DecodeSpec(code + rest).Some?
    requires DecodeSpec(rest).Some? ==> EncodeSpec(DecodeSpec(rest).value) == rest
    ensures EncodeSpec(DecodeSpec(code + rest).value) == code + rest
  {
    DecodeCons(code, rest);
    CodeRoundTrip(code);
    NonEmpty([], rest);
    EncodeCons(BlockOf(code), DecodeSpec(rest).value);
  }

  /** Whatever decodes is the code of what it decodes to, so decoding accepts
      exactly the codes and is injective. */
  lemma {:induction false} EncodeDecode(enc: string)
    requires DecodeSpec(enc).Some?
    ensures EncodeSpec(DecodeSpec(enc).value) == enc
  {
    if |enc| > 11 {
      if DecodeSpec(enc[11..]).Some? { EncodeDecode(enc[11..]); }
      assert enc == enc[..11] + enc[11..];
      EncodeDecodeStep(enc[..11], enc[11..]);
    } else if |enc| > 0 {
      CodeRoundTrip(enc);
    }
  }

  /** Just the codes decode. */
  lemma DecodesIff(enc: string)
    ensures DecodeSpec(enc).Some? <==> exists data: bytes :: EncodeSpec(data) == enc
    ensures DecodeSpec(enc).Some? ==> EncodeSpec(DecodeSpec(enc).value) == enc
  {
    hide EncodeSpec, DecodeSpec;
    if DecodeSpec(enc).Some? { EncodeDecode(enc); }
    if data: bytes :| EncodeSpec(data) == enc { DecodeEncode(data); }
  }

  lemma DecodeInjective(e: string, e': string)
    requires DecodeSpec(e).Some? && DecodeSpec(e) == DecodeSpec(e')
    ensures e == e'
  {
    EncodeDecode(e);
    EncodeDecode(e');
  }
}

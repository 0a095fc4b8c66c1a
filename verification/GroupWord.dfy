/**
 The portable group: eight control bytes in one 64-bit word, matched by word
 arithmetic. Each trick is shown to do, byte by byte, what the table takes it to do
 with the control bytes that were loaded.
 */
module GroupWord {
  import opened ControlBytes

  const MSBS: bv64 := 0x8080808080808080
  const LSBS: bv64 := 0x0101010101010101

  // ----- The word arithmetic

  /** The byte h in every place. */
  function Spread(h: bv8): bv64 { LSBS * (h as bv64) }

  function ZeroBytes(x: bv64): bv64 { (x - LSBS) & !x & MSBS }

  function Match(ctrl: bv64, h: bv8): bv64 { ZeroBytes(Xor(ctrl, Spread(h))) }

  function Xor(x: bv64, y: bv64): bv64 { x ^ y }

  function MatchEmpty(ctrl: bv64): bv64 { (ctrl & (!ctrl << 6)) & MSBS }

  function MatchEmptyOrDeleted(ctrl: bv64): bv64 { (ctrl & (!ctrl << 7)) & MSBS }

  function ConvertSpecialToEmptyAndFullToDeleted(ctrl: bv64): bv64 {
    var x := ctrl & MSBS;
    (!x + (x >> 7)) & !LSBS
  }

  // ----- Bytes of a word, by the bit at which they begin

  predicate Aligned(s: bv64) { s < 64 && s & 7 == 0 }

  function Byte(x: bv64, s: bv64): bv8
    requires Aligned(s)
  {
    ((x >> s) & 0xFF) as bv8
  }

  /** The mask marks a byte by its top bit. */
  predicate Bit(mask: bv64, s: bv64)
    requires Aligned(s)
  {
    Byte(mask, s) & 0x80 != 0
  }

  /** A hash with the last bit flipped. */
  function Flip(h: bv8): bv8 { h ^ 1 }

  lemma SpreadByte(h: bv8, s: bv64)
    requires Aligned(s)
    ensures Byte(Spread(h), s) == h
  {
  }

  lemma XorByte(x: bv64, y: bv64, z: bv64, s: bv64)
    requires Aligned(s) && z == x ^ y
    ensures Byte(z, s) == 0 <==> Byte(x, s) == Byte(y, s)
    ensures Byte(z, s) == 1 <==> Byte(x, s) == Flip(Byte(y, s))
  {
  }

  lemma XorIs(x: bv64, y: bv64, s: bv64)
    requires Aligned(s)
    ensures Byte(Xor(x, y), s) == 0 <==> Byte(x, s) == Byte(y, s)
    ensures Byte(Xor(x, y), s) == 1 <==> Byte(x, s) == Flip(Byte(y, s))
  {
    hide Byte, Aligned, Flip;
    XorByte(x, y, Xor(x, y), s);
  }

  /** The subtraction marks the zero bytes, and a one above a marked byte, to which it lends. */
  lemma ZeroByte(x: bv64, s: bv64)
    requires Aligned(s)
    ensures s > 0 ==> Aligned(s - 8)
    ensures Bit(ZeroBytes(x), s) <==> Byte(x, s) == 0 || (s > 0 && Byte(x, s) == 1 && Bit(ZeroBytes(x), s - 8))
  {
  }

  /** The byte is marked just if it is h, or if it is h with the last bit flipped and the byte
      below is marked. */
  lemma MatchByte(ctrl: bv64, h: bv8, s: bv64)
    requires Aligned(s)
    ensures s > 0 ==> Aligned(s - 8)
    ensures Bit(Match(ctrl, h), s) <==> Byte(ctrl, s) == h || (s > 0 && Byte(ctrl, s) == Flip(h) && Bit(Match(ctrl, h), s - 8))
  {
    hide Byte, Bit, ZeroBytes, Aligned, Xor, Spread, Flip;
    XorIs(ctrl, Spread(h), s);
    SpreadByte(h, s);
    ZeroByte(Xor(ctrl, Spread(h)), s);
  }

  /** A byte that the table uses: full, empty, deleted or the sentinel. */
  predicate IsCtrl(b: bv8) { b < 0x80 || b == 0x80 || b == 0xFE || b == 0xFF }

  lemma EmptyByte(ctrl: bv64, s: bv64)
    requires Aligned(s) && IsCtrl(Byte(ctrl, s))
    ensures Bit(MatchEmpty(ctrl), s) <==> Byte(ctrl, s) == 0x80
    ensures Bit(MatchEmptyOrDeleted(ctrl), s) <==> Byte(ctrl, s) == 0x80 || Byte(ctrl, s) == 0xFE
  {
  }

  lemma ConvertByte(ctrl: bv64, s: bv64)
    requires Aligned(s)
    ensures Byte(ConvertSpecialToEmptyAndFullToDeleted(ctrl), s) == if Byte(ctrl, s) < 0x80 then 0xFE else 0x80
  {
  }

  // ----- The word as control bytes of the table

  /** The bit at which byte number i begins. */
  function At(i: nat): (s: bv64)
    requires i < 8
    ensures Aligned(s)
  {
    if i == 0 then 0 else if i == 1 then 8 else if i == 2 then 16 else if i == 3 then 24
    else if i == 4 then 32 else if i == 5 then 40 else if i == 6 then 48 else 56
  }

  lemma AtPrevious(i: nat)
    requires i < 8
    ensures i == 0 <==> At(i) == 0
    ensures i > 0 ==> At(i) - 8 == At(i - 1)
  {
  }

  /** A byte read as a signed number. */
  function CtrlOf(b: bv8): int { if b < 0x80 then b as int else b as int - 256 }

  /** The word holds the eight control bytes from `off` on. */
  ghost predicate Loads(x: bv64, c: seq<int>, off: nat) {
    off + 8 <= |c| && forall i :: 0 <= i < 8 ==> c[off + i] == CtrlOf(Byte(x, At(i)))
  }

  lemma CtrlOfMeans(b: bv8)
    ensures CtrlOf(b) == EMPTY <==> b == 0x80
    ensures CtrlOf(b) == DELETED <==> b == 0xFE
    ensures CtrlOf(b) == SENTINEL <==> b == 0xFF
    ensures IsFull(CtrlOf(b)) <==> b < 0x80
  {
  }

  lemma CtrlOfInjective(b: bv8, h: bv8)
    requires h < 0x80
    ensures CtrlOf(b) == h as int <==> b == h
    ensures CtrlOf(b) == Flipped(h as int) <==> b == Flip(h)
  {
    FlipMeans(h);
    SameByte(b, h);
    SameByte(b, Flip(h));
  }

  lemma SameByte(b: bv8, h: bv8)
    requires h < 0x80
    ensures CtrlOf(b) == h as int <==> b == h
  {
  }

  lemma FlipMeans(h: bv8)
    requires h < 0x80
    ensures Flip(h) < 0x80 && Flip(h) as int == Flipped(h as int)
  {
  }

  /** `Match` marks just the bytes that the table's search tries, false matches included. */
  lemma {:induction false} MatchReads(x: bv64, c: seq<int>, off: nat, h: bv8, i: nat)
    requires Loads(x, c, off) && h < 0x80 && i < 8
    ensures Bit(Match(x, h), At(i)) <==> Marked(c, off, h as int, i, 8)
  {
    hide Byte, Bit, CtrlOf, Match, Aligned, Flip;
    MatchByte(x, h, At(i));
    AtPrevious(i);
    hide At;
    CtrlOfInjective(Byte(x, At(i)), h);
    if i > 0 { MatchReads(x, c, off, h, i - 1); }
  }

  /** The other two masks mark just the empty bytes, and the empty and deleted ones. */
  lemma MatchEmptyReads(x: bv64, c: seq<int>, off: nat, i: nat)
    requires Loads(x, c, off) && i < 8 && (IsSlotByte(c[off + i]) || c[off + i] == SENTINEL)
    ensures Bit(MatchEmpty(x), At(i)) <==> IsEmpty(c[off + i])
    ensures Bit(MatchEmptyOrDeleted(x), At(i)) <==> IsEmptyOrDeleted(c[off + i])
  {
    hide Byte, Bit, CtrlOf, Aligned, MatchEmpty, MatchEmptyOrDeleted;
    CtrlOfMeans(Byte(x, At(i)));
    EmptyByte(x, At(i));
  }

  /** What is stored back: deleted for full bytes and empty for all others. */
  lemma ConvertReads(x: bv64, c: seq<int>, off: nat, i: nat)
    requires Loads(x, c, off) && i < 8
    ensures CtrlOf(Byte(ConvertSpecialToEmptyAndFullToDeleted(x), At(i))) == if IsFull(c[off + i]) then DELETED else EMPTY
  {
    hide Byte, CtrlOf, Aligned, ConvertSpecialToEmptyAndFullToDeleted;
    ConvertByte(x, At(i));
    CtrlOfMeans(Byte(x, At(i)));
    CtrlOfMeans(0xFE);
    CtrlOfMeans(0x80);
  }

  // ----- Counting bits

  /** The index of the lowest set bit. */
  method CountTrailingZerosNonZero64Slow(n0: bv64) returns (c: bv64)
    requires n0 != 0
    ensures c < 64 && (n0 >> c) & 1 == 1
    ensures n0 << (63 - c) == 0x8000000000000000
  {
    var n := n0;
    c := 63;
    n := n & (!n + 1);
    if n & 0x00000000FFFFFFFF != 0 { c := c - 32; }
    if n & 0x0000FFFF0000FFFF != 0 { c := c - 16; }
    if n & 0x00FF00FF00FF00FF != 0 { c := c - 8; }
    if n & 0x0F0F0F0F0F0F0F0F != 0 { c := c - 4; }
    if n & 0x3333333333333333 != 0 { c := c - 2; }
    if n & 0x5555555555555555 != 0 { c := c - 1; }
  }

  /** How many bytes from the lowest on are empty or deleted. */
  method CountLeadingEmptyOrDeleted(ctrl: bv64) returns (k: bv64)
    ensures k <= 8
    ensures forall s {:trigger Aligned(s)} :: Aligned(s) && s < 8 * k ==> Bit(MatchEmptyOrDeleted(ctrl), s)
    ensures k < 8 ==> Aligned(8 * k) && !Bit(MatchEmptyOrDeleted(ctrl), 8 * k)
  {
    var c := CountTrailingZerosNonZero64Slow(((!ctrl & (ctrl >> 7)) | 0x00FEFEFEFEFEFEFE) + 1);
    k := (c + 7) >> 3;
  }
}

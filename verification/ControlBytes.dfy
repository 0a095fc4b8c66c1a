/**
 Control bytes of the open-addressing table: one signed byte a slot, a sentinel,
 and clones of the first bytes after it, so that a group load that starts
 anywhere in the table reads `width` bytes of the ring.
 */
module ControlBytes {
  import opened Machine
  import opened Probing

  const EMPTY: int := -128
  const DELETED: int := -2
  const SENTINEL: int := -1

  predicate IsEmpty(c: int) { c == EMPTY }
  predicate IsFull(c: int) { c >= 0 }
  predicate IsDeleted(c: int) { c == DELETED }
  predicate IsEmptyOrDeleted(c: int) { c < SENTINEL }

  /** What the control byte of a slot may be. */
  predicate IsSlotByte(c: int) { c == EMPTY || c == DELETED || 0 <= c < 128 }

  function H1(hash: nat): nat { hash / 128 }
  function H2(hash: nat): (h: int)
    ensures 0 <= h < 128
  {
    hash % 128
  }

  /** Both parts together are the hash. */
  lemma HashParts(hash: nat)
    ensures 128 * H1(hash) + H2(hash) == hash
  {
  }

  predicate IsWidth(w: nat) { w == 8 || w == 16 }

  /** cap + 1 is a power of two; capacity 0 is the table without slots. */
  ghost predicate IsRing(cap: nat) { exists k: nat :: cap + 1 == Pow2(k) }

  ghost predicate IsValidCapacity(cap: nat) { IsRing(cap) && cap > 0 }

  predicate IsSmall(cap: nat, w: nat) { cap + 1 < w }

  /** The whole array of control bytes is well formed: slot bytes, the sentinel,
      then clones of the slot bytes, then (in a small table) dummy empties. */
  ghost predicate Layout(c: seq<int>, cap: nat, w: nat) {
    && IsWidth(w) && IsRing(cap)
    && |c| >= cap + w
    && (cap > 0 ==> |c| == cap + w + 1)
    && c[cap] == SENTINEL
    && (forall i :: 0 <= i < cap ==> IsSlotByte(c[i]))
    && (forall m :: cap < m < cap + w ==> c[m] == AfterSentinel(c, cap, m))
  }

  /** The byte at position m past the sentinel: a clone, or a dummy empty. */
  function AfterSentinel(c: seq<int>, cap: nat, m: nat): int
    requires cap < m && cap < |c|
  {
    if m <= 2 * cap then c[m - (cap + 1)] else EMPTY
  }

  predicate HasEmpty(c: seq<int>, off: nat, w: nat)
    requires off + w <= |c|
  {
    exists m :: off <= m < off + w && IsEmpty(c[m])
  }

  /** The last bit of a hash flipped. */
  function Flipped(h: int): int { if h % 2 == 0 then h + 1 else h - 1 }

  /** The byte number i of the group at `off` is marked as a match for h. Groups of 16 mark
      just the equal bytes. Groups of 8 are matched by word arithmetic, which also marks a
      byte that differs in the last bit if the byte before it is marked. */
  predicate Marked(c: seq<int>, off: nat, h: int, i: nat, w: nat)
    requires i < w && off + w <= |c|
  {
    c[off + i] == h || (w == 8 && i > 0 && c[off + i] == Flipped(h) && Marked(c, off, h, i - 1, w))
  }

  /** Only full bytes are marked, and a false mark comes only behind a true one. */
  lemma {:induction false} FalseMark(c: seq<int>, off: nat, h: int, i: nat, w: nat) returns (j: nat)
    requires i < w && off + w <= |c| && 0 <= h < 128 && Marked(c, off, h, i, w)
    ensures IsFull(c[off + i]) && j <= i && c[off + j] == h
  {
    j := i;
    if c[off + i] != h { j := FalseMark(c, off, h, i - 1, w); }
  }

  predicate HasFree(c: seq<int>, off: nat, w: nat)
    requires off + w <= |c|
  {
    exists m :: off <= m < off + w && IsEmptyOrDeleted(c[m])
  }

  // ----- Powers of two

  lemma {:induction false} Pow2Monotone(a: nat, b: nat)
    requires a <= b
    ensures Pow2(a) <= Pow2(b)
  {
    if a < b { Pow2Monotone(a, b - 1); }
  }

  lemma WidthIsPow2(w: nat) returns (k: nat)
    requires IsWidth(w)
    ensures w == Pow2(k)
  {
    k := if w == 8 then 3 else 4;
    assert Pow2(3) == 8 && Pow2(4) == 16;
  }

  /** A large ring is a power-of-two number of groups. */
  lemma LargeRing(cap: nat, w: nat) returns (k: nat)
    requires IsWidth(w) && IsRing(cap) && !IsSmall(cap, w)
    ensures cap + 1 == w * Pow2(k)
  {
    var a := WidthIsPow2(w);
    var b: nat :| cap + 1 == Pow2(b);
    if b < a { Pow2Monotone(b + 1, a); }
    k := b - a;
    Pow2Sum(a, k);
  }

  /** A small ring fits twice into a group. */
  lemma SmallRing(cap: nat, w: nat) returns (q: nat)
    requires IsWidth(w) && IsRing(cap) && IsSmall(cap, w)
    ensures w == 2 * q * (cap + 1) && q > 0
  {
    var a := WidthIsPow2(w);
    var b: nat :| cap + 1 == Pow2(b);
    if a <= b { Pow2Monotone(a, b); }
    q := Pow2(a - b - 1);
    Pow2Sum(a - b, b);
  }

  // ----- Writing a control byte

  /** Where `set_ctrl` repeats the byte of slot p, by its mask arithmetic. */
  function Mirror(p: nat, cap: nat, w: nat): int {
    (p - w) % (cap + 1) + 1 + (w - 1) % (cap + 1)
  }

  /** Where the byte of slot p is repeated: at its clone, or at p itself. */
  function CloneOf(p: nat, cap: nat, w: nat): nat {
    if !IsSmall(cap, w) && w <= p then p else p + cap + 1
  }

  lemma MirrorIsClone(p: nat, cap: nat, w: nat)
    requires IsWidth(w) && IsRing(cap) && p < cap
    ensures Mirror(p, cap, w) == CloneOf(p, cap, w)
  {
    if IsSmall(cap, w) {
      SmallMirror(p, cap, w);
    } else {
      Wrap(w - 1, cap + 1);
      if w <= p {
        Wrap(p - w, cap + 1);
      } else {
        Wrap(p - w + cap + 1, cap + 1);
        RemoveMultiple(p - w, 1, cap + 1);
      }
    }
  }

  lemma SmallMirror(p: nat, cap: nat, w: nat)
    requires IsWidth(w) && IsRing(cap) && p < cap && IsSmall(cap, w)
    ensures (p - w) % (cap + 1) == p && (w - 1) % (cap + 1) == cap
  {
    var q := SmallRing(cap, w);
    var z: int := 2 * q;
    AddMultiples(z - 1, 1, cap + 1);
    DivModUnique(p - w, cap + 1, -z, p);
    DivModUnique(w - 1, cap + 1, z - 1, cap);
  }

  function SetCtrl(c: seq<int>, cap: nat, w: nat, p: nat, x: int): (r: seq<int>)
    requires IsWidth(w) && p < cap && cap + w < |c|
    ensures |r| == |c|
  {
    c[p := x][CloneOf(p, cap, w) := x]
  }

  /** `set_ctrl` changes byte p and its clone and nothing else a group can read,
      and keeps the array well formed. */
  lemma SetCtrlKeepsLayout(c: seq<int>, cap: nat, w: nat, p: nat, x: int)
    requires Layout(c, cap, w) && p < cap && IsSlotByte(x)
    ensures var d := SetCtrl(c, cap, w, p, x);
            && Layout(d, cap, w)
            && forall m :: 0 <= m < cap + w ==> d[m] == if m == p || m == p + cap + 1 then x else c[m]
  {
    var d := SetCtrl(c, cap, w, p, x);
    assert forall m :: 0 <= m < cap + w ==> d[m] == if m == p || m == p + cap + 1 then x else c[m];
    forall i | 0 <= i < cap
      ensures IsSlotByte(d[i])
    {
      assert IsSlotByte(c[i]);
    }
  }

  // ----- Reading a group

  /** A group load at `off` reads the ring: byte i of the group is the byte of the
      ring position (off + i) mod (cap + 1). Only a small table has bytes past the
      clones, and they are dummy empties. */
  lemma GroupReadsRing(c: seq<int>, cap: nat, w: nat, off: nat, i: nat)
    requires Layout(c, cap, w) && off <= cap && i < w
    ensures off + i <= 2 * cap ==> c[off + i] == c[(off + i) % (cap + 1)]
    ensures off + i > 2 * cap ==> IsSmall(cap, w) && c[off + i] == EMPTY
  {
    if off + i <= 2 * cap { Wrap(off + i, cap + 1); }
  }

  /** A group that covers slot p holds p's byte. */
  lemma GroupHoldsSlot(c: seq<int>, cap: nat, w: nat, off: nat, p: nat) returns (i: nat)
    requires Layout(c, cap, w) && off <= cap && p < cap
    requires InWindow(off, w, cap + 1, p)
    ensures i < w && c[off + i] == c[p] && (off + i == p || off + i == p + cap + 1)
  {
    i := if off <= p < off + w then p - off else p + cap + 1 - off;
  }

  /** In a small table every group covers every slot and holds a dummy empty. */
  lemma SmallGroup(c: seq<int>, cap: nat, w: nat, off: nat)
    requires Layout(c, cap, w) && off <= cap && IsSmall(cap, w)
    ensures HasEmpty(c, off, w)
    ensures forall p: nat {:trigger InWindow(off, w, cap + 1, p)} :: p < cap ==> InWindow(off, w, cap + 1, p)
  {
    var q := SmallRing(cap, w);
    LeMul(1, q, 2 * (cap + 1));
    assert IsEmpty(c[off + w - 1]);
  }
}

/**
 The open-addressing hash table. A slot is found through its control byte; probe
 windows are read as unaligned groups; erasing leaves a tombstone only where a
 probe may have passed; tombstones are dropped by rehashing in place.
 */
module HashTable {
  import opened Machine
  import opened Probing
  import opened ControlBytes
  import opened TableSpec
  import opened Capacity

  /** The first free slot in the probe order of h. */
  ghost predicate FirstFree(c: seq<int>, cap: nat, w: nat, h: nat, t: nat)
    requires cap + w <= |c|
  {
    exists j: nat :: FreeAt(c, cap, w, h, t, j)
  }

  ghost predicate SomeFree(c: seq<int>, cap: nat)
    requires cap <= |c|
  {
    exists p: nat :: p < cap && IsEmptyOrDeleted(c[p])
  }

  /** Growth accounting: live elements, tombstones and the growth that is left add
      up to what the capacity allows, and small tables have no tombstones. */
  ghost predicate Accounted(c: seq<int>, cap: nat, w: nat, size: nat, growthLeft: int)
    requires cap <= |c|
  {
    && growthLeft >= 0
    && size + Count(c, cap, DELETED) + growthLeft == CapacityToGrowth(cap, w)
    && (IsSmall(cap, w) ==> Count(c, cap, DELETED) == 0)
  }

  /** An unsuccessful search must come to a window with an empty byte. */
  lemma EmptyIsProbed(c: seq<int>, cap: nat, w: nat, h: nat) returns (j: nat)
    requires Layout(c, cap, w)
    requires IsSmall(cap, w) || exists p :: 0 <= p < cap && IsEmpty(c[p])
    ensures HasEmpty(c, Win(h, cap, w, j), w)
  {
    if IsSmall(cap, w) {
      j := 0;
      SmallGroup(c, cap, w, Win(h, cap, w, 0));
    } else {
      var p: nat :| p < cap && IsEmpty(c[p]);
      j := ProbeCovers(c, cap, w, h, p);
      var i := GroupHoldsSlot(c, cap, w, Win(h, cap, w, j), p);
    }
  }

  lemma FreeIsProbed(c: seq<int>, cap: nat, w: nat, h: nat) returns (j: nat)
    requires Layout(c, cap, w)
    requires IsSmall(cap, w) || SomeFree(c, cap)
    ensures HasFree(c, Win(h, cap, w, j), w)
  {
    if IsSmall(cap, w) {
      j := 0;
      SmallGroup(c, cap, w, Win(h, cap, w, 0));
    } else {
      var p: nat :| p < cap && IsEmptyOrDeleted(c[p]);
      j := ProbeCovers(c, cap, w, h, p);
      var i := GroupHoldsSlot(c, cap, w, Win(h, cap, w, j), p);
    }
  }

  /** A table that keeps its accounts always has an empty byte to stop a search. */
  lemma AccountedHasEmpty(c: seq<int>, cap: nat, w: nat, size: nat, growthLeft: int)
    requires Layout(c, cap, w) && Accounted(c, cap, w, size, growthLeft) && size == Count(c, cap, FULL)
    ensures IsSmall(cap, w) || exists p :: 0 <= p < cap && IsEmpty(c[p])
    ensures growthLeft > 0 ==> exists p :: 0 <= p < cap && IsEmpty(c[p])
  {
    CountTotal(c, cap);
    CountPositive(c, cap, EMPTY);
    if IsSmall(cap, w) {
      SmallGrowth(cap, w);
    } else {
      GrowthLeavesEmpty(cap, w);
    }
    if Count(c, cap, EMPTY) > 0 {
      var p :| 0 <= p < cap && Kind(c[p]) == EMPTY;
      assert IsEmpty(c[p]);
    }
  }

  /** The first n probe windows of the key hold no element with an equal key. */
  ghost predicate NotInWindows<K, T>(slots: seq<Slot<T>>, cap: nat, w: nat, pol: Policy<K, T>, key: K, n: nat)
    requires |slots| == cap
  {
    forall i: nat, p: nat :: i < n && p < cap && slots[p].Holds? && InWindow(Win(pol.hash(key), cap, w, i), w, cap + 1, p) ==>
      !pol.eq(pol.key(slots[p].elem), key)
  }

  /** A stored key lies in a window that its probe gets to. */
  lemma StoredKeyIsProbed<K(!new), T>(c: seq<int>, slots: seq<Slot<T>>, cap: nat, w: nat, pol: Policy<K, T>, key: K, p: nat)
    returns (i: nat)
    requires Lawful(pol) && Stored(c, slots, cap, w, pol)
    requires p < cap && slots[p].Holds? && pol.eq(pol.key(slots[p].elem), key)
    ensures c[p] == H2(pol.hash(key))
    ensures ReachAt(c, cap, w, pol.hash(key), p, i)
  {
    assert SlotOk(c, slots, cap, w, pol, p);
    i :| ReachAt(c, cap, w, pol.hash(key), p, i);
  }

  /** Once every window up to one with an empty byte has been searched, the key is
      known not to be in the table. */
  lemma SearchedAll<K(!new), T>(c: seq<int>, slots: seq<Slot<T>>, cap: nat, w: nat, pol: Policy<K, T>, key: K, j: nat)
    requires Lawful(pol) && Stored(c, slots, cap, w, pol)
    requires HasEmpty(c, Win(pol.hash(key), cap, w, j), w)
    requires NotInWindows(slots, cap, w, pol, key, j + 1)
    ensures !HasKey(Contents(slots), pol, key)
  {
    forall p: nat | p < cap && slots[p].Holds?
      ensures !pol.eq(pol.key(slots[p].elem), key)
    {
      if pol.eq(pol.key(slots[p].elem), key) {
        var i := StoredKeyIsProbed(c, slots, cap, w, pol, key, p);
      }
    }
  }

  /** The byte at position m is no match for the key. */
  ghost predicate NoMatchAt<K, T>(c: seq<int>, slots: seq<Slot<T>>, cap: nat, pol: Policy<K, T>, key: K, m: nat)
    requires m < |c| && |slots| == cap
  {
    c[m] == H2(pol.hash(key)) ==>
      var p := m % (cap + 1);
      p < cap && slots[p].Holds? && !pol.eq(pol.key(slots[p].elem), key)
  }

  /** No byte of the group at `off` is a match for the key. */
  ghost predicate NoMatchIn<K, T>(c: seq<int>, slots: seq<Slot<T>>, cap: nat, w: nat, pol: Policy<K, T>, key: K, off: nat)
    requires off + w <= |c| && |slots| == cap
  {
    forall m: nat :: off <= m < off + w ==> NoMatchAt(c, slots, cap, pol, key, m)
  }

  /** Searching the bytes that equal H2 finds every equal key of a window. */
  lemma SearchedWindow<K(!new), T>(c: seq<int>, slots: seq<Slot<T>>, cap: nat, w: nat, pol: Policy<K, T>, key: K, j: nat)
    requires Lawful(pol) && Stored(c, slots, cap, w, pol)
    requires NotInWindows(slots, cap, w, pol, key, j)
    requires NoMatchIn(c, slots, cap, w, pol, key, Win(pol.hash(key), cap, w, j))
    ensures NotInWindows(slots, cap, w, pol, key, j + 1)
  {
    var off := Win(pol.hash(key), cap, w, j);
    forall p: nat | p < cap && slots[p].Holds? && InWindow(off, w, cap + 1, p)
      ensures !pol.eq(pol.key(slots[p].elem), key)
    {
      if pol.eq(pol.key(slots[p].elem), key) {
        var i := GroupHoldsSlot(c, cap, w, off, p);
        assert NoMatchAt(c, slots, cap, pol, key, off + i);
        Wrap(off + i, cap + 1);
        var k := StoredKeyIsProbed(c, slots, cap, w, pol, key, p);
      }
    }
  }

  /** A search that has passed j windows without a match or an empty byte, and
      has a window with an empty byte before it. */
  ghost predicate Searching<K, T>(c: seq<int>, slots: seq<Slot<T>>, cap: nat, w: nat, pol: Policy<K, T>, key: K, j: nat, last: nat)
    requires |slots| == cap && cap + w <= |c|
  {
    && j <= last
    && NotInWindows(slots, cap, w, pol, key, j)
    && (forall i: nat :: i < j ==> !HasEmpty(c, Win(pol.hash(key), cap, w, i), w))
    && HasEmpty(c, Win(pol.hash(key), cap, w, last), w)
  }

  lemma SearchStep<K(!new), T>(c: seq<int>, slots: seq<Slot<T>>, cap: nat, w: nat, pol: Policy<K, T>, key: K, j: nat, last: nat)
    requires Lawful(pol) && Stored(c, slots, cap, w, pol) && Searching(c, slots, cap, w, pol, key, j, last)
    requires NoMatchIn(c, slots, cap, w, pol, key, Win(pol.hash(key), cap, w, j))
    ensures HasEmpty(c, Win(pol.hash(key), cap, w, j), w) ==> !HasKey(Contents(slots), pol, key)
    ensures !HasEmpty(c, Win(pol.hash(key), cap, w, j), w) ==> Searching(c, slots, cap, w, pol, key, j + 1, last)
  {
    SearchedWindow(c, slots, cap, w, pol, key, j);
    if HasEmpty(c, Win(pol.hash(key), cap, w, j), w) {
      SearchedAll(c, slots, cap, w, pol, key, j);
    }
  }

  lemma FullMatchIsSlot(c: seq<int>, cap: nat, w: nat, off: nat, i: nat)
    requires Layout(c, cap, w) && off <= cap && i < w && IsFull(c[off + i])
    ensures (off + i) % (cap + 1) < cap && c[(off + i) % (cap + 1)] == c[off + i]
  {
    GroupReadsRing(c, cap, w, off, i);
  }

  /** A marked byte, be the mark true or false, belongs to a slot with an element. */
  lemma MarkedIsSlot<K(!new), T>(c: seq<int>, s: seq<Slot<T>>, cap: nat, w: nat, pol: Policy<K, T>, off: nat, i: nat, h: int)
    requires Stored(c, s, cap, w, pol) && off <= cap && i < w && 0 <= h < 128 && Marked(c, off, h, i, w)
    ensures var p := (off + i) % (cap + 1); p < cap && s[p].Holds?
  {
    var j := FalseMark(c, off, h, i, w);
    FullMatchIsSlot(c, cap, w, off, i);
    assert SlotOk(c, s, cap, w, pol, (off + i) % (cap + 1));
  }

  /** The first i bytes of the group have been tried; the last of them was marked or not, and
      there was an empty one among them or not. */
  ghost predicate Searched<K, T>(c: seq<int>, s: seq<Slot<T>>, cap: nat, w: nat, pol: Policy<K, T>, key: K, off: nat, i: nat, marked: bool, empty: bool)
    requires off + w <= |c| && |s| == cap && i <= w
  {
    && (i > 0 ==> (marked <==> Marked(c, off, H2(pol.hash(key)), i - 1, w)))
    && (empty <==> exists m :: off <= m < off + i && IsEmpty(c[m]))
    && forall m: nat :: off <= m < off + i ==> NoMatchAt(c, s, cap, pol, key, m)
  }

  lemma NextMark<K, T>(c: seq<int>, s: seq<Slot<T>>, cap: nat, w: nat, pol: Policy<K, T>, key: K, off: nat, i: nat, marked: bool, empty: bool)
    requires off + w <= |c| && |s| == cap && i < w && Searched(c, s, cap, w, pol, key, off, i, marked, empty)
    ensures var h := H2(pol.hash(key));
            Marked(c, off, h, i, w) <==> c[off + i] == h || (w == 8 && i > 0 && c[off + i] == Flipped(h) && marked)
  {
  }

  lemma SearchedByte<K(!new), T>(c: seq<int>, s: seq<Slot<T>>, cap: nat, w: nat, pol: Policy<K, T>, key: K, off: nat, i: nat, marked: bool, empty: bool)
    requires Stored(c, s, cap, w, pol) && off <= cap && i < w && Searched(c, s, cap, w, pol, key, off, i, marked, empty)
    requires var p := (off + i) % (cap + 1);
             Marked(c, off, H2(pol.hash(key)), i, w) ==> p < cap && s[p].Holds? && !pol.eq(pol.key(s[p].elem), key)
    ensures Searched(c, s, cap, w, pol, key, off, i + 1, Marked(c, off, H2(pol.hash(key)), i, w), empty || IsEmpty(c[off + i]))
  {
    hide SlotOk, DistinctKeys;
  }

  /** i is the lowest byte of the group at `off` that is empty or deleted. */
  ghost predicate LowestFree(c: seq<int>, w: nat, off: nat, i: nat)
    requires off + w <= |c|
  {
    && i < w && IsEmptyOrDeleted(c[off + i])
    && forall m :: off <= m < off + i ==> !IsEmptyOrDeleted(c[m])
  }

  ghost predicate NoFreeBefore(c: seq<int>, cap: nat, w: nat, h: nat, j: nat)
    requires cap + w <= |c|
  {
    forall k: nat :: k < j ==> !HasFree(c, Win(h, cap, w, k), w)
  }

  lemma NoFreeStep(c: seq<int>, cap: nat, w: nat, h: nat, j: nat, last: nat)
    requires cap + w <= |c| && NoFreeBefore(c, cap, w, h, j) && j <= last
    requires !HasFree(c, Win(h, cap, w, j), w) && HasFree(c, Win(h, cap, w, last), w)
    ensures NoFreeBefore(c, cap, w, h, j + 1) && j + 1 <= last
  {
  }

  /** What `find_first_non_full` finds: the first free slot, or, in a small table
      without one, some index that is not a tombstone. */
  ghost predicate IsTarget(c: seq<int>, cap: nat, w: nat, h: nat, t: nat)
    requires 0 < w && cap + w <= |c|
  {
    && t <= cap
    && (SomeFree(c, cap) ==> FirstFree(c, cap, w, h, t))
    && (!SomeFree(c, cap) ==> !IsDeleted(c[t]))
  }

  /** The lowest free byte of the first window that has one stands for the first
      free slot; in a small table without a free slot it is a dummy. */
  lemma LowestFreeIsFirst(c: seq<int>, cap: nat, w: nat, h: nat, j: nat, i: nat, t: nat)
    requires Layout(c, cap, w)
    requires NoFreeBefore(c, cap, w, h, j)
    requires LowestFree(c, w, Win(h, cap, w, j), i)
    requires t == ProbeAt(H1(h), cap + 1, w, j).At(i)
    ensures IsTarget(c, cap, w, h, t)
  {
    var off := Win(h, cap, w, j);
    GroupReadsRing(c, cap, w, off, i);
    if off + i <= 2 * cap {
      Wrap(off + i, cap + 1);
      assert FreeAt(c, cap, w, h, t, j);
    } else {
      DummyMeansFull(c, cap, w, off, i);
    }
  }

  lemma DummyMeansFull(c: seq<int>, cap: nat, w: nat, off: nat, i: nat)
    requires Layout(c, cap, w) && off <= cap && LowestFree(c, w, off, i) && off + i > 2 * cap
    ensures !SomeFree(c, cap)
  {
    GroupReadsRing(c, cap, w, off, i);
    forall p: nat | p < cap
      ensures !IsEmptyOrDeleted(c[p])
    {
      SmallGroup(c, cap, w, off);
      var k := GroupHoldsSlot(c, cap, w, off, p);
    }
  }

  lemma CountSetCtrl(c: seq<int>, cap: nat, w: nat, p: nat, x: int, kind: int)
    requires Layout(c, cap, w) && p < cap && IsSlotByte(x)
    ensures Count(SetCtrl(c, cap, w, p, x), cap, kind) + (if Kind(c[p]) == kind then 1 else 0)
         == Count(c, cap, kind) + (if Kind(x) == kind then 1 else 0)
  {
    SetCtrlKeepsLayout(c, cap, w, p, x);
    CountUpdate(c, SetCtrl(c, cap, w, p, x), cap, p, kind);
  }

  lemma NotFullHasFree(c: seq<int>, cap: nat, w: nat)
    requires Layout(c, cap, w) && Count(c, cap, FULL) < cap
    ensures SomeFree(c, cap)
  {
    CountTotal(c, cap);
    CountPositive(c, cap, EMPTY);
    CountPositive(c, cap, DELETED);
    var p :| 0 <= p < cap && (Kind(c[p]) == EMPTY || Kind(c[p]) == DELETED);
    assert IsEmptyOrDeleted(c[p]);
  }

  lemma {:induction false} CountBelow(c: seq<int>, i: nat, n: nat, kind: int)
    requires i < n <= |c| && Kind(c[i]) == kind
    ensures Count(c, i, kind) < Count(c, n, kind)
  {
    if i < n - 1 { CountBelow(c, i, n - 1, kind); }
  }

  lemma PrefixContents<K(!new), T>(slots: seq<Slot<T>>, pol: Policy<K, T>, i: nat)
    requires Lawful(pol) && i < |slots| && DistinctKeys(slots, pol)
    ensures slots[i].Raw? ==> Contents(slots[..i + 1]) == Contents(slots[..i])
    ensures slots[i].Holds? ==>
              && Contents(slots[..i + 1]) == Contents(slots[..i]) + {slots[i].elem}
              && !HasKey(Contents(slots[..i]), pol, pol.key(slots[i].elem))
  {
    var a, b := slots[..i], slots[..i + 1];
    forall x | x in Contents(a)
      ensures x in Contents(b)
    {
      var p :| 0 <= p < i && a[p].Holds? && a[p].elem == x;
      assert b[p] == a[p];
    }
    forall x | x in Contents(b)
      ensures x in Contents(a) || (slots[i].Holds? && x == slots[i].elem)
    {
      var p :| 0 <= p < i + 1 && b[p].Holds? && b[p].elem == x;
      assert p < i ==> a[p] == b[p];
    }
    if slots[i].Holds? {
      assert b[i].Holds?;
    }
  }

  /** Every byte empty but the sentinel: a fresh table. */
  lemma FreshIsStored<K(!new), T>(c: seq<int>, slots: seq<Slot<T>>, cap: nat, w: nat, pol: Policy<K, T>)
    requires IsWidth(w) && IsRing(cap) && |c| >= cap + w && (cap > 0 ==> |c| == cap + w + 1)
    requires c[cap] == SENTINEL && forall m :: 0 <= m < cap + w && m != cap ==> c[m] == EMPTY
    requires |slots| == cap && forall p :: 0 <= p < cap ==> slots[p].Raw?
    ensures Stored(c, slots, cap, w, pol) && Contents(slots) == {}
    ensures Count(c, cap, FULL) == 0 && Count(c, cap, DELETED) == 0
  {
    CountPositive(c, cap, FULL);
    CountPositive(c, cap, DELETED);
    forall p: nat | p < cap
      ensures SlotOk(c, slots, cap, w, pol, p)
    {
    }
  }

  // ----- Rehashing in place

  /** d is c with tombstones made empty and full bytes marked as not yet placed. */
  ghost predicate Converted(c: seq<int>, d: seq<int>, cap: nat, w: nat) {
    && cap <= |c| && Layout(d, cap, w)
    && forall p :: 0 <= p < cap ==> d[p] == ConvertByte(c[p])
  }

  function ConvertByte(b: int): int { if IsFull(b) then DELETED else EMPTY }

  /** The bytes before pos are converted. */
  ghost function ConvertedTo(c: seq<int>, pos: nat): seq<int> {
    seq(|c|, m requires 0 <= m < |c| => if m < pos then ConvertByte(c[m]) else c[m])
  }

  lemma {:induction false} ConvertCounts(c: seq<int>, d: seq<int>, n: nat)
    requires n <= |c| && n <= |d| && forall p :: 0 <= p < n ==> d[p] == ConvertByte(c[p])
    ensures Count(d, n, EMPTY) + Count(c, n, FULL) == n
  {
    if n > 0 { ConvertCounts(c, d, n - 1); }
  }

  /** What the in-place pass keeps: slots below i are settled, the elements are the
      same, and there are as many empty bytes as there are raw slots. */
  ghost predicate PassInv<K, T>(c: seq<int>, s: seq<Slot<T>>, cap: nat, w: nat, pol: Policy<K, T>, i: nat, elems: set<T>, size: nat) {
    && InPass(c, s, cap, w, pol) && i <= cap
    && Contents(s) == elems
    && Count(c, cap, EMPTY) + size == cap
    && forall p :: 0 <= p < i ==> !IsDeleted(c[p])
  }

  lemma PassStarts<K(!new), T>(c: seq<int>, d: seq<int>, s: seq<Slot<T>>, cap: nat, w: nat, pol: Policy<K, T>)
    requires Stored(c, s, cap, w, pol) && !IsSmall(cap, w) && Converted(c, d, cap, w)
    ensures PassInv(d, s, cap, w, pol, 0, Contents(s), Count(c, cap, FULL))
  {
    ConvertCounts(c, d, cap);
    forall p: nat | p < cap
      ensures PassSlotOk(d, s, cap, w, pol, p)
    {
      assert SlotOk(c, s, cap, w, pol, p);
    }
  }

  /** Slot i holds an element not placed yet, and t is its target. */
  ghost predicate PassTarget<K, T>(c: seq<int>, s: seq<Slot<T>>, cap: nat, w: nat, pol: Policy<K, T>, i: nat, t: nat)
    requires cap + w <= |c| && |s| == cap
  {
    && i < cap && IsDeleted(c[i]) && s[i].Holds?
    && FirstFree(c, cap, w, HashOf(pol, s[i].elem), t)
  }

  lemma FirstFreeIsTight(c: seq<int>, cap: nat, w: nat, h: nat, t: nat)
    requires cap + w <= |c| && FirstFree(c, cap, w, h, t)
    ensures t < cap && IsEmptyOrDeleted(c[t]) && Tight(c, cap, w, h, t)
  {
    var j: nat :| FreeAt(c, cap, w, h, t, j);
    assert TightAt(c, cap, w, h, t, j);
  }

  /** A slot in the same probe window as the target is as good as the target. */
  lemma SameWindowIsTight(c: seq<int>, cap: nat, w: nat, h: nat, t: nat, i: nat)
    requires Layout(c, cap, w) && !IsSmall(cap, w) && i < cap && FirstFree(c, cap, w, h, t)
    requires ProbeIndex(ProbeStart(h, cap), w, cap + 1, t) == ProbeIndex(ProbeStart(h, cap), w, cap + 1, i)
    ensures Tight(c, cap, w, h, i)
  {
    var j: nat :| FreeAt(c, cap, w, h, t, j);
    var k := LargeRing(cap, w);
    ProbeClosedForm(H1(h), cap + 1, w, j);
    SameProbeIndexSameWindow(ProbeStart(h, cap), w, Pow2(k), j, t, i);
    assert TightAt(c, cap, w, h, i, j);
  }

  /** The element stays: its slot becomes full. */
  lemma PassStay<K(!new), T>(c: seq<int>, s: seq<Slot<T>>, cap: nat, w: nat, pol: Policy<K, T>, i: nat, t: nat, elems: set<T>, size: nat)
    requires PassInv(c, s, cap, w, pol, i, elems, size) && PassTarget(c, s, cap, w, pol, i, t)
    requires var start := ProbeStart(HashOf(pol, s[i].elem), cap);
             ProbeIndex(start, w, cap + 1, t) == ProbeIndex(start, w, cap + 1, i)
    ensures var d := SetCtrl(c, cap, w, i, H2(HashOf(pol, s[i].elem)));
            PassInv(d, s, cap, w, pol, i + 1, elems, size) && Count(d, cap, DELETED) < Count(c, cap, DELETED)
  {
    var h := HashOf(pol, s[i].elem);
    SameWindowIsTight(c, cap, w, h, t, i);
    PassStep(c, s, s, cap, w, pol, i, H2(h));
    SetCtrlKeepsLayout(c, cap, w, i, H2(h));
    CountSetCtrl(c, cap, w, i, H2(h), EMPTY);
    CountSetCtrl(c, cap, w, i, H2(h), DELETED);
  }

  /** The element changes places with the unplaced element at the target. */
  lemma PassSwap<K(!new), T>(c: seq<int>, s: seq<Slot<T>>, cap: nat, w: nat, pol: Policy<K, T>, i: nat, t: nat, elems: set<T>, size: nat)
    requires Lawful(pol) && PassInv(c, s, cap, w, pol, i, elems, size) && PassTarget(c, s, cap, w, pol, i, t)
    requires t < cap && IsDeleted(c[t]) && t != i
    ensures var d := SetCtrl(c, cap, w, t, H2(HashOf(pol, s[i].elem)));
            PassInv(d, s[i := s[t]][t := s[i]], cap, w, pol, i, elems, size) && Count(d, cap, DELETED) < Count(c, cap, DELETED)
  {
    var h := HashOf(pol, s[i].elem);
    FirstFreeIsTight(c, cap, w, h, t);
    SwapSlots(s, pol, i, t);
    assert PassSlotOk(c, s, cap, w, pol, t);
    PassStep(c, s, s[i := s[t]][t := s[i]], cap, w, pol, t, H2(h));
    SetCtrlKeepsLayout(c, cap, w, t, H2(h));
    CountSetCtrl(c, cap, w, t, H2(h), EMPTY);
    CountSetCtrl(c, cap, w, t, H2(h), DELETED);
  }

  /** The element moves to the empty target and leaves its slot empty. */
  lemma PassMove<K(!new), T>(c: seq<int>, s: seq<Slot<T>>, cap: nat, w: nat, pol: Policy<K, T>, i: nat, t: nat, elems: set<T>, size: nat)
    requires Lawful(pol) && PassInv(c, s, cap, w, pol, i, elems, size) && PassTarget(c, s, cap, w, pol, i, t)
    requires t < cap && IsEmpty(c[t])
    ensures var d := SetCtrl(SetCtrl(c, cap, w, t, H2(HashOf(pol, s[i].elem))), cap, w, i, EMPTY);
            PassInv(d, s[t := s[i]][i := Raw], cap, w, pol, i + 1, elems, size) && Count(d, cap, DELETED) < Count(c, cap, DELETED)
  {
    var h := HashOf(pol, s[i].elem);
    assert PassSlotOk(c, s, cap, w, pol, t);
    var c', s' := VacateSlot(c, s, cap, w, pol, i, t);
    FirstFreeIsTight(c, cap, w, h, t);
    TightMonotone(c, c', cap, w, h, t);
    SwapSlots(s, pol, i, t);
    var s'' := s[t := s[i]][i := Raw];
    assert s'' == s[i := s[t]][t := s[i]];
    SetCtrlCommutes(c, cap, w, i, t, EMPTY, H2(h));
    FillVacant(c', s', s'', cap, w, pol, t, h);
  }

  lemma FillVacant<K(!new), T>(c: seq<int>, s: seq<Slot<T>>, s': seq<Slot<T>>, cap: nat, w: nat, pol: Policy<K, T>, t: nat, h: nat)
    requires InPass(c, s, cap, w, pol) && t < cap && IsEmpty(c[t])
    requires |s'| == cap && DistinctKeys(s', pol) && s'[t].Holds? && h == HashOf(pol, s'[t].elem)
    requires forall q :: 0 <= q < cap && q != t ==> s'[q] == s[q]
    requires Tight(c, cap, w, h, t)
    ensures var d := SetCtrl(c, cap, w, t, H2(h));
            && InPass(d, s', cap, w, pol)
            && (forall p :: 0 <= p < cap ==> d[p] == if p == t then H2(h) else c[p])
            && Count(d, cap, EMPTY) + 1 == Count(c, cap, EMPTY) && Count(d, cap, DELETED) == Count(c, cap, DELETED)
  {
    PassStep(c, s, s', cap, w, pol, t, H2(h));
    SetCtrlKeepsLayout(c, cap, w, t, H2(h));
    CountSetCtrl(c, cap, w, t, H2(h), EMPTY);
    CountSetCtrl(c, cap, w, t, H2(h), DELETED);
  }

  lemma VacateSlot<K(!new), T>(c: seq<int>, s: seq<Slot<T>>, cap: nat, w: nat, pol: Policy<K, T>, i: nat, t: nat)
    returns (c': seq<int>, s': seq<Slot<T>>)
    requires Lawful(pol) && InPass(c, s, cap, w, pol) && i < cap && IsDeleted(c[i]) && t < cap && IsEmpty(c[t])
    ensures c' == SetCtrl(c, cap, w, i, EMPTY) && s' == s[i := Raw]
    ensures InPass(c', s', cap, w, pol) && NoNewFree(c, c', cap, w)
    ensures IsEmpty(c'[t]) && (forall p :: 0 <= p < cap && p != i ==> c'[p] == c[p]) && IsEmpty(c'[i])
    ensures Count(c', cap, EMPTY) == Count(c, cap, EMPTY) + 1 && Count(c', cap, DELETED) + 1 == Count(c, cap, DELETED)
  {
    assert PassSlotOk(c, s, cap, w, pol, i);
    SetCtrlKeepsLayout(c, cap, w, i, EMPTY);
    c', s' := SetCtrl(c, cap, w, i, EMPTY), s[i := Raw];
    RemoveContents(s, pol, i);
    PassStep(c, s, s', cap, w, pol, i, EMPTY);
    FreeSlotNoNewFree(c, cap, w, i, EMPTY);
    CountSetCtrl(c, cap, w, i, EMPTY, EMPTY);
    CountSetCtrl(c, cap, w, i, EMPTY, DELETED);
  }

  lemma SetCtrlCommutes(c: seq<int>, cap: nat, w: nat, i: nat, t: nat, x: int, y: int)
    requires Layout(c, cap, w) && i < cap && t < cap && i != t
    ensures SetCtrl(SetCtrl(c, cap, w, i, x), cap, w, t, y) == SetCtrl(SetCtrl(c, cap, w, t, y), cap, w, i, x)
  {
  }

  // ----- Inserting and rehashing

  /** A slot is reserved for a new element: size and growth are already charged. */
  ghost predicate Prepared<K, T>(c: seq<int>, s: seq<Slot<T>>, cap: nat, w: nat, pol: Policy<K, T>, size: nat, growthLeft: int, h: nat, t: nat) {
    && Stored(c, s, cap, w, pol) && FirstFree(c, cap, w, h, t) && t < cap
    && size == Count(c, cap, FULL) + 1
    && growthLeft >= 0
    && size + Count(c, cap, DELETED) + growthLeft == CapacityToGrowth(cap, w) + (if IsDeleted(c[t]) then 1 else 0)
    && (IsSmall(cap, w) ==> Count(c, cap, DELETED) == 0)
  }

  lemma AccountedHasFree(c: seq<int>, cap: nat, w: nat, size: nat, growthLeft: int)
    requires Layout(c, cap, w) && Accounted(c, cap, w, size, growthLeft) && size == Count(c, cap, FULL)
    ensures IsSmall(cap, w) || SomeFree(c, cap)
    ensures growthLeft > 0 ==> SomeFree(c, cap)
  {
    AccountedHasEmpty(c, cap, w, size, growthLeft);
    if p :| 0 <= p < cap && IsEmpty(c[p]) {
      assert IsEmptyOrDeleted(c[p]);
    }
  }

  lemma ErasedByteMeans(c: seq<int>, cap: nat, w: nat, p: nat)
    requires Layout(c, cap, w) && p < cap && IsFull(c[p])
    ensures ErasedByte(c, cap, w, p) == if IsSmall(cap, w) || EveryWindowHasEmpty(c, cap, w, p) then EMPTY else DELETED
  {
    if IsSmall(cap, w) {
      SmallWasNeverFull(c, cap, w, p);
    } else {
      WasNeverFullIff(c, cap, w, p);
    }
  }

  /** Only one live element has a given key. */
  lemma OnlyEqualKey<K(!new), T>(slots: seq<Slot<T>>, pol: Policy<K, T>, key: K, p: nat)
    requires Lawful(pol) && DistinctKeys(slots, pol)
    requires p < |slots| && slots[p].Holds? && pol.eq(pol.key(slots[p].elem), key)
    ensures Contents(slots) - {slots[p].elem} == set e | e in Contents(slots) && !pol.eq(pol.key(e), key)
  {
    forall q: nat | q < |slots| && q != p && slots[q].Holds?
      ensures !pol.eq(pol.key(slots[q].elem), key)
    {
      var a, b := if q < p then q else p, if q < p then p else q;
      assert !pol.eq(pol.key(slots[a].elem), pol.key(slots[b].elem));
    }
  }

  lemma ElementsEmpty<K(!new), T>(c: seq<int>, slots: seq<Slot<T>>, cap: nat, w: nat, pol: Policy<K, T>)
    requires Stored(c, slots, cap, w, pol) && Count(c, cap, FULL) == 0
    ensures Contents(slots) == {}
  {
    CountPositive(c, cap, FULL);
    forall p: nat | p < cap
      ensures slots[p].Raw?
    {
      assert SlotOk(c, slots, cap, w, pol, p);
      assert Kind(c[p]) != FULL;
    }
  }

  lemma EmptyRehash(w: nat)
    ensures RehashAccounts(0, 0, w)
  {
  }

  lemma RehashTarget(n: nat, size: nat, m: nat, cap: nat, w: nat)
    requires IsWidth(w) && IsNormalized(if n < size then size else n, m) && size <= CapacityToGrowth(cap, w)
    requires n == 0 || m > cap
    ensures size <= CapacityToGrowth(m, w) <==> RehashAccounts(n, size, w)
  {
    if n > 0 {
      GrowthMonotone(cap, m, w);
    } else {
      forall m': nat | IsNormalized(size, m')
        ensures m' == m
      {
        NormalizedUnique(size, m, m');
      }
    }
  }

  /** Charging the target's slot: a tombstone is free, an empty slot takes growth. */
  lemma ChargeSlot<K(!new), T>(c: seq<int>, s: seq<Slot<T>>, cap: nat, w: nat, pol: Policy<K, T>, size: nat, growthLeft: int, h: nat, t: nat)
    requires Stored(c, s, cap, w, pol) && Accounted(c, cap, w, size, growthLeft) && size == Count(c, cap, FULL)
    requires IsTarget(c, cap, w, h, t) && (growthLeft > 0 || IsDeleted(c[t]))
    ensures Prepared(c, s, cap, w, pol, size + 1, growthLeft - (if IsEmpty(c[t]) then 1 else 0), h, t)
  {
    AccountedHasFree(c, cap, w, size, growthLeft);
    FirstFreeIsTight(c, cap, w, h, t);
    CountPositive(c, cap, DELETED);
  }

  /** There is no growth left, and the first free slot of the hash is no tombstone. */
  ghost predicate Exhausted(c: seq<int>, cap: nat, w: nat, growthLeft: int, h: nat)
    requires cap + w <= |c|
  {
    growthLeft == 0 && !exists t: nat :: t < cap && IsDeleted(c[t]) && FirstFree(c, cap, w, h, t)
  }

  lemma ExhaustedIff(c: seq<int>, cap: nat, w: nat, size: nat, growthLeft: int, h: nat, t: nat)
    requires Layout(c, cap, w) && Accounted(c, cap, w, size, growthLeft) && IsTarget(c, cap, w, h, t)
    ensures Exhausted(c, cap, w, growthLeft, h) <==> growthLeft == 0 && !IsDeleted(c[t])
  {
    if u: nat :| u < cap && IsDeleted(c[u]) && FirstFree(c, cap, w, h, u) {
      CountPositive(c, cap, DELETED);
      assert SomeFree(c, cap) && FirstFree(c, cap, w, h, t);
      var i, j :| FreeAt(c, cap, w, h, t, i) && FreeAt(c, cap, w, h, u, j);
      FirstFreeUnique(c, cap, w, h, t, i, u, j);
    } else if SomeFree(c, cap) {
      assert FirstFree(c, cap, w, h, t);
    }
  }

  /** A table that must grow but is at most half full has tombstones, so it is
      not small. */
  lemma HalfFullIsLarge(c: seq<int>, cap: nat, w: nat, size: nat)
    requires Layout(c, cap, w) && cap > 0 && Accounted(c, cap, w, size, 0)
    requires size <= CapacityToGrowth(cap, w) / 2
    ensures !IsSmall(cap, w)
  {
    if IsSmall(cap, w) { SmallGrowth(cap, w); }
  }

  /** `rehash` keeps the accounts: always for n > 0, and for n = 0 exactly when the
      capacity rounded up from the size allows that many elements. */
  ghost predicate RehashAccounts(n: nat, size: nat, w: nat) {
    n > 0 || forall m: nat :: IsNormalized(size, m) ==> size <= CapacityToGrowth(m, w)
  }

  /** In a large table without an empty slot, no window of any probe has an empty
      byte: an unsuccessful search never stops. */
  lemma FullTableNeverStops(c: seq<int>, cap: nat, w: nat, h: nat, j: nat)
    requires Layout(c, cap, w) && !IsSmall(cap, w)
    requires forall p :: 0 <= p < cap ==> !IsEmpty(c[p])
    ensures !HasEmpty(c, Win(h, cap, w, j), w)
  {
    var off := Win(h, cap, w, j);
    forall m | off <= m < off + w
      ensures !IsEmpty(c[m])
    {
      GroupReadsRing(c, cap, w, off, m - off);
      Wrap(m, cap + 1);
    }
  }

  /** The capacity becomes the least valid one for n, unless it is as large already. */
  ghost predicate GrownTo(n: nat, before: nat, after: nat) {
    exists m: nat :: IsNormalized(n, m) && after == if m > before then m else before
  }

  lemma RehashGrows(n: nat, size: nat, m: nat, cap: nat, w: nat)
    requires IsRing(cap) && size <= CapacityToGrowth(cap, w) && IsNormalized(if n < size then size else n, m)
    ensures GrownTo(n, cap, if m > cap then m else cap)
  {
    if n < size {
      assert IsValidCapacity(cap);
      var least := NormalizedExists(n);
      assert least <= cap;
    }
  }

  lemma ReserveGrows(n: size_t, before: nat, after: nat, w: nat)
    requires IsWidth(w) && GrownTo(GrowthToLowerboundCapacity(n, w), before, after)
    ensures n <= CapacityToGrowth(after, w) <==> ReserveSuffices(n) || n <= CapacityToGrowth(before, w)
  {
    var m: nat :| IsNormalized(GrowthToLowerboundCapacity(n, w), m) && after == if m > before then m else before;
    ReserveIsLeast(n, m, w);
    GrowthMonotone(m, after, w);
    GrowthMonotone(before, after, w);
  }

  /** Some window of the probe for the hash h has an empty byte. A search for a key that is
      not in the table goes on to the next window until then. */
  ghost predicate ProbeStops(c: seq<int>, cap: nat, w: nat, h: nat)
    requires Layout(c, cap, w)
  {
    exists j: nat :: HasEmpty(c, Win(h, cap, w, j), w)
  }

  lemma ProbeStopsIff(c: seq<int>, cap: nat, w: nat, h: nat)
    requires Layout(c, cap, w)
    ensures ProbeStops(c, cap, w, h) <==> IsSmall(cap, w) || exists p :: 0 <= p < cap && IsEmpty(c[p])
  {
    if IsSmall(cap, w) || exists p :: 0 <= p < cap && IsEmpty(c[p]) {
      var j := EmptyIsProbed(c, cap, w, h);
    } else {
      forall j: nat
        ensures !HasEmpty(c, Win(h, cap, w, j), w)
      {
        FullTableNeverStops(c, cap, w, h, j);
      }
    }
  }

  /** After `rehash(0)` searches for absent keys end, unless the size is itself a valid
      capacity of at least one group. */
  ghost predicate RehashZeroStops(size: nat, w: nat) { !IsValidCapacity(size) || IsSmall(size, w) }

  /** A table that was sized for just its elements is full iff their number is a capacity. */
  lemma SizedForElements(c: seq<int>, cap: nat, w: nat, size: nat, h: nat)
    requires Layout(c, cap, w) && size == Count(c, cap, FULL) && Count(c, cap, DELETED) == 0 && IsNormalized(size, cap)
    ensures ProbeStops(c, cap, w, h) <==> RehashZeroStops(size, w)
  {
    ProbeStopsIff(c, cap, w, h);
    CountTotal(c, cap);
    CountPositive(c, cap, EMPTY);
    assert (exists p :: 0 <= p < cap && IsEmpty(c[p])) <==> exists p :: 0 <= p < cap && Kind(c[p]) == EMPTY;
  }

  /** The full bytes of the first n slots are as many as the elements there. */
  lemma {:induction false} CountIsCardinality<K(!new), T>(c: seq<int>, slots: seq<Slot<T>>, cap: nat, w: nat, pol: Policy<K, T>, n: nat)
    requires Lawful(pol) && Stored(c, slots, cap, w, pol) && n <= cap
    ensures |Contents(slots[..n])| == Count(c, n, FULL)
  {
    if n > 0 {
      CountIsCardinality(c, slots, cap, w, pol, n - 1);
      assert SlotOk(c, slots, cap, w, pol, n - 1);
      hide Stored, SlotOk, DistinctKeys, Lawful;
      PrefixSize(c, slots, cap, w, pol, n - 1);
    } else {
      assert Contents(slots[..0]) == {};
    }
  }

  lemma PrefixSize<K(!new), T>(c: seq<int>, slots: seq<Slot<T>>, cap: nat, w: nat, pol: Policy<K, T>, i: nat)
    requires Lawful(pol) && Stored(c, slots, cap, w, pol) && i < cap
    ensures |Contents(slots[..i + 1])| == |Contents(slots[..i])| + if slots[i].Holds? then 1 else 0
    ensures slots[i].Holds? <==> Kind(c[i]) == FULL
  {
    PrefixContents(slots, pol, i);
    assert SlotOk(c, slots, cap, w, pol, i);
    if slots[i].Holds? {
      var e := slots[i].elem;
      assert pol.eq(pol.key(e), pol.key(e));
      assert e !in Contents(slots[..i]);
    }
  }

  class RawHashSet<K(!new), T> {
    const w: nat
    const pol: Policy<K, T>
    var ctrl: array<int>
    var slots: array<Slot<T>>
    var size: nat
    var capacity: nat
    var growthLeft: int

    /** The structure is sound: every element is where its probe finds it. */
    ghost predicate Linked()
      reads this, ctrl, slots
    {
      && Lawful(pol)
      && Stored(ctrl[..], slots[..], capacity, w, pol)
      && size == Count(ctrl[..], capacity, FULL)
    }

    ghost predicate Valid()
      reads this, ctrl, slots
    {
      Linked() && Accounted(ctrl[..], capacity, w, size, growthLeft)
    }

    ghost function Elements(): set<T>
      reads this, slots
    {
      Contents(slots[..])
    }

    /** `size_` is the number of elements. */
    lemma SizeIsCardinality()
      requires Linked()
      ensures size == |Elements()|
    {
      CountIsCardinality(ctrl[..], slots[..], capacity, w, pol, capacity);
      assert slots[..][..capacity] == slots[..];
    }

    constructor (width: nat, policy: Policy<K, T>)
      requires IsWidth(width) && Lawful(policy)
      ensures Valid() && fresh(ctrl) && fresh(slots)
      ensures w == width && pol == policy && capacity == 0 && Elements() == {}
    {
      w, pol := width, policy;
      ctrl := new int[16](i => if i == 0 then SENTINEL else EMPTY);
      slots := new Slot<T>[0];
      size, capacity, growthLeft := 0, 0, 0;
      new;
      assert Pow2(0) == 1;
    }

    /** Loads the group at `off`, tries the slots whose bytes are marked as a match for H2 of
        the hash, false matches included, and tells whether the group has an empty byte. */
    method SearchGroup(off: nat, key: K, hashval: nat) returns (found: bool, offset: nat, empty: bool)
      requires Linked() && hashval == pol.hash(key) && off <= capacity
      ensures found ==> offset < capacity && slots[offset].Holds? && pol.eq(pol.key(slots[offset].elem), key)
      ensures found ==> HasKey(Elements(), pol, key)
      ensures !found ==> NoMatchIn(ctrl[..], slots[..], capacity, w, pol, key, off)
      ensures !found ==> (empty <==> HasEmpty(ctrl[..], off, w))
    {
      ghost var c, s := ctrl[..], slots[..];
      var h, marked := H2(hashval), false;
      found, offset, empty := false, 0, false;
      for i := 0 to w
        invariant Searched(c, s, capacity, w, pol, key, off, i, marked, empty)
      {
        hide Searched, Stored, Count, Marked, H2;
        ghost var before := marked;
        marked := ctrl[off + i] == h || (w == 8 && i > 0 && ctrl[off + i] == Flipped(h) && marked);
        NextMark(c, s, capacity, w, pol, key, off, i, before, empty);
        if marked {
          MarkedIsSlot(c, s, capacity, w, pol, off, i, h);
          offset := (off + i) % (capacity + 1);
          if pol.eq(pol.key(slots[offset].elem), key) {
            assert slots[offset].elem in Elements();
            return true, offset, empty;
          }
        }
        SearchedByte(c, s, capacity, w, pol, key, off, i, before, empty);
        if IsEmpty(ctrl[off + i]) { empty := true; }
      }
    }

    method FindImpl(key: K, hashval: nat) returns (found: bool, offset: nat)
      requires Valid() && hashval == pol.hash(key)
      ensures found <==> HasKey(Elements(), pol, key)
      ensures found ==> offset < capacity && slots[offset].Holds? && pol.eq(pol.key(slots[offset].elem), key)
    {
      ghost var c, s := ctrl[..], slots[..];
      AccountedHasEmpty(c, capacity, w, size, growthLeft);
      ghost var last := EmptyIsProbed(c, capacity, w, hashval);
      var probe := Probe(H1(hashval), capacity + 1);
      ghost var j: nat := 0;
      while true
        invariant probe == ProbeAt(H1(hashval), capacity + 1, w, j)
        invariant Searching(c, s, capacity, w, pol, key, j, last)
        decreases last - j
      {
        var empty;
        found, offset, empty := SearchGroup(probe.offset, key, hashval);
        if found {
          return;
        }
        SearchStep(c, s, capacity, w, pol, key, j, last);
        if empty {
          return;
        }
        probe := probe.Next(w);
        j := j + 1;
      }
    }
  
    /** The lowest empty or deleted byte of the group at `off`, if it has one. */
    method MatchLowestFree(off: nat) returns (any: bool, i: nat)
      requires w > 0 && off + w <= ctrl.Length
      ensures any <==> HasFree(ctrl[..], off, w)
      ensures any ==> LowestFree(ctrl[..], w, off, i)
    {
      i := 0;
      while i < w
        invariant 0 <= i <= w
        invariant forall m :: off <= m < off + i ==> !IsEmptyOrDeleted(ctrl[m])
      {
        if IsEmptyOrDeleted(ctrl[off + i]) {
          assert IsEmptyOrDeleted(ctrl[..][off + i]);
          return true, i;
        }
        i := i + 1;
      }
      return false, 0;
    }

    /** Looks for the target in the j-th window of the probe. */
    method TargetInGroup(hashval: nat, probe: ProbeSeq, ghost j: nat) returns (any: bool, target: nat)
      requires Layout(ctrl[..], capacity, w) && NoFreeBefore(ctrl[..], capacity, w, hashval, j)
      requires probe == ProbeAt(H1(hashval), capacity + 1, w, j)
      ensures any ==> IsTarget(ctrl[..], capacity, w, hashval, target)
      ensures !any ==> !HasFree(ctrl[..], Win(hashval, capacity, w, j), w)
    {
      var i;
      any, i := MatchLowestFree(probe.offset);
      target := 0;
      if any {
        target := probe.At(i);
        LowestFreeIsFirst(ctrl[..], capacity, w, hashval, j, i, target);
      }
    }

    method FindFirstNonFull(hashval: nat) returns (target: nat)
      requires Layout(ctrl[..], capacity, w)
      requires IsSmall(capacity, w) || SomeFree(ctrl[..], capacity)
      ensures IsTarget(ctrl[..], capacity, w, hashval, target)
    {
      ghost var last := FreeIsProbed(ctrl[..], capacity, w, hashval);
      var probe := Probe(H1(hashval), capacity + 1);
      ghost var j: nat := 0;
      while true
        invariant probe == ProbeAt(H1(hashval), capacity + 1, w, j)
        invariant j <= last && NoFreeBefore(ctrl[..], capacity, w, hashval, j)
        decreases last - j
      {
        var any;
        any, target := TargetInGroup(hashval, probe, j);
        if any {
          return;
        }
        NoFreeStep(ctrl[..], capacity, w, hashval, j, last);
        probe := probe.Next(w);
        j := j + 1;
      }
    }

    /** Writes the byte of slot i and its clone. */
    method SetCtrlByte(i: nat, h: int)
      requires Layout(ctrl[..], capacity, w) && i < capacity && IsSlotByte(h)
      modifies ctrl
      ensures ctrl[..] == SetCtrl(old(ctrl[..]), capacity, w, i, h)
      ensures Layout(ctrl[..], capacity, w)
    {
      SetCtrlKeepsLayout(ctrl[..], capacity, w, i, h);
      ctrl[i] := h;
      MirrorIsClone(i, capacity, w);
      ctrl[Mirror(i, capacity, w)] := h;
    }
  
    /** Fresh storage: all bytes empty, the sentinel in place, all slots raw. */
    method InitializeSlots(newCapacity: nat)
      requires IsWidth(w) && IsValidCapacity(newCapacity)
      modifies this
      ensures fresh(ctrl) && fresh(slots) && capacity == newCapacity && size == old(size)
      ensures Stored(ctrl[..], slots[..], capacity, w, pol) && Elements() == {}
      ensures Count(ctrl[..], capacity, FULL) == 0 && Count(ctrl[..], capacity, DELETED) == 0
      ensures growthLeft == SubWrap(CapacityToGrowth(capacity, w), size)
    {
      ctrl := new int[newCapacity + w + 1](i => EMPTY);
      slots := new Slot<T>[newCapacity](i => Raw);
      ctrl[newCapacity] := SENTINEL;
      capacity := newCapacity;
      growthLeft := SubWrap(CapacityToGrowth(newCapacity, w), size);
      FreshIsStored(ctrl[..], slots[..], capacity, w, pol);
    }

    /** Puts an element that is known to be new into the first free slot. */
    method Place(e: T)
      requires Lawful(pol) && Stored(ctrl[..], slots[..], capacity, w, pol)
      requires !HasKey(Elements(), pol, pol.key(e))
      requires Count(ctrl[..], capacity, FULL) < capacity && Count(ctrl[..], capacity, DELETED) == 0
      modifies ctrl, slots
      ensures Stored(ctrl[..], slots[..], capacity, w, pol) && Elements() == old(Elements()) + {e}
      ensures Count(ctrl[..], capacity, FULL) == old(Count(ctrl[..], capacity, FULL)) + 1
      ensures Count(ctrl[..], capacity, DELETED) == 0
    {
      ghost var c, s := ctrl[..], slots[..];
      NotFullHasFree(c, capacity, w);
      var hashval := pol.hash(pol.key(e));
      var target := FindFirstNonFull(hashval);
      ghost var j: nat :| FreeAt(c, capacity, w, hashval, target, j);
      InsertKeepsStored(c, s, capacity, w, pol, target, j, e);
      CountSetCtrl(c, capacity, w, target, H2(hashval), FULL);
      CountSetCtrl(c, capacity, w, target, H2(hashval), DELETED);
      SetCtrlByte(target, H2(hashval));
      slots[target] := Holds(e);
      assert slots[..] == s[target := Holds(e)];
    }

    /** Places every element of another table's arrays into this empty table. */
    method PlaceAll(fromCtrl: array<int>, fromSlots: array<Slot<T>>, n: nat)
      requires Lawful(pol) && Stored(fromCtrl[..], fromSlots[..], n, w, pol)
      requires Stored(ctrl[..], slots[..], capacity, w, pol) && Elements() == {}
      requires Count(ctrl[..], capacity, FULL) == 0 && Count(ctrl[..], capacity, DELETED) == 0
      requires Count(fromCtrl[..], n, FULL) <= capacity && fromCtrl != ctrl && fromSlots != slots
      modifies ctrl, slots
      ensures Stored(ctrl[..], slots[..], capacity, w, pol) && Elements() == Contents(fromSlots[..])
      ensures Count(ctrl[..], capacity, FULL) == Count(fromCtrl[..], n, FULL)
      ensures Count(ctrl[..], capacity, DELETED) == 0
    {
      ghost var c, s := fromCtrl[..], fromSlots[..];
      for i := 0 to n
        invariant fromCtrl[..] == c && fromSlots[..] == s
        invariant Stored(ctrl[..], slots[..], capacity, w, pol)
        invariant Elements() == Contents(s[..i])
        invariant Count(ctrl[..], capacity, FULL) == Count(c, i, FULL)
        invariant Count(ctrl[..], capacity, DELETED) == 0
      {
        assert SlotOk(c, s, n, w, pol, i);
        PrefixContents(s, pol, i);
        if IsFull(fromCtrl[i]) {
          CountBelow(c, i, n, FULL);
          Place(fromSlots[i].elem);
        }
      }
      assert s[..n] == s;
    }

    /** Moves every element into fresh storage. */
    method Resize(newCapacity: nat)
      requires Linked() && IsValidCapacity(newCapacity) && size <= newCapacity
      modifies this
      ensures Linked() && fresh(ctrl) && fresh(slots)
      ensures capacity == newCapacity && Elements() == old(Elements()) && size == old(size)
      ensures Count(ctrl[..], capacity, DELETED) == 0
      ensures growthLeft == SubWrap(CapacityToGrowth(capacity, w), size)
    {
      var oldCtrl, oldSlots, oldCapacity := ctrl, slots, capacity;
      InitializeSlots(newCapacity);
      PlaceAll(oldCtrl, oldSlots, oldCapacity);
    }

    /** Tombstones become empty, full bytes become DELETED, clones follow. */
    method ConvertDeletedToEmptyAndFullToDeleted()
      requires Layout(ctrl[..], capacity, w) && !IsSmall(capacity, w)
      modifies ctrl
      ensures Converted(old(ctrl[..]), ctrl[..], capacity, w)
    {
      ghost var c := ctrl[..];
      ghost var k := LargeRing(capacity, w);
      var pos: nat := 0;
      ghost var q: nat := 0;
      while pos != capacity + 1
        invariant pos == w * q && q <= Pow2(k) && pos <= capacity + 1
        invariant ctrl[..] == ConvertedTo(c, pos)
        decreases capacity + 1 - pos
      {
        ScaleStep(w, q, Pow2(k));
        ConvertGroup(pos);
        AddMultiples(q, 1, w);
        pos, q := pos + w, q + 1;
      }
      CopyClones();
    }

    /** Converts the group at pos: special bytes to EMPTY, full bytes to DELETED. */
    method ConvertGroup(pos: nat)
      requires pos + w <= ctrl.Length
      modifies ctrl
      ensures forall m :: 0 <= m < ctrl.Length ==>
                ctrl[m] == if pos <= m < pos + w then ConvertByte(old(ctrl[m])) else old(ctrl[m])
    {
      for i := 0 to w
        invariant forall m :: 0 <= m < ctrl.Length ==>
                    ctrl[m] == if pos <= m < pos + i then ConvertByte(old(ctrl[m])) else old(ctrl[m])
      {
        ctrl[pos + i] := ConvertByte(ctrl[pos + i]);
      }
    }

    /** Copies the first group behind the sentinel and restores the sentinel. */
    method CopyClones()
      requires IsWidth(w) && IsRing(capacity) && !IsSmall(capacity, w) && ctrl.Length == capacity + w + 1
      requires forall p :: 0 <= p < capacity ==> IsSlotByte(ctrl[p])
      modifies ctrl
      ensures Layout(ctrl[..], capacity, w)
      ensures forall p :: 0 <= p < capacity ==> ctrl[p] == old(ctrl[p])
    {
      for i := 0 to w
        invariant forall m :: 0 <= m <= capacity ==> ctrl[m] == old(ctrl[m])
        invariant forall m :: capacity < m <= capacity + i ==> ctrl[m] == ctrl[m - (capacity + 1)]
      {
        ctrl[capacity + 1 + i] := ctrl[i];
      }
      ctrl[capacity] := SENTINEL;
    }

    /** Rehashes in place: drops every tombstone and keeps every element. The loop
        index stands still after a swap, so that the element swapped in is placed
        next. */
    method DropDeletesWithoutResize()
      requires Linked() && !IsSmall(capacity, w) && size <= CapacityToGrowth(capacity, w)
      modifies this, ctrl, slots
      ensures Linked() && ctrl == old(ctrl) && slots == old(slots)
      ensures capacity == old(capacity) && size == old(size) && Elements() == old(Elements())
      ensures Count(ctrl[..], capacity, DELETED) == 0
      ensures growthLeft == CapacityToGrowth(capacity, w) - size
    {
      ghost var elems := Elements();
      ghost var c0 := ctrl[..];
      GrowthLeavesEmpty(capacity, w);
      ConvertDeletedToEmptyAndFullToDeleted();
      PassStarts(c0, ctrl[..], slots[..], capacity, w, pol);
      var i: nat := 0;
      while i != capacity
        invariant ctrl == old(ctrl) && slots == old(slots) && capacity == old(capacity) && size == old(size)
        invariant PassInv(ctrl[..], slots[..], capacity, w, pol, i, elems, size)
        decreases Count(ctrl[..], capacity, DELETED), capacity - i
      {
        if IsDeleted(ctrl[i]) {
          i := PlaceInPass(i, elems);
        } else {
          i := i + 1;
        }
      }
      growthLeft := CapacityToGrowth(capacity, w) - size;
      PassDone(ctrl[..], slots[..], capacity, w, pol);
      CountPositive(ctrl[..], capacity, DELETED);
      CountTotal(ctrl[..], capacity);
    }

    /** One iteration of the pass, for a slot that holds an unplaced element. */
    method PlaceInPass(i: nat, ghost elems: set<T>) returns (next: nat)
      requires Lawful(pol) && PassInv(ctrl[..], slots[..], capacity, w, pol, i, elems, size)
      requires i < capacity && IsDeleted(ctrl[i])
      modifies ctrl, slots
      ensures PassInv(ctrl[..], slots[..], capacity, w, pol, next, elems, size)
      ensures Count(ctrl[..], capacity, DELETED) < old(Count(ctrl[..], capacity, DELETED))
    {
      ghost var c, s := ctrl[..], slots[..];
      assert PassSlotOk(c, s, capacity, w, pol, i);
      var hashval := pol.hash(pol.key(slots[i].elem));
      var target := FindFirstNonFull(hashval);
      FirstFreeIsTight(c, capacity, w, hashval, target);
      var start := ProbeStart(hashval, capacity);
      if ProbeIndex(start, w, capacity + 1, target) == ProbeIndex(start, w, capacity + 1, i) {
        PassStay(c, s, capacity, w, pol, i, target, elems, size);
        SetCtrlByte(i, H2(hashval));
        return i + 1;
      } else if IsEmpty(ctrl[target]) {
        MoveInPass(i, target, hashval, elems);
        return i + 1;
      } else {
        SwapInPass(i, target, hashval, elems);
        return i;
      }
    }

    /** Transfers the element to the empty target. */
    method MoveInPass(i: nat, target: nat, hashval: nat, ghost elems: set<T>)
      requires Lawful(pol) && PassInv(ctrl[..], slots[..], capacity, w, pol, i, elems, size)
      requires PassTarget(ctrl[..], slots[..], capacity, w, pol, i, target)
      requires target < capacity && IsEmpty(ctrl[target]) && hashval == HashOf(pol, slots[i].elem)
      modifies ctrl, slots
      ensures PassInv(ctrl[..], slots[..], capacity, w, pol, i + 1, elems, size)
      ensures Count(ctrl[..], capacity, DELETED) < old(Count(ctrl[..], capacity, DELETED))
    {
      ghost var c, s := ctrl[..], slots[..];
      PassMove(c, s, capacity, w, pol, i, target, elems, size);
      SetCtrlByte(target, H2(hashval));
      slots[target] := slots[i];
      slots[i] := Raw;
      SetCtrlByte(i, EMPTY);
      assert slots[..] == s[target := s[i]][i := Raw];
    }

    /** Swaps the element with the unplaced one at the target. */
    method SwapInPass(i: nat, target: nat, hashval: nat, ghost elems: set<T>)
      requires Lawful(pol) && PassInv(ctrl[..], slots[..], capacity, w, pol, i, elems, size)
      requires PassTarget(ctrl[..], slots[..], capacity, w, pol, i, target)
      requires target < capacity && IsDeleted(ctrl[target]) && target != i && hashval == HashOf(pol, slots[i].elem)
      modifies ctrl, slots
      ensures PassInv(ctrl[..], slots[..], capacity, w, pol, i, elems, size)
      ensures Count(ctrl[..], capacity, DELETED) < old(Count(ctrl[..], capacity, DELETED))
    {
      ghost var c, s := ctrl[..], slots[..];
      PassSwap(c, s, capacity, w, pol, i, target, elems, size);
      SetCtrlByte(target, H2(hashval));
      var slot := slots[i];
      slots[i] := slots[target];
      slots[target] := slot;
      assert slots[..] == s[i := s[target]][target := s[i]];
    }

    method RehashAndGrowIfNecessary()
      requires Valid() && growthLeft == 0
      modifies this, ctrl, slots
      ensures Valid() && growthLeft > 0 && Count(ctrl[..], capacity, DELETED) == 0
      ensures size == old(size) && Elements() == old(Elements())
      ensures capacity == if old(capacity) == 0 then 1
                          else if old(size) <= CapacityToGrowth(old(capacity), w) / 2 then old(capacity)
                          else 2 * old(capacity) + 1
      ensures capacity == old(capacity) ==> ctrl == old(ctrl) && slots == old(slots)
      ensures (ctrl == old(ctrl) && slots == old(slots)) || (fresh(ctrl) && fresh(slots))
    {
      DoubledCapacity(capacity, w);
      if capacity == 0 {
        assert 2 * capacity + 1 == 1;
        Resize(1);
      } else if size <= CapacityToGrowth(capacity, w) / 2 {
        HalfFullIsLarge(ctrl[..], capacity, w, size);
        DropDeletesWithoutResize();
      } else {
        Resize(capacity * 2 + 1);
      }
    }

    /** Finds the slot for a new element, growing or rehashing first if the growth
        is used up and the slot is not a tombstone. */
    method FindRoom(hashval: nat) returns (target: nat)
      requires Valid()
      modifies this, ctrl, slots
      ensures Valid() && IsTarget(ctrl[..], capacity, w, hashval, target)
      ensures growthLeft > 0 || IsDeleted(ctrl[target])
      ensures size == old(size) && Elements() == old(Elements())
      ensures if old(Exhausted(ctrl[..], capacity, w, growthLeft, hashval)) then capacity == GrownCapacity(old(capacity), old(size), w)
              else capacity == old(capacity)
      ensures capacity == old(capacity) ==> ctrl == old(ctrl) && slots == old(slots)
      ensures (ctrl == old(ctrl) && slots == old(slots)) || (fresh(ctrl) && fresh(slots))
    {
      AccountedHasFree(ctrl[..], capacity, w, size, growthLeft);
      target := FindFirstNonFull(hashval);
      ExhaustedIff(ctrl[..], capacity, w, size, growthLeft, hashval, target);
      if growthLeft == 0 && !IsDeleted(ctrl[target]) {
        RehashAndGrowIfNecessary();
        AccountedHasFree(ctrl[..], capacity, w, size, growthLeft);
        target := FindFirstNonFull(hashval);
      }
    }

    method PrepareInsert(hashval: nat) returns (target: nat)
      requires Valid()
      modifies this, ctrl, slots
      ensures Lawful(pol) && Prepared(ctrl[..], slots[..], capacity, w, pol, size, growthLeft, hashval, target)
      ensures size == old(size) + 1 && Elements() == old(Elements())
      ensures if old(Exhausted(ctrl[..], capacity, w, growthLeft, hashval)) then capacity == GrownCapacity(old(capacity), old(size), w)
              else capacity == old(capacity)
      ensures capacity == old(capacity) ==> ctrl == old(ctrl) && slots == old(slots)
      ensures (ctrl == old(ctrl) && slots == old(slots)) || (fresh(ctrl) && fresh(slots))
    {
      target := FindRoom(hashval);
      ChargeSlot(ctrl[..], slots[..], capacity, w, pol, size, growthLeft, hashval, target);
      size := size + 1;
      growthLeft := growthLeft - (if IsEmpty(ctrl[target]) then 1 else 0);
    }

    method Insert(e: T) returns (inserted: bool, index: nat)
      requires Valid()
      modifies this, ctrl, slots
      ensures Valid()
      ensures inserted <==> !HasKey(old(Elements()), pol, pol.key(e))
      ensures Elements() == if inserted then old(Elements()) + {e} else old(Elements())
      ensures size == old(size) + (if inserted then 1 else 0)
      ensures index < capacity && slots[index].Holds? && pol.eq(pol.key(slots[index].elem), pol.key(e))
      ensures if inserted && old(Exhausted(ctrl[..], capacity, w, growthLeft, HashOf(pol, e)))
              then capacity == GrownCapacity(old(capacity), old(size), w)
              else capacity == old(capacity)
      ensures capacity == old(capacity) ==> ctrl == old(ctrl) && slots == old(slots)
      ensures (ctrl == old(ctrl) && slots == old(slots)) || (fresh(ctrl) && fresh(slots))
    {
      var hashval := pol.hash(pol.key(e));
      var found;
      found, index := FindImpl(pol.key(e), hashval);
      if found {
        return false, index;
      }
      index := PrepareInsert(hashval);
      EmplaceAt(index, e);
      return true, index;
    }

    /** Constructs the element in the prepared slot and sets its byte. */
    method EmplaceAt(target: nat, e: T)
      requires Lawful(pol) && Prepared(ctrl[..], slots[..], capacity, w, pol, size, growthLeft, HashOf(pol, e), target)
      requires !HasKey(Elements(), pol, pol.key(e))
      modifies ctrl, slots
      ensures Valid() && Elements() == old(Elements()) + {e}
      ensures slots[target] == Holds(e)
    {
      ghost var c, s, h := ctrl[..], slots[..], HashOf(pol, e);
      ghost var j: nat :| FreeAt(c, capacity, w, h, target, j);
      InsertKeepsStored(c, s, capacity, w, pol, target, j, e);
      CountSetCtrl(c, capacity, w, target, H2(h), FULL);
      CountSetCtrl(c, capacity, w, target, H2(h), DELETED);
      slots[target] := Holds(e);
      SetCtrlByte(target, H2(pol.hash(pol.key(e))));
      assert slots[..] == s[target := Holds(e)];
    }

    /** Erases the element at `index`. The slot's byte becomes EMPTY exactly when no
        probe can have passed over it: every window that covers it has an empty
        byte. Small tables never get a tombstone. */
    method EraseAt(index: nat)
      requires Valid() && index < capacity && IsFull(ctrl[index])
      modifies this, ctrl, slots
      ensures Valid() && ctrl == old(ctrl) && slots == old(slots) && capacity == old(capacity)
      ensures old(slots[index].Holds?) && Elements() == old(Elements()) - {old(slots[index].elem)}
      ensures size == old(size) - 1
      ensures var emptied := IsSmall(capacity, w) || EveryWindowHasEmpty(old(ctrl[..]), capacity, w, index);
              && ctrl[..] == SetCtrl(old(ctrl[..]), capacity, w, index, if emptied then EMPTY else DELETED)
              && growthLeft == old(growthLeft) + (if emptied then 1 else 0)
    {
      ghost var c, s := ctrl[..], slots[..];
      EraseKeepsStored(c, s, capacity, w, pol, index);
      ErasedByteMeans(c, capacity, w, index);
      CountBelow(c, index, capacity, FULL);
      CountSetCtrl(c, capacity, w, index, ErasedByte(c, capacity, w, index), FULL);
      CountSetCtrl(c, capacity, w, index, ErasedByte(c, capacity, w, index), DELETED);
      slots[index] := Raw;
      size := size - 1;
      var wasNeverFull := WasNeverFull(ctrl[..], capacity, w, index);
      SetCtrlByte(index, if wasNeverFull then EMPTY else DELETED);
      growthLeft := growthLeft + (if wasNeverFull then 1 else 0);
      assert slots[..] == s[index := Raw];
    }

    method Erase(key: K) returns (n: nat)
      requires Valid()
      modifies this, ctrl, slots
      ensures Valid() && capacity == old(capacity) && ctrl == old(ctrl) && slots == old(slots)
      ensures n == if HasKey(old(Elements()), pol, key) then 1 else 0
      ensures size == old(size) - n
      ensures Elements() == set e | e in old(Elements()) && !pol.eq(pol.key(e), key)
    {
      var found, index := FindImpl(key, pol.hash(key));
      ghost var s := slots[..];
      if !found {
        return 0;
      }
      assert SlotOk(ctrl[..], s, capacity, w, pol, index);
      OnlyEqualKey(s, pol, key, index);
      EraseAt(index);
      return 1;
    }

    method DestroySlots()
      requires Linked()
      modifies this
      ensures Valid() && fresh(ctrl) && fresh(slots)
      ensures capacity == 0 && size == 0 && Elements() == {}
    {
      ctrl := new int[16](i => if i == 0 then SENTINEL else EMPTY);
      slots := new Slot<T>[0];
      size, capacity, growthLeft := 0, 0, 0;
      assert Pow2(0) == 1;
      FreshIsStored(ctrl[..], slots[..], 0, w, pol);
    }

    method Rehash(n: size_t)
      requires Valid() && size < TWO_TO_64
      modifies this
      ensures Linked() && size == old(size) && Elements() == old(Elements())
      ensures n <= capacity
      ensures Valid() <==> RehashAccounts(n, size, w)
      ensures n > 0 ==> GrownTo(n, old(capacity), capacity)
      ensures n > 0 && capacity == old(capacity) ==> ctrl == old(ctrl) && slots == old(slots)
      ensures n == 0 && size == 0 ==> capacity == 0
      ensures n == 0 && size > 0 ==> IsNormalized(size, capacity) && Count(ctrl[..], capacity, DELETED) == 0
      ensures n == 0 && size > 0 ==> forall h: nat :: ProbeStops(ctrl[..], capacity, w, h) <==> RehashZeroStops(size, w)
      ensures (ctrl == old(ctrl) && slots == old(slots)) || (fresh(ctrl) && fresh(slots))
    {
      if n == 0 && capacity == 0 {
        EmptyRehash(w);
        return;
      }
      if n == 0 && size == 0 {
        ElementsEmpty(ctrl[..], slots[..], capacity, w, pol);
        EmptyRehash(w);
        DestroySlots();
        return;
      }
      var m := NormalizeCapacity(if n < size then size else n);
      RehashGrows(n, size, m, capacity, w);
      if n == 0 || m > capacity {
        RehashTarget(n, size, m, capacity, w);
        Resize(m);
        if n == 0 {
          forall h: nat
            ensures ProbeStops(ctrl[..], capacity, w, h) <==> RehashZeroStops(size, w)
          {
            SizedForElements(ctrl[..], capacity, w, size, h);
          }
        }
      }
    }

    method Reserve(n: size_t)
      requires Valid() && size < TWO_TO_64
      modifies this
      ensures Linked() && size == old(size) && Elements() == old(Elements())
      ensures Valid() <==> RehashAccounts(n, size, w)
      ensures n > 0 ==> (n <= CapacityToGrowth(capacity, w) <==> ReserveSuffices(n) || n <= CapacityToGrowth(old(capacity), w))
    {
      Rehash(GrowthToLowerboundCapacity(n, w));
      if n > 0 {
        ReserveGrows(n, old(capacity), capacity, w);
      }
    }

    method Clear()
      requires Valid()
      modifies this, ctrl, slots
      ensures Valid() && size == 0 && Elements() == {}
      ensures capacity == if old(size) > 0 && old(capacity) > 127 then 0 else old(capacity)
      ensures if old(size) > 0 then growthLeft == CapacityToGrowth(capacity, w) else unchanged(this) && unchanged(ctrl) && unchanged(slots)
      ensures (ctrl == old(ctrl) && slots == old(slots)) || (fresh(ctrl) && fresh(slots))
    {
      if size == 0 {
        ElementsEmpty(ctrl[..], slots[..], capacity, w, pol);
      } else if capacity > 127 {
        DestroySlots();
      } else {
        DestroyElements();
        size := 0;
        ResetCtrl();
        growthLeft := CapacityToGrowth(capacity, w) - size;
        FreshIsStored(ctrl[..], slots[..], capacity, w, pol);
      }
    }

    method DestroyElements()
      requires Linked()
      modifies slots
      ensures forall p :: 0 <= p < slots.Length ==> slots[p].Raw?
    {
      ghost var c, s := ctrl[..], slots[..];
      for i := 0 to capacity
        invariant forall p :: 0 <= p < i ==> slots[p].Raw?
        invariant forall p :: i <= p < capacity ==> slots[p] == s[p]
      {
        assert SlotOk(c, s, capacity, w, pol, i);
        if IsFull(ctrl[i]) {
          slots[i] := Raw;
        }
      }
    }

    method ResetCtrl()
      requires ctrl.Length == capacity + w + 1 && w > 0
      modifies ctrl
      ensures ctrl[capacity] == SENTINEL
      ensures forall m :: 0 <= m < capacity + w && m != capacity ==> ctrl[m] == EMPTY
    {
      for i := 0 to capacity + w
        invariant forall m :: 0 <= m < i ==> ctrl[m] == EMPTY
      {
        ctrl[i] := EMPTY;
      }
      ctrl[capacity] := SENTINEL;
    }

    /** Copies another table: same capacity and elements, no tombstones. */
    constructor Copy(that: RawHashSet<K, T>)
      requires that.Valid()
      ensures Valid() && fresh(ctrl) && fresh(slots)
      ensures w == that.w && pol == that.pol
      ensures Elements() == that.Elements() && capacity == that.capacity && size == that.size
      ensures Count(ctrl[..], capacity, DELETED) == 0
    {
      w, pol := that.w, that.pol;
      ctrl := new int[16](i => if i == 0 then SENTINEL else EMPTY);
      slots := new Slot<T>[0];
      size, capacity, growthLeft := 0, 0, 0;
      new;
      assert Pow2(0) == 1;
      FreshIsStored(ctrl[..], slots[..], 0, w, pol);
      if that.capacity > 0 {
        InitializeSlots(that.capacity);
      }
      CountTotal(that.ctrl[..], that.capacity);
      PlaceAll(that.ctrl, that.slots, that.capacity);
      size := that.size;
      growthLeft := growthLeft - that.size;
    }
  }

  /** Numbers that are their own keys and hashes. */
  function NumberPolicy(): Policy<nat, nat> { Policy(v => v, v => v, (a, b) => a == b) }

  /** Fifteen elements in groups of sixteen, then `rehash(0)`: the table has fifteen slots
      and no search for an absent key ends. */
  method OverfilledTable() returns (t: RawHashSet<nat, nat>)
    ensures t.Linked() && !t.Valid() && t.w == 16 && t.size == t.capacity == 15
    ensures forall h: nat :: !ProbeStops(t.ctrl[..], t.capacity, t.w, h)
  {
    t := new RawHashSet(16, NumberPolicy());
    for i := 0 to 15
      invariant t.Valid() && fresh(t) && fresh(t.ctrl) && fresh(t.slots)
      invariant t.w == 16 && t.pol == NumberPolicy() && t.size == i && forall e :: e in t.Elements() ==> e < i
    {
      var inserted, index := t.Insert(i);
    }
    t.Rehash(0);
    FifteenIsACapacity(t.capacity);
  }

  lemma FifteenIsACapacity(m: nat)
    requires IsNormalized(15, m)
    ensures m == 15 && IsValidCapacity(15) && CapacityToGrowth(15, 16) == 14
    ensures !RehashAccounts(0, 15, 16) && !RehashZeroStops(15, 16)
  {
    assert Pow2(4) == 16 && Pow2(3) == 8;
    RingIsNormalized(15, 15, 4);
    NormalizedUnique(15, 15, m);
  }
}

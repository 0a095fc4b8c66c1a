/**
 What a table means: which slots a probe reaches, which elements are stored, and
 how the three kinds of slot bytes are counted. All of it on sequences, so that
 the methods of the table only have to name the lemma they need.
 */
module TableSpec {
  import opened Machine
  import opened Probing
  import opened ControlBytes

  /** Storage for one element: raw memory, or a live element. */
  datatype Slot<+T> = Raw | Holds(elem: T)

  /** The hash policy: how to get at the key, the user's hash and equality. */
  datatype Policy<!K, !T> = Policy(key: T -> K, hash: K -> nat, eq: (K, K) -> bool)

  /** What the container asks of the user's functions. */
  ghost predicate Lawful<K(!new), T>(pol: Policy<K, T>) {
    && (forall a: K :: pol.eq(a, a))
    && (forall a: K, b: K :: pol.eq(a, b) ==> pol.eq(b, a) && pol.hash(a) == pol.hash(b))
    && (forall a: K, b: K, d: K :: pol.eq(a, b) && pol.eq(b, d) ==> pol.eq(a, d))
  }

  function HashOf<K, T>(pol: Policy<K, T>, e: T): nat { pol.hash(pol.key(e)) }

  // ----- Probing a table

  function ProbeStart(h: nat, cap: nat): (r: nat)
    ensures r <= cap
  {
    H1(h) % (cap + 1)
  }

  /** The start of the j-th probe window of hash h. */
  function Win(h: nat, cap: nat, w: nat, j: nat): (r: nat)
    ensures r <= cap
  {
    ProbeAt(H1(h), cap + 1, w, j).offset
  }

  /** The probe of h gets to its j-th window, and that window covers p. */
  ghost predicate ReachAt(c: seq<int>, cap: nat, w: nat, h: nat, p: nat, j: nat)
    requires cap + w <= |c|
  {
    && InWindow(Win(h, cap, w, j), w, cap + 1, p)
    && forall i: nat :: i < j ==> !HasEmpty(c, Win(h, cap, w, i), w)
  }

  /** No window before p's own window in the probe order of h holds an empty byte. */
  ghost predicate Reachable(c: seq<int>, cap: nat, w: nat, h: nat, p: nat)
    requires cap + w <= |c|
  {
    exists j: nat :: ReachAt(c, cap, w, h, p, j)
  }

  /** Slot t is the first empty or deleted slot in the probe order of h. */
  ghost predicate FreeAt(c: seq<int>, cap: nat, w: nat, h: nat, t: nat, j: nat)
    requires cap + w <= |c|
  {
    && t < cap && IsEmptyOrDeleted(c[t])
    && InWindow(Win(h, cap, w, j), w, cap + 1, t)
    && (forall i: nat :: i < j ==> !HasFree(c, Win(h, cap, w, i), w))
    && (var off := Win(h, cap, w, j);
        forall m :: off <= m < (if off <= t then t else t + cap + 1) ==> !IsEmptyOrDeleted(c[m]))
  }

  /** In windows, d has an empty byte only where c has one. */
  ghost predicate NoNewEmpty(c: seq<int>, d: seq<int>, cap: nat, w: nat)
    requires cap + w <= |c| == |d|
  {
    forall off: nat :: off <= cap && HasEmpty(d, off, w) ==> HasEmpty(c, off, w)
  }

  lemma ReachableMonotone(c: seq<int>, d: seq<int>, cap: nat, w: nat, h: nat, p: nat)
    requires cap + w <= |c| == |d| && NoNewEmpty(c, d, cap, w)
    requires Reachable(c, cap, w, h, p)
    ensures Reachable(d, cap, w, h, p)
  {
    var j: nat :| ReachAt(c, cap, w, h, p, j);
    assert ReachAt(d, cap, w, h, p, j);
  }

  lemma FreeIsReachable(c: seq<int>, cap: nat, w: nat, h: nat, t: nat, j: nat)
    requires cap + w <= |c| && FreeAt(c, cap, w, h, t, j)
    ensures Reachable(c, cap, w, h, t)
  {
    forall i: nat | i < j
      ensures !HasEmpty(c, Win(h, cap, w, i), w)
    {
      assert !HasFree(c, Win(h, cap, w, i), w);
    }
    assert ReachAt(c, cap, w, h, t, j);
  }

  /** The first free slot in probe order is unique. */
  lemma FirstFreeUnique(c: seq<int>, cap: nat, w: nat, h: nat, t: nat, j: nat, t': nat, j': nat)
    requires Layout(c, cap, w) && !IsSmall(cap, w)
    requires FreeAt(c, cap, w, h, t, j) && FreeAt(c, cap, w, h, t', j')
    ensures t == t' && j == j'
  {
    var i := GroupHoldsSlot(c, cap, w, Win(h, cap, w, j), t);
    var i' := GroupHoldsSlot(c, cap, w, Win(h, cap, w, j'), t');
    assert HasFree(c, Win(h, cap, w, j), w) && HasFree(c, Win(h, cap, w, j'), w);
  }

  /** The windows of a large table cover the ring: if none of the first
      (cap + 1) / w windows has a byte of some sort, no slot has. */
  lemma ProbeCovers(c: seq<int>, cap: nat, w: nat, h: nat, p: nat) returns (j: nat)
    requires Layout(c, cap, w) && !IsSmall(cap, w) && p <= cap
    ensures w * j < cap + 1
    ensures InWindow(Win(h, cap, w, j), w, cap + 1, p)
  {
    var k := LargeRing(cap, w);
    j := WindowsPartition(ProbeStart(h, cap), w, k, p);
    ProbeClosedForm(H1(h), cap + 1, w, j);
    ScaleStep(w, j, Pow2(k));
  }

  // ----- Counting slot bytes

  /** The kind of a byte: all full bytes count alike. */
  function Kind(b: int): int { if b >= 0 then FULL else b }
  const FULL: int := 0

  /** How many of the first n bytes are of the given kind. */
  function Count(c: seq<int>, n: nat, kind: int): nat
    requires n <= |c|
  {
    if n == 0 then 0 else Count(c, n - 1, kind) + (if Kind(c[n - 1]) == kind then 1 else 0)
  }

  lemma {:induction false} CountSame(c: seq<int>, d: seq<int>, n: nat, kind: int)
    requires n <= |c| && n <= |d|
    requires forall i :: 0 <= i < n ==> Kind(c[i]) == Kind(d[i])
    ensures Count(c, n, kind) == Count(d, n, kind)
  {
    if n > 0 { CountSame(c, d, n - 1, kind); }
  }

  lemma {:induction false} CountUpdate(c: seq<int>, d: seq<int>, n: nat, p: nat, kind: int)
    requires p < n <= |c| && n <= |d|
    requires forall i :: 0 <= i < n && i != p ==> c[i] == d[i]
    ensures Count(d, n, kind) + (if Kind(c[p]) == kind then 1 else 0)
         == Count(c, n, kind) + (if Kind(d[p]) == kind then 1 else 0)
  {
    if p == n - 1 {
      CountSame(c, d, n - 1, kind);
    } else {
      CountUpdate(c, d, n - 1, p, kind);
    }
  }

  lemma {:induction false} CountPositive(c: seq<int>, n: nat, kind: int)
    requires n <= |c|
    ensures Count(c, n, kind) > 0 <==> exists i :: 0 <= i < n && Kind(c[i]) == kind
  {
    if n > 0 { CountPositive(c, n - 1, kind); }
  }

  lemma {:induction false} CountTotal(c: seq<int>, n: nat)
    requires n <= |c| && forall i :: 0 <= i < n ==> IsSlotByte(c[i])
    ensures Count(c, n, FULL) + Count(c, n, EMPTY) + Count(c, n, DELETED) == n
  {
    if n > 0 { CountTotal(c, n - 1); }
  }

  // ----- Stored elements

  ghost function Contents<T>(slots: seq<Slot<T>>): set<T> {
    set p | 0 <= p < |slots| && slots[p].Holds? :: slots[p].elem
  }

  /** No two live slots hold equal keys. */
  ghost predicate DistinctKeys<K, T>(slots: seq<Slot<T>>, pol: Policy<K, T>) {
    forall p, q :: 0 <= p < q < |slots| && slots[p].Holds? && slots[q].Holds? ==>
      !pol.eq(pol.key(slots[p].elem), pol.key(slots[q].elem))
  }

  /** Slot p holds an element exactly when its byte is full, and then the byte is
      the low part of the element's hash and the element's probe reaches p. */
  ghost predicate SlotOk<K, T>(c: seq<int>, slots: seq<Slot<T>>, cap: nat, w: nat, pol: Policy<K, T>, p: nat)
    requires cap + w <= |c| && p < cap == |slots|
  {
    && (IsFull(c[p]) <==> slots[p].Holds?)
    && (IsFull(c[p]) ==>
          && c[p] == H2(HashOf(pol, slots[p].elem))
          && Reachable(c, cap, w, HashOf(pol, slots[p].elem), p))
  }

  /** The table's structural invariant, without the growth accounting. */
  ghost predicate Stored<K, T>(c: seq<int>, slots: seq<Slot<T>>, cap: nat, w: nat, pol: Policy<K, T>) {
    && Layout(c, cap, w)
    && |slots| == cap
    && DistinctKeys(slots, pol)
    && (forall p: nat :: p < cap ==> SlotOk(c, slots, cap, w, pol, p))
  }

  /** The key is in the set of elements. */
  ghost predicate HasKey<K, T>(s: set<T>, pol: Policy<K, T>, key: K) {
    exists e :: e in s && pol.eq(pol.key(e), key)
  }

  /** Filling the first free slot of the new element's probe keeps every element
      reachable and adds exactly the new element. */
  lemma InsertKeepsStored<K(!new), T>(c: seq<int>, slots: seq<Slot<T>>, cap: nat, w: nat, pol: Policy<K, T>, t: nat, j: nat, e: T)
    requires Lawful(pol) && Stored(c, slots, cap, w, pol)
    requires FreeAt(c, cap, w, HashOf(pol, e), t, j)
    requires !HasKey(Contents(slots), pol, pol.key(e))
    ensures var d := SetCtrl(c, cap, w, t, H2(HashOf(pol, e)));
            && Stored(d, slots[t := Holds(e)], cap, w, pol)
            && Contents(slots[t := Holds(e)]) == Contents(slots) + {e}
  {
    var h := HashOf(pol, e);
    SetCtrlKeepsLayout(c, cap, w, t, H2(h));
    var d, slots' := SetCtrl(c, cap, w, t, H2(h)), slots[t := Holds(e)];
    FullAddsNoEmpty(c, cap, w, t, H2(h));
    FreeIsReachable(c, cap, w, h, t, j);
    forall p: nat | p < cap
      ensures SlotOk(d, slots', cap, w, pol, p)
    {
      assert SlotOk(c, slots, cap, w, pol, p);
      if p == t {
        ReachableMonotone(c, d, cap, w, h, p);
      } else if IsFull(c[p]) {
        ReachableMonotone(c, d, cap, w, HashOf(pol, slots[p].elem), p);
      }
    }
    assert SlotOk(c, slots, cap, w, pol, t);
    UpdateContents(slots, t, e);
    NewKeyDistinct(slots, pol, t, e);
  }

  lemma FullAddsNoEmpty(c: seq<int>, cap: nat, w: nat, t: nat, x: int)
    requires Layout(c, cap, w) && t < cap && IsSlotByte(x) && x != EMPTY
    ensures NoNewEmpty(c, SetCtrl(c, cap, w, t, x), cap, w)
  {
    SetCtrlKeepsLayout(c, cap, w, t, x);
  }

  lemma UpdateContents<T>(slots: seq<Slot<T>>, t: nat, e: T)
    requires t < |slots| && slots[t].Raw?
    ensures Contents(slots[t := Holds(e)]) == Contents(slots) + {e}
  {
    var after := slots[t := Holds(e)];
    assert after[t].Holds?;
    forall x | x in Contents(slots) + {e}
      ensures x in Contents(after)
    {
      if x in Contents(slots) {
        var p :| 0 <= p < |slots| && slots[p].Holds? && slots[p].elem == x;
        assert after[p].Holds?;
      }
    }
  }

  lemma NewKeyDistinct<K(!new), T>(slots: seq<Slot<T>>, pol: Policy<K, T>, t: nat, e: T)
    requires Lawful(pol) && t < |slots| && DistinctKeys(slots, pol)
    requires !HasKey(Contents(slots), pol, pol.key(e))
    ensures DistinctKeys(slots[t := Holds(e)], pol)
  {
    forall p | 0 <= p < |slots| && slots[p].Holds?
      ensures !pol.eq(pol.key(slots[p].elem), pol.key(e))
    {
      assert slots[p].elem in Contents(slots);
    }
  }

  // ----- Erasing

  /** The number of non-empty bytes at the front of a group. */
  function LeadRun(c: seq<int>, off: nat, w: nat): (r: nat)
    requires off + w <= |c|
    ensures r <= w
    decreases w
  {
    if w == 0 || IsEmpty(c[off]) then 0 else 1 + LeadRun(c, off + 1, w - 1)
  }

  lemma {:induction false} LeadRunMeans(c: seq<int>, off: nat, w: nat)
    requires off + w <= |c|
    ensures var r := LeadRun(c, off, w);
            && (forall m :: off <= m < off + r ==> !IsEmpty(c[m]))
            && (r < w ==> IsEmpty(c[off + r]))
    decreases w
  {
    if w > 0 && !IsEmpty(c[off]) { LeadRunMeans(c, off + 1, w - 1); }
  }

  /** The number of non-empty bytes at the back of a group. */
  function TailRun(c: seq<int>, off: nat, w: nat): (r: nat)
    requires off + w <= |c|
    ensures r <= w
  {
    if w == 0 || IsEmpty(c[off + w - 1]) then 0 else 1 + TailRun(c, off, w - 1)
  }

  lemma {:induction false} TailRunMeans(c: seq<int>, off: nat, w: nat)
    requires off + w <= |c|
    ensures var r := TailRun(c, off, w);
            && (forall m :: off + w - r <= m < off + w ==> !IsEmpty(c[m]))
            && (r < w ==> IsEmpty(c[off + (w - r - 1)]))
  {
    if w > 0 && !IsEmpty(c[off + w - 1]) { TailRunMeans(c, off, w - 1); }
  }

  /** The test `erase_meta_only` makes on the groups after and before slot p. */
  predicate WasNeverFull(c: seq<int>, cap: nat, w: nat, p: nat)
    requires 0 < w && p <= cap && cap + w <= |c|
  {
    var before := (p - w) % (cap + 1);
    && HasEmpty(c, before, w) && HasEmpty(c, p, w)
    && LeadRun(c, p, w) + TailRun(c, before, w) < w
  }

  /** Every probe window that covers slot p holds an empty byte. */
  ghost predicate EveryWindowHasEmpty(c: seq<int>, cap: nat, w: nat, p: nat)
    requires cap + w <= |c|
  {
    forall off: nat :: off <= cap && InWindow(off, w, cap + 1, p) ==> HasEmpty(c, off, w)
  }

  /** The byte at ring position x, for x up to one lap to either side. */
  ghost function RingByte(c: seq<int>, cap: nat, x: int): int
    requires cap < |c| && -(cap as int) - 1 <= x < 2 * (cap + 1)
  {
    c[if x < 0 then x + cap + 1 else if x <= cap then x else x - (cap + 1)]
  }

  /** The ring position a places before p. */
  ghost function Back(p: nat, a: nat, cap: nat): nat
    requires a <= cap + 1
  {
    if a <= p then p - a else p + cap + 1 - a
  }

  lemma GroupAround(c: seq<int>, cap: nat, w: nat, p: nat, a: nat, i: nat)
    requires Layout(c, cap, w) && !IsSmall(cap, w) && p < cap && a <= w && i < w
    ensures Back(p, a, cap) <= cap
    ensures c[Back(p, a, cap) + i] == RingByte(c, cap, p - a + i)
  {
    GroupReadsRing(c, cap, w, Back(p, a, cap), i);
    Wrap(Back(p, a, cap) + i, cap + 1);
  }

  lemma GroupBefore(cap: nat, w: nat, p: nat)
    requires w <= cap + 1 && p < cap
    ensures (p - w) % (cap + 1) == Back(p, w, cap)
  {
    if w <= p {
      Wrap(p - w, cap + 1);
    } else {
      Wrap(p - w + cap + 1, cap + 1);
      RemoveMultiple(p - w, 1, cap + 1);
    }
  }

  /** t and l are the runs of non-empty bytes from p on and before p, cut at w. */
  ghost predicate Runs(c: seq<int>, cap: nat, w: nat, p: nat, t: nat, l: nat)
    requires w <= cap + 1 <= |c| && p < cap && t <= w && l <= w
  {
    && (forall x {:trigger RingByte(c, cap, x)} :: p - l <= x < p + t ==> !IsEmpty(RingByte(c, cap, x)))
    && (t < w ==> IsEmpty(RingByte(c, cap, p + t)))
    && (l < w ==> IsEmpty(RingByte(c, cap, p - l - 1)))
  }

  lemma RunsAround(c: seq<int>, cap: nat, w: nat, p: nat, t: nat, l: nat)
    requires Layout(c, cap, w) && !IsSmall(cap, w) && p < cap
    requires t == LeadRun(c, p, w) && l == TailRun(c, Back(p, w, cap), w)
    ensures Runs(c, cap, w, p, t, l)
  {
    LeadRunMeans(c, p, w);
    RunAfter(c, cap, w, p, t);
    TailRunMeans(c, Back(p, w, cap), w);
    RunBefore(c, cap, w, p, l);
  }

  lemma RunAfter(c: seq<int>, cap: nat, w: nat, p: nat, t: nat)
    requires Layout(c, cap, w) && !IsSmall(cap, w) && p < cap && t <= w
    requires forall m :: p <= m < p + t ==> !IsEmpty(c[m])
    requires t < w ==> IsEmpty(c[p + t])
    ensures forall x {:trigger RingByte(c, cap, x)} :: p <= x < p + t ==> !IsEmpty(RingByte(c, cap, x))
    ensures t < w ==> IsEmpty(RingByte(c, cap, p + t))
  {
    forall x | p <= x < p + t
      ensures !IsEmpty(RingByte(c, cap, x))
    {
      GroupAround(c, cap, w, p, 0, x - p);
    }
    if t < w { GroupAround(c, cap, w, p, 0, t); }
  }

  lemma RunBefore(c: seq<int>, cap: nat, w: nat, p: nat, l: nat)
    requires Layout(c, cap, w) && !IsSmall(cap, w) && p < cap && l <= w
    requires forall m :: Back(p, w, cap) + w - l <= m < Back(p, w, cap) + w ==> !IsEmpty(c[m])
    requires l < w ==> IsEmpty(c[Back(p, w, cap) + (w - l - 1)])
    ensures forall x {:trigger RingByte(c, cap, x)} :: p - l <= x < p ==> !IsEmpty(RingByte(c, cap, x))
    ensures l < w ==> IsEmpty(RingByte(c, cap, p - l - 1))
  {
    forall x | p - l <= x < p
      ensures !IsEmpty(RingByte(c, cap, x))
    {
      GroupAround(c, cap, w, p, w, x - p + w);
    }
    if l < w { GroupAround(c, cap, w, p, w, w - l - 1); }
  }

  /** Window `a` places before p has an empty byte exactly when the ring has one
      in [p - a, p - a + w). */
  lemma WindowHasEmpty(c: seq<int>, cap: nat, w: nat, p: nat, a: nat)
    requires Layout(c, cap, w) && !IsSmall(cap, w) && p < cap && a <= w
    ensures Back(p, a, cap) <= cap
    ensures HasEmpty(c, Back(p, a, cap), w)
            <==> exists x {:trigger RingByte(c, cap, x)} :: p - a <= x < p - a + w && IsEmpty(RingByte(c, cap, x))
  {
    var b := Back(p, a, cap);
    if HasEmpty(c, b, w) {
      var m :| b <= m < b + w && IsEmpty(c[m]);
      GroupAround(c, cap, w, p, a, m - b);
      assert IsEmpty(RingByte(c, cap, p - a + (m - b)));
    }
    if x :| p - a <= x < p - a + w && IsEmpty(RingByte(c, cap, x)) {
      GroupAround(c, cap, w, p, a, x - (p - a));
    }
  }

  lemma ShortRuns(c: seq<int>, cap: nat, w: nat, p: nat, t: nat, l: nat)
    requires Layout(c, cap, w) && !IsSmall(cap, w) && p < cap
    requires t <= w && l <= w && Runs(c, cap, w, p, t, l) && t + l < w
    ensures EveryWindowHasEmpty(c, cap, w, p)
  {
    forall off: nat | off <= cap && InWindow(off, w, cap + 1, p)
      ensures HasEmpty(c, off, w)
    {
      var a := if off <= p then p - off else p + cap + 1 - off;
      WindowHasEmpty(c, cap, w, p, a);
      assert if l < a then p - a <= p - l - 1 else p + t < p - a + w;
    }
  }

  lemma LongRuns(c: seq<int>, cap: nat, w: nat, p: nat, t: nat, l: nat)
    requires Layout(c, cap, w) && !IsSmall(cap, w) && p < cap
    requires t <= w && l < w && Runs(c, cap, w, p, t, l) && t + l >= w
    ensures !EveryWindowHasEmpty(c, cap, w, p)
  {
    WindowHasEmpty(c, cap, w, p, l);
    assert InWindow(Back(p, l, cap), w, cap + 1, p);
  }

  /** In a large table the test of `erase_meta_only` holds exactly when every
      probe window that covers the slot has an empty byte. */
  lemma WasNeverFullIff(c: seq<int>, cap: nat, w: nat, p: nat)
    requires Layout(c, cap, w) && !IsSmall(cap, w) && p < cap && IsFull(c[p])
    ensures WasNeverFull(c, cap, w, p) <==> EveryWindowHasEmpty(c, cap, w, p)
  {
    var b := Back(p, w, cap);
    GroupBefore(cap, w, p);
    RunsAround(c, cap, w, p, LeadRun(c, p, w), TailRun(c, b, w));
    if EveryWindowHasEmpty(c, cap, w, p) {
      assert InWindow(p, w, cap + 1, p);
      EmptyBefore(c, cap, w, p);
    }
    if HasEmpty(c, b, w) && HasEmpty(c, p, w) {
      var t, l := LeadRun(c, p, w), TailRun(c, b, w);
      TailRunMeans(c, b, w);
      if t + l < w {
        ShortRuns(c, cap, w, p, t, l);
      } else {
        LongRuns(c, cap, w, p, t, l);
      }
    }
  }

  lemma EmptyBefore(c: seq<int>, cap: nat, w: nat, p: nat)
    requires Layout(c, cap, w) && !IsSmall(cap, w) && p < cap && IsFull(c[p])
    requires EveryWindowHasEmpty(c, cap, w, p)
    ensures Back(p, w, cap) <= cap
    ensures HasEmpty(c, Back(p, w, cap), w)
  {
    WindowHasEmpty(c, cap, w, p, w - 1);
    WindowHasEmpty(c, cap, w, p, w);
    assert InWindow(Back(p, w - 1, cap), w, cap + 1, p);
    var x :| p - w + 1 <= x <= p && IsEmpty(RingByte(c, cap, x));
    assert x != p;
  }

  /** In a small table the test always holds. */
  lemma SmallWasNeverFull(c: seq<int>, cap: nat, w: nat, p: nat)
    requires Layout(c, cap, w) && IsSmall(cap, w) && p < cap
    ensures WasNeverFull(c, cap, w, p)
  {
    var q := SmallRing(cap, w);
    DivModUnique(p - w, cap + 1, -(2 * q as int), p);
    SmallGroup(c, cap, w, p);
    LeMul(1, q, 2 * (cap + 1));
    assert IsEmpty(c[p + w - 1]);
    LeadRunMeans(c, p, w);
  }

  /** The byte `erase_meta_only` leaves behind. */
  function ErasedByte(c: seq<int>, cap: nat, w: nat, p: nat): int
    requires 0 < w && p <= cap && cap + w <= |c|
  {
    if WasNeverFull(c, cap, w, p) then EMPTY else DELETED
  }

  lemma ErasedAddsNoEmpty(c: seq<int>, cap: nat, w: nat, p: nat)
    requires Layout(c, cap, w) && p < cap && IsFull(c[p])
    ensures NoNewEmpty(c, SetCtrl(c, cap, w, p, ErasedByte(c, cap, w, p)), cap, w)
  {
    var x := ErasedByte(c, cap, w, p);
    SetCtrlKeepsLayout(c, cap, w, p, x);
    var d := SetCtrl(c, cap, w, p, x);
    forall off: nat | off <= cap && HasEmpty(d, off, w)
      ensures HasEmpty(c, off, w)
    {
      if IsSmall(cap, w) {
        SmallGroup(c, cap, w, off);
      } else {
        WasNeverFullIff(c, cap, w, p);
        var m :| off <= m < off + w && IsEmpty(d[m]);
        if m == p || m == p + cap + 1 {
          assert InWindow(off, w, cap + 1, p);
        } else {
          assert IsEmpty(c[m]);
        }
      }
    }
  }

  /** Erasing keeps every other element reachable and removes exactly one. */
  lemma EraseKeepsStored<K(!new), T>(c: seq<int>, slots: seq<Slot<T>>, cap: nat, w: nat, pol: Policy<K, T>, p: nat)
    requires Lawful(pol) && Stored(c, slots, cap, w, pol) && p < cap && IsFull(c[p])
    ensures slots[p].Holds?
    ensures var d := SetCtrl(c, cap, w, p, ErasedByte(c, cap, w, p));
            && Stored(d, slots[p := Raw], cap, w, pol)
            && Contents(slots[p := Raw]) == Contents(slots) - {slots[p].elem}
  {
    var x := ErasedByte(c, cap, w, p);
    SetCtrlKeepsLayout(c, cap, w, p, x);
    var d, slots' := SetCtrl(c, cap, w, p, x), slots[p := Raw];
    ErasedAddsNoEmpty(c, cap, w, p);
    assert SlotOk(c, slots, cap, w, pol, p);
    forall q: nat | q < cap
      ensures SlotOk(d, slots', cap, w, pol, q)
    {
      assert SlotOk(c, slots, cap, w, pol, q);
      if q != p && IsFull(c[q]) {
        ReachableMonotone(c, d, cap, w, HashOf(pol, slots[q].elem), q);
      }
    }
    RemoveContents(slots, pol, p);
  }

  lemma RemoveContents<K(!new), T>(slots: seq<Slot<T>>, pol: Policy<K, T>, p: nat)
    requires Lawful(pol) && p < |slots| && slots[p].Holds? && DistinctKeys(slots, pol)
    ensures Contents(slots[p := Raw]) == Contents(slots) - {slots[p].elem}
    ensures DistinctKeys(slots[p := Raw], pol)
  {
    var after := slots[p := Raw];
    forall x | x in Contents(slots) - {slots[p].elem}
      ensures x in Contents(after)
    {
      var q :| 0 <= q < |slots| && slots[q].Holds? && slots[q].elem == x;
      assert after[q].Holds?;
    }
    forall q | 0 <= q < |slots| && q != p && slots[q].Holds?
      ensures slots[q].elem != slots[p].elem
    {
      var a, b := if q < p then q else p, if q < p then p else q;
      assert !pol.eq(pol.key(slots[a].elem), pol.key(slots[b].elem));
    }
  }

  // ----- Rehashing in place

  /** p lies in the first window of h that has a free slot, or in an earlier one:
      every window before is full. */
  ghost predicate TightAt(c: seq<int>, cap: nat, w: nat, h: nat, p: nat, j: nat)
    requires cap + w <= |c|
  {
    && InWindow(Win(h, cap, w, j), w, cap + 1, p)
    && forall i: nat :: i < j ==> !HasFree(c, Win(h, cap, w, i), w)
  }

  ghost predicate Tight(c: seq<int>, cap: nat, w: nat, h: nat, p: nat)
    requires cap + w <= |c|
  {
    exists j: nat :: TightAt(c, cap, w, h, p, j)
  }

  /** While rehashing in place, DELETED marks an element not placed yet. */
  ghost predicate PassSlotOk<K, T>(c: seq<int>, slots: seq<Slot<T>>, cap: nat, w: nat, pol: Policy<K, T>, p: nat)
    requires cap + w <= |c| && p < cap == |slots|
  {
    && (IsEmpty(c[p]) <==> slots[p].Raw?)
    && (IsFull(c[p]) ==>
          && c[p] == H2(HashOf(pol, slots[p].elem))
          && Tight(c, cap, w, HashOf(pol, slots[p].elem), p))
  }

  ghost predicate InPass<K, T>(c: seq<int>, slots: seq<Slot<T>>, cap: nat, w: nat, pol: Policy<K, T>) {
    && Layout(c, cap, w) && !IsSmall(cap, w)
    && |slots| == cap
    && DistinctKeys(slots, pol)
    && (forall p: nat :: p < cap ==> PassSlotOk(c, slots, cap, w, pol, p))
  }

  /** In windows, d has a free byte only where c has one. */
  ghost predicate NoNewFree(c: seq<int>, d: seq<int>, cap: nat, w: nat)
    requires cap + w <= |c| == |d|
  {
    forall off: nat :: off <= cap && HasFree(d, off, w) ==> HasFree(c, off, w)
  }

  lemma TightMonotone(c: seq<int>, d: seq<int>, cap: nat, w: nat, h: nat, p: nat)
    requires cap + w <= |c| == |d| && NoNewFree(c, d, cap, w)
    requires Tight(c, cap, w, h, p)
    ensures Tight(d, cap, w, h, p)
  {
    var j: nat :| TightAt(c, cap, w, h, p, j);
    assert TightAt(d, cap, w, h, p, j);
  }

  /** Writing a slot that is free anyway makes no window free that was not. */
  lemma FreeSlotNoNewFree(c: seq<int>, cap: nat, w: nat, p: nat, x: int)
    requires Layout(c, cap, w) && p < cap && IsSlotByte(x) && IsEmptyOrDeleted(c[p])
    ensures NoNewFree(c, SetCtrl(c, cap, w, p, x), cap, w)
  {
    SetCtrlKeepsLayout(c, cap, w, p, x);
    var d := SetCtrl(c, cap, w, p, x);
    forall off: nat | off <= cap && HasFree(d, off, w)
      ensures HasFree(c, off, w)
    {
      var m :| off <= m < off + w && IsEmptyOrDeleted(d[m]);
      assert IsEmptyOrDeleted(c[m]);
    }
  }

  /** What the pass keeps when it writes byte x at the free slot p and the slots
      become slots', as long as p's own slot is then in order. */
  lemma PassStep<K(!new), T>(c: seq<int>, slots: seq<Slot<T>>, slots': seq<Slot<T>>, cap: nat, w: nat, pol: Policy<K, T>, p: nat, x: int)
    requires InPass(c, slots, cap, w, pol) && p < cap && IsEmptyOrDeleted(c[p]) && IsSlotByte(x)
    requires |slots'| == cap && DistinctKeys(slots', pol)
    requires forall q: nat :: q < cap && q != p ==> (slots'[q].Raw? <==> slots[q].Raw?) && (IsFull(c[q]) ==> slots'[q] == slots[q])
    requires IsEmpty(x) <==> slots'[p].Raw?
    requires IsFull(x) ==> x == H2(HashOf(pol, slots'[p].elem)) && Tight(c, cap, w, HashOf(pol, slots'[p].elem), p)
    ensures InPass(SetCtrl(c, cap, w, p, x), slots', cap, w, pol)
  {
    SetCtrlKeepsLayout(c, cap, w, p, x);
    FreeSlotNoNewFree(c, cap, w, p, x);
    var d := SetCtrl(c, cap, w, p, x);
    forall q: nat | q < cap
      ensures PassSlotOk(d, slots', cap, w, pol, q)
    {
      assert PassSlotOk(c, slots, cap, w, pol, q);
      if IsFull(d[q]) {
        TightMonotone(c, d, cap, w, HashOf(pol, slots'[q].elem), q);
      }
    }
  }

  /** When no DELETED byte is left, the pass has restored the table's invariant. */
  lemma PassDone<K(!new), T>(c: seq<int>, slots: seq<Slot<T>>, cap: nat, w: nat, pol: Policy<K, T>)
    requires InPass(c, slots, cap, w, pol)
    requires forall p :: 0 <= p < cap ==> !IsDeleted(c[p])
    ensures Stored(c, slots, cap, w, pol)
  {
    forall p: nat | p < cap
      ensures SlotOk(c, slots, cap, w, pol, p)
    {
      assert PassSlotOk(c, slots, cap, w, pol, p);
      assert IsSlotByte(c[p]) && !IsDeleted(c[p]);
      if IsFull(c[p]) {
        var h := HashOf(pol, slots[p].elem);
        var j: nat :| TightAt(c, cap, w, h, p, j);
        forall i: nat | i < j
          ensures !HasEmpty(c, Win(h, cap, w, i), w)
        {
          assert !HasFree(c, Win(h, cap, w, i), w);
        }
        assert ReachAt(c, cap, w, h, p, j);
      }
    }
  }

  /** Swapping two live slots keeps the elements and their keys distinct. */
  lemma SwapSlots<K(!new), T>(slots: seq<Slot<T>>, pol: Policy<K, T>, p: nat, q: nat)
    requires Lawful(pol) && p < |slots| && q < |slots| && DistinctKeys(slots, pol)
    ensures var s := slots[p := slots[q]][q := slots[p]];
            DistinctKeys(s, pol) && Contents(s) == Contents(slots)
  {
    var s := slots[p := slots[q]][q := slots[p]];
    forall x | x in Contents(slots)
      ensures x in Contents(s)
    {
      var r :| 0 <= r < |slots| && slots[r].Holds? && slots[r].elem == x;
      var r' := if r == p then q else if r == q then p else r;
      assert s[r'].Holds? && s[r'].elem == x;
    }
    forall x | x in Contents(s)
      ensures x in Contents(slots)
    {
      var r :| 0 <= r < |s| && s[r].Holds? && s[r].elem == x;
      var r' := if r == p then q else if r == q then p else r;
      assert slots[r'].Holds? && slots[r'].elem == x;
    }
    forall a, b | 0 <= a < b < |s| && s[a].Holds? && s[b].Holds?
      ensures !pol.eq(pol.key(s[a].elem), pol.key(s[b].elem))
    {
      var a' := if a == p then q else if a == q then p else a;
      var b' := if b == p then q else if b == q then p else b;
      assert s[a] == slots[a'] && s[b] == slots[b'];
      var lo, hi := if a' < b' then a' else b', if a' < b' then b' else a';
      assert !pol.eq(pol.key(slots[lo].elem), pol.key(slots[hi].elem));
    }
  }
}

/**
 The check that the source makes of a tree, node by node, and what it amounts to for
 the whole sequence.
 */
module BTreeVerify {
  import opened Machine
  import opened BTreeShape
  import opened BTreePlaces
  import opened BTreeIterator
  import opened BTreeSearch
  import opened BTree

  /** A bound that a subtree's keys are checked against; there may be none. */
  datatype Bound<K> = Open | At(key: K)

  predicate AboveLow<K, V>(v: V, lo: Bound<K>, o: Order<K, V>) { lo.At? ==> !o.less(o.key(v), lo.key) }
  predicate BelowHigh<K, V>(v: V, hi: Bound<K>, o: Order<K, V>) { hi.At? ==> !o.less(hi.key, o.key(v)) }

  predicate Within<K, V>(s: seq<V>, lo: Bound<K>, hi: Bound<K>, o: Order<K, V>) {
    forall i :: 0 <= i < |s| ==> AboveLow(s[i], lo, o) && BelowHigh(s[i], hi, o)
  }

  /** The bounds of child number i. */
  function LowOf<K, V>(t: Tree<V>, i: nat, lo: Bound<K>, o: Order<K, V>): Bound<K>
    requires i <= |t.vals|
  {
    if i == 0 then lo else At(o.key(t.vals[i - 1]))
  }

  function HighOf<K, V>(t: Tree<V>, i: nat, hi: Bound<K>, o: Order<K, V>): Bound<K>
    requires i <= |t.vals|
  {
    if i == |t.vals| then hi else At(o.key(t.vals[i]))
  }

  /** What is checked of one node. */
  predicate NodeCheck<K, V>(t: Tree<V>, lo: Bound<K>, hi: Bound<K>, o: Order<K, V>) {
    && 1 <= |t.vals| <= t.maxCount
    && AboveLow(t.vals[0], lo, o) && BelowHigh(t.vals[|t.vals| - 1], hi, o)
    && (forall i :: 1 <= i < |t.vals| ==> !o.less(o.key(t.vals[i]), o.key(t.vals[i - 1])))
  }

  /** `internal_verify`: the assertions hold of every node. */
  predicate Verified<K, V>(t: Tree<V>, lo: Bound<K>, hi: Bound<K>, o: Order<K, V>) {
    && NodeCheck(t, lo, hi, o)
    && (!t.leaf ==>
          && |t.kids| == |t.vals| + 1
          && forall i :: 0 <= i < |t.kids| ==>
               && t.kids[i].parent == t.id && t.kids[i].position == i
               && Verified(t.kids[i], LowOf(t, i, lo, o), HighOf(t, i, hi, o), o))
  }

  /** Every node has a number of values in its range, and its children are linked to
      their places. */
  predicate NodesOk<V>(t: Tree<V>) {
    && 1 <= |t.vals| <= t.maxCount
    && (!t.leaf ==>
          && |t.kids| == |t.vals| + 1
          && forall i :: 0 <= i < |t.kids| ==> t.kids[i].parent == t.id && t.kids[i].position == i && NodesOk(t.kids[i]))
  }

  lemma {:induction false} ShapedNodes<V>(t: Tree<V>, h: nat, k: nat)
    requires Ok(t, h, k) && |t.vals| >= 1
    ensures NodesOk(t)
    decreases h
  {
    if h > 0 {
      forall i | 0 <= i < |t.kids|
        ensures NodesOk(t.kids[i])
      {
        ShapedNodes(t.kids[i], h - 1, k);
      }
    }
  }

  lemma {:induction false} VerifiedNodes<K, V>(t: Tree<V>, lo: Bound<K>, hi: Bound<K>, o: Order<K, V>)
    requires Verified(t, lo, hi, o)
    ensures NodesOk(t)
  {
    if !t.leaf {
      forall i | 0 <= i < |t.kids|
        ensures NodesOk(t.kids[i])
      {
        VerifiedNodes(t.kids[i], LowOf(t, i, lo, o), HighOf(t, i, hi, o), o);
      }
    }
  }

  /** `internal_verify`: the number of values that it returns. */
  function Counted<V>(t: Tree<V>): nat
    decreases t, 0
  {
    |t.vals| + if t.leaf then 0 else CountedKids(t.kids)
  }

  function CountedKids<V>(kids: seq<Tree<V>>): nat
    decreases kids, 1
  {
    if |kids| == 0 then 0 else Counted(kids[0]) + CountedKids(kids[1..])
  }

  lemma {:induction false} CountedIsSize<V>(t: Tree<V>)
    requires NodesOk(t)
    ensures Counted(t) == |InOrder(t)|
    decreases t, 0
  {
    if !t.leaf {
      CountedIsSize(t.kids[0]);
      CountedAfter(t.vals, t.kids[1..]);
    }
  }

  lemma {:induction false} CountedAfter<V>(vals: seq<V>, kids: seq<Tree<V>>)
    requires |vals| == |kids| && forall i :: 0 <= i < |kids| ==> NodesOk(kids[i])
    ensures |After(vals, kids)| == |vals| + CountedKids(kids)
    decreases kids, 1
  {
    if |kids| > 0 {
      CountedIsSize(kids[0]);
      CountedAfter(vals[1..], kids[1..]);
    }
  }

  // ----- Accepted trees are sorted

  /** Not greater than: what the bounds and the order of neighbours say. */
  predicate NotAfter<K, V>(v: V, w: V, o: Order<K, V>) { !o.less(o.key(w), o.key(v)) }

  lemma {:induction false} NeighboursSorted<K(!new), V>(s: seq<V>, i: nat, j: nat, o: Order<K, V>)
    requires Lawful(o) && i <= j < |s| && forall x :: 1 <= x < |s| ==> !o.less(o.key(s[x]), o.key(s[x - 1]))
    ensures NotAfter(s[i], s[j], o)
    decreases j - i
  {
    if i < j {
      NeighboursSorted(s, i, j - 1, o);
      assert !o.less(o.key(s[j]), o.key(s[j - 1]));
    }
  }

  lemma SortedJoin<K(!new), V>(l: seq<V>, v: V, r: seq<V>, lo: Bound<K>, hi: Bound<K>, o: Order<K, V>)
    requires Lawful(o) && Sorted(l, o, true) && Sorted(r, o, true) && AboveLow(v, lo, o) && BelowHigh(v, hi, o)
    requires Within(l, lo, At(o.key(v)), o) && Within(r, At(o.key(v)), hi, o)
    ensures Sorted(l + [v] + r, o, true) && Within(l + [v] + r, lo, hi, o)
  {
    var s := l + [v] + r;
    forall i, j | 0 <= i < j < |s|
      ensures !o.less(o.key(s[j]), o.key(s[i]))
    {
      if i < |l| { assert s[i] == l[i] && BelowHigh(l[i], At(o.key(v)), o); }
      if j > |l| { assert s[j] == r[j - |l| - 1] && AboveLow(r[j - |l| - 1], At(o.key(v)), o); }
    }
    forall i | 0 <= i < |s|
      ensures AboveLow(s[i], lo, o) && BelowHigh(s[i], hi, o)
    {
      if i < |l| {
        assert s[i] == l[i] && BelowHigh(l[i], At(o.key(v)), o);
      } else if i > |l| {
        assert s[i] == r[i - |l| - 1] && AboveLow(r[i - |l| - 1], At(o.key(v)), o);
      }
    }
  }

  lemma {:induction false} VerifiedSorted<K(!new), V>(t: Tree<V>, lo: Bound<K>, hi: Bound<K>, o: Order<K, V>)
    requires Lawful(o) && Verified(t, lo, hi, o)
    ensures Sorted(InOrder(t), o, true) && Within(InOrder(t), lo, hi, o)
    decreases t, 1, 0
  {
    if t.leaf {
      ValsSorted(t, lo, hi, o);
    } else {
      ThroughSorted(t, |t.vals|, lo, hi, o);
      ThroughAll(t);
    }
  }

  lemma ValsSorted<K(!new), V>(t: Tree<V>, lo: Bound<K>, hi: Bound<K>, o: Order<K, V>)
    requires Lawful(o) && NodeCheck(t, lo, hi, o)
    ensures Sorted(t.vals, o, true) && Within(t.vals, lo, hi, o)
  {
    forall i, j | 0 <= i <= j < |t.vals|
      ensures NotAfter(t.vals[i], t.vals[j], o)
    {
      NeighboursSorted(t.vals, i, j, o);
    }
    forall i | 0 <= i < |t.vals|
      ensures AboveLow(t.vals[i], lo, o) && BelowHigh(t.vals[i], hi, o)
    {
      assert NotAfter(t.vals[0], t.vals[i], o) && NotAfter(t.vals[i], t.vals[|t.vals| - 1], o);
    }
  }

  lemma ValWithin<K(!new), V>(t: Tree<V>, i: nat, lo: Bound<K>, hi: Bound<K>, o: Order<K, V>)
    requires Lawful(o) && NodeCheck(t, lo, hi, o) && i < |t.vals|
    ensures AboveLow(t.vals[i], lo, o) && BelowHigh(t.vals[i], HighOf(t, i + 1, hi, o), o)
  {
    ValsSorted(t, lo, hi, o);
  }

  lemma {:induction false} ThroughSorted<K(!new), V>(t: Tree<V>, q: nat, lo: Bound<K>, hi: Bound<K>, o: Order<K, V>)
    requires Lawful(o) && !t.leaf && Verified(t, lo, hi, o) && q <= |t.vals|
    ensures Sorted(NodeThrough(t, q), o, true) && Within(NodeThrough(t, q), lo, HighOf(t, q, hi, o), o)
    decreases t, 0, q
  {
    var kid := InOrder(t.kids[q]);
    VerifiedSorted(t.kids[q], LowOf(t, q, lo, o), HighOf(t, q, hi, o), o);
    if q == 0 {
      assert NodeThrough(t, 0) == kid;
    } else {
      hide Lawful, Sorted, Within, InOrder;
      var l, v := NodeThrough(t, q - 1), t.vals[q - 1];
      ThroughSorted(t, q - 1, lo, hi, o);
      ThroughNext(t, q - 1);
      assert NodeThrough(t, q) == l + [v] + kid;
      ValWithin(t, q - 1, lo, hi, o);
      SortedJoin(l, v, kid, lo, HighOf(t, q, hi, o), o);
    }
  }

  // ----- Sorted trees are accepted

  lemma {:induction false} SortedVerified<K(!new), V>(t: Tree<V>, lo: Bound<K>, hi: Bound<K>, o: Order<K, V>)
    requires NodesOk(t) && Sorted(InOrder(t), o, true) && Within(InOrder(t), lo, hi, o)
    ensures Verified(t, lo, hi, o)
  {
    ValsChecked(t, lo, hi, o);
    if !t.leaf {
      forall i | 0 <= i < |t.kids|
        ensures Verified(t.kids[i], LowOf(t, i, lo, o), HighOf(t, i, hi, o), o)
      {
        KidWithin(t, i, lo, hi, o);
        SortedVerified(t.kids[i], LowOf(t, i, lo, o), HighOf(t, i, hi, o), o);
      }
    }
  }

  lemma ValsChecked<K, V>(t: Tree<V>, lo: Bound<K>, hi: Bound<K>, o: Order<K, V>)
    requires 1 <= |t.vals| <= t.maxCount && (!t.leaf ==> |t.kids| == |t.vals| + 1)
    requires Sorted(InOrder(t), o, true) && Within(InOrder(t), lo, hi, o)
    ensures NodeCheck(t, lo, hi, o)
  {
    hide InOrder, NodeThrough;
    ValAt(t, 0, 0);
    ValAt(t, 0, |t.vals| - 1);
    forall i | 1 <= i < |t.vals|
      ensures !o.less(o.key(t.vals[i]), o.key(t.vals[i - 1]))
    {
      ValAt(t, i - 1, i);
      ValAt(t, i - 1, i - 1);
    }
  }

  lemma KidWithin<K, V>(t: Tree<V>, i: nat, lo: Bound<K>, hi: Bound<K>, o: Order<K, V>)
    requires !t.leaf && |t.kids| == |t.vals| + 1 && i <= |t.vals|
    requires Sorted(InOrder(t), o, true) && Within(InOrder(t), lo, hi, o)
    ensures Sorted(InOrder(t.kids[i]), o, true) && Within(InOrder(t.kids[i]), LowOf(t, i, lo, o), HighOf(t, i, hi, o), o)
  {
    hide InOrder;
    ThroughWhole(t, i);
    var l, x, r := NodeLeft(t, i), InOrder(t.kids[i]), NodeRight(t, i);
    assert InOrder(t) == l + x + r;
    if i > 0 { ThroughNext(t, i - 1); }
    if i < |t.vals| { FirstRight(t, i); }
    MiddleWithin(l, x, r, lo, hi, o);
  }

  lemma MiddleWithin<K, V>(l: seq<V>, x: seq<V>, r: seq<V>, lo: Bound<K>, hi: Bound<K>, o: Order<K, V>)
    requires Sorted(l + x + r, o, true) && Within(l + x + r, lo, hi, o)
    ensures Sorted(x, o, true)
    ensures Within(x, if |l| == 0 then lo else At(o.key(l[|l| - 1])), if |r| == 0 then hi else At(o.key(r[0])), o)
  {
    var s := l + x + r;
    assert forall i :: 0 <= i < |x| ==> x[i] == s[|l| + i];
    assert |l| > 0 ==> s[|l| - 1] == l[|l| - 1];
    assert |r| > 0 ==> s[|l| + |x|] == r[0];
  }

  // ----- Together

  lemma SortedEither<K(!new), V>(s: seq<V>, o: Order<K, V>, multi: bool)
    requires Lawful(o) && Sorted(s, o, multi)
    ensures Sorted(s, o, true)
  {
  }

  /** `internal_verify` accepts just the trees whose nodes are all in range and linked to
      their places and whose sequence is sorted, and counts their values. */
  lemma VerifyIff<K(!new), V>(t: Tree<V>, o: Order<K, V>)
    requires Lawful(o)
    ensures Verified(t, Open, Open, o) <==> NodesOk(t) && Sorted(InOrder(t), o, true)
    ensures NodesOk(t) ==> Counted(t) == |InOrder(t)|
  {
    if NodesOk(t) {
      CountedIsSize(t);
      if Sorted(InOrder(t), o, true) { SortedVerified(t, Open, Open, o); }
    }
    if Verified<K, V>(t, Open, Open, o) {
      VerifiedNodes(t, Open, Open, o);
      VerifiedSorted(t, Open, Open, o);
    }
  }

  /** A valid tree passes its own check, which counts its size. */
  lemma ValidIsVerified<K(!new), V>(t: BTree<K, V>)
    requires t.Valid() && t.size > 0
    ensures Verified(t.root, Open, Open, t.order) && Counted(t.root) == t.size
  {
    t.HasValues();
    SortedEither(t.Contents(), t.order, t.multi);
    ShapedNodes(t.root, t.height, t.k);
    VerifyIff(t.root, t.order);
  }

  // ----- How high a tree is

  /** A tree of height h has at least 2^(h + 1) - 1 values. */
  lemma {:induction false} HeightBound<V>(t: Tree<V>, h: nat, k: nat)
    requires Shaped(t, h, k) && |t.vals| >= 1
    ensures |InOrder(t)| + 1 >= Pow2(h + 1)
    decreases h
  {
    if h == 0 {
      assert Pow2(1) == 2;
    } else {
      HeightBound(t.kids[0], h - 1, k);
      HeightBound(t.kids[1], h - 1, k);
      var kids := t.kids[1..];
      assert After(t.vals, kids) == [t.vals[0]] + InOrder(kids[0]) + After(t.vals[1..], kids[1..]);
    }
  }

  /** The height is at most logarithmic in the number of values. */
  lemma HeightIsLogarithmic<K(!new), V>(t: BTree<K, V>)
    requires t.Valid() && t.size > 0
    ensures Pow2(t.height + 1) <= t.size + 1
  {
    t.HasValues();
    HeightBound(t.root, t.height, t.k);
  }
}

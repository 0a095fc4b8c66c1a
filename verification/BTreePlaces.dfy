/**
 Places in a tree: a node and a position in it. A place stays the same place when
 values and children move between the node and its sibling, if the position is
 adjusted the way the source adjusts it.
 */
module BTreePlaces {
  import opened BTreeShape
  import opened BTreeMoves
  import opened BTreeSiblings

  /** What is in a node before position q, and after it; in an internal node, the
      child at q is in neither. */
  function NodeLeft<V>(n: Tree<V>, q: nat): seq<V>
    requires q <= |n.vals| && (!n.leaf ==> |n.kids| == |n.vals| + 1)
  {
    if n.leaf then n.vals[..q] else Before(n.vals[..q], n.kids[..q])
  }

  function NodeRight<V>(n: Tree<V>, q: nat): seq<V>
    requires q <= |n.vals| && (!n.leaf ==> |n.kids| == |n.vals| + 1)
  {
    if n.leaf then n.vals[q..] else After(n.vals[q..], n.kids[q + 1..])
  }

  /** Equal but for the links. */
  ghost predicate SameKid<V>(a: Tree<V>, b: Tree<V>) { a.(parent := 0, position := 0) == b.(parent := 0, position := 0) }

  ghost predicate SameKids<V>(a: seq<Tree<V>>, b: seq<Tree<V>>) {
    |a| == |b| && forall i :: 0 <= i < |a| ==> SameKid(a[i], b[i])
  }

  lemma SameKidInOrder<V>(a: Tree<V>, b: Tree<V>)
    requires SameKid(a, b)
    ensures InOrder(a) == InOrder(b)
  {
    InOrderLink(a, 0, 0);
    InOrderLink(b, 0, 0);
  }

  lemma {:induction false} SameKidsWeave<V>(vals: seq<V>, a: seq<Tree<V>>, b: seq<Tree<V>>)
    requires SameKids(a, b)
    ensures Before(vals, a) == Before(vals, b) && After(vals, a) == After(vals, b)
    decreases |a|
  {
    if |a| > 0 && |vals| > 0 {
      SameKidInOrder(a[0], b[0]);
      SameKidsWeave(vals[1..], a[1..], b[1..]);
    }
  }

  /** Equal values and equal children but for the links. */
  ghost predicate SameContent<V>(n: Tree<V>, m: Tree<V>) { n.leaf == m.leaf && n.vals == m.vals && SameKids(n.kids, m.kids) }

  lemma SameContentPlace<V>(n: Tree<V>, m: Tree<V>, q: nat)
    requires SameContent(n, m) && q <= |n.vals| && (!n.leaf ==> |n.kids| == |n.vals| + 1)
    ensures NodeLeft(n, q) == NodeLeft(m, q) && NodeRight(n, q) == NodeRight(m, q)
  {
    if !n.leaf {
      SameKidsWeave(n.vals[..q], n.kids[..q], m.kids[..q]);
      SameKidsWeave(n.vals[q..], n.kids[q + 1..], m.kids[q + 1..]);
    }
  }

  lemma RecutContent<V>(p: Pair<V>, c: nat, h: nat, k: nat)
    requires PairOk(p, h, k) && c <= |p.l.vals| + |p.r.vals|
    ensures var q := Recut(p, c); SameContent(Join(q.l, q.d, q.r), Join(p.l, p.d, p.r))
  {
    hide KidsOk, CtxOk;
    var j, q := Join(p.l, p.d, p.r), Recut(p, c);
    CutContent(j, c, p.r);
  }

  /** Joining what was cut gives the node back. */
  lemma CutContent<V>(n: Tree<V>, c: nat, r: Tree<V>)
    requires c < |n.vals| && (!n.leaf ==> |n.kids| == |n.vals| + 1) && (n.leaf ==> n.kids == [])
    ensures SameContent(Join(CutLeft(n, c), n.vals[c], CutRight(n, c, r)), n)
  {
    var j := Join(CutLeft(n, c), n.vals[c], CutRight(n, c, r));
    assert n.vals == n.vals[..c] + [n.vals[c]] + n.vals[c + 1..];
    if !n.leaf {
      forall i | 0 <= i < |n.kids|
        ensures SameKid(j.kids[i], n.kids[i])
      {
        if i <= c { assert j.kids[i] == n.kids[i]; }
      }
    }
  }

  // ----- A place in a pair

  /** A place given by the node, its context and the position. */
  datatype Place<V> = Place(n: Tree<V>, c: Ctx<V>, pos: nat)

  /** The place at position q of the joined values of a pair. */
  function PlaceAt<V>(p: Pair<V>, q: nat): Place<V>
    requires p.c.In?
  {
    if q <= |p.l.vals| then Place(p.l, AtLeft(p), q) else Place(p.r, AtRight(p), q - |p.l.vals| - 1)
  }

  /** Everything before and after a place. */
  function PlaceLeft<V>(a: Place<V>): seq<V>
    requires a.pos <= |a.n.vals| && (!a.n.leaf ==> |a.n.kids| == |a.n.vals| + 1)
  {
    Left(a.c) + NodeLeft(a.n, a.pos)
  }

  function PlaceRight<V>(a: Place<V>): seq<V>
    requires a.pos <= |a.n.vals| && (!a.n.leaf ==> |a.n.kids| == |a.n.vals| + 1)
  {
    NodeRight(a.n, a.pos) + Right(a.c)
  }

  predicate PlaceOk<V>(a: Place<V>, h: nat, k: nat) { ZipOk(a.n, a.c, h, k) && a.pos <= |a.n.vals| }

  lemma NodeLeftJoin<V>(l: Tree<V>, d: V, r: Tree<V>, q: nat, h: nat, k: nat)
    requires Siblings(l, r, h, k) && q <= |l.vals| + 1 + |r.vals|
    ensures var j := Join(l, d, r);
            && (!j.leaf ==> |j.kids| == |j.vals| + 1)
            && NodeLeft(j, q) == (if q <= |l.vals| then NodeLeft(l, q) else InOrder(l) + [d] + NodeLeft(r, q - |l.vals| - 1))
  {
    hide KidsOk;
    var j := Join(l, d, r);
    if q <= |l.vals| {
      assert j.vals[..q] == l.vals[..q];
      if h > 0 { assert j.kids[..q] == l.kids[..q]; }
    } else {
      var i := q - |l.vals| - 1;
      assert j.vals[..q] == l.vals + [d] + r.vals[..i];
      if h > 0 {
        var moved := Relink(r.kids, l.id, |l.kids|);
        assert j.kids[..q] == l.kids + moved[..i];
        assert moved[..i] == Relink(r.kids[..i], l.id, |l.kids|);
        BeforeAppend(l.vals + [d], l.kids, r.vals[..i], moved[..i]);
        WeaveRelink(r.vals[..i], r.kids[..i], l.id, |l.kids|);
        BeforeAll(l, d);
      }
    }
  }

  /** A node's children and values with one value behind. */
  lemma BeforeAll<V>(l: Tree<V>, d: V)
    requires !l.leaf && |l.kids| == |l.vals| + 1
    ensures Before(l.vals + [d], l.kids) == InOrder(l) + [d]
  {
    var n := |l.vals|;
    var last := l.kids[n];
    assert l.kids == l.kids[..n] + [last];
    BeforeAppend(l.vals, l.kids[..n], [d], [last]);
    InOrderSplit(l.vals, l.kids[..n], last, [], [], l);
    assert Before([d], [last]) == InOrder(last) + [d];
  }

  lemma NodeRightJoin<V>(l: Tree<V>, d: V, r: Tree<V>, q: nat, h: nat, k: nat)
    requires Siblings(l, r, h, k) && q <= |l.vals| + 1 + |r.vals|
    ensures var j := Join(l, d, r);
            && (!j.leaf ==> |j.kids| == |j.vals| + 1)
            && NodeRight(j, q) == (if q <= |l.vals| then NodeRight(l, q) + [d] + InOrder(r) else NodeRight(r, q - |l.vals| - 1))
  {
    if q <= |l.vals| { RightOfLeft(l, d, r, q, h, k); } else { RightOfRight(l, d, r, q - |l.vals| - 1, h, k); }
  }

  lemma RightOfRight<V>(l: Tree<V>, d: V, r: Tree<V>, i: nat, h: nat, k: nat)
    requires Siblings(l, r, h, k) && i <= |r.vals|
    ensures var j := Join(l, d, r);
            && (!j.leaf ==> |j.kids| == |j.vals| + 1)
            && NodeRight(j, |l.vals| + 1 + i) == NodeRight(r, i)
  {
    hide KidsOk, InOrder, After, Before;
    var j := Join(l, d, r);
    var q := |l.vals| + 1 + i;
    assert j.vals[q..] == r.vals[i..];
    if h > 0 {
      var moved := Relink(r.kids, l.id, |l.kids|);
      assert j.kids[q + 1..] == moved[i + 1..];
      assert moved[i + 1..] == Relink(r.kids[i + 1..], l.id, |l.kids| + i + 1);
      WeaveRelink(r.vals[i..], r.kids[i + 1..], l.id, |l.kids| + i + 1);
    }
  }

  lemma RightOfLeft<V>(l: Tree<V>, d: V, r: Tree<V>, q: nat, h: nat, k: nat)
    requires Siblings(l, r, h, k) && q <= |l.vals|
    ensures var j := Join(l, d, r);
            && (!j.leaf ==> |j.kids| == |j.vals| + 1)
            && NodeRight(j, q) == NodeRight(l, q) + [d] + InOrder(r)
  {
    hide KidsOk, After, Before;
    var j := Join(l, d, r);
    assert j.vals[q..] == l.vals[q..] + ([d] + r.vals);
    if h > 0 {
      hide InOrder;
      var moved := Relink(r.kids, l.id, |l.kids|);
      assert j.kids[q + 1..] == l.kids[q + 1..] + moved;
      AfterAppend(l.vals[q..], l.kids[q + 1..], [d] + r.vals, moved);
      WeaveRelink([d] + r.vals, r.kids, l.id, |l.kids|);
      AfterAll(d, r);
    }
  }

  lemma AfterAll<V>(d: V, r: Tree<V>)
    requires !r.leaf && |r.kids| == |r.vals| + 1
    ensures After([d] + r.vals, r.kids) == [d] + InOrder(r)
  {
    assert ([d] + r.vals)[1..] == r.vals;
  }

  lemma AtRightSeq<V>(p: Pair<V>)
    requires p.c.In? && |p.c.lk| == |p.c.lv|
    ensures Left(AtRight(p)) == Left(p.c) + InOrder(p.l) + [p.d] && Right(AtRight(p)) == Right(p.c)
  {
    LastOfLeft(AtRight(p), p.l, p.d, p.c);
  }

  /** A place of a pair, in terms of the joined node. */
  lemma PlaceAtSeq<V>(p: Pair<V>, q: nat, h: nat, k: nat)
    requires PairOk(p, h, k) && q <= |p.l.vals| + 1 + |p.r.vals|
    ensures var a, j := PlaceAt(p, q), Join(p.l, p.d, p.r);
            && PlaceOf(a, j, q)
            && PlaceLeft(a) == Left(p.c) + NodeLeft(j, q)
            && PlaceRight(a) == NodeRight(j, q) + Right(p.c)
  {
    PlaceAtKid(p, q, h, k);
    hide KidsOk, CtxOk, InOrder, Left, Right, NodeLeft, NodeRight;
    NodeLeftJoin(p.l, p.d, p.r, q, h, k);
    NodeRightJoin(p.l, p.d, p.r, q, h, k);
    hide Join;
    if q <= |p.l.vals| {
      AtLeftSeq(p);
      Regroup(NodeRight(p.l, q), [p.d], InOrder(p.r), Right(p.c));
    } else {
      AtRightSeq(p);
      Regroup(Left(p.c), InOrder(p.l), [p.d], NodeLeft(p.r, q - |p.l.vals| - 1));
    }
  }

  lemma Regroup<T>(a: seq<T>, b: seq<T>, c: seq<T>, d: seq<T>)
    ensures a + b + c + d == a + (b + c + d)
  {
  }

  /** The place is one in a node of the kind of j, and has the child of j at q. */
  ghost predicate PlaceOf<V>(a: Place<V>, j: Tree<V>, q: nat) {
    && a.pos <= |a.n.vals| && q <= |j.vals| && a.n.leaf == j.leaf
    && (!j.leaf ==> |a.n.kids| == |a.n.vals| + 1 && |j.kids| == |j.vals| + 1 && SameKid(a.n.kids[a.pos], j.kids[q]))
  }

  lemma PlaceAtKid<V>(p: Pair<V>, q: nat, h: nat, k: nat)
    requires PairOk(p, h, k) && q <= |p.l.vals| + 1 + |p.r.vals|
    ensures PlaceOf(PlaceAt(p, q), Join(p.l, p.d, p.r), q)
  {
    hide KidsOk, CtxOk;
  }

  // ----- Moves that keep a place

  /** The same values before and after, and the same child at the position. */
  ghost predicate SamePlace<V>(a: Place<V>, b: Place<V>) {
    && a.pos <= |a.n.vals| && b.pos <= |b.n.vals| && a.n.leaf == b.n.leaf
    && (!a.n.leaf ==> |a.n.kids| == |a.n.vals| + 1 && |b.n.kids| == |b.n.vals| + 1 && SameKid(a.n.kids[a.pos], b.n.kids[b.pos]))
    && PlaceLeft(a) == PlaceLeft(b) && PlaceRight(a) == PlaceRight(b)
  }

  /** Rebalancing keeps every place of a pair. */
  lemma RecutPlace<V>(p: Pair<V>, q: nat, c: nat, h: nat, k: nat)
    requires PairOk(p, h, k) && q <= |p.l.vals| + 1 + |p.r.vals|
    requires c <= |p.l.vals| + |p.r.vals| && c <= k && |p.l.vals| + |p.r.vals| - c <= k
    ensures SamePlace(PlaceAt(p, q), PlaceAt(Recut(p, c), q))
  {
    RecutKeeps(p, c, h, k);
    RecutContent(p, c, h, k);
    hide KidsOk, CtxOk, InOrder, Left, Right, NodeLeft, NodeRight, PlaceLeft, PlaceRight;
    PlaceAtSeq(p, q, h, k);
    PlaceAtSeq(Recut(p, c), q, h, k);
    var s := Recut(p, c);
    SameContentPlace(Join(s.l, s.d, s.r), Join(p.l, p.d, p.r), q);
  }

  /** Merging keeps every place of a pair. */
  lemma MergePlace<V>(p: Pair<V>, q: nat, h: nat, k: nat)
    requires PairOk(p, h, k) && q <= |p.l.vals| + 1 + |p.r.vals|
    ensures SamePlace(PlaceAt(p, q), Place(Join(p.l, p.d, p.r), Closed(p), q))
  {
    hide KidsOk, CtxOk, InOrder;
    PlaceAtSeq(p, q, h, k);
    WeaveRelink(p.c.rv, p.c.rk, p.c.id, |p.c.lk| + 1);
  }

  // ----- Splitting

  /** A full node and the new sibling that takes over what is behind value number
      cut; the parent's children behind them move up one place. */
  function Halves<V>(n: Tree<V>, c: Ctx<V>, cut: nat, id: nat, k: nat): Pair<V>
    requires c.In? && cut < |n.vals| && (!n.leaf ==> |n.kids| == |n.vals| + 1)
  {
    var sibling := Node(id, c.id, |c.lk| + 1, k, n.leaf, [], []);
    Pair(CutLeft(n, cut), n.vals[cut], CutRight(n, cut, sibling), c.(rk := Relink(c.rk, c.id, |c.lk| + 2)))
  }

  lemma SplitKeeps<V>(n: Tree<V>, c: Ctx<V>, cut: nat, id: nat, h: nat, k: nat)
    requires c.In? && OpenZipOk(n, c, h, k) && cut < |n.vals| && |c.lv| + |c.rv| < k
    ensures var p := Halves(n, c, cut, id, k);
            && PairOk(p, h, k) && |p.l.vals| == cut && |p.r.vals| == |n.vals| - cut - 1
            && forall x :: PairOccurs(p, x) == ZipOccurs(n, c, x) + if x == id then 1 else 0
  {
    var p := Halves(n, c, cut, id, k);
    var sibling := Node(id, c.id, |c.lk| + 1, k, n.leaf, [], []);
    CutShaped(n, cut, sibling, h, k);
    RelinkOk(c.rk, h, k, c.id, |c.lk| + 1, c.id, |c.lk| + 2);
    forall x
      ensures PairOccurs(p, x) == ZipOccurs(n, c, x) + if x == id then 1 else 0
    {
      CutOccurs(n, cut, sibling, h, k, x);
      OccurRelink(c.rk, c.id, |c.lk| + 2, x);
    }
  }

  lemma SplitEnds<V>(n: Tree<V>, c: Ctx<V>, cut: nat, id: nat, h: nat, k: nat)
    requires c.In? && OpenZipOk(n, c, h, k) && cut < |n.vals|
    ensures var p := Halves(n, c, cut, id, k);
            && PairFirst(p) == ZipFirst(n, c)
            && PairLast(p) == if h == 0 then LastOf(id, c) else ZipLast(n, c)
  {
    hide KidsOk, CtxOk;
    CutEnds(n, cut, Node(id, c.id, |c.lk| + 1, k, n.leaf, [], []), h, k);
    if |c.rk| > 0 {
      LinkedEnds(c.rk[|c.rk| - 1], c.id, |c.lk| + |c.rk| + 1);
    }
  }

  lemma SplitPlace<V>(n: Tree<V>, c: Ctx<V>, cut: nat, id: nat, q: nat, h: nat, k: nat)
    requires c.In? && OpenZipOk(n, c, h, k) && cut < |n.vals| && |c.lv| + |c.rv| < k && q <= |n.vals|
    ensures SamePlace(Place(n, c, q), PlaceAt(Halves(n, c, cut, id, k), q))
  {
    SplitKeeps(n, c, cut, id, h, k);
    WeaveRelink(c.rv, c.rk, c.id, |c.lk| + 2);
    hide KidsOk, CtxOk, InOrder, Before, After, NodeLeft, NodeRight;
    var p := Halves(n, c, cut, id, k);
    CutContent(n, cut, Node(id, c.id, |c.lk| + 1, k, n.leaf, [], []));
    PlaceAtSeq(p, q, h, k);
    SameContentPlace(Join(p.l, p.d, p.r), n, q);
  }

  /** The place of a pair as a zipper. */
  lemma PlaceAtKeeps<V>(p: Pair<V>, q: nat, h: nat, k: nat)
    requires PairOk(p, h, k) && q <= |p.l.vals| + 1 + |p.r.vals|
    requires if q <= |p.l.vals| then |p.r.vals| >= 1 else |p.l.vals| >= 1
    ensures var a := PlaceAt(p, q);
            && PlaceOk(a, h, k)
            && ZipFirst(a.n, a.c) == PairFirst(p) && ZipLast(a.n, a.c) == PairLast(p)
            && forall x :: ZipOccurs(a.n, a.c, x) == PairOccurs(p, x)
  {
    if q <= |p.l.vals| { AtLeftKeeps(p, h, k); } else { AtRightKeeps(p, h, k); }
  }
}

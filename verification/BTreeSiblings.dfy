/**
 Zippers on one node and on two adjacent siblings, and the moves between them.
 */
module BTreeSiblings {
  import opened BTreeShape
  import opened BTreeMoves

  /** A node in its context: all in order, but the node itself may be empty. */
  predicate ZipOk<V>(n: Tree<V>, c: Ctx<V>, h: nat, k: nat) {
    Ok(n, h, k) && (c.In? ==> n.maxCount == k) && Fits(n.parent, n.position, c) && CtxOk(c, h, k)
  }

  /** The same, where the parent may be without values, too. */
  predicate OpenZipOk<V>(n: Tree<V>, c: Ctx<V>, h: nat, k: nat)
    requires c.In?
  {
    Ok(n, h, k) && n.maxCount == k && Fits(n.parent, n.position, c) && FrameOk(c, h, k) && CtxOk(c.up, h + 1, k)
  }

  function ZipFirst<V>(n: Tree<V>, c: Ctx<V>): nat { FirstOf(FirstLeaf(n), c) }
  function ZipLast<V>(n: Tree<V>, c: Ctx<V>): nat { LastOf(LastLeaf(n), c) }
  function ZipOccurs<V>(n: Tree<V>, c: Ctx<V>, x: nat): nat { Occurs(n, x) + CtxOccurs(c, x) }

  /** Two adjacent siblings l and r with the delimiter d between them; c holds what
      is around both. */
  datatype Pair<V> = Pair(l: Tree<V>, d: V, r: Tree<V>, c: Ctx<V>)

  predicate PairOk<V>(p: Pair<V>, h: nat, k: nat) {
    var c := p.c;
    && c.In? && Ok(p.l, h, k) && Ok(p.r, h, k) && p.l.maxCount == k && p.r.maxCount == k
    && p.l.parent == c.id && p.l.position == |c.lk| && p.r.parent == c.id && p.r.position == |c.lk| + 1
    && |c.lk| == |c.lv| && |c.rk| == |c.rv| && |c.lv| + 1 + |c.rv| <= k
    && KidsOk(c.lk, h, k, c.id, 0) && KidsOk(c.rk, h, k, c.id, |c.lk| + 2)
    && Fits(c.parent, c.position, c.up) && CtxOk(c.up, h + 1, k)
  }

  function PairSeq<V>(p: Pair<V>): seq<V> { InOrder(p.l) + [p.d] + InOrder(p.r) }

  function PairFirst<V>(p: Pair<V>): nat { FirstOf(FirstLeaf(p.l), p.c) }
  function PairLast<V>(p: Pair<V>): nat { LastOf(LastLeaf(p.r), p.c) }
  function PairOccurs<V>(p: Pair<V>, x: nat): nat { Occurs(p.l, x) + Occurs(p.r, x) + CtxOccurs(p.c, x) }

  // ----- From a node to a pair

  /** A node and its right sibling. */
  function WithRight<V>(n: Tree<V>, c: Ctx<V>): Pair<V>
    requires c.In? && |c.rk| > 0 && |c.rv| > 0
  {
    Pair(n, c.rv[0], c.rk[0], c.(rv := c.rv[1..], rk := c.rk[1..]))
  }

  /** A node and its left sibling. */
  function WithLeft<V>(n: Tree<V>, c: Ctx<V>): Pair<V>
    requires c.In? && |c.lk| > 0 && |c.lv| > 0
  {
    var i, j := |c.lv| - 1, |c.lk| - 1;
    Pair(c.lk[j], c.lv[i], n, c.(lv := c.lv[..i], lk := c.lk[..j]))
  }

  lemma WithRightKeeps<V>(n: Tree<V>, c: Ctx<V>, h: nat, k: nat)
    requires ZipOk(n, c, h, k) && c.In? && |c.rk| > 0
    ensures var p := WithRight(n, c);
            && PairOk(p, h, k) && |p.r.vals| >= 1
            && Left(p.c) == Left(c) && PairSeq(p) + Right(p.c) == InOrder(n) + Right(c)
            && PairFirst(p) == ZipFirst(n, c) && PairLast(p) == ZipLast(n, c)
            && forall x :: PairOccurs(p, x) == ZipOccurs(n, c, x)
  {
    var p := WithRight(n, c);
    assert c.rk == [p.r] + p.c.rk;
    forall x
      ensures PairOccurs(p, x) == ZipOccurs(n, c, x)
    {
    }
  }

  lemma WithLeftKeeps<V>(n: Tree<V>, c: Ctx<V>, h: nat, k: nat)
    requires ZipOk(n, c, h, k) && c.In? && |c.lk| > 0
    ensures var p := WithLeft(n, c);
            && PairOk(p, h, k) && |p.l.vals| >= 1
            && Left(p.c) + InOrder(p.l) + [p.d] == Left(c) && Right(p.c) == Right(c)
            && PairFirst(p) == ZipFirst(n, c) && PairLast(p) == ZipLast(n, c)
            && forall x :: PairOccurs(p, x) == ZipOccurs(n, c, x)
  {
    var p := WithLeft(n, c);
    LastOfLeft(c, p.l, p.d, p.c);
    forall x
      ensures PairOccurs(p, x) == ZipOccurs(n, c, x)
    {
      OccurAppend(p.c.lk, [p.l], x);
      assert KidsOccur([p.l], x) == Occurs(p.l, x);
    }
  }

  /** Adding a child and a value to the left of the hole. */
  lemma LastOfLeft<V>(c: Ctx<V>, l: Tree<V>, d: V, b: Ctx<V>)
    requires c.In? && b.In? && c.up == b.up && |b.lk| == |b.lv|
    requires c.lv == b.lv + [d] && c.lk == b.lk + [l]
    ensures Left(c) == Left(b) + InOrder(l) + [d]
  {
    BeforeAppend(b.lv, b.lk, [d], [l]);
    assert Before([d], [l]) == InOrder(l) + [d] + Before([d][1..], [l][1..]);
    assert Left(b) + InOrder(l) + [d] == Left(b.up) + (Before(b.lv, b.lk) + (InOrder(l) + [d]));
  }

  // ----- From a pair to a node

  /** The left one of the pair in its context, and the right one. */
  function AtLeft<V>(p: Pair<V>): Ctx<V>
    requires p.c.In?
  {
    p.c.(rv := [p.d] + p.c.rv, rk := [p.r] + p.c.rk)
  }

  function AtRight<V>(p: Pair<V>): Ctx<V>
    requires p.c.In?
  {
    p.c.(lv := p.c.lv + [p.d], lk := p.c.lk + [p.l])
  }

  lemma AtLeftKeeps<V>(p: Pair<V>, h: nat, k: nat)
    requires PairOk(p, h, k) && |p.r.vals| >= 1
    ensures ZipOk(p.l, AtLeft(p), h, k)
    ensures Left(AtLeft(p)) == Left(p.c) && Right(AtLeft(p)) == [p.d] + InOrder(p.r) + Right(p.c)
    ensures ZipFirst(p.l, AtLeft(p)) == PairFirst(p) && ZipLast(p.l, AtLeft(p)) == PairLast(p)
    ensures forall x :: ZipOccurs(p.l, AtLeft(p), x) == PairOccurs(p, x)
  {
    hide InOrder, Occurs;
    KidsOkAppend([p.r], p.c.rk, h, k, p.c.id, |p.c.lk| + 1);
    AtLeftSeq(p);
    var c := AtLeft(p);
    assert c.rk[0] == p.r && c.rk[1..] == p.c.rk;
  }

  lemma AtLeftSeq<V>(p: Pair<V>)
    requires p.c.In?
    ensures Left(AtLeft(p)) == Left(p.c) && Right(AtLeft(p)) == [p.d] + InOrder(p.r) + Right(p.c)
  {
    hide InOrder;
    FirstOfRight(p.d, p.r, p.c.rv, p.c.rk);
  }

  lemma FirstOfRight<V>(d: V, r: Tree<V>, rv: seq<V>, rk: seq<Tree<V>>)
    ensures After([d] + rv, [r] + rk) == [d] + InOrder(r) + After(rv, rk)
  {
    assert ([d] + rv)[1..] == rv && ([r] + rk)[1..] == rk;
  }

  lemma AtRightKeeps<V>(p: Pair<V>, h: nat, k: nat)
    requires PairOk(p, h, k) && |p.l.vals| >= 1
    ensures ZipOk(p.r, AtRight(p), h, k)
    ensures Left(AtRight(p)) == Left(p.c) + InOrder(p.l) + [p.d] && Right(AtRight(p)) == Right(p.c)
    ensures ZipFirst(p.r, AtRight(p)) == PairFirst(p) && ZipLast(p.r, AtRight(p)) == PairLast(p)
    ensures forall x :: ZipOccurs(p.r, AtRight(p), x) == PairOccurs(p, x)
  {
    var c := AtRight(p);
    LastOfLeft(c, p.l, p.d, p.c);
    forall x
      ensures ZipOccurs(p.r, c, x) == PairOccurs(p, x)
    {
      OccurAppend(p.c.lk, [p.l], x);
      assert KidsOccur([p.l], x) == Occurs(p.l, x);
    }
  }

  // ----- Merging and rebalancing a pair

  /** What is around the merged node: the children behind it move up one place. */
  function Closed<V>(p: Pair<V>): Ctx<V>
    requires p.c.In?
  {
    p.c.(rk := Relink(p.c.rk, p.c.id, |p.c.lk| + 1))
  }

  lemma MergeKeeps<V>(p: Pair<V>, h: nat, k: nat)
    requires PairOk(p, h, k) && |p.l.vals| + 1 + |p.r.vals| <= k
    ensures var n := Join(p.l, p.d, p.r);
            && OpenZipOk(n, Closed(p), h, k)
            && InOrder(n) == PairSeq(p) && Left(Closed(p)) == Left(p.c) && Right(Closed(p)) == Right(p.c)
            && forall x :: ZipOccurs(n, Closed(p), x) + (if p.r.id == x then 1 else 0) == PairOccurs(p, x)
  {
    JoinShaped(p.l, p.d, p.r, h, k);
    JoinInOrder(p.l, p.d, p.r, h, k);
    RelinkOk(p.c.rk, h, k, p.c.id, |p.c.lk| + 2, p.c.id, |p.c.lk| + 1);
    WeaveRelink(p.c.rv, p.c.rk, p.c.id, |p.c.lk| + 1);
    forall x
      ensures ZipOccurs(Join(p.l, p.d, p.r), Closed(p), x) + (if p.r.id == x then 1 else 0) == PairOccurs(p, x)
    {
      JoinOccurs(p.l, p.d, p.r, x);
      OccurRelink(p.c.rk, p.c.id, |p.c.lk| + 1, x);
    }
  }

  lemma MergeEnds<V>(p: Pair<V>, h: nat, k: nat)
    requires PairOk(p, h, k)
    ensures ZipFirst(Join(p.l, p.d, p.r), Closed(p)) == PairFirst(p)
    ensures ZipLast(Join(p.l, p.d, p.r), Closed(p)) == if h == 0 then LastOf(p.l.id, p.c) else PairLast(p)
  {
    hide KidsOk, CtxOk;
    JoinEnds(p.l, p.d, p.r, h, k);
    if |p.c.rk| > 0 {
      LinkedEnds(p.c.rk[|p.c.rk| - 1], p.c.id, |p.c.lk| + |p.c.rk|);
    }
  }

  lemma LinkedEnds<V>(t: Tree<V>, parent: nat, position: nat)
    ensures FirstLeaf(t.(parent := parent, position := position)) == FirstLeaf(t)
    ensures LastLeaf(t.(parent := parent, position := position)) == LastLeaf(t)
  {
  }

  lemma RecutEnds<V>(p: Pair<V>, c: nat, h: nat, k: nat)
    requires PairOk(p, h, k) && c <= |p.l.vals| + |p.r.vals|
    ensures PairFirst(Recut(p, c)) == PairFirst(p) && PairLast(Recut(p, c)) == PairLast(p)
  {
    var j := Join(p.l, p.d, p.r);
    JoinShaped(p.l, p.d, p.r, h, k);
    hide KidsOk, CtxOk;
    JoinEnds(p.l, p.d, p.r, h, k);
    CutEnds(j, c, p.r, h, k);
  }

  /** The pair after moving values so that the left one has c of them. */
  function Recut<V>(p: Pair<V>, c: nat): Pair<V>
    requires c < |p.l.vals| + 1 + |p.r.vals|
    requires !p.l.leaf ==> |p.l.kids| == |p.l.vals| + 1 && |p.r.kids| == |p.r.vals| + 1
  {
    var j := Join(p.l, p.d, p.r);
    Pair(CutLeft(j, c), j.vals[c], CutRight(j, c, p.r), p.c)
  }

  lemma RecutKeeps<V>(p: Pair<V>, c: nat, h: nat, k: nat)
    requires PairOk(p, h, k) && c <= |p.l.vals| + |p.r.vals| && c <= k && |p.l.vals| + |p.r.vals| - c <= k
    ensures var q := Recut(p, c);
            && PairOk(q, h, k) && |q.l.vals| == c && |q.r.vals| == |p.l.vals| + |p.r.vals| - c
            && PairSeq(q) == PairSeq(p)
            && forall x :: PairOccurs(q, x) == PairOccurs(p, x)
  {
    RebalanceKeeps(p.l, p.d, p.r, c, h, k);
  }
}

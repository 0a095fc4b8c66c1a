/**
 Moving values and children between a node and its sibling. Splitting, merging
 and both ways of rebalancing are cuts of one joined node at different places, so
 all of them keep left ++ [delimiter] ++ right and the order of the children.
 */
module BTreeMoves {
  import opened BTreeShape

  /** `merge`: everything of the right sibling and the delimiter moves into left. */
  function Join<V>(l: Tree<V>, d: V, r: Tree<V>): Tree<V> {
    l.(vals := l.vals + [d] + r.vals, kids := l.kids + Relink(r.kids, l.id, |l.kids|))
  }

  /** What stays in a node that is cut at value c. */
  function CutLeft<V>(n: Tree<V>, c: nat): Tree<V>
    requires c < |n.vals| && (!n.leaf ==> |n.kids| == |n.vals| + 1)
  {
    n.(vals := n.vals[..c], kids := if n.leaf then [] else n.kids[..c + 1])
  }

  /** What moves into the right sibling r. */
  function CutRight<V>(n: Tree<V>, c: nat, r: Tree<V>): Tree<V>
    requires c < |n.vals| && (!n.leaf ==> |n.kids| == |n.vals| + 1)
  {
    r.(vals := n.vals[c + 1..], kids := if n.leaf then [] else Relink(n.kids[c + 1..], r.id, 0))
  }

  /** Two siblings of height h that may be joined. */
  predicate Siblings<V>(l: Tree<V>, r: Tree<V>, h: nat, k: nat) {
    Ok(l, h, k) && Ok(r, h, k)
  }

  /** The sequence of an internal node's values and children. */
  function Flat<V>(vals: seq<V>, kids: seq<Tree<V>>): seq<V>
    requires |kids| > 0
  {
    InOrder(kids[0]) + After(vals, kids[1..])
  }

  lemma FlatAppend<V>(v: seq<V>, k: seq<Tree<V>>, d: V, v': seq<V>, k': seq<Tree<V>>)
    requires |k| == |v| + 1 && |k'| > 0
    ensures Flat(v + [d] + v', k + k') == Flat(v, k) + [d] + Flat(v', k')
  {
    assert (k + k')[1..] == k[1..] + k' && v + [d] + v' == v + ([d] + v');
    AfterAppend(v, k[1..], [d] + v', k');
    assert ([d] + v')[1..] == v';
    assert After([d] + v', k') == [d] + InOrder(k'[0]) + After(v', k'[1..]);
  }

  lemma FlatRelink<V>(vals: seq<V>, kids: seq<Tree<V>>, parent: nat, from: nat)
    requires |kids| > 0
    ensures Flat(vals, Relink(kids, parent, from)) == Flat(vals, kids)
  {
    assert Relink(kids, parent, from)[1..] == Relink(kids[1..], parent, from + 1);
    WeaveRelink(vals, kids[1..], parent, from + 1);
    InOrderLink(kids[0], parent, from);
  }

  lemma JoinInOrder<V>(l: Tree<V>, d: V, r: Tree<V>, h: nat, k: nat)
    requires Siblings(l, r, h, k)
    ensures InOrder(Join(l, d, r)) == InOrder(l) + [d] + InOrder(r)
  {
    if h > 0 {
      hide After;
      FlatAppend(l.vals, l.kids, d, r.vals, Relink(r.kids, l.id, |l.kids|));
      FlatRelink(r.vals, r.kids, l.id, |l.kids|);
    }
  }

  lemma CutInOrder<V>(n: Tree<V>, c: nat, r: Tree<V>)
    requires c < |n.vals| && (!n.leaf ==> |n.kids| == |n.vals| + 1) && r.leaf == n.leaf
    ensures InOrder(n) == InOrder(CutLeft(n, c)) + [n.vals[c]] + InOrder(CutRight(n, c, r))
  {
    assert n.vals == n.vals[..c] + [n.vals[c]] + n.vals[c + 1..];
    if !n.leaf {
      hide After;
      assert n.kids == n.kids[..c + 1] + n.kids[c + 1..];
      FlatAppend(n.vals[..c], n.kids[..c + 1], n.vals[c], n.vals[c + 1..], n.kids[c + 1..]);
      FlatRelink(n.vals[c + 1..], n.kids[c + 1..], r.id, 0);
    }
  }

  lemma KidsOkAppend<V>(a: seq<Tree<V>>, b: seq<Tree<V>>, h: nat, k: nat, p: nat, from: nat)
    requires KidsOk(a, h, k, p, from) && KidsOk(b, h, k, p, from + |a|)
    ensures KidsOk(a + b, h, k, p, from)
  {
  }

  lemma JoinShaped<V>(l: Tree<V>, d: V, r: Tree<V>, h: nat, k: nat)
    requires Siblings(l, r, h, k)
    ensures Shaped(Join(l, d, r), h, k)
  {
    if h > 0 {
      RelinkOk(r.kids, h - 1, k, r.id, 0, l.id, |l.kids|);
      KidsOkAppend(l.kids, Relink(r.kids, l.id, |l.kids|), h - 1, k, l.id, 0);
    }
  }

  lemma CutShaped<V>(n: Tree<V>, c: nat, r: Tree<V>, h: nat, k: nat)
    requires Shaped(n, h, k) && c < |n.vals| && r.leaf == n.leaf
    ensures Shaped(CutLeft(n, c), h, k) && Shaped(CutRight(n, c, r), h, k)
  {
    if h > 0 {
      RelinkOk(n.kids[c + 1..], h - 1, k, n.id, c + 1, r.id, 0);
    }
  }

  lemma JoinOccurs<V>(l: Tree<V>, d: V, r: Tree<V>, x: nat)
    ensures Occurs(Join(l, d, r), x) + (if r.id == x then 1 else 0) == Occurs(l, x) + Occurs(r, x)
  {
    OccurAppend(l.kids, Relink(r.kids, l.id, |l.kids|), x);
    OccurRelink(r.kids, l.id, |l.kids|, x);
  }

  lemma CutOccurs<V>(n: Tree<V>, c: nat, r: Tree<V>, h: nat, k: nat, x: nat)
    requires Shaped(n, h, k) && c < |n.vals|
    ensures Occurs(CutLeft(n, c), x) + Occurs(CutRight(n, c, r), x) == Occurs(n, x) + (if r.id == x then 1 else 0)
  {
    if h > 0 {
      assert n.kids == n.kids[..c + 1] + n.kids[c + 1..];
      OccurAppend(n.kids[..c + 1], n.kids[c + 1..], x);
      OccurRelink(n.kids[c + 1..], r.id, 0, x);
    }
  }

  lemma JoinEnds<V>(l: Tree<V>, d: V, r: Tree<V>, h: nat, k: nat)
    requires Siblings(l, r, h, k)
    ensures FirstLeaf(Join(l, d, r)) == FirstLeaf(l)
    ensures LastLeaf(Join(l, d, r)) == if h == 0 then l.id else LastLeaf(r)
  {
    if h > 0 {
      var j := Join(l, d, r);
      var last := r.kids[|r.kids| - 1];
      assert j.kids[|j.kids| - 1] == last.(parent := l.id, position := |l.kids| + |r.kids| - 1);
    }
  }

  lemma CutEnds<V>(n: Tree<V>, c: nat, r: Tree<V>, h: nat, k: nat)
    requires Shaped(n, h, k) && c < |n.vals| && r.leaf == n.leaf
    ensures FirstLeaf(CutLeft(n, c)) == FirstLeaf(n)
    ensures LastLeaf(CutRight(n, c, r)) == if h == 0 then r.id else LastLeaf(n)
  {
    hide KidsOk;
    if h > 0 {
      var right := CutRight(n, c, r);
      var last := n.kids[|n.kids| - 1];
      assert right.kids[|right.kids| - 1] == last.(parent := r.id, position := |right.kids| - 1);
    }
  }

  /** `rebalance_right_to_left` and `rebalance_left_to_right`: the joined values and
      children are cut anew, so that the left node keeps c values. */
  lemma RebalanceKeeps<V>(l: Tree<V>, d: V, r: Tree<V>, c: nat, h: nat, k: nat)
    requires Siblings(l, r, h, k) && r.maxCount == k
    requires c <= |l.vals| + |r.vals| && c <= l.maxCount && |l.vals| + |r.vals| - c <= k
    ensures var j := Join(l, d, r);
            var l', d', r' := CutLeft(j, c), j.vals[c], CutRight(j, c, r);
            && Ok(l', h, k) && Ok(r', h, k) && |l'.vals| == c && |r'.vals| == |l.vals| + |r.vals| - c
            && InOrder(l') + [d'] + InOrder(r') == InOrder(l) + [d] + InOrder(r)
            && forall x :: Occurs(l', x) + Occurs(r', x) == Occurs(l, x) + Occurs(r, x)
  {
    var j := Join(l, d, r);
    JoinShaped(l, d, r, h, k);
    CutShaped(j, c, r, h, k);
    JoinInOrder(l, d, r, h, k);
    CutInOrder(j, c, r);
    forall x
      ensures Occurs(CutLeft(j, c), x) + Occurs(CutRight(j, c, r), x) == Occurs(l, x) + Occurs(r, x)
    {
      JoinOccurs(l, d, r, x);
      CutOccurs(j, c, r, h, k, x);
    }
  }
}

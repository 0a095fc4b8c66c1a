/**
 The nodes in memory carry out the moves of the tree model: what a primitive leaves
 in the arrays and links is what the cut and joined trees have.
 */
module BTreeRefine {
  import opened BTreeShape
  import opened BTreeMoves
  import opened BTreeSiblings
  import opened BTreePlaces
  import opened BTreeInsert
  import opened BTreeNode

  function Ids<V>(kids: seq<Tree<V>>): (r: seq<nat>)
    ensures |r| == |kids| && forall i :: 0 <= i < |kids| ==> r[i] == kids[i].id
  {
    seq(|kids|, i requires 0 <= i < |kids| => kids[i].id)
  }

  /** The values, children and links in memory are those of the tree's root node. */
  ghost predicate Shows<V>(vals: seq<V>, kids: seq<nat>, m: map<nat, Link>, t: Tree<V>) {
    && vals == t.vals && kids == Ids(t.kids)
    && forall i :: 0 <= i < |t.kids| ==> t.kids[i].id in m && m[t.kids[i].id] == Link(t.kids[i].parent, t.kids[i].position)
  }

  /** Children linked to their places in a tree. */
  predicate WellLinked<V>(kids: seq<Tree<V>>, p: nat, from: nat) {
    forall i :: 0 <= i < |kids| ==> kids[i].parent == p && kids[i].position == from + i
  }

  lemma LinksShow<V>(vals: seq<V>, m: map<nat, Link>, t: Tree<V>)
    requires WellLinked(t.kids, t.id, 0) && Links(m, Ids(t.kids), t.id, 0) && vals == t.vals
    ensures Shows(vals, Ids(t.kids), m, t)
  {
    forall i | 0 <= i < |t.kids|
      ensures t.kids[i].id in m && m[t.kids[i].id] == Link(t.kids[i].parent, t.kids[i].position)
    {
      assert Ids(t.kids)[i] == t.kids[i].id;
    }
  }

  /** `split`, for the node and its new sibling. */
  lemma SplitShows<V>(n: Tree<V>, c: nat, r: Tree<V>, lv: seq<V>, d: V, rv: seq<V>, lk: seq<nat>, rk: seq<nat>, m: map<nat, Link>)
    requires n.leaf ==> n.kids == [] && lk == []
    requires !n.leaf ==> |n.kids| == |n.vals| + 1 && |lk| == c + 1
    requires WellLinked(n.kids, n.id, 0) && CutAt(n.vals, c, lv, d, rv)
    requires lk + rk == Ids(n.kids) && Links(m, lk, n.id, 0) && Links(m, rk, r.id, 0)
    ensures Shows(lv, lk, m, CutLeft(n, c)) && d == n.vals[c] && Shows(rv, rk, m, CutRight(n, c, r))
  {
    var left, right := CutLeft(n, c), CutRight(n, c, r);
    assert lk == Ids(n.kids)[..|lk|] && rk == Ids(n.kids)[|lk|..];
    assert Ids(left.kids) == lk && Ids(right.kids) == rk;
    LinksShow(lv, m, left);
    LinksShow(rv, m, right);
  }

  /** Both ways of rebalancing, by the contracts of the two primitives. */
  lemma RebalanceShows<V>(l: Tree<V>, d: V, r: Tree<V>, c: nat, lv: seq<V>, d': V, rv: seq<V>, lk: seq<nat>, rk: seq<nat>, m: map<nat, Link>)
    requires l.leaf == r.leaf && (l.leaf ==> l.kids == [] && r.kids == [] && lk == [])
    requires !l.leaf ==> |l.kids| == |l.vals| + 1 && |r.kids| == |r.vals| + 1 && |lk| == c + 1
    requires WellLinked(l.kids, l.id, 0) && CutAt(l.vals + [d] + r.vals, c, lv, d', rv)
    requires lk + rk == Ids(l.kids) + Ids(r.kids) && Links(m, lk, l.id, 0) && Links(m, rk, r.id, 0)
    ensures var j := Join(l, d, r);
            d' == j.vals[c] && Shows(lv, lk, m, CutLeft(j, c)) && Shows(rv, rk, m, CutRight(j, c, r))
  {
    JoinIds(l, d, r);
    SplitShows(Join(l, d, r), c, r, lv, d', rv, lk, rk, m);
  }

  lemma JoinIds<V>(l: Tree<V>, d: V, r: Tree<V>)
    requires WellLinked(l.kids, l.id, 0)
    ensures Ids(Join(l, d, r).kids) == Ids(l.kids) + Ids(r.kids) && WellLinked(Join(l, d, r).kids, l.id, 0)
  {
  }

  /** `merge`. */
  lemma MergeShows<V>(l: Tree<V>, d: V, r: Tree<V>, vals: seq<V>, kids: seq<nat>, m: map<nat, Link>)
    requires WellLinked(l.kids, l.id, 0) && vals == l.vals + [d] + r.vals
    requires kids == Ids(l.kids) + Ids(r.kids) && Links(m, kids, l.id, 0)
    ensures Shows(vals, kids, m, Join(l, d, r))
  {
    var j := Join(l, d, r);
    assert Ids(j.kids) == kids;
    LinksShow(vals, m, j);
  }

  // ----- The primitives on nodes that show trees

  /** The node in memory is the root node of the tree. */
  ghost predicate NodeShows<V>(n: BNode<V>, mem: Memory, t: Tree<V>)
    reads n, n.slots, n.children, mem
  {
    n.Shape() && n.id == t.id && n.leaf == t.leaf && n.max == t.maxCount && Shows(n.Values(), n.Kids(), mem.link, t)
  }

  /** Links in the tree, and so in memory. */
  lemma NodeLinks<V>(n: BNode<V>, mem: Memory, t: Tree<V>)
    requires NodeShows(n, mem, t) && WellLinked(t.kids, t.id, 0)
    ensures n.InOrder(mem)
  {
    assert forall i :: 0 <= i < |t.kids| ==> n.Kids()[i] == t.kids[i].id;
  }

  lemma KidsLinked<V>(kids: seq<Tree<V>>, h: nat, k: nat, p: nat, from: nat)
    requires KidsOk(kids, h, k, p, from)
    ensures WellLinked(kids, p, from)
  {
  }

  lemma ShapedLinks<V>(n: BNode<V>, mem: Memory, t: Tree<V>, h: nat, k: nat)
    requires NodeShows(n, mem, t) && Shaped(t, h, k)
    ensures WellLinked(t.kids, t.id, 0) && n.InOrder(mem)
  {
    if h > 0 { KidsLinked(t.kids, h - 1, k, t.id, 0); }
    NodeLinks(n, mem, t);
  }

  lemma IdsAppend<V>(a: seq<Tree<V>>, b: seq<Tree<V>>)
    ensures Ids(a + b) == Ids(a) + Ids(b)
  {
  }

  /** A node's children on the left, some in the middle, and on the right. */
  lemma Children<V>(lk: seq<Tree<V>>, mid: seq<Tree<V>>, rk: seq<Tree<V>>, p: nat)
    requires WellLinked(lk, p, 0) && WellLinked(mid, p, |lk|) && WellLinked(rk, p, |lk| + |mid|)
    ensures WellLinked(lk + mid + rk, p, 0) && Ids(lk + mid + rk) == Ids(lk) + Ids(mid) + Ids(rk)
  {
    IdsAppend(lk + mid, rk);
    IdsAppend(lk, mid);
  }

  /** The parent of a pair of siblings. */
  function ParentOfPair<V>(q: Pair<V>, k: nat): Tree<V>
    requires q.c.In?
  {
    ParentOf(q.l, AtLeft(q), k)
  }

  lemma PairParent<V>(q: Pair<V>, h: nat, k: nat)
    requires PairOk(q, h, k)
    ensures var t := ParentOfPair(q, k);
            && t.vals == q.c.lv + [q.d] + q.c.rv && |q.c.lv| == |q.c.lk| && |q.c.rv| == |q.c.rk| && WellLinked(t.kids, q.c.id, 0)
            && Ids(t.kids) == Ids(q.c.lk) + [q.l.id] + [q.r.id] + Ids(q.c.rk)
  {
    KidsLinked(q.c.lk, h, k, q.c.id, 0);
    KidsLinked(q.c.rk, h, k, q.c.id, |q.c.lk| + 2);
    hide KidsOk, CtxOk;
    Children(q.c.lk, [q.l, q.r], q.c.rk, q.c.id);
    assert q.c.lk + [q.l] + ([q.r] + q.c.rk) == q.c.lk + [q.l, q.r] + q.c.rk;
    assert Ids([q.l, q.r]) == [q.l.id] + [q.r.id];
    assert Ids(q.c.lk) + ([q.l.id] + [q.r.id]) == Ids(q.c.lk) + [q.l.id] + [q.r.id];
  }

  /** The parent of a node by itself. */
  lemma NodeParent<V>(n: Tree<V>, c: Ctx<V>, h: nat, k: nat)
    requires c.In? && OpenZipOk(n, c, h, k)
    ensures var t := ParentOf(n, c, k);
            && t.vals == c.lv + c.rv && |c.lv| == |c.lk| && |c.rv| == |c.rk| && WellLinked(t.kids, c.id, 0)
            && Ids(t.kids) == Ids(c.lk) + [n.id] + Ids(c.rk)
  {
    KidsLinked(c.lk, h, k, c.id, 0);
    KidsLinked(c.rk, h, k, c.id, |c.lk| + 1);
    hide KidsOk, CtxOk;
    Children(c.lk, [n], c.rk, c.id);
  }

  /** Nodes that hold a pair of siblings and their parent. */
  ghost predicate PairShows<V>(l: BNode<V>, r: BNode<V>, p: BNode<V>, i: nat, mem: Memory, q: Pair<V>, h: nat, k: nat)
    reads l, l.slots, l.children, r, r.slots, r.children, p, p.slots, p.children, mem
  {
    && PairOk(q, h, k) && i == |q.c.lk|
    && NodeShows(l, mem, q.l) && NodeShows(r, mem, q.r) && NodeShows(p, mem, ParentOfPair(q, k))
  }

  lemma PairInOrder<V>(l: BNode<V>, r: BNode<V>, p: BNode<V>, i: nat, mem: Memory, q: Pair<V>, h: nat, k: nat)
    requires PairShows(l, r, p, i, mem, q, h, k)
    ensures l.InOrder(mem) && r.InOrder(mem) && p.InOrder(mem) && p.id == q.c.id && i < p.count && p.slots[i] == q.d
  {
    hide KidsOk, CtxOk, Links;
    ShapedLinks(l, mem, q.l, h, k);
    ShapedLinks(r, mem, q.r, h, k);
    PairParent(q, h, k);
    NodeLinks(p, mem, ParentOfPair(q, k));
    assert p.Values()[i] == q.d;
  }

  lemma MergedParent<V>(q: Pair<V>, h: nat, k: nat)
    requires PairOk(q, h, k) && |q.l.vals| + 1 + |q.r.vals| <= k
    ensures var i, t, t' := |q.c.lk|, ParentOfPair(q, k), ParentOf(Join(q.l, q.d, q.r), Closed(q), k);
            && |t.kids| == |t.vals| + 1 && i < |t.vals| && t.vals[i] == q.d && t'.vals == t.vals[..i] + t.vals[i + 1..]
            && Ids(t'.kids) == Ids(t.kids)[..i + 1] + Ids(t.kids)[i + 2..] && WellLinked(t'.kids, t'.id, 0)
  {
    PairParent(q, h, k);
    MergedOk(q, h, k);
    assert q.c.In?;
    hide PairOk, OpenZipOk, WellLinked;
    NodeParent(Join(q.l, q.d, q.r), Closed(q), h, k);
    RelinkIds(q.c.rk, q.c.id, |q.c.lk| + 1);
    Without(q.c.lv, q.d, q.c.rv);
    Without(Ids(q.c.lk) + [q.l.id], q.r.id, Ids(q.c.rk));
  }

  lemma MergedOk<V>(q: Pair<V>, h: nat, k: nat)
    requires PairOk(q, h, k) && |q.l.vals| + 1 + |q.r.vals| <= k
    ensures OpenZipOk(Join(q.l, q.d, q.r), Closed(q), h, k)
  {
    MergeKeeps(q, h, k);
  }

  lemma RelinkIds<V>(kids: seq<Tree<V>>, p: nat, from: nat)
    ensures Ids(Relink(kids, p, from)) == Ids(kids)
  {
  }

  lemma Without<T>(a: seq<T>, x: T, b: seq<T>)
    ensures var s := a + [x] + b; s[|a|] == x && s[..|a|] + s[|a| + 1..] == a + b
  {
  }

  lemma WithOther<T>(a: seq<T>, x: T, b: seq<T>, y: T)
    ensures (a + [x] + b)[|a| := y] == a + [y] + b
  {
  }

  lemma With<T>(a: seq<T>, b: seq<T>, x: T)
    ensures var s := a + b; s[..|a|] + [x] + s[|a|..] == a + [x] + b
  {
    assert (a + b)[..|a|] == a && (a + b)[|a|..] == b;
  }

  /** `merge` in memory is the merge of the trees, in the node and in its parent. */
  method MergeRefines<V>(mem: Memory, l: BNode<V>, r: BNode<V>, p: BNode<V>, i: nat, ghost q: Pair<V>, ghost h: nat, ghost k: nat)
    requires l.Beside(r, p, i) && PairShows(l, r, p, i, mem, q, h, k) && |q.l.vals| + 1 + |q.r.vals| <= k
    modifies l`count, l.slots, l.children, r`count, p`count, p.slots, p.children, mem
    ensures NodeShows(l, mem, Join(q.l, q.d, q.r))
    ensures NodeShows(p, mem, ParentOf(Join(q.l, q.d, q.r), Closed(q), k))
  {
    hide KidsOk, CtxOk, Links, WellLinked, Join;
    PairInOrder(l, r, p, i, mem, q, h, k);
    MergedParent(q, h, k);
    l.Merge(mem, r, p, i);
    MergedShows(l, p, mem, q, h, k);
  }

  lemma MergedShows<V>(l: BNode<V>, p: BNode<V>, mem: Memory, q: Pair<V>, h: nat, k: nat)
    requires PairOk(q, h, k) && |q.l.vals| + 1 + |q.r.vals| <= k
    requires l.Shape() && l.id == q.l.id && l.leaf == q.l.leaf && l.max == k && l.Values() == q.l.vals + [q.d] + q.r.vals
    requires l.Kids() == Ids(q.l.kids) + Ids(q.r.kids) && l.InOrder(mem)
    requires p.Shape() && p.id == q.c.id && !p.leaf && p.max == k && p.InOrder(mem)
    requires var t := ParentOf(Join(q.l, q.d, q.r), Closed(q), k); p.Values() == t.vals && p.Kids() == Ids(t.kids)
    ensures NodeShows(l, mem, Join(q.l, q.d, q.r))
    ensures NodeShows(p, mem, ParentOf(Join(q.l, q.d, q.r), Closed(q), k))
  {
    ShapedKids(q.l, h, k);
    MergedParent(q, h, k);
    hide KidsOk, CtxOk, Links, WellLinked;
    MergeShows(q.l, q.d, q.r, l.Values(), l.Kids(), mem.link);
    LinksShow(p.Values(), mem.link, ParentOf(Join(q.l, q.d, q.r), Closed(q), k));
  }

  /** `rebalance_right_to_left` in memory cuts the joined siblings anew. */
  method RebalanceRightToLeftRefines<V>(mem: Memory, m: nat, l: BNode<V>, r: BNode<V>, p: BNode<V>, i: nat, ghost q: Pair<V>, ghost h: nat, ghost k: nat)
    requires l.Beside(r, p, i) && PairShows(l, r, p, i, mem, q, h, k) && 1 <= m <= |q.r.vals| && |q.l.vals| + m <= k
    modifies l`count, l.slots, l.children, r`count, r.slots, r.children, p.slots, mem
    ensures PairShows(l, r, p, i, mem, Recut(q, |q.l.vals| + m), h, k)
  {
    hide KidsOk, CtxOk, Links, Kept, CutAt, WellLinked, Join, Recut, ParentOfPair;
    PairInOrder(l, r, p, i, mem, q, h, k);
    ghost var m0, rk := mem.link, r.Kids();
    ghost var slots, pk := p.slots[..], p.Kids();
    assert p.children as object != p.slots as object;
    l.RebalanceRightToLeft(mem, m, r, p, i);
    assert p.Kids() == pk;
    Replaced(slots, i, p.slots[i], p.count);
    ParentKept(m0, mem.link, rk, r.id, pk, p.id);
    RecutShows(l, r, p, i, mem, q, |q.l.vals| + m, h, k);
  }

  lemma Replaced<T>(s: seq<T>, i: nat, x: T, n: nat)
    requires i < n <= |s|
    ensures s[i := x][..n] == s[..n][i := x]
  {
  }

  lemma ParentKept(m0: map<nat, Link>, m1: map<nat, Link>, rk: seq<nat>, r: nat, pk: seq<nat>, p: nat)
    requires r != p && Links(m0, rk, r, 0) && Links(m0, pk, p, 0) && Kept(m0, m1, rk)
    ensures Links(m1, pk, p, 0)
  {
    ParentsApart(m0, pk, p, 0, rk, r, 0);
  }

  lemma ParentKeptByBoth(m0: map<nat, Link>, m1: map<nat, Link>, lk: seq<nat>, l: nat, rk: seq<nat>, r: nat, pk: seq<nat>, p: nat)
    requires l != p && r != p && Links(m0, lk, l, 0) && Links(m0, rk, r, 0) && Links(m0, pk, p, 0) && Kept(m0, m1, lk + rk)
    ensures Links(m1, pk, p, 0)
  {
    ParentsApart(m0, pk, p, 0, lk, l, 0);
    ParentsApart(m0, pk, p, 0, rk, r, 0);
  }

  /** Both ways of rebalancing leave nodes that hold the siblings cut anew. */
  lemma RecutShows<V>(l: BNode<V>, r: BNode<V>, p: BNode<V>, i: nat, mem: Memory, q: Pair<V>, c: nat, h: nat, k: nat)
    requires PairOk(q, h, k) && c <= |q.l.vals| + |q.r.vals| && c <= k && |q.l.vals| + |q.r.vals| - c <= k && i == |q.c.lk|
    requires l.Beside(r, p, i) && l.id == q.l.id && r.id == q.r.id && p.id == q.c.id && l.leaf == q.l.leaf && l.max == k && l.count == c
    requires CutAt(q.l.vals + [q.d] + q.r.vals, c, l.Values(), p.slots[i], r.Values())
    requires l.Kids() + r.Kids() == Ids(q.l.kids) + Ids(q.r.kids) && l.InOrder(mem) && r.InOrder(mem) && p.InOrder(mem)
    requires p.Values() == ParentOfPair(q, k).vals[i := p.slots[i]] && p.Kids() == Ids(ParentOfPair(q, k).kids)
    ensures PairShows(l, r, p, i, mem, Recut(q, c), h, k)
  {
    ShapedKids(q.l, h, k);
    RecutOk(q, c, h, k);
    RecutParent(q, c, h, k);
    hide KidsOk, CtxOk, Links, WellLinked;
    RebalanceShows(q.l, q.d, q.r, c, l.Values(), p.slots[i], r.Values(), l.Kids(), r.Kids(), mem.link);
    LinksShow(p.Values(), mem.link, ParentOfPair(Recut(q, c), k));
  }

  lemma RecutOk<V>(q: Pair<V>, c: nat, h: nat, k: nat)
    requires PairOk(q, h, k) && c <= |q.l.vals| + |q.r.vals| && c <= k && |q.l.vals| + |q.r.vals| - c <= k
    ensures PairOk(Recut(q, c), h, k)
  {
    RecutKeeps(q, c, h, k);
  }

  lemma RecutParent<V>(q: Pair<V>, c: nat, h: nat, k: nat)
    requires PairOk(q, h, k) && c <= |q.l.vals| + |q.r.vals| && c <= k && |q.l.vals| + |q.r.vals| - c <= k
    ensures var i, t, q' := |q.c.lk|, ParentOfPair(q, k), Recut(q, c);
            var t' := ParentOfPair(q', k);
            i < |t.vals| && t'.vals == t.vals[i := q'.d] && Ids(t'.kids) == Ids(t.kids) && WellLinked(t'.kids, t'.id, 0)
  {
    RecutOk(q, c, h, k);
    hide KidsOk, CtxOk, WellLinked;
    PairParent(q, h, k);
    PairParent(Recut(q, c), h, k);
    WithOther(q.c.lv, q.d, q.c.rv, Recut(q, c).d);
  }

  lemma ShapedKids<V>(t: Tree<V>, h: nat, k: nat)
    requires Shaped(t, h, k)
    ensures WellLinked(t.kids, t.id, 0)
  {
    if h > 0 { KidsLinked(t.kids, h - 1, k, t.id, 0); }
  }

  /** `rebalance_left_to_right` in memory cuts the joined siblings anew. */
  method RebalanceLeftToRightRefines<V>(mem: Memory, m: nat, l: BNode<V>, r: BNode<V>, p: BNode<V>, i: nat, ghost q: Pair<V>, ghost h: nat, ghost k: nat)
    requires l.Beside(r, p, i) && PairShows(l, r, p, i, mem, q, h, k) && 1 <= m <= |q.l.vals| && |q.r.vals| + m <= k
    modifies l`count, r`count, r.slots, r.children, p.slots, mem
    ensures PairShows(l, r, p, i, mem, Recut(q, |q.l.vals| - m), h, k)
  {
    hide KidsOk, CtxOk, Links, Kept, CutAt, WellLinked, Join, Recut, ParentOfPair;
    PairInOrder(l, r, p, i, mem, q, h, k);
    ghost var m0, lk, rk := mem.link, l.Kids(), r.Kids();
    ghost var slots, pk := p.slots[..], p.Kids();
    assert p.children as object != p.slots as object;
    l.RebalanceLeftToRight(mem, m, r, p, i);
    assert p.Kids() == pk;
    Replaced(slots, i, p.slots[i], p.count);
    ParentKeptByBoth(m0, mem.link, lk, l.id, rk, r.id, pk, p.id);
    RecutShows(l, r, p, i, mem, q, |q.l.vals| - m, h, k);
  }

  /** `split` in memory halves the node of the tree, and the halves are below the parent. */
  method SplitRefines<V>(mem: Memory, insertPosition: nat, n: BNode<V>, dest: BNode<V>, p: BNode<V>, i: nat, ghost t: Tree<V>, ghost c: Ctx<V>, ghost h: nat, ghost k: nat)
    requires c.In? && OpenZipOk(t, c, h, k) && |t.vals| == k >= 3 && |c.lv| + |c.rv| < k && i == |c.lk| && insertPosition <= k
    requires NodeShows(n, mem, t) && NodeShows(p, mem, ParentOf(t, c, k))
    requires dest.Shape() && dest.count == 0 && dest.leaf == n.leaf && dest.max == k && dest.id !in n.Kids() && dest.id !in p.Kids()
    requires n.Apart(dest) && n.Apart(p) && dest.Apart(p)
    modifies n`count, dest`count, dest.slots, dest.children, p`count, p.slots, p.children, mem
    ensures PairShows(n, dest, p, i, mem, Halves(t, c, SplitCut(k, insertPosition), dest.id, k), h, k)
  {
    hide KidsOk, CtxOk, Links, CutAt, SplitCut, WellLinked;
    ShapedLinks(n, mem, t, h, k);
    NodeParent(t, c, h, k);
    NodeLinks(p, mem, ParentOf(t, c, k));
    n.Split(mem, insertPosition, dest, p, i);
    HalvesShow(n, dest, p, i, mem, t, c, SplitCut(k, insertPosition), h, k);
  }

  lemma HalvesShow<V>(n: BNode<V>, dest: BNode<V>, p: BNode<V>, i: nat, mem: Memory, t: Tree<V>, c: Ctx<V>, cut: nat, h: nat, k: nat)
    requires c.In? && OpenZipOk(t, c, h, k) && cut < |t.vals| && |c.lv| + |c.rv| < k && i == |c.lk|
    requires n.Beside(dest, p, i) && n.id == t.id && p.id == c.id && n.leaf == t.leaf && n.max == k && n.count == cut
    requires CutAt(t.vals, cut, n.Values(), t.vals[cut], dest.Values()) && n.Kids() + dest.Kids() == Ids(t.kids)
    requires var all := ParentOf(t, c, k); p.Values() == all.vals[..i] + [t.vals[cut]] + all.vals[i..] && p.Kids() == Ids(all.kids)[..i + 1] + [dest.id] + Ids(all.kids)[i + 1..]
    requires n.InOrder(mem) && dest.InOrder(mem) && p.InOrder(mem)
    ensures PairShows(n, dest, p, i, mem, Halves(t, c, cut, dest.id, k), h, k)
  {
    ShapedKids(t, h, k);
    hide KidsOk, CtxOk, Links;
    var q := Halves(t, c, cut, dest.id, k);
    SplitKeeps(t, c, cut, dest.id, h, k);
    SplitShows(t, cut, Node(dest.id, c.id, |c.lk| + 1, k, t.leaf, [], []), n.Values(), t.vals[cut], dest.Values(), n.Kids(), dest.Kids(), mem.link);
    SplitParent(t, c, cut, dest.id, h, k);
    LinksShow(p.Values(), mem.link, ParentOfPair(q, k));
  }

  lemma SplitParent<V>(t: Tree<V>, c: Ctx<V>, cut: nat, id: nat, h: nat, k: nat)
    requires c.In? && OpenZipOk(t, c, h, k) && cut < |t.vals| && |c.lv| + |c.rv| < k
    ensures var i, all, all' := |c.lk|, ParentOf(t, c, k), ParentOfPair(Halves(t, c, cut, id, k), k);
            && i <= |all.vals| && |all.kids| == |all.vals| + 1 && all'.vals == all.vals[..i] + [t.vals[cut]] + all.vals[i..]
            && Ids(all'.kids) == Ids(all.kids)[..i + 1] + [id] + Ids(all.kids)[i + 1..] && WellLinked(all'.kids, all'.id, 0)
  {
    SplitOk(t, c, cut, id, h, k);
    var q := Halves(t, c, cut, id, k);
    hide OpenZipOk, PairOk, WellLinked;
    PairParent(q, h, k);
    NodeParent(t, c, h, k);
    RelinkIds(c.rk, c.id, |c.lk| + 2);
    With(c.lv, c.rv, t.vals[cut]);
    With(Ids(c.lk) + [t.id], Ids(c.rk), id);
  }

  lemma SplitOk<V>(t: Tree<V>, c: Ctx<V>, cut: nat, id: nat, h: nat, k: nat)
    requires c.In? && OpenZipOk(t, c, h, k) && cut < |t.vals| && |c.lv| + |c.rv| < k
    ensures PairOk(Halves(t, c, cut, id, k), h, k)
  {
    SplitKeeps(t, c, cut, id, h, k);
  }
}

/**
 Restoring the structure after a value was removed from a leaf: merging with a
 sibling, rebalancing with a sibling, and taking away an empty root.
 */
module BTreeErase {
  import opened BTreeShape
  import opened BTreeMoves
  import opened BTreeSiblings
  import opened BTreePlaces
  import opened BTreeInsert
  import opened BTreeIterator

  /** The identities are unique, and the ends of the tree are where the links say. */
  ghost predicate ZipInv<V>(n: Tree<V>, c: Ctx<V>, rightmost: nat, next: nat) {
    Unique(n, c, next) && rightmost == ZipLast(n, c) && TopParent(n.parent, c) == ZipFirst(n, c)
  }

  /** What a move below the parent keeps; the parent may be left without values. */
  ghost predicate Settled<V>(a: Place<V>, b: Place<V>, h: nat, k: nat) {
    SamePlace(a, b) && b.c.In? && OpenZipOk(b.n, b.c, h, k) && |b.n.vals| >= 1
  }

  // ----- Merging

  /** The last leaf after a merge: the left node if the right one was the last leaf. */
  lemma MergeLast<V>(p: Pair<V>, h: nat, k: nat, next: nat)
    requires PairOk(p, h, k) && forall x: nat :: PairOccurs(p, x) <= if x < next then 1 else 0
    ensures var last := PairLast(p);
            (if h == 0 then LastOf(p.l.id, p.c) else last) == if h == 0 && last == p.r.id then p.l.id else last
  {
    hide KidsOk, CtxOk;
    if h == 0 {
      RightEdgeLast(p.r.id, p.c);
      RightEdgeLast(p.l.id, p.c);
      assert PairOccurs(p, PairLast(p)) <= 1;
    }
  }

  function Merge<V>(p: Pair<V>, q: nat): Place<V>
    requires p.c.In?
  {
    Place(Join(p.l, p.d, p.r), Closed(p), q)
  }

  /** `merge_nodes`: the right node's values and children move to the left node. */
  lemma MergeSettled<V>(p: Pair<V>, q: nat, h: nat, k: nat)
    requires PairOk(p, h, k) && |p.l.vals| + 1 + |p.r.vals| <= k && q <= |p.l.vals| + 1 + |p.r.vals|
    ensures Settled(PlaceAt(p, q), Merge(p, q), h, k)
  {
    MergeKeeps(p, h, k);
    MergePlace(p, q, h, k);
    hide KidsOk, CtxOk, SamePlace;
  }

  lemma MergeInv<V>(p: Pair<V>, q: nat, h: nat, k: nat, rightmost: nat, next: nat)
    requires PairOk(p, h, k) && |p.l.vals| + 1 + |p.r.vals| <= k && q <= |p.l.vals| + 1 + |p.r.vals|
    requires var a := PlaceAt(p, q); ZipInv(a.n, a.c, rightmost, next)
    requires if q <= |p.l.vals| then |p.r.vals| >= 1 else |p.l.vals| >= 1
    ensures var b := Merge(p, q);
            ZipInv(b.n, b.c, if p.l.leaf && rightmost == p.r.id then p.l.id else rightmost, next)
  {
    PlaceAtKeeps(p, q, h, k);
    MergeKeeps(p, h, k);
    MergeEnds(p, h, k);
    hide KidsOk, CtxOk, ZipOccurs, PairOccurs, InOrder;
    var a, b := PlaceAt(p, q), Merge(p, q);
    assert forall x: nat :: ZipOccurs(a.n, a.c, x) == PairOccurs(p, x);
    MergeLast(p, h, k, next);
    assert forall x: nat :: ZipOccurs(b.n, b.c, x) <= PairOccurs(p, x);
  }

  lemma MergeTakesOne<V>(p: Pair<V>, q: nat, h: nat, k: nat, rightmost: nat, next: nat)
    requires PairOk(p, h, k) && |p.l.vals| + 1 + |p.r.vals| <= k && q <= |p.l.vals| + 1 + |p.r.vals|
    requires PlaceInv(PlaceAt(p, q), rightmost, next)
    requires if q <= |p.l.vals| then |p.r.vals| >= 1 else |p.l.vals| >= 1
    ensures var a, b := PlaceAt(p, q), Merge(p, q);
            Nodes(b.n, b.c, next) + 1 == Nodes(a.n, a.c, next)
  {
    var a, b := PlaceAt(p, q), Merge(p, q);
    PlaceAtKeeps(p, q, h, k);
    MergeKeeps(p, h, k);
    assert PairOccurs(p, p.r.id) >= 1;
    hide KidsOk, CtxOk, ZipOccurs, PairOccurs, InOrder;
    assert ZipOccurs(a.n, a.c, p.r.id) >= 1;
    OneNodeMore(b.n, b.c, a.n, a.c, p.r.id, next);
  }

  ghost predicate PlaceInv<V>(a: Place<V>, rightmost: nat, next: nat) { ZipInv(a.n, a.c, rightmost, next) }

  /** `merge_nodes`, with the last leaf. */
  method MergeNodes<V>(p: Pair<V>, q: nat, ghost h: nat, k: nat, rightmost: nat, ghost next: nat) returns (b: Place<V>, rightmost': nat)
    requires PairOk(p, h, k) && |p.l.vals| + 1 + |p.r.vals| <= k && q <= |p.l.vals| + 1 + |p.r.vals|
    requires if q <= |p.l.vals| then |p.r.vals| >= 1 else |p.l.vals| >= 1
    requires PlaceInv(PlaceAt(p, q), rightmost, next)
    ensures Settled(PlaceAt(p, q), b, h, k) && PlaceInv(b, rightmost', next) && b.c.In? && b.c.up == p.c.up
    ensures Nodes(b.n, b.c, next) + 1 == Nodes(PlaceAt(p, q).n, PlaceAt(p, q).c, next)
    ensures |b.n.vals| == |p.l.vals| + 1 + |p.r.vals|
  {
    hide KidsOk, CtxOk, Settled;
    MergeSettled(p, q, h, k);
    MergeInv(p, q, h, k, rightmost, next);
    MergeTakesOne(p, q, h, k, rightmost, next);
    b := Merge(p, q);
    rightmost' := if p.r.leaf && rightmost == p.r.id then p.l.id else rightmost;
  }

  // ----- Rebalancing

  /** A rebalanced node is settled, and its parent is as it was. */
  lemma RoomySettled<V>(a: Place<V>, b: Place<V>, h: nat, k: nat, rightmost: nat, next: nat)
    requires Roomy(a, b, h, k) && SameIds(a, b) && b.c.In? && |b.n.vals| >= 1 && PlaceInv(a, rightmost, next)
    ensures Settled(a, b, h, k) && |b.c.lv| + |b.c.rv| >= 1 && PlaceInv(b, rightmost, next)
    ensures Nodes(b.n, b.c, next) == Nodes(a.n, a.c, next)
  {
    hide KidsOk, SamePlace, ZipOccurs;
    SameNodes(b.n, b.c, a.n, a.c, next);
  }

  /** A node that is to be filled up. */
  predicate Thin<V>(a: Place<V>, h: nat, k: nat) {
    k >= 3 && PlaceOk(a, h, k) && a.c.In? && |a.n.vals| < k / 2
  }

  /** How many values move from a sibling with count values to a node with less. */
  function Share(count: nat, less: nat): (m: nat)
    requires less + 2 <= count
    ensures 1 <= m <= count - 1 && less + m == (less + count) / 2
  {
    var m := (count - less) / 2;
    if m < count - 1 then m else count - 1
  }

  /** The cut that shares the values of a node and its right sibling. */
  lemma RightShare<V>(a: Place<V>, h: nat, k: nat)
    requires Thin(a, h, k) && |a.c.rk| > 0 && |a.c.rk[0].vals| > k / 2
    ensures a.c.In? && |a.c.rv| > 0
    ensures var p := WithRight(a.n, a.c); var cut := |a.n.vals| + Share(|p.r.vals|, |a.n.vals|);
            && PairOk(p, h, k) && p.c.up == a.c.up && RoomyCut(p, a.pos, cut, k)
            && a.pos <= cut == (|a.n.vals| + |a.c.rk[0].vals|) / 2
  {
    hide KidsOk, Share;
    RightPairOk(a.n, a.c, h, k);
    var p := WithRight(a.n, a.c);
    ShareCut(p, a.pos, |a.n.vals| + Share(|p.r.vals|, |a.n.vals|), k);
  }

  lemma LeftShare<V>(a: Place<V>, h: nat, k: nat)
    requires Thin(a, h, k) && |a.c.lk| > 0 && |a.c.lk[|a.c.lk| - 1].vals| > k / 2
    ensures a.c.In? && |a.c.lv| > 0
    ensures var p := WithLeft(a.n, a.c); var cut, q := |p.l.vals| - Share(|p.l.vals|, |a.n.vals|), |p.l.vals| + 1 + a.pos;
            && PairOk(p, h, k) && p.c.up == a.c.up && RoomyCut(p, q, cut, k)
            && cut < q && |p.l.vals| + |p.r.vals| - cut == (|a.n.vals| + |a.c.lk[|a.c.lk| - 1].vals|) / 2
  {
    hide KidsOk, Share;
    LeftPairOk(a.n, a.c, h, k);
    var p := WithLeft(a.n, a.c);
    ShareCut(p, |p.l.vals| + 1 + a.pos, |p.l.vals| - Share(|p.l.vals|, |a.n.vals|), k);
  }

  function FromRight<V>(a: Place<V>, ghost h: nat, k: nat): (b: Place<V>)
    requires Thin(a, h, k) && |a.c.rk| > 0 && |a.c.rk[0].vals| > k / 2
    ensures Roomy(a, b, h, k) && SameIds(a, b) && b.c.In? && b.c.up == a.c.up && |b.n.vals| >= 1
    ensures |b.n.vals| == (|a.n.vals| + |a.c.rk[0].vals|) / 2
  {
    RightShare(a, h, k);
    AsLeftOne(a);
    hide Thin, PairOk, Roomy, SameIds, Share, RoomyCut, Recut, PlaceAt;
    var p := WithRight(a.n, a.c);
    var cut := |a.n.vals| + Share(|p.r.vals|, |a.n.vals|);
    RecutRoomy(p, a.pos, cut, h, k);
    RecutSize(p, a.pos, cut, h, k);
    PlaceAt(Recut(p, cut), a.pos)
  }

  function FromLeft<V>(a: Place<V>, ghost h: nat, k: nat): (b: Place<V>)
    requires Thin(a, h, k) && |a.c.lk| > 0 && |a.c.lk[|a.c.lk| - 1].vals| > k / 2
    ensures Roomy(a, b, h, k) && SameIds(a, b) && b.c.In? && b.c.up == a.c.up && |b.n.vals| >= 1
    ensures |b.n.vals| == (|a.n.vals| + |a.c.lk[|a.c.lk| - 1].vals|) / 2
  {
    LeftShare(a, h, k);
    AsRightOne(a);
    hide Thin, PairOk, Roomy, SameIds, Share, RoomyCut, Recut, PlaceAt;
    var p := WithLeft(a.n, a.c);
    var cut, q := |p.l.vals| - Share(|p.l.vals|, |a.n.vals|), |p.l.vals| + 1 + a.pos;
    RecutRoomy(p, q, cut, h, k);
    RecutSize(p, q, cut, h, k);
    PlaceAt(Recut(p, cut), q)
  }

  lemma ShareCut<V>(p: Pair<V>, q: nat, cut: nat, k: nat)
    requires |p.l.vals| <= k && |p.r.vals| <= k && k >= 3
    requires || (q <= |p.l.vals| < k / 2 < |p.r.vals| && cut == |p.l.vals| + Share(|p.r.vals|, |p.l.vals|))
             || (|p.r.vals| < k / 2 < |p.l.vals| < q <= |p.l.vals| + 1 + |p.r.vals| && cut == |p.l.vals| - Share(|p.l.vals|, |p.r.vals|))
    ensures RoomyCut(p, q, cut, k)
  {
    hide Share;
  }

  lemma LeftPairOk<V>(n: Tree<V>, c: Ctx<V>, h: nat, k: nat)
    requires ZipOk(n, c, h, k) && c.In? && |c.lk| > 0
    ensures PairOk(WithLeft(n, c), h, k) && |WithLeft(n, c).l.vals| >= 1
  {
    WithLeftKeeps(n, c, h, k);
  }

  lemma RightPairOk<V>(n: Tree<V>, c: Ctx<V>, h: nat, k: nat)
    requires ZipOk(n, c, h, k) && c.In? && |c.rk| > 0
    ensures PairOk(WithRight(n, c), h, k) && |WithRight(n, c).r.vals| >= 1
  {
    WithRightKeeps(n, c, h, k);
  }

  // ----- Both together

  /** An empty node always has a sibling to merge with or to be filled up from. */
  lemma StaySettled<V>(a: Place<V>, h: nat, k: nat)
    requires Thin(a, h, k)
    requires |a.c.lk| > 0 ==> 1 + |a.c.lk[|a.c.lk| - 1].vals| + |a.n.vals| > k
    requires |a.c.rk| > 0 ==> 1 + |a.n.vals| + |a.c.rk[0].vals| > k
    requires |a.n.vals| == 0 ==> (|a.c.rk| > 0 ==> |a.c.rk[0].vals| <= k / 2) && (|a.c.lk| > 0 ==> |a.c.lk[|a.c.lk| - 1].vals| <= k / 2)
    ensures Settled(a, a, h, k) && |a.c.lv| + |a.c.rv| >= 1
  {
    hide InOrder;
  }

  /** A neighbour and the node fit into one node. */
  predicate FitsLeft<V>(a: Place<V>, k: nat) { a.c.In? && |a.c.lk| > 0 && 1 + |a.c.lk[|a.c.lk| - 1].vals| + |a.n.vals| <= k }
  predicate FitsRight<V>(a: Place<V>, k: nat) { a.c.In? && |a.c.rk| > 0 && 1 + |a.n.vals| + |a.c.rk[0].vals| <= k }
  predicate Mergeable<V>(a: Place<V>, k: nat) { FitsLeft(a, k) || FitsRight(a, k) }

  /** A neighbour is more than half full, and values were not just taken from the side of the
      node that is away from it; an empty node is always filled up. */
  predicate RightGives<V>(a: Place<V>, k: nat) {
    a.c.In? && |a.c.rk| > 0 && |a.c.rk[0].vals| > k / 2 && (|a.n.vals| == 0 || a.pos > 0)
  }
  predicate LeftGives<V>(a: Place<V>, k: nat) {
    a.c.In? && |a.c.lk| > 0 && |a.c.lk[|a.c.lk| - 1].vals| > k / 2 && (|a.n.vals| == 0 || a.pos < |a.n.vals|)
  }

  /** The first half of `try_merge_or_rebalance`. */
  method TryMerge<V>(a: Place<V>, ghost h: nat, k: nat, rightmost: nat, ghost next: nat)
    returns (b: Place<V>, merged: bool, rightmost': nat)
    requires Thin(a, h, k) && PlaceInv(a, rightmost, next)
    ensures merged <==> Mergeable(a, k)
    ensures merged ==> Settled(a, b, h, k) && PlaceInv(b, rightmost', next) && b.c.In? && b.c.up == a.c.up
    ensures merged ==> Nodes(b.n, b.c, next) + 1 == Nodes(a.n, a.c, next)
    ensures merged ==> |b.n.vals| == 1 + |a.n.vals| + if FitsLeft(a, k) then |a.c.lk[|a.c.lk| - 1].vals| else |a.c.rk[0].vals|
  {
    hide KidsOk, SamePlace, PlaceInv, PairOk, Nodes, Settled;
    b, merged, rightmost' := a, false, rightmost;
    var count := |a.n.vals|;
    if |a.c.lk| > 0 {
      var left := |a.c.lk[|a.c.lk| - 1].vals|;
      if 1 + left + count <= k {
        LeftPairOk(a.n, a.c, h, k);
        AsRightOne(a);
        b, rightmost' := MergeNodes(WithLeft(a.n, a.c), left + 1 + a.pos, h, k, rightmost, next);
        return b, true, rightmost';
      }
    }
    if |a.c.rk| > 0 && 1 + count + |a.c.rk[0].vals| <= k {
      RightPairOk(a.n, a.c, h, k);
      AsLeftOne(a);
      b, rightmost' := MergeNodes(WithRight(a.n, a.c), a.pos, h, k, rightmost, next);
      merged := true;
    }
  }

  /** A thin node is merged with a sibling, filled up from one, or left as it is; it
      is merged whenever that is possible, and left only if it is not empty. */
  method TryMergeOrRebalance<V>(a: Place<V>, ghost h: nat, k: nat, rightmost: nat, ghost next: nat)
    returns (b: Place<V>, merged: bool, rightmost': nat)
    requires Thin(a, h, k) && PlaceInv(a, rightmost, next)
    ensures Settled(a, b, h, k) && PlaceInv(b, rightmost', next) && b.c.In? && b.c.up == a.c.up
    ensures !merged ==> |b.c.lv| + |b.c.rv| >= 1
    ensures merged <==> Mergeable(a, k)
    ensures Nodes(b.n, b.c, next) + (if merged then 1 else 0) == Nodes(a.n, a.c, next)
    ensures merged ==> |b.n.vals| == 1 + |a.n.vals| + if FitsLeft(a, k) then |a.c.lk[|a.c.lk| - 1].vals| else |a.c.rk[0].vals|
    ensures !merged ==> if RightGives(a, k) then |b.n.vals| == (|a.n.vals| + |a.c.rk[0].vals|) / 2
                        else if LeftGives(a, k) then |b.n.vals| == (|a.n.vals| + |a.c.lk[|a.c.lk| - 1].vals|) / 2
                        else b == a
    ensures !merged ==> |b.n.vals| >= k / 2 || b == a
  {
    hide KidsOk, CtxOk, SamePlace, PlaceInv, Roomy, SameIds, Nodes, Settled, FromLeft, FromRight;
    b, merged, rightmost' := TryMerge(a, h, k, rightmost, next);
    if merged {
      return;
    }
    b, rightmost' := a, rightmost;
    var count := |a.n.vals|;
    if |a.c.rk| > 0 && |a.c.rk[0].vals| > k / 2 && (count == 0 || a.pos > 0) {
      b := FromRight(a, h, k);
      RoomySettled(a, b, h, k, rightmost, next);
    } else if |a.c.lk| > 0 && |a.c.lk[|a.c.lk| - 1].vals| > k / 2 && (count == 0 || a.pos < count) {
      b := FromLeft(a, h, k);
      RoomySettled(a, b, h, k, rightmost, next);
    } else {
      StaySettled(a, h, k);
    }
  }

  // ----- An iterator to a leaf below

  /** A way down from t to a leaf, by child numbers. */
  predicate PathOk<V>(t: Tree<V>, path: seq<nat>)
    decreases |path|
  {
    if path == [] then t.leaf
    else !t.leaf && path[0] <= |t.vals| && |t.kids| == |t.vals| + 1 && PathOk(t.kids[path[0]], path[1..])
  }

  function LeafAt<V>(t: Tree<V>, path: seq<nat>): Tree<V>
    requires PathOk(t, path)
    decreases |path|
  {
    if path == [] then t else LeafAt(t.kids[path[0]], path[1..])
  }

  /** What is below t before that leaf. */
  function Ahead<V>(t: Tree<V>, path: seq<nat>): seq<V>
    requires PathOk(t, path)
    decreases |path|
  {
    if path == [] then [] else NodeLeft(t, path[0]) + Ahead(t.kids[path[0]], path[1..])
  }

  /** The result iterator, at rpos in a leaf: at the place itself, or below its child
      along the path; before are the values that come before it. */
  ghost predicate Tracks<V>(a: Place<V>, path: seq<nat>, rpos: nat, before: seq<V>)
    requires a.pos <= |a.n.vals| && (!a.n.leaf ==> |a.n.kids| == |a.n.vals| + 1)
  {
    if a.n.leaf then a.pos == rpos && PlaceLeft(a) == before
    else
      var kid := a.n.kids[a.pos];
      PathOk(kid, path) && rpos <= |LeafAt(kid, path).vals| && PlaceLeft(a) + Ahead(kid, path) + LeafAt(kid, path).vals[..rpos] == before
  }

  lemma SameKidPath<V>(s: Tree<V>, t: Tree<V>, path: seq<nat>)
    requires SameKid(s, t) && PathOk(s, path)
    ensures PathOk(t, path) && Ahead(s, path) == Ahead(t, path) && LeafAt(s, path).vals == LeafAt(t, path).vals
  {
    assert s.kids == t.kids && s.vals == t.vals && s.leaf == t.leaf;
  }

  lemma TracksSame<V>(a: Place<V>, b: Place<V>, path: seq<nat>, rpos: nat, before: seq<V>)
    requires SamePlace(a, b) && Tracks(a, path, rpos, before)
    ensures Tracks(b, path, if a.n.leaf then b.pos else rpos, before)
    ensures Pre(a) + PlaceRight(a) == Pre(b) + PlaceRight(b)
  {
    hide PlaceLeft, PlaceRight, InOrder;
    SamePre(a, b);
    if !a.n.leaf { SameKidPath(a.n.kids[a.pos], b.n.kids[b.pos], path); }
  }

  lemma SamePre<V>(a: Place<V>, b: Place<V>)
    requires SamePlace(a, b)
    ensures Pre(a) == Pre(b)
  {
    PrePlace(a);
    PrePlace(b);
    hide PlaceLeft, PlaceRight, InOrder, Pre;
    if !a.n.leaf { SameKidInOrder(a.n.kids[a.pos], b.n.kids[b.pos]); }
  }

  /** The iterator seen from the parent. */
  lemma TracksUp<V>(b: Place<V>, path: seq<nat>, rpos: nat, before: seq<V>, h: nat, k: nat)
    requires b.c.In? && OpenZipOk(b.n, b.c, h, k) && |b.n.vals| >= 1 && b.pos <= |b.n.vals| && Tracks(b, path, rpos, before)
    ensures var up := Up(b.n, b.c, k);
            && PlaceOk(up, h + 1, k) && Tracks(up, if b.n.leaf then [] else [b.pos] + path, rpos, before)
            && Pre(up) + PlaceRight(up) == Pre(b) + PlaceRight(b)
  {
    UpKeeps(b.n, b.c, h, k);
    UpWhole(b, h, k);
    hide KidsOk, CtxOk, InOrder, Left, Right, Pre, PlaceRight, NodeLeft, NodeRight, FrameOk, Fits, ParentOf;
    var up := Up(b.n, b.c, k);
    if b.n.leaf {
      LeafLeft(b);
    } else {
      var p := [b.pos] + path;
      assert p[1..] == path;
      var kid := b.n.kids[b.pos];
      assert Ahead(b.n, p) == NodeLeft(b.n, b.pos) + Ahead(kid, path);
      Regroup(Left(b.c), NodeLeft(b.n, b.pos), Ahead(kid, path), LeafAt(kid, path).vals[..rpos]);
    }
  }

  lemma LeafLeft<V>(b: Place<V>)
    requires b.n.leaf && b.pos <= |b.n.vals|
    ensures PlaceLeft(b) == Left(b.c) + [] + b.n.vals[..b.pos]
  {
  }

  lemma UpWhole<V>(b: Place<V>, h: nat, k: nat)
    requires b.c.In? && OpenZipOk(b.n, b.c, h, k) && |b.n.vals| >= 1 && b.pos <= |b.n.vals|
    ensures var up := Up(b.n, b.c, k);
            up.pos <= |up.n.vals| && |up.n.kids| == |up.n.vals| + 1 && Pre(up) + PlaceRight(up) == Pre(b) + PlaceRight(b)
  {
    UpKeeps(b.n, b.c, h, k);
    hide KidsOk, CtxOk, InOrder, Left, Right, NodeLeft, NodeRight, NodeThrough, Pre, PlaceRight;
    PrePlace(Up(b.n, b.c, k));
    WholeOf(b);
  }

  /** Down the path to its leaf. */
  method Follow<V>(n: Tree<V>, c: Ctx<V>, path: seq<nat>, ghost h: nat, k: nat) returns (m: Tree<V>, d: Ctx<V>)
    requires ZipOk(n, c, h, k) && |n.vals| >= 1 && PathOk(n, path)
    ensures ZipOk(m, d, 0, k) && 1 <= |m.vals| && m.vals == LeafAt(n, path).vals
    ensures Left(d) == Left(c) + Ahead(n, path) && Plug(m, d, k) == Plug(n, c, k)
  {
    hide KidsOk, CtxOk, InOrder, Left, Right, Plug, NodeLeft, NodeRight, Fits, Down;
    m, d := n, c;
    var p := path;
    ghost var i := h;
    while p != []
      invariant ZipOk(m, d, i, k) && |m.vals| >= 1 && PathOk(m, p) && LeafAt(m, p) == LeafAt(n, path)
      invariant Left(d) + Ahead(m, p) == Left(c) + Ahead(n, path) && Plug(m, d, k) == Plug(n, c, k)
      decreases |p|
    {
      var a := Place(m, d, p[0]);
      ChildIter(a, i - 1, k);
      assert Ahead(m, p) == NodeLeft(m, p[0]) + Ahead(m.kids[p[0]], p[1..]);
      m, d, p := m.kids[p[0]], Down(a), p[1..];
      i := i - 1;
    }
  }

  /** The zipper's invariant is that of the tree. */
  lemma ZipTree<V>(n: Tree<V>, c: Ctx<V>, k: nat, rightmost: nat, next: nat)
    ensures ZipInv(n, c, rightmost, next) <==> ZipInv(Plug(n, c, k), Top, rightmost, next)
  {
    var t := Plug(n, c, k);
    forall x: nat
      ensures ZipOccurs(t, Top, x) == ZipOccurs(n, c, x)
    {
      PlugOccurs(n, c, k, x);
    }
    PlugEnds(n, c, k);
    PlugParent(n, c, k);
  }

  lemma {:induction false} PlugParent<V>(n: Tree<V>, c: Ctx<V>, k: nat)
    ensures Plug(n, c, k).parent == TopParent(n.parent, c)
    decreases c
  {
    if c.In? { PlugParent(ParentOf(n, c, k), c.up, k); }
  }

  // ----- Taking away an empty root

  /** `EmptyNode`: the root of a tree without values. */
  function EmptyNode<V>(): Tree<V> { Node(0, 0, 0, 1, true, [], []) }

  /** `make_root`: the only child of an empty root takes its place. */
  function MakeRoot<V>(root: Tree<V>): Tree<V>
    requires |root.kids| == 1
  {
    root.kids[0].(parent := root.parent)
  }

  lemma ShrinkInv<V>(root: Tree<V>, h: nat, k: nat, rightmost: nat, next: nat)
    requires h > 0 && Ok(root, h, k) && |root.vals| == 0 && ZipInv(root, Top, rightmost, next)
    ensures |root.kids| == 1
    ensures var t := MakeRoot(root);
            ZipOk(t, Top, h - 1, k) && |t.vals| >= 1 && InOrder(t) == InOrder(root) && ZipInv(t, Top, rightmost, next)
  {
    var t := MakeRoot(root);
    InOrderLink(root.kids[0], root.parent, t.position);
    forall x: nat
      ensures ZipOccurs(t, Top, x) <= ZipOccurs(root, Top, x)
    {
      assert KidsOccur(root.kids, x) == Occurs(root.kids[0], x) + KidsOccur(root.kids[1..], x);
    }
    LinkedEnds(root.kids[0], root.parent, t.position);
  }

  lemma ShrinkTracks<V>(a: Place<V>, path: seq<nat>, rpos: nat, before: seq<V>, h: nat, k: nat)
    requires h > 0 && PlaceOk(a, h, k) && a.c.Top? && |a.n.vals| == 0 && Tracks(a, path, rpos, before)
    ensures var t := MakeRoot(a.n);
            PathOk(t, path) && rpos <= |LeafAt(t, path).vals| && Ahead(t, path) + LeafAt(t, path).vals[..rpos] == before
  {
    hide KidsOk;
    SameKidPath(a.n.kids[0], MakeRoot(a.n), path);
    assert PlaceLeft(a) == [];
  }

  /** The result iterator as a place, when the rest of the tree is in order. */
  method Resolve<V>(a: Place<V>, path: seq<nat>, rpos: nat, ghost before: seq<V>, ghost h: nat, k: nat) returns (r: Place<V>)
    requires PlaceOk(a, h, k) && |a.n.vals| >= 1 && Tracks(a, path, rpos, before)
    ensures Iter(r, 0, k) && |r.n.vals| >= 1 && Pre(r) == before && Plug(r.n, r.c, k) == Plug(a.n, a.c, k)
  {
    hide KidsOk, CtxOk, InOrder, Left, Right, Plug, NodeLeft, NodeRight;
    if a.n.leaf {
      PrePlace(a);
      r := a;
    } else {
      ChildIter(a, h - 1, k);
      var m, d := Follow(a.n.kids[a.pos], Down(a), path, h - 1, k);
      r := Place(m, d, rpos);
    }
  }

  /** What the loop keeps: the structure but for the node itself, the identities, the
      whole sequence and the result iterator. */
  ghost predicate Climbing<V>(a: Place<V>, path: seq<nat>, rpos: nat, before: seq<V>, whole: seq<V>, h: nat, k: nat, rightmost: nat, next: nat) {
    && PlaceOk(a, h, k) && PlaceInv(a, rightmost, next)
    && Tracks(a, path, rpos, before) && Pre(a) + PlaceRight(a) == whole
  }

  /** One merge, and up to the parent. */
  lemma ClimbMerged<V>(a: Place<V>, b: Place<V>, path: seq<nat>, rpos: nat, before: seq<V>, whole: seq<V>,
                       h: nat, k: nat, rightmost: nat, rightmost': nat, next: nat)
    requires Climbing(a, path, rpos, before, whole, h, k, rightmost, next)
    requires Settled(a, b, h, k) && PlaceInv(b, rightmost', next)
    ensures Climbing(Up(b.n, b.c, k), if h == 0 then [] else [b.pos] + path, if h == 0 then b.pos else rpos, before, whole, h + 1, k, rightmost', next)
  {
    hide KidsOk, CtxOk, Pre, PlaceLeft, PlaceRight;
    TracksSame(a, b, path, rpos, before);
    var r := if h == 0 then b.pos else rpos;
    TracksUp(b, path, r, before, h, k);
    UpInv(b, k, rightmost', next);
  }

  lemma UpInv<V>(b: Place<V>, k: nat, rightmost: nat, next: nat)
    requires b.c.In? && PlaceInv(b, rightmost, next)
    ensures PlaceInv(Up(b.n, b.c, k), rightmost, next)
  {
    hide ZipOccurs;
    UpEnds(b.n, b.c, k);
  }

  /** The node stays where it is. */
  lemma ClimbSettled<V>(a: Place<V>, b: Place<V>, path: seq<nat>, rpos: nat, before: seq<V>, whole: seq<V>,
                        h: nat, k: nat, rightmost: nat, rightmost': nat, next: nat)
    requires Climbing(a, path, rpos, before, whole, h, k, rightmost, next)
    requires Settled(a, b, h, k) && PlaceInv(b, rightmost', next) && |b.c.lv| + |b.c.rv| >= 1
    ensures Climbing(b, path, if h == 0 then b.pos else rpos, before, whole, h, k, rightmost', next) && |b.n.vals| >= 1
  {
    TracksSame(a, b, path, rpos, before);
    hide KidsOk, Pre, PlaceLeft, PlaceRight, PlaceInv;
  }

  // ----- How far the climb goes

  /** The node is an ancestor of the place that has n values before it, or its leaf. */
  ghost predicate Covers<V>(a: Place<V>, n: int) { |Left(a.c)| <= n <= |Left(a.c)| + |InOrder(a.n)| }

  lemma {:induction false} AheadWithin<V>(t: Tree<V>, path: seq<nat>)
    requires PathOk(t, path)
    ensures |Ahead(t, path)| + |LeafAt(t, path).vals| <= |InOrder(t)|
    decreases |path|
  {
    if path != [] {
      AheadWithin(t.kids[path[0]], path[1..]);
      ThroughWhole(t, path[0]);
    }
  }

  lemma TracksCovers<V>(a: Place<V>, path: seq<nat>, rpos: nat, before: seq<V>)
    requires a.pos <= |a.n.vals| && (!a.n.leaf ==> |a.n.kids| == |a.n.vals| + 1) && Tracks(a, path, rpos, before)
    ensures Covers(a, |before|)
  {
    if !a.n.leaf {
      hide InOrder, Left, Right, Ahead, LeafAt, PathOk;
      AheadWithin(a.n.kids[a.pos], path);
      ThroughWhole(a.n, a.pos);
    }
  }

  /** The tree without an empty root. */
  function Shrunk<V>(root: Tree<V>): Tree<V> {
    if |root.vals| > 0 then root else if |root.kids| == 1 then MakeRoot(root) else EmptyNode()
  }

  /** Nothing more is to be done at this node: it is the root, or half full, or it does
      not fit into one node with a neighbour. */
  predicate Stopped<V>(top: Place<V>, k: nat) { top.c.Top? || |top.n.vals| >= k / 2 || !Mergeable(top, k) }

  /** How the structure was restored: above a place with n values before it, one node was
      merged away on each level below the node at which the climb stopped, and an empty root
      was taken away. */
  ghost predicate Restored<V>(nodes: nat, n: int, top: Place<V>, levels: nat, root: Tree<V>, k: nat, next: nat) {
    && PlaceOk(top, levels, k) && Covers(top, n) && Stopped(top, k)
    && Nodes(top.n, top.c, next) + levels == nodes && root == Shrunk(Plug(top.n, top.c, k))
  }

  lemma RootStays<V>(a: Place<V>, h: nat, k: nat)
    requires PlaceOk(a, h, k) && (a.c.In? || |a.n.vals| >= 1)
    ensures Shrunk(Plug(a.n, a.c, k)) == Plug(a.n, a.c, k)
  {
    PlugVals(a.n, a.c, h, k);
  }

  lemma {:induction false} PlugVals<V>(n: Tree<V>, c: Ctx<V>, h: nat, k: nat)
    requires CtxOk(c, h, k) && (c.In? || |n.vals| >= 1)
    ensures |Plug(n, c, k).vals| >= 1
    decreases c
  {
    if c.In? { PlugVals(ParentOf(n, c, k), c.up, h + 1, k); }
  }

  /** `try_shrink`, and the result iterator in what is left. */
  method TryShrink<V>(a: Place<V>, path: seq<nat>, rpos: nat, ghost before: seq<V>, ghost whole: seq<V>, ghost h: nat, k: nat, rightmost: nat, ghost next: nat)
    returns (r: Place<V>, rightmost': nat)
    requires k >= 3 && Climbing(a, path, rpos, before, whole, h, k, rightmost, next) && a.c.Top? && |a.n.vals| == 0 && next >= 1
    ensures Iter(r, 0, k) && Pre(r) == before && Pre(r) + PlaceRight(r) == whole
    ensures ZipInv(Plug(r.n, r.c, k), Top, rightmost', next)
    ensures |r.n.vals| == 0 ==> r == Place(EmptyNode(), Top, 0)
    ensures Plug(r.n, r.c, k) == Shrunk(a.n)
  {
    hide KidsOk, InOrder;
    if a.n.leaf {
      PrePlace(a);
      r, rightmost' := Place(EmptyNode(), Top, 0), 0;
    } else {
      ShrinkInv(a.n, h, k, rightmost, next);
      ShrinkTracks(a, path, rpos, before, h, k);
      WholeOf(a);
      hide NodeLeft, NodeRight, Occurs, LastLeaf;
      var t := MakeRoot(a.n);
      var m, d := Follow(t, Top, path, h - 1, k);
      r, rightmost' := Place(m, d, rpos), rightmost;
      PreWhole(r, 0, k);
    }
  }

  /** Restores the structure around a leaf from which a value was removed. The result
      is at the same place between the values that are left. */
  method RestoreAfterDelete<V>(leaf: Place<V>, k: nat, rightmost: nat, ghost next: nat)
    returns (r: Place<V>, rightmost': nat, ghost top: Place<V>, ghost levels: nat)
    requires k >= 3 && PlaceOk(leaf, 0, k) && PlaceInv(leaf, rightmost, next) && next >= 1
    ensures Iter(r, 0, k) && Pre(r) == Pre(leaf) && Pre(r) + PlaceRight(r) == Pre(leaf) + PlaceRight(leaf)
    ensures ZipInv(Plug(r.n, r.c, k), Top, rightmost', next)
    ensures |r.n.vals| == 0 ==> r == Place(EmptyNode(), Top, 0)
    ensures Restored(Nodes(leaf.n, leaf.c, next), |Pre(leaf)|, top, levels, Plug(r.n, r.c, k), k, next)
  {
    hide KidsOk, InOrder, Settled, PlaceInv, ZipInv, Tracks, Pre, PlaceRight, Nodes, Mergeable, Covers, Shrunk;
    ghost var before, whole := Pre(leaf), Pre(leaf) + PlaceRight(leaf);
    var a, path, rpos := leaf, [], leaf.pos;
    ghost var h := 0;
    rightmost' := rightmost;
    ClimbStart(leaf, k, rightmost, next);
    while a.c.In? && |a.n.vals| < k / 2
      invariant Climbing(a, path, rpos, before, whole, h, k, rightmost', next)
      invariant Nodes(a.n, a.c, next) + h == Nodes(leaf.n, leaf.c, next)
      decreases a.c
    {
      var b, merged, last := TryMergeOrRebalance(a, h, k, rightmost', next);
      if !merged {
        ClimbSettled(a, b, path, rpos, before, whole, h, k, rightmost', last, next);
        if a.n.leaf { rpos := b.pos; }
        a, rightmost' := b, last;
        assert Stopped(a, k);
        break;
      }
      ClimbMerged(a, b, path, rpos, before, whole, h, k, rightmost', last, next);
      UpNodes(b, k, next);
      if a.n.leaf { rpos, path := b.pos, []; } else { path := [b.pos] + path; }
      a, rightmost' := Up(b.n, b.c, k), last;
      h := h + 1;
    }
    top, levels := a, h;
    TracksCovers(a, path, rpos, before);
    if a.c.Top? && |a.n.vals| == 0 {
      r, rightmost' := TryShrink(a, path, rpos, before, whole, h, k, rightmost', next);
    } else {
      r := Resolve(a, path, rpos, before, h, k);
      ResolveInv(a, r, h, k, rightmost', next);
      RootStays(a, h, k);
    }
  }

  lemma UpNodes<V>(b: Place<V>, k: nat, next: nat)
    requires b.c.In?
    ensures Nodes(Up(b.n, b.c, k).n, b.c.up, next) == Nodes(b.n, b.c, next)
  {
    UpEnds(b.n, b.c, k);
    hide ZipOccurs;
    SameNodes(Up(b.n, b.c, k).n, b.c.up, b.n, b.c, next);
  }

  lemma ResolveInv<V>(a: Place<V>, r: Place<V>, h: nat, k: nat, rightmost: nat, next: nat)
    requires PlaceOk(a, h, k) && PlaceOk(r, 0, k) && PlaceInv(a, rightmost, next) && Plug(r.n, r.c, k) == Plug(a.n, a.c, k)
    ensures Pre(r) + PlaceRight(r) == Pre(a) + PlaceRight(a) && ZipInv(Plug(r.n, r.c, k), Top, rightmost, next)
  {
    hide KidsOk, InOrder;
    PreWhole(a, h, k);
    PreWhole(r, 0, k);
    ZipTree(a.n, a.c, k, rightmost, next);
  }

  lemma ClimbStart<V>(leaf: Place<V>, k: nat, rightmost: nat, next: nat)
    requires PlaceOk(leaf, 0, k) && PlaceInv(leaf, rightmost, next)
    ensures Climbing(leaf, [], leaf.pos, Pre(leaf), Pre(leaf) + PlaceRight(leaf), 0, k, rightmost, next)
  {
    hide KidsOk, PlaceInv;
    PrePlace(leaf);
  }
}

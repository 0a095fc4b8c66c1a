/**
 Making room for a value: rebalancing with a sibling or splitting, up to a new root.
 */
module BTreeInsert {
  import opened BTreeShape
  import opened BTreeSiblings
  import opened BTreePlaces

  /** No identity occurs twice, and those from next on are not in use. */
  ghost predicate Unique<V>(n: Tree<V>, c: Ctx<V>, next: nat) {
    forall x: nat :: ZipOccurs(n, c, x) <= if x < next then 1 else 0
  }

  /** The parent link of the root, which the source uses to find the first leaf. */
  function TopParent<V>(parent: nat, c: Ctx<V>): nat
    decreases c
  {
    if c.Top? then parent else TopParent(c.parent, c.up)
  }

  // ----- Counting nodes

  /** The number of nodes with identities below next. */
  ghost function Nodes<V>(n: Tree<V>, c: Ctx<V>, next: nat): nat {
    if next == 0 then 0 else Nodes(n, c, next - 1) + ZipOccurs(n, c, next - 1)
  }

  lemma {:induction false} SameNodes<V>(n: Tree<V>, c: Ctx<V>, m: Tree<V>, d: Ctx<V>, next: nat)
    requires forall x: nat :: ZipOccurs(n, c, x) == ZipOccurs(m, d, x)
    ensures Nodes(n, c, next) == Nodes(m, d, next)
  {
    if next > 0 { SameNodes(n, c, m, d, next - 1); }
  }

  /** One tree has a node that the other has not. */
  lemma {:induction false} OneNodeMore<V>(n: Tree<V>, c: Ctx<V>, m: Tree<V>, d: Ctx<V>, id: nat, next: nat)
    requires forall x: nat :: ZipOccurs(m, d, x) == ZipOccurs(n, c, x) + if x == id then 1 else 0
    ensures Nodes(m, d, next) == Nodes(n, c, next) + if id < next then 1 else 0
  {
    hide ZipOccurs;
    if next > 0 { OneNodeMore(n, c, m, d, id, next - 1); }
  }

  /** Identities that are not in use do not count. */
  lemma {:induction false} UnusedIds<V>(n: Tree<V>, c: Ctx<V>, next: nat, more: nat)
    requires Unique(n, c, next) && next <= more
    ensures Nodes(n, c, more) == Nodes(n, c, next)
  {
    hide ZipOccurs;
    if next < more { UnusedIds(n, c, next, more - 1); }
  }

  // ----- Up to the parent and down to a child

  /** A node as a place in its parent, and back. */
  function Up<V>(n: Tree<V>, c: Ctx<V>, k: nat): Place<V>
    requires c.In?
  {
    Place(ParentOf(n, c, k), c.up, |c.lk|)
  }

  function Down<V>(a: Place<V>): Ctx<V>
    requires a.pos <= |a.n.vals| && |a.n.kids| == |a.n.vals| + 1
  {
    var n := a.n;
    In(n.id, n.parent, n.position, n.vals[..a.pos], n.kids[..a.pos], n.vals[a.pos..], n.kids[a.pos + 1..], a.c)
  }

  lemma UpKeeps<V>(n: Tree<V>, c: Ctx<V>, h: nat, k: nat)
    requires c.In? && OpenZipOk(n, c, h, k) && |n.vals| >= 1
    ensures var a := Up(n, c, k);
            && PlaceOk(a, h + 1, k) && a.n.kids[a.pos] == n
            && PlaceLeft(a) == Left(c) && PlaceRight(a) == Right(c)
  {
    ParentOk(n, c, h, k);
    hide KidsOk, CtxOk, InOrder, Before, After;
    var a := Up(n, c, k);
    assert a.n.vals[..a.pos] == c.lv && a.n.vals[a.pos..] == c.rv;
    assert a.n.kids[..a.pos] == c.lk && a.n.kids[a.pos + 1..] == c.rk;
  }

  lemma UpEnds<V>(n: Tree<V>, c: Ctx<V>, k: nat)
    requires c.In?
    ensures var a := Up(n, c, k);
            && ZipFirst(a.n, a.c) == ZipFirst(n, c) && ZipLast(a.n, a.c) == ZipLast(n, c)
            && forall x :: ZipOccurs(a.n, a.c, x) == ZipOccurs(n, c, x)
  {
    var a := Up(n, c, k);
    forall x
      ensures ZipOccurs(a.n, a.c, x) == ZipOccurs(n, c, x)
    {
      ParentOccurs(n, c, k, x);
    }
  }

  lemma DownKeeps<V>(a: Place<V>, h: nat, k: nat)
    requires PlaceOk(a, h + 1, k)
    ensures var n, c := a.n.kids[a.pos], Down(a);
            && OpenZipOk(n, c, h, k) && ParentOf(n, c, k) == a.n
            && PlaceLeft(a) == Left(c) && PlaceRight(a) == Right(c)
  {
    var n, c := a.n.kids[a.pos], Down(a);
    assert a.n.vals == c.lv + c.rv && a.n.kids == c.lk + [n] + c.rk;
  }

  lemma DownEnds<V>(a: Place<V>, h: nat, k: nat)
    requires PlaceOk(a, h + 1, k)
    ensures var n, c := a.n.kids[a.pos], Down(a);
            && ZipFirst(a.n, a.c) == ZipFirst(n, c) && ZipLast(a.n, a.c) == ZipLast(n, c)
            && forall x :: ZipOccurs(a.n, a.c, x) == ZipOccurs(n, c, x)
  {
    hide KidsOk, CtxOk;
    var n, c := a.n.kids[a.pos], Down(a);
    assert a.n.kids == c.lk + [n] + c.rk;
    forall x
      ensures ZipOccurs(a.n, a.c, x) == ZipOccurs(n, c, x)
    {
      OccurAppend(c.lk + [n], c.rk, x);
      OccurAppend(c.lk, [n], x);
      assert KidsOccur([n], x) == Occurs(n, x);
    }
  }

  // ----- Room by rebalancing

  /** How many values move into a sibling with count values: half of its free room,
      or all of it when the insertion is at the far end. */
  function ToMove(k: nat, count: nat, halve: bool): (m: nat)
    requires count < k
    ensures 1 <= m <= k - count
    ensures if halve then m == 1 || 0 <= (k - count - m) - m <= 1 else count + m == k
  {
    var m := if halve then (k - count) / 2 else k - count;
    if m < 1 then 1 else m
  }

  /** The number of values that `split` leaves in the left node. */
  function SplitCut(k: nat, pos: nat): (cut: nat)
    requires k >= 3 && pos <= k
    ensures cut < k && (pos <= cut ==> cut < k - 1) && (pos > cut ==> cut >= 1)
  {
    k - 1 - if pos == 0 then k - 1 else if pos == k then 0 else k / 2
  }

  /** What making room keeps: the place, the structure, the first leaf and the
      identities; there is room for a value afterwards. */
  ghost predicate Roomy<V>(a: Place<V>, b: Place<V>, h: nat, k: nat) {
    && SamePlace(a, b) && PlaceOk(b, h, k) && b.c.In? && |b.n.vals| < k
    && ZipFirst(a.n, a.c) == ZipFirst(b.n, b.c)
    && TopParent(a.n.parent, a.c) == TopParent(b.n.parent, b.c)
  }

  ghost predicate SameIds<V>(a: Place<V>, b: Place<V>) {
    && ZipLast(a.n, a.c) == ZipLast(b.n, b.c)
    && forall x :: ZipOccurs(a.n, a.c, x) == ZipOccurs(b.n, b.c, x)
  }

  /** A cut of a pair that brings its place q into a node with room. */
  predicate RoomyCut<V>(p: Pair<V>, q: nat, cut: nat, k: nat) {
    var l, r := |p.l.vals|, |p.r.vals|;
    && q <= l + 1 + r && 1 <= cut < l + r && cut <= k && l + r - cut <= k
    && (if q <= l then r >= 1 else l >= 1)
    && if q <= cut then cut < k else l + r - cut < k
  }

  lemma RecutRoomy<V>(p: Pair<V>, q: nat, cut: nat, h: nat, k: nat)
    requires PairOk(p, h, k) && RoomyCut(p, q, cut, k)
    ensures var a, b := PlaceAt(p, q), PlaceAt(Recut(p, cut), q);
            Roomy(a, b, h, k) && SameIds(a, b) && b.c.In? && b.c.up == p.c.up && |b.n.vals| >= 1
  {
    RecutPlace(p, q, cut, h, k);
    RecutEnds(p, cut, h, k);
    hide KidsOk, CtxOk, Left, Right, InOrder, SamePlace, PairOccurs, ZipOccurs;
    RecutIds(p, q, cut, h, k);
  }

  lemma RecutIds<V>(p: Pair<V>, q: nat, cut: nat, h: nat, k: nat)
    requires PairOk(p, h, k) && RoomyCut(p, q, cut, k)
    ensures var a, b := PlaceAt(p, q), PlaceAt(Recut(p, cut), q);
            && PlaceOk(b, h, k) && b.c.In? && 1 <= |b.n.vals| < k
            && ZipFirst(a.n, a.c) == ZipFirst(b.n, b.c) && SameIds(a, b)
  {
    RecutKeeps(p, cut, h, k);
    RecutEnds(p, cut, h, k);
    hide KidsOk, CtxOk, PairOccurs, ZipOccurs;
    PlaceAtKeeps(p, q, h, k);
    PlaceAtKeeps(Recut(p, cut), q, h, k);
    var a, b := PlaceAt(p, q), PlaceAt(Recut(p, cut), q);
    assert forall x :: ZipOccurs(a.n, a.c, x) == ZipOccurs(b.n, b.c, x);
  }

  /** The number of values in the node of a place after a cut. */
  lemma RecutSize<V>(p: Pair<V>, q: nat, cut: nat, h: nat, k: nat)
    requires PairOk(p, h, k) && RoomyCut(p, q, cut, k)
    ensures |PlaceAt(Recut(p, cut), q).n.vals| == if q <= cut then cut else |p.l.vals| + |p.r.vals| - cut
  {
  }

  /** A full node whose left sibling can take values so that there is room. */
  predicate LeftHasRoom<V>(a: Place<V>, h: nat, k: nat) {
    && PlaceOk(a, h, k) && |a.n.vals| == k && a.c.In? && |a.c.lk| > 0
    && var count := |a.c.lk[|a.c.lk| - 1].vals|;
    && count < k
    && var m := ToMove(k, count, a.pos < k); a.pos >= m || count + m < k
  }

  predicate RightHasRoom<V>(a: Place<V>, h: nat, k: nat) {
    && PlaceOk(a, h, k) && |a.n.vals| == k && a.c.In? && |a.c.rk| > 0
    && var count := |a.c.rk[0].vals|;
    && count < k
    && var m := ToMove(k, count, a.pos > 0); a.pos <= k - m || count + m < k
  }

  /** A neighbour has room for two values or more. */
  predicate NeighbourHasRoom<V>(a: Place<V>, k: nat) {
    && a.c.In?
    && ((|a.c.lk| > 0 && |a.c.lk[|a.c.lk| - 1].vals| + 2 <= k) || (|a.c.rk| > 0 && |a.c.rk[0].vals| + 2 <= k))
  }

  /** A place of a node as a place of the pair with a sibling. */
  lemma AsRightOne<V>(a: Place<V>)
    requires a.c.In? && |a.c.lk| > 0 && |a.c.lv| > 0
    ensures var p := WithLeft(a.n, a.c); a == PlaceAt(p, |p.l.vals| + 1 + a.pos)
  {
    var p := WithLeft(a.n, a.c);
    assert AtRight(p) == a.c;
  }

  lemma AsLeftOne<V>(a: Place<V>)
    requires a.c.In? && |a.c.rk| > 0 && |a.c.rv| > 0 && a.pos <= |a.n.vals|
    ensures a == PlaceAt(WithRight(a.n, a.c), a.pos)
  {
    var p := WithRight(a.n, a.c);
    assert AtLeft(p) == a.c;
  }

  lemma LeftRoomyCut<V>(a: Place<V>, h: nat, k: nat)
    requires LeftHasRoom(a, h, k)
    ensures a.c.In? && |a.c.lk| > 0 && |a.c.lv| > 0
    ensures var p := WithLeft(a.n, a.c); var count := |p.l.vals|;
            count == |a.c.lk[|a.c.lk| - 1].vals| < k == |p.r.vals| && PairOk(p, h, k) && RoomyCut(p, count + 1 + a.pos, count + ToMove(k, count, a.pos < k), k)
  {
    hide ToMove, KidsOk, InOrder, Occurs;
    WithLeftKeeps(a.n, a.c, h, k);
  }

  lemma RightRoomyCut<V>(a: Place<V>, h: nat, k: nat)
    requires RightHasRoom(a, h, k)
    ensures a.c.In? && |a.c.rk| > 0 && |a.c.rv| > 0 && a.pos <= |a.n.vals|
    ensures var p := WithRight(a.n, a.c);
            |p.r.vals| == |a.c.rk[0].vals| < k == |p.l.vals| && PairOk(p, h, k) && RoomyCut(p, a.pos, k - ToMove(k, |p.r.vals|, a.pos > 0), k)
  {
    hide ToMove, KidsOk, InOrder, Occurs;
    WithRightKeeps(a.n, a.c, h, k);
  }

  /** A full node gives values to its left sibling, or to its right sibling. */
  function ToLeft<V>(a: Place<V>, ghost h: nat, k: nat): (b: Place<V>)
    requires LeftHasRoom(a, h, k)
    ensures Roomy(a, b, h, k) && SameIds(a, b)
  {
    hide ToMove, KidsOk, Roomy, SameIds, RoomyCut;
    LeftRoomyCut(a, h, k);
    AsRightOne(a);
    var p := WithLeft(a.n, a.c);
    var cut, q := |p.l.vals| + ToMove(k, |p.l.vals|, a.pos < k), |p.l.vals| + 1 + a.pos;
    RecutRoomy(p, q, cut, h, k);
    PlaceAt(Recut(p, cut), q)
  }

  function ToRight<V>(a: Place<V>, ghost h: nat, k: nat): (b: Place<V>)
    requires RightHasRoom(a, h, k)
    ensures Roomy(a, b, h, k) && SameIds(a, b)
  {
    hide ToMove, KidsOk, Roomy, SameIds, RoomyCut;
    RightRoomyCut(a, h, k);
    AsLeftOne(a);
    var p := WithRight(a.n, a.c);
    var cut := k - ToMove(k, |p.r.vals|, a.pos > 0);
    RecutRoomy(p, a.pos, cut, h, k);
    PlaceAt(Recut(p, cut), a.pos)
  }

  /** How many values are in the node of the place after that. */
  lemma ToLeftSize<V>(a: Place<V>, h: nat, k: nat)
    requires LeftHasRoom(a, h, k)
    ensures var count := |a.c.lk[|a.c.lk| - 1].vals|; var m := ToMove(k, count, a.pos < k);
            |ToLeft(a, h, k).n.vals| == if a.pos < m then count + m else k - m
  {
    hide ToMove, KidsOk, CtxOk, InOrder, Roomy, SameIds, RoomyCut, Recut, PlaceAt;
    LeftRoomyCut(a, h, k);
    var p := WithLeft(a.n, a.c);
    RecutSize(p, |p.l.vals| + 1 + a.pos, |p.l.vals| + ToMove(k, |p.l.vals|, a.pos < k), h, k);
  }

  lemma ToRightSize<V>(a: Place<V>, h: nat, k: nat)
    requires RightHasRoom(a, h, k)
    ensures var count := |a.c.rk[0].vals|; var m := ToMove(k, count, a.pos > 0);
            |ToRight(a, h, k).n.vals| == if a.pos <= k - m then k - m else count + m
  {
    hide ToMove, KidsOk, CtxOk, InOrder, Roomy, SameIds, RoomyCut, Recut, PlaceAt;
    RightRoomyCut(a, h, k);
    var p := WithRight(a.n, a.c);
    RecutSize(p, a.pos, k - ToMove(k, |p.r.vals|, a.pos > 0), h, k);
  }

  // ----- Room by splitting

  /** How many values a split leaves in the node that the new value goes to: half of them,
      but none if the value goes to an end, so that appending values leaves full nodes. */
  predicate EvenSplit(pos: nat, count: nat, k: nat) {
    if 0 < pos < k then (k - 1) / 2 <= count <= k / 2 else count == 0
  }

  lemma SplitSize(k: nat, pos: nat)
    requires k >= 3 && pos <= k
    ensures var cut := SplitCut(k, pos); EvenSplit(pos, if pos <= cut then cut else k - 1 - cut, k)
  {
  }

  /** A full node below a parent that has room for one more child. */
  predicate Splittable<V>(a: Place<V>, h: nat, k: nat) {
    k >= 3 && a.c.In? && OpenZipOk(a.n, a.c, h, k) && a.pos <= |a.n.vals| == k && |a.c.lv| + |a.c.rv| < k
  }

  function Split<V>(a: Place<V>, id: nat, ghost h: nat, k: nat): (b: Place<V>)
    requires Splittable(a, h, k)
    ensures Roomy(a, b, h, k)
    ensures ZipLast(b.n, b.c) == if h == 0 then LastOf(id, a.c) else ZipLast(a.n, a.c)
    ensures forall x :: ZipOccurs(b.n, b.c, x) == ZipOccurs(a.n, a.c, x) + if x == id then 1 else 0
  {
    hide SplitCut, KidsOk, CtxOk, SamePlace, PairOccurs, ZipOccurs;
    var cut := SplitCut(k, a.pos);
    SplitKeeps(a.n, a.c, cut, id, h, k);
    SplitEnds(a.n, a.c, cut, id, h, k);
    SplitPlace(a.n, a.c, cut, id, a.pos, h, k);
    var p := Halves(a.n, a.c, cut, id, k);
    PlaceAtKeeps(p, a.pos, h, k);
    PlaceAt(p, a.pos)
  }

  lemma SplitIsEven<V>(a: Place<V>, id: nat, h: nat, k: nat)
    requires Splittable(a, h, k)
    ensures EvenSplit(a.pos, |Split(a, id, h, k).n.vals|, k)
  {
    SplitSize(k, a.pos);
    HalfSize(a, SplitCut(k, a.pos), id, k);
    hide KidsOk, CtxOk, EvenSplit, SplitCut, Roomy, ZipOccurs, ZipLast, LastOf, PlaceAt, Halves;
  }

  lemma HalfSize<V>(a: Place<V>, cut: nat, id: nat, k: nat)
    requires a.c.In? && cut < |a.n.vals| && (!a.n.leaf ==> |a.n.kids| == |a.n.vals| + 1)
    ensures |PlaceAt(Halves(a.n, a.c, cut, id, k), a.pos).n.vals| == if a.pos <= cut then cut else |a.n.vals| - 1 - cut
  {
  }

  // ----- Both together

  /** The same place, ready to be split. */
  ghost predicate Ready<V>(a: Place<V>, b: Place<V>, h: nat, k: nat) {
    && Splittable(b, h, k) && SamePlace(a, b)
    && ZipFirst(a.n, a.c) == ZipFirst(b.n, b.c)
    && TopParent(a.n.parent, a.c) == TopParent(b.n.parent, b.c)
  }

  /** The parent has room already. */
  lemma HereReady<V>(a: Place<V>, h: nat, k: nat)
    requires k >= 3 && PlaceOk(a, h, k) && |a.n.vals| == k && a.c.In? && |a.c.lv| + |a.c.rv| < k
    ensures Ready(a, a, h, k)
  {
    hide KidsOk, InOrder;
  }

  /** A new root above the old one. */
  function Grown<V>(a: Place<V>, id: nat): Place<V>
  {
    Place(a.n.(parent := id, position := 0), In(id, a.n.parent, 0, [], [], [], [], Top), a.pos)
  }

  lemma GrownKeeps<V>(a: Place<V>, next: nat, h: nat, k: nat)
    requires k >= 3 && PlaceOk(a, h, k) && |a.n.vals| == k && a.c.Top? && Unique(a.n, a.c, next)
    ensures var b := Grown(a, next);
            && Ready(a, b, h, k) && Unique(b.n, b.c, next + 1) && ZipLast(a.n, a.c) == ZipLast(b.n, b.c)
            && Nodes(b.n, b.c, next + 1) == Nodes(a.n, a.c, next) + 1
  {
    var b := Grown(a, next);
    forall x
      ensures ZipOccurs(b.n, b.c, x) == ZipOccurs(a.n, a.c, x) + if x == next then 1 else 0
    {
    }
    NewNode(a, b, next);
  }

  /** A new identity for a new node. */
  lemma NewNode<V>(a: Place<V>, b: Place<V>, next: nat)
    requires Unique(a.n, a.c, next)
    requires forall x: nat :: ZipOccurs(b.n, b.c, x) == ZipOccurs(a.n, a.c, x) + if x == next then 1 else 0
    ensures Nodes(b.n, b.c, next + 1) == Nodes(a.n, a.c, next) + 1
  {
    OneNodeMore(a.n, a.c, b.n, b.c, next, next + 1);
    UnusedIds(a.n, a.c, next, next + 1);
  }

  /** The node after its parent was given room. */
  function Below<V>(a: Place<V>, up: Place<V>): Place<V>
    requires up.pos <= |up.n.vals| && |up.n.kids| == |up.n.vals| + 1
  {
    Place(up.n.kids[up.pos], Down(up), a.pos)
  }

  lemma BelowKeeps<V>(a: Place<V>, up: Place<V>, next: nat, h: nat, k: nat)
    requires k >= 3 && PlaceOk(a, h, k) && |a.n.vals| == k && a.c.In?
    requires Roomy(Up(a.n, a.c, k), up, h + 1, k) && Unique(up.n, up.c, next)
    ensures var b := Below(a, up);
            && Ready(a, b, h, k) && Unique(b.n, b.c, next) && ZipLast(up.n, up.c) == ZipLast(b.n, b.c)
            && Nodes(b.n, b.c, next) == Nodes(up.n, up.c, next)
  {
    UpKeeps(a.n, a.c, h, k);
    UpEnds(a.n, a.c, k);
    DownKeeps(up, h, k);
    DownEnds(up, h, k);
    hide KidsOk, CtxOk, ZipOccurs;
    var b := Below(a, up);
    SameNodes(b.n, b.c, up.n, up.c, next);
    assert SameKid(a.n, b.n);
  }

  /** The last leaf after a split: the new node only if the split one was the last leaf. */
  lemma SplitLast<V>(a: Place<V>, id: nat, h: nat, next: nat)
    requires Unique(a.n, a.c, next) && (h == 0 ==> a.n.kids == [])
    ensures var last := ZipLast(a.n, a.c);
            (if h == 0 then LastOf(id, a.c) else last) == if h == 0 && last == a.n.id then id else last
  {
    if h == 0 {
      RightEdgeLast(a.n.id, a.c);
      RightEdgeLast(id, a.c);
      assert ZipOccurs(a.n, a.c, ZipLast(a.n, a.c)) <= 1;
    }
  }

  lemma SplitUnique<V>(a: Place<V>, b: Place<V>, next: nat)
    requires Unique(a.n, a.c, next)
    requires forall x :: ZipOccurs(b.n, b.c, x) == ZipOccurs(a.n, a.c, x) + if x == next then 1 else 0
    ensures Unique(b.n, b.c, next + 1)
  {
    hide ZipOccurs;
  }

  /** `split` with a new node, and the last leaf. */
  method SplitNode<V>(node: Place<V>, ghost h: nat, k: nat, next: nat, rightmost: nat) returns (b: Place<V>, rightmost': nat)
    requires Splittable(node, h, k) && Unique(node.n, node.c, next) && rightmost == ZipLast(node.n, node.c)
    ensures Roomy(node, b, h, k) && Unique(b.n, b.c, next + 1) && rightmost' == ZipLast(b.n, b.c)
    ensures Nodes(b.n, b.c, next + 1) == Nodes(node.n, node.c, next) + 1 && EvenSplit(node.pos, |b.n.vals|, k)
  {
    hide KidsOk, CtxOk, Roomy, ZipLast, ZipOccurs, Unique, EvenSplit;
    SplitLast(node, next, h, next);
    b := Split(node, next, h, k);
    SplitUnique(node, b, next);
    NewNode(node, b, next);
    SplitIsEven(node, next, h, k);
    rightmost' := if node.n.leaf && rightmost == node.n.id then next else rightmost;
  }

  /** The full node of a gets room; b is the same place afterwards. */
  method RebalanceOrSplit<V>(a: Place<V>, ghost h: nat, k: nat, next: nat, rightmost: nat)
    returns (b: Place<V>, next': nat, rightmost': nat)
    requires k >= 3 && PlaceOk(a, h, k) && |a.n.vals| == k
    requires Unique(a.n, a.c, next) && rightmost == ZipLast(a.n, a.c)
    ensures Roomy(a, b, h, k)
    ensures Unique(b.n, b.c, next') && rightmost' == ZipLast(b.n, b.c) && next' >= next
    ensures Nodes(b.n, b.c, next') == Nodes(a.n, a.c, next) + (next' - next)
    ensures NeighbourHasRoom(a, k) ==> next' == next
    ensures LeftHasRoom(a, h, k) ==> b == ToLeft(a, h, k)
    ensures !LeftHasRoom(a, h, k) && RightHasRoom(a, h, k) ==> b == ToRight(a, h, k)
    ensures next' > next ==> EvenSplit(a.pos, |b.n.vals|, k)
    decreases a.c
  {
    hide KidsOk, SamePlace, ZipFirst, ZipLast, ZipOccurs, Nodes, EvenSplit, ToLeft, ToRight;
    next', rightmost' := next, rightmost;
    var node := a;
    if a.c.In? {
      if |a.c.lk| > 0 {
        var count := |a.c.lk[|a.c.lk| - 1].vals|;
        if count < k {
          var move := ToMove(k, count, a.pos < k);
          if a.pos >= move || count + move < k {
            b := ToLeft(a, h, k);
            KeptIds(a, b, next);
            return;
          }
        }
      }
      if |a.c.rk| > 0 {
        var count := |a.c.rk[0].vals|;
        if count < k {
          var move := ToMove(k, count, a.pos > 0);
          if a.pos <= k - move || count + move < k {
            b := ToRight(a, h, k);
            KeptIds(a, b, next);
            return;
          }
        }
      }
      if |a.c.lv| + |a.c.rv| == k {
        var up;
        UpKeeps(a.n, a.c, h, k);
        UpEnds(a.n, a.c, k);
        up, next', rightmost' := RebalanceOrSplit(Up(a.n, a.c, k), h + 1, k, next, rightmost);
        BelowKeeps(a, up, next', h, k);
        SameNodes(a.n, a.c, Up(a.n, a.c, k).n, a.c.up, next);
        node := Below(a, up);
      } else {
        HereReady(a, h, k);
      }
    } else {
      GrownKeeps(a, next, h, k);
      node, next' := Grown(a, next), next + 1;
    }
    b, rightmost' := SplitNode(node, h, k, next', rightmost');
    next' := next' + 1;
    ReadyRoomy(a, node, b, h, k);
  }

  lemma KeptIds<V>(a: Place<V>, b: Place<V>, next: nat)
    requires Unique(a.n, a.c, next) && SameIds(a, b)
    ensures Unique(b.n, b.c, next) && ZipLast(a.n, a.c) == ZipLast(b.n, b.c) && Nodes(a.n, a.c, next) == Nodes(b.n, b.c, next)
  {
    hide ZipOccurs;
    SameNodes(a.n, a.c, b.n, b.c, next);
  }

  lemma ReadyRoomy<V>(a: Place<V>, node: Place<V>, b: Place<V>, h: nat, k: nat)
    requires Ready(a, node, h, k) && Roomy(node, b, h, k)
    ensures Roomy(a, b, h, k)
  {
    hide KidsOk, CtxOk, PlaceLeft, PlaceRight, ZipFirst;
  }
}

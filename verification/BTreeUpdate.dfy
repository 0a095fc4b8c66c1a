/**
 Insertion and erasure of single values.
 */
module BTreeUpdate {
  import opened BTreeShape
  import opened BTreeSiblings
  import opened BTreePlaces
  import opened BTreeInsert
  import opened BTreeIterator
  import opened BTreeSearch
  import opened BTreeErase

  // ----- Single values

  /** `emplace_value` in a leaf. */
  function Inserted<V>(b: Place<V>, v: V): Place<V>
    requires b.pos <= |b.n.vals|
  {
    b.(n := b.n.(vals := b.n.vals[..b.pos] + [v] + b.n.vals[b.pos..]))
  }

  lemma InsertedKeeps<V>(b: Place<V>, v: V, k: nat, rightmost: nat, next: nat)
    requires PlaceOk(b, 0, k) && |b.n.vals| < b.n.maxCount && PlaceInv(b, rightmost, next)
    ensures var r := Inserted(b, v);
            && Iter(r, 0, k) && PlaceInv(r, rightmost, next) && r.pos < |r.n.vals| && r.n.vals[r.pos] == v
            && Pre(r) == Pre(b) && PlaceRight(r) == [v] + PlaceRight(b)
  {
    hide KidsOk, Left, Right;
    SameOccurs(b, Inserted(b, v));
    var r := Inserted(b, v);
    assert r.n.vals[..r.pos] == b.n.vals[..b.pos] && r.n.vals[r.pos..] == [v] + b.n.vals[b.pos..];
  }

  /** Other values in the same node leave the identities as they are. */
  lemma SameOccurs<V>(a: Place<V>, b: Place<V>)
    requires a.c == b.c && a.n.id == b.n.id && a.n.kids == b.n.kids
    ensures forall x :: ZipOccurs(a.n, a.c, x) == ZipOccurs(b.n, b.c, x)
    ensures ZipFirst(a.n, a.c) == ZipFirst(b.n, b.c) && ZipLast(a.n, a.c) == ZipLast(b.n, b.c)
  {
  }

  lemma OtherValues<V>(a: Place<V>, b: Place<V>, next: nat)
    requires a.c == b.c && a.n.id == b.n.id && a.n.kids == b.n.kids
    ensures Nodes(a.n, a.c, next) == Nodes(b.n, b.c, next)
  {
    SameOccurs(a, b);
    SameNodes(a.n, a.c, b.n, b.c, next);
  }

  /** The nodes around a place are those of the tree. */
  lemma PlugNodes<V>(n: Tree<V>, c: Ctx<V>, k: nat, next: nat)
    ensures Nodes(n, c, next) == Nodes(Plug(n, c, k), Top, next)
  {
    forall x: nat
      ensures ZipOccurs(Plug(n, c, k), Top, x) == ZipOccurs(n, c, x)
    {
      PlugOccurs(n, c, k, x);
    }
    SameNodes(n, c, Plug(n, c, k), Top, next);
  }

  /** `remove_value` in a leaf. */
  function Removed<V>(b: Place<V>): Place<V>
    requires b.pos < |b.n.vals|
  {
    b.(n := b.n.(vals := b.n.vals[..b.pos] + b.n.vals[b.pos + 1..]))
  }

  lemma RemovedKeeps<V>(b: Place<V>, k: nat, rightmost: nat, next: nat)
    requires PlaceOk(b, 0, k) && b.pos < |b.n.vals| && PlaceInv(b, rightmost, next)
    ensures var r := Removed(b);
            && PlaceOk(r, 0, k) && PlaceInv(r, rightmost, next)
            && Pre(r) == Pre(b) && PlaceRight(b) == [b.n.vals[b.pos]] + PlaceRight(r)
  {
    hide KidsOk, Left, Right;
    SameOccurs(b, Removed(b));
    var r := Removed(b);
    assert r.n.vals[..r.pos] == b.n.vals[..b.pos] && b.n.vals[b.pos..] == [b.n.vals[b.pos]] + r.n.vals[r.pos..];
  }

  /** The value at an internal place replaced by another. */
  function Replaced<V>(a: Place<V>, w: V): Place<V>
    requires a.pos < |a.n.vals|
  {
    a.(n := a.n.(vals := a.n.vals[a.pos := w]))
  }

  lemma ReplacedKeeps<V>(a: Place<V>, w: V, h: nat, k: nat, rightmost: nat, next: nat)
    requires h > 0 && Iter(a, h, k) && a.pos < |a.n.vals| && PlaceInv(a, rightmost, next)
    ensures var r := Replaced(a, w);
            && Iter(r, h, k) && PlaceInv(r, rightmost, next) && Pre(r) == Pre(a)
            && |PlaceRight(a)| >= 1 && PlaceRight(a)[0] == a.n.vals[a.pos] && PlaceRight(r) == [w] + PlaceRight(a)[1..]
  {
    hide KidsOk, Left, Right, InOrder;
    var r := Replaced(a, w);
    SameOccurs(a, r);
    assert r.n.vals[..r.pos] == a.n.vals[..a.pos] && r.n.vals[r.pos..] == [w] + a.n.vals[a.pos + 1..];
    assert a.n.vals[a.pos..][1..] == a.n.vals[a.pos + 1..] && r.n.vals[r.pos..][1..] == a.n.vals[a.pos + 1..];
  }

  /** A root leaf smaller than a full node grows into a new one of twice the size. */
  function Enlarged<V>(b: Place<V>, id: nat, k: nat): Place<V> {
    var size := if 2 * b.n.maxCount < k then 2 * b.n.maxCount else k;
    Place(Node(id, id, 0, size, true, b.n.vals, []), Top, b.pos)
  }

  lemma EnlargedKeeps<V>(b: Place<V>, k: nat, rightmost: nat, next: nat)
    requires PlaceOk(b, 0, k) && 1 <= |b.n.vals| == b.n.maxCount < k && PlaceInv(b, rightmost, next)
    ensures var r := Enlarged(b, next, k);
            && PlaceOk(r, 0, k) && |r.n.vals| < r.n.maxCount && PlaceInv(r, next, next + 1)
            && Pre(r) == Pre(b) && PlaceRight(r) == PlaceRight(b)
  {
    hide KidsOk;
    var r := Enlarged(b, next, k);
    forall x: nat
      ensures ZipOccurs(r.n, r.c, x) == if x == next then 1 else 0
    {
      assert KidsOccur(r.n.kids, x) == 0;
    }
  }

  // ----- Insertion

  /** What happens to the nodes when v goes into the leaf of a: nothing but in the leaf if it
      has room; a small root is enlarged; a new node is made only if no neighbour has room
      for two values, and then the halves are even or the old node is left full. */
  ghost predicate LeafGrows<V>(a: Place<V>, r: Place<V>, v: V, k: nat, next: nat, next': nat) {
    if |a.n.vals| < a.n.maxCount then a.pos <= |a.n.vals| && r == Inserted(a, v) && next' == next
    else if a.n.maxCount < k then
      next' == next + 1 && r.c.Top? && r.n.maxCount == if 2 * a.n.maxCount < k then 2 * a.n.maxCount else k
    else (NeighbourHasRoom(a, k) ==> next' == next) && (next' > next ==> |r.n.vals| >= 1 && EvenSplit(a.pos, |r.n.vals| - 1, k))
  }

  /** `internal_emplace`: puts v before the value that a points at. */
  method InternalEmplace<V>(a: Place<V>, ghost h: nat, v: V, k: nat, next: nat, rightmost: nat)
    returns (r: Place<V>, next': nat, rightmost': nat)
    requires k >= 3 && Iter(a, h, k) && a.n.maxCount >= 1 && PlaceInv(a, rightmost, next)
    ensures Iter(r, 0, k) && r.pos < |r.n.vals| && r.n.vals[r.pos] == v && PlaceInv(r, rightmost', next') && next' >= next
    ensures Pre(r) == Pre(a) && PlaceRight(r) == [v] + PlaceRight(a)
    ensures a.n.leaf ==> LeafGrows(a, r, v, k, next, next')
  {
    hide KidsOk, Pre, PlaceRight, ZipOccurs, EvenSplit, NeighbourHasRoom;
    next', rightmost' := next, rightmost;
    var b := ToLeaf(a, h, k, rightmost, next);
    if |b.n.vals| == b.n.maxCount {
      if b.n.maxCount < k {
        EnlargedKeeps(b, k, rightmost, next);
        b, next', rightmost' := Enlarged(b, next, k), next + 1, next;
      } else {
        var c;
        c, next', rightmost' := RebalanceOrSplit(b, 0, k, next, rightmost);
        SameLeafPlace(b, c);
        b := c;
      }
    }
    InsertedKeeps(b, v, k, rightmost', next');
    r := Inserted(b, v);
  }

  lemma SameLeafPlace<V>(a: Place<V>, b: Place<V>)
    requires SamePlace(a, b)
    ensures Pre(a) == Pre(b) && PlaceRight(a) == PlaceRight(b)
  {
    SamePre(a, b);
  }

  /** An internal place is left for the end of the leaf before it. */
  method ToLeaf<V>(a: Place<V>, ghost h: nat, k: nat, ghost rightmost: nat, ghost next: nat) returns (b: Place<V>)
    requires Iter(a, h, k) && a.n.maxCount >= 1 && PlaceInv(a, rightmost, next)
    ensures Iter(b, 0, k) && b.n.maxCount >= 1 && PlaceInv(b, rightmost, next)
    ensures Pre(b) == Pre(a) && PlaceRight(b) == PlaceRight(a) && Plug(b.n, b.c, k) == Plug(a.n, a.c, k)
    ensures if a.n.leaf then b == a else b.pos == |b.n.vals| >= 1
  {
    hide KidsOk, InOrder, Pre, PlaceRight;
    b := a;
    if !a.n.leaf {
      ChildIter(a, h - 1, k);
      b := LastBelow(a.n.kids[a.pos], Down(a), h - 1, k);
      SameRest(a, b, h, 0, k);
      SameInv(a, b, k, rightmost, next);
    }
  }

  lemma SameInv<V>(a: Place<V>, b: Place<V>, k: nat, rightmost: nat, next: nat)
    requires Plug(b.n, b.c, k) == Plug(a.n, a.c, k) && PlaceInv(a, rightmost, next)
    ensures PlaceInv(b, rightmost, next)
  {
    hide ZipInv;
    ZipTree(a.n, a.c, k, rightmost, next);
    ZipTree(b.n, b.c, k, rightmost, next);
  }

  // ----- Erasure

  /** An iterator in the normal form that the tree returns: at a value, or the end. */
  ghost predicate Normal<V>(r: Place<V>)
    requires r.pos <= |r.n.vals| && (!r.n.leaf ==> |r.n.kids| == |r.n.vals| + 1)
  {
    r.pos == |r.n.vals| ==> r.n.leaf && PlaceRight(r) == []
  }

  /** `rebalance_after_delete`: restores the structure and returns the value that
      follows the removed one, or the end. */
  method RebalanceAfterDelete<V>(leaf: Place<V>, k: nat, rightmost: nat, ghost next: nat)
    returns (r: Place<V>, rightmost': nat, ghost h: nat, ghost top: Place<V>, ghost levels: nat)
    requires k >= 3 && PlaceOk(leaf, 0, k) && PlaceInv(leaf, rightmost, next) && next >= 1
    ensures Iter(r, h, k) && Pre(r) == Pre(leaf) && PlaceRight(r) == PlaceRight(leaf) && Normal(r)
    ensures ZipInv(Plug(r.n, r.c, k), Top, rightmost', next)
    ensures |r.n.vals| == 0 ==> r == Place(EmptyNode(), Top, 0)
    ensures Restored(Nodes(leaf.n, leaf.c, next), |Pre(leaf)|, top, levels, Plug(r.n, r.c, k), k, next)
  {
    hide KidsOk, InOrder, Pre, PlaceRight, ZipInv, PlaceInv, Restored;
    var s;
    s, rightmost', top, levels := RestoreAfterDelete(leaf, k, rightmost, next);
    SameTail(Pre(leaf), PlaceRight(leaf), PlaceRight(s));
    r, h := s, 0;
    if |s.n.vals| == 0 {
      EmptyNormal(s);
    } else if s.pos == |s.n.vals| {
      r := s.(pos := s.pos - 1);
      LeafNext(r);
      r, h := Increment(r, 0, k);
      SameRest(s, r, 0, h, k);
    }
  }

  lemma SameTail<T>(l: seq<T>, a: seq<T>, b: seq<T>)
    requires l + a == l + b
    ensures a == b
  {
    assert a == (l + a)[|l|..] && b == (l + b)[|l|..];
  }

  lemma EmptyNormal<V>(s: Place<V>)
    requires s == Place(EmptyNode(), Top, 0)
    ensures Normal(s)
  {
  }

  lemma LeafNext<V>(r: Place<V>)
    requires r.n.leaf && r.pos < |r.n.vals|
    ensures Pre(r.(pos := r.pos + 1)) == Pre(r) + [r.n.vals[r.pos]]
    ensures PlaceRight(r) == [r.n.vals[r.pos]] + PlaceRight(r.(pos := r.pos + 1))
  {
  }

  /** For an internal value: the value before it, which is the last one of a leaf, is
      moved into its place and taken out of the leaf. */
  method MoveUpPrevious<V>(a: Place<V>, ghost h: nat, k: nat, ghost rightmost: nat, ghost next: nat) returns (r: Place<V>, w: V)
    requires Iter(a, h, k) && !a.n.leaf && a.n.maxCount >= 1 && a.pos < |a.n.vals| && PlaceInv(a, rightmost, next)
    ensures PlaceOk(r, 0, k) && PlaceInv(r, rightmost, next) && Pre(r) + [w] == Pre(a)
    ensures Nodes(r.n, r.c, next) == Nodes(a.n, a.c, next)
    ensures |PlaceRight(a)| >= 1 && PlaceRight(a)[0] == a.n.vals[a.pos] && PlaceRight(r) == [w] + PlaceRight(a)[1..]
  {
    hide KidsOk, CtxOk, InOrder, Pre, PlaceRight, ZipInv;
    var last := ToLeaf(a, h, k, rightmost, next);
    last := last.(pos := last.pos - 1);
    w := last.n.vals[last.pos];
    LeafNext(last);
    ReplacedKeeps(a, w, h, k, rightmost, next);
    OtherValues(a, Replaced(a, w), next);
    var b := ToLeaf(Replaced(a, w), h, k, rightmost, next);
    b := b.(pos := b.pos - 1);
    LeafNext(b);
    PlugNodes(Replaced(a, w).n, a.c, k, next);
    PlugNodes(b.n, b.c, k, next);
    RemovedKeeps(b, k, rightmost, next);
    OtherValues(b, Removed(b), next);
    r := Removed(b);
    SameEnd(Pre(last), w, Pre(b), b.n.vals[b.pos]);
    SameTail([b.n.vals[b.pos]], PlaceRight(r), PlaceRight(b.(pos := b.pos + 1)));
  }

  lemma SameEnd<T>(a: seq<T>, x: T, b: seq<T>, y: T)
    requires a + [x] == b + [y]
    ensures a == b && x == y
  {
    assert a == (a + [x])[..|a|] && b == (b + [y])[..|b|];
    assert (a + [x])[|a|] == x && (b + [y])[|b|] == y;
  }

  lemma FirstOfPlace<V>(r: Place<V>)
    requires r.pos <= |r.n.vals| && (!r.n.leaf ==> |r.n.kids| == |r.n.vals| + 1) && Normal(r) && PlaceRight(r) != []
    ensures r.pos < |r.n.vals| && r.n.vals[r.pos] == PlaceRight(r)[0]
  {
    hide InOrder;
    if r.pos < |r.n.vals| { FirstRight(r.n, r.pos); }
  }

  /** `erase`: removes the value that a points at and returns the one after it, or the end. */
  method Erase<V>(a: Place<V>, ghost h: nat, k: nat, rightmost: nat, ghost next: nat)
    returns (r: Place<V>, rightmost': nat, ghost hr: nat, ghost top: Place<V>, ghost levels: nat)
    requires k >= 3 && Iter(a, h, k) && a.pos < |a.n.vals| && PlaceInv(a, rightmost, next) && next >= 1
    ensures Iter(r, hr, k) && Pre(r) == Pre(a) && PlaceRight(a) == [a.n.vals[a.pos]] + PlaceRight(r) && Normal(r)
    ensures ZipInv(Plug(r.n, r.c, k), Top, rightmost', next)
    ensures |r.n.vals| == 0 ==> r == Place(EmptyNode(), Top, 0)
    ensures Restored(Nodes(a.n, a.c, next), |Pre(a)| - (if a.n.leaf then 0 else 1), top, levels, Plug(r.n, r.c, k), k, next)
  {
    hide KidsOk, CtxOk, InOrder, Pre, PlaceRight, ZipInv, PlaceInv, Restored;
    if a.n.leaf {
      RemovedKeeps(a, k, rightmost, next);
      OtherValues(a, Removed(a), next);
      r, rightmost', hr, top, levels := RebalanceAfterDelete(Removed(a), k, rightmost, next);
    } else {
      var b, w := MoveUpPrevious(a, h, k, rightmost, next);
      var s;
      ghost var hs;
      s, rightmost', hs, top, levels := RebalanceAfterDelete(b, k, rightmost, next);
      FirstOfPlace(s);
      r, hr := Increment(s, hs, k);
      RestAfter(s, r, hs, hr, k);
    }
  }

  /** What is behind an iterator after a step. */
  lemma RestAfter<V>(s: Place<V>, r: Place<V>, hs: nat, hr: nat, k: nat)
    requires PlaceOk(s, hs, k) && PlaceOk(r, hr, k) && Plug(r.n, r.c, k) == Plug(s.n, s.c, k)
    requires |PlaceRight(s)| >= 1 && Pre(r) == Pre(s) + [PlaceRight(s)[0]]
    ensures PlaceRight(r) == PlaceRight(s)[1..]
  {
    hide KidsOk, CtxOk, InOrder, Pre, PlaceRight;
    PreWhole(s, hs, k);
    PreWhole(r, hr, k);
    var x := PlaceRight(s);
    assert Pre(s) + x == Pre(r) + x[1..];
    SameTail(Pre(r), PlaceRight(r), x[1..]);
  }
}

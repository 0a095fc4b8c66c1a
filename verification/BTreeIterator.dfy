/**
 Iterators: places of a tree, moved to the next or the previous value by climbing to
 parents and descending to children.
 */
module BTreeIterator {
  import opened BTreeShape
  import opened BTreeSiblings
  import opened BTreePlaces
  import opened BTreeInsert

  /** What is in a node before value number q. */
  function NodeThrough<V>(n: Tree<V>, q: nat): seq<V>
    requires q <= |n.vals| && (!n.leaf ==> |n.kids| == |n.vals| + 1)
  {
    if n.leaf then n.vals[..q] else NodeLeft(n, q) + InOrder(n.kids[q])
  }

  /** Every value of the tree before the one that an iterator points at. */
  function Pre<V>(a: Place<V>): seq<V>
    requires a.pos <= |a.n.vals| && (!a.n.leaf ==> |a.n.kids| == |a.n.vals| + 1)
  {
    Left(a.c) + NodeThrough(a.n, a.pos)
  }

  /** An iterator: a place in a tree without empty nodes, but for the root of an empty tree. */
  predicate Iter<V>(a: Place<V>, h: nat, k: nat) {
    PlaceOk(a, h, k) && (|a.n.vals| >= 1 || (h == 0 && a.c.Top?))
  }

  lemma ThroughWhole<V>(n: Tree<V>, q: nat)
    requires q <= |n.vals| && (!n.leaf ==> |n.kids| == |n.vals| + 1)
    ensures NodeThrough(n, q) + NodeRight(n, q) == InOrder(n)
  {
    if n.leaf {
      assert n.vals == n.vals[..q] + n.vals[q..];
    } else {
      SplitAtKid(n, q);
    }
  }

  lemma SplitAtKid<V>(n: Tree<V>, q: nat)
    requires !n.leaf && |n.kids| == |n.vals| + 1 && q <= |n.vals|
    ensures InOrder(n) == NodeLeft(n, q) + InOrder(n.kids[q]) + NodeRight(n, q)
  {
    hide InOrder, Before, After;
    assert n.vals == n.vals[..q] + n.vals[q..] && n.kids == n.kids[..q] + [n.kids[q]] + n.kids[q + 1..];
    InOrderSplit(n.vals[..q], n.kids[..q], n.kids[q], n.vals[q..], n.kids[q + 1..], n);
  }

  lemma ThroughNext<V>(n: Tree<V>, q: nat)
    requires q < |n.vals| && (!n.leaf ==> |n.kids| == |n.vals| + 1)
    ensures NodeLeft(n, q + 1) == NodeThrough(n, q) + [n.vals[q]]
  {
    assert n.vals[..q + 1] == n.vals[..q] + [n.vals[q]];
    if !n.leaf {
      assert n.kids[..q + 1] == n.kids[..q] + [n.kids[q]];
      BeforeAppend(n.vals[..q], n.kids[..q], [n.vals[q]], [n.kids[q]]);
      assert Before([n.vals[q]], [n.kids[q]]) == InOrder(n.kids[q]) + [n.vals[q]];
    }
  }

  /** The values before and from an iterator on are the whole sequence. */
  lemma WholeOf<V>(a: Place<V>)
    requires a.pos <= |a.n.vals| && (!a.n.leaf ==> |a.n.kids| == |a.n.vals| + 1)
    ensures Pre(a) + PlaceRight(a) == Left(a.c) + InOrder(a.n) + Right(a.c)
  {
    hide InOrder, NodeThrough, NodeRight, Left, Right;
    ThroughWhole(a.n, a.pos);
    assert Pre(a) + PlaceRight(a) == Left(a.c) + (NodeThrough(a.n, a.pos) + NodeRight(a.n, a.pos)) + Right(a.c);
  }

  lemma PreWhole<V>(a: Place<V>, h: nat, k: nat)
    requires PlaceOk(a, h, k)
    ensures Pre(a) + PlaceRight(a) == InOrder(Plug(a.n, a.c, k))
  {
    hide KidsOk, InOrder, Pre, PlaceRight;
    WholeOf(a);
    PlugInOrder(a.n, a.c, h, k);
  }

  // ----- One step up or down

  /** Behind the last value of a node is the parent's value at the node's position. */
  lemma UpIter<V>(a: Place<V>, h: nat, k: nat)
    requires Iter(a, h, k) && a.c.In? && a.pos == |a.n.vals|
    ensures var b := Up(a.n, a.c, k);
            Iter(b, h + 1, k) && Pre(b) == Pre(a) && Plug(b.n, b.c, k) == Plug(a.n, a.c, k)
  {
    UpKeeps(a.n, a.c, h, k);
    hide KidsOk, CtxOk, InOrder, Left, Right, NodeLeft, NodeRight, Pre, PlaceLeft, PlaceRight;
    PreEnd(a);
    PrePlace(Up(a.n, a.c, k));
  }

  lemma PreEnd<V>(a: Place<V>)
    requires a.pos == |a.n.vals| && (!a.n.leaf ==> |a.n.kids| == |a.n.vals| + 1)
    ensures Pre(a) == Left(a.c) + InOrder(a.n)
  {
    ThroughAll(a.n);
  }

  lemma PrePlace<V>(a: Place<V>)
    requires a.pos <= |a.n.vals| && (!a.n.leaf ==> |a.n.kids| == |a.n.vals| + 1)
    ensures Pre(a) == PlaceLeft(a) + if a.n.leaf then [] else InOrder(a.n.kids[a.pos])
  {
    hide InOrder, Left;
    assert !a.n.leaf ==> Pre(a) == Left(a.c) + (NodeLeft(a.n, a.pos) + InOrder(a.n.kids[a.pos]));
  }

  lemma ThroughAll<V>(n: Tree<V>)
    requires !n.leaf ==> |n.kids| == |n.vals| + 1
    ensures NodeThrough(n, |n.vals|) == InOrder(n)
  {
    ThroughWhole(n, |n.vals|);
    assert NodeRight(n, |n.vals|) == [];
  }

  /** The child at the iterator's position. */
  function ChildOf<V>(a: Place<V>): (Tree<V>, Ctx<V>)
    requires a.pos <= |a.n.vals| && |a.n.kids| == |a.n.vals| + 1
  {
    (a.n.kids[a.pos], Down(a))
  }

  lemma ChildIter<V>(a: Place<V>, h: nat, k: nat)
    requires Iter(a, h + 1, k)
    ensures var (n, c) := ChildOf(a);
            && ZipOk(n, c, h, k) && |n.vals| >= 1 && Plug(n, c, k) == Plug(a.n, a.c, k)
            && Left(c) == PlaceLeft(a) && Right(c) == PlaceRight(a) && Left(c) + InOrder(n) == Pre(a)
  {
    DownKeeps(a, h, k);
    var n, c := a.n.kids[a.pos], Down(a);
    assert CtxOk(c, h, k);
  }

  /** Below a node, the first value. */
  method FirstBelow<V>(n: Tree<V>, c: Ctx<V>, ghost h: nat, k: nat) returns (b: Place<V>)
    requires ZipOk(n, c, h, k) && |n.vals| >= 1
    ensures Iter(b, 0, k) && b.n.leaf && b.pos == 0 < |b.n.vals| && Pre(b) == Left(c) && Plug(b.n, b.c, k) == Plug(n, c, k)
  {
    hide KidsOk, InOrder, Left, Right, Plug;
    var m, d := n, c;
    ghost var i := h;
    while !m.leaf
      invariant ZipOk(m, d, i, k) && |m.vals| >= 1 && Left(d) == Left(c) && Plug(m, d, k) == Plug(n, c, k)
      decreases i
    {
      ChildIter(Place(m, d, 0), i - 1, k);
      m, d := m.kids[0], Down(Place(m, d, 0));
      i := i - 1;
    }
    b := Place(m, d, 0);
  }

  /** Below a node, behind the last value. */
  method LastBelow<V>(n: Tree<V>, c: Ctx<V>, ghost h: nat, k: nat) returns (b: Place<V>)
    requires ZipOk(n, c, h, k) && |n.vals| >= 1
    ensures Iter(b, 0, k) && b.n.leaf && b.pos == |b.n.vals| >= 1 && Pre(b) == Left(c) + InOrder(n) && Plug(b.n, b.c, k) == Plug(n, c, k)
  {
    hide KidsOk, InOrder, Left, Right, Plug;
    var m, d := n, c;
    ghost var i := h;
    while !m.leaf
      invariant ZipOk(m, d, i, k) && |m.vals| >= 1 && Left(d) + InOrder(m) == Left(c) + InOrder(n) && Plug(m, d, k) == Plug(n, c, k)
      decreases i
    {
      var a := Place(m, d, |m.vals|);
      ThroughAll(m);
      ChildIter(a, i - 1, k);
      m, d := m.kids[|m.vals|], Down(a);
      i := i - 1;
    }
    b := Place(m, d, |m.vals|);
    ThroughAll(m);
  }

  /** Climbs while the position is behind the last value; stops at a value, or at the root. */
  method Climb<V>(a: Place<V>, ghost h: nat, k: nat) returns (b: Place<V>, ghost hb: nat)
    requires Iter(a, h, k)
    ensures Iter(b, hb, k) && Pre(b) == Pre(a) && Plug(b.n, b.c, k) == Plug(a.n, a.c, k)
    ensures b.pos < |b.n.vals| || b.c.Top?
    ensures b.pos < |b.n.vals| <==> PlaceRight(a) != []
    ensures |a.n.vals| >= 1 ==> |b.n.vals| >= 1
  {
    b, hb := a, h;
    while b.pos == |b.n.vals| && b.c.In?
      invariant Iter(b, hb, k) && Pre(b) == Pre(a) && Plug(b.n, b.c, k) == Plug(a.n, a.c, k)
      invariant |a.n.vals| >= 1 ==> |b.n.vals| >= 1
      decreases b.c
    {
      hide KidsOk;
      UpIter(b, hb, k);
      b := Up(b.n, b.c, k);
      hb := hb + 1;
    }
    SameRest(a, b, h, hb, k);
    EndHere(b, hb, k);
  }

  /** Two places with the same values before them have the same values behind them. */
  lemma SameRest<V>(a: Place<V>, b: Place<V>, h: nat, hb: nat, k: nat)
    requires PlaceOk(a, h, k) && PlaceOk(b, hb, k)
    requires Pre(b) == Pre(a) && Plug(b.n, b.c, k) == Plug(a.n, a.c, k)
    ensures PlaceRight(b) == PlaceRight(a)
  {
    hide KidsOk, InOrder, Pre, PlaceRight, Plug;
    PreWhole(a, h, k);
    PreWhole(b, hb, k);
    assert PlaceRight(a) == (Pre(a) + PlaceRight(a))[|Pre(a)|..];
    assert PlaceRight(b) == (Pre(b) + PlaceRight(b))[|Pre(b)|..];
  }

  lemma EndHere<V>(b: Place<V>, h: nat, k: nat)
    requires Iter(b, h, k) && (b.pos < |b.n.vals| || b.c.Top?)
    ensures b.pos < |b.n.vals| <==> PlaceRight(b) != []
  {
    hide KidsOk, InOrder;
    if b.pos < |b.n.vals| {
      assert NodeRight(b.n, b.pos)[0] == b.n.vals[b.pos];
    }
  }

  /** `++`: the iterator to the next value, or the end behind the last leaf. */
  method Increment<V>(a: Place<V>, ghost h: nat, k: nat) returns (b: Place<V>, ghost hb: nat)
    requires Iter(a, h, k) && a.pos < |a.n.vals|
    ensures Iter(b, hb, k) && Plug(b.n, b.c, k) == Plug(a.n, a.c, k)
    ensures Pre(b) == Pre(a) + [a.n.vals[a.pos]]
    ensures |b.n.vals| >= 1 && (b.pos == |b.n.vals| ==> b.n.leaf && PlaceRight(b) == [])
  {
    hide KidsOk, CtxOk, InOrder, Left, Right, Plug, NodeLeft;
    ThroughNext(a.n, a.pos);
    var next := a.(pos := a.pos + 1);
    if a.n.leaf {
      b, hb := Climb(next, h, k);
      if b.pos == |b.n.vals| { b, hb := next, h; }
    } else {
      ChildIter(next, h - 1, k);
      b := FirstBelow(a.n.kids[a.pos + 1], Down(next), h - 1, k);
      hb := 0;
    }
  }

  /** Climbs while the position is before the first child; stops behind a value, or at the root. */
  method ClimbBack<V>(a: Place<V>, ghost h: nat, k: nat) returns (b: Place<V>, ghost hb: nat)
    requires Iter(a, h, k)
    ensures Iter(b, hb, k) && PlaceLeft(b) == PlaceLeft(a) && Plug(b.n, b.c, k) == Plug(a.n, a.c, k)
    ensures b.pos > 0 <==> PlaceLeft(a) != []
  {
    b, hb := a, h;
    while b.pos == 0 && b.c.In?
      invariant Iter(b, hb, k) && PlaceLeft(b) == PlaceLeft(a) && Plug(b.n, b.c, k) == Plug(a.n, a.c, k)
      decreases b.c
    {
      hide KidsOk, CtxOk, Left;
      UpKeeps(b.n, b.c, hb, k);
      assert NodeLeft(b.n, 0) == [];
      b := Up(b.n, b.c, k);
      hb := hb + 1;
    }
    StartHere(b, hb, k);
  }

  lemma StartHere<V>(b: Place<V>, h: nat, k: nat)
    requires Iter(b, h, k) && (b.pos > 0 || b.c.Top?)
    ensures b.pos > 0 <==> PlaceLeft(b) != []
  {
    hide KidsOk, InOrder;
    if b.pos > 0 { ThroughNext(b.n, b.pos - 1); }
  }

  /** `--`: the iterator to the previous value. */
  method Decrement<V>(a: Place<V>, ghost h: nat, k: nat) returns (b: Place<V>, ghost hb: nat)
    requires Iter(a, h, k) && Pre(a) != []
    ensures Iter(b, hb, k) && Plug(b.n, b.c, k) == Plug(a.n, a.c, k)
    ensures b.pos < |b.n.vals| && Pre(b) + [b.n.vals[b.pos]] == Pre(a)
  {
    hide KidsOk, CtxOk, InOrder, Left, Right, Plug;
    if a.n.leaf {
      b, hb := ClimbBack(a, h, k);
    } else {
      ChildIter(a, h - 1, k);
      b := LastBelow(a.n.kids[a.pos], Down(a), h - 1, k);
      hb := 0;
    }
    assert PlaceLeft(b) == Pre(a);
    b := b.(pos := b.pos - 1);
    ThroughNext(b.n, b.pos);
  }
}

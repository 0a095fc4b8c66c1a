/**
 B-trees as values. A node carries the fields of the source's node: its parent,
 its position in the parent, its capacity, its values and its children. The links
 are data of their own and may be wrong; that they are right is part of the
 invariant. A zipper is a node together with everything around it, so that code
 that climbs to the parent can be followed.
 */
module BTreeShape {

  datatype Tree<V> = Node(id: nat, parent: nat, position: nat, maxCount: nat, leaf: bool, vals: seq<V>, kids: seq<Tree<V>>)

  // ----- The in-order sequence

  function InOrder<V>(t: Tree<V>): seq<V>
    decreases t, 0
  {
    if t.leaf || |t.kids| == 0 then t.vals else InOrder(t.kids[0]) + After(t.vals, t.kids[1..])
  }

  /** Values each followed by a child: v0 k0 v1 k1 ... */
  function After<V>(vals: seq<V>, kids: seq<Tree<V>>): seq<V>
    decreases kids, 1
  {
    if |vals| == 0 || |kids| == 0 then [] else [vals[0]] + InOrder(kids[0]) + After(vals[1..], kids[1..])
  }

  /** Children each followed by a value: k0 v0 k1 v1 ... */
  function Before<V>(vals: seq<V>, kids: seq<Tree<V>>): seq<V>
    decreases kids, 1
  {
    if |vals| == 0 || |kids| == 0 then [] else InOrder(kids[0]) + [vals[0]] + Before(vals[1..], kids[1..])
  }

  lemma {:induction false} AfterAppend<V>(v: seq<V>, k: seq<Tree<V>>, v': seq<V>, k': seq<Tree<V>>)
    requires |v| == |k|
    ensures After(v + v', k + k') == After(v, k) + After(v', k')
  {
    if |v| == 0 {
      assert v + v' == v' && k + k' == k';
    } else {
      AfterAppend(v[1..], k[1..], v', k');
      assert (v + v')[1..] == v[1..] + v' && (k + k')[1..] == k[1..] + k';
    }
  }

  lemma {:induction false} BeforeAppend<V>(v: seq<V>, k: seq<Tree<V>>, v': seq<V>, k': seq<Tree<V>>)
    requires |v| == |k|
    ensures Before(v + v', k + k') == Before(v, k) + Before(v', k')
  {
    if |v| == 0 {
      assert v + v' == v' && k + k' == k';
    } else {
      BeforeAppend(v[1..], k[1..], v', k');
      assert (v + v')[1..] == v[1..] + v' && (k + k')[1..] == k[1..] + k';
    }
  }

  /** A node's sequence, seen from one of its children. */
  lemma {:induction false} InOrderSplit<V>(lv: seq<V>, lk: seq<Tree<V>>, t: Tree<V>, rv: seq<V>, rk: seq<Tree<V>>, n: Tree<V>)
    requires |lv| == |lk| && |rv| == |rk|
    requires !n.leaf && n.vals == lv + rv && n.kids == lk + [t] + rk
    ensures InOrder(n) == Before(lv, lk) + InOrder(t) + After(rv, rk)
  {
    if |lv| == 0 {
      assert n.kids[1..] == rk && n.vals == rv;
    } else {
      var m := n.(vals := n.vals[1..], kids := n.kids[1..]);
      assert m.vals == lv[1..] + rv && m.kids == lk[1..] + [t] + rk;
      InOrderSplit(lv[1..], lk[1..], t, rv, rk, m);
      assert n.vals[0] == lv[0] && n.kids[0] == lk[0];
      assert n.kids[1..][1..] == m.kids[1..] && n.vals[1..] == m.vals;
      assert After(n.vals, n.kids[1..]) == [lv[0]] + InOrder(m.kids[0]) + After(m.vals, m.kids[1..]);
      assert After(n.vals, n.kids[1..]) == [lv[0]] + InOrder(m);
      assert InOrder(n) == (InOrder(lk[0]) + [lv[0]]) + InOrder(m);
    }
  }

  // ----- Links

  /** What `init_child` does to a run of children: parent and position. */
  function Relink<V>(kids: seq<Tree<V>>, parent: nat, from: nat): (r: seq<Tree<V>>)
    ensures |r| == |kids|
    ensures forall i :: 0 <= i < |kids| ==> r[i] == kids[i].(parent := parent, position := from + i)
  {
    seq(|kids|, i requires 0 <= i < |kids| => kids[i].(parent := parent, position := from + i))
  }

  /** The links of a node do not matter for its sequence. */
  lemma InOrderLink<V>(t: Tree<V>, parent: nat, position: nat)
    ensures InOrder(t.(parent := parent, position := position)) == InOrder(t)
  {
  }

  lemma {:induction false} WeaveRelink<V>(vals: seq<V>, kids: seq<Tree<V>>, parent: nat, from: nat)
    ensures Before(vals, Relink(kids, parent, from)) == Before(vals, kids)
    ensures After(vals, Relink(kids, parent, from)) == After(vals, kids)
    decreases |kids|
  {
    if |vals| > 0 && |kids| > 0 {
      WeaveRelink(vals[1..], kids[1..], parent, from + 1);
      assert Relink(kids, parent, from)[1..] == Relink(kids[1..], parent, from + 1);
      InOrderLink(kids[0], parent, from);
    }
  }

  // ----- Identities

  /** How often the identity x occurs in a tree, or in a run of children. */
  function Occurs<V>(t: Tree<V>, x: nat): nat
    decreases t, 0
  {
    (if t.id == x then 1 else 0) + KidsOccur(t.kids, x)
  }

  function KidsOccur<V>(kids: seq<Tree<V>>, x: nat): nat
    decreases kids, 1
  {
    if |kids| == 0 then 0 else Occurs(kids[0], x) + KidsOccur(kids[1..], x)
  }

  lemma {:induction false} OccurAppend<V>(a: seq<Tree<V>>, b: seq<Tree<V>>, x: nat)
    ensures KidsOccur(a + b, x) == KidsOccur(a, x) + KidsOccur(b, x)
  {
    if |a| == 0 {
      assert a + b == b;
    } else {
      OccurAppend(a[1..], b, x);
      assert (a + b)[1..] == a[1..] + b;
    }
  }

  lemma {:induction false} OccurRelink<V>(kids: seq<Tree<V>>, parent: nat, from: nat, x: nat)
    ensures KidsOccur(Relink(kids, parent, from), x) == KidsOccur(kids, x)
    decreases |kids|
  {
    if |kids| > 0 {
      OccurRelink(kids[1..], parent, from + 1, x);
      assert Relink(kids, parent, from)[1..] == Relink(kids[1..], parent, from + 1);
    }
  }

  // ----- The first and the last leaf

  function FirstLeaf<V>(t: Tree<V>): nat { if |t.kids| == 0 then t.id else FirstLeaf(t.kids[0]) }
  function LastLeaf<V>(t: Tree<V>): nat { if |t.kids| == 0 then t.id else LastLeaf(t.kids[|t.kids| - 1]) }

  lemma {:induction false} LastLeafOccurs<V>(t: Tree<V>)
    ensures Occurs(t, LastLeaf(t)) >= 1
  {
    if |t.kids| > 0 {
      var last := t.kids[|t.kids| - 1];
      LastLeafOccurs(last);
      LastKidOccurs(t.kids, LastLeaf(last));
    }
  }

  lemma {:induction false} LastKidOccurs<V>(kids: seq<Tree<V>>, x: nat)
    requires |kids| > 0
    ensures KidsOccur(kids, x) >= Occurs(kids[|kids| - 1], x)
  {
    if |kids| > 1 { LastKidOccurs(kids[1..], x); }
  }

  // ----- The structural invariant

  /** Every child is of height h and in order, not empty, of full size, and linked
      to its place; k is the capacity of a full-size node. */
  predicate KidsOk<V>(kids: seq<Tree<V>>, h: nat, k: nat, parent: nat, from: nat) {
    forall i :: 0 <= i < |kids| ==>
      var t := kids[i];
      && t.parent == parent && t.position == from + i
      && 1 <= |t.vals| <= t.maxCount == k
      && if h == 0 then t.leaf && t.kids == []
         else !t.leaf && |t.kids| == |t.vals| + 1 && KidsOk(t.kids, h - 1, k, t.id, 0)
  }

  /** A node of height h with children in order, whatever its number of values. */
  predicate Shaped<V>(t: Tree<V>, h: nat, k: nat) {
    if h == 0 then t.leaf && t.kids == []
    else !t.leaf && |t.kids| == |t.vals| + 1 && KidsOk(t.kids, h - 1, k, t.id, 0)
  }

  /** A node in order, but for its links; it may be empty. */
  predicate Ok<V>(t: Tree<V>, h: nat, k: nat) {
    |t.vals| <= t.maxCount <= k && (h > 0 ==> t.maxCount == k) && Shaped(t, h, k)
  }

  /** A node that may stand below another one, but for its links. */
  predicate KidOk<V>(t: Tree<V>, h: nat, k: nat) {
    Ok(t, h, k) && |t.vals| >= 1 && t.maxCount == k
  }

  lemma RelinkOk<V>(kids: seq<Tree<V>>, h: nat, k: nat, p: nat, f: nat, parent: nat, from: nat)
    requires KidsOk(kids, h, k, p, f)
    ensures KidsOk(Relink(kids, parent, from), h, k, parent, from)
  {
  }

  // ----- Zippers

  /** What is around a node: the parent's values and children to both sides, and
      what is around the parent. */
  datatype Ctx<V> = Top | In(id: nat, parent: nat, position: nat, lv: seq<V>, lk: seq<Tree<V>>, rv: seq<V>, rk: seq<Tree<V>>, up: Ctx<V>)

  /** The parent of a node n in the context c. */
  function ParentOf<V>(n: Tree<V>, c: Ctx<V>, k: nat): Tree<V>
    requires c.In?
  {
    Node(c.id, c.parent, c.position, k, false, c.lv + c.rv, c.lk + [n] + c.rk)
  }

  /** The whole tree. */
  function Plug<V>(n: Tree<V>, c: Ctx<V>, k: nat): Tree<V>
    decreases c
  {
    if c.Top? then n else Plug(ParentOf(n, c, k), c.up, k)
  }

  /** Everything in order before the node, and after it. */
  function Left<V>(c: Ctx<V>): seq<V> { if c.Top? then [] else Left(c.up) + Before(c.lv, c.lk) }
  function Right<V>(c: Ctx<V>): seq<V> { if c.Top? then [] else After(c.rv, c.rk) + Right(c.up) }

  function CtxOccurs<V>(c: Ctx<V>, x: nat): nat {
    if c.Top? then 0
    else (if c.id == x then 1 else 0) + KidsOccur(c.lk, x) + KidsOccur(c.rk, x) + CtxOccurs(c.up, x)
  }

  /** The first and the last leaf of the whole tree, given those of the node. */
  function FirstOf<V>(id: nat, c: Ctx<V>): nat
    decreases c
  {
    if c.Top? then id else FirstOf(if |c.lk| > 0 then FirstLeaf(c.lk[0]) else id, c.up)
  }

  function LastOf<V>(id: nat, c: Ctx<V>): nat
    decreases c
  {
    if c.Top? then id else LastOf(if |c.rk| > 0 then LastLeaf(c.rk[|c.rk| - 1]) else id, c.up)
  }

  /** Nothing is to the right of the node, on any level. */
  predicate RightEdge<V>(c: Ctx<V>) { c.Top? || (|c.rk| == 0 && RightEdge(c.up)) }

  lemma {:induction false} RightEdgeLast<V>(id: nat, c: Ctx<V>)
    ensures RightEdge(c) ==> LastOf(id, c) == id
    ensures !RightEdge(c) ==> CtxOccurs(c, LastOf(id, c)) >= 1 && forall x :: LastOf(x, c) == LastOf(id, c)
    decreases c
  {
    if c.In? {
      RightEdgeLast(if |c.rk| > 0 then LastLeaf(c.rk[|c.rk| - 1]) else id, c.up);
      if |c.rk| > 0 {
        var last := c.rk[|c.rk| - 1];
        LastLeafOccurs(last);
        LastKidOccurs(c.rk, LastLeaf(last));
      }
    }
  }

  function Depth<V>(c: Ctx<V>): nat { if c.Top? then 0 else 1 + Depth(c.up) }

  /** The node is linked to its place in the context. */
  predicate Fits<V>(parent: nat, position: nat, c: Ctx<V>) { c.In? ==> parent == c.id && position == |c.lk| }

  /** Everything around a node of height h is in order. */
  predicate CtxOk<V>(c: Ctx<V>, h: nat, k: nat)
    decreases c
  {
    c.Top? || (FrameOk(c, h, k) && |c.lv| + |c.rv| >= 1 && CtxOk(c.up, h + 1, k))
  }

  /** One level of the context, whose node may be without values for a moment. */
  predicate FrameOk<V>(c: Ctx<V>, h: nat, k: nat)
    requires c.In?
  {
    && |c.lk| == |c.lv| && |c.rk| == |c.rv| && |c.lv| + |c.rv| <= k
    && KidsOk(c.lk, h, k, c.id, 0) && KidsOk(c.rk, h, k, c.id, |c.lk| + 1)
    && Fits(c.parent, c.position, c.up)
  }

  lemma ParentInOrder<V>(n: Tree<V>, c: Ctx<V>, k: nat)
    requires c.In? && |c.lk| == |c.lv| && |c.rk| == |c.rv|
    ensures InOrder(ParentOf(n, c, k)) == Before(c.lv, c.lk) + InOrder(n) + After(c.rv, c.rk)
  {
    InOrderSplit(c.lv, c.lk, n, c.rv, c.rk, ParentOf(n, c, k));
  }

  lemma ParentOccurs<V>(n: Tree<V>, c: Ctx<V>, k: nat, x: nat)
    requires c.In?
    ensures Occurs(ParentOf(n, c, k), x) == (if c.id == x then 1 else 0) + KidsOccur(c.lk, x) + Occurs(n, x) + KidsOccur(c.rk, x)
  {
    OccurAppend(c.lk + [n], c.rk, x);
    OccurAppend(c.lk, [n], x);
    assert KidsOccur([n], x) == Occurs(n, x);
  }

  lemma ParentOk<V>(n: Tree<V>, c: Ctx<V>, h: nat, k: nat)
    requires c.In? && FrameOk(c, h, k) && KidOk(n, h, k) && Fits(n.parent, n.position, c)
    ensures Ok(ParentOf(n, c, k), h + 1, k)
  {
    var p := ParentOf(n, c, k);
    forall i | |c.lk| < i < |p.kids|
      ensures p.kids[i] == c.rk[i - |c.lk| - 1]
    {
    }
  }

  /** The whole tree's sequence, structure and identities, seen from a node. */
  lemma {:induction false} PlugInOrder<V>(n: Tree<V>, c: Ctx<V>, h: nat, k: nat)
    requires CtxOk(c, h, k)
    ensures InOrder(Plug(n, c, k)) == Left(c) + InOrder(n) + Right(c)
    decreases c
  {
    if c.In? {
      ParentInOrder(n, c, k);
      PlugInOrder(ParentOf(n, c, k), c.up, h + 1, k);
    }
  }

  lemma {:induction false} PlugOccurs<V>(n: Tree<V>, c: Ctx<V>, k: nat, x: nat)
    ensures Occurs(Plug(n, c, k), x) == Occurs(n, x) + CtxOccurs(c, x)
    decreases c
  {
    if c.In? {
      ParentOccurs(n, c, k, x);
      PlugOccurs(ParentOf(n, c, k), c.up, k, x);
    }
  }

  lemma {:induction false} PlugEnds<V>(n: Tree<V>, c: Ctx<V>, k: nat)
    ensures FirstLeaf(Plug(n, c, k)) == FirstOf(FirstLeaf(n), c)
    ensures LastLeaf(Plug(n, c, k)) == LastOf(LastLeaf(n), c)
    decreases c
  {
    if c.In? { PlugEnds(ParentOf(n, c, k), c.up, k); }
  }

  lemma {:induction false} PlugOk<V>(n: Tree<V>, c: Ctx<V>, h: nat, k: nat)
    requires CtxOk(c, h, k) && Ok(n, h, k) && Fits(n.parent, n.position, c) && (c.In? ==> |n.vals| >= 1 && n.maxCount == k)
    ensures Ok(Plug(n, c, k), h + Depth(c), k)
    decreases c
  {
    if c.In? {
      ParentOk(n, c, h, k);
      PlugOk(ParentOf(n, c, k), c.up, h + 1, k);
    }
  }
}

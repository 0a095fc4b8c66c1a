/**
 Search in nodes and by descent. Every search is for a partition point: the values
 before it satisfy a property that the values behind it do not.
 */
module BTreeSearch {
  import opened BTreeShape
  import opened BTreePlaces
  import opened BTreeInsert
  import opened BTreeIterator

  /** No value that is before follows one that is not. */
  ghost predicate Monotone<V>(s: seq<V>, before: V -> bool) {
    forall i, j :: 0 <= i < j < |s| && before(s[j]) ==> before(s[i])
  }

  ghost predicate All<V>(s: seq<V>, before: V -> bool) { forall i :: 0 <= i < |s| ==> before(s[i]) }
  ghost predicate None<V>(s: seq<V>, before: V -> bool) { forall i :: 0 <= i < |s| ==> !before(s[i]) }

  /** What a linear scan finds: the first value that is not before. */
  function Scan<V>(s: seq<V>, before: V -> bool): (i: nat)
    ensures i <= |s| && (forall j :: 0 <= j < i ==> before(s[j])) && (i < |s| ==> !before(s[i]))
  {
    if |s| == 0 || !before(s[0]) then 0 else 1 + Scan(s[1..], before)
  }

  /** A partition is what the linear scan finds. */
  lemma {:induction false} ScanPartition<V>(l: seq<V>, r: seq<V>, before: V -> bool)
    requires All(l, before) && None(r, before)
    ensures Scan(l + r, before) == |l|
  {
    if |l| == 0 {
      assert l + r == r;
    } else {
      assert (l + r)[1..] == l[1..] + r;
      ScanPartition(l[1..], r, before);
    }
  }

  /** The border between before and not before is what the linear scan finds. */
  lemma ScanBorder<V>(s: seq<V>, i: nat, before: V -> bool)
    requires Monotone(s, before) && i <= |s|
    requires (i > 0 ==> before(s[i - 1])) && (i < |s| ==> !before(s[i]))
    ensures Scan(s, before) == i
  {
    assert s == s[..i] + s[i..];
    ScanPartition(s[..i], s[i..], before);
  }

  // ----- In a node

  method LinearSearch<V>(vals: seq<V>, before: V -> bool) returns (s: nat)
    ensures s == Scan(vals, before)
  {
    s := 0;
    while s < |vals|
      invariant s <= |vals| && forall j :: 0 <= j < s ==> before(vals[j])
    {
      if !before(vals[s]) { break; }
      s := s + 1;
    }
  }

  method BinarySearch<V>(vals: seq<V>, before: V -> bool) returns (s: nat)
    requires Monotone(vals, before)
    ensures s == Scan(vals, before)
  {
    s := 0;
    var e := |vals|;
    while s != e
      invariant s <= e <= |vals|
      invariant s > 0 ==> before(vals[s - 1])
      invariant e < |vals| ==> !before(vals[e])
      decreases e - s
    {
      var mid := (s + e) / 2;
      if before(vals[mid]) { s := mid + 1; } else { e := mid; }
    }
    ScanBorder(vals, s, before);
  }

  /** A three-way comparison of values to the key: less, and not greater. */
  function Lower<V>(cmp: V -> int): V -> bool { v => cmp(v) < 0 }
  function NotAbove<V>(cmp: V -> int): V -> bool { v => cmp(v) <= 0 }

  /** The values in turn are less than the key, equal and greater. */
  ghost predicate Rising<V>(s: seq<V>, cmp: V -> int) { Monotone(s, Lower(cmp)) && Monotone(s, NotAbove(cmp)) }

  ghost predicate AtMostOne<V>(s: seq<V>, cmp: V -> int) {
    forall i, j :: 0 <= i < j < |s| && cmp(s[i]) == 0 ==> cmp(s[j]) != 0
  }

  method LinearSearchTo<V>(vals: seq<V>, cmp: V -> int) returns (s: nat, eq: bool)
    requires Rising(vals, cmp)
    ensures s == Scan(vals, Lower(cmp))
    ensures eq <==> s < |vals| && cmp(vals[s]) == 0
  {
    s := 0;
    while s < |vals|
      invariant s <= |vals| && forall j :: 0 <= j < s ==> cmp(vals[j]) < 0
    {
      var c := cmp(vals[s]);
      if c == 0 { return s, true; }
      if c > 0 { break; }
      s := s + 1;
    }
    eq := false;
  }

  /** The only equal value is the first one that is not less. */
  lemma SingleIsBorder<V>(s: seq<V>, i: nat, cmp: V -> int)
    requires Rising(s, cmp) && AtMostOne(s, cmp) && i < |s| && cmp(s[i]) == 0
    ensures Scan(s, Lower(cmp)) == i
  {
    assert NotAbove(cmp)(s[i]);
    assert i > 0 ==> NotAbove(cmp)(s[i - 1]) && cmp(s[i - 1]) != 0;
    ScanBorder(s, i, Lower(cmp));
  }

  lemma EarlierNotAbove<V>(s: seq<V>, i: nat, j: nat, cmp: V -> int)
    requires Rising(s, cmp) && i < j <= |s|
    ensures j < |s| && cmp(s[j]) <= 0 ==> cmp(s[i]) <= 0
  {
    assert j < |s| && cmp(s[j]) <= 0 ==> NotAbove(cmp)(s[j]) && NotAbove(cmp)(s[i]);
  }

  method BinarySearchTo<V>(vals: seq<V>, cmp: V -> int, multi: bool) returns (s: nat, eq: bool)
    requires Rising(vals, cmp) && (multi || AtMostOne(vals, cmp))
    ensures s == Scan(vals, Lower(cmp))
    ensures eq <==> s < |vals| && cmp(vals[s]) == 0
  {
    hide Monotone, AtMostOne, Scan;
    s, eq := 0, false;
    var e := |vals|;
    while s != e
      invariant s <= e <= |vals|
      invariant s > 0 ==> cmp(vals[s - 1]) < 0
      invariant e < |vals| ==> cmp(vals[e]) >= 0
      invariant if multi then eq <==> e < |vals| && cmp(vals[e]) == 0 else !eq && (e < |vals| ==> cmp(vals[e]) > 0)
      decreases e - s
    {
      var mid := (s + e) / 2;
      var c := cmp(vals[mid]);
      if c < 0 {
        s := mid + 1;
      } else if multi {
        EarlierNotAbove(vals, mid, e, cmp);
        e := mid;
        if c == 0 { eq := true; }
      } else if c > 0 {
        e := mid;
      } else {
        SingleIsBorder(vals, mid, cmp);
        return mid, true;
      }
    }
    ScanBorder(vals, s, Lower(cmp));
  }

  // ----- Down the tree

  /** A node's values are in the order of its sequence. */
  lemma {:induction false} ValAt<V>(n: Tree<V>, i: nat, j: nat)
    requires i <= j < |n.vals| && (!n.leaf ==> |n.kids| == |n.vals| + 1)
    ensures |NodeThrough(n, i)| <= |NodeThrough(n, j)| < |InOrder(n)| && (i < j ==> |NodeThrough(n, i)| < |NodeThrough(n, j)|)
    ensures InOrder(n)[|NodeThrough(n, j)|] == n.vals[j]
    decreases j - i
  {
    hide InOrder, Before, After;
    ThroughWhole(n, j);
    ThroughWhole(n, i);
    FirstRight(n, j);
    if i < j {
      ThroughNext(n, j - 1);
      ValAt(n, i, j - 1);
    }
  }

  lemma FirstRight<V>(n: Tree<V>, j: nat)
    requires j < |n.vals| && (!n.leaf ==> |n.kids| == |n.vals| + 1)
    ensures |NodeRight(n, j)| >= 1 && NodeRight(n, j)[0] == n.vals[j]
  {
  }

  lemma NodeMonotone<V>(n: Tree<V>, before: V -> bool)
    requires Monotone(InOrder(n), before) && (!n.leaf ==> |n.kids| == |n.vals| + 1)
    ensures Monotone(n.vals, before)
  {
    hide InOrder, NodeThrough;
    forall i, j | 0 <= i < j < |n.vals| && before(n.vals[j])
      ensures before(n.vals[i])
    {
      ValAt(n, i, j);
      ValAt(n, i, i);
    }
  }

  lemma MonotoneMiddle<V>(l: seq<V>, x: seq<V>, r: seq<V>, before: V -> bool)
    requires Monotone(l + x + r, before)
    ensures Monotone(x, before)
    ensures |l| > 0 && before(l[|l| - 1]) ==> All(l, before)
    ensures |r| > 0 && !before(r[0]) ==> None(r, before)
  {
    var s := l + x + r;
    assert forall i :: 0 <= i < |l| ==> s[i] == l[i];
    assert forall i :: 0 <= i < |x| ==> s[|l| + i] == x[i];
    assert forall i :: 0 <= i < |r| ==> s[|l| + |x| + i] == r[i];
  }

  /** The partition point of a node's values leaves only one child to search. */
  lemma NodeBound<V>(n: Tree<V>, i: nat, before: V -> bool)
    requires Monotone(InOrder(n), before) && i == Scan(n.vals, before) && (!n.leaf ==> |n.kids| == |n.vals| + 1)
    ensures All(NodeLeft(n, i), before) && None(NodeRight(n, i), before)
    ensures !n.leaf ==> Monotone(InOrder(n.kids[i]), before)
  {
    hide InOrder, Before, After, Monotone;
    ThroughWhole(n, i);
    if i > 0 { ThroughNext(n, i - 1); }
    if i < |n.vals| { FirstRight(n, i); }
    var kid := if n.leaf then [] else InOrder(n.kids[i]);
    assert InOrder(n) == NodeLeft(n, i) + kid + NodeRight(n, i);
    MonotoneMiddle(NodeLeft(n, i), kid, NodeRight(n, i), before);
    NodeEnds(n);
  }

  lemma NodeEnds<V>(n: Tree<V>)
    requires !n.leaf ==> |n.kids| == |n.vals| + 1
    ensures NodeLeft(n, 0) == [] && NodeRight(n, |n.vals|) == []
  {
  }

  /** The partition point is below the node: all that is left of it is before, and
      nothing to the right of it. */
  ghost predicate Around<V>(a: Place<V>, before: V -> bool) {
    Monotone(InOrder(a.n), before) && All(Left(a.c), before) && None(Right(a.c), before)
  }

  ghost predicate Parts<V>(a: Place<V>, before: V -> bool)
    requires a.pos <= |a.n.vals| && (!a.n.leaf ==> |a.n.kids| == |a.n.vals| + 1)
  {
    All(PlaceLeft(a), before) && None(PlaceRight(a), before)
  }

  lemma AroundParts<V>(a: Place<V>, before: V -> bool, h: nat, k: nat)
    requires Iter(a, h, k) && Around(a, before) && a.pos == Scan(a.n.vals, before)
    ensures Parts(a, before)
    ensures h > 0 ==> Around(Place(a.n.kids[a.pos], Down(a), 0), before)
  {
    hide KidsOk, CtxOk, InOrder, Left, Right, Monotone, Plug;
    NodeBound(a.n, a.pos, before);
    if h > 0 { ChildIter(a, h - 1, k); }
  }

  /** `lower_bound` of a node: either search, with a plain comparison. */
  method NodeLowerBound<V>(n: Tree<V>, before: V -> bool, linear: bool) returns (s: nat)
    requires Monotone(InOrder(n), before) && (!n.leaf ==> |n.kids| == |n.vals| + 1)
    ensures s == Scan(n.vals, before)
  {
    NodeMonotone(n, before);
    if linear { s := LinearSearch(n.vals, before); } else { s := BinarySearch(n.vals, before); }
  }

  /** The way down to the leaf with the partition point, with either node search. */
  method Descend<V>(root: Tree<V>, before: V -> bool, linear: bool, ghost h: nat, k: nat) returns (a: Place<V>)
    requires Iter(Place(root, Top, 0), h, k) && Monotone(InOrder(root), before)
    ensures Iter(a, 0, k) && Plug(a.n, a.c, k) == root && Parts(a, before)
  {
    a := Place(root, Top, 0);
    ghost var i := h;
    while true
      invariant Iter(a, i, k) && Plug(a.n, a.c, k) == root && Around(a, before)
      decreases i
    {
      hide KidsOk, CtxOk, InOrder, Left, Right, Plug, Monotone, Parts;
      var s := NodeLowerBound(a.n, before, linear);
      a := a.(pos := s);
      AroundParts(a, before, i, k);
      if a.n.leaf { break; }
      ChildIter(a, i - 1, k);
      a := Place(a.n.kids[s], Down(a), 0);
      i := i - 1;
    }
  }

  lemma NodeAtMostOne<V>(n: Tree<V>, cmp: V -> int)
    requires AtMostOne(InOrder(n), cmp) && (!n.leaf ==> |n.kids| == |n.vals| + 1)
    ensures AtMostOne(n.vals, cmp)
  {
    hide InOrder, NodeThrough;
    forall i, j | 0 <= i < j < |n.vals| && cmp(n.vals[i]) == 0
      ensures cmp(n.vals[j]) != 0
    {
      ValAt(n, i, j);
      ValAt(n, i, i);
    }
  }

  lemma KidAtMostOne<V>(n: Tree<V>, i: nat, cmp: V -> int)
    requires AtMostOne(InOrder(n), cmp) && !n.leaf && |n.kids| == |n.vals| + 1 && i <= |n.vals|
    ensures AtMostOne(InOrder(n.kids[i]), cmp)
  {
    hide InOrder, NodeLeft, NodeRight;
    ThroughWhole(n, i);
    var l, x := NodeLeft(n, i), InOrder(n.kids[i]);
    assert forall j :: 0 <= j < |x| ==> InOrder(n)[|l| + j] == x[j];
  }

  /** `lower_bound` of a node: either search, with a three-way comparison. */
  method NodeLowerBoundTo<V>(n: Tree<V>, cmp: V -> int, linear: bool, multi: bool) returns (s: nat, eq: bool)
    requires Rising(InOrder(n), cmp) && (!n.leaf ==> |n.kids| == |n.vals| + 1) && (multi || AtMostOne(InOrder(n), cmp))
    ensures s == Scan(n.vals, Lower(cmp))
    ensures eq <==> s < |n.vals| && cmp(n.vals[s]) == 0
  {
    hide InOrder, Monotone, AtMostOne;
    NodeMonotone(n, Lower(cmp));
    NodeMonotone(n, NotAbove(cmp));
    if !multi { NodeAtMostOne(n, cmp); }
    if linear { s, eq := LinearSearchTo(n.vals, cmp); } else { s, eq := BinarySearchTo(n.vals, cmp, multi); }
  }

  /** In a node without an equal value both partition points are one. */
  lemma SameScan<V>(s: seq<V>, cmp: V -> int)
    requires var i := Scan(s, Lower(cmp)); !(i < |s| && cmp(s[i]) == 0)
    ensures Scan(s, NotAbove(cmp)) == Scan(s, Lower(cmp))
  {
    var i, j := Scan(s, Lower(cmp)), Scan(s, NotAbove(cmp));
    assert forall m :: 0 <= m < i ==> Lower(cmp)(s[m]) && NotAbove(cmp)(s[m]);
    assert i < |s| ==> !NotAbove(cmp)(s[i]);
  }

  ghost predicate Locating<V>(a: Place<V>, cmp: V -> int, multi: bool) {
    Around(a, Lower(cmp)) && Around(a, NotAbove(cmp)) && (multi || AtMostOne(InOrder(a.n), cmp))
  }

  /** One step down from a node without an equal value. */
  lemma LocateStep<V>(a: Place<V>, cmp: V -> int, multi: bool, h: nat, k: nat)
    requires Iter(a, h, k) && Locating(a, cmp, multi)
    requires a.pos == Scan(a.n.vals, Lower(cmp)) && !(a.pos < |a.n.vals| && cmp(a.n.vals[a.pos]) == 0)
    ensures Parts(a, NotAbove(cmp))
    ensures h > 0 ==> var b := Place(a.n.kids[a.pos], Down(a), 0);
                      && Iter(b, h - 1, k) && Plug(b.n, b.c, k) == Plug(a.n, a.c, k) && Locating(b, cmp, multi)
                      && FirstOnWay(b.n, cmp) == FirstOnWay(a.n, cmp)
  {
    hide KidsOk, CtxOk, InOrder, Left, Right, Plug, Around, Parts, AtMostOne;
    SameScan(a.n.vals, cmp);
    AroundParts(a, Lower(cmp), h, k);
    AroundParts(a, NotAbove(cmp), h, k);
    if h > 0 {
      ChildIter(a, h - 1, k);
      if !multi { KidAtMostOne(a.n, a.pos, cmp); }
    }
  }

  /** On the way down for the key, the first node with an equal value has none in the child
      before that value. */
  ghost predicate FirstOnWay<V>(t: Tree<V>, cmp: V -> int) {
    t.leaf || |t.kids| != |t.vals| + 1 ||
    var i := Scan(t.vals, Lower(cmp));
    if i < |t.vals| && cmp(t.vals[i]) == 0 then forall v :: v in InOrder(t.kids[i]) ==> cmp(v) != 0
    else FirstOnWay(t.kids[i], cmp)
  }

  /** The search in one node of the way. */
  method LocateInNode<V>(a: Place<V>, cmp: V -> int, linear: bool, multi: bool, ghost h: nat, k: nat) returns (b: Place<V>, eq: bool)
    requires Iter(a, h, k) && Locating(a, cmp, multi)
    ensures b.n == a.n && b.c == a.c && Iter(b, h, k) && Parts(b, Lower(cmp))
    ensures b.pos == Scan(b.n.vals, Lower(cmp)) && (eq <==> b.pos < |b.n.vals| && cmp(b.n.vals[b.pos]) == 0)
  {
    hide KidsOk, CtxOk, InOrder, Left, Right, Monotone, Parts, AtMostOne;
    var s;
    s, eq := NodeLowerBoundTo(a.n, cmp, linear, multi);
    b := a.(pos := s);
    AroundParts(b, Lower(cmp), h, k);
  }

  /** The way down with a three-way comparison, which stops at an equal value. */
  method Locate<V>(root: Tree<V>, cmp: V -> int, linear: bool, multi: bool, ghost h: nat, k: nat)
    returns (a: Place<V>, eq: bool, ghost i: nat)
    requires Iter(Place(root, Top, 0), h, k) && Rising(InOrder(root), cmp) && (multi || AtMostOne(InOrder(root), cmp))
    ensures Iter(a, i, k) && Plug(a.n, a.c, k) == root && Parts(a, Lower(cmp))
    ensures if eq then a.pos < |a.n.vals| && cmp(a.n.vals[a.pos]) == 0 else i == 0 && Parts(a, NotAbove(cmp))
    ensures eq ==> a.pos == Scan(a.n.vals, Lower(cmp)) && FirstOnWay(a.n, cmp) == FirstOnWay(root, cmp)
  {
    a := Place(root, Top, 0);
    i := h;
    assert Locating(a, cmp, multi);
    hide KidsOk, CtxOk, InOrder, Left, Right, Plug, Monotone, Parts, AtMostOne, Locating, Rising, FirstOnWay;
    while true
      invariant Iter(a, i, k) && Plug(a.n, a.c, k) == Plug(root, Top, k) && Locating(a, cmp, multi)
      invariant FirstOnWay(a.n, cmp) == FirstOnWay(root, cmp)
      decreases i
    {
      var here := a;
      a, eq := LocateInNode(here, cmp, linear, multi, i, k);
      if eq { break; }
      SameLocating(here, a, cmp, multi);
      LocateStep(a, cmp, multi, i, k);
      if a.n.leaf { break; }
      a := Place(a.n.kids[a.pos], Down(a), 0);
      i := i - 1;
    }
    PlugTop(root, k);
  }

  /** What is known of a node does not depend on the position in it. */
  lemma SameLocating<V>(a: Place<V>, b: Place<V>, cmp: V -> int, multi: bool)
    requires Locating(a, cmp, multi) && b.n == a.n && b.c == a.c
    ensures Locating(b, cmp, multi)
  {
  }

  lemma PlugTop<V>(n: Tree<V>, k: nat)
    ensures Plug(n, Top, k) == n
  {
  }

  /** The way down to the partition point with a three-way comparison in the nodes. */
  method DescendTo<V>(root: Tree<V>, cmp: V -> int, linear: bool, multi: bool, ghost h: nat, k: nat) returns (a: Place<V>)
    requires Iter(Place(root, Top, 0), h, k) && Rising(InOrder(root), cmp) && (multi || AtMostOne(InOrder(root), cmp))
    ensures Iter(a, 0, k) && Plug(a.n, a.c, k) == root && Parts(a, Lower(cmp))
  {
    a := Place(root, Top, 0);
    ghost var i := h;
    while true
      invariant Iter(a, i, k) && Plug(a.n, a.c, k) == root && Around(a, Lower(cmp))
      invariant Monotone(InOrder(a.n), NotAbove(cmp)) && (multi || AtMostOne(InOrder(a.n), cmp))
      decreases i
    {
      hide KidsOk, CtxOk, InOrder, Left, Right, Plug, Monotone, Parts, AtMostOne;
      var s, eq := NodeLowerBoundTo(a.n, cmp, linear, multi);
      a := a.(pos := s);
      AroundParts(a, Lower(cmp), i, k);
      if a.n.leaf { break; }
      ChildIter(a, i - 1, k);
      KidMonotone(a.n, s, NotAbove(cmp));
      if !multi { KidAtMostOne(a.n, s, cmp); }
      a := Place(a.n.kids[s], Down(a), 0);
      i := i - 1;
    }
  }

  lemma KidMonotone<V>(n: Tree<V>, i: nat, before: V -> bool)
    requires Monotone(InOrder(n), before) && !n.leaf && |n.kids| == |n.vals| + 1 && i <= |n.vals|
    ensures Monotone(InOrder(n.kids[i]), before)
  {
    hide InOrder, NodeLeft, NodeRight, Monotone;
    ThroughWhole(n, i);
    MonotoneMiddle(NodeLeft(n, i), InOrder(n.kids[i]), NodeRight(n, i), before);
  }
}

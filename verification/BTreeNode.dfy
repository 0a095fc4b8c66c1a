/**
 Nodes in memory: arrays of slots and children that are shifted and overwritten in
 place. Every primitive is proved to cut or join the sequences of values and
 children, and to set the links of the children that move.
 */
module BTreeNode {
  import opened BTreeInsert

  // ----- Values

  /** `uninitialized_move_n` and a forward `move` of n slots. */
  method MoveForward<T>(src: array<T>, i: nat, n: nat, dst: array<T>, j: nat)
    requires i + n <= src.Length && j + n <= dst.Length && (src != dst || j <= i || i + n <= j)
    modifies dst
    ensures forall x {:trigger dst[x]} :: 0 <= x < dst.Length ==> dst[x] == if j <= x < j + n then old(src[i + (x - j)]) else old(dst[x])
  {
    var t := 0;
    while t < n
      invariant t <= n
      invariant forall x :: 0 <= x < dst.Length ==> dst[x] == if j <= x < j + t then old(src[i + (x - j)]) else old(dst[x])
      modifies dst
    {
      assert src[i + t] == old(src[i + t]);
      dst[j + t] := src[i + t];
      t := t + 1;
    }
  }

  /** A move of n slots to higher places of the same array, the last one first. */
  method MoveBackward<T>(a: array<T>, i: nat, n: nat, j: nat)
    requires i <= j && j + n <= a.Length
    modifies a
    ensures forall x {:trigger a[x]} :: 0 <= x < a.Length ==> a[x] == if j <= x < j + n then old(a[i + (x - j)]) else old(a[x])
  {
    var t := n;
    while t > 0
      invariant 0 <= t <= n
      invariant forall x :: 0 <= x < a.Length ==> a[x] == if j + t <= x < j + n then old(a[i + (x - j)]) else old(a[x])
      modifies a
    {
      t := t - 1;
      a[j + t] := a[i + t];
    }
  }

  /** The values of `emplace_value`. */
  method EmplaceSlot<T>(a: array<T>, count: nat, i: nat, v: T)
    requires i <= count < a.Length
    modifies a
    ensures forall x {:trigger a[x]} :: 0 <= x <= count ==> a[x] == if x < i then old(a[x]) else if x == i then v else old(a[x - 1])
  {
    if i < count {
      a[count] := a[count - 1];
      MoveBackward(a, i, count - 1 - i, i + 1);
    }
    a[i] := v;
  }

  /** The values of `remove_value`. */
  method RemoveSlot<T>(a: array<T>, count: nat, i: nat)
    requires i < count <= a.Length
    modifies a
    ensures forall x {:trigger a[x]} :: 0 <= x < count - 1 ==> a[x] == if x < i then old(a[x]) else old(a[x + 1])
  {
    MoveForward(a, i + 1, count - i - 1, a, i);
  }

  /** Values cut at c: in the left array, the delimiter, and in the right array. */
  ghost predicate CutAt<T>(all: seq<T>, c: nat, l: seq<T>, d: T, r: seq<T>) {
    c < |all| && l == all[..c] && d == all[c] && r == all[c + 1..]
  }

  function JoinedAt<T>(l: seq<T>, d: T, r: seq<T>, t: nat): T
    requires t <= |l| + |r|
  {
    if t < |l| then l[t] else if t == |l| then d else r[t - |l| - 1]
  }

  lemma CutPointwise<T>(l: seq<T>, d: T, r: seq<T>, c: nat, l': seq<T>, d': T, r': seq<T>)
    requires |l'| == c <= |l| + |r| && |r'| == |l| + |r| - c && d' == JoinedAt(l, d, r, c)
    requires forall t :: 0 <= t < c ==> l'[t] == JoinedAt(l, d, r, t)
    requires forall t :: 0 <= t < |r'| ==> r'[t] == JoinedAt(l, d, r, c + 1 + t)
    ensures CutAt(l + [d] + r, c, l', d', r')
  {
    var all := l + [d] + r;
    assert forall t :: 0 <= t < |all| ==> all[t] == JoinedAt(l, d, r, t);
  }

  /** The delimiter and n values of rs behind the values of ls. */
  method Extend<T>(ls: array<T>, lc: nat, d: T, rs: array<T>, n: nat)
    requires ls != rs && n <= rs.Length && lc + 1 + n <= ls.Length
    modifies ls
    ensures forall t {:trigger ls[t]} :: 0 <= t < lc + 1 + n ==> ls[t] == if t < lc then old(ls[t]) else if t == lc then d else rs[t - lc - 1]
  {
    ls[lc] := d;
    MoveForward(rs, 0, n, ls, lc + 1);
  }

  method DropFirst<T>(rs: array<T>, rc: nat, m: nat)
    requires m <= rc <= rs.Length
    modifies rs
    ensures forall t {:trigger rs[t]} :: 0 <= t < rc - m ==> rs[t] == old(rs[m + t])
  {
    MoveForward(rs, m, rc - m, rs, 0);
  }

  /** The values of `rebalance_right_to_left`: the joined values are cut m further to the right. */
  method SlotsToLeft<T>(ls: array<T>, lc: nat, ps: array<T>, p: nat, rs: array<T>, rc: nat, m: nat)
    requires ls != ps && ls != rs && ps != rs && p < ps.Length && rc <= rs.Length && 1 <= m <= rc && lc + m <= ls.Length
    modifies ls, ps, rs
    ensures CutAt(old(ls[..lc] + [ps[p]] + rs[..rc]), lc + m, ls[..lc + m], ps[p], rs[..rc - m])
    ensures ps[..] == old(ps[..])[p := ps[p]]
  {
    ghost var l, d, r := ls[..lc], ps[p], rs[..rc];
    Extend(ls, lc, ps[p], rs, m - 1);
    ps[p] := rs[m - 1];
    DropFirst(rs, rc, m);
    CutPointwise(l, d, r, lc + m, ls[..lc + m], ps[p], rs[..rc - m]);
  }

  /** The right values where there is room for the moved ones among the old. */
  method OpenWithin<T>(ls: array<T>, lc: nat, d: T, rs: array<T>, rc: nat, m: nat)
    requires ls != rs && lc <= ls.Length && 1 <= m <= lc && m <= rc && rc + m <= rs.Length
    modifies rs
    ensures forall t {:trigger rs[t]} :: 0 <= t < rc + m ==> rs[t] == if t < m - 1 then ls[lc - m + 1 + t] else if t == m - 1 then d else old(rs[t - m])
  {
    MoveForward(rs, rc - m, m, rs, rc);
    if rc > m { MoveBackward(rs, 0, rc - m, m); }
    rs[m - 1] := d;
    MoveForward(ls, lc - (m - 1), m - 1, rs, 0);
  }

  /** The right values where some of the moved ones come behind all of the old. */
  method OpenBeyond<T>(ls: array<T>, lc: nat, d: T, rs: array<T>, rc: nat, m: nat)
    requires ls != rs && lc <= ls.Length && 1 <= m <= lc && rc < m && rc + m <= rs.Length
    modifies rs
    ensures forall t {:trigger rs[t]} :: 0 <= t < rc + m ==> rs[t] == if t < m - 1 then ls[lc - m + 1 + t] else if t == m - 1 then d else old(rs[t - m])
  {
    MoveForward(rs, 0, rc, rs, m);
    rs[m - 1] := d;
    var remaining := m - rc - 1;
    MoveForward(ls, lc - remaining, remaining, rs, rc);
    MoveForward(ls, lc - (m - 1), rc, rs, 0);
  }

  /** The values of `rebalance_left_to_right`: the joined values are cut m further to the left. */
  method SlotsToRight<T>(ls: array<T>, lc: nat, ps: array<T>, p: nat, rs: array<T>, rc: nat, m: nat)
    requires ls != ps && ls != rs && ps != rs && p < ps.Length && lc <= ls.Length && 1 <= m <= lc && rc + m <= rs.Length
    modifies ps, rs
    ensures CutAt(old(ls[..lc] + [ps[p]] + rs[..rc]), lc - m, ls[..lc - m], ps[p], rs[..rc + m])
    ensures ps[..] == old(ps[..])[p := ps[p]]
  {
    ghost var l, d, r := ls[..lc], ps[p], rs[..rc];
    if rc >= m { OpenWithin(ls, lc, ps[p], rs, rc, m); } else { OpenBeyond(ls, lc, ps[p], rs, rc, m); }
    ps[p] := ls[lc - m];
    CutPointwise(l, d, r, lc - m, ls[..lc - m], ps[p], rs[..rc + m]);
  }

  // ----- Links

  /** The parent and the position of a node. */
  datatype Link = Link(parent: nat, position: nat)

  ghost predicate Distinct(s: seq<nat>) { forall i, j :: 0 <= i < j < |s| ==> s[i] != s[j] }

  /** The nodes have the parent p, and their places from a position on. */
  ghost predicate Links(m: map<nat, Link>, kids: seq<nat>, p: nat, from: nat) {
    forall i :: 0 <= i < |kids| ==> kids[i] in m && m[kids[i]] == Link(p, from + i)
  }

  /** Only these nodes are linked anew. */
  ghost predicate Relinked(m: map<nat, Link>, m': map<nat, Link>, kids: seq<nat>, p: nat, from: nat) {
    Links(m', kids, p, from) && Kept(m, m', kids)
  }

  /** Other nodes keep their links. */
  ghost predicate Kept(m: map<nat, Link>, m': map<nat, Link>, but: seq<nat>) {
    forall x :: x in m && x !in but ==> x in m' && m'[x] == m[x]
  }

  lemma LinksDistinct(m: map<nat, Link>, kids: seq<nat>, p: nat, from: nat)
    requires Links(m, kids, p, from)
    ensures Distinct(kids)
  {
  }

  /** The children of different parents are different nodes. */
  lemma ParentsApart(m: map<nat, Link>, a: seq<nat>, p: nat, f: nat, b: seq<nat>, q: nat, g: nat)
    requires Links(m, a, p, f) && Links(m, b, q, g) && p != q
    ensures forall x :: x in a ==> x !in b
  {
  }

  lemma DistinctApart(s: seq<nat>, m: nat)
    requires Distinct(s) && m <= |s|
    ensures Distinct(s[..m]) && Distinct(s[m..])
    ensures forall x :: x in s[..m] ==> x !in s[m..]
  {
  }

  lemma LinksKept(m: map<nat, Link>, m': map<nat, Link>, kids: seq<nat>, p: nat, from: nat, a: seq<nat>, q: nat, f: nat)
    requires Relinked(m, m', kids, p, from) && Links(m, a, q, f) && forall x :: x in a ==> x !in kids
    ensures Links(m', a, q, f)
  {
  }

  lemma LinksAppend(m: map<nat, Link>, a: seq<nat>, b: seq<nat>, p: nat, from: nat)
    requires Links(m, a, p, from) && Links(m, b, p, from + |a|)
    ensures Links(m, a + b, p, from)
  {
  }

  lemma LinksSplit(m: map<nat, Link>, s: seq<nat>, c: nat, p: nat, from: nat)
    requires Links(m, s, p, from) && c <= |s|
    ensures Links(m, s[..c], p, from) && Links(m, s[c..], p, from + c)
  {
  }

  /** The links of all nodes, by identity. */
  class Memory {
    var link: map<nat, Link>

    constructor ()
      ensures link == map[]
    {
      link := map[];
    }
  }

  // ----- Children

  /** `init_child`. */
  method InitChild(mem: Memory, p: nat, children: array<nat>, i: nat, c: nat)
    requires i < children.Length
    modifies mem, children
    ensures mem.link == old(mem.link)[c := Link(p, i)]
    ensures forall x {:trigger children[x]} :: 0 <= x < children.Length ==> children[x] == if x == i then c else old(children[x])
  {
    children[i] := c;
    mem.link := mem.link[c := Link(p, i)];
  }

  /** `init_child` for n children from another node, or to lower places of the same
      node, the first one first. */
  method AdoptChildren(mem: Memory, src: array<nat>, from: nat, n: nat, p: nat, dst: array<nat>, to: nat, ghost kids: seq<nat>)
    requires from + n <= src.Length && to + n <= dst.Length && (src != dst || to <= from || from + n <= to)
    requires kids == src[from..from + n] && Distinct(kids)
    modifies mem, dst
    ensures Relinked(old(mem.link), mem.link, kids, p, to)
    ensures forall x {:trigger dst[x]} :: 0 <= x < dst.Length ==> dst[x] == if to <= x < to + n then kids[x - to] else old(dst[x])
  {
    var t := 0;
    while t < n
      invariant 0 <= t <= n
      invariant forall x {:trigger dst[x]} :: 0 <= x < dst.Length ==> dst[x] == if to <= x < to + t then kids[x - to] else old(dst[x])
      invariant forall x {:trigger kids[x]} :: t <= x < n ==> src[from + x] == kids[x]
      invariant Relinked(old(mem.link), mem.link, kids[..t], p, to)
    {
      assert src[from + t] == kids[t] && kids[..t + 1] == kids[..t] + [kids[t]];
      InitChild(mem, p, dst, to + t, src[from + t]);
      t := t + 1;
    }
    assert kids[..n] == kids;
  }

  /** `init_child` for the first n children to higher places, the last one first. */
  method ShiftChildren(mem: Memory, p: nat, a: array<nat>, n: nat, up: nat, ghost kids: seq<nat>)
    requires n + up <= a.Length && kids == a[..n] && Distinct(kids)
    modifies mem, a
    ensures Relinked(old(mem.link), mem.link, kids, p, up)
    ensures forall x {:trigger a[x]} :: 0 <= x < a.Length ==> a[x] == if up <= x < up + n then kids[x - up] else old(a[x])
  {
    var t := n;
    while t > 0
      invariant 0 <= t <= n
      invariant forall x {:trigger a[x]} :: 0 <= x < a.Length ==> a[x] == if up + t <= x < up + n then kids[x - up] else old(a[x])
      invariant Relinked(old(mem.link), mem.link, kids[t..], p, up + t)
    {
      t := t - 1;
      assert a[t] == kids[t] && kids[t..] == [kids[t]] + kids[t + 1..];
      InitChild(mem, p, a, t + up, a[t]);
    }
  }

  /** The children of `rebalance_right_to_left`. */
  method ChildrenToLeft(mem: Memory, l: nat, lk: array<nat>, lc: nat, r: nat, rk: array<nat>, rc: nat, m: nat, ghost mine: seq<nat>, ghost theirs: seq<nat>)
    requires lk != rk && l != r && lc + m + 1 <= lk.Length && 1 <= m <= rc < rk.Length
    requires mine == lk[..lc + 1] && theirs == rk[..rc + 1] && Links(mem.link, mine, l, 0) && Links(mem.link, theirs, r, 0)
    modifies mem, lk, rk
    ensures lk[..lc + m + 1] == mine + theirs[..m] && rk[..rc - m + 1] == theirs[m..]
    ensures Links(mem.link, mine + theirs[..m], l, 0) && Links(mem.link, theirs[m..], r, 0)
    ensures Kept(old(mem.link), mem.link, theirs)
  {
    hide Links, Distinct, Relinked;
    LinksDistinct(mem.link, theirs, r, 0);
    DistinctApart(theirs, m);
    ghost var m0 := mem.link;
    AdoptChildren(mem, rk, 0, m, l, lk, lc + 1, theirs[..m]);
    ghost var m1 := mem.link;
    AdoptChildren(mem, rk, m, rc - m + 1, r, rk, 0, theirs[m..]);
    MovedLeft(m0, m1, mem.link, mine, theirs, m, l, r);
  }

  lemma MovedLeft(m0: map<nat, Link>, m1: map<nat, Link>, m2: map<nat, Link>, mine: seq<nat>, theirs: seq<nat>, m: nat, l: nat, r: nat)
    requires l != r && Links(m0, mine, l, 0) && Links(m0, theirs, r, 0) && m <= |theirs|
    requires Relinked(m0, m1, theirs[..m], l, |mine|) && Relinked(m1, m2, theirs[m..], r, 0)
    ensures Links(m2, mine + theirs[..m], l, 0) && Links(m2, theirs[m..], r, 0)
    ensures Kept(m0, m2, theirs)
  {
    var a, b := theirs[..m], theirs[m..];
    LinksDistinct(m0, theirs, r, 0);
    DistinctApart(theirs, m);
    ParentsApart(m0, mine, l, 0, theirs, r, 0);
    hide Links, Distinct;
    LinksKept(m0, m1, a, l, |mine|, mine, l, 0);
    LinksKept(m1, m2, b, r, 0, mine, l, 0);
    LinksKept(m1, m2, b, r, 0, a, l, |mine|);
    LinksAppend(m2, mine, a, l, 0);
  }

  /** The children of `rebalance_left_to_right`. */
  method ChildrenToRight(mem: Memory, l: nat, lk: array<nat>, lc: nat, r: nat, rk: array<nat>, rc: nat, m: nat, ghost mine: seq<nat>, ghost theirs: seq<nat>)
    requires lk != rk && l != r && rc + m + 1 <= rk.Length && 1 <= m <= lc < lk.Length
    requires mine == lk[..lc + 1] && theirs == rk[..rc + 1] && Links(mem.link, mine, l, 0) && Links(mem.link, theirs, r, 0)
    modifies mem, rk
    ensures rk[..rc + m + 1] == mine[lc - m + 1..] + theirs && lk[..lc - m + 1] == mine[..lc - m + 1]
    ensures Links(mem.link, mine[..lc - m + 1], l, 0) && Links(mem.link, mine[lc - m + 1..] + theirs, r, 0)
    ensures Kept(old(mem.link), mem.link, mine + theirs)
  {
    hide Links, Distinct, Relinked;
    LinksDistinct(mem.link, mine, l, 0);
    LinksDistinct(mem.link, theirs, r, 0);
    DistinctApart(mine, lc - m + 1);
    ghost var m0 := mem.link;
    ShiftChildren(mem, r, rk, rc + 1, m, theirs);
    ghost var m1 := mem.link;
    AdoptChildren(mem, lk, lc - m + 1, m, r, rk, 0, mine[lc - m + 1..]);
    MovedRight(m0, m1, mem.link, mine, theirs, lc - m + 1, l, r);
  }

  lemma MovedRight(m0: map<nat, Link>, m1: map<nat, Link>, m2: map<nat, Link>, mine: seq<nat>, theirs: seq<nat>, c: nat, l: nat, r: nat)
    requires l != r && Links(m0, mine, l, 0) && Links(m0, theirs, r, 0) && c <= |mine|
    requires Relinked(m0, m1, theirs, r, |mine| - c) && Relinked(m1, m2, mine[c..], r, 0)
    ensures Links(m2, mine[..c], l, 0) && Links(m2, mine[c..] + theirs, r, 0)
    ensures Kept(m0, m2, mine + theirs)
  {
    var a, b := mine[..c], mine[c..];
    LinksDistinct(m0, mine, l, 0);
    DistinctApart(mine, c);
    LinksSplit(m0, mine, c, l, 0);
    ParentsApart(m0, mine, l, 0, theirs, r, 0);
    hide Links, Distinct;
    LinksKept(m0, m1, theirs, r, |b|, a, l, 0);
    LinksKept(m1, m2, b, r, 0, a, l, 0);
    LinksKept(m1, m2, b, r, 0, theirs, r, |b|);
    LinksAppend(m2, b, theirs, r, 0);
  }

  /** `set_child`: the child keeps its parent. */
  method SetChild(mem: Memory, children: array<nat>, i: nat, c: nat)
    requires i < children.Length && c in mem.link
    modifies mem, children
    ensures mem.link == old(mem.link)[c := old(mem.link)[c].(position := i)]
    ensures forall x {:trigger children[x]} :: 0 <= x < children.Length ==> children[x] == if x == i then c else old(children[x])
  {
    children[i] := c;
    mem.link := mem.link[c := mem.link[c].(position := i)];
  }

  /** The children of `emplace_value`: those from a place on move up by one. */
  method OpenChildren(mem: Memory, p: nat, a: array<nat>, from: nat, n: nat, ghost kids: seq<nat>)
    requires from + n < a.Length && kids == a[from..from + n] && Links(mem.link, kids, p, from)
    modifies mem, a
    ensures Relinked(old(mem.link), mem.link, kids, p, from + 1)
    ensures forall x {:trigger a[x]} :: 0 <= x < a.Length ==> a[x] == if from < x <= from + n then kids[x - from - 1] else old(a[x])
  {
    hide Links, Relinked, Distinct, Kept;
    LinksDistinct(mem.link, kids, p, from);
    NoneRelinked(mem.link, p, from + n + 1);
    var t := n;
    assert kids[t..] == [] && kids[..t] == kids;
    while t > 0
      invariant 0 <= t <= n
      invariant forall x {:trigger a[x]} :: 0 <= x < a.Length ==> a[x] == if from + t < x <= from + n then kids[x - from - 1] else old(a[x])
      invariant Relinked(old(mem.link), mem.link, kids[t..], p, from + t + 1) && Links(mem.link, kids[..t], p, from)
    {
      t := t - 1;
      assert a[from + t] == kids[t];
      StepUp(old(mem.link), mem.link, kids, t, p, from);
      SetChild(mem, a, from + t + 1, a[from + t]);
    }
    assert kids[0..] == kids;
  }

  lemma NoneRelinked(m: map<nat, Link>, p: nat, from: nat)
    ensures Relinked(m, m, [], p, from)
  {
  }

  lemma StepUp(m0: map<nat, Link>, m: map<nat, Link>, kids: seq<nat>, t: nat, p: nat, from: nat)
    requires t < |kids| && Distinct(kids) && Relinked(m0, m, kids[t + 1..], p, from + t + 2) && Links(m, kids[..t + 1], p, from)
    ensures kids[t] in m && m[kids[t]] == Link(p, from + t)
    ensures var m' := m[kids[t] := Link(p, from + t + 1)];
            Relinked(m0, m', kids[t..], p, from + t + 1) && Links(m', kids[..t], p, from)
  {
    assert kids[t..] == [kids[t]] + kids[t + 1..] && kids[..t + 1] == kids[..t] + [kids[t]];
    assert kids[..t + 1][t] == kids[t];
  }

  /** The children of `remove_value`: those behind a place move down by one. */
  method CloseChildren(mem: Memory, p: nat, a: array<nat>, from: nat, n: nat, ghost kids: seq<nat>)
    requires from + n < a.Length && kids == a[from + 1..from + 1 + n] && Links(mem.link, kids, p, from + 1)
    modifies mem, a
    ensures Relinked(old(mem.link), mem.link, kids, p, from)
    ensures forall x {:trigger a[x]} :: 0 <= x < a.Length ==> a[x] == if from <= x < from + n then kids[x - from] else old(a[x])
  {
    hide Links, Relinked, Distinct, Kept;
    LinksDistinct(mem.link, kids, p, from + 1);
    NoneRelinked(mem.link, p, from);
    var t := 0;
    assert kids[..t] == [] && kids[t..] == kids;
    while t < n
      invariant 0 <= t <= n
      invariant forall x {:trigger a[x]} :: 0 <= x < a.Length ==> a[x] == if from <= x < from + t then kids[x - from] else old(a[x])
      invariant Relinked(old(mem.link), mem.link, kids[..t], p, from) && Links(mem.link, kids[t..], p, from + 1 + t)
    {
      assert a[from + t + 1] == kids[t];
      StepDown(old(mem.link), mem.link, kids, t, p, from);
      SetChild(mem, a, from + t, a[from + t + 1]);
      t := t + 1;
    }
    assert kids[..n] == kids;
  }

  lemma StepDown(m0: map<nat, Link>, m: map<nat, Link>, kids: seq<nat>, t: nat, p: nat, from: nat)
    requires t < |kids| && Distinct(kids) && Relinked(m0, m, kids[..t], p, from) && Links(m, kids[t..], p, from + 1 + t)
    ensures kids[t] in m && m[kids[t]] == Link(p, from + 1 + t)
    ensures var m' := m[kids[t] := Link(p, from + t)];
            Relinked(m0, m', kids[..t + 1], p, from) && Links(m', kids[t + 1..], p, from + 2 + t)
  {
    assert kids[t..] == [kids[t]] + kids[t + 1..] && kids[..t + 1] == kids[..t] + [kids[t]];
    assert kids[t..][0] == kids[t];
  }

  // ----- Nodes

  class BNode<V> {
    const id: nat
    const leaf: bool
    const max: nat
    const slots: array<V>
    const children: array<nat>
    var count: nat

    constructor (id: nat, leaf: bool, max: nat, slots: array<V>, children: array<nat>)
      requires slots.Length == max >= 1 && children.Length == if leaf then 0 else max + 1
      ensures Shape() && count == 0
      ensures this.id == id && this.leaf == leaf && this.max == max && this.slots == slots && this.children == children
    {
      this.id, this.leaf, this.max, this.slots, this.children := id, leaf, max, slots, children;
      count := 0;
    }

    ghost predicate Shape()
      reads this
    {
      slots.Length == max >= 1 && count <= max && children.Length == if leaf then 0 else max + 1
    }

    ghost function Values(): seq<V>
      requires Shape()
      reads this, slots
    {
      slots[..count]
    }

    ghost function Kids(): seq<nat>
      requires Shape()
      reads this, children
    {
      KidsTo(count)
    }

    ghost function KidsTo(n: nat): seq<nat>
      requires Shape() && n <= max
      reads this, children
    {
      if leaf then [] else children[..n + 1]
    }

    /** Every child is linked to its place. */
    ghost predicate InOrder(mem: Memory)
      requires Shape()
      reads this, children, mem
    {
      Links(mem.link, Kids(), id, 0)
    }

    /** `emplace_value`; the child place behind the value is left open. */
    method EmplaceValue(mem: Memory, i: nat, v: V)
      requires Shape() && i <= count < max && InOrder(mem)
      modifies this`count, slots, children, mem
      ensures Shape() && count == old(count) + 1 && Values() == old(Values())[..i] + [v] + old(Values())[i..]
      ensures !leaf ==> Kids()[..i + 1] == old(Kids())[..i + 1] && Kids()[i + 2..] == old(Kids())[i + 1..]
      ensures !leaf ==> Relinked(old(mem.link), mem.link, old(Kids())[i + 1..], id, i + 2)
      ensures leaf ==> mem.link == old(mem.link)
    {
      hide Links, Relinked, Kept;
      ghost var kids := Kids();
      EmplaceSlot(slots, count, i, v);
      count := count + 1;
      if !leaf {
        LinksSplit(mem.link, kids, i + 1, id, 0);
        OpenChildren(mem, id, children, i + 1, count - 1 - i, kids[i + 1..]);
      }
    }

    /** `remove_value`; the child behind the value goes with it. */
    method RemoveValue(mem: Memory, i: nat)
      requires Shape() && i < count && InOrder(mem)
      modifies this`count, slots, children, mem
      ensures Shape() && count == old(count) - 1 && Values() == old(Values())[..i] + old(Values())[i + 1..]
      ensures !leaf ==> Kids() == old(Kids())[..i + 1] + old(Kids())[i + 2..] && Relinked(old(mem.link), mem.link, old(Kids())[i + 2..], id, i + 1)
      ensures leaf ==> mem.link == old(mem.link)
    {
      hide Links, Relinked, Kept;
      ghost var kids, vals := Kids(), Values();
      assert slots as object != children as object;
      if !leaf {
        LinksSplit(mem.link, kids, i + 2, id, 0);
        CloseChildren(mem, id, children, i + 1, count - 1 - i, kids[i + 2..]);
      }
      assert Values() == vals;
      RemoveSlot(slots, count, i);
      count := count - 1;
    }

    // ----- Two siblings

    /** Memory of its own. */
    ghost predicate Apart(that: BNode<V>) {
      && this != that && id != that.id && slots != that.slots && children != that.children
      && slots as object != that.children as object && children as object != that.slots as object
    }

    /** This node is at position i below p, and r is its right sibling. */
    ghost predicate Beside(r: BNode<V>, p: BNode<V>, i: nat)
      reads this, r, p
    {
      && Shape() && r.Shape() && p.Shape() && leaf == r.leaf && !p.leaf && max == r.max == p.max && i < p.count
      && Apart(r) && Apart(p) && r.Apart(p)
    }

    method KidsToLeft(mem: Memory, m: nat, r: BNode<V>)
      requires Shape() && r.Shape() && leaf == r.leaf && Apart(r) && InOrder(mem) && r.InOrder(mem) && 1 <= m <= r.count && count + m <= max
      modifies children, r.children, mem
      ensures KidsTo(count + m) + r.KidsTo(r.count - m) == old(Kids() + r.Kids())
      ensures Links(mem.link, KidsTo(count + m), id, 0) && Links(mem.link, r.KidsTo(r.count - m), r.id, 0)
      ensures Kept(old(mem.link), mem.link, old(r.Kids()))
    {
      hide Links;
      ghost var mine, theirs := Kids(), r.Kids();
      if !leaf {
        ChildrenToLeft(mem, id, children, count, r.id, r.children, r.count, m, mine, theirs);
        assert mine + theirs == (mine + theirs[..m]) + theirs[m..];
      }
    }

    method KidsToRight(mem: Memory, m: nat, r: BNode<V>)
      requires Shape() && r.Shape() && leaf == r.leaf && Apart(r) && InOrder(mem) && r.InOrder(mem) && 1 <= m <= count && r.count + m <= r.max
      modifies r.children, mem
      ensures KidsTo(count - m) + r.KidsTo(r.count + m) == old(Kids() + r.Kids())
      ensures Links(mem.link, KidsTo(count - m), id, 0) && Links(mem.link, r.KidsTo(r.count + m), r.id, 0)
      ensures Kept(old(mem.link), mem.link, old(Kids() + r.Kids()))
    {
      hide Links;
      ghost var mine, theirs := Kids(), r.Kids();
      if !leaf {
        ChildrenToRight(mem, id, children, count, r.id, r.children, r.count, m, mine, theirs);
        assert mine + theirs == mine[..count - m + 1] + (mine[count - m + 1..] + theirs);
      }
    }

    /** `rebalance_right_to_left`: m values and children move from the right sibling. */
    method RebalanceRightToLeft(mem: Memory, m: nat, r: BNode<V>, p: BNode<V>, i: nat)
      requires Beside(r, p, i) && InOrder(mem) && r.InOrder(mem) && 1 <= m <= r.count && count + m <= max
      modifies this`count, slots, children, r`count, r.slots, r.children, p.slots, mem
      ensures Shape() && r.Shape() && count == old(count) + m && r.count == old(r.count) - m
      ensures CutAt(old(Values() + [p.slots[i]] + r.Values()), count, Values(), p.slots[i], r.Values())
      ensures p.slots[..] == old(p.slots[..])[i := p.slots[i]]
      ensures Kids() + r.Kids() == old(Kids() + r.Kids()) && InOrder(mem) && r.InOrder(mem)
      ensures Kept(old(mem.link), mem.link, old(r.Kids()))
    {
      hide Links, CutAt, Kept;
      ghost var mine, theirs := Kids(), r.Kids();
      assert slots as object != children as object && r.slots as object != r.children as object;
      SlotsToLeft(slots, count, p.slots, i, r.slots, r.count, m);
      assert Kids() == mine && r.Kids() == theirs;
      KidsToLeft(mem, m, r);
      count, r.count := count + m, r.count - m;
    }

    /** `rebalance_left_to_right`: m values and children move to the right sibling. */
    method RebalanceLeftToRight(mem: Memory, m: nat, r: BNode<V>, p: BNode<V>, i: nat)
      requires Beside(r, p, i) && InOrder(mem) && r.InOrder(mem) && 1 <= m <= count && r.count + m <= r.max
      modifies this`count, r`count, r.slots, r.children, p.slots, mem
      ensures Shape() && r.Shape() && count == old(count) - m && r.count == old(r.count) + m
      ensures CutAt(old(Values() + [p.slots[i]] + r.Values()), count, Values(), p.slots[i], r.Values())
      ensures p.slots[..] == old(p.slots[..])[i := p.slots[i]]
      ensures Kids() + r.Kids() == old(Kids() + r.Kids()) && InOrder(mem) && r.InOrder(mem)
      ensures Kept(old(mem.link), mem.link, old(Kids() + r.Kids()))
    {
      hide Links, CutAt, Kept;
      ghost var mine, theirs := Kids(), r.Kids();
      assert slots as object != children as object && r.slots as object != r.children as object;
      SlotsToRight(slots, count, p.slots, i, r.slots, r.count, m);
      assert Kids() == mine && r.Kids() == theirs;
      KidsToRight(mem, m, r);
      count, r.count := count - m, r.count + m;
    }

    // ----- Split and merge

    /** The values of `split`: those behind the cut move to dest, and the one at the cut
        is left behind the others. */
    method SplitSlots(insertPosition: nat, dest: BNode<V>)
      requires Shape() && dest.Shape() && max == dest.max >= 3 && Apart(dest) && count == max && insertPosition <= max
      modifies this`count, dest`count, dest.slots
      ensures Shape() && dest.Shape() && count == SplitCut(max, insertPosition)
      ensures CutAt(old(Values()), count, Values(), slots[count], dest.Values())
    {
      dest.count := if insertPosition == 0 then count - 1 else if insertPosition == max then 0 else count / 2;
      count := count - dest.count;
      MoveForward(slots, count, dest.count, dest.slots, 0);
      count := count - 1;
    }

    /** What `split` does to the parent: the delimiter and the new child. */
    method AddChild(mem: Memory, i: nat, v: V, c: nat)
      requires Shape() && !leaf && i <= count < max && InOrder(mem) && c !in Kids()
      modifies this`count, slots, children, mem
      ensures Shape() && Values() == old(Values())[..i] + [v] + old(Values())[i..]
      ensures Kids() == old(Kids())[..i + 1] + [c] + old(Kids())[i + 1..] && InOrder(mem)
      ensures Kept(old(mem.link), mem.link, old(Kids()) + [c])
    {
      hide Links, Relinked, Kept;
      ghost var kids, m0 := Kids(), mem.link;
      EmplaceValue(mem, i, v);
      ghost var m1, above := mem.link, Kids();
      InitChild(mem, id, children, i + 1, c);
      AddedLinks(m0, m1, kids, i + 1, id, c);
      assert Kids() == above[i + 1 := c];
    }

    /** The children of `split`, after the parent was given the new child. */
    method SplitKids(mem: Memory, dest: BNode<V>, ghost kids: seq<nat>, ghost m0: map<nat, Link>, p: nat, ghost pk: seq<nat>, ghost pk': seq<nat>)
      requires Shape() && dest.Shape() && leaf == dest.leaf && Apart(dest) && id != p && dest.id != p && count + dest.count < max
      requires kids == KidsTo(count + 1 + dest.count) && Links(m0, kids, id, 0) && Links(m0, pk, p, 0) && dest.id !in kids
      requires Links(mem.link, pk', p, 0) && Kept(m0, mem.link, pk + [dest.id])
      modifies dest.children, mem
      ensures Kids() + dest.Kids() == kids && InOrder(mem) && dest.InOrder(mem) && Links(mem.link, pk', p, 0)
    {
      hide Links, Relinked, Distinct, Kept;
      if leaf {
        NoLinks(mem.link, id);
        NoLinks(mem.link, dest.id);
      } else {
        LinksDistinct(m0, kids, id, 0);
        DistinctApart(kids, count + 1);
        ghost var m1 := mem.link;
        AdoptChildren(mem, children, count + 1, dest.count + 1, dest.id, dest.children, 0, kids[count + 1..]);
        SplitLinks(m0, m1, mem.link, kids, count + 1, pk, pk', id, dest.id, p);
        assert Kids() == kids[..count + 1] && dest.Kids() == kids[count + 1..];
      }
    }

    /** `split`: the values and children behind the delimiter move to the new sibling dest;
        the delimiter and dest go into the parent. */
    method Split(mem: Memory, insertPosition: nat, dest: BNode<V>, p: BNode<V>, i: nat)
      requires Shape() && dest.Shape() && p.Shape() && leaf == dest.leaf && !p.leaf && max == dest.max == p.max >= 3
      requires count == max && dest.count == 0 && insertPosition <= max && i <= p.count < p.max
      requires Apart(dest) && Apart(p) && dest.Apart(p) && dest.id !in Kids() && dest.id !in p.Kids()
      requires InOrder(mem) && p.InOrder(mem)
      modifies this`count, dest`count, dest.slots, dest.children, p`count, p.slots, p.children, mem
      ensures Shape() && dest.Shape() && p.Shape() && count == SplitCut(max, insertPosition)
      ensures CutAt(old(Values()), count, Values(), old(Values())[count], dest.Values())
      ensures p.Values() == old(p.Values())[..i] + [old(Values())[count]] + old(p.Values())[i..]
      ensures p.Kids() == old(p.Kids())[..i + 1] + [dest.id] + old(p.Kids())[i + 1..]
      ensures Kids() + dest.Kids() == old(Kids())
      ensures InOrder(mem) && dest.InOrder(mem) && p.InOrder(mem)
    {
      hide Links, Relinked, Distinct, Kept, SplitCut;
      ghost var kids, pk, m0 := Kids(), p.Kids(), mem.link;
      SplitSlots(insertPosition, dest);
      p.AddChild(mem, i, slots[count], dest.id);
      SplitKids(mem, dest, kids, m0, p.id, pk, p.Kids());
    }

    /** The children of `merge`. */
    method MergeKids(mem: Memory, src: BNode<V>, p: nat, ghost pk: seq<nat>)
      requires Shape() && src.Shape() && leaf == src.leaf && Apart(src) && count + 1 + src.count <= max && id != p && src.id != p
      requires InOrder(mem) && src.InOrder(mem) && Links(mem.link, pk, p, 0)
      modifies children, mem
      ensures KidsTo(count + 1 + src.count) == old(Kids() + src.Kids())
      ensures Links(mem.link, old(Kids() + src.Kids()), id, 0) && Links(mem.link, pk, p, 0)
    {
      hide Links, Relinked, Distinct, Kept;
      ghost var mine, theirs, m0 := Kids(), src.Kids(), mem.link;
      if leaf {
        assert mine + theirs == [];
      } else {
        LinksDistinct(m0, theirs, src.id, 0);
        AdoptChildren(mem, src.children, 0, src.count + 1, id, children, count + 1, theirs);
        MergeLinks(m0, mem.link, mine, theirs, pk, id, src.id, p);
        assert KidsTo(count + 1 + src.count) == mine + theirs;
      }
    }

    /** `merge`, but for the parent. */
    method Absorb(mem: Memory, src: BNode<V>, d: V, p: nat, ghost pk: seq<nat>)
      requires Shape() && src.Shape() && leaf == src.leaf && Apart(src) && count + 1 + src.count <= max && id != p && src.id != p
      requires InOrder(mem) && src.InOrder(mem) && Links(mem.link, pk, p, 0)
      modifies this`count, slots, children, src`count, mem
      ensures Shape() && src.Shape() && src.count == 0 && Values() == old(Values() + [d] + src.Values())
      ensures Kids() == old(Kids() + src.Kids()) && InOrder(mem) && Links(mem.link, pk, p, 0)
    {
      hide Links, Relinked, Distinct, Kept;
      ghost var all := Values() + [d] + src.Values();
      assert slots as object != children as object;
      Extend(slots, count, d, src.slots, src.count);
      assert slots[..count + 1 + src.count] == all;
      MergeKids(mem, src, p, pk);
      count, src.count := count + 1 + src.count, 0;
    }

    /** `merge`: the delimiter and everything of the right sibling src move to this node,
        and the parent loses the delimiter and src. */
    method Merge(mem: Memory, src: BNode<V>, p: BNode<V>, i: nat)
      requires Beside(src, p, i) && count + 1 + src.count <= max && InOrder(mem) && src.InOrder(mem) && p.InOrder(mem)
      modifies this`count, slots, children, src`count, p`count, p.slots, p.children, mem
      ensures Shape() && src.Shape() && p.Shape() && src.count == 0
      ensures Values() == old(Values() + [p.Values()[i]] + src.Values())
      ensures p.Values() == old(p.Values())[..i] + old(p.Values())[i + 1..]
      ensures Kids() == old(Kids() + src.Kids()) && p.Kids() == old(p.Kids())[..i + 1] + old(p.Kids())[i + 2..]
      ensures InOrder(mem) && p.InOrder(mem)
    {
      hide Links, Relinked, Distinct, Kept;
      ghost var pk := p.Kids();
      Absorb(mem, src, p.slots[i], p.id, pk);
      ghost var kids, m1 := Kids(), mem.link;
      p.RemoveValue(mem, i);
      RemovedLinks(m1, mem.link, pk, i, p.id, kids, id);
    }
  }

  lemma MergeLinks(m0: map<nat, Link>, m1: map<nat, Link>, mine: seq<nat>, theirs: seq<nat>, pk: seq<nat>, l: nat, r: nat, p: nat)
    requires l != r && l != p && r != p && Links(m0, mine, l, 0) && Links(m0, theirs, r, 0) && Links(m0, pk, p, 0)
    requires Relinked(m0, m1, theirs, l, |mine|)
    ensures Links(m1, mine + theirs, l, 0) && Links(m1, pk, p, 0)
  {
    ParentsApart(m0, mine, l, 0, theirs, r, 0);
    ParentsApart(m0, pk, p, 0, theirs, r, 0);
    LinksKept(m0, m1, theirs, l, |mine|, mine, l, 0);
    LinksKept(m0, m1, theirs, l, |mine|, pk, p, 0);
    LinksAppend(m1, mine, theirs, l, 0);
  }

  lemma RemovedLinks(m0: map<nat, Link>, m1: map<nat, Link>, pk: seq<nat>, i: nat, p: nat, kids: seq<nat>, l: nat)
    requires l != p && Links(m0, pk, p, 0) && Links(m0, kids, l, 0) && i + 2 <= |pk| && Relinked(m0, m1, pk[i + 2..], p, i + 1)
    ensures Links(m1, pk[..i + 1] + pk[i + 2..], p, 0) && Links(m1, kids, l, 0)
  {
    LinksDistinct(m0, pk, p, 0);
    ParentsApart(m0, kids, l, 0, pk, p, 0);
    LinksSplit(m0, pk, i + 1, p, 0);
    LinksKept(m0, m1, pk[i + 2..], p, i + 1, pk[..i + 1], p, 0);
    LinksKept(m0, m1, pk[i + 2..], p, i + 1, kids, l, 0);
    LinksAppend(m1, pk[..i + 1], pk[i + 2..], p, 0);
  }

  lemma NoLinks(m: map<nat, Link>, p: nat)
    ensures Links(m, [], p, 0)
  {
  }

  lemma AddedLinks(m0: map<nat, Link>, m1: map<nat, Link>, kids: seq<nat>, i: nat, p: nat, c: nat)
    requires Links(m0, kids, p, 0) && i <= |kids| && Relinked(m0, m1, kids[i..], p, i + 1) && c !in kids
    ensures Links(m1[c := Link(p, i)], kids[..i] + [c] + kids[i..], p, 0)
    ensures Kept(m0, m1[c := Link(p, i)], kids + [c])
  {
    LinksDistinct(m0, kids, p, 0);
    DistinctApart(kids, i);
    LinksSplit(m0, kids, i, p, 0);
    LinksKept(m0, m1, kids[i..], p, i + 1, kids[..i], p, 0);
    var m := m1[c := Link(p, i)];
    assert Links(m, kids[..i], p, 0) && Links(m, [c], p, i) && Links(m, kids[i..], p, i + 1);
    LinksAppend(m, kids[..i], [c], p, 0);
    LinksAppend(m, kids[..i] + [c], kids[i..], p, 0);
  }

  lemma SplitLinks(m0: map<nat, Link>, m1: map<nat, Link>, m2: map<nat, Link>, kids: seq<nat>, c: nat, pk: seq<nat>, pk': seq<nat>, l: nat, r: nat, p: nat)
    requires l != p && l != r && r != p && c <= |kids| && Links(m0, kids, l, 0) && Links(m0, pk, p, 0) && r !in kids
    requires Links(m1, pk', p, 0) && Kept(m0, m1, pk + [r])
    requires Relinked(m1, m2, kids[c..], r, 0)
    ensures Links(m2, kids[..c], l, 0) && Links(m2, kids[c..], r, 0) && Links(m2, pk', p, 0)
  {
    LinksDistinct(m0, kids, l, 0);
    DistinctApart(kids, c);
    ParentsApart(m0, kids, l, 0, pk, p, 0);
    assert Links(m1, kids, l, 0);
    ParentsApart(m1, kids, l, 0, pk', p, 0);
    LinksSplit(m1, kids, c, l, 0);
    LinksKept(m1, m2, kids[c..], r, 0, kids[..c], l, 0);
    LinksKept(m1, m2, kids[c..], r, 0, pk', p, 0);
  }
}

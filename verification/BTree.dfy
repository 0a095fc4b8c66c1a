/**
 The B-tree as an object: search, insertion and erasure on the tree's in-order
 sequence of values.
 */
module BTree {
  import opened BTreeShape
  import opened BTreeSiblings
  import opened BTreePlaces
  import opened BTreeInsert
  import opened BTreeIterator
  import opened BTreeSearch
  import opened BTreeErase
  import opened BTreeUpdate

  // ----- The order of the keys

  datatype Order<!K, !V> = Order(key: V -> K, less: (K, K) -> bool)

  /** `less` is a strict weak order, as the container demands. */
  ghost predicate Lawful<K(!new), V>(o: Order<K, V>) {
    && (forall a :: !o.less(a, a))
    && (forall a, b, c :: o.less(a, b) && o.less(b, c) ==> o.less(a, c))
    && (forall a, b, c :: o.less(a, c) ==> o.less(a, b) || o.less(b, c))
  }

  ghost predicate Asymmetric<K(!new), V>(o: Order<K, V>) { forall a, b :: o.less(a, b) ==> !o.less(b, a) }

  lemma LawfulAsymmetric<K(!new), V>(o: Order<K, V>)
    requires Lawful(o)
    ensures Asymmetric(o)
  {
  }

  /** Sorted by key; without equal keys unless the container holds multiples. */
  ghost predicate Sorted<K, V>(s: seq<V>, o: Order<K, V>, multi: bool) {
    forall i, j :: 0 <= i < j < |s| ==>
      if multi then !o.less(o.key(s[j]), o.key(s[i])) else o.less(o.key(s[i]), o.key(s[j]))
  }

  /** Less than the key; not greater than the key; and the three-way comparison. */
  function LowerOf<K, V>(o: Order<K, V>, key: K): V -> bool { v => o.less(o.key(v), key) }
  function UpperOf<K, V>(o: Order<K, V>, key: K): V -> bool { v => !o.less(key, o.key(v)) }
  function CompareOf<K, V>(o: Order<K, V>, key: K): V -> int {
    v => if o.less(o.key(v), key) then -1 else if o.less(key, o.key(v)) then 1 else 0
  }

  predicate Equal<K, V>(o: Order<K, V>, v: V, key: K) { !o.less(o.key(v), key) && !o.less(key, o.key(v)) }

  lemma SortedMonotone<K(!new), V>(s: seq<V>, o: Order<K, V>, multi: bool, key: K)
    requires Lawful(o) && Sorted(s, o, multi)
    ensures Monotone(s, LowerOf(o, key)) && Monotone(s, UpperOf(o, key))
  {
    forall i, j | 0 <= i < j < |s|
      ensures !o.less(o.key(s[j]), o.key(s[i]))
    {
    }
  }

  lemma SortedRising<K(!new), V>(s: seq<V>, o: Order<K, V>, multi: bool, key: K)
    requires Lawful(o) && Sorted(s, o, multi)
    ensures Rising(s, CompareOf(o, key)) && (multi || AtMostOne(s, CompareOf(o, key)))
  {
    SortedMonotone(s, o, multi, key);
    var cmp := CompareOf(o, key);
    assert forall i :: 0 <= i < |s| ==> Lower(cmp)(s[i]) == LowerOf(o, key)(s[i]);
    assert forall i :: 0 <= i < |s| ==> NotAbove(cmp)(s[i]) == UpperOf(o, key)(s[i]);
    if !multi {
      forall i, j | 0 <= i < j < |s| && cmp(s[i]) == 0
        ensures cmp(s[j]) != 0
      {
        assert o.less(o.key(s[i]), o.key(s[j]));
      }
    }
  }

  /** Where the bounds of a key are: less values before the lower one, greater values from the
      upper one on, and the equal ones between them. */
  lemma BoundsMean<K(!new), V>(s: seq<V>, o: Order<K, V>, multi: bool, key: K)
    requires Lawful(o) && Sorted(s, o, multi)
    ensures var i, j := Scan(s, LowerOf(o, key)), Scan(s, UpperOf(o, key));
            && i <= j <= |s|
            && forall x :: 0 <= x < |s| ==>
                 && (o.less(o.key(s[x]), key) <==> x < i) && (o.less(key, o.key(s[x])) <==> x >= j) && (Equal(o, s[x], key) <==> i <= x < j)
  {
    hide Sorted, Lawful, Monotone, Scan;
    SortedMonotone(s, o, multi, key);
    LawfulAsymmetric(o);
    ScanIff(s, LowerOf(o, key));
    ScanIff(s, UpperOf(o, key));
    var i, j := Scan(s, LowerOf(o, key)), Scan(s, UpperOf(o, key));
    assert i < j || j == |s| || !UpperOf(o, key)(s[j]);
  }

  lemma ScanIff<V>(s: seq<V>, before: V -> bool)
    requires Monotone(s, before)
    ensures forall x :: 0 <= x < |s| ==> (before(s[x]) <==> x < Scan(s, before))
  {
  }

  /** A value put at the partition point of its key keeps the order. */
  lemma InsertSorted<K(!new), V>(l: seq<V>, v: V, r: seq<V>, o: Order<K, V>, multi: bool)
    requires Lawful(o) && Sorted(l + r, o, multi)
    requires if multi then All(l, UpperOf(o, o.key(v))) && None(r, UpperOf(o, o.key(v)))
             else All(l, LowerOf(o, o.key(v))) && None(r, UpperOf(o, o.key(v)))
    ensures Sorted(l + [v] + r, o, multi)
  {
    var s, t := l + r, l + [v] + r;
    var from := i => if i < |l| then i else i - 1;
    forall i, j | 0 <= i < j < |t|
      ensures if multi then !o.less(o.key(t[j]), o.key(t[i])) else o.less(o.key(t[i]), o.key(t[j]))
    {
      if j == |l| {
        assert t[i] == l[i];
      } else if i == |l| {
        assert t[j] == r[j - |l| - 1];
        assert !UpperOf(o, o.key(v))(r[j - |l| - 1]);
      } else {
        assert t[i] == s[from(i)] && t[j] == s[from(j)];
      }
    }
  }

  lemma EraseSorted<K, V>(l: seq<V>, v: V, r: seq<V>, o: Order<K, V>, multi: bool)
    requires Sorted(l + [v] + r, o, multi)
    ensures Sorted(l + r, o, multi)
  {
    var s, t := l + [v] + r, l + r;
    assert forall i :: 0 <= i < |t| ==> t[i] == s[if i < |l| then i else i + 1];
  }

  // ----- The ends

  /** The leaf without anything to the right is the one that `rightmost_` points at. */
  lemma {:induction false} EndIsLast<V>(c: Ctx<V>, h: nat, k: nat)
    requires CtxOk(c, h, k) && Right(c) == []
    ensures RightEdge(c)
    decreases c
  {
    hide KidsOk, InOrder;
    if c.In? { EndIsLast(c.up, h + 1, k); }
  }

  lemma EndIsRightmost<V>(r: Place<V>, k: nat, rightmost: nat, next: nat)
    requires PlaceOk(r, 0, k) && PlaceRight(r) == [] && PlaceInv(r, rightmost, next)
    ensures r.n.id == rightmost
  {
    hide KidsOk;
    EndIsLast(r.c, 0, k);
    RightEdgeLast(r.n.id, r.c);
  }

  lemma {:induction false} StartIsFirst<V>(id: nat, c: Ctx<V>, h: nat, k: nat)
    requires CtxOk(c, h, k) && Left(c) == []
    ensures FirstOf(id, c) == id
    decreases c
  {
    hide KidsOk, InOrder;
    if c.In? { StartIsFirst(id, c.up, h + 1, k); }
  }

  /** The tree around an iterator is one whose root is in order, too. */
  lemma IterRoot<V>(a: Place<V>, h: nat, k: nat)
    requires Iter(a, h, k)
    ensures Iter(Place(Plug(a.n, a.c, k), Top, 0), h + Depth(a.c), k)
  {
    PlugOk(a.n, a.c, h, k);
    if a.c.In? || |a.n.vals| >= 1 { PlugVals(a.n, a.c, h, k); }
  }

  // ----- The tree

  class BTree<K(!new), V> {
    const order: Order<K, V>
    const k: nat
    const multi: bool
    const linear: bool
    const threeWay: bool
    var root: Tree<V>
    var rightmost: nat
    var size: nat
    var nextId: nat
    ghost var height: nat

    /** What `internal_verify` and `verify` check of the nodes, and that the identities
        of the nodes are distinct. */
    ghost predicate Structured()
      reads this
    {
      && k >= 3 && Iter(Place(root, Top, 0), height, k) && ZipInv(root, Top, rightmost, nextId)
      && nextId >= 1 && size == |InOrder(root)|
    }

    ghost predicate Searchable()
      reads this
    {
      Structured() && Lawful(order) && Sorted(Contents(), order, multi)
    }

    ghost predicate Valid()
      reads this
    {
      Searchable() && (size == 0 ==> root == EmptyNode())
    }

    ghost function Contents(): seq<V>
      reads this
    {
      InOrder(root)
    }

    /** An iterator of this tree. */
    ghost predicate Owns(a: Place<V>, h: nat)
      reads this
    {
      Iter(a, h, k) && Plug(a.n, a.c, k) == root
    }

    constructor (order: Order<K, V>, k: nat, multi: bool, linear: bool, threeWay: bool)
      requires k >= 3 && Lawful(order)
      ensures Valid() && Contents() == []
      ensures this.order == order && this.k == k && this.multi == multi && this.linear == linear && this.threeWay == threeWay
    {
      this.order, this.k, this.multi, this.linear, this.threeWay := order, k, multi, linear, threeWay;
      root, rightmost, size, nextId, height := EmptyNode(), 0, 0, 1, 0;
      new;
      EmptyInv<V>();
    }

    lemma OwnsInv(a: Place<V>, h: nat)
      requires Structured() && Owns(a, h)
      ensures PlaceInv(a, rightmost, nextId) && Pre(a) + PlaceRight(a) == Contents()
    {
      hide KidsOk, InOrder, ZipInv;
      ZipTree(a.n, a.c, k, rightmost, nextId);
      PreWhole(a, h, k);
    }

    // ----- Search

    /** `internal_lower_bound`: the first value that is not less than the key. */
    method LowerBound(key: K) returns (found: bool, r: Place<V>, ghost h: nat)
      requires Valid()
      ensures Owns(r, h) && Pre(r) == Contents()[..Scan(Contents(), LowerOf(order, key))]
      ensures found <==> Scan(Contents(), LowerOf(order, key)) < size
      ensures found ==> r.pos < |r.n.vals| && r.n.vals[r.pos] == Contents()[Scan(Contents(), LowerOf(order, key))]
    {
      hide KidsOk, InOrder, Monotone, Rising, AtMostOne, Sorted, Lawful, ZipInv;
      var a := LowerLeaf(key);
      ScanPlace(a, 0, LowerOf(order, key));
      r, h := Climb(a, 0, k);
      found := r.pos < |r.n.vals|;
      OwnsInv(r, h);
      if found { ValueAt(r, h, k); }
    }

    /** The leaf place of the partition point of the values less than the key. */
    method LowerLeaf(key: K) returns (a: Place<V>)
      requires Searchable()
      ensures Owns(a, 0) && Parts(a, LowerOf(order, key))
    {
      hide KidsOk, InOrder, Monotone, Rising, AtMostOne, Sorted, Lawful, ZipInv, Parts;
      SortedMonotone(Contents(), order, multi, key);
      if threeWay {
        SortedRising(Contents(), order, multi, key);
        a := DescendTo(root, CompareOf(order, key), linear, multi, height, k);
        LawfulAsymmetric(order);
        CompareParts(a, order, key);
      } else {
        a := Descend(root, LowerOf(order, key), linear, height, k);
      }
    }

    lemma ScanPlace(a: Place<V>, h: nat, before: V -> bool)
      requires Structured() && Owns(a, h) && a.n.leaf && Parts(a, before)
      ensures PlaceLeft(a) == Pre(a) == Contents()[..Scan(Contents(), before)]
    {
      hide KidsOk, InOrder, ZipInv, Pre, PlaceRight;
      OwnsInv(a, h);
      PrePlace(a);
      ScanPartition(Pre(a), PlaceRight(a), before);
    }

    /** `internal_upper_bound`: the first value that is greater than the key. */
    method UpperBound(key: K) returns (found: bool, r: Place<V>, ghost h: nat)
      requires Searchable()
      ensures Owns(r, h) && Pre(r) == Contents()[..Scan(Contents(), UpperOf(order, key))]
      ensures found <==> Scan(Contents(), UpperOf(order, key)) < size
      ensures found ==> r.pos < |r.n.vals| && r.n.vals[r.pos] == Contents()[Scan(Contents(), UpperOf(order, key))]
    {
      hide KidsOk, InOrder, Monotone, Sorted, Lawful, ZipInv;
      SortedMonotone(Contents(), order, multi, key);
      var a := Descend(root, UpperOf(order, key), linear, height, k);
      ScanPlace(a, 0, UpperOf(order, key));
      r, h := Climb(a, 0, k);
      found := r.pos < |r.n.vals|;
      OwnsInv(r, h);
      if found { ValueAt(r, h, k); }
    }

    /** `internal_find` and the search of `insert_unique`: an equal value, or the leaf
        place where the key belongs. */
    method Search(key: K) returns (found: bool, r: Place<V>, ghost h: nat)
      requires Searchable()
      ensures Owns(r, h)
      ensures found ==> r.pos < |r.n.vals| && Equal(order, r.n.vals[r.pos], key)
      ensures !found ==> h == 0 && Parts(r, LowerOf(order, key)) && Parts(r, UpperOf(order, key))
      ensures found && threeWay ==> Parts(r, LowerOf(order, key)) && r.pos == Scan(r.n.vals, Lower(CompareOf(order, key)))
      ensures found && threeWay ==> FirstOnWay(r.n, CompareOf(order, key)) == FirstOnWay(root, CompareOf(order, key))
      ensures found && !threeWay ==> Pre(r) == Contents()[..Scan(Contents(), LowerOf(order, key))]
    {
      hide KidsOk, InOrder, Monotone, Rising, AtMostOne, Sorted, ZipInv, Parts;
      LawfulAsymmetric(order);
      hide Lawful;
      if threeWay {
        SortedRising(Contents(), order, multi, key);
        r, found, h := Locate(root, CompareOf(order, key), linear, multi, height, k);
        CompareParts(r, order, key);
      } else {
        r := LowerLeaf(key);
        h := 0;
        ScanPlace(r, 0, LowerOf(order, key));
        var last, hl := Climb(r, 0, k);
        found := last.pos < |last.n.vals| && !order.less(key, order.key(last.n.vals[last.pos]));
        SameRest(r, last, 0, hl, k);
        NextDecides(this, r, last, hl, key);
        if found { r, h := last, hl; }
      }
    }

    /** `internal_find`: finds an equal value if there is one. It is the first one, unless
        a three-way comparison stops above others. */
    method Find(key: K) returns (found: bool, r: Place<V>, ghost h: nat)
      requires Valid()
      ensures Owns(r, h)
      ensures found <==> exists i :: 0 <= i < size && Equal(order, Contents()[i], key)
      ensures found ==> r.pos < |r.n.vals| && Equal(order, r.n.vals[r.pos], key)
      ensures found && (!threeWay || !multi) ==> Pre(r) == Contents()[..Scan(Contents(), LowerOf(order, key))]
      ensures found && threeWay ==>
                (Pre(r) == Contents()[..Scan(Contents(), LowerOf(order, key))] <==> FirstOnWay(root, CompareOf(order, key)))
    {
      hide KidsOk, InOrder, ZipInv, Lawful, Parts, FirstOnWay;
      found, r, h := Search(key);
      OwnsInv(r, h);
      if found {
        ValueAt(r, h, k);
        assert Contents()[|Pre(r)|] == r.n.vals[r.pos];
        if threeWay { FoundIsFirstIff(this, r, h, key); }
        if !multi { UniqueFirst(Contents(), |Pre(r)|, order, key); }
      } else {
        PrePlace(r);
        NoneEqual(r, order, key);
      }
    }

    /** `end`: behind the last value of the leaf that `rightmost_` points at. */
    method End() returns (r: Place<V>)
      requires Structured()
      ensures Owns(r, 0) && Pre(r) == Contents() && r.n.id == rightmost && r.pos == |r.n.vals|
    {
      hide KidsOk, InOrder, ZipInv;
      if |root.vals| == 0 {
        r := Place(root, Top, 0);
        PreEnd(r);
      } else {
        r := LastBelow(root, Top, height, k);
      }
      OwnsInv(r, 0);
      SameTail(Pre(r), PlaceRight(r), []);
      EndIsRightmost(r, k, rightmost, nextId);
    }

    /** `begin`: before the first value of the leaf that the root's parent link points at. */
    method Begin() returns (r: Place<V>)
      requires Structured()
      ensures Owns(r, 0) && Pre(r) == [] && r.n.id == root.parent && r.pos == 0
    {
      hide KidsOk, InOrder;
      if |root.vals| == 0 {
        r := Place(root, Top, 0);
      } else {
        r := FirstBelow(root, Top, height, k);
      }
      OwnsInv(r, 0);
      StartIsFirst(r.n.id, r.c, 0, k);
      PlugParent(r.n, r.c, k);
    }

    // ----- Changes

    lemma HasValues()
      requires Structured() && size > 0
      ensures |root.vals| >= 1 && root.maxCount >= 1
    {
      hide KidsOk, ZipInv;
    }

    /** `new_leaf_root_node(1)` for the first value. */
    method StartLeaf()
      requires Structured() && size == 0
      modifies this
      ensures Structured() && size == 0 && Contents() == [] && root.leaf && root.maxCount >= 1
    {
      LoneLeaf<V>(nextId);
      root, rightmost, nextId, height := LeafRoot(nextId), nextId, nextId + 1, 0;
    }

    /** `internal_emplace`, with the tree around it. */
    method Emplace(a: Place<V>, ghost h: nat, v: V) returns (r: Place<V>)
      requires Structured() && Owns(a, h) && root.maxCount >= 1
      modifies this
      ensures Structured() && Owns(r, 0) && size == old(size) + 1
      ensures r.pos < |r.n.vals| && r.n.vals[r.pos] == v
      ensures Pre(r) == Pre(a) && Contents() == Pre(a) + [v] + PlaceRight(a)
      ensures a.n.leaf ==> LeafGrows(a, r, v, k, old(nextId), nextId)
    {
      hide KidsOk, InOrder, ZipInv, Pre, PlaceRight, PlaceInv, LeafGrows;
      OwnsInv(a, h);
      r, nextId, rightmost := InternalEmplace(a, h, v, k, nextId, rightmost);
      Adopt(r, 0);
      size := size + 1;
    }

    /** The tree around the iterator r becomes this tree. */
    method Adopt(r: Place<V>, ghost h: nat)
      requires Iter(r, h, k)
      modifies this`root, this`height
      ensures Owns(r, h) && Iter(Place(root, Top, 0), height, k) && Contents() == Pre(r) + PlaceRight(r)
      ensures forall last, next :: PlaceInv(r, last, next) ==> ZipInv(root, Top, last, next)
    {
      hide KidsOk, InOrder, Pre, PlaceRight;
      IterRoot(r, h, k);
      PreWhole(r, h, k);
      forall last, next | PlaceInv(r, last, next)
        ensures ZipInv(Plug(r.n, r.c, k), Top, last, next)
      {
        ZipTree(r.n, r.c, k, last, next);
      }
      root, height := Plug(r.n, r.c, k), h + Depth(r.c);
    }

    /** `insert_unique`: the value at its sorted place, unless its key is there already. */
    method InsertUnique(v: V) returns (r: Place<V>, inserted: bool, ghost h: nat)
      requires Valid() && !multi
      modifies this
      ensures Valid() && Owns(r, h) && r.pos < |r.n.vals|
      ensures inserted <==> forall i :: 0 <= i < |old(Contents())| ==> !Equal(order, old(Contents())[i], order.key(v))
      ensures !inserted ==> Contents() == old(Contents()) && Equal(order, r.n.vals[r.pos], order.key(v))
      ensures inserted ==> var i := Scan(old(Contents()), LowerOf(order, order.key(v)));
                           && Contents() == old(Contents())[..i] + [v] + old(Contents())[i..]
                           && Pre(r) == old(Contents())[..i] && r.n.vals[r.pos] == v
    {
      hide KidsOk, InOrder, ZipInv, Lawful, Sorted, Parts, Pre, PlaceRight;
      ghost var s := Contents();
      if size == 0 { StartLeaf(); } else { HasValues(); }
      var found, a, ha := Search(order.key(v));
      OwnsInv(a, ha);
      if found {
        ValueAt(a, ha, k);
        assert s[|Pre(a)|] == a.n.vals[a.pos];
        return a, false, ha;
      }
      ScanPlace(a, 0, LowerOf(order, order.key(v)));
      NoneEqual(a, order, order.key(v));
      SortedPlace(a, v, order, false);
      r := Emplace(a, 0, v);
      inserted, h := true, 0;
    }

    /** `insert_multi`: the value behind all that are not greater. */
    method InsertMulti(v: V) returns (r: Place<V>)
      requires Valid() && multi
      modifies this
      ensures Valid() && Owns(r, 0) && r.pos < |r.n.vals| && r.n.vals[r.pos] == v
      ensures var i := Scan(old(Contents()), UpperOf(order, order.key(v)));
              Contents() == old(Contents())[..i] + [v] + old(Contents())[i..] && Pre(r) == old(Contents())[..i]
    {
      hide KidsOk, InOrder, ZipInv, Lawful, Sorted, Parts, Pre, PlaceRight;
      if size == 0 { StartLeaf(); } else { HasValues(); }
      var found, a, h := UpperBound(order.key(v));
      if !found {
        a := End();
        h := 0;
      }
      OwnsInv(a, h);
      SortedAt(Contents(), Pre(a), v, PlaceRight(a), order);
      r := Emplace(a, h, v);
    }

    /** `erase`: removes exactly the value that a points at, and returns its successor,
        or the end. */
    method EraseAt(a: Place<V>, ghost h: nat) returns (r: Place<V>, ghost hr: nat, ghost top: Place<V>, ghost levels: nat)
      requires Valid() && Owns(a, h) && a.pos < |a.n.vals|
      modifies this
      ensures Valid() && Owns(r, hr) && size == old(size) - 1
      ensures var i := |Pre(a)|;
              && i < |old(Contents())| && old(Contents())[i] == a.n.vals[a.pos]
              && Contents() == old(Contents())[..i] + old(Contents())[i + 1..]
              && Pre(r) == old(Contents())[..i]
              && if i < size then r.pos < |r.n.vals| && r.n.vals[r.pos] == old(Contents())[i + 1]
                 else r.pos == |r.n.vals| && r.n.id == rightmost
      ensures Restored(old(Nodes(root, Top, nextId)), |Pre(a)| - (if a.n.leaf then 0 else 1), top, levels, root, k, nextId)
    {
      hide KidsOk, InOrder, Lawful, Sorted, Pre, PlaceRight, ZipInv, Restored;
      OwnsInv(a, h);
      PlugNodes(a.n, a.c, k, nextId);
      r, rightmost, hr, top, levels := Erase(a, h, k, rightmost, nextId);
      assert Contents() == Pre(a) + [a.n.vals[a.pos]] + PlaceRight(r);
      if |r.n.vals| > 0 { SomeRest(r, hr, k); }
      EraseSorted(Pre(a), a.n.vals[a.pos], PlaceRight(r), order, multi);
      Adopt(r, hr);
      size := size - 1;
      Normalized(r, hr, k, rightmost, nextId);
    }

    /** `erase_unique`. */
    method EraseUnique(key: K) returns (count: nat)
      requires Valid() && !multi
      modifies this
      ensures Valid()
      ensures count == if exists i :: 0 <= i < |old(Contents())| && Equal(order, old(Contents())[i], key) then 1 else 0
      ensures count == 0 ==> Contents() == old(Contents())
      ensures count == 1 ==> var i := Scan(old(Contents()), LowerOf(order, key));
                             i < |old(Contents())| && Equal(order, old(Contents())[i], key)
                             && Contents() == old(Contents())[..i] + old(Contents())[i + 1..]
    {
      hide KidsOk, InOrder, Lawful, Sorted, ZipInv, Restored, Pre, Iter;
      var found, a, h := Find(key);
      count := 0;
      if found {
        var r, hr, top, levels := EraseAt(a, h);
        count := 1;
      }
    }

    /** `erase(lower_bound(key))`, if that is a value with the key. */
    method EraseFirst(key: K) returns (erased: bool)
      requires Valid()
      modifies this
      ensures Valid()
      ensures erased <==> exists i :: 0 <= i < |old(Contents())| && Equal(order, old(Contents())[i], key)
      ensures !erased ==> Contents() == old(Contents())
      ensures erased ==> var i := Scan(old(Contents()), LowerOf(order, key));
                         i < |old(Contents())| && Contents() == old(Contents())[..i] + old(Contents())[i + 1..]
    {
      hide KidsOk, InOrder, Lawful, Sorted, ZipInv, Pre, Iter, Restored;
      FirstIsEqualIff(Contents(), order, multi, key);
      var found, r, h := LowerBound(key);
      erased := found && !order.less(key, order.key(r.n.vals[r.pos]));
      if erased {
        var next, hn, top, levels := EraseAt(r, h);
      }
    }
  }

  lemma SomeRest<V>(r: Place<V>, h: nat, k: nat)
    requires Iter(r, h, k) && |r.n.vals| >= 1
    ensures |Pre(r) + PlaceRight(r)| >= 1
  {
    hide KidsOk, InOrder, Pre, PlaceRight;
    WholeOf(r);
    SomeValue(r.n);
  }

  /** An iterator in normal form is at a value, or it is `end`. */
  lemma Normalized<V>(r: Place<V>, h: nat, k: nat, rightmost: nat, next: nat)
    requires Iter(r, h, k) && Normal(r) && ZipInv(Plug(r.n, r.c, k), Top, rightmost, next)
    ensures if PlaceRight(r) != [] then r.pos < |r.n.vals| && r.n.vals[r.pos] == PlaceRight(r)[0]
            else r.pos == |r.n.vals| && r.n.id == rightmost
  {
    hide KidsOk, InOrder;
    ZipTree(r.n, r.c, k, rightmost, next);
    if r.pos < |r.n.vals| {
      ValueAt(r, h, k);
    } else {
      EndIsRightmost(r, k, rightmost, next);
    }
  }

  /** Where both partition points of a key are one, a value with it keeps the order. */
  lemma SortedPlace<K(!new), V>(a: Place<V>, v: V, o: Order<K, V>, multi: bool)
    requires a.n.leaf && a.pos <= |a.n.vals| && Lawful(o) && Sorted(Pre(a) + PlaceRight(a), o, multi)
    requires Parts(a, LowerOf(o, o.key(v))) && Parts(a, UpperOf(o, o.key(v)))
    ensures Sorted(Pre(a) + [v] + PlaceRight(a), o, multi)
  {
    hide Lawful, Sorted, PlaceLeft, PlaceRight, Pre;
    PrePlace(a);
    assert Pre(a) == PlaceLeft(a);
    InsertSorted(Pre(a), v, PlaceRight(a), o, multi);
  }

  lemma SortedAt<K(!new), V>(s: seq<V>, l: seq<V>, v: V, r: seq<V>, o: Order<K, V>)
    requires Lawful(o) && Sorted(s, o, true) && s == l + r && l == s[..Scan(s, UpperOf(o, o.key(v)))]
    ensures Sorted(l + [v] + r, o, true)
  {
    var before := UpperOf(o, o.key(v));
    SortedMonotone(s, o, true, o.key(v));
    assert forall i :: 0 <= i < |r| ==> r[i] == s[|l| + i];
    InsertSorted(l, v, r, o, true);
  }

  /** A root leaf with room for one value. */
  function LeafRoot<V>(id: nat): Tree<V> { Node(id, id, 0, 1, true, [], []) }

  lemma LoneLeaf<V>(id: nat)
    requires id >= 1
    ensures ZipInv(LeafRoot<V>(id), Top, id, id + 1)
  {
    var n := LeafRoot<V>(id);
    forall x: nat
      ensures ZipOccurs(n, Top, x) == if x == id then 1 else 0
    {
      assert KidsOccur(n.kids, x) == 0;
    }
  }

  lemma UniqueFirst<K(!new), V>(s: seq<V>, i: nat, o: Order<K, V>, key: K)
    requires Lawful(o) && Sorted(s, o, false) && i < |s| && Equal(o, s[i], key)
    ensures Scan(s, LowerOf(o, key)) == i
  {
    SortedMonotone(s, o, false, key);
    if i > 0 { assert o.less(o.key(s[i - 1]), o.key(s[i])); }
    ScanBorder(s, i, LowerOf(o, key));
  }

  /** The first value that is not less than the key tells whether the key is there. */
  lemma FirstIsEqualIff<K(!new), V>(s: seq<V>, o: Order<K, V>, multi: bool, key: K)
    requires Lawful(o) && Sorted(s, o, multi)
    ensures var i := Scan(s, LowerOf(o, key));
            (exists x :: 0 <= x < |s| && Equal(o, s[x], key)) <==> i < |s| && !o.less(key, o.key(s[i]))
  {
    var i := Scan(s, LowerOf(o, key));
    SortedMonotone(s, o, multi, key);
    if i < |s| && !o.less(key, o.key(s[i])) {
      assert Equal(o, s[i], key);
    }
    forall x | 0 <= x < |s| && Equal(o, s[x], key)
      ensures i < |s| && !o.less(key, o.key(s[i]))
    {
      assert !LowerOf(o, key)(s[x]) && UpperOf(o, key)(s[x]);
    }
  }

  /** Where both partition points are one, no value is equal to the key. */
  lemma NoneEqual<K, V>(r: Place<V>, o: Order<K, V>, key: K)
    requires r.pos <= |r.n.vals| && (!r.n.leaf ==> |r.n.kids| == |r.n.vals| + 1)
    requires Parts(r, LowerOf(o, key)) && Parts(r, UpperOf(o, key))
    ensures var s := PlaceLeft(r) + PlaceRight(r); forall i :: 0 <= i < |s| ==> !Equal(o, s[i], key)
  {
    hide PlaceLeft, PlaceRight;
    var l, r := PlaceLeft(r), PlaceRight(r);
    assert forall i :: 0 <= i < |l| ==> LowerOf(o, key)(l[i]);
    assert forall i :: 0 <= i < |r| ==> !UpperOf(o, key)(r[i]);
  }

  /** A three-way search stops at the first node with an equal value. It is the first one
      of the tree if and only if the child before it has none. */
  lemma FoundIsFirstIff<K(!new), V>(t: BTree<K, V>, r: Place<V>, h: nat, key: K)
    requires t.Searchable() && t.Owns(r, h) && r.pos < |r.n.vals| && Equal(t.order, r.n.vals[r.pos], key)
    requires Parts(r, LowerOf(t.order, key)) && r.pos == Scan(r.n.vals, Lower(CompareOf(t.order, key)))
    ensures Pre(r) == t.Contents()[..Scan(t.Contents(), LowerOf(t.order, key))] <==> FirstOnWay(r.n, CompareOf(t.order, key))
  {
    hide KidsOk, InOrder, ZipInv, Lawful, PlaceLeft, PlaceRight, Pre;
    var before := LowerOf(t.order, key);
    t.OwnsInv(r, h);
    PrePlace(r);
    if r.n.leaf {
      ScanPartition(Pre(r), PlaceRight(r), before);
    } else {
      SortedMonotone(t.Contents(), t.order, t.multi, key);
      ChildIter(r, h - 1, t.k);
      SomeValue(r.n.kids[r.pos]);
      LastDecides(PlaceLeft(r), InOrder(r.n.kids[r.pos]), PlaceRight(r), before);
      ValueAt(r, h, t.k);
      NoneEqualBelow(PlaceLeft(r), InOrder(r.n.kids[r.pos]), PlaceRight(r), t.order, t.multi, key);
    }
  }

  /** In front of an equal value, a part has no equal one just if its last is less. */
  lemma NoneEqualBelow<K(!new), V>(l: seq<V>, m: seq<V>, r: seq<V>, o: Order<K, V>, multi: bool, key: K)
    requires Lawful(o) && Sorted(l + m + r, o, multi) && |m| >= 1 && |r| >= 1 && Equal(o, r[0], key)
    ensures LowerOf(o, key)(m[|m| - 1]) <==> forall v :: v in m ==> CompareOf(o, key)(v) != 0
  {
    var s, last := l + m + r, m[|m| - 1];
    assert s[|l| + |m|] == r[0] && s[|l| + |m| - 1] == last;
    SortedMonotone(s, o, multi, key);
    if LowerOf(o, key)(last) {
      MonotoneMiddle(l, m, r, LowerOf(o, key));
    } else {
      assert UpperOf(o, key)(r[0]) && UpperOf(o, key)(last);
      assert CompareOf(o, key)(last) == 0;
    }
  }

  /** The tree 5 | 5 | 7 with the middle value in the root. */
  function ThreeLeaves(): Tree<int> {
    Node(3, 1, 0, 3, false, [5], [Node(1, 3, 0, 3, true, [5], []), Node(2, 3, 1, 3, true, [7], [])])
  }

  function IntOrder(): Order<int, int> { Order(v => v, (a, b) => a < b) }

  /** It is all that a valid tree with repeated keys has to be. */
  lemma ThreeLeavesValid()
    ensures InOrder(ThreeLeaves()) == [5, 5, 7] && Iter(Place(ThreeLeaves(), Top, 0), 1, 3)
    ensures ZipInv(ThreeLeaves(), Top, 2, 4) && Lawful(IntOrder()) && Sorted([5, 5, 7], IntOrder(), true)
  {
    ThreeLeavesInOrder();
    forall x: nat
      ensures ZipOccurs(ThreeLeaves(), Top, x) == if 1 <= x <= 3 then 1 else 0
    {
      ThreeLeavesOccur(x);
    }
    hide InOrder, Occurs;
  }

  lemma ThreeLeavesInOrder()
    ensures InOrder(ThreeLeaves()) == [5, 5, 7]
  {
    var t := ThreeLeaves();
    assert t.kids[1..] == [t.kids[1]] && t.kids[1..][1..] == [];
    assert After(t.vals, [t.kids[1]]) == [5] + [7];
  }

  lemma ThreeLeavesOccur(x: nat)
    ensures Occurs(ThreeLeaves(), x) == if 1 <= x <= 3 then 1 else 0
  {
    var t := ThreeLeaves();
    var l, r := t.kids[0], t.kids[1];
    assert t.kids[1..] == [r];
    assert Occurs(l, x) == (if x == 1 then 1 else 0) && Occurs(r, x) == if x == 2 then 1 else 0;
    assert KidsOccur([r], x) == Occurs(r, x) && KidsOccur(t.kids, x) == Occurs(l, x) + KidsOccur([r], x);
  }

  lemma FoundIsNotAlwaysFirst()
    ensures !FirstOnWay(ThreeLeaves(), CompareOf(IntOrder(), 5))
  {
    var t, cmp := ThreeLeaves(), CompareOf(IntOrder(), 5);
    assert Scan(t.vals, Lower(cmp)) == 0 && cmp(t.vals[0]) == 0;
    assert InOrder(t.kids[0])[0] == 5 && cmp(5) == 0;
  }

  /** Searching that tree with a three-way comparison finds a 5, but not the first one. */
  method FindSecond(t: BTree<int, int>) returns (found: bool, r: Place<int>, ghost h: nat)
    requires t.Valid() && t.threeWay && t.root == ThreeLeaves() && t.order == IntOrder()
    ensures found && t.Owns(r, h) && r.pos < |r.n.vals| && r.n.vals[r.pos] == 5
    ensures t.Contents()[0] == 5 && Pre(r) != []
  {
    ThreeLeavesValid();
    FoundIsNotAlwaysFirst();
    hide ThreeLeaves, FirstOnWay, InOrder, Sorted, Lawful, ZipInv, KidsOk;
    assert t.Contents()[0] == 5 && t.size == 3;
    found, r, h := t.Find(5);
    assert Equal(t.order, t.Contents()[0], 5);
    assert Scan([5, 5, 7], LowerOf(t.order, 5)) == 0;
  }

  lemma SomeValue<V>(n: Tree<V>)
    requires |n.vals| >= 1 && (!n.leaf ==> |n.kids| == |n.vals| + 1)
    ensures |InOrder(n)| >= 1
  {
    ThroughWhole(n, 0);
    FirstRight(n, 0);
  }

  /** The last of a middle part tells whether the partition point is behind it. */
  lemma LastDecides<V>(l: seq<V>, m: seq<V>, r: seq<V>, before: V -> bool)
    requires Monotone(l + m + r, before) && |m| >= 1 && All(l, before) && None(r, before)
    ensures Scan(l + m + r, before) == |l + m| <==> before(m[|m| - 1])
  {
    var s := l + m + r;
    assert s[|l| + |m| - 1] == m[|m| - 1];
    if before(m[|m| - 1]) {
      MonotoneMiddle(l, m, r, before);
      ScanPartition(l + m, r, before);
    }
  }

  /** With the values before a place less than the key, the next value decides whether
      the key is there. */
  lemma NextDecides<K(!new), V>(t: BTree<K, V>, r: Place<V>, last: Place<V>, h: nat, key: K)
    requires t.Searchable() && t.Owns(r, 0) && t.Owns(last, h) && Parts(r, LowerOf(t.order, key))
    requires PlaceRight(last) == PlaceRight(r) && (last.pos < |last.n.vals| <==> PlaceRight(r) != [])
    ensures last.pos < |last.n.vals| ==> !t.order.less(t.order.key(last.n.vals[last.pos]), key)
    ensures (last.pos < |last.n.vals| ==> t.order.less(key, t.order.key(last.n.vals[last.pos]))) ==> Parts(r, UpperOf(t.order, key))
  {
    hide KidsOk, InOrder, ZipInv, Sorted, Lawful, PlaceLeft, PlaceRight;
    t.OwnsInv(r, 0);
    PrePlace(r);
    assert PlaceLeft(r) == Pre(r);
    LawfulAsymmetric(t.order);
    if last.pos < |last.n.vals| { ValueAt(last, h, t.k); }
    SortedMonotone(t.Contents(), t.order, t.multi, key);
    hide Pre;
    LowerAreUpper(PlaceLeft(r), PlaceRight(r), t.order, key);
  }

  lemma LowerAreUpper<K(!new), V>(l: seq<V>, r: seq<V>, o: Order<K, V>, key: K)
    requires Monotone(l + r, UpperOf(o, key)) && All(l, LowerOf(o, key)) && Asymmetric(o)
    ensures All(l, UpperOf(o, key))
    ensures |r| == 0 || o.less(key, o.key(r[0])) ==> None(r, UpperOf(o, key))
  {
    if |r| > 0 { assert l + [] + r == l + r; MonotoneMiddle(l, [], r, UpperOf(o, key)); }
    forall i | 0 <= i < |l|
      ensures UpperOf(o, key)(l[i])
    {
      assert LowerOf(o, key)(l[i]);
    }
  }

  /** The three-way comparison tells the same as the order it comes from. */
  lemma CompareParts<K(!new), V>(a: Place<V>, o: Order<K, V>, key: K)
    requires a.pos <= |a.n.vals| && (!a.n.leaf ==> |a.n.kids| == |a.n.vals| + 1)
    requires Asymmetric(o)
    ensures Parts(a, Lower(CompareOf(o, key))) <==> Parts(a, LowerOf(o, key))
    ensures Parts(a, NotAbove(CompareOf(o, key))) <==> Parts(a, UpperOf(o, key))
  {
    CompareAll(PlaceLeft(a), o, key);
    CompareAll(PlaceRight(a), o, key);
  }

  lemma CompareAll<K(!new), V>(s: seq<V>, o: Order<K, V>, key: K)
    requires Asymmetric(o)
    ensures All(s, Lower(CompareOf(o, key))) <==> All(s, LowerOf(o, key))
    ensures None(s, Lower(CompareOf(o, key))) <==> None(s, LowerOf(o, key))
    ensures All(s, NotAbove(CompareOf(o, key))) <==> All(s, UpperOf(o, key))
    ensures None(s, NotAbove(CompareOf(o, key))) <==> None(s, UpperOf(o, key))
  {
    assert forall i :: 0 <= i < |s| ==> Lower(CompareOf(o, key))(s[i]) == LowerOf(o, key)(s[i]);
    assert forall i :: 0 <= i < |s| ==> NotAbove(CompareOf(o, key))(s[i]) == UpperOf(o, key)(s[i]);
  }

  lemma ValueAt<V>(r: Place<V>, h: nat, k: nat)
    requires PlaceOk(r, h, k) && r.pos < |r.n.vals|
    ensures |PlaceRight(r)| >= 1 && PlaceRight(r)[0] == r.n.vals[r.pos]
  {
    hide KidsOk, InOrder;
    FirstRight(r.n, r.pos);
  }

  lemma EmptyInv<V>()
    ensures ZipInv(EmptyNode<V>(), Top, 0, 1)
  {
    forall x: nat
      ensures ZipOccurs(EmptyNode<V>(), Top, x) == if x == 0 then 1 else 0
    {
      assert KidsOccur(EmptyNode<V>().kids, x) == 0;
    }
  }
}

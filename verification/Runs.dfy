/**
 Whole runs. Over any sequence of operations the hash table behaves as a set of
 elements with distinct keys, and the B-tree as a sorted sequence: every answer on
 the way and the contents at the end are those of the simple thing.
 */
module Runs {
  import opened Machine
  import opened ControlBytes
  import opened Capacity
  import opened TableSpec
  import opened HashTable
  import S = BTreeSearch
  import B = BTree

  // ----- The hash table as a set

  datatype Op<K, T> = Insert(elem: T) | Erase(key: K) | Find(key: K) | Clear | Rehash(n: size_t) | Copy

  /** The set after an operation. */
  ghost function After<K, T>(s: set<T>, op: Op<K, T>, pol: Policy<K, T>): set<T> {
    match op
    case Insert(e) => if HasKey(s, pol, pol.key(e)) then s else s + {e}
    case Erase(key) => set e | e in s && !pol.eq(pol.key(e), key)
    case Clear => {}
    case Find(_) => s
    case Rehash(_) => s
    case Copy => s
  }

  /** What the operation answers: whether something was inserted, erased or found. */
  ghost predicate Answer<K, T>(s: set<T>, op: Op<K, T>, pol: Policy<K, T>) {
    match op
    case Insert(e) => !HasKey(s, pol, pol.key(e))
    case Erase(key) => HasKey(s, pol, key)
    case Find(key) => HasKey(s, pol, key)
    case Clear => true
    case Rehash(_) => true
    case Copy => true
  }

  ghost function SetAfter<K, T>(s: set<T>, ops: seq<Op<K, T>>, pol: Policy<K, T>): set<T> {
    if |ops| == 0 then s else After(SetAfter(s, ops[..|ops| - 1], pol), ops[|ops| - 1], pol)
  }

  ghost predicate Answered<K, T>(s: set<T>, ops: seq<Op<K, T>>, pol: Policy<K, T>, answers: seq<bool>) {
    |answers| == |ops| && forall i :: 0 <= i < |ops| ==> answers[i] == Answer(SetAfter(s, ops[..i], pol), ops[i], pol)
  }

  method CopyOf<K(!new), T>(t: RawHashSet<K, T>) returns (u: RawHashSet<K, T>)
    requires t.Valid()
    ensures fresh(u) && fresh(u.ctrl) && fresh(u.slots) && u.Valid()
    ensures u.w == t.w && u.pol == t.pol && u.size == t.size && u.capacity == t.capacity && u.Elements() == t.Elements()
  {
    u := new RawHashSet.Copy(t);
  }

  function Max(a: nat, b: nat): nat { if a < b then b else a }

  /** How many slots an operation may make the table grow to: five for each element, or
      twice as many as a `rehash` asks for. */
  ghost function Demand<K, T>(s: set<T>, op: Op<K, T>, pol: Policy<K, T>): nat {
    Max(5 * |After(s, op, pol)|, if op.Rehash? then 2 * op.n else 0)
  }

  ghost function LargestDemand<K, T>(s: set<T>, ops: seq<Op<K, T>>, pol: Policy<K, T>): nat {
    if |ops| == 0 then 0
    else
      var before := ops[..|ops| - 1];
      Max(LargestDemand(s, before, pol), Demand(SetAfter(s, before, pol), ops[|ops| - 1], pol))
  }

  lemma RehashDemand(n: nat, size: nat, before: nat, after: nat)
    requires if n > 0 then GrownTo(n, before, after) else if size == 0 then after == 0 else IsNormalized(size, after)
    ensures after <= before || after <= Max(5 * size, 2 * n)
  {
    if n > 0 {
      var m: nat :| IsNormalized(n, m) && after == if m > before then m else before;
      NormalizedBelowTwice(n, m);
    } else if size > 0 {
      NormalizedBelowTwice(size, after);
    }
  }

  /** One operation; the run goes on with the table u, which is a new one after a copy. */
  method RunOne<K(!new), T>(t: RawHashSet<K, T>, op: Op<K, T>) returns (u: RawHashSet<K, T>, answer: bool)
    requires t.Valid() && t.size < TWO_TO_64 && (op.Rehash? ==> RehashAccounts(op.n, t.size, t.w))
    modifies t, t.ctrl, t.slots
    ensures u.Valid() && u.w == t.w && u.pol == t.pol && u.size <= old(t.size) + 1
    ensures u.Elements() == After(old(t.Elements()), op, t.pol) && answer == Answer(old(t.Elements()), op, t.pol)
    ensures u.capacity <= Max(old(t.capacity), Demand(old(t.Elements()), op, t.pol))
    ensures u == t || fresh(u)
    ensures (u == t && u.ctrl == old(t.ctrl) && u.slots == old(t.slots)) || (fresh(u.ctrl) && fresh(u.slots))
  {
    assert IsWidth(t.w);
    hide Stored, Accounted, Lawful, Exhausted, RehashAccounts;
    u := t;
    match op
    case Insert(e) =>
      GrowthIsBounded(t.capacity, t.size, t.w);
      var inserted, index := t.Insert(e);
      t.SizeIsCardinality();
      answer := inserted;
    case Erase(key) =>
      var n := t.Erase(key);
      answer := n == 1;
    case Find(key) =>
      var found, offset := t.FindImpl(key, t.pol.hash(key));
      answer := found;
    case Clear =>
      t.Clear();
      answer := true;
    case Rehash(n) =>
      t.Rehash(n);
      RehashDemand(n, t.size, old(t.capacity), t.capacity);
      t.SizeIsCardinality();
      answer := true;
    case Copy =>
      u := CopyOf(t);
      answer := true;
  }

  /** Whenever there is a `rehash`, the elements are not too many for it. */
  ghost predicate KeepsAccounts<K, T>(s: set<T>, ops: seq<Op<K, T>>, pol: Policy<K, T>, w: nat) {
    forall i :: 0 <= i < |ops| && ops[i].Rehash? ==> RehashAccounts(ops[i].n, |SetAfter(s, ops[..i], pol)|, w)
  }

  /** Every run of the table is a run of the set. The table never grows beyond five slots for
      each of the most elements it had, or twice what it was asked for. */
  method RunTable<K(!new), T>(t: RawHashSet<K, T>, ops: seq<Op<K, T>>) returns (u: RawHashSet<K, T>, answers: seq<bool>)
    requires t.Valid() && t.size + |ops| < TWO_TO_64
    requires KeepsAccounts(t.Elements(), ops, t.pol, t.w)
    modifies t, t.ctrl, t.slots
    ensures u.Valid() && u.Elements() == SetAfter(old(t.Elements()), ops, t.pol)
    ensures Answered(old(t.Elements()), ops, t.pol, answers)
    ensures u.capacity <= Max(old(t.capacity), LargestDemand(old(t.Elements()), ops, t.pol))
  {
    hide After, Answer, Demand, RehashAccounts, Stored, Accounted, Lawful;
    u, answers := t, [];
    ghost var s := t.Elements();
    for i := 0 to |ops|
      invariant u.Valid() && u.w == t.w && u.pol == t.pol && u.size <= old(t.size) + i
      invariant u.Elements() == SetAfter(s, ops[..i], t.pol) && Answered(s, ops[..i], t.pol, answers)
      invariant u.capacity <= Max(old(t.capacity), LargestDemand(s, ops[..i], t.pol))
      invariant u == t || fresh(u)
      invariant (u == t && u.ctrl == old(t.ctrl) && u.slots == old(t.slots)) || (fresh(u.ctrl) && fresh(u.slots))
    {
      u.SizeIsCardinality();
      var answer;
      u, answer := RunOne(u, ops[i]);
      OneMore(s, ops, i, t.pol, answers, answer);
      answers := answers + [answer];
    }
    assert ops[..|ops|] == ops;
  }

  lemma OneMore<K, T>(s: set<T>, ops: seq<Op<K, T>>, i: nat, pol: Policy<K, T>, answers: seq<bool>, answer: bool)
    requires i < |ops| && Answered(s, ops[..i], pol, answers) && answer == Answer(SetAfter(s, ops[..i], pol), ops[i], pol)
    ensures Answered(s, ops[..i + 1], pol, answers + [answer])
    ensures SetAfter(s, ops[..i + 1], pol) == After(SetAfter(s, ops[..i], pol), ops[i], pol)
    ensures LargestDemand(s, ops[..i + 1], pol) == Max(LargestDemand(s, ops[..i], pol), Demand(SetAfter(s, ops[..i], pol), ops[i], pol))
  {
    assert ops[..i + 1][..i] == ops[..i];
    forall j | 0 <= j < i + 1
      ensures (answers + [answer])[j] == Answer(SetAfter(s, ops[..i + 1][..j], pol), ops[..i + 1][j], pol)
    {
      assert ops[..i + 1][..j] == ops[..j];
      if j < i { assert ops[..i][..j] == ops[..j]; }
    }
  }

  // ----- The B-tree as a sorted sequence

  datatype TreeOp<K, V> = Add(value: V) | Remove(key: K) | Look(key: K)

  ghost predicate Present<K, V>(s: seq<V>, o: B.Order<K, V>, key: K) {
    exists i :: 0 <= i < |s| && B.Equal(o, s[i], key)
  }

  function First<K, V>(s: seq<V>, o: B.Order<K, V>, key: K): nat { S.Scan(s, B.LowerOf(o, key)) }

  function Behind<K, V>(s: seq<V>, o: B.Order<K, V>, key: K): nat { S.Scan(s, B.UpperOf(o, key)) }

  function PutAt<V>(s: seq<V>, i: nat, v: V): seq<V>
    requires i <= |s|
  {
    s[..i] + [v] + s[i..]
  }

  function TakeAt<V>(s: seq<V>, i: nat): seq<V>
    requires i < |s|
  {
    s[..i] + s[i + 1..]
  }

  /** The sequence after an operation, by linear scans. A value goes in unless its key is
      there, or behind all values with its key if keys repeat. The first value with the key
      goes out. */
  ghost function SeqAfter<K, V>(s: seq<V>, op: TreeOp<K, V>, o: B.Order<K, V>, multi: bool): seq<V> {
    match op
    case Add(v) =>
      if multi then PutAt(s, Behind(s, o, o.key(v)), v)
      else if Present(s, o, o.key(v)) then s else PutAt(s, First(s, o, o.key(v)), v)
    case Remove(key) => if Present(s, o, key) && First(s, o, key) < |s| then TakeAt(s, First(s, o, key)) else s
    case _ => s
  }

  ghost predicate TreeAnswer<K, V>(s: seq<V>, op: TreeOp<K, V>, o: B.Order<K, V>, multi: bool) {
    match op
    case Add(v) => multi || !Present(s, o, o.key(v))
    case Remove(key) => Present(s, o, key)
    case Look(key) => Present(s, o, key)
  }

  ghost function SeqAfterAll<K, V>(s: seq<V>, ops: seq<TreeOp<K, V>>, o: B.Order<K, V>, multi: bool): seq<V> {
    if |ops| == 0 then s else SeqAfter(SeqAfterAll(s, ops[..|ops| - 1], o, multi), ops[|ops| - 1], o, multi)
  }

  ghost predicate TreeAnswered<K, V>(s: seq<V>, ops: seq<TreeOp<K, V>>, o: B.Order<K, V>, multi: bool, answers: seq<bool>) {
    |answers| == |ops| && forall i :: 0 <= i < |ops| ==> answers[i] == TreeAnswer(SeqAfterAll(s, ops[..i], o, multi), ops[i], o, multi)
  }

  method AddOne<K(!new), V>(t: B.BTree<K, V>, v: V) returns (added: bool)
    requires t.Valid()
    modifies t
    ensures t.Valid()
    ensures t.Contents() == SeqAfter(old(t.Contents()), Add(v), t.order, t.multi)
    ensures added == TreeAnswer(old(t.Contents()), Add(v), t.order, t.multi)
  {
    if t.multi {
      var r := t.InsertMulti(v);
      added := true;
    } else {
      var r, inserted, h := t.InsertUnique(v);
      added := inserted;
    }
  }

  method RunOneOnTree<K(!new), V>(t: B.BTree<K, V>, op: TreeOp<K, V>) returns (answer: bool)
    requires t.Valid()
    modifies t
    ensures t.Valid()
    ensures t.Contents() == SeqAfter(old(t.Contents()), op, t.order, t.multi)
    ensures answer == TreeAnswer(old(t.Contents()), op, t.order, t.multi)
  {
    match op
    case Add(v) =>
      var added := AddOne(t, v);
      answer := added;
    case Remove(key) =>
      var removed := t.EraseFirst(key);
      answer := removed;
    case Look(key) =>
      var found, r, h := t.Find(key);
      answer := found;
  }

  /** Every run of a tree, with or without repeated keys, is a run of the sorted sequence. */
  method RunTree<K(!new), V>(t: B.BTree<K, V>, ops: seq<TreeOp<K, V>>) returns (answers: seq<bool>)
    requires t.Valid()
    modifies t
    ensures t.Valid() && t.Contents() == SeqAfterAll(old(t.Contents()), ops, t.order, t.multi)
    ensures TreeAnswered(old(t.Contents()), ops, t.order, t.multi, answers)
  {
    answers := [];
    ghost var s := t.Contents();
    for i := 0 to |ops|
      invariant t.Valid() && t.Contents() == SeqAfterAll(s, ops[..i], t.order, t.multi) && TreeAnswered(s, ops[..i], t.order, t.multi, answers)
    {
      var answer := RunOneOnTree(t, ops[i]);
      OneMoreOnTree(s, ops, i, t.order, t.multi, answers, answer);
      answers := answers + [answer];
    }
    assert ops[..|ops|] == ops;
  }

  lemma OneMoreOnTree<K, V>(s: seq<V>, ops: seq<TreeOp<K, V>>, i: nat, o: B.Order<K, V>, multi: bool, answers: seq<bool>, answer: bool)
    requires i < |ops| && TreeAnswered(s, ops[..i], o, multi, answers) && answer == TreeAnswer(SeqAfterAll(s, ops[..i], o, multi), ops[i], o, multi)
    ensures TreeAnswered(s, ops[..i + 1], o, multi, answers + [answer])
    ensures SeqAfterAll(s, ops[..i + 1], o, multi) == SeqAfter(SeqAfterAll(s, ops[..i], o, multi), ops[i], o, multi)
  {
    assert ops[..i + 1][..i] == ops[..i];
    forall j | 0 <= j < i + 1
      ensures (answers + [answer])[j] == TreeAnswer(SeqAfterAll(s, ops[..i + 1][..j], o, multi), ops[..i + 1][j], o, multi)
    {
      assert ops[..i + 1][..j] == ops[..j];
      if j < i { assert ops[..i][..j] == ops[..j]; }
    }
  }
}

/**
 * The tree that is reachable from a TreeMap's root, seen as a value.
 *
 * A Shape records, for every reachable node, the identity of the node object
 * and the key and value it holds. Everything here is pure: the mutable node
 * store lives in module Arena, and Arena.Linked ties a store to a Shape.
 * The functions below say what a search tree of this shape contains and how
 * insertion and the two ways of deleting a node reshape it.
 */
module Shapes {
  /** The identity of a node object (an index into the node store). */
  type Id = nat

  datatype Shape<V> = Empty | Fork(left: Shape<V>, id: Id, key: int, value: V, right: Shape<V>)

  ghost function Keys<V>(s: Shape<V>): set<int>
  {
    match s
    case Empty => {}
    case Fork(l, _, k, _, r) => Keys(l) + {k} + Keys(r)
  }

  ghost function Ids<V>(s: Shape<V>): set<Id>
  {
    match s
    case Empty => {}
    case Fork(l, id, _, _, r) => Ids(l) + {id} + Ids(r)
  }

  ghost function Vals<V>(s: Shape<V>): set<V>
  {
    match s
    case Empty => {}
    case Fork(l, _, _, v, r) => Vals(l) + {v} + Vals(r)
  }

  /** The number of nodes: what a full traversal would count. */
  ghost function Count<V>(s: Shape<V>): nat
  {
    match s
    case Empty => 0
    case Fork(l, _, _, _, r) => Count(l) + 1 + Count(r)
  }

  /** The value stored under `x`, looking left first. */
  ghost function Find<V>(s: Shape<V>, x: int): V
    requires x in Keys(s)
  {
    var Fork(l, _, k, v, r) := s;
    if x in Keys(l) then Find(l, x) else if x == k then v else Find(r, x)
  }

  /** The key-to-value mapping the tree stores. */
  ghost function Entries<V>(s: Shape<V>): (m: map<int, V>)
    ensures m.Keys == Keys(s)
  {
    map x | x in Keys(s) :: Find(s, x)
  }

  /** Binary-search-tree order: smaller keys to the left, greater keys to the right, no key twice. */
  ghost predicate Ordered<V>(s: Shape<V>)
  {
    match s
    case Empty => true
    case Fork(l, _, k, _, r) =>
      && (forall x | x in Keys(l) :: x < k)
      && (forall x | x in Keys(r) :: k < x)
      && Ordered(l)
      && Ordered(r)
  }

  ghost predicate IsSubMap<V>(a: map<int, V>, b: map<int, V>)
  {
    forall x | x in a :: x in b && a[x] == b[x]
  }

  /** The subtree whose root holds key `k`, found by descending by key; Empty when `k` is absent. */
  ghost function Sub<V>(s: Shape<V>, k: int): Shape<V>
  {
    match s
    case Empty => Empty
    case Fork(l, _, kk, _, r) =>
      if k < kk then Sub(l, k) else if kk < k then Sub(r, k) else s
  }

  /** `s` with the subtree whose root holds key `k` replaced by `t`. */
  ghost function Graft<V>(s: Shape<V>, k: int, t: Shape<V>): Shape<V>
  {
    match s
    case Empty => Empty
    case Fork(l, id, kk, v, r) =>
      if k < kk then Fork(Graft(l, k, t), id, kk, v, r)
      else if kk < k then Fork(l, id, kk, v, Graft(r, k, t))
      else t
  }

  /** The forks visited when descending from the root towards key `k`, root first. */
  ghost function Path<V>(s: Shape<V>, k: int): (p: seq<Shape<V>>)
    ensures forall i | 0 <= i < |p| :: p[i].Fork?
  {
    match s
    case Empty => []
    case Fork(l, _, kk, _, r) =>
      [s] + (if k < kk then Path(l, k) else if kk < k then Path(r, k) else [])
  }

  /** The fork reached by following left children from the root of `s`. */
  ghost function Leftmost<V>(s: Shape<V>): (m: Shape<V>)
    requires s.Fork?
    ensures m.Fork? && m.left.Empty?
  {
    if s.left.Empty? then s else Leftmost(s.left)
  }

  /** `s` without its leftmost fork, whose right subtree takes its place. */
  ghost function DeleteMin<V>(s: Shape<V>): Shape<V>
    requires s.Fork?
  {
    var m := Leftmost(s);
    Graft(s, m.key, m.right)
  }

  /** Where the new key goes: an existing key has its value overwritten, a new key hangs as a leaf. */
  ghost function Inserted<V>(s: Shape<V>, k: int, v: V, n: Id): Shape<V>
  {
    match s
    case Empty => Fork(Empty, n, k, v, Empty)
    case Fork(l, id, kk, vv, r) =>
      if k == kk then Fork(l, id, kk, v, r)
      else if k < kk then Fork(Inserted(l, k, v, n), id, kk, vv, r)
      else Fork(l, id, kk, vv, Inserted(r, k, v, n))
  }

  /**
   * What takes the place of fork `t` when its root is deleted as the Java
   * removeNode is written: the single child, or, for two children, the
   * leftmost fork of the right subtree carrying the old left subtree and
   * keeping only its own right subtree.
   */
  ghost function RemovedAt<V>(t: Shape<V>): Shape<V>
    requires t.Fork?
  {
    if t.left.Empty? then t.right
    else if t.right.Empty? then t.left
    else
      var m := Leftmost(t.right);
      Fork(t.left, m.id, m.key, m.value, m.right)
  }

  /** The intended replacement: the successor is unlinked from the right subtree before it takes the root's place. */
  ghost function SplicedAt<V>(t: Shape<V>): Shape<V>
    requires t.Fork?
  {
    if t.left.Empty? then t.right
    else if t.right.Empty? then t.left
    else
      var m := Leftmost(t.right);
      Fork(t.left, m.id, m.key, m.value, DeleteMin(t.right))
  }

  /** Deleting the root of `t` as written loses no key: fewer than two children, or the successor is the right child itself. */
  ghost predicate SafeRemoval<V>(t: Shape<V>)
    requires t.Fork?
  {
    t.left.Empty? || t.right.Empty? || t.right.left.Empty?
  }

  ghost function RemoveAsWritten<V>(s: Shape<V>, k: int): Shape<V>
    requires Sub(s, k).Fork?
  {
    Graft(s, k, RemovedAt(Sub(s, k)))
  }

  ghost function RemoveSpliced<V>(s: Shape<V>, k: int): Shape<V>
    requires Sub(s, k).Fork?
  {
    Graft(s, k, SplicedAt(Sub(s, k)))
  }

  // ---------------------------------------------------------------------------
  // Size and lookup
  // ---------------------------------------------------------------------------

  /** With distinct keys, the node count is the number of keys. */
  lemma {:induction false} KeysCount<V>(s: Shape<V>)
    requires Ordered(s)
    ensures |Keys(s)| == Count(s)
  {
    match s
    case Empty =>
    case Fork(l, _, k, _, r) =>
      KeysCount(l);
      KeysCount(r);
      forall x | x in Keys(r)
        ensures x !in Keys(l) + {k}
      {
        assert k < x;
      }
      assert (Keys(l) + {k}) !! Keys(r);
  }

  /** No node, no entry. */
  lemma EmptyEntries<V>(s: Shape<V>)
    ensures Count(s) == 0 <==> s == Empty
    ensures Entries(s) == map[] <==> s == Empty
  {
    if s.Fork? {
      assert s.key in Entries(s);
    }
  }

  /** In an ordered fork, the lookup goes left, stops, or goes right by comparing keys. */
  lemma FindFork<V>(s: Shape<V>, x: int)
    requires s.Fork? && Ordered(s) && x in Keys(s)
    ensures x < s.key ==> x in Keys(s.left) && Find(s, x) == Find(s.left, x)
    ensures x == s.key ==> Find(s, x) == s.value
    ensures s.key < x ==> x in Keys(s.right) && Find(s, x) == Find(s.right, x)
  {
    if x == s.key {
      assert x !in Keys(s.left);
    } else if s.key < x {
      assert x !in Keys(s.left);
    }
  }

  /** Lookup at a fork of an ordered tree, for any key: equal, smaller or greater than the fork's. */
  lemma ForkLookup<V>(s: Shape<V>, x: int)
    requires s.Fork? && Ordered(s)
    ensures x == s.key ==> x in Keys(s) && Find(s, x) == s.value
    ensures x < s.key ==> (x in Keys(s) <==> x in Keys(s.left))
    ensures x < s.key && x in Keys(s) ==> Find(s, x) == Find(s.left, x)
    ensures s.key < x ==> (x in Keys(s) <==> x in Keys(s.right))
    ensures s.key < x && x in Keys(s) ==> Find(s, x) == Find(s.right, x)
  {
    if x in Keys(s) {
      FindFork(s, x);
    }
  }

  /** Descending by key finds the fork holding `k` exactly when `k` is stored, and that fork holds its value. */
  lemma {:induction false} SubLemma<V>(s: Shape<V>, k: int)
    requires Ordered(s)
    ensures Ordered(Sub(s, k))
    ensures Sub(s, k).Fork? <==> k in Keys(s)
    ensures Sub(s, k).Fork? ==> Sub(s, k).key == k && Find(s, k) == Sub(s, k).value
    ensures Keys(Sub(s, k)) <= Keys(s) && Ids(Sub(s, k)) <= Ids(s)
    ensures forall x | x in Keys(Sub(s, k)) :: Find(Sub(s, k), x) == Find(s, x)
  {
    match s
    case Empty =>
    case Fork(l, _, kk, _, r) =>
      SubLemma(l, k);
      SubLemma(r, k);
      forall x | x in Keys(Sub(s, k))
        ensures Find(Sub(s, k), x) == Find(s, x)
      {
        FindFork(s, x);
      }
      if k in Keys(s) {
        FindFork(s, k);
      }
  }

  /** Every fork on the descent towards `k` contains `k`, and each is the child of the one before on the side of `k`. */
  lemma {:induction false} PathLemma<V>(s: Shape<V>, k: int)
    requires Ordered(s) && k in Keys(s)
    ensures var p := Path(s, k);
      |p| >= 1 && p[0] == s && p[|p| - 1] == Sub(s, k)
  {
    if k != s.key {
      var c := if k < s.key then s.left else s.right;
      assert Ordered(c) && k in Keys(c);
      PathLemma(c, k);
      PathStep(s, k);
    }
  }

  // ---------------------------------------------------------------------------
  // Leftmost fork (Java: minimum)
  // ---------------------------------------------------------------------------

  /** The leftmost fork holds the smallest key, and it is the fork found by descending to that key. */
  lemma {:induction false} LeftmostLemma<V>(s: Shape<V>)
    requires s.Fork? && Ordered(s)
    ensures Leftmost(s).key in Keys(s) && Leftmost(s).id in Ids(s)
    ensures forall x | x in Keys(s) :: Leftmost(s).key <= x
    ensures Sub(s, Leftmost(s).key) == Leftmost(s)
    ensures s.left.Fork? ==> Leftmost(s).key < s.key && Leftmost(s) == Leftmost(s.left)
    ensures s.left.Fork? ==> Leftmost(s).id in Ids(s.left)
  {
    if s.left.Fork? {
      LeftmostLemma(s.left);
    }
  }

  /** A stored key no greater than every other key sits at a fork without a left child. */
  lemma {:induction false} MinimumHasNoLeft<V>(s: Shape<V>, k: int)
    requires Ordered(s) && k in Keys(s)
    requires forall x | x in Keys(s) :: k <= x
    ensures Sub(s, k).Fork? && Sub(s, k).left.Empty?
  {
    var Fork(l, _, kk, _, r) := s;
    if k < kk {
      MinimumHasNoLeft(l, k);
    }
  }

  // ---------------------------------------------------------------------------
  // Grafting a replacement subtree
  // ---------------------------------------------------------------------------

  /**
   * Replacing the subtree at key `k` by an ordered tree over some of its keys
   * keeps the order, swaps that subtree's entries for the replacement's and
   * keeps every node outside it.
   */
  lemma GraftLemma<V>(s: Shape<V>, k: int, t: Shape<V>)
    requires Ordered(s) && k in Keys(s) && Ordered(t)
    requires Keys(t) <= Keys(Sub(s, k))
    ensures Ordered(Graft(s, k, t))
    ensures Keys(Graft(s, k, t)) == (Keys(s) - Keys(Sub(s, k))) + Keys(t)
    ensures forall x | x in Keys(Graft(s, k, t)) ::
      Find(Graft(s, k, t), x) == if x in Keys(t) then Find(t, x) else Find(s, x)
    ensures Count(Graft(s, k, t)) + Count(Sub(s, k)) == Count(s) + Count(t)
    ensures (Ids(s) - Ids(Sub(s, k))) + Ids(t) <= Ids(Graft(s, k, t)) <= Ids(s) + Ids(t)
  {
    GraftKeys(s, k, t);
    GraftFind(s, k, t);
    GraftCount(s, k, t);
  }

  lemma GraftKeys<V>(s: Shape<V>, k: int, t: Shape<V>)
    requires Ordered(s) && k in Keys(s) && Ordered(t)
    requires Keys(t) <= Keys(Sub(s, k))
    ensures Ordered(Graft(s, k, t))
    ensures Keys(Graft(s, k, t)) == (Keys(s) - Keys(Sub(s, k))) + Keys(t)
  {
    GraftKeySet(s, k, t);
    GraftOrdered(s, k, t);
  }

  lemma {:induction false} GraftKeySet<V>(s: Shape<V>, k: int, t: Shape<V>)
    requires Ordered(s) && k in Keys(s)
    ensures Keys(Graft(s, k, t)) == (Keys(s) - Keys(Sub(s, k))) + Keys(t)
  {
    if k != s.key {
      var c := if k < s.key then s.left else s.right;
      assert k in Keys(c) && Ordered(c);
      GraftKeySet(c, k, t);
      GraftKeyStep(s, k, t);
    }
  }

  /** One level of GraftKeySet: the fork above the descent keeps its key and its other subtree. */
  lemma GraftKeyStep<V>(s: Shape<V>, k: int, t: Shape<V>)
    requires Ordered(s) && s.Fork? && k in Keys(s) && k != s.key
    requires var c := if k < s.key then s.left else s.right;
      Keys(Graft(c, k, t)) == (Keys(c) - Keys(Sub(c, k))) + Keys(t)
    ensures Keys(Graft(s, k, t)) == (Keys(s) - Keys(Sub(s, k))) + Keys(t)
  {
    var c := if k < s.key then s.left else s.right;
    var o := if k < s.key then s.right else s.left;
    var sub := Sub(s, k);
    assert Keys(s) - Keys(sub) == (Keys(c) - Keys(sub)) + {s.key} + Keys(o) by {
      SubLemma(c, k);
      assert sub == Sub(c, k) && Keys(sub) <= Keys(c);
      forall x | x in Keys(sub)
        ensures x != s.key && x !in Keys(o)
      {
        assert x in Keys(c);
      }
    }
    assert Keys(Graft(s, k, t)) == Keys(Graft(c, k, t)) + {s.key} + Keys(o);
  }

  lemma {:induction false} GraftOrdered<V>(s: Shape<V>, k: int, t: Shape<V>)
    requires Ordered(s) && k in Keys(s) && Ordered(t)
    requires Keys(t) <= Keys(Sub(s, k))
    ensures Ordered(Graft(s, k, t))
    ensures Keys(Graft(s, k, t)) <= Keys(s)
  {
    var Fork(l, id, kk, v, r) := s;
    SubLemma(s, k);
    if k < kk {
      SubLemma(l, k);
      GraftOrdered(l, k, t);
    } else if kk < k {
      SubLemma(r, k);
      GraftOrdered(r, k, t);
    }
  }

  lemma {:induction false} GraftFind<V>(s: Shape<V>, k: int, t: Shape<V>)
    requires Ordered(s) && k in Keys(s) && Ordered(t)
    requires Keys(t) <= Keys(Sub(s, k))
    ensures Keys(Graft(s, k, t)) == (Keys(s) - Keys(Sub(s, k))) + Keys(t)
    ensures forall x | x in Keys(Graft(s, k, t)) ::
      Find(Graft(s, k, t), x) == if x in Keys(t) then Find(t, x) else Find(s, x)
  {
    var Fork(l, id, kk, v, r) := s;
    var g := Graft(s, k, t);
    GraftKeys(s, k, t);
    if k < kk {
      SubLemma(l, k);
      GraftKeys(l, k, t);
      GraftFind(l, k, t);
      forall x | x in Keys(g)
        ensures Find(g, x) == if x in Keys(t) then Find(t, x) else Find(s, x)
      {
        FindFork(g, x);
        FindFork(s, x);
      }
    } else if kk < k {
      SubLemma(r, k);
      GraftKeys(r, k, t);
      GraftFind(r, k, t);
      forall x | x in Keys(g)
        ensures Find(g, x) == if x in Keys(t) then Find(t, x) else Find(s, x)
      {
        FindFork(g, x);
        FindFork(s, x);
      }
    }
  }

  lemma {:induction false} GraftCount<V>(s: Shape<V>, k: int, t: Shape<V>)
    requires Ordered(s) && k in Keys(s)
    ensures Count(Graft(s, k, t)) + Count(Sub(s, k)) == Count(s) + Count(t)
    ensures (Ids(s) - Ids(Sub(s, k))) + Ids(t) <= Ids(Graft(s, k, t)) <= Ids(s) + Ids(t)
  {
    var Fork(l, id, kk, v, r) := s;
    if k < kk {
      SubLemma(l, k);
      GraftCount(l, k, t);
    } else if kk < k {
      SubLemma(r, k);
      GraftCount(r, k, t);
    }
  }

  // ---------------------------------------------------------------------------
  // Insertion (Java: putNode)
  // ---------------------------------------------------------------------------

  /** Inserting overwrites or adds exactly one entry, keeps the order, and adds a node only for a new key. */
  lemma {:induction false} InsertedLemma<V>(s: Shape<V>, k: int, v: V, n: Id)
    requires Ordered(s)
    ensures Ordered(Inserted(s, k, v, n))
    ensures Keys(Inserted(s, k, v, n)) == Keys(s) + {k}
    ensures forall x | x in Keys(Inserted(s, k, v, n)) ::
      Find(Inserted(s, k, v, n), x) == if x == k then v else Find(s, x)
    ensures Count(Inserted(s, k, v, n)) == Count(s) + (if k in Keys(s) then 0 else 1)
    ensures Ids(Inserted(s, k, v, n)) <= Ids(s) + {n}
  {
    if s.Fork? && k != s.key {
      InsertedLemma(if k < s.key then s.left else s.right, k, v, n);
      InsertedBelow(s, k, v, n);
    } else if s.Fork? {
      InsertedHere(s, k, v, n);
    }
  }

  /** What InsertedLemma states about one tree. */
  ghost predicate InsertedWell<V>(s: Shape<V>, k: int, v: V, n: Id)
  {
    var g := Inserted(s, k, v, n);
    && Ordered(g)
    && Keys(g) == Keys(s) + {k}
    && (forall x | x in Keys(g) :: Find(g, x) == if x == k then v else Find(s, x))
    && Count(g) == Count(s) + (if k in Keys(s) then 0 else 1)
    && Ids(g) <= Ids(s) + {n}
  }

  /** The key is at the root: only the root's value changes. */
  lemma InsertedHere<V>(s: Shape<V>, k: int, v: V, n: Id)
    requires Ordered(s) && s.Fork? && k == s.key
    ensures InsertedWell(s, k, v, n)
  {
    var g := Inserted(s, k, v, n);
    forall x | x in Keys(g)
      ensures Find(g, x) == if x == k then v else Find(s, x)
    {
      FindFork(g, x);
      if x != k {
        FindFork(s, x);
      }
    }
  }

  /** The key descends into one subtree: given the facts for that subtree, they hold for the fork. */
  lemma InsertedBelow<V>(s: Shape<V>, k: int, v: V, n: Id)
    requires Ordered(s) && s.Fork? && k != s.key
    requires InsertedWell(if k < s.key then s.left else s.right, k, v, n)
    ensures InsertedWell(s, k, v, n)
  {
    var g := Inserted(s, k, v, n);
    forall x | x in Keys(g)
      ensures Find(g, x) == if x == k then v else Find(s, x)
    {
      FindFork(g, x);
      if x != k {
        FindFork(s, x);
      }
    }
  }

  lemma InsertedEntries<V>(s: Shape<V>, k: int, v: V, n: Id)
    requires Ordered(s)
    ensures Entries(Inserted(s, k, v, n)) == Entries(s)[k := v]
  {
    InsertedLemma(s, k, v, n);
  }

  // ---------------------------------------------------------------------------
  // Deletion (Java: removeNode), as intended and as written
  // ---------------------------------------------------------------------------

  /** Unlinking the leftmost fork removes exactly the smallest key and its node. */
  lemma DeleteMinLemma<V>(s: Shape<V>)
    requires s.Fork? && Ordered(s)
    ensures Ordered(DeleteMin(s))
    ensures Keys(DeleteMin(s)) == Keys(s) - {Leftmost(s).key}
    ensures forall x | x in Keys(DeleteMin(s)) :: Find(DeleteMin(s), x) == Find(s, x)
    ensures Count(DeleteMin(s)) == Count(s) - 1
    ensures Ids(s) - {Leftmost(s).id} <= Ids(DeleteMin(s)) <= Ids(s)
  {
    var m := Leftmost(s);
    LeftmostLemma(s);
    SubLemma(s, m.key);
    assert Keys(m) == {m.key} + Keys(m.right);
    assert Ids(m) == {m.id} + Ids(m.right);
    assert Ordered(m.right);
    forall x | x in Keys(m.right)
      ensures Find(m.right, x) == Find(s, x)
    {
      FindFork(m, x);
    }
    GraftLemma(s, m.key, m.right);
  }

  /**
   * The leftmost fork holds the smallest key; what hangs to its right holds
   * only greater keys of the tree, with the same values.
   */
  lemma {:induction false} LeftmostSplit<V>(s: Shape<V>)
    requires s.Fork? && Ordered(s)
    ensures var m := Leftmost(s);
      && m.key in Keys(s) && m.id in Ids(s) && Find(s, m.key) == m.value
      && Sub(s, m.key) == m
      && (forall x | x in Keys(s) && x != m.key :: m.key < x)
      && Ordered(m.right)
      && Keys(m.right) <= Keys(s) - {m.key} && Ids(m.right) <= Ids(s)
      && (forall x | x in Keys(m.right) :: Find(m.right, x) == Find(s, x))
      && Count(m.right) < Count(s)
      && (s.left.Fork? ==> s.key !in Keys(m.right) && Count(m.right) + 2 <= Count(s))
  {
    var Fork(l, _, k, _, r) := s;
    FindFork(s, k);
    if l.Fork? {
      LeftmostSplit(l);
      var m := Leftmost(l);
      forall x | x in Keys(m.right)
        ensures Find(m.right, x) == Find(s, x)
      {
        FindFork(s, x);
      }
      FindFork(s, m.key);
    } else {
      forall x | x in Keys(r)
        ensures Find(r, x) == Find(s, x)
      {
        FindFork(s, x);
      }
    }
  }

  /**
   * A fork that keeps `t`'s left subtree and takes, as its root, a key `mk`
   * of `t`'s right subtree with its value, above an ordered tree `d` of
   * greater keys from that right subtree, is ordered and agrees with `t`.
   */
  lemma Reroot<V>(t: Shape<V>, i: Id, mk: int, d: Shape<V>)
    requires t.Fork? && Ordered(t) && mk in Keys(t.right)
    requires Ordered(d) && Keys(d) <= Keys(t.right) - {mk}
    requires forall x | x in Keys(d) :: mk < x && Find(d, x) == Find(t.right, x)
    ensures var g := Fork(t.left, i, mk, Find(t.right, mk), d);
      && Ordered(g)
      && Keys(g) == Keys(t.left) + {mk} + Keys(d)
      && Keys(g) <= Keys(t) - {t.key}
      && (forall x | x in Keys(g) :: Find(g, x) == Find(t, x))
  {
    var Fork(l, _, k, _, r) := t;
    var g := Fork(l, i, mk, Find(r, mk), d);
    forall x | x in Keys(l)
      ensures x < mk
    {
      assert x < k && k < mk;
    }
    assert Ordered(g);
    forall x | x in Keys(g)
      ensures Find(g, x) == Find(t, x)
    {
      FindFork(g, x);
      if x < mk {
        FindFork(t, x);
      } else {
        assert k < x;
        FindFork(t, x);
      }
    }
  }

  /** The intended deletion of the root of `t` removes exactly its key and one node. */
  lemma SplicedAtLemma<V>(t: Shape<V>)
    requires t.Fork? && Ordered(t)
    ensures Ordered(SplicedAt(t))
    ensures Keys(SplicedAt(t)) == Keys(t) - {t.key}
    ensures forall x | x in Keys(SplicedAt(t)) :: Find(SplicedAt(t), x) == Find(t, x)
    ensures Count(SplicedAt(t)) == Count(t) - 1
    ensures Ids(t) - {t.id} <= Ids(SplicedAt(t)) <= Ids(t)
  {
    if t.left.Fork? && t.right.Fork? {
      SplicedAtTwo(t);
    } else {
      forall x | x in Keys(SplicedAt(t))
        ensures Find(SplicedAt(t), x) == Find(t, x)
      {
        FindFork(t, x);
      }
    }
  }

  /** With two children, the successor takes the root's place above the right subtree without it. */
  lemma SplicedAtTwo<V>(t: Shape<V>)
    requires t.Fork? && Ordered(t) && t.left.Fork? && t.right.Fork?
    ensures Ordered(SplicedAt(t))
    ensures Keys(SplicedAt(t)) == Keys(t) - {t.key}
    ensures forall x | x in Keys(SplicedAt(t)) :: Find(SplicedAt(t), x) == Find(t, x)
    ensures Count(SplicedAt(t)) == Count(t) - 1
    ensures Ids(t) - {t.id} <= Ids(SplicedAt(t)) <= Ids(t)
  {
    var Fork(l, id, k, v, r) := t;
    var m := Leftmost(r);
    var d := DeleteMin(r);
    assert m.key in Keys(r) && m.value == Find(r, m.key) && m.id in Ids(r)
      && (forall x | x in Keys(r) && x != m.key :: m.key < x) by {
      LeftmostSplit(r);
    }
    assert && Ordered(d) && Keys(d) == Keys(r) - {m.key} && Count(d) == Count(r) - 1
      && (forall x | x in Keys(d) :: Find(d, x) == Find(r, x))
      && Ids(r) - {m.id} <= Ids(d) <= Ids(r) by {
      DeleteMinLemma(r);
    }
    assert SplicedAt(t) == Fork(l, m.id, m.key, Find(r, m.key), d);
    Reroot(t, m.id, m.key, d);
    assert Keys(t) == Keys(l) + {k} + Keys(r);
  }

  /**
   * What the literal deletion leaves keeps the order and only entries of the
   * old tree, never the deleted key. It is the intended result exactly when
   * the deletion is safe; otherwise the right child's key is lost and more
   * than one node disappears.
   */
  lemma RemovedAtLemma<V>(t: Shape<V>)
    requires t.Fork? && Ordered(t)
    ensures Ordered(RemovedAt(t))
    ensures Keys(RemovedAt(t)) <= Keys(t) - {t.key}
    ensures forall x | x in Keys(RemovedAt(t)) :: Find(RemovedAt(t), x) == Find(t, x)
    ensures Ids(RemovedAt(t)) <= Ids(t)
    ensures SafeRemoval(t) ==> RemovedAt(t) == SplicedAt(t)
    ensures !SafeRemoval(t) ==> t.right.key in Keys(t) && t.right.key !in Keys(RemovedAt(t))
    ensures !SafeRemoval(t) ==> Count(RemovedAt(t)) < Count(t) - 1
  {
    var Fork(l, id, k, v, r) := t;
    if l.Fork? && r.Fork? {
      var m := Leftmost(r);
      LeftmostSplit(r);
      assert RemovedAt(t) == Fork(l, m.id, m.key, Find(r, m.key), m.right);
      Reroot(t, m.id, m.key, m.right);
      if r.left.Empty? {
        assert DeleteMin(r) == r.right;
      }
    } else {
      forall x | x in Keys(RemovedAt(t))
        ensures Find(RemovedAt(t), x) == Find(t, x)
      {
        FindFork(t, x);
      }
    }
  }

  /** Deleting a stored key as intended leaves exactly the other entries, one node fewer. */
  lemma RemoveSplicedLemma<V>(s: Shape<V>, k: int)
    requires Ordered(s) && k in Keys(s)
    ensures Sub(s, k).Fork?
    ensures Ordered(RemoveSpliced(s, k))
    ensures Entries(RemoveSpliced(s, k)) == Entries(s) - {k}
    ensures Count(RemoveSpliced(s, k)) == Count(s) - 1
    ensures Ids(s) - {Sub(s, k).id} <= Ids(RemoveSpliced(s, k)) <= Ids(s)
  {
    SubLemma(s, k);
    var t := Sub(s, k);
    SplicedAtLemma(t);
    GraftLemma(s, k, SplicedAt(t));
    assert Keys(t) == Keys(t.left) + {k} + Keys(t.right);
    var g := RemoveSpliced(s, k);
    assert Keys(g) == Keys(s) - {k};
    EntriesRemove(s, g, k);
  }

  /** A tree holding the keys of `s` but `k`, each with the same value, stands for the map of `s` without `k`. */
  lemma EntriesRemove<V>(s: Shape<V>, g: Shape<V>, k: int)
    requires Keys(g) == Keys(s) - {k}
    requires forall x | x in Keys(g) :: Find(g, x) == Find(s, x)
    ensures Entries(g) == Entries(s) - {k}
  {
  }

  /**
   * Deleting a stored key as written keeps the order and drops that key; it
   * agrees with the intended deletion exactly when the deletion is safe, and
   * otherwise loses another key too.
   */
  lemma RemoveAsWrittenLemma<V>(s: Shape<V>, k: int)
    requires Ordered(s) && k in Keys(s)
    ensures Sub(s, k).Fork?
    ensures Ordered(RemoveAsWritten(s, k))
    ensures k !in Keys(RemoveAsWritten(s, k))
    ensures IsSubMap(Entries(RemoveAsWritten(s, k)), Entries(s))
    ensures SafeRemoval(Sub(s, k)) ==> RemoveAsWritten(s, k) == RemoveSpliced(s, k)
    ensures !SafeRemoval(Sub(s, k)) ==>
      Sub(s, k).right.key in Keys(s) && Sub(s, k).right.key !in Keys(RemoveAsWritten(s, k))
    ensures !SafeRemoval(Sub(s, k)) ==> Count(RemoveAsWritten(s, k)) < Count(s) - 1
    ensures !SafeRemoval(Sub(s, k)) ==> |Entries(RemoveAsWritten(s, k))| < Count(s) - 1
  {
    SubLemma(s, k);
    var t := Sub(s, k);
    RemovedAtLemma(t);
    GraftLemma(s, k, RemovedAt(t));
    assert Keys(t) == Keys(t.left) + {k} + Keys(t.right);
    GraftOrdered(s, k, RemovedAt(t));
    KeysCount(RemoveAsWritten(s, k));
  }

  // ---------------------------------------------------------------------------
  // In-order successor (Java: TreeMapIterator.nextNode)
  // ---------------------------------------------------------------------------

  /** A key reached only through right turns, at a fork without a right child, is the largest key. */
  lemma {:induction false} RightSpineMaximum<V>(s: Shape<V>, k: int)
    requires Ordered(s) && k in Keys(s) && Sub(s, k).Fork?
    requires Sub(s, k).right.Empty?
    requires forall i | 0 <= i < |Path(s, k)| - 1 :: Path(s, k)[i].key < k
    ensures forall x | x in Keys(s) :: x <= k
  {
    var Fork(l, _, kk, _, r) := s;
    assert Path(s, k)[0] == s;
    if kk < k {
      PathStep(s, k);
      RightSpineMaximum(r, k);
    } else if k < kk {
      assert false;
    }
  }

  /**
   * For a fork without a right child, the successor is the nearest ancestor
   * entered through its left child: no stored key lies strictly between.
   */
  lemma {:induction false} AncestorSuccessor<V>(s: Shape<V>, k: int, j: nat)
    requires Ordered(s) && k in Keys(s) && Sub(s, k).Fork?
    requires Sub(s, k).right.Empty?
    requires 0 < j < |Path(s, k)| && k < Path(s, k)[j - 1].key
    requires forall i | j <= i < |Path(s, k)| - 1 :: Path(s, k)[i].key < k
    ensures Path(s, k)[j - 1].key in Keys(s)
    ensures forall x | x in Keys(s) :: !(k < x < Path(s, k)[j - 1].key)
  {
    PathShift(s, k, j);
    var c := if k < s.key then s.left else s.right;
    assert Ordered(c) && k in Keys(c) && Sub(c, k) == Sub(s, k);
    if j == 1 {
      RightSpineMaximum(c, k);
    } else {
      AncestorSuccessor(c, k, j - 1);
    }
  }

  /** Below a fork not holding `k`, the search path goes on as the path in the subtree on k's side. */
  lemma PathStep<V>(s: Shape<V>, k: int)
    requires s.Fork? && k != s.key
    ensures var c := if k < s.key then s.left else s.right;
      && Path(s, k) == [s] + Path(c, k)
      && forall i | 0 <= i < |Path(c, k)| :: Path(c, k)[i] == Path(s, k)[i + 1]
  {
  }

  /** The climbing condition on the path of `s` from index `j` on holds on the path of the subtree from `j - 1` on. */
  lemma PathShift<V>(s: Shape<V>, k: int, j: nat)
    requires s.Fork? && 0 < j < |Path(s, k)|
    requires forall i | j <= i < |Path(s, k)| - 1 :: Path(s, k)[i].key < k
    ensures k != s.key && Path(s, k)[0] == s
    ensures var c := if k < s.key then s.left else s.right;
      && |Path(c, k)| == |Path(s, k)| - 1
      && (1 < j ==> Path(c, k)[j - 2] == Path(s, k)[j - 1])
      && forall i | j - 1 <= i < |Path(c, k)| - 1 :: Path(c, k)[i].key < k
  {
    PathStep(s, k);
  }

  /** For a fork with a right child, the successor is the leftmost fork of that right subtree. */
  lemma {:induction false} RightSubtreeSuccessor<V>(s: Shape<V>, k: int)
    requires Ordered(s) && k in Keys(s) && Sub(s, k).Fork?
    requires Sub(s, k).right.Fork?
    ensures k < Leftmost(Sub(s, k).right).key
    ensures Leftmost(Sub(s, k).right).key in Keys(s)
    ensures forall x | x in Keys(s) :: !(k < x < Leftmost(Sub(s, k).right).key)
  {
    var Fork(l, _, kk, _, r) := s;
    if k < kk {
      SubLemma(l, k);
      RightSubtreeSuccessor(l, k);
    } else if kk < k {
      SubLemma(r, k);
      RightSubtreeSuccessor(r, k);
    } else {
      LeftmostLemma(r);
    }
  }

  // ---------------------------------------------------------------------------
  // Values (Java: searchNode, containsValue)
  // ---------------------------------------------------------------------------

  /** The forks in visiting order: a fork, then its left subtree, then its right subtree. */
  ghost function Preorder<V>(s: Shape<V>): (p: seq<Shape<V>>)
    ensures forall i | 0 <= i < |p| :: p[i].Fork?
  {
    match s
    case Empty => []
    case Fork(l, _, _, _, r) => [s] + Preorder(l) + Preorder(r)
  }

  /** The position of the first fork in `p` holding `v`, or |p| when none does. */
  ghost function FirstHolding<V>(p: seq<Shape<V>>, v: V): (j: nat)
    requires forall i | 0 <= i < |p| :: p[i].Fork?
    ensures j <= |p|
    ensures forall i | 0 <= i < j :: p[i].value != v
    ensures j < |p| ==> p[j].value == v
  {
    if |p| == 0 then 0 else if p[0].value == v then 0 else 1 + FirstHolding(p[1..], v)
  }

  /** In a concatenation the first match is in the front part if it has one, otherwise in the back part. */
  lemma {:induction false} FirstHoldingAppend<V>(a: seq<Shape<V>>, b: seq<Shape<V>>, v: V)
    requires forall i | 0 <= i < |a| :: a[i].Fork?
    requires forall i | 0 <= i < |b| :: b[i].Fork?
    ensures FirstHolding(a + b, v) == if FirstHolding(a, v) < |a| then FirstHolding(a, v) else |a| + FirstHolding(b, v)
    decreases |a|
  {
    if |a| > 0 {
      assert (a + b)[0] == a[0];
      if a[0].value != v {
        assert (a + b)[1..] == a[1..] + b;
        FirstHoldingAppend(a[1..], b, v);
      }
    } else {
      assert a + b == b;
    }
  }

  /** A value is held by some fork exactly when the visiting order reaches a fork holding it. */
  lemma {:induction false} PreorderVals<V>(s: Shape<V>, v: V)
    ensures v in Vals(s) <==> FirstHolding(Preorder(s), v) < |Preorder(s)|
  {
    match s
    case Empty =>
    case Fork(l, _, _, vv, r) =>
      PreorderVals(l, v);
      PreorderVals(r, v);
      FirstHoldingAppend([s] + Preorder(l), Preorder(r), v);
      FirstHoldingAppend([s], Preorder(l), v);
  }

  /** With distinct keys, a value is held by some node exactly when some key maps to it. */
  lemma {:induction false} ValsEntries<V>(s: Shape<V>, v: V)
    requires Ordered(s)
    ensures v in Vals(s) <==> v in Entries(s).Values
  {
    match s
    case Empty =>
    case Fork(l, _, k, vv, r) =>
      ValsEntries(l, v);
      ValsEntries(r, v);
      var e := Entries(s);
      if v in Vals(l) {
        var x :| x in Entries(l) && Entries(l)[x] == v;
        FindFork(s, x);
        assert x in e && e[x] == v;
      } else if v in Vals(r) {
        var x :| x in Entries(r) && Entries(r)[x] == v;
        FindFork(s, x);
        assert x in e && e[x] == v;
      } else if v == vv {
        FindFork(s, k);
        assert k in e && e[k] == v;
      }
      if v in e.Values {
        var x :| x in e && e[x] == v;
        FindFork(s, x);
        if x < k {
          assert Entries(l)[x] == v;
        } else if k < x {
          assert Entries(r)[x] == v;
        }
      }
  }

  /**
   * A concrete witness for the two-children branch of removeNode: put 2, 0,
   * 4, 3 into an empty map (node ids 0 to 3) and remove 2. The successor 3
   * is the left child of 4, so replacing 2 by 3 as written drops 4 with
   * 3's old parent link, while the spliced removal keeps it.
   */
  lemma RemoveAsWrittenLosesKey()
    ensures var s := Inserted(Inserted(Inserted(Inserted(Empty, 2, 20, 0), 0, 0, 1), 4, 40, 2), 3, 30, 3);
      && Ordered(s) && Keys(s) == {0, 2, 3, 4}
      && Keys(RemoveAsWritten(s, 2)) == {0, 3}
      && Keys(RemoveSpliced(s, 2)) == {0, 3, 4}
  {
    var leaf0: Shape<int> := Fork(Empty, 1, 0, 0, Empty);
    var leaf3: Shape<int> := Fork(Empty, 3, 3, 30, Empty);
    var s := Fork(leaf0, 0, 2, 20, Fork(leaf3, 2, 4, 40, Empty));
    assert Inserted(Inserted(Inserted(Inserted(Empty, 2, 20, 0), 0, 0, 1), 4, 40, 2), 3, 30, 3) == s;
    assert Keys(s) == {0, 2, 3, 4};
    assert Sub(s, 2) == s && Leftmost(s.right) == leaf3;
    assert RemoveAsWritten(s, 2) == Fork(leaf0, 3, 3, 30, Empty);
    assert DeleteMin(s.right) == Fork(Empty, 2, 4, 40, Empty) by {
      assert Graft(s.right, 3, Empty) == Fork(Empty, 2, 4, 40, Empty);
    }
    assert RemoveSpliced(s, 2) == Fork(leaf0, 3, 3, 30, Fork(Empty, 2, 4, 40, Empty));
  }
}

/**
 * The node objects of a TreeMap, kept in a store indexed by object identity.
 *
 * A Java `Node` has a final key and mutable `value`, `left`, `right` and
 * `parent` fields; `null` is the link `Nil`. Nodes that drop out of the tree
 * stay in the store, as unreachable Java objects do while something still
 * refers to them. `Linked` says which Shape the child links spell out from a
 * given link, `ParentsOk` that every reachable node's parent field points at
 * the fork above it.
 */
module Arena {
  import opened Shapes

  datatype Link = Nil | Ptr(id: Id)

  datatype Node<V> = Node(key: int, value: V, left: Link, right: Link, parent: Link)

  type Store<V> = map<Id, Node<V>>

  /** Following child links from `link` spells out exactly the shape `s`. */
  ghost predicate Linked<V>(nodes: Store<V>, link: Link, s: Shape<V>)
    decreases s
  {
    match s
    case Empty => link == Nil
    case Fork(l, id, k, v, r) =>
      && link == Ptr(id)
      && id in nodes
      && nodes[id].key == k
      && nodes[id].value == v
      && Linked(nodes, nodes[id].left, l)
      && Linked(nodes, nodes[id].right, r)
  }

  /** Every fork's parent field points at the fork above it; the top one points at `up`. */
  ghost predicate ParentsOk<V>(nodes: Store<V>, s: Shape<V>, up: Link)
  {
    match s
    case Empty => true
    case Fork(l, id, _, _, r) =>
      && id in nodes
      && nodes[id].parent == up
      && ParentsOk(nodes, l, Ptr(id))
      && ParentsOk(nodes, r, Ptr(id))
  }

  /** The fork directly above the fork holding `k`, or Nil when that fork is the top one. */
  ghost function ParentOf<V>(s: Shape<V>, k: int): Link
  {
    match s
    case Empty => Nil
    case Fork(l, id, kk, _, r) =>
      if k < kk then (if l.Fork? && l.key == k then Ptr(id) else ParentOf(l, k))
      else if kk < k then (if r.Fork? && r.key == k then Ptr(id) else ParentOf(r, k))
      else Nil
  }

  /** The nodes `ids` have the same key, value and child links in both stores. */
  ghost predicate SameLinks<V>(nodes: Store<V>, nodes': Store<V>, ids: set<Id>)
  {
    forall i | i in ids ::
      && i in nodes && i in nodes'
      && nodes'[i].key == nodes[i].key
      && nodes'[i].value == nodes[i].value
      && nodes'[i].left == nodes[i].left
      && nodes'[i].right == nodes[i].right
  }

  /** The nodes `ids` have the same parent field in both stores. */
  ghost predicate SameParents<V>(nodes: Store<V>, nodes': Store<V>, ids: set<Id>)
  {
    forall i | i in ids :: i in nodes && i in nodes' && nodes'[i].parent == nodes[i].parent
  }

  /** Every node of `nodes` is still there with the same key and value: only links and parents were rewired. */
  ghost predicate Kept<V>(nodes: Store<V>, nodes': Store<V>)
  {
    forall i | i in nodes :: i in nodes' && nodes'[i].key == nodes[i].key && nodes'[i].value == nodes[i].value
  }

  /** `x.parent = p` when `x` is not null. */
  function SetParent<V>(nodes: Store<V>, x: Link, p: Link): (r: Store<V>)
    requires x.Ptr? ==> x.id in nodes
    ensures r.Keys == nodes.Keys
  {
    if x.Nil? then nodes else nodes[x.id := nodes[x.id].(parent := p)]
  }

  /**
   * The root link and store after `replaceNode(target, replacement)`: the
   * link of target's parent (or the root) that pointed at target now points
   * at the replacement, whose parent becomes target's parent.
   */
  ghost function Replaced<V>(root: Link, nodes: Store<V>, target: Id, replacement: Link): (r: (Link, Store<V>))
    requires target in nodes
    requires nodes[target].parent.Ptr? ==> nodes[target].parent.id in nodes
    requires replacement.Ptr? ==> replacement.id in nodes
    ensures r.1.Keys == nodes.Keys
  {
    var p := nodes[target].parent;
    if p.Nil? then
      (replacement, SetParent(nodes, replacement, Nil))
    else if nodes[p.id].left == Ptr(target) then
      (root, SetParent(nodes[p.id := nodes[p.id].(left := replacement)], replacement, p))
    else if nodes[p.id].right == Ptr(target) then
      (root, SetParent(nodes[p.id := nodes[p.id].(right := replacement)], replacement, p))
    else
      (root, nodes)
  }

  // ---------------------------------------------------------------------------
  // Identities and frames
  // ---------------------------------------------------------------------------

  /** Every node reached from a link is in the store and holds one of the shape's keys. */
  lemma {:induction false} LinkedKeys<V>(nodes: Store<V>, link: Link, s: Shape<V>)
    requires Linked(nodes, link, s)
    ensures forall i | i in Ids(s) :: i in nodes && nodes[i].key in Keys(s)
    decreases s
  {
    match s
    case Empty =>
    case Fork(l, id, k, v, r) =>
      LinkedKeys(nodes, nodes[id].left, l);
      LinkedKeys(nodes, nodes[id].right, r);
  }

  /** In an ordered tree reached through links, the top node, the left nodes and the right nodes are distinct objects. */
  lemma LinkedDistinct<V>(nodes: Store<V>, link: Link, s: Shape<V>)
    requires Linked(nodes, link, s) && Ordered(s) && s.Fork?
    ensures s.id !in Ids(s.left) && s.id !in Ids(s.right)
    ensures Ids(s.left) !! Ids(s.right)
  {
    LinkedKeys(nodes, nodes[s.id].left, s.left);
    LinkedKeys(nodes, nodes[s.id].right, s.right);
    forall i | i in Ids(s.left)
      ensures i !in Ids(s.right) && i != s.id
    {
      assert nodes[i].key < s.key;
    }
  }

  /** Descending by key through the shape reaches the node holding that key through links too. */
  lemma {:induction false} LinkedSub<V>(nodes: Store<V>, link: Link, s: Shape<V>, k: int)
    requires Linked(nodes, link, s) && Ordered(s) && k in Keys(s)
    ensures Sub(s, k).Fork?
    ensures Linked(nodes, Ptr(Sub(s, k).id), Sub(s, k))
    ensures nodes[Sub(s, k).id].key == k && nodes[Sub(s, k).id].value == Find(s, k)
    decreases s
  {
    SubLemma(s, k);
    var Fork(l, id, kk, v, r) := s;
    if k < kk {
      LinkedSub(nodes, nodes[id].left, l, k);
      SubLemma(l, k);
    } else if kk < k {
      LinkedSub(nodes, nodes[id].right, r, k);
      SubLemma(r, k);
    }
  }

  /** The node found by key is the only node holding that key: a reachable node is the fork found by descending to its key. */
  lemma {:induction false} LinkedIdSub<V>(nodes: Store<V>, link: Link, s: Shape<V>, i: Id)
    requires Linked(nodes, link, s) && Ordered(s) && i in Ids(s)
    ensures i in nodes && nodes[i].key in Keys(s)
    ensures Sub(s, nodes[i].key).Fork? && Sub(s, nodes[i].key).id == i
    decreases s
  {
    LinkedKeys(nodes, link, s);
    var Fork(l, id, kk, v, r) := s;
    LinkedKeys(nodes, nodes[id].left, l);
    LinkedKeys(nodes, nodes[id].right, r);
    if i in Ids(l) {
      LinkedIdSub(nodes, nodes[id].left, l, i);
      assert nodes[i].key < kk;
    } else if i in Ids(r) {
      LinkedIdSub(nodes, nodes[id].right, r, i);
      assert kk < nodes[i].key;
    }
  }

  /** In an ordered tree reached through links, no two reachable nodes hold the same key. */
  lemma LinkedUnique<V>(nodes: Store<V>, link: Link, s: Shape<V>)
    requires Linked(nodes, link, s) && Ordered(s)
    ensures forall i | i in Ids(s) :: i in nodes && nodes[i].key in Keys(s)
    ensures forall i, j | i in Ids(s) && j in Ids(s) && nodes[i].key == nodes[j].key :: i == j
  {
    LinkedKeys(nodes, link, s);
    forall i | i in Ids(s)
      ensures Sub(s, nodes[i].key).Fork? && Sub(s, nodes[i].key).id == i
    {
      LinkedIdSub(nodes, link, s, i);
    }
  }

  lemma SameLinksTrans<V>(a: Store<V>, b: Store<V>, c: Store<V>, x: set<Id>, y: set<Id>)
    requires SameLinks(a, b, x) && SameLinks(b, c, y)
    ensures SameLinks(a, c, x * y)
  {
  }
  lemma SameParentsTrans<V>(a: Store<V>, b: Store<V>, c: Store<V>, x: set<Id>, y: set<Id>)
    requires SameParents(a, b, x) && SameParents(b, c, y)
    ensures SameParents(a, c, x * y)
  {
  }
  lemma KeptTrans<V>(a: Store<V>, b: Store<V>, c: Store<V>)
    requires Kept(a, b) && Kept(b, c)
    ensures Kept(a, c)
  {
  }
  lemma {:induction false} LinkedFrame<V>(nodes: Store<V>, nodes': Store<V>, link: Link, s: Shape<V>)
    requires Linked(nodes, link, s) && SameLinks(nodes, nodes', Ids(s))
    ensures Linked(nodes', link, s)
    decreases s
  {
    match s
    case Empty =>
    case Fork(l, id, k, v, r) =>
      LinkedFrame(nodes, nodes', nodes[id].left, l);
      LinkedFrame(nodes, nodes', nodes[id].right, r);
  }

  lemma {:induction false} ParentsFrame<V>(nodes: Store<V>, nodes': Store<V>, s: Shape<V>, up: Link)
    requires ParentsOk(nodes, s, up) && SameParents(nodes, nodes', Ids(s))
    ensures ParentsOk(nodes', s, up)
  {
    match s
    case Empty =>
    case Fork(l, id, k, v, r) =>
      ParentsFrame(nodes, nodes', l, Ptr(id));
      ParentsFrame(nodes, nodes', r, Ptr(id));
  }

  /** A fork whose own parent field is changed, and nothing else below it, is consistent again with the new parent. */
  lemma Reparent<V>(nodes: Store<V>, nodes': Store<V>, link: Link, s: Shape<V>, up: Link, up': Link)
    requires Linked(nodes, link, s) && Ordered(s) && ParentsOk(nodes, s, up)
    requires s.Fork? ==> SameParents(nodes, nodes', Ids(s) - {s.id})
    requires s.Fork? ==> s.id in nodes' && nodes'[s.id].parent == up'
    ensures ParentsOk(nodes', s, up')
  {
    if s.Fork? {
      LinkedDistinct(nodes, link, s);
      ParentsFrame(nodes, nodes', s.left, Ptr(s.id));
      ParentsFrame(nodes, nodes', s.right, Ptr(s.id));
    }
  }

  // ---------------------------------------------------------------------------
  // Parents
  // ---------------------------------------------------------------------------

  /**
   * For a fork below the top, its parent is a node outside its subtree whose
   * left link points at it when the key is smaller and whose right link
   * (and not its left) points at it when the key is greater.
   */
  lemma {:induction false} ParentLemma<V>(nodes: Store<V>, link: Link, s: Shape<V>, k: int)
    requires Linked(nodes, link, s) && Ordered(s) && k in Keys(s) && s.Fork? && s.key != k
    ensures Sub(s, k).Fork? && ParentOf(s, k).Ptr?
    ensures var p := ParentOf(s, k).id; var t := Sub(s, k).id;
      && p in Ids(s) && p !in Ids(Sub(s, k)) && p in nodes && nodes[p].key != k
      && (k < nodes[p].key ==> nodes[p].left == Ptr(t))
      && (nodes[p].key < k ==> nodes[p].right == Ptr(t) && nodes[p].left != Ptr(t))
    decreases s
  {
    SubLemma(s, k);
    LinkedDistinct(nodes, link, s);
    var Fork(l, id, kk, v, r) := s;
    if k < kk {
      SubLemma(l, k);
      if !(l.Fork? && l.key == k) {
        ParentLemma(nodes, nodes[id].left, l, k);
      }
    } else {
      SubLemma(r, k);
      if !(r.Fork? && r.key == k) {
        ParentLemma(nodes, nodes[id].right, r, k);
      } else if nodes[id].left.Ptr? {
        assert nodes[id].left.id in Ids(l);
      }
    }
  }

  /** Consistent parent fields hold in every subtree, and the fork holding `k` points at its parent. */
  lemma {:induction false} ParentsSub<V>(nodes: Store<V>, s: Shape<V>, up: Link, k: int)
    requires ParentsOk(nodes, s, up) && Ordered(s) && k in Keys(s)
    ensures Sub(s, k).Fork?
    ensures var p := if s.key == k then up else ParentOf(s, k);
      && ParentsOk(nodes, Sub(s, k), p)
      && Sub(s, k).id in nodes && nodes[Sub(s, k).id].parent == p
  {
    SubLemma(s, k);
    var Fork(l, id, kk, v, r) := s;
    if k < kk {
      ParentsSub(nodes, l, Ptr(id), k);
    } else if kk < k {
      ParentsSub(nodes, r, Ptr(id), k);
    }
  }

  /** Every reachable node's parent field points inside the tree, except the top one's. */
  lemma {:induction false} ParentsInside<V>(nodes: Store<V>, s: Shape<V>, up: Link)
    requires ParentsOk(nodes, s, up)
    ensures forall i | i in Ids(s) :: i in nodes && (nodes[i].parent == up || (nodes[i].parent.Ptr? && nodes[i].parent.id in Ids(s)))
  {
    match s
    case Empty =>
    case Fork(l, id, k, v, r) =>
      ParentsInside(nodes, l, Ptr(id));
      ParentsInside(nodes, r, Ptr(id));
  }

  // ---------------------------------------------------------------------------
  // Replacing a subtree through the parent's link (Java: replaceNode)
  // ---------------------------------------------------------------------------

  /**
   * If the parent of the fork holding `k` now links to `repl` on the side
   * where that fork was, and no other node outside that fork's subtree
   * changed its links, the links spell out the graft of `repl`'s shape.
   */
  lemma {:induction false} GraftLinked<V>(n0: Store<V>, n2: Store<V>, link: Link, s: Shape<V>, k: int,
                                          p: Id, repl: Link, t: Shape<V>)
    requires Linked(n0, link, s) && Ordered(s) && k in Keys(s) && s.Fork? && s.key != k
    requires ParentOf(s, k) == Ptr(p)
    requires SameLinks(n0, n2, Ids(s) - Ids(Sub(s, k)) - {p})
    requires p in n0 && p in n2 && n2[p].key == n0[p].key && n2[p].value == n0[p].value
    requires k < n0[p].key ==> n2[p].left == repl && n2[p].right == n0[p].right
    requires n0[p].key < k ==> n2[p].right == repl && n2[p].left == n0[p].left
    requires Linked(n2, repl, t)
    ensures Linked(n2, link, Graft(s, k, t))
    decreases s
  {
    ParentLemma(n0, link, s, k);
    LinkedDistinct(n0, link, s);
    var Fork(l, id, kk, v, r) := s;
    if k < kk {
      SubLemma(l, k);
      if !(l.Fork? && l.key == k) {
        ParentLemma(n0, n0[id].left, l, k);
        GraftLinked(n0, n2, n0[id].left, l, k, p, repl, t);
      }
      LinkedFrame(n0, n2, n0[id].right, r);
    } else {
      SubLemma(r, k);
      if !(r.Fork? && r.key == k) {
        ParentLemma(n0, n0[id].right, r, k);
        GraftLinked(n0, n2, n0[id].right, r, k, p, repl, t);
      }
      LinkedFrame(n0, n2, n0[id].left, l);
    }
  }

  /** Parent fields stay consistent after a graft whose replacement points at the old parent. */
  lemma {:induction false} GraftParents<V>(n0: Store<V>, n2: Store<V>, link: Link, s: Shape<V>, up: Link, k: int, t: Shape<V>)
    requires Linked(n0, link, s) && Ordered(s) && k in Keys(s) && s.Fork? && ParentsOk(n0, s, up)
    requires SameParents(n0, n2, Ids(s) - Ids(Sub(s, k)))
    requires ParentsOk(n2, t, if s.key == k then up else ParentOf(s, k))
    ensures ParentsOk(n2, Graft(s, k, t), up)
    decreases s
  {
    LinkedDistinct(n0, link, s);
    SubLemma(s, k);
    var Fork(l, id, kk, v, r) := s;
    if k < kk {
      SubLemma(l, k);
      ParentsFrame(n0, n2, r, Ptr(id));
      GraftParents(n0, n2, n0[id].left, l, Ptr(id), k, t);
    } else if kk < k {
      SubLemma(r, k);
      ParentsFrame(n0, n2, l, Ptr(id));
      GraftParents(n0, n2, n0[id].right, r, Ptr(id), k, t);
    }
  }

  /**
   * replaceNode on a consistent tree: if the fork holding `k` points at its
   * parent, the nodes outside its subtree are as in a store `n0` whose links
   * spell out `s`, and `repl` spells out `t`, then afterwards the links spell
   * out `s` with `t` grafted in place of that fork, and only the replacement's
   * parent field and the one redirected link have changed.
   */
  lemma ReplacedGraft<V>(n0: Store<V>, root: Link, nodes: Store<V>, s: Shape<V>, k: int, repl: Link, t: Shape<V>)
    requires Linked(n0, root, s) && Ordered(s) && k in Keys(s)
    requires Sub(s, k).Fork? && Sub(s, k).id in nodes
    requires SameLinks(n0, nodes, Ids(s) - Ids(Sub(s, k)))
    requires nodes[Sub(s, k).id].parent == ParentOf(s, k)
    requires Linked(nodes, repl, t) && Ids(t) <= Ids(Sub(s, k))
    ensures nodes[Sub(s, k).id].parent.Ptr? ==> nodes[Sub(s, k).id].parent.id in nodes
    ensures repl.Ptr? ==> repl.id in nodes
    ensures var (root', nodes') := Replaced(root, nodes, Sub(s, k).id, repl);
      && Linked(nodes', root', Graft(s, k, t))
      && nodes'.Keys == nodes.Keys
      && SameParents(nodes, nodes', nodes.Keys - (if repl.Ptr? then {repl.id} else {}))
      && (repl.Ptr? ==> nodes'[repl.id].parent == ParentOf(s, k))
      && SameLinks(nodes, nodes', nodes.Keys - (if ParentOf(s, k).Ptr? then {ParentOf(s, k).id} else {}))
  {
    SubLemma(s, k);
    if repl.Ptr? {
      LinkedKeys(nodes, repl, t);
    }
    if s.key != k {
      ParentLemma(n0, root, s, k);
      LinkedKeys(n0, root, s);
    }
    ReplacedFrame(root, nodes, Sub(s, k).id, repl);
    assert Linked(Replaced(root, nodes, Sub(s, k).id, repl).1, Replaced(root, nodes, Sub(s, k).id, repl).0, Graft(s, k, t)) by {
      if s.key == k {
        var nodes' := SetParent(nodes, repl, Nil);
        LinkedFrame(nodes, nodes', repl, t);
      } else {
        var p := ParentOf(s, k).id;
        assert p !in Ids(t);
        if k < nodes[p].key {
          ReplacedLeft(n0, root, nodes, s, k, repl, t);
        } else {
          ReplacedRight(n0, root, nodes, s, k, repl, t);
        }
      }
    }
  }


  lemma ReplacedLeft<V>(n0: Store<V>, root: Link, nodes: Store<V>, s: Shape<V>, k: int, repl: Link, t: Shape<V>)
    requires Linked(n0, root, s) && Ordered(s) && k in Keys(s) && s.Fork? && s.key != k
    requires Sub(s, k).Fork? && ParentOf(s, k).Ptr?
    requires ParentOf(s, k).id in Ids(s) - Ids(Sub(s, k)) && ParentOf(s, k).id in n0
    requires SameLinks(n0, nodes, Ids(s) - Ids(Sub(s, k)))
    requires k < n0[ParentOf(s, k).id].key
    requires Linked(nodes, repl, t) && ParentOf(s, k).id !in Ids(t)
    requires repl.Ptr? ==> repl.id in nodes
    ensures var p := ParentOf(s, k).id;
      Linked(SetParent(nodes[p := nodes[p].(left := repl)], repl, Ptr(p)), root, Graft(s, k, t))
  {
    var p := ParentOf(s, k).id;
    var n2 := SetParent(nodes[p := nodes[p].(left := repl)], repl, Ptr(p));
    LinkedKeys(nodes, repl, t);
    LinkedFrame(nodes, n2, repl, t);
    GraftLinked(n0, n2, root, s, k, p, repl, t);
  }

  lemma ReplacedRight<V>(n0: Store<V>, root: Link, nodes: Store<V>, s: Shape<V>, k: int, repl: Link, t: Shape<V>)
    requires Linked(n0, root, s) && Ordered(s) && k in Keys(s) && s.Fork? && s.key != k
    requires Sub(s, k).Fork? && ParentOf(s, k).Ptr?
    requires ParentOf(s, k).id in Ids(s) - Ids(Sub(s, k)) && ParentOf(s, k).id in n0
    requires SameLinks(n0, nodes, Ids(s) - Ids(Sub(s, k)))
    requires n0[ParentOf(s, k).id].key < k
    requires Linked(nodes, repl, t) && ParentOf(s, k).id !in Ids(t)
    requires repl.Ptr? ==> repl.id in nodes
    ensures var p := ParentOf(s, k).id;
      Linked(SetParent(nodes[p := nodes[p].(right := repl)], repl, Ptr(p)), root, Graft(s, k, t))
  {
    var p := ParentOf(s, k).id;
    var n2 := SetParent(nodes[p := nodes[p].(right := repl)], repl, Ptr(p));
    LinkedKeys(nodes, repl, t);
    LinkedFrame(nodes, n2, repl, t);
    GraftLinked(n0, n2, root, s, k, p, repl, t);
  }

  /**
   * replaceNode changes one link (the root, or the parent's child link that
   * pointed at the target) and the replacement's parent field, and nothing else.
   */
  lemma ReplacedFrame<V>(root: Link, nodes: Store<V>, target: Id, repl: Link)
    requires target in nodes
    requires nodes[target].parent.Ptr? ==> nodes[target].parent.id in nodes
    requires repl.Ptr? ==> repl.id in nodes
    ensures var (root', nodes') := Replaced(root, nodes, target, repl);
      var p := nodes[target].parent;
      && nodes'.Keys == nodes.Keys
      && Kept(nodes, nodes')
      && (p.Ptr? ==> root' == root)
      && (forall i | i in nodes && Ptr(i) != p && Ptr(i) != repl :: nodes'[i] == nodes[i])
      && SameLinks(nodes, nodes', nodes.Keys - (if p.Ptr? then {p.id} else {}))
      && SameParents(nodes, nodes', nodes.Keys - (if repl.Ptr? then {repl.id} else {}))
  {
  }

  // ---------------------------------------------------------------------------
  // Climbing parent links (Java: TreeMapIterator.nextNode)
  // ---------------------------------------------------------------------------

  /** The child on the side of `k` points back at its parent, and the parent's left link points at it exactly when `k` is smaller. */
  lemma ChildLinks<V>(nodes: Store<V>, link: Link, s: Shape<V>, up: Link, k: int)
    requires Linked(nodes, link, s) && Ordered(s) && ParentsOk(nodes, s, up) && k in Keys(s)
    requires s.Fork? && s.key != k
    ensures var c := if k < s.key then s.left else s.right;
      && c.Fork? && c.id in nodes && s.id in nodes
      && nodes[c.id].parent == Ptr(s.id)
      && (nodes[s.id].left == Ptr(c.id) <==> k < s.key)
      && Linked(nodes, Ptr(c.id), c) && ParentsOk(nodes, c, Ptr(s.id))
  {
    LinkedDistinct(nodes, link, s);
  }

  /**
   * Along the descent towards `k`, each fork's parent field points at the
   * fork before it, and that fork's left link points back exactly when the
   * descent turned left there.
   */
  lemma {:induction false} PathLinks<V>(nodes: Store<V>, link: Link, s: Shape<V>, up: Link, k: int, j: nat)
    requires Linked(nodes, link, s) && Ordered(s) && ParentsOk(nodes, s, up) && k in Keys(s)
    requires j < |Path(s, k)|
    ensures Path(s, k)[j].id in nodes && Path(s, k)[j].id in Ids(s)
    ensures nodes[Path(s, k)[j].id].key == Path(s, k)[j].key
    ensures j == 0 ==> nodes[Path(s, k)[0].id].parent == up
    ensures 0 < j ==>
      var p := Path(s, k);
      && p[j - 1].id in nodes && p[j - 1].key != k
      && nodes[p[j].id].parent == Ptr(p[j - 1].id)
      && (nodes[p[j - 1].id].left == Ptr(p[j].id) <==> k < p[j - 1].key)
    decreases s
  {
    PathLemma(s, k);
    var p := Path(s, k);
    if j > 0 {
      ChildLinks(nodes, link, s, up, k);
      var c := if k < s.key then s.left else s.right;
      assert p == [s] + Path(c, k);
      PathLemma(c, k);
      if j > 1 {
        PathLinks(nodes, Ptr(c.id), c, Ptr(s.id), k, j - 1);
        assert p[j] == Path(c, k)[j - 1] && p[j - 1] == Path(c, k)[j - 2];
      }
    }
  }
}

/**
 * What the three branches of TreeMap.removeNode do to the node store.
 *
 * Each lemma starts from a store whose links spell out an ordered shape `s`
 * with consistent parent fields, and follows the rewiring of one branch:
 * fewer than two children (the child takes the node's place), two children
 * as written (the successor takes the node's place without being unlinked),
 * and two children spliced (the successor is first unlinked from the right
 * subtree, then takes over both of the node's subtrees).
 */
module Removal {
  import opened Shapes
  import opened Arena

  /** The store before a removal: links spell out `s`, parents agree, and `k` is stored. */
  ghost predicate Before<V>(root: Link, n0: Store<V>, s: Shape<V>, k: int)
  {
    Linked(n0, root, s) && Ordered(s) && ParentsOk(n0, s, Nil) && k in Keys(s) && Sub(s, k).Fork?
  }

  /** The store after a removal: the links spell out `s'`, no identity is lost and every node keeps its key and value. */
  ghost predicate Rewired<V>(n0: Store<V>, s': Shape<V>, root': Link, n': Store<V>)
  {
    Linked(n', root', s') && n'.Keys == n0.Keys && Kept(n0, n')
  }

  /** Facts about the removed fork `t` and its place in the store. */
  lemma Located<V>(root: Link, n0: Store<V>, s: Shape<V>, k: int)
    requires Before(root, n0, s, k)
    ensures var t := Sub(s, k);
      && Ordered(t) && t.key == k && t.id in Ids(s)
      && Linked(n0, Ptr(t.id), t) && ParentsOk(n0, t, ParentOf(s, k))
      && n0[t.id].parent == ParentOf(s, k)
      && (ParentOf(s, k).Ptr? ==> ParentOf(s, k).id in n0)
      && (forall i | i in Ids(s) :: i in n0 && n0[i].key in Keys(s))
      && Ids(t) <= Ids(s)
  {
    SubLemma(s, k);
    LinkedSub(n0, root, s, k);
    ParentsSub(n0, s, Nil, k);
    LinkedKeys(n0, root, s);
    if s.key != k {
      ParentLemma(n0, root, s, k);
    }
  }

  // ---------------------------------------------------------------------------
  // Fewer than two children
  // ---------------------------------------------------------------------------

  /** A node with at most one child is removed by letting that child (or null) take its place. */
  lemma RemoveFew<V>(root: Link, n0: Store<V>, s: Shape<V>, k: int, child: Link)
    requires Before(root, n0, s, k)
    requires Sub(s, k).left.Empty? || Sub(s, k).right.Empty?
    requires Sub(s, k).id in n0
    requires child == (if n0[Sub(s, k).id].left.Ptr? then n0[Sub(s, k).id].left else n0[Sub(s, k).id].right)
    ensures var tid := Sub(s, k).id;
      && (n0[tid].parent.Ptr? ==> n0[tid].parent.id in n0)
      && (child.Ptr? ==> child.id in n0)
      && var (root', n1) := Replaced(root, n0, tid, child);
      && Linked(n1, root', RemoveSpliced(s, k))
      && ParentsOk(n1, RemoveSpliced(s, k), Nil)
      && n1.Keys == n0.Keys && Kept(n0, n1)
  {
    Located(root, n0, s, k);
    var t := Sub(s, k);
    var c := SplicedAt(t);
    assert Linked(n0, child, c);
    SplicedAtLemma(t);
    ReplacedGraft(n0, root, n0, s, k, child, c);
    ReplacedFrame(root, n0, t.id, child);
    var (root', n1) := Replaced(root, n0, t.id, child);
    Reparent(n0, n1, child, c, Ptr(t.id), ParentOf(s, k));
    GraftParents(n0, n1, root, s, Nil, k, c);
  }

  // ---------------------------------------------------------------------------
  // Two children, as written
  // ---------------------------------------------------------------------------

  /**
   * The two-children branch as written: the successor `m` keeps its own
   * right subtree, takes the node's left subtree and the node's place. The
   * links spell out RemoveAsWritten, but the old left child's parent field
   * still names the removed node, so the parent fields are inconsistent.
   */
  lemma RemoveTwoAsWritten<V>(root: Link, n0: Store<V>, s: Shape<V>, k: int)
    requires Before(root, n0, s, k)
    requires Sub(s, k).left.Fork? && Sub(s, k).right.Fork?
    ensures var t := Sub(s, k); var m := Leftmost(t.right);
      && t.id in n0 && m.id in n0 && t.left.id in n0
      && var n1 := n0[m.id := n0[m.id].(left := n0[t.id].left)];
      && (n1[t.id].parent.Ptr? ==> n1[t.id].parent.id in n1)
      && var (root', n2) := Replaced(root, n1, t.id, Ptr(m.id));
      && Linked(n2, root', RemoveAsWritten(s, k))
      && n2.Keys == n0.Keys && Kept(n0, n2)
      && t.id !in Ids(RemoveAsWritten(s, k)) && t.left.id in Ids(RemoveAsWritten(s, k))
      && n2[t.left.id].parent == Ptr(t.id)
      && !ParentsOk(n2, RemoveAsWritten(s, k), Nil)
  {
    AdoptLeftLinks(root, n0, s, k);
    var t := Sub(s, k);
    var m := Leftmost(t.right);
    var n1 := n0[m.id := n0[m.id].(left := n0[t.id].left)];
    var g := RemovedAt(t);
    assert n1[t.id].parent.Ptr? ==> n1[t.id].parent.id in n1 by {
      Located(root, n0, s, k);
    }
    var (root', n2) := Replaced(root, n1, t.id, Ptr(m.id));
    assert Linked(n2, root', RemoveAsWritten(s, k)) by {
      SubLemma(s, k);
      RemovedAtLemma(t);
      ReplacedGraft(n0, root, n1, s, k, Ptr(m.id), g);
    }
    assert n2.Keys == n0.Keys && Kept(n0, n2) && n2[t.left.id].parent == Ptr(t.id) && n2[t.id].key == k by {
      ReplacedFrame(root, n1, t.id, Ptr(m.id));
      assert Kept(n0, n1) && n1[t.left.id] == n0[t.left.id] && t.left.id in n1.Keys - {m.id};
      KeptTrans(n0, n1, n2);
    }
    StaleParent(n2, root', s, k);
  }

  /** `min.left = node.left`: the successor now carries the shape that takes the removed node's place. */
  lemma AdoptLeftLinks<V>(root: Link, n0: Store<V>, s: Shape<V>, k: int)
    requires Before(root, n0, s, k)
    requires Sub(s, k).left.Fork? && Sub(s, k).right.Fork?
    ensures var t := Sub(s, k); var m := Leftmost(t.right);
      && t.id in n0 && m.id in n0 && t.left.id in n0 && m.id in Ids(t) && m.id != t.id && m.id != t.left.id
      && n0[t.id].left == Ptr(t.left.id) && n0[t.left.id].parent == Ptr(t.id) && n0[t.id].key == k
      && var n1 := n0[m.id := n0[m.id].(left := n0[t.id].left)];
      && Linked(n1, Ptr(m.id), RemovedAt(t))
      && SameLinks(n0, n1, Ids(s) - Ids(t))
      && n1[t.id].parent == ParentOf(s, k)
      && Ids(RemovedAt(t)) <= Ids(t)
  {
    Located(root, n0, s, k);
    var t := Sub(s, k);
    var tr := t.right;
    LinkedDistinct(n0, Ptr(t.id), t);
    LeftmostLemma(tr);
    var m := Leftmost(tr);
    LinkedSub(n0, Ptr(tr.id), tr, m.key);
    var n1 := n0[m.id := n0[m.id].(left := n0[t.id].left)];
    assert RemovedAt(t) == Fork(t.left, m.id, m.key, m.value, m.right);
    LinkedKeys(n0, Ptr(t.id), t);
    SubLemma(tr, m.key);
    LinkedDistinct(n0, Ptr(m.id), m);
    LinkedFrame(n0, n1, n0[t.id].left, t.left);
    LinkedFrame(n0, n1, n0[m.id].right, m.right);
    RemovedAtLemma(t);
  }

  /** After the as-written branch, the old left child keeps the removed node as its parent. */
  lemma StaleParent<V>(n2: Store<V>, root': Link, s: Shape<V>, k: int)
    requires Ordered(s) && k in Keys(s) && Sub(s, k).Fork? && Sub(s, k).left.Fork? && Sub(s, k).right.Fork?
    requires Linked(n2, root', RemoveAsWritten(s, k))
    requires Sub(s, k).id in n2 && n2[Sub(s, k).id].key == k
    requires Sub(s, k).left.id in n2 && n2[Sub(s, k).left.id].parent == Ptr(Sub(s, k).id)
    ensures var t := Sub(s, k);
      && t.id !in Ids(RemoveAsWritten(s, k)) && t.left.id in Ids(RemoveAsWritten(s, k))
      && !ParentsOk(n2, RemoveAsWritten(s, k), Nil)
  {
    var t := Sub(s, k);
    var r := RemoveAsWritten(s, k);
    SubLemma(s, k);
    RemovedAtLemma(t);
    RemoveAsWrittenLemma(s, k);
    GraftLemma(s, k, RemovedAt(t));
    LinkedKeys(n2, root', r);
    assert t.left.id in Ids(RemovedAt(t));
    if ParentsOk(n2, r, Nil) {
      ParentsInside(n2, r, Nil);
      assert false;
    }
  }

  // ---------------------------------------------------------------------------
  // Two children, spliced
  // ---------------------------------------------------------------------------

  /**
   * After the first phase of the splice: the successor `m` has no left child
   * and its right link spells out the right subtree `tr` without `m`, with
   * consistent parents; nothing outside `tr` has changed.
   */
  ghost predicate Unlinked<V>(n0: Store<V>, n3: Store<V>, tr: Shape<V>)
    requires tr.Fork?
  {
    var m := Leftmost(tr);
    && m.id in n3 && n3.Keys == n0.Keys && Kept(n0, n3)
    && n3[m.id].left == Nil
    && Linked(n3, n3[m.id].right, DeleteMin(tr))
    && ParentsOk(n3, DeleteMin(tr), Ptr(m.id))
    && m.id !in Ids(DeleteMin(tr))
    && SameLinks(n0, n3, n0.Keys - Ids(tr))
    && SameParents(n0, n3, n0.Keys - Ids(tr))
  }

  /** When the successor is the right child itself, it is already unlinked: its right subtree stays. */
  lemma SpliceAdjacent<V>(root: Link, n0: Store<V>, s: Shape<V>, k: int)
    requires Before(root, n0, s, k)
    requires Sub(s, k).left.Fork? && Sub(s, k).right.Fork?
    requires Leftmost(Sub(s, k).right).id == Sub(s, k).right.id
    ensures Unlinked(n0, n0, Sub(s, k).right)
  {
    Located(root, n0, s, k);
    var t := Sub(s, k);
    var tr := t.right;
    LinkedDistinct(n0, Ptr(t.id), t);
    LinkedDistinct(n0, Ptr(tr.id), tr);
    LeftmostLemma(tr);
    assert tr.left.Empty?;
    assert Leftmost(tr) == tr;
    assert DeleteMin(tr) == tr.right;
    assert ParentsOk(n0, tr, Ptr(t.id));
    assert Linked(n0, Ptr(tr.id), tr);
    var m := Leftmost(tr);
    assert m.id in n0;
    assert Linked(n0, n0[tr.id].left, tr.left);
    assert n0[m.id].left == Nil;
    assert Linked(n0, n0[m.id].right, DeleteMin(tr));
    assert ParentsOk(n0, DeleteMin(tr), Ptr(m.id));
    assert m.id !in Ids(DeleteMin(tr));
    assert SameLinks(n0, n0, n0.Keys - Ids(tr));
    assert SameParents(n0, n0, n0.Keys - Ids(tr));
  }

  /**
   * When the successor `m` lies deeper, `replaceNode(m, m.right)` unlinks it,
   * then `m.right = node.right` and `node.right.parent = m` hang the rest of
   * the right subtree under it.
   */
  lemma SpliceDeeper<V>(root: Link, n0: Store<V>, s: Shape<V>, k: int)
    requires Before(root, n0, s, k)
    requires Sub(s, k).left.Fork? && Sub(s, k).right.Fork?
    requires Leftmost(Sub(s, k).right).id != Sub(s, k).right.id
    ensures var t := Sub(s, k); var m := Leftmost(t.right);
      && t.id in n0 && m.id in n0
      && (n0[m.id].parent.Ptr? ==> n0[m.id].parent.id in n0)
      && (n0[m.id].right.Ptr? ==> n0[m.id].right.id in n0)
      && Replaced(root, n0, m.id, n0[m.id].right).0 == root
      && var n1 := Replaced(root, n0, m.id, n0[m.id].right).1;
      && m.id in n1 && n0[t.id].right == Ptr(t.right.id) && t.right.id in n1
      && var n2 := n1[m.id := n1[m.id].(right := n0[t.id].right)];
      && Unlinked(n0, SetParent(n2, n0[t.id].right, Ptr(m.id)), t.right)
  {
    Located(root, n0, s, k);
    var t := Sub(s, k);
    SpliceDeeperUnlink(root, n0, s, k);
    var m := Leftmost(t.right);
    var n1 := Replaced(root, n0, m.id, n0[m.id].right).1;
    SpliceDeeperRehang(n0, n1, t.right, Ptr(t.id));
    ParentsInside(n0, t.right, Ptr(t.id));
    ReplacedFrame(root, n0, m.id, n0[m.id].right);
  }

  /** `replaceNode(m, m.right)` inside the right subtree `tr`: its links now spell out DeleteMin(tr). */
  lemma SpliceDeeperUnlink<V>(root: Link, n0: Store<V>, s: Shape<V>, k: int)
    requires Before(root, n0, s, k)
    requires Sub(s, k).left.Fork? && Sub(s, k).right.Fork?
    requires Leftmost(Sub(s, k).right).id != Sub(s, k).right.id
    ensures var t := Sub(s, k); var tr := t.right; var m := Leftmost(tr);
      && t.id in n0 && m.id in n0 && tr.id in n0
      && (n0[m.id].parent.Ptr? ==> n0[m.id].parent.id in n0)
      && (n0[m.id].right.Ptr? ==> n0[m.id].right.id in n0)
      && var n1 := Replaced(root, n0, m.id, n0[m.id].right).1;
      && Linked(n1, Ptr(tr.id), DeleteMin(tr)) && ParentsOk(n1, DeleteMin(tr), Ptr(t.id))
      && n1.Keys == n0.Keys && Kept(n0, n1)
      && n0[m.id].key == m.key && n1[m.id].left == Nil
      && SameLinks(n0, n1, n0.Keys - Ids(tr)) && SameParents(n0, n1, n0.Keys - Ids(tr))
      && Ids(tr) <= n0.Keys
  {
    Located(root, n0, s, k);
    var t := Sub(s, k);
    var tr := t.right;
    LinkedDistinct(n0, Ptr(t.id), t);
    assert Linked(n0, Ptr(tr.id), tr) && ParentsOk(n0, tr, Ptr(t.id));
    UnlinkLinks(n0, tr);
    UnlinkParents(n0, tr, Ptr(t.id));
    var m := Leftmost(tr);
    assert Replaced(root, n0, m.id, n0[m.id].right).1 == Replaced(Ptr(tr.id), n0, m.id, n0[m.id].right).1;
  }

  /** The links of `replaceNode(m, m.right)` on a subtree whose leftmost fork `m` is not its top. */
  lemma UnlinkLinks<V>(n0: Store<V>, tr: Shape<V>)
    requires tr.Fork? && Linked(n0, Ptr(tr.id), tr) && Ordered(tr)
    requires ParentsOk(n0, tr, n0[tr.id].parent)
    requires Leftmost(tr).id != tr.id
    ensures var m := Leftmost(tr);
      && m.id in n0 && n0[m.id].key == m.key
      && n0[m.id].parent == ParentOf(tr, m.key) && ParentOf(tr, m.key).Ptr? && ParentOf(tr, m.key).id in n0
      && (n0[m.id].right.Ptr? ==> n0[m.id].right.id in n0)
      && var n1 := Replaced(Ptr(tr.id), n0, m.id, n0[m.id].right).1;
      && Linked(n1, Ptr(tr.id), DeleteMin(tr))
      && n1.Keys == n0.Keys && Kept(n0, n1) && n1[m.id].left == Nil
      && SameLinks(n0, n1, n0.Keys - Ids(tr)) && SameParents(n0, n1, n0.Keys - Ids(tr))
      && Ids(tr) <= n0.Keys
  {
    LeftmostLemma(tr);
    var m := Leftmost(tr);
    var mk := m.key;
    var mr := n0[m.id].right;
    LinkedSub(n0, Ptr(tr.id), tr, mk);
    LinkedKeys(n0, Ptr(tr.id), tr);
    ParentsSub(n0, tr, n0[tr.id].parent, mk);
    ParentLemma(n0, Ptr(tr.id), tr, mk);
    SubLemma(tr, mk);
    LinkedDistinct(n0, Ptr(m.id), m);
    ReplacedGraft(n0, Ptr(tr.id), n0, tr, mk, mr, m.right);
    ReplacedFrame(Ptr(tr.id), n0, m.id, mr);
  }

  /** The parents after `replaceNode(m, m.right)`: m's right child now points at m's old parent. */
  lemma UnlinkParents<V>(n0: Store<V>, tr: Shape<V>, up: Link)
    requires tr.Fork? && Linked(n0, Ptr(tr.id), tr) && Ordered(tr)
    requires ParentsOk(n0, tr, up)
    requires Leftmost(tr).id != tr.id
    ensures var m := Leftmost(tr);
      && m.id in n0
      && n0[m.id].parent.Ptr? && n0[m.id].parent.id in n0
      && (n0[m.id].right.Ptr? ==> n0[m.id].right.id in n0)
      && ParentsOk(Replaced(Ptr(tr.id), n0, m.id, n0[m.id].right).1, DeleteMin(tr), up)
  {
    UnlinkLinks(n0, tr);
    LeftmostLemma(tr);
    var m := Leftmost(tr);
    var mk := m.key;
    var mr := n0[m.id].right;
    SubLemma(tr, mk);
    LinkedSub(n0, Ptr(tr.id), tr, mk);
    ParentsSub(n0, tr, up, mk);
    ParentLemma(n0, Ptr(tr.id), tr, mk);
    ReplacedGraft(n0, Ptr(tr.id), n0, tr, mk, mr, m.right);
    var n1 := Replaced(Ptr(tr.id), n0, m.id, mr).1;
    Reparent(n0, n1, mr, m.right, Ptr(m.id), ParentOf(tr, mk));
    GraftParents(n0, n1, Ptr(tr.id), tr, up, mk, m.right);
  }

  /** `m.right = node.right; node.right.parent = m`: the rest of the right subtree hangs under the successor. */
  lemma SpliceDeeperRehang<V>(n0: Store<V>, n1: Store<V>, tr: Shape<V>, up: Link)
    requires tr.Fork? && Ordered(tr) && tr.id in n1
    requires Leftmost(tr).id != tr.id && Leftmost(tr).id in n0
    requires Linked(n1, Ptr(tr.id), DeleteMin(tr)) && ParentsOk(n1, DeleteMin(tr), up)
    requires n1.Keys == n0.Keys && Kept(n0, n1)
    requires n0[Leftmost(tr).id].key == Leftmost(tr).key && n1[Leftmost(tr).id].left == Nil
    requires SameLinks(n0, n1, n0.Keys - Ids(tr)) && SameParents(n0, n1, n0.Keys - Ids(tr))
    requires Ids(tr) <= n0.Keys
    ensures var m := Leftmost(tr);
      Unlinked(n0, SetParent(n1[m.id := n1[m.id].(right := Ptr(tr.id))], Ptr(tr.id), Ptr(m.id)), tr)
  {
    var m := Leftmost(tr);
    var d := DeleteMin(tr);
    DeleteMinLemma(tr);
    LeftmostLemma(tr);
    LinkedKeys(n1, Ptr(tr.id), d);
    assert n1[m.id].key == m.key;
    assert m.id !in Ids(d);
    assert d.Fork? && d.id == tr.id;
    var n3 := SetParent(n1[m.id := n1[m.id].(right := Ptr(tr.id))], Ptr(tr.id), Ptr(m.id));
    HungRightFrame(n1, m.id, Ptr(tr.id));
    assert SameLinks(n0, n3, n0.Keys - Ids(tr)) && SameParents(n0, n3, n0.Keys - Ids(tr)) && Kept(n0, n3) by {
      SameLinksTrans(n0, n1, n3, n0.Keys - Ids(tr), n1.Keys - {m.id});
      SameParentsTrans(n0, n1, n3, n0.Keys - Ids(tr), n1.Keys - {tr.id});
      KeptTrans(n0, n1, n3);
    }
    LinkedFrame(n1, n3, Ptr(tr.id), d);
    Reparent(n1, n3, Ptr(tr.id), d, up, Ptr(m.id));
  }

  /** What `m.right = r; r.parent = m` changes in a store: those two fields and nothing else. */
  lemma HungRightFrame<V>(n1: Store<V>, m: Id, r: Link)
    requires m in n1 && (r.Ptr? ==> r.id in n1 && r.id != m)
    ensures var n3 := SetParent(n1[m := n1[m].(right := r)], r, Ptr(m));
      && n3.Keys == n1.Keys && Kept(n1, n3)
      && n3[m].right == r && n3[m].left == n1[m].left && n3[m].parent == n1[m].parent
      && (r.Ptr? ==> n3[r.id].parent == Ptr(m))
      && SameLinks(n1, n3, n1.Keys - {m})
      && SameParents(n1, n3, n1.Keys - (if r.Ptr? then {r.id} else {}))
  {
  }


  /** The store once the successor has taken over the removed node's left subtree. */
  ghost function HungLeft<V>(n3: Store<V>, m: Id, l: Link): Store<V>
    requires m in n3 && (l.Ptr? ==> l.id in n3)
  {
    SetParent(n3[m := n3[m].(left := l)], l, Ptr(m))
  }

  /** What `m.left = l; l.parent = m` changes in a store: those two fields and nothing else. */
  lemma HungLeftFrame<V>(n3: Store<V>, m: Id, l: Link)
    requires m in n3 && (l.Ptr? ==> l.id in n3 && l.id != m)
    ensures var n5 := HungLeft(n3, m, l);
      && n5.Keys == n3.Keys && Kept(n3, n5)
      && n5[m].left == l && n5[m].right == n3[m].right && n5[m].parent == n3[m].parent
      && (l.Ptr? ==> n5[l.id].parent == Ptr(m))
      && SameLinks(n3, n5, n3.Keys - {m})
      && SameParents(n3, n5, n3.Keys - (if l.Ptr? then {l.id} else {}))
  {
  }

  /** `m.left = node.left; node.left.parent = m`: the successor now carries the spliced subtree. */
  lemma SpliceHang<V>(root: Link, n0: Store<V>, n3: Store<V>, s: Shape<V>, k: int)
    requires Before(root, n0, s, k)
    requires Sub(s, k).left.Fork? && Sub(s, k).right.Fork?
    requires Unlinked(n0, n3, Sub(s, k).right)
    ensures var t := Sub(s, k); var m := Leftmost(t.right);
      && t.id in n0 && n0[t.id].left == Ptr(t.left.id) && t.left.id in n3 && m.id in n3
      && var n5 := HungLeft(n3, m.id, n0[t.id].left);
      && Linked(n5, Ptr(m.id), SplicedAt(t))
      && ParentsOk(n5, t.left, Ptr(m.id)) && ParentsOk(n5, DeleteMin(t.right), Ptr(m.id))
      && SameLinks(n0, n5, n0.Keys - Ids(t)) && SameParents(n0, n5, n0.Keys - Ids(t))
      && n5.Keys == n0.Keys && Kept(n0, n5)
      && Ids(SplicedAt(t)) <= Ids(t) && m.id in Ids(t)
      && t.id in n5 && n5[t.id].parent == n0[t.id].parent
  {
    Located(root, n0, s, k);
    var t := Sub(s, k);
    var tr := t.right;
    LinkedDistinct(n0, Ptr(t.id), t);
    LinkedKeys(n0, Ptr(t.id), t);
    LeftmostLemma(tr);
    DeleteMinLemma(tr);
    SplicedAtLemma(t);
    var m := Leftmost(tr);
    var d := DeleteMin(tr);
    LinkedSub(n0, Ptr(tr.id), tr, m.key);
    var l := n0[t.id].left;
    HungLeftFrame(n3, m.id, l);
    var n5 := HungLeft(n3, m.id, l);
    assert SameLinks(n0, n5, n0.Keys - Ids(tr) - {m.id}) && Kept(n0, n5) by {
      SameLinksTrans(n0, n3, n5, n0.Keys - Ids(tr), n3.Keys - {m.id});
      KeptTrans(n0, n3, n5);
    }
    assert SameParents(n0, n5, n0.Keys - Ids(tr) - {t.left.id}) by {
      SameParentsTrans(n0, n3, n5, n0.Keys - Ids(tr), n3.Keys - {t.left.id});
    }
    assert Linked(n5, Ptr(m.id), SplicedAt(t)) by {
      assert SplicedAt(t) == Fork(t.left, m.id, m.key, m.value, d);
      LinkedFrame(n0, n5, l, t.left);
      LinkedFrame(n3, n5, n3[m.id].right, d);
    }
    Reparent(n0, n5, l, t.left, Ptr(t.id), Ptr(m.id));
    ParentsFrame(n3, n5, d, Ptr(m.id));
  }

  /**
   * `replaceNode(node, m)` puts the successor in the removed node's place:
   * the store spells out RemoveSpliced with consistent parents.
   */
  lemma SpliceFinish<V>(root: Link, n0: Store<V>, n5: Store<V>, s: Shape<V>, k: int)
    requires Before(root, n0, s, k)
    requires Sub(s, k).left.Fork? && Sub(s, k).right.Fork?
    requires var t := Sub(s, k); var m := Leftmost(t.right);
      && m.id in n5 && Linked(n5, Ptr(m.id), SplicedAt(t))
      && ParentsOk(n5, t.left, Ptr(m.id)) && ParentsOk(n5, DeleteMin(t.right), Ptr(m.id))
      && SameLinks(n0, n5, n0.Keys - Ids(t)) && SameParents(n0, n5, n0.Keys - Ids(t))
      && n5.Keys == n0.Keys && Kept(n0, n5)
      && Ids(SplicedAt(t)) <= Ids(t) && m.id in Ids(t)
      && t.id in n5 && n5[t.id].parent == n0[t.id].parent
    ensures var t := Sub(s, k); var m := Leftmost(t.right);
      && t.id in n5
      && (n5[t.id].parent.Ptr? ==> n5[t.id].parent.id in n5)
      && var (root', n6) := Replaced(root, n5, t.id, Ptr(m.id));
      && Linked(n6, root', RemoveSpliced(s, k))
      && ParentsOk(n6, RemoveSpliced(s, k), Nil)
      && n6.Keys == n0.Keys && Kept(n0, n6)
  {
    Located(root, n0, s, k);
    var t := Sub(s, k);
    var m := Leftmost(t.right);
    var g := SplicedAt(t);
    SplicedAtLemma(t);
    LinkedKeys(n5, Ptr(m.id), g);
    ReplacedGraft(n0, root, n5, s, k, Ptr(m.id), g);
    SpliceFinishParents(root, n0, n5, s, k);
  }

  /** The parent fields after `replaceNode(node, m)`: m points at the removed node's parent, its children at m. */
  lemma SpliceFinishParents<V>(root: Link, n0: Store<V>, n5: Store<V>, s: Shape<V>, k: int)
    requires Before(root, n0, s, k)
    requires Sub(s, k).left.Fork? && Sub(s, k).right.Fork?
    requires var t := Sub(s, k); var m := Leftmost(t.right);
      && m.id in n5 && Linked(n5, Ptr(m.id), SplicedAt(t))
      && ParentsOk(n5, t.left, Ptr(m.id)) && ParentsOk(n5, DeleteMin(t.right), Ptr(m.id))
      && SameLinks(n0, n5, n0.Keys - Ids(t)) && SameParents(n0, n5, n0.Keys - Ids(t))
      && n5.Keys == n0.Keys && Kept(n0, n5)
      && Ids(SplicedAt(t)) <= Ids(t) && m.id in Ids(t)
      && t.id in n5 && n5[t.id].parent == n0[t.id].parent
    ensures var t := Sub(s, k); var m := Leftmost(t.right);
      && t.id in n5
      && (n5[t.id].parent.Ptr? ==> n5[t.id].parent.id in n5)
      && var n6 := Replaced(root, n5, t.id, Ptr(m.id)).1;
      && ParentsOk(n6, RemoveSpliced(s, k), Nil)
      && n6.Keys == n0.Keys && Kept(n0, n6)
  {
    var t := Sub(s, k);
    var m := Leftmost(t.right);
    var g := SplicedAt(t);
    assert Ordered(t) && Ids(s) <= n0.Keys && n0[t.id].parent == ParentOf(s, k) && (ParentOf(s, k).Ptr? ==> ParentOf(s, k).id in n0) by {
      Located(root, n0, s, k);
    }
    var n6 := Replaced(root, n5, t.id, Ptr(m.id)).1;
    assert SameParents(n5, n6, n5.Keys - {m.id}) && Kept(n5, n6) && n6[m.id].parent == ParentOf(s, k) by {
      LinkedKeys(n5, Ptr(m.id), g);
      ReplacedGraft(n0, root, n5, s, k, Ptr(m.id), g);
      ReplacedFrame(root, n5, t.id, Ptr(m.id));
    }
    assert ParentsOk(n6, g, ParentOf(s, k)) by {
      SplicedAtLemma(t);
      LinkedDistinct(n5, Ptr(m.id), g);
      LinkedKeys(n5, Ptr(m.id), g);
      assert Ids(t.left) <= n5.Keys - {m.id} && Ids(DeleteMin(t.right)) <= n5.Keys - {m.id};
      ParentsFrame(n5, n6, t.left, Ptr(m.id));
      ParentsFrame(n5, n6, DeleteMin(t.right), Ptr(m.id));
    }
    SameParentsTrans(n0, n5, n6, n0.Keys - Ids(t), n5.Keys - {m.id});
    KeptTrans(n0, n5, n6);
    GraftParents(n0, n6, root, s, Nil, k, g);
  }

  // ---------------------------------------------------------------------------
  // Whole removals
  // ---------------------------------------------------------------------------

  /** The nodes removeNode reads are stored, and the links below the removed fork match its shape. */
  lemma Stored<V>(root: Link, n0: Store<V>, s: Shape<V>, k: int)
    requires Before(root, n0, s, k)
    ensures var t := Sub(s, k);
      && t.id in n0 && n0[t.id].key == k
      && (n0[t.id].parent.Ptr? ==> n0[t.id].parent.id in n0)
      && (n0[t.id].left.Nil? <==> t.left.Empty?) && (n0[t.id].right.Nil? <==> t.right.Empty?)
      && (n0[t.id].left.Ptr? ==> n0[t.id].left.id in n0 && n0[t.id].left == Ptr(t.left.id))
      && (n0[t.id].right.Ptr? ==> n0[t.id].right.id in n0 && n0[t.id].right == Ptr(t.right.id))
      && Linked(n0, n0[t.id].right, t.right) && Ordered(t.right)
      && (t.right.Fork? ==> Leftmost(t.right).id in n0)
  {
    Located(root, n0, s, k);
    var t := Sub(s, k);
    LinkedKeys(n0, Ptr(t.id), t);
    if t.right.Fork? {
      LeftmostLemma(t.right);
    }
  }

  /** The root and store after removeNode, as written, removes the fork holding `k`. */
  ghost function AsWritten<V>(root: Link, n0: Store<V>, s: Shape<V>, k: int): (Link, Store<V>)
    requires Before(root, n0, s, k)
  {
    Stored(root, n0, s, k);
    var t := Sub(s, k);
    var n := n0[t.id];
    if n.left.Nil? && n.right.Nil? then Replaced(root, n0, t.id, Nil)
    else if n.left.Ptr? && n.right.Nil? then Replaced(root, n0, t.id, n.left)
    else if n.left.Nil? then Replaced(root, n0, t.id, n.right)
    else
      var m := Leftmost(t.right).id;
      Replaced(root, n0[m := n0[m].(left := n.left)], t.id, Ptr(m))
  }

  /**
   * Removal as written: with fewer than two children the store is consistent
   * again; with two children the links spell out RemoveAsWritten, the
   * removed fork is unreachable, and its old left child still names it as
   * parent.
   */
  lemma AsWrittenLemma<V>(root: Link, n0: Store<V>, s: Shape<V>, k: int)
    requires Before(root, n0, s, k)
    ensures var (root', n') := AsWritten(root, n0, s, k); var t := Sub(s, k);
      && Rewired(n0, RemoveAsWritten(s, k), root', n')
      && (t.left.Empty? || t.right.Empty? ==> ParentsOk(n', RemoveAsWritten(s, k), Nil))
      && (t.left.Fork? && t.right.Fork? ==>
        && t.id !in Ids(RemoveAsWritten(s, k))
        && t.left.id in n' && n'[t.left.id].parent == Ptr(t.id)
        && !ParentsOk(n', RemoveAsWritten(s, k), Nil))
  {
    Stored(root, n0, s, k);
    RemoveAsWrittenLemma(s, k);
    var t := Sub(s, k);
    var n := n0[t.id];
    if n.left.Nil? && n.right.Nil? {
      RemoveFew(root, n0, s, k, Nil);
    } else if n.left.Ptr? && n.right.Nil? {
      RemoveFew(root, n0, s, k, n.left);
    } else if n.left.Nil? {
      RemoveFew(root, n0, s, k, n.right);
    } else {
      RemoveTwoAsWritten(root, n0, s, k);
    }
  }

  /**
   * The root and store once the successor of the fork holding `k` is
   * unlinked from the right subtree (its right child takes its place) and
   * has taken over that subtree; nothing to do when it is the right child.
   */
  ghost function Unlinking<V>(root: Link, n0: Store<V>, s: Shape<V>, k: int): (Link, Store<V>)
    requires Before(root, n0, s, k)
    requires Sub(s, k).left.Fork? && Sub(s, k).right.Fork?
  {
    var t := Sub(s, k);
    var m := Leftmost(t.right).id;
    if m == t.right.id then (root, n0)
    else
      SpliceDeeper(root, n0, s, k);
      var (root1, n1) := Replaced(root, n0, m, n0[m].right);
      var r := n0[t.id].right;
      (root1, SetParent(n1[m := n1[m].(right := r)], r, Ptr(m)))
  }

  /** Unlinking the successor leaves the root alone and the successor on top of DeleteMin of the right subtree. */
  lemma UnlinkingLemma<V>(root: Link, n0: Store<V>, s: Shape<V>, k: int)
    requires Before(root, n0, s, k)
    requires Sub(s, k).left.Fork? && Sub(s, k).right.Fork?
    ensures Unlinking(root, n0, s, k).0 == root
    ensures Unlinked(n0, Unlinking(root, n0, s, k).1, Sub(s, k).right)
  {
    var t := Sub(s, k);
    if Leftmost(t.right).id == t.right.id {
      SpliceAdjacent(root, n0, s, k);
    } else {
      SpliceDeeper(root, n0, s, k);
    }
  }

  /** The root and store after the corrected removal of the fork holding `k`. */
  ghost function Spliced<V>(root: Link, n0: Store<V>, s: Shape<V>, k: int): (Link, Store<V>)
    requires Before(root, n0, s, k)
  {
    Stored(root, n0, s, k);
    var t := Sub(s, k);
    var n := n0[t.id];
    if n.left.Nil? || n.right.Nil? then AsWritten(root, n0, s, k)
    else
      UnlinkingLemma(root, n0, s, k);
      var (root3, n3) := Unlinking(root, n0, s, k);
      SpliceHang(root, n0, n3, s, k);
      var m := Leftmost(t.right).id;
      var n5 := HungLeft(n3, m, n.left);
      SpliceFinish(root, n0, n5, s, k);
      Replaced(root3, n5, t.id, Ptr(m))
  }

  /** The corrected removal leaves a consistent store whose links spell out RemoveSpliced. */
  lemma SplicedLemma<V>(root: Link, n0: Store<V>, s: Shape<V>, k: int)
    requires Before(root, n0, s, k)
    ensures var (root', n') := Spliced(root, n0, s, k);
      && Rewired(n0, RemoveSpliced(s, k), root', n')
      && ParentsOk(n', RemoveSpliced(s, k), Nil)
  {
    Stored(root, n0, s, k);
    var t := Sub(s, k);
    if t.left.Empty? || t.right.Empty? {
      AsWrittenLemma(root, n0, s, k);
      RemoveAsWrittenLemma(s, k);
    } else {
      UnlinkingLemma(root, n0, s, k);
      var n3 := Unlinking(root, n0, s, k).1;
      SpliceHang(root, n0, n3, s, k);
      var n5 := HungLeft(n3, Leftmost(t.right).id, n0[t.id].left);
      SpliceFinish(root, n0, n5, s, k);
    }
  }

  /**
   * Removing the least key never reaches the defective two-children branch:
   * that node has no left child, so removal as written and the corrected
   * removal coincide, on the store and on the tree.
   */
  lemma LeastRemoval<V>(root: Link, n0: Store<V>, s: Shape<V>, k: int)
    requires Before(root, n0, s, k)
    requires forall x | x in Keys(s) :: k <= x
    ensures AsWritten(root, n0, s, k) == Spliced(root, n0, s, k)
    ensures RemoveAsWritten(s, k) == RemoveSpliced(s, k)
  {
    MinimumHasNoLeft(s, k);
    Stored(root, n0, s, k);
  }
}

/**
 * What one step of TreeMap.putNode(key, value, node) does to the node store.
 *
 * The step either overwrites the value of the node holding the key, hangs a
 * new leaf below the node where the descent runs out, or hands the work to
 * a child and then only has to show that the node itself and its other
 * subtree are undisturbed.
 */
module Insertion {
  import opened Shapes
  import opened Arena

  /** The store after hanging a new leaf `c` below `id`, on the left or on the right. */
  ghost function Hung<V>(n0: Store<V>, id: Id, key: int, v: V, c: Id, goLeft: bool): (n1: Store<V>)
    requires id in n0
    ensures n1.Keys == n0.Keys + {c}
  {
    var n := n0[c := Node(key, v, Nil, Nil, Ptr(id))];
    if goLeft then n[id := n[id].(left := Ptr(c))] else n[id := n[id].(right := Ptr(c))]
  }

  /** The key is stored at `id`: overwriting its value spells out the tree with the new value, links and parents intact. */
  lemma Overwrite<V>(n0: Store<V>, id: Id, s: Shape<V>, v: V, c: Id)
    requires s.Fork? && Linked(n0, Ptr(id), s) && Ordered(s) && ParentsOk(n0, s, n0[id].parent)
    ensures var n1 := n0[id := n0[id].(value := v)];
      && Linked(n1, Ptr(id), Inserted(s, s.key, v, c))
      && ParentsOk(n1, Inserted(s, s.key, v, c), n0[id].parent)
      && SameLinks(n0, n1, n0.Keys - Ids(s))
      && SameParents(n0, n1, n0.Keys)
  {
    var n1 := n0[id := n0[id].(value := v)];
    LinkedDistinct(n0, Ptr(id), s);
    LinkedKeys(n0, Ptr(id), s);
    LinkedFrame(n0, n1, n0[id].left, s.left);
    LinkedFrame(n0, n1, n0[id].right, s.right);
    ParentsFrame(n0, n1, s.left, Ptr(id));
    ParentsFrame(n0, n1, s.right, Ptr(id));
  }

  /** The descent runs out below `id`: the new leaf `c` hangs on that side and the key was not stored before. */
  lemma HangLeaf<V>(n0: Store<V>, id: Id, s: Shape<V>, key: int, v: V, c: Id, goLeft: bool)
    requires s.Fork? && Linked(n0, Ptr(id), s) && Ordered(s) && ParentsOk(n0, s, n0[id].parent)
    requires c !in n0 && key != s.key
    requires goLeft <==> key < s.key
    requires goLeft ==> n0[id].left == Nil
    requires !goLeft ==> n0[id].right == Nil
    ensures key !in Keys(s)
    ensures var n1 := Hung(n0, id, key, v, c, goLeft);
      && Linked(n1, Ptr(id), Inserted(s, key, v, c))
      && ParentsOk(n1, Inserted(s, key, v, c), n0[id].parent)
      && SameLinks(n0, n1, n0.Keys - Ids(s))
      && SameParents(n0, n1, n0.Keys)
  {
    var n1 := Hung(n0, id, key, v, c, goLeft);
    ForkLookup(s, key);
    LinkedDistinct(n0, Ptr(id), s);
    LinkedKeys(n0, Ptr(id), s);
    var other := if goLeft then s.right else s.left;
    var otherLink := if goLeft then n0[id].right else n0[id].left;
    assert Linked(n0, otherLink, other);
    LinkedFrame(n0, n1, otherLink, other);
    ParentsFrame(n0, n1, other, Ptr(id));
    assert Linked(n1, Ptr(c), Fork(Empty, c, key, v, Empty));
  }

  /** The child's subtree has taken the key: the node `id` and its other subtree are undisturbed, so `id` spells out the insertion. */
  lemma Descended<V>(n0: Store<V>, n1: Store<V>, id: Id, s: Shape<V>, key: int, v: V, c: Id)
    requires s.Fork? && Linked(n0, Ptr(id), s) && Ordered(s) && ParentsOk(n0, s, n0[id].parent)
    requires key != s.key
    requires var child := if key < s.key then s.left else s.right;
      && child.Fork?
      && Linked(n1, Ptr(child.id), Inserted(child, key, v, c))
      && ParentsOk(n1, Inserted(child, key, v, c), Ptr(id))
      && SameLinks(n0, n1, n0.Keys - Ids(child))
      && SameParents(n0, n1, n0.Keys)
    ensures Linked(n1, Ptr(id), Inserted(s, key, v, c))
    ensures ParentsOk(n1, Inserted(s, key, v, c), n0[id].parent)
    ensures SameLinks(n0, n1, n0.Keys - Ids(s))
  {
    LinkedDistinct(n0, Ptr(id), s);
    LinkedKeys(n0, Ptr(id), s);
    var other := if key < s.key then s.right else s.left;
    var otherLink := if key < s.key then n0[id].right else n0[id].left;
    assert Linked(n0, otherLink, other);
    LinkedFrame(n0, n1, otherLink, other);
    ParentsFrame(n0, n1, other, Ptr(id));
  }
}

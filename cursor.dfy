/**
 * TreeMapIterator: an in-order cursor over a TreeMap that walks the parent
 * links instead of keeping a stack.
 *
 * `next` is the node the cursor returns next (Nil once every node has been
 * returned) and `previous` the node it returned last, which `Remove` deletes.
 * The ghost set Remaining() holds the keys still to come: every stored key
 * from next's key upwards.
 */
module Cursors {
  import opened Wrappers
  import opened Shapes
  import opened Arena
  import opened Removal
  import opened TreeMaps

  /** The two exceptions the cursor throws. */
  datatype CursorError = NoSuchElement | IllegalState

  class Cursor<V(==)> {
    const owner: TreeMap<V>
    var next: Link
    var previous: Link

    /** Both nodes are reachable in the owner, and `previous` precedes `next`. */
    ghost predicate Valid()
      reads this, owner
    {
      && owner.Valid()
      && (next.Ptr? ==> next.id in owner.nodes && next.id in Ids(owner.shape))
      && (previous.Ptr? ==> previous.id in owner.nodes && previous.id in Ids(owner.shape))
      && (previous.Ptr? && next.Ptr? ==> owner.nodes[previous.id].key < owner.nodes[next.id].key)
    }

    /** The keys not yet returned: the stored keys from next's key upwards. */
    ghost function Remaining(): set<int>
      reads this, owner
      requires Valid()
    {
      if next.Nil? then {} else set x | x in Keys(owner.shape) && owner.nodes[next.id].key <= x
    }

    /** A new cursor starts at the minimum of the tree, so every key remains. */
    constructor(tree: TreeMap<V>)
      requires tree.Valid()
      ensures Valid() && owner == tree && previous == Nil
      ensures Remaining() == tree.Content().Keys
    {
      var first := tree.Minimum(tree.root, tree.shape);
      owner := tree;
      next := first;
      previous := Nil;
      new;
      if first.Ptr? {
        LinkedKeys(tree.nodes, tree.root, tree.shape);
        LeftmostLemma(tree.shape);
      }
    }

    /** Java hasNext: whether any key remains. */
    function HasNext(): (r: bool)
      reads this, owner
      requires Valid()
      ensures r <==> Remaining() != {}
    {
      if next.Ptr? then
        LinkedIdSub(owner.nodes, owner.root, owner.shape, next.id);
        assert owner.nodes[next.id].key in Remaining();
        true
      else
        false
    }

    /**
     * `succ` is the in-order successor of the stored key `k`: the node holding
     * the least stored key above `k`, or Nil when `k` is the greatest.
     */
    ghost predicate IsSuccessor(k: int, succ: Link)
      reads this, owner
      requires owner.Valid()
    {
      && (succ.Nil? ==> forall x | x in Keys(owner.shape) :: x <= k)
      && (succ.Ptr? ==>
          && succ.id in owner.nodes && succ.id in Ids(owner.shape)
          && k < owner.nodes[succ.id].key
          && forall x | x in Keys(owner.shape) :: !(k < x < owner.nodes[succ.id].key))
    }

    /** Java nextNode, first branch: the successor of a node with a right child is the leftmost node of that subtree. */
    method LeftmostOfRight(node: Id) returns (succ: Link)
      requires owner.Valid() && node in owner.nodes && node in Ids(owner.shape)
      requires owner.nodes[node].right.Ptr?
      ensures succ.Ptr? && IsSuccessor(owner.nodes[node].key, succ)
    {
      ghost var nodes := owner.nodes;
      ghost var s := owner.shape;
      ghost var k := nodes[node].key;
      LinkedIdSub(nodes, owner.root, s, node);
      LinkedSub(nodes, owner.root, s, k);
      ghost var t := Sub(s, k);
      SubLemma(s, k);
      succ := owner.nodes[node].right;
      ghost var c := t.right;
      while owner.nodes[succ.id].left.Ptr?
        invariant c.Fork? && Linked(nodes, succ, c) && Leftmost(c) == Leftmost(t.right)
        decreases c
      {
        succ := owner.nodes[succ.id].left;
        c := c.left;
      }
      assert c == Leftmost(t.right);
      LeftmostLemma(t.right);
      assert Ids(t.right) <= Ids(t) <= Ids(s);
      RightSubtreeSuccessor(s, k);
    }

    /**
     * Java nextNode, second branch: without a right child, climb the parent
     * links until arriving from a left child; that parent is the successor,
     * and running out of parents means the node holds the greatest key.
     */
    method ClimbToSuccessor(node: Id) returns (succ: Link)
      requires owner.Valid() && node in owner.nodes && node in Ids(owner.shape)
      requires owner.nodes[node].right.Nil?
      ensures IsSuccessor(owner.nodes[node].key, succ)
    {
      ghost var nodes := owner.nodes;
      ghost var s := owner.shape;
      ghost var k := nodes[node].key;
      LinkedIdSub(nodes, owner.root, s, node);
      LinkedSub(nodes, owner.root, s, k);
      PathLemma(s, k);
      ghost var p := Path(s, k);
      ghost var j := |p| - 1;
      succ := Ptr(node);
      while true
        invariant 0 <= j < |p| && succ == Ptr(p[j].id)
        invariant forall i | j <= i < |p| - 1 :: p[i].key < k
        decreases j
      {
        PathLinks(nodes, owner.root, s, Nil, k, j);
        var up := owner.nodes[succ.id].parent;
        if up.Nil? {
          RightSpineMaximum(s, k);
          return Nil;
        }
        if owner.nodes[up.id].left == succ {
          AncestorSuccessor(s, k, j);
          PathLinks(nodes, owner.root, s, Nil, k, j - 1);
          return up;
        }
        succ := up;
        j := j - 1;
      }
    }

    /**
     * Java nextNode: return `next` and advance to its in-order successor.
     * Without a next node, NoSuchElement and nothing changes. The returned
     * key is the least remaining one and is no longer remaining.
     */
    method NextNode() returns (r: Result<Id, CursorError>)
      requires Valid()
      modifies this
      ensures Valid()
      ensures old(next).Nil? ==> r == Failure(NoSuchElement) && next == old(next) && previous == old(previous)
      ensures old(next).Ptr? ==>
        && r == Success(old(next).id) && previous == old(next)
        && owner.nodes[r.value].key in old(Remaining())
        && (forall x | x in old(Remaining()) :: owner.nodes[r.value].key <= x)
        && Remaining() == old(Remaining()) - {owner.nodes[r.value].key}
    {
      if next.Nil? {
        return Failure(NoSuchElement);
      }
      var result := next;
      ghost var k := owner.nodes[result.id].key;
      ghost var before := Remaining();
      LinkedIdSub(owner.nodes, owner.root, owner.shape, result.id);
      if owner.nodes[result.id].right.Ptr? {
        next := LeftmostOfRight(result.id);
      } else {
        next := ClimbToSuccessor(result.id);
      }
      previous := result;
      if next.Ptr? {
        Advanced(owner.shape, k, owner.nodes[next.id].key, before);
      }
      return Success(result.id);
    }

    /**
     * Java remove: delete the node returned last and forget it; without one,
     * IllegalState and nothing changes. The keys still to come are untouched.
     */
    method Remove() returns (e: Option<CursorError>)
      requires Valid()
      modifies this, owner
      ensures Valid()
      ensures next == old(next)
      ensures old(previous).Nil? ==> e == Some(IllegalState) && previous == old(previous) && unchanged(owner)
      ensures old(previous).Ptr? ==>
        && e == None && previous == Nil
        && owner.Content() == old(owner.Content()) - {old(owner.nodes[previous.id].key)}
        && owner.size == old(owner.size) - 1
        && Remaining() == old(Remaining())
    {
      if previous.Nil? {
        return Some(IllegalState);
      }
      ghost var k := owner.nodes[previous.id].key;
      var _ := owner.RemoveNode(previous);
      previous := Nil;
      return None;
    }

    /**
     * Java remove exactly as written, through RemoveNodeAsWritten. The
     * previous key is gone, no other entry changes value and size drops by
     * one. When the node had at most one child, the map and the cursor stay
     * valid and the keys still to come are untouched. When it is the least
     * stored key, as it is whenever nothing was removed since the cursor
     * started, the node has no left child and the removal is the corrected
     * one.
     */
    method RemoveLastAsWritten() returns (e: Option<CursorError>)
      requires Valid()
      modifies this, owner
      ensures next == old(next)
      ensures old(previous).Nil? ==> e == Some(IllegalState) && previous == old(previous) && unchanged(owner) && Valid()
      ensures old(previous).Ptr? ==>
        var k := old(owner.nodes[previous.id].key);
        && e == None && previous == Nil
        && owner.Sound() && k !in owner.Content() && IsSubMap(owner.Content(), old(owner.Content()))
        && owner.size == old(owner.size) - 1
      ensures old(previous).Ptr? && (forall x | x in old(owner.Content()) :: old(owner.nodes[previous.id].key) <= x) ==>
        var k := old(owner.nodes[previous.id].key);
        && Valid()
        && Before(old(owner.root), old(owner.nodes), old(owner.shape), k)
        && (owner.root, owner.nodes) == Spliced(old(owner.root), old(owner.nodes), old(owner.shape), k)
        && owner.Content() == old(owner.Content()) - {k}
        && Remaining() == old(Remaining())
      ensures old(previous).Ptr? && (old(owner.nodes[previous.id].left).Nil? || old(owner.nodes[previous.id].right).Nil?) ==>
        && Valid()
        && owner.Content() == old(owner.Content()) - {old(owner.nodes[previous.id].key)}
        && Remaining() == old(Remaining())
    {
      if previous.Nil? {
        return Some(IllegalState);
      }
      ghost var k := owner.nodes[previous.id].key;
      ghost var s := owner.shape;
      ghost var n0 := owner.nodes;
      ghost var root0 := owner.root;
      LinkedIdSub(n0, root0, s, previous.id);
      Stored(root0, n0, s, k);
      ghost var least := forall x | x in owner.Content() :: k <= x;
      if least {
        LeastRemoval(root0, n0, s, k);
        MinimumHasNoLeft(s, k);
        assert n0[previous.id].left.Nil?;
      }
      var _ := owner.RemoveNodeAsWritten(previous);
      if (n0[previous.id].left.Nil? || n0[previous.id].right.Nil?) && next.Ptr? {
        assert next.id != previous.id;
        UpperUnchanged(Keys(s), Keys(owner.shape), k, owner.nodes[next.id].key);
      }
      previous := Nil;
      return None;
    }
  }

  /** Dropping a key below `from` leaves the keys from `from` upwards as they were. */
  lemma UpperUnchanged(before: set<int>, after: set<int>, k: int, from: int)
    requires after == before - {k} && k < from
    ensures (set x | x in after && from <= x) == (set x | x in before && from <= x)
  {
  }

  /**
   * The hasNext/next loop over a whole map: the keys come out strictly
   * increasing, each stored key exactly once, as many as the map's size.
   */
  method InOrderKeys<V(==)>(tree: TreeMap<V>) returns (keys: seq<int>)
    requires tree.Valid()
    ensures Increasing(keys)
    ensures forall x :: x in keys <==> x in tree.Content()
    ensures |keys| == tree.Size()
  {
    var it := new Cursor(tree);
    ghost var all := tree.Content().Keys;
    keys := [];
    while it.HasNext()
      invariant it.Valid() && it.owner == tree
      invariant Increasing(keys) && AllBelow(keys, it.Remaining())
      invariant Elements(keys) + it.Remaining() == all
      invariant |keys| + |it.Remaining()| == |all|
      decreases |it.Remaining()|
    {
      ghost var rest := it.Remaining();
      var r := it.NextNode();
      var k := tree.nodes[r.value].key;
      Appended(keys, k, rest, all);
      keys := keys + [k];
    }
    ElementsLemma(keys);
  }

  /**
   * The next/remove loop with Java remove as written: each removed node holds
   * the least key left, so the defective branch is never reached and every
   * entry is removed, one per step, leaving the map empty.
   */
  method Drain<V(==)>(tree: TreeMap<V>) returns (count: nat)
    requires tree.Valid()
    modifies tree
    ensures tree.Valid() && tree.IsEmpty()
    ensures count == old(tree.Size())
  {
    var it := new Cursor(tree);
    count := 0;
    while it.HasNext()
      invariant it.Valid() && it.owner == tree && it.previous.Nil?
      invariant it.Remaining() == tree.Content().Keys
      invariant count + tree.size == old(tree.size)
      decreases |it.Remaining()|
    {
      var _ := it.NextNode();
      var _ := it.RemoveLastAsWritten();
      count := count + 1;
    }
  }

  /** Every key in `keys` is below its successors. */
  ghost predicate Increasing(keys: seq<int>)
  {
    forall i, j | 0 <= i < j < |keys| :: keys[i] < keys[j]
  }

  /** Every key in `keys` is below every key in `rest`. */
  ghost predicate AllBelow(keys: seq<int>, rest: set<int>)
  {
    forall i, x | 0 <= i < |keys| && x in rest :: keys[i] < x
  }

  /**
   * Appending the least of the keys still to come keeps the keys increasing
   * and below the others, and moves it from the keys to come to the keys seen.
   */
  lemma Appended(keys: seq<int>, k: int, rest: set<int>, all: set<int>)
    requires Increasing(keys) && AllBelow(keys, rest)
    requires k in rest && forall x | x in rest :: k <= x
    requires Elements(keys) + rest == all && |keys| + |rest| == |all|
    ensures Increasing(keys + [k]) && AllBelow(keys + [k], rest - {k})
    ensures Elements(keys + [k]) + (rest - {k}) == all && |keys + [k]| + |rest - {k}| == |all|
  {
    assert (keys + [k])[..|keys|] == keys;
  }

  /** The keys a sequence holds, collected from its end. */
  ghost function Elements(keys: seq<int>): set<int>
  {
    if keys == [] then {} else Elements(keys[..|keys| - 1]) + {keys[|keys| - 1]}
  }

  /** A key is collected exactly when the sequence holds it. */
  lemma {:induction false} ElementsLemma(keys: seq<int>)
    ensures forall x :: x in Elements(keys) <==> x in keys
  {
    if keys != [] {
      var front := keys[..|keys| - 1];
      ElementsLemma(front);
      assert keys == front + [keys[|keys| - 1]];
    }
  }

  /** Moving `next` from `k` to its successor `m` takes exactly `k` out of the remaining keys. */
  lemma Advanced<V>(s: Shape<V>, k: int, m: int, before: set<int>)
    requires k in Keys(s) && k < m
    requires forall x | x in Keys(s) :: !(k < x < m)
    requires before == set x | x in Keys(s) && k <= x
    ensures (set x | x in Keys(s) && m <= x) == before - {k}
  {
  }
}

/**
 * The TreeMap class: an unbalanced binary search tree of nodes with parent
 * back-links, a root link and a size counter.
 *
 * Keys are integers under their natural order, so the comparator is the
 * three-way comparison of `int`; Java `null` results become `Nil` links or
 * `None`. The ghost field `shape` is the tree the links spell out, and
 * `Content()` the key-to-value map it stands for.
 */
module TreeMaps {
  import opened Wrappers
  import opened Shapes
  import opened Arena
  import opened Insertion
  import opened Removal

  /** The map after putting each pair in order, later pairs overwriting earlier ones. */
  ghost function Overlay<V>(m: map<int, V>, entries: seq<(int, V)>): map<int, V>
  {
    if |entries| == 0 then m
    else
      var (k, v) := entries[|entries| - 1];
      Overlay(m, entries[..|entries| - 1])[k := v]
  }

  /** Putting a sequence of pairs stores exactly the old keys and the keys of the pairs, each with its last value. */
  lemma {:induction false} OverlayLemma<V>(m: map<int, V>, entries: seq<(int, V)>)
    ensures Overlay(m, entries).Keys == m.Keys + set i | 0 <= i < |entries| :: entries[i].0
    ensures forall i | 0 <= i < |entries| && (forall j | i < j < |entries| :: entries[j].0 != entries[i].0) ::
      Overlay(m, entries)[entries[i].0] == entries[i].1
    ensures forall x | x in m && (forall j | 0 <= j < |entries| :: entries[j].0 != x) :: Overlay(m, entries)[x] == m[x]
  {
    if |entries| > 0 {
      var init := entries[..|entries| - 1];
      OverlayLemma(m, init);
      assert forall i | 0 <= i < |init| :: init[i] == entries[i];
      assert (set i | 0 <= i < |entries| :: entries[i].0) == (set i | 0 <= i < |init| :: init[i].0) + {entries[|entries| - 1].0};
    }
  }

  class TreeMap<V(==)> {
    var root: Link
    var size: int
    var nodes: Store<V>
    var nextId: Id
    ghost var shape: Shape<V>

    /** The links spell out an ordered tree, and every allocated node has an identity below `nextId`. */
    ghost predicate Sound()
      reads this
    {
      Linked(nodes, root, shape) && Ordered(shape) && (forall i | i in nodes :: i < nextId)
    }

    /** Sound, parent fields agree with the links, and `size` counts the reachable nodes. */
    ghost predicate Valid()
      reads this
    {
      Sound() && ParentsOk(nodes, shape, Nil) && size == Count(shape)
    }

    /** The key-to-value map the tree stands for. */
    ghost function Content(): map<int, V>
      reads this
    {
      Entries(shape)
    }

    constructor()
      ensures Valid() && Content() == map[] && size == 0
    {
      root := Nil;
      size := 0;
      nodes := map[];
      nextId := 0;
      shape := Empty;
    }

    /** The copying constructor: an empty map, then each pair put in order. */
    constructor FromEntries(entries: seq<(int, V)>)
      ensures Valid() && Content() == Overlay(map[], entries)
    {
      root := Nil;
      size := 0;
      nodes := map[];
      nextId := 0;
      shape := Empty;
      new;
      PutAll(entries);
    }

    // -------------------------------------------------------------------------
    // Reads
    // -------------------------------------------------------------------------

    function Size(): (r: int)
      reads this
      requires Valid()
      ensures r == |Content()|
    {
      KeysCount(shape);
      size
    }

    function IsEmpty(): (r: bool)
      reads this
      requires Valid()
      ensures r <==> Content() == map[]
    {
      EmptyEntries(shape);
      size == 0
    }

    /** Keyed descent: the reachable node holding `key`, which is the only one, or Nil when there is none. */
    function GetNode(key: int, link: Link, ghost s: Shape<V>): (r: Link)
      reads this
      requires Linked(nodes, link, s) && Ordered(s)
      ensures r.Nil? <==> key !in Keys(s)
      ensures r.Ptr? ==> r.id in Ids(s) && r.id in nodes && nodes[r.id].key == key && nodes[r.id].value == Find(s, key)
      ensures r.Ptr? ==> forall i | i in Ids(s) && i in nodes && nodes[i].key == key :: i == r.id
      decreases s
    {
      if link.Nil? then Nil
      else
        LinkedUnique(nodes, link, s);
        ForkLookup(s, key);
        if key == nodes[link.id].key then link
        else if key < nodes[link.id].key then GetNode(key, nodes[link.id].left, s.left)
        else GetNode(key, nodes[link.id].right, s.right)
    }

    /**
     * Descent that also requires the value to match: a node exactly when `key`
     * is stored with `value`. A node with the key but another value ends the
     * search with Nil.
     */
    function GetNodeWithValue(key: int, value: V, link: Link, ghost s: Shape<V>): (r: Link)
      reads this
      requires Linked(nodes, link, s) && Ordered(s)
      ensures r.Ptr? <==> key in Keys(s) && Find(s, key) == value
      ensures r.Ptr? ==> r.id in Ids(s) && r.id in nodes && nodes[r.id].key == key && nodes[r.id].value == value
      decreases s
    {
      if link.Nil? then Nil
      else
        ForkLookup(s, key);
        if key == nodes[link.id].key && value == nodes[link.id].value then link
        else if key < nodes[link.id].key then GetNodeWithValue(key, value, nodes[link.id].left, s.left)
        else if nodes[link.id].key < key then GetNodeWithValue(key, value, nodes[link.id].right, s.right)
        else Nil
    }

    /** Scan by value, the node before its left subtree before its right subtree: the first fork in that order holding `value`. */
    function SearchNode(value: V, link: Link, ghost s: Shape<V>): (r: Link)
      reads this
      requires Linked(nodes, link, s)
      ensures var p := Preorder(s); var j := FirstHolding(p, value);
        && (r.Nil? <==> j == |p|)
        && (r.Ptr? ==> r.id == p[j].id)
      ensures r.Ptr? <==> value in Vals(s)
      ensures r.Ptr? ==> r.id in Ids(s) && r.id in nodes && nodes[r.id].value == value
      decreases s
    {
      if link.Nil? then Nil
      else
        FirstHoldingAppend([s] + Preorder(s.left), Preorder(s.right), value);
        FirstHoldingAppend([s], Preorder(s.left), value);
        PreorderVals(s, value);
        if value == nodes[link.id].value then link
        else
          var searchL := SearchNode(value, nodes[link.id].left, s.left);
          if searchL.Ptr? then searchL
          else
            var searchR := SearchNode(value, nodes[link.id].right, s.right);
            if searchR.Ptr? then searchR
            else Nil
    }

    function Get(key: int): (r: Option<V>)
      reads this
      requires Valid()
      ensures r == if key in Content() then Some(Content()[key]) else None
    {
      var node := GetNode(key, root, shape);
      if node.Nil? then None else Some(nodes[node.id].value)
    }

    function ContainsKey(key: int): (r: bool)
      reads this
      requires Valid()
      ensures r <==> key in Content()
    {
      GetNode(key, root, shape).Ptr?
    }

    function ContainsValue(value: V): (r: bool)
      reads this
      requires Valid()
      ensures r <==> value in Content().Values
    {
      ValsEntries(shape, value);
      SearchNode(value, root, shape).Ptr?
    }

    /** The leftmost node below `head`: Nil exactly when `head` is Nil, otherwise a node without a left child holding the smallest key. */
    method Minimum(head: Link, ghost s: Shape<V>) returns (m: Link)
      requires Linked(nodes, head, s) && Ordered(s)
      ensures m.Nil? <==> head.Nil?
      ensures m.Ptr? ==> s.Fork? && m.id == Leftmost(s).id
      ensures m.Ptr? ==> m.id in Ids(s) && m.id in nodes && nodes[m.id].left == Nil
      ensures m.Ptr? ==> forall x | x in Keys(s) :: nodes[m.id].key <= x
    {
      var h := head;
      ghost var c := s;
      while h != Nil
        invariant Linked(nodes, h, c)
        invariant c.Fork? ==> s.Fork? && Leftmost(c) == Leftmost(s)
        invariant head.Ptr? ==> h.Ptr?
        decreases c
      {
        if nodes[h.id].left == Nil {
          LeftmostLemma(s);
          return h;
        }
        h := nodes[h.id].left;
        c := c.left;
      }
      return Nil;
    }

    // -------------------------------------------------------------------------
    // Insertion
    // -------------------------------------------------------------------------

    /** Java put/putNode(key, value): an empty map gets a root node, otherwise the descent from the root inserts or overwrites. */
    method Put(key: int, value: V) returns (before: Option<V>)
      requires Valid()
      modifies this
      ensures Valid()
      ensures Content() == old(Content())[key := value]
      ensures before == if key in old(Content()) then Some(old(Content())[key]) else None
      ensures size == old(size) + (if key in old(Content()) then 0 else 1)
      ensures nodes.Keys == old(nodes.Keys) + (if key in old(Content()) then {} else {old(nextId)})
    {
      ghost var s := shape;
      InsertedLemma(s, key, value, nextId);
      InsertedEntries(s, key, value, nextId);
      if root.Nil? {
        var created := nextId;
        nodes := nodes[created := Node(key, value, Nil, Nil, Nil)];
        root := Ptr(created);
        nextId := nextId + 1;
        size := size + 1;
        shape := Inserted(s, key, value, created);
        return None;
      }
      assert nodes[root.id].parent == Nil;
      before := PutNode(key, value, root.id, s);
      shape := Inserted(s, key, value, old(nextId));
      assert Sound();
    }

    /** Java putNode(key, value, node): overwrite at the node holding `key`, or hang a new leaf where the descent runs out. */
    method PutNode(key: int, value: V, id: Id, ghost s: Shape<V>) returns (before: Option<V>)
      requires s.Fork? && Linked(nodes, Ptr(id), s) && Ordered(s)
      requires ParentsOk(nodes, s, nodes[id].parent)
      requires forall i | i in nodes :: i < nextId
      modifies this
      decreases s
      ensures root == old(root) && shape == old(shape) && id in nodes
      ensures Linked(nodes, Ptr(id), Inserted(s, key, value, old(nextId)))
      ensures ParentsOk(nodes, Inserted(s, key, value, old(nextId)), old(nodes[id].parent))
      ensures SameLinks(old(nodes), nodes, old(nodes.Keys) - Ids(s))
      ensures SameParents(old(nodes), nodes, old(nodes.Keys))
      ensures before == if key in Keys(s) then Some(Find(s, key)) else None
      ensures key in Keys(s) ==> nodes.Keys == old(nodes.Keys) && nextId == old(nextId) && size == old(size)
      ensures key !in Keys(s) ==>
        nodes.Keys == old(nodes.Keys) + {old(nextId)} && nextId == old(nextId) + 1 && size == old(size) + 1
    {
      ghost var n0 := nodes;
      var n := nodes[id];
      ForkLookup(s, key);
      if key == n.key {
        before := Some(n.value);
        nodes := nodes[id := n.(value := value)];
        Overwrite(n0, id, s, value, nextId);
        return;
      }
      if key < n.key {
        if n.left == Nil {
          var created := nextId;
          nodes := nodes[created := Node(key, value, Nil, Nil, Ptr(id))];
          nodes := nodes[id := nodes[id].(left := Ptr(created))];
          nextId := nextId + 1;
          size := size + 1;
          HangLeaf(n0, id, s, key, value, created, true);
          return None;
        }
        before := PutNode(key, value, n.left.id, s.left);
        Descended(n0, nodes, id, s, key, value, old(nextId));
        return;
      }
      if n.right == Nil {
        var created := nextId;
        nodes := nodes[created := Node(key, value, Nil, Nil, Ptr(id))];
        nodes := nodes[id := nodes[id].(right := Ptr(created))];
        nextId := nextId + 1;
        size := size + 1;
        HangLeaf(n0, id, s, key, value, created, false);
        return None;
      }
      before := PutNode(key, value, n.right.id, s.right);
      Descended(n0, nodes, id, s, key, value, old(nextId));
    }

    /** Java putAll over a sequence of pairs: one put per pair, in order. */
    method PutAll(entries: seq<(int, V)>)
      requires Valid()
      modifies this
      ensures Valid()
      ensures Content() == Overlay(old(Content()), entries)
    {
      for i := 0 to |entries|
        invariant Valid()
        invariant Content() == Overlay(old(Content()), entries[..i])
      {
        assert entries[..i + 1][..i] == entries[..i];
        var _ := Put(entries[i].0, entries[i].1);
      }
      assert entries[..|entries|] == entries;
    }

    // -------------------------------------------------------------------------
    // Removal
    // -------------------------------------------------------------------------

    /** Java replaceNode: the link that pointed at `target` now points at `replacement`, which takes over target's parent. */
    method ReplaceNode(target: Id, replacement: Link)
      requires target in nodes
      requires nodes[target].parent.Ptr? ==> nodes[target].parent.id in nodes
      requires replacement.Ptr? ==> replacement.id in nodes
      modifies this
      ensures (root, nodes) == Replaced(old(root), old(nodes), target, replacement)
      ensures size == old(size) && nextId == old(nextId) && shape == old(shape)
    {
      var parent := nodes[target].parent;
      if parent.Nil? {
        root := replacement;
        if replacement.Ptr? {
          nodes := nodes[replacement.id := nodes[replacement.id].(parent := Nil)];
        }
      } else if nodes[parent.id].left == Ptr(target) {
        nodes := nodes[parent.id := nodes[parent.id].(left := replacement)];
        if replacement.Ptr? {
          nodes := nodes[replacement.id := nodes[replacement.id].(parent := parent)];
        }
      } else if nodes[parent.id].right == Ptr(target) {
        nodes := nodes[parent.id := nodes[parent.id].(right := replacement)];
        if replacement.Ptr? {
          nodes := nodes[replacement.id := nodes[replacement.id].(parent := parent)];
        }
      }
    }

    /**
     * Java removeNode exactly as written. With fewer than two children the
     * node is removed correctly. With two children the successor takes the
     * node's place without being unlinked from the right subtree: the keys
     * between the node and the successor's old parent are cut off while
     * `size` still drops by one, and the old left child's parent field keeps
     * naming the removed node.
     */
    method RemoveNodeAsWritten(node: Link) returns (removed: Link)
      requires Valid()
      requires node.Ptr? ==> node.id in nodes && node.id in Ids(shape)
      modifies this
      ensures removed == node && nextId == old(nextId)
      ensures node.Nil? ==> root == old(root) && nodes == old(nodes) && shape == old(shape) && size == old(size)
      ensures node.Ptr? ==>
        var k := old(nodes[node.id].key);
        && Before(old(root), old(nodes), old(shape), k)
        && (root, nodes) == AsWritten(old(root), old(nodes), old(shape), k)
        && shape == RemoveAsWritten(old(shape), k)
        && size == old(size) - 1
        && Sound() && nodes.Keys == old(nodes.Keys) && Kept(old(nodes), nodes)
        && k !in Content() && IsSubMap(Content(), old(Content()))
      ensures node.Ptr? && (old(nodes[node.id].left).Nil? || old(nodes[node.id].right).Nil?) ==>
        Valid() && Content() == old(Content()) - {old(nodes[node.id].key)}
      ensures node.Ptr? ==>
        var k := old(nodes[node.id].key);
        SafeRemoval(Sub(old(shape), k)) ==>
          && Content() == old(Content()) - {k}
          && Ids(old(shape)) - {node.id} <= Ids(shape)
      ensures node.Ptr? && old(nodes[node.id].left).Ptr? && old(nodes[node.id].right).Ptr? ==>
        && node.id !in Ids(shape)
        && old(nodes[node.id].left).id in nodes
        && nodes[old(nodes[node.id].left).id].parent == node
        && !Valid()
    {
      removed := node;
      if node.Nil? {
        return;
      }
      ghost var k := nodes[node.id].key;
      ghost var s := shape;
      ghost var n0 := nodes;
      ghost var root0 := root;
      RelinkAsWritten(node.id);
      Stored(root0, n0, s, k);
      AsWrittenLemma(root0, n0, s, k);
      size := size - 1;
      shape := RemoveAsWritten(s, k);
      RemoveAsWrittenLemma(s, k);
      RemoveSplicedLemma(s, k);
    }

    /** The branches of Java removeNode as written, on the links and parent fields. */
    method RelinkAsWritten(node: Id)
      requires Valid()
      requires node in nodes && node in Ids(shape)
      modifies this
      ensures var k := old(nodes[node].key);
        && Before(old(root), old(nodes), old(shape), k)
        && Sub(old(shape), k).id == node
        && (root, nodes) == AsWritten(old(root), old(nodes), old(shape), k)
      ensures shape == old(shape) && size == old(size) && nextId == old(nextId)
    {
      var n := nodes[node];
      ghost var k := n.key;
      ghost var s := shape;
      ghost var n0 := nodes;
      ghost var root0 := root;
      assert Before(root0, n0, s, k) && Sub(s, k).id == node by {
        LinkedIdSub(n0, root0, s, node);
      }
      Stored(root0, n0, s, k);
      if n.left.Nil? && n.right.Nil? {
        ReplaceNode(node, Nil);
      } else if n.left.Ptr? && n.right.Nil? {
        ReplaceNode(node, n.left);
      } else if n.left.Nil? {
        ReplaceNode(node, n.right);
      } else {
        var min := Minimum(n.right, Sub(s, k).right);
        nodes := nodes[min.id := nodes[min.id].(left := n.left)];
        ReplaceNode(node, min);
      }
    }

    /**
     * Node removal with the two-children branch corrected: the successor is
     * first unlinked from the right subtree (its own right child takes its
     * place) unless it is the right child itself, then it takes over both of
     * the node's subtrees and the node's place. The other branches are those
     * of RemoveNodeAsWritten.
     */
    method RemoveNode(node: Link) returns (removed: Link)
      requires Valid()
      requires node.Ptr? ==> node.id in nodes && node.id in Ids(shape)
      modifies this
      ensures Valid()
      ensures removed == node && nextId == old(nextId)
      ensures nodes.Keys == old(nodes.Keys) && Kept(old(nodes), nodes)
      ensures node.Nil? ==> root == old(root) && nodes == old(nodes) && shape == old(shape) && size == old(size)
      ensures node.Ptr? ==>
        var k := old(nodes[node.id].key);
        && Before(old(root), old(nodes), old(shape), k)
        && (root, nodes) == Spliced(old(root), old(nodes), old(shape), k)
        && shape == RemoveSpliced(old(shape), k)
        && Content() == old(Content()) - {k}
        && size == old(size) - 1
        && Ids(old(shape)) - {node.id} <= Ids(shape)
    {
      if node.Ptr? && nodes[node.id].left.Ptr? && nodes[node.id].right.Ptr? {
        ghost var k := nodes[node.id].key;
        ghost var s := shape;
        ghost var n0 := nodes;
        ghost var root0 := root;
        RemoveWithSuccessor(node.id);
        SplicedLemma(root0, n0, s, k);
        RemoveSplicedLemma(s, k);
        removed := node;
      } else {
        if node.Ptr? {
          LinkedIdSub(nodes, root, shape, node.id);
          RemoveAsWrittenLemma(shape, nodes[node.id].key);
          RemoveSplicedLemma(shape, nodes[node.id].key);
        }
        removed := RemoveNodeAsWritten(node);
      }
    }

    /** The corrected two-children branch of RemoveNode, on the store. */
    method RemoveWithSuccessor(node: Id)
      requires Valid()
      requires node in nodes && node in Ids(shape)
      requires nodes[node].left.Ptr? && nodes[node].right.Ptr?
      modifies this
      ensures var k := old(nodes[node].key);
        && Before(old(root), old(nodes), old(shape), k)
        && (root, nodes) == Spliced(old(root), old(nodes), old(shape), k)
        && Sub(old(shape), k).id == node
        && shape == RemoveSpliced(old(shape), k)
        && size == old(size) - 1 && nextId == old(nextId)
    {
      var n := nodes[node];
      ghost var k := n.key;
      ghost var s := shape;
      ghost var n0 := nodes;
      ghost var root0 := root;
      var min := UnlinkSuccessor(node);
      ghost var n3 := nodes;
      assert n.left.id in nodes by {
        Stored(root0, n0, s, k);
      }
      nodes := nodes[min := nodes[min].(left := n.left)];
      nodes := nodes[n.left.id := nodes[n.left.id].(parent := Ptr(min))];
      assert nodes == HungLeft(n3, min, n.left);
      assert nodes[node].parent.Ptr? ==> nodes[node].parent.id in nodes by {
        UnlinkingLemma(root0, n0, s, k);
        SpliceHang(root0, n0, n3, s, k);
        SpliceFinish(root0, n0, nodes, s, k);
      }
      ReplaceNode(node, Ptr(min));
      size := size - 1;
      shape := RemoveSpliced(s, k);
    }

    /**
     * The first phase of the corrected branch: find the successor `min` of
     * `node`; unless it is node's right child, let min's right child take its
     * place and hang node's right subtree below it.
     */
    method UnlinkSuccessor(node: Id) returns (min: Id)
      requires Valid()
      requires node in nodes && node in Ids(shape)
      requires nodes[node].left.Ptr? && nodes[node].right.Ptr?
      modifies this
      ensures var k := old(nodes[node].key);
        && Before(old(root), old(nodes), old(shape), k)
        && Sub(old(shape), k).id == node
        && Sub(old(shape), k).left.Fork? && Sub(old(shape), k).right.Fork?
        && min == Leftmost(Sub(old(shape), k).right).id
        && (root, nodes) == Unlinking(old(root), old(nodes), old(shape), k)
        && nodes.Keys == old(nodes.Keys) && min in nodes
      ensures shape == old(shape) && size == old(size) && nextId == old(nextId)
    {
      var n := nodes[node];
      ghost var k := n.key;
      ghost var s := shape;
      ghost var n0 := nodes;
      ghost var root0 := root;
      assert Before(root0, n0, s, k) && Sub(s, k).id == node by {
        LinkedIdSub(n0, root0, s, node);
      }
      Stored(root0, n0, s, k);
      var m := Minimum(n.right, Sub(s, k).right);
      min := m.id;
      if m != n.right {
        assert (n0[min].parent.Ptr? ==> n0[min].parent.id in n0)
          && (n0[min].right.Ptr? ==> n0[min].right.id in n0) by {
          SpliceDeeper(root0, n0, s, k);
        }
        ReplaceNode(min, nodes[min].right);
        nodes := nodes[min := nodes[min].(right := n.right)];
        nodes := nodes[n.right.id := nodes[n.right.id].(parent := m)];
      }
      assert (root, nodes) == Unlinking(root0, n0, s, k);
      assert nodes.Keys == n0.Keys by {
        UnlinkingLemma(root0, n0, s, k);
      }
    }

    /** Java remove: delete the node holding `key`, if any, and return its value. */
    method Remove(key: int) returns (r: Option<V>)
      requires Valid()
      modifies this
      ensures Valid()
      ensures Content() == old(Content()) - {key}
      ensures r == if key in old(Content()) then Some(old(Content())[key]) else None
      ensures size == old(size) - (if key in old(Content()) then 1 else 0)
    {
      var node := GetNode(key, root, shape);
      var removed := RemoveNode(node);
      r := if removed.Nil? then None else Some(nodes[removed.id].value);
    }

    /**
     * Java remove exactly as written, through RemoveNodeAsWritten: the key is
     * gone, no other entry changes value and size drops by one when the key
     * was stored; the whole map survives unless the two-children branch
     * cuts off part of the successor's subtree, and it stays valid when the
     * node had at most one child.
     */
    method RemoveKeyAsWritten(key: int) returns (r: Option<V>)
      requires Valid()
      modifies this
      ensures Sound()
      ensures key !in Content() && IsSubMap(Content(), old(Content()))
      ensures r == if key in old(Content()) then Some(old(Content())[key]) else None
      ensures size == old(size) - (if key in old(Content()) then 1 else 0)
      ensures key !in old(Content()) ==> Valid() && Content() == old(Content())
      ensures key in old(Content()) && Sub(old(shape), key).Fork? && SafeRemoval(Sub(old(shape), key)) ==> Content() == old(Content()) - {key}
      ensures key in old(Content()) && Sub(old(shape), key).Fork? && (Sub(old(shape), key).left.Empty? || Sub(old(shape), key).right.Empty?) ==>
        Valid() && Content() == old(Content()) - {key}
    {
      var node := GetNode(key, root, shape);
      if node.Ptr? {
        LinkedSub(nodes, root, shape, key);
        Stored(root, nodes, shape, key);
        SubLemma(shape, key);
        assert node.id == Sub(shape, key).id;
        assert nodes[node.id].left.Nil? <==> Sub(shape, key).left.Empty?;
        assert nodes[node.id].right.Nil? <==> Sub(shape, key).right.Empty?;
      }
      var removed := RemoveNodeAsWritten(node);
      r := if removed.Nil? then None else Some(nodes[removed.id].value);
    }

    /** Java clear: drop the root and reset the counter. */
    method Clear()
      requires Valid()
      modifies this
      ensures Valid() && Content() == map[] && size == 0
      ensures nodes == old(nodes) && nextId == old(nextId)
    {
      root := Nil;
      size := 0;
      shape := Empty;
    }
  }
}

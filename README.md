# TreeMap: an unbalanced binary search tree with parent links

This project models the core of `tvestergaard.treemap.TreeMap`, a `java.util.Map`
implemented as an unbalanced binary search tree whose nodes carry a key, a value,
left and right children and a back-link to their parent. It models two parts:

- **The tree engine.** This covers:
  - insertion (`putNode`, both overloads);
  - keyed lookup (`getNode` by key, and by key and value);
  - the unordered search by value (`searchNode`);
  - `minimum`, `replaceNode` and the three-case `removeNode`;
  - the `size` counter, `clear`, and the public `get`, `put`, `remove`,
    `containsKey`, `containsValue`, `size`, `isEmpty` and `putAll`.
- **The in-order cursor** (`TreeMapIterator`). It steps from node to successor
  using only the parent links, and it can delete the node it returned last.

## How the model is built

- **Node store.** The nodes live in a store, `map<Id, Node<V>>`. `Link` is
  `Nil` (Java `null`) or `Ptr(id)`.
  - The class `TreeMaps.TreeMap` holds the fields the Java methods update in
    place: `root`, `size` and the store.
  - It also holds an allocation counter, `nextId`, which stands in for `new Node`.
  - Removed nodes stay in the store, because Java objects outlive their unlinking
    while something still refers to them.
- **Abstract tree.** A ghost field `shape` is a value tree (`Shapes.Shape`) that
  records the id, key and value of every reachable node. Three relations tie it to
  the store:
  - `Arena.Linked`: following `left`/`right` from `root` spells out `shape`.
  - `Arena.ParentsOk`: each reachable node's `parent` is the node above it.
  - `Shapes.Ordered`: the binary-search-tree order.

  `TreeMap.Valid()` also demands `size == Count(shape)`. The abstract map is
  `Content() == Entries(shape)`.
- **Methods proved against functions.** Each state-changing method is proved
  against a ghost function of the old state:
  - `Shapes.Inserted` for `putNode`;
  - `Arena.Replaced` for `replaceNode`;
  - `Removal.AsWritten` and `Removal.Spliced` for the two versions of `removeNode`.

  Lemmas then prove what those functions do to the tree and to the map.
- **Cursor.** `Cursors.Cursor` has the Java fields `next` and `previous`, and a
  `const owner` for the enclosing map. Its ghost `Remaining()` is the set of
  stored keys from `next`'s key upwards.
- **Keys and comparator.** Keys are `int` with the natural order. Java checks
  `equals` first and then calls the comparator. With a comparator consistent with
  equality, that collapses into one three-way comparison.

## Model

| member | source | states |
|---|---|---|
| TreeMaps.TreeMap.constructor | src/main/java/tvestergaard/treemap/TreeMap.java:47-50 | a new map is valid, empty and has size 0 |
| TreeMaps.TreeMap.FromEntries | src/main/java/tvestergaard/treemap/TreeMap.java:61-65 | the copying constructor yields a valid map equal to putting the given pairs in order into an empty map |
| TreeMaps.OverlayLemma | src/main/java/tvestergaard/treemap/TreeMap.java:491-498 | after a run of puts, the key set is the old keys plus the given keys; the last pair given for a key wins; keys not given keep their old value |
| TreeMaps.TreeMap.PutAll | src/main/java/tvestergaard/treemap/TreeMap.java:491-498 | the map stays valid, and its contents become the old contents overlaid with the pairs in order |
| TreeMaps.TreeMap.Size | src/main/java/tvestergaard/treemap/TreeMap.java:293-296 | the size counter equals the number of entries |
| TreeMaps.TreeMap.IsEmpty | src/main/java/tvestergaard/treemap/TreeMap.java:303-306 | the result is true exactly when the map has no entries |
| Shapes.KeysCount | src/main/java/tvestergaard/treemap/TreeMap.java:293-296 | in an ordered tree the number of nodes equals the number of distinct keys |
| Shapes.EmptyEntries | src/main/java/tvestergaard/treemap/TreeMap.java:303-306 | zero nodes, no entries and the empty tree are the same thing |
| TreeMaps.TreeMap.GetNode | src/main/java/tvestergaard/treemap/TreeMap.java:1392-1409 | the keyed descent returns null exactly when the key is not stored; otherwise it returns a reachable node holding that key and its value, and that node is the only reachable node holding the key |
| Shapes.SubLemma | src/main/java/tvestergaard/treemap/TreeMap.java:1392-1409 | the fork found by descending by key exists exactly when the key is stored, holds that key and its value, and is a subtree of the tree |
| Shapes.FindFork | src/main/java/tvestergaard/treemap/TreeMap.java:1401-1406 | a stored key smaller or larger than a node's key is stored in that node's left or right subtree, with the same value |
| Arena.LinkedSub | src/main/java/tvestergaard/treemap/TreeMap.java:1392-1409 | the node reached by following links to a stored key holds that key and its value |
| Arena.LinkedIdSub | src/main/java/tvestergaard/treemap/TreeMap.java:1392-1409 | every reachable node is the one that descending by its own key reaches |
| Arena.LinkedUnique | src/main/java/tvestergaard/treemap/TreeMap.java:1392-1409 | two reachable nodes with the same key are the same node |
| Arena.LinkedKeys | src/main/java/tvestergaard/treemap/TreeMap.java:73-99 | every node reachable from a link is in the store and holds one of the tree's keys |
| TreeMaps.TreeMap.GetNodeWithValue | src/main/java/tvestergaard/treemap/TreeMap.java:1420-1438 | the two-argument descent returns a node exactly when the key is stored with that value, and the node holds both |
| TreeMaps.TreeMap.SearchNode | src/main/java/tvestergaard/treemap/TreeMap.java:1448-1466 | the scan returns the first node in node, left, right order whose value matches; it returns null exactly when no reachable node holds the value |
| Shapes.PreorderVals | src/main/java/tvestergaard/treemap/TreeMap.java:1448-1466 | a value occurs in the tree exactly when the node-left-right scan finds a node holding it |
| Shapes.FirstHoldingAppend | src/main/java/tvestergaard/treemap/TreeMap.java:1457-1463 | searching a concatenation finds a match in the first part before looking in the second |
| Shapes.ValsEntries | src/main/java/tvestergaard/treemap/TreeMap.java:332-339 | the values held in the nodes are exactly the values of the map |
| TreeMaps.TreeMap.Get | src/main/java/tvestergaard/treemap/TreeMap.java:357-362 | returns the value stored for the key, or None when the key is absent |
| TreeMaps.TreeMap.ContainsKey | src/main/java/tvestergaard/treemap/TreeMap.java:316-323 | true exactly when the key is stored |
| TreeMaps.TreeMap.ContainsValue | src/main/java/tvestergaard/treemap/TreeMap.java:332-339 | true exactly when some key maps to the value |
| TreeMaps.TreeMap.Minimum | src/main/java/tvestergaard/treemap/TreeMap.java:447-456 | returns null exactly when the head is null; otherwise it returns the leftmost node of the subtree, which has no left child and whose key is at most every key in the subtree |
| Shapes.LeftmostLemma | src/main/java/tvestergaard/treemap/TreeMap.java:447-456 | the leftmost fork holds the smallest key of the subtree and is the fork found by descending to that key |
| Shapes.MinimumHasNoLeft | src/main/java/tvestergaard/treemap/TreeMap.java:447-456 | the node holding the smallest key has no left child |
| TreeMaps.TreeMap.Put | src/main/java/tvestergaard/treemap/TreeMap.java:1330-1339 | the map stays valid and maps the key to the new value; it returns the previous value or None; size grows by one only for a new key, which gets exactly one fresh node |
| TreeMaps.TreeMap.PutNode | src/main/java/tvestergaard/treemap/TreeMap.java:1351-1382 | the recursive descent overwrites the value in place when the key is stored, otherwise hangs one fresh leaf; the subtree becomes the inserted tree with parents consistent, and nothing outside the subtree changes |
| Shapes.InsertedLemma | src/main/java/tvestergaard/treemap/TreeMap.java:1351-1382 | insertion keeps the tree ordered and adds exactly the key; the new key has the new value and every other key keeps its value; the node count grows only for a new key |
| Shapes.InsertedEntries | src/main/java/tvestergaard/treemap/TreeMap.java:1351-1382 | the map of the inserted tree is the old map updated at the key |
| Insertion.Overwrite | src/main/java/tvestergaard/treemap/TreeMap.java:1353-1357 | overwriting the value of the node holding the key yields the inserted tree, with links and parents intact |
| Insertion.HangLeaf | src/main/java/tvestergaard/treemap/TreeMap.java:1361-1376 | a leaf hung left when the key is smaller and right when it is larger, with its parent set to the node it hangs under, yields the inserted tree; the key was absent |
| Insertion.Descended | src/main/java/tvestergaard/treemap/TreeMap.java:1368-1378 | when the child's subtree has taken the key, the node and its other subtree are undisturbed |
| TreeMaps.TreeMap.ReplaceNode | src/main/java/tvestergaard/treemap/TreeMap.java:464-481 | the new root and store are the relinking of target's parent link (or the root) to the replacement, with the replacement's parent set |
| Arena.ReplacedFrame | src/main/java/tvestergaard/treemap/TreeMap.java:464-481 | replaceNode changes only the parent (or the root) and the replacement's parent field; every other node is unchanged |
| Arena.ReplacedGraft | src/main/java/tvestergaard/treemap/TreeMap.java:464-481 | replacing the node found by a key with a linked subtree spells out the tree with that subtree grafted in its place |
| Arena.GraftLinked | src/main/java/tvestergaard/treemap/TreeMap.java:472-479 | repointing the parent's link on the side the key lies spells out the grafted tree |
| Arena.GraftParents | src/main/java/tvestergaard/treemap/TreeMap.java:468-479 | when the grafted subtree's parents point to the old parent, the grafted tree has consistent parents |
| Arena.ParentLemma | src/main/java/tvestergaard/treemap/TreeMap.java:466-480 | a non-root node's parent is reachable, outside the node's subtree, and points to it on the side its key lies |
| Shapes.GraftLemma | src/main/java/tvestergaard/treemap/TreeMap.java:464-481 | grafting an ordered subtree with keys from the replaced one keeps order, removes exactly the keys of the replaced subtree not in the new one, keeps every remaining value, and adjusts the count |
| TreeMaps.TreeMap.RemoveNode | src/main/java/tvestergaard/treemap/TreeMap.java:405-438 | removing null changes nothing; otherwise the map stays valid, the node's key disappears, every other entry stays, and size drops by one (corrected two-children branch) |
| TreeMaps.TreeMap.RemoveWithSuccessor | src/main/java/tvestergaard/treemap/TreeMap.java:433-437 | with two children, the successor is unlinked, takes over both subtrees and replaces the node; the store becomes the spliced store |
| TreeMaps.TreeMap.UnlinkSuccessor | src/main/java/tvestergaard/treemap/TreeMap.java:433 | the successor found by minimum(node.right) is unlinked from its parent and given node's right subtree when deeper than node.right |
| Removal.SplicedLemma | src/main/java/tvestergaard/treemap/TreeMap.java:405-438 | the corrected removal spells out the spliced tree with consistent parents and only rewires kept nodes |
| Shapes.RemoveSplicedLemma | src/main/java/tvestergaard/treemap/TreeMap.java:405-438 | the corrected removal keeps the tree ordered, its map is the old map without the key, and the count drops by one |
| Shapes.SplicedAtLemma | src/main/java/tvestergaard/treemap/TreeMap.java:411-437 | deleting a subtree's root by splicing keeps order, loses exactly the root's key, keeps all other values, and counts one fewer node |
| Shapes.DeleteMinLemma | src/main/java/tvestergaard/treemap/TreeMap.java:433 | unlinking the leftmost fork keeps order and loses exactly its key |
| Shapes.LeftmostSplit | src/main/java/tvestergaard/treemap/TreeMap.java:433 | the successor is below every other key of the right subtree, and its own right subtree holds only larger keys from that subtree |
| Removal.RemoveFew | src/main/java/tvestergaard/treemap/TreeMap.java:411-431 | for zero or one child, replaceNode(node, child) spells out the tree without the key, with consistent parents |
| TreeMaps.TreeMap.RemoveNodeAsWritten | src/main/java/tvestergaard/treemap/TreeMap.java:405-438 | removeNode as written: the key disappears, no entry changes value and size drops by one. With fewer than two children, or when the successor is node.right itself, the map is exactly the old map without the key. With two children, node.left keeps its stale parent and the map is no longer valid |
| TreeMaps.TreeMap.RelinkAsWritten | src/main/java/tvestergaard/treemap/TreeMap.java:411-437 | the literal relinking of the three cases produces the as-written store |
| Removal.AsWrittenLemma | src/main/java/tvestergaard/treemap/TreeMap.java:405-438 | the as-written store spells out the as-written tree; parents are consistent with fewer than two children and inconsistent with two |
| Removal.RemoveTwoAsWritten | src/main/java/tvestergaard/treemap/TreeMap.java:433-437 | setting min.left and replacing the node by min spells out the as-written tree, but leaves node.left's parent pointing at the removed node |
| Shapes.RemovedAtLemma | src/main/java/tvestergaard/treemap/TreeMap.java:411-437 | as written, the replacement subtree is ordered and keeps values; it equals the spliced one when the successor is node.right; otherwise it loses node.right's key and more than one node |
| Shapes.RemoveAsWrittenLemma | src/main/java/tvestergaard/treemap/TreeMap.java:405-438 | as written, the key disappears and the map shrinks to a sub-map; when the successor lies deeper than node.right, node.right's key is lost as well |
| Shapes.RemoveAsWrittenLosesKey | src/main/java/tvestergaard/treemap/TreeMap.java:433-437 | after putting 2, 0, 4 and 3, removing 2 as written leaves keys {0, 3}, while the corrected removal leaves {0, 3, 4} |
| TreeMaps.TreeMap.Remove | src/main/java/tvestergaard/treemap/TreeMap.java:391-396 | with the corrected removal: the map stays valid, loses the key, returns the old value or None, and size drops by one only when the key was stored |
| TreeMaps.TreeMap.RemoveKeyAsWritten | src/main/java/tvestergaard/treemap/TreeMap.java:391-396 | remove(Object) as written: returns the old value or None; the key is gone and no other entry changes value; size drops by one only when the key was stored; an absent key changes nothing; when the key's node has at most one child, the map stays valid and is exactly the old map without the key; with two children and the successor being node.right, it is still exactly that map |
| TreeMaps.TreeMap.Clear | src/main/java/tvestergaard/treemap/TreeMap.java:503-507 | the map becomes valid and empty with size 0 |
| Cursors.Cursor.constructor | src/main/java/tvestergaard/treemap/TreeMap.java:197-200 | a new cursor starts at minimum(root) with no previous node, so every stored key remains |
| Cursors.Cursor.HasNext | src/main/java/tvestergaard/treemap/TreeMap.java:208-211 | true exactly when some key remains |
| Cursors.Cursor.NextNode | src/main/java/tvestergaard/treemap/TreeMap.java:218-248 | without a next node, NoSuchElement and nothing changes; otherwise it returns the node with the least remaining key, remembers it as previous, and that key no longer remains |
| Cursors.Cursor.LeftmostOfRight | src/main/java/tvestergaard/treemap/TreeMap.java:225-230 | from a node with a right child, going right and then left as far as possible reaches the in-order successor |
| Cursors.Cursor.ClimbToSuccessor | src/main/java/tvestergaard/treemap/TreeMap.java:233-247 | without a right child, climbing until arriving from a left child reaches the in-order successor; running out of parents means the key is the greatest |
| Shapes.RightSubtreeSuccessor | src/main/java/tvestergaard/treemap/TreeMap.java:225-230 | the leftmost key of a node's right subtree is the next larger stored key |
| Shapes.AncestorSuccessor | src/main/java/tvestergaard/treemap/TreeMap.java:241-245 | for a node without a right child, the first ancestor entered from its left child holds the next larger stored key |
| Shapes.RightSpineMaximum | src/main/java/tvestergaard/treemap/TreeMap.java:235-239 | if every ancestor was entered from the right and there is no right child, the key is the greatest stored |
| Arena.PathLinks | src/main/java/tvestergaard/treemap/TreeMap.java:233-247 | along the search path, each node's parent field points to the node above it, and that node's left link points back exactly when the key is smaller |
| Cursors.Cursor.Remove | src/main/java/tvestergaard/treemap/TreeMap.java:259-266 | with the corrected removal: without a previous node, IllegalState and nothing changes; otherwise the previous node's key is removed, size drops by one, previous is cleared, and the keys still to come are untouched |
| Cursors.InOrderKeys | src/test/java/tvestergaard/treemap/TreeMapTest.java:249-273 | the hasNext/next loop yields every stored key exactly once, in strictly increasing order, as many as the map's size |
| Cursors.Cursor.RemoveLastAsWritten | src/main/java/tvestergaard/treemap/TreeMap.java:259-266 | the iterator's remove as written: without a previous node, IllegalState and nothing changes. Otherwise previous is cleared, its key is gone, no other entry changes value, and size drops by one. When that node had at most one child, the map and cursor stay valid, the map loses only that key, and the keys still to come are untouched. When that key is the least stored, the store is also exactly the corrected removal's |
| Removal.LeastRemoval | src/main/java/tvestergaard/treemap/TreeMap.java:405-438 | removing the least key never reaches the two-children branch, so removal as written and the corrected removal give the same store and the same tree |
| Cursors.Drain | src/test/java/tvestergaard/treemap/TreeMapTest.java:284-296 | with the iterator's remove as written, calling next and remove while hasNext holds empties the map after exactly size steps |

## Left out

- The view classes `TreeMapValueCollection`, `TreeMapKeySet` and `TreeMapEntrySet` and their iterators, other than the shared cursor. They are adapters to `java.util` interfaces. Their memoized caches are left out too.
- The `toArray` variants: they rely on reflection and runtime array types.
- `Node.equals`, `Node.hashCode` and `Node.setValue`: hashing and entry identity are outside the tree logic.
- Arbitrary `Comparator`s, null keys and null values: keys are `int` with the natural order.
- `ClassCastException` catching in `containsKey` and `containsValue`: Dafny's types rule the cast failure out.
- The unreachable `compare == 0` fall-through of `putNode` (TreeMap.java:1381) and `getNode` (TreeMap.java:1408): with the equality check first, they collapse into one three-way comparison.
- `putAll` and the copying constructor take a sequence of pairs instead of a `java.util.Map`, whose iteration order is unknown.
- The `size` field is an unbounded integer; 32-bit overflow after 2^31 entries is not modelled.
- Modifying the map while a cursor is live, other than through the cursor's own `remove`, is unspecified in Java and not modelled. A cursor is valid only for the map state it was advanced over.
- TreeMaps.TreeMap.Remove: uses the corrected removal (see Findings), whereas Java `remove(Object)` calls the defective `removeNode`. The as-written version is `TreeMaps.TreeMap.RemoveKeyAsWritten`.
- Cursors.Cursor.Remove: uses the corrected removal (see Findings), whereas the Java iterator calls the defective `removeNode`. The as-written version is `Cursors.Cursor.RemoveLastAsWritten`, which `Cursors.Drain` uses.
- TreeMaps.TreeMap.RemoveNodeAsWritten: with two children and the successor deeper than `node.right`, its contract states only that the key is gone, the remaining map is a sub-map, and size drops by one. This is weaker than a full deletion, because that is all the source guarantees there.
- TreeMaps.TreeMap.RemoveKeyAsWritten: when the key's node has two children and the successor lies deeper than `node.right`, it states only that the key is gone, the rest is a sub-map and size drops by one. With two children it never states validity, because the source leaves `node.left`'s parent pointing at the removed node.
- Cursors.Cursor.RemoveLastAsWritten: when the previous node has two children, it states only that the key is gone, the rest is a sub-map and size drops by one. That holds even when the successor is `node.right`, where the source loses exactly one key. Validity is not stated there, because the source leaves `node.left`'s parent stale.
- Stale nodes stay in the store after removal, because Java objects survive while referenced. Garbage collection is not modelled.

## Findings

| source | as written | input that shows it | evidently intended | confidence | as-written member | corrected member |
|---|---|---|---|---|---|---|
| src/main/java/tvestergaard/treemap/TreeMap.java:433-437 | with two children, `min = minimum(node.right); min.left = node.left; replaceNode(node, min)` never unlinks `min` from its old parent, never hangs `node.right` under `min`, and never repoints `node.left.parent` to `min` | put 2, 0, 4, 3 into an empty map and remove 2 (directly, or by the cursor after two calls of next): key 4 becomes unreachable while size drops to 3 | unlink the successor (its right child takes its place), give it the node's left and right subtrees with their parents repointed, then replace the node by it | high, not executed | Shapes.RemoveAsWrittenLosesKey, TreeMaps.TreeMap.RemoveNodeAsWritten, TreeMaps.TreeMap.RemoveKeyAsWritten, Cursors.Cursor.RemoveLastAsWritten | TreeMaps.TreeMap.RemoveNode, TreeMaps.TreeMap.Remove, Cursors.Cursor.Remove |

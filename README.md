# j2meds BinaryTree in Dafny

This project models the ordered map of j2meds, a small data-structure library
for Java ME. The map is `BinaryTree`, a naive, unbalanced binary search tree.
Its iterator is `BinaryTreeIterator`, which walks the tree in order with an
explicit stack.

**The tree.** It keeps the following state:
- a dummy node whose two links both point at the root;
- a `root` field;
- a `size` counter;
- a comparator object, which is injected and compared by identity.

Every search starts at the dummy. That way, the node above the root is the
dummy, and removal can treat the root as an ordinary child.

**What the operations do.**
- `put` overwrites a present key or hangs a new leaf.
- `remove` splits on the node's links into three cases (BinaryTree.java
  lines 244, 262 and 268):
  - no left child: the node is spliced to its right child, or unlinked;
  - a left child, and the node is its parent's left child: the node is
    spliced to its left child, whatever its right child;
  - a left child, and the node is its parent's right child: the entry of
    the node that `findPredecessorParent` points at is copied into the node,
    and that node is removed in turn. This happens even when the node has
    no right child.
- The iterator stacks the left spine of the root. Each `next` pops a node and
  stacks the left spine of that node's right child.

## How the model is built

**Mutable objects become classes.** `BinaryTreeNode` (`Shapes.Node`),
`BinaryTree` and `BinaryTreeIterator` are Dafny classes. Their methods
update fields in place, as the Java code does. The iterator's stack is a
`seq` field that its methods reassign.

**Ghost state.** Each tree keeps a ghost record `h` of the fields of every
node it has allocated: the two links of each node, and the key and value of
each node other than the dummy. Every field write is paired with the same
update of `h`, and `Mirrors()` states that the record equals the heap. The
ghost `shape` is the tree of node references that hangs from the root.

**Pure modules.** The structural reasoning is done on values, in these modules:
- `Shapes`: what a shape means — its entries, its in-order sequence, search
  order.
- `Search`: the search walk.
- `Grafting`: replacing the subtree at the end of a search path.
- `Insertion`: what `put` does.
- `Removal`: what `removeNode` does as written, defects included.
- `Deletion`: a corrected removal, its correctness proof, and the paths on
  which the code as written agrees with it.
- `Traversal`: the stack of the iterator.
- `Defects`: concrete trees on which the removal as written goes wrong.

**Comparators.** A comparator is a class holding a function `compare`. Its
`Valid()` requires a total order in which compare is zero exactly for equal
keys. As a result, keys are modelled up to the comparator's equality.

**Nulls and exceptions.**
- A Java null key or value is `Option.None`.
- The exceptions the code can throw are `Result.Failure` values:
  `InvalidKeyException`, `InvalidOperationException`, a
  `NullPointerException`, and an `EmptyStackException` from the stack.
- The `Assert.assert` checks of the code are proof obligations in the model,
  written as `assert` statements or `requires` clauses.

**Removal as written.** The comments of the code say that removing a node
with two children deletes its predecessor (BinaryTree.java line 275, and the
iterator's `remove` at BinaryTreeIterator.java lines 53-55). The code does
not do that correctly on every path, and the model follows the code:
- `BinaryTree.Remove` and `RemoveNode` do exactly what `Removal.RemoveF` and
  `Removal.RemoveNodeF` describe.
- Map correctness is proved only on the paths named by
  `Deletion.SoundRemoval`.
- The corrected removal, `Deletion.FixedRemoveF`, is proved correct on every
  input.
- On the sound paths, `Deletion.AsWrittenSound` shows that the code as
  written produces exactly the corrected result.

## Model

"The map" is `Contents()`, the entries reached from the root.

| member | source | states |
|---|---|---|
| Shapes.Node.constructor | net/joaosilva/j2meds/BinaryTree.java:317-328 | a new node has the given key and value and null links |
| J2meds.BinaryTree.constructor | net/joaosilva/j2meds/BinaryTree.java:39-44 | a new tree is well formed, its map is empty, and it keeps the given comparator |
| J2meds.BinaryTree.Clear | net/joaosilva/j2meds/BinaryTree.java:46-49 | root and both dummy links become null and size becomes 0; the tree is a valid empty map; no other node changes |
| Removal.ClearedGood | net/joaosilva/j2meds/BinaryTree.java:46-49 | from any state, including one a defective removal left, clearing yields a well-formed empty tree |
| J2meds.BinaryTree.FindNodePriorTo | net/joaosilva/j2meds/BinaryTree.java:61-83 | null exactly when asked for null on an absent key. Otherwise it returns the dummy exactly when the tree is empty or the root holds the key. Any other result is a node whose key differs from the key and whose child on the key's side is non-null exactly when the key is present, and then holds it |
| Search.AboveSpec | net/joaosilva/j2meds/BinaryTree.java:61-83 | the node the walk returns is the start node exactly when the key is at the top. Otherwise it is a tree node, outside the subtree where the walk stops, whose child on the key's side is the top of that subtree |
| Search.SiteSpec | net/joaosilva/j2meds/BinaryTree.java:67-77 | the walk stops at an empty subtree exactly when the key is absent; otherwise it stops at the node that holds the key with its mapped value |
| J2meds.BinaryTree.FindNodeWithKey | net/joaosilva/j2meds/BinaryTree.java:85-97 | null exactly when the key is absent; otherwise a node holding the key and its mapped value |
| J2meds.BinaryTree.ContainsKey | net/joaosilva/j2meds/BinaryTree.java:99-101 | true exactly when the key is in the map |
| J2meds.BinaryTree.Get | net/joaosilva/j2meds/BinaryTree.java:113-119 | the key's value when it is present, null when it is absent |
| J2meds.BinaryTree.IsEmpty | net/joaosilva/j2meds/BinaryTree.java:121-123 | true exactly when the map is empty |
| J2meds.BinaryTree.ReplaceValue | net/joaosilva/j2meds/BinaryTree.java:133-140 | the node takes the new value and the old one is returned; nothing else changes |
| J2meds.BinaryTree.Put | net/joaosilva/j2meds/BinaryTree.java:142-184 | a null key fails with InvalidKey and changes nothing. Otherwise the tree stays valid, the map gains key := value, and the old value (or null) is returned. A present key leaves links, root and size alone; a new key adds one to size |
| J2meds.BinaryTree.PutIntoEmpty | net/joaosilva/j2meds/BinaryTree.java:145-150 | in an empty tree the map becomes the one entry, size grows by one and null is returned (validity makes the new node the root and both dummy links point at it) |
| Insertion.SeedCorrect | net/joaosilva/j2meds/BinaryTree.java:145-150 | the seeded state is a well-formed tree of one node, the root, holding exactly key := value, with size 1 |
| J2meds.BinaryTree.PutIntoNonEmpty | net/joaosilva/j2meds/BinaryTree.java:152-183 | in a non-empty tree the map gains key := value, with the previous value returned. A present key keeps links, root and size; a new key adds one to size |
| J2meds.BinaryTree.AttachLeaf | net/joaosilva/j2meds/BinaryTree.java:161-181 | a new key ends up in the map with its value, size grows by one, and null is returned |
| J2meds.BinaryTree.HangLeaf | net/joaosilva/j2meds/BinaryTree.java:164-175 | exactly one fresh leaf is hung in the slot of the node where the walk ended, on the key's side; size grows by one |
| Insertion.AttachCorrect | net/joaosilva/j2meds/BinaryTree.java:161-181 | hanging the leaf keeps a well-formed search tree whose map is the old one plus key := value and whose nodes are the old ones plus the leaf |
| J2meds.BinaryTree.Revalue | net/joaosilva/j2meds/BinaryTree.java:178-183 | a present key gets the new value and its old value is returned; links, root and size do not change |
| Insertion.RevaluedCorrect | net/joaosilva/j2meds/BinaryTree.java:133-140 | overwriting a node's value keeps the tree well formed and updates only that key in the map |
| J2meds.BinaryTree.PutAll | net/joaosilva/j2meds/BinaryTree.java:186-195 | with a different comparator object it fails with InvalidOperation and changes nothing. Otherwise the map becomes the old map overwritten by the other tree's map |
| J2meds.BinaryTree.PutRemaining | net/joaosilva/j2meds/BinaryTree.java:190-194 | the loop of putAll runs until the iterator is exhausted, keeping the map equal to the base overwritten by the entries handed out so far |
| J2meds.BinaryTree.PutNext | net/joaosilva/j2meds/BinaryTree.java:191-193 | one round: the iterator advances by one entry and the map takes that entry too |
| J2meds.BinaryTree.PutFetched | net/joaosilva/j2meds/BinaryTree.java:192-193 | putting the entry just handed out extends the map by that entry |
| J2meds.BinaryTreeIterator.Drained | net/joaosilva/j2meds/BinaryTree.java:190-194 | once every entry is handed out, putting them all over a map equals overwriting it with the source's map |
| Traversal.AllPut | net/joaosilva/j2meds/BinaryTree.java:190-194 | putting the whole in-order sequence of a search tree over a map overwrites it with the tree's map |
| Traversal.MapOfInOrder | net/joaosilva/j2meds/BinaryTree.java:190-194 | putting the in-order entries one by one rebuilds exactly the tree's map |
| J2meds.BinaryTree.FindPredecessorParent | net/joaosilva/j2meds/BinaryTree.java:228-236 | returns the parent of the end of the right spine of the node's left child; this is the node itself when that child has no right child |
| Removal.SpineLinks | net/joaosilva/j2meds/BinaryTree.java:228-236 | that parent is the start node exactly when the spine has no right child; otherwise it is a spine node whose right link is the right-most node |
| Removal.PredecessorLinks | net/joaosilva/j2meds/BinaryTree.java:270-271 | the predecessor parent has recorded links, and its right link is the predecessor read at line 271 (null or the top of a fitting subtree) |
| J2meds.BinaryTree.RemoveNode | net/joaosilva/j2meds/BinaryTree.java:238-281 | the new state and the result are those of RemoveNodeF, the as-written removal with its defects and its NullPointerException |
| J2meds.BinaryTree.RemoveLeftless | net/joaosilva/j2meds/BinaryTree.java:244-261 | the no-left-child branch, as RemoveNodeF gives it |
| J2meds.BinaryTree.ReplaceChild | net/joaosilva/j2meds/BinaryTree.java:256-259 | the parent's slot that holds the node (the left one if it does) is set; nothing else changes |
| J2meds.BinaryTree.RemoveByPredecessor | net/joaosilva/j2meds/BinaryTree.java:269-277 | the predecessor branch, with the recursive removal and the size fix-up, as RemoveNodeF gives it |
| J2meds.BinaryTree.Remove | net/joaosilva/j2meds/BinaryTree.java:284-302 | the result is that of RemoveF. An empty tree or an absent key returns null and changes nothing. On the sound paths the tree stays a valid search tree, the map loses the key, and its old value is returned |
| Deletion.FixedRemoveCorrect | net/joaosilva/j2meds/BinaryTree.java:238-302 | the corrected removal always leaves a well-formed search tree whose map is the old one without the key, and returns its old value (or null) |
| Deletion.AsWrittenSound | net/joaosilva/j2meds/BinaryTree.java:238-302 | on every sound path the removal as written produces exactly the state and the result of the corrected removal |
| Deletion.SingleSound | net/joaosilva/j2meds/BinaryTree.java:238-253 | in a tree of one entry every removal takes a sound path: the key is the leaf root or absent |
| Defects.RootWithChild | net/joaosilva/j2meds/BinaryTree.java:255-259 | removing a root that has only a right child leaves the root field on the removed node and the dummy links at (child, removed node): no shape is a valid tree for the result. The corrected removal leaves the one-node tree |
| Defects.RootWithLeftChild | net/joaosilva/j2meds/BinaryTree.java:263-265 | removing a root that has only a left child leaves the root field on the removed node and the dummy links at (child, removed node): no shape is a valid tree for the result. The corrected removal leaves the one-node tree |
| Defects.LeftChildWithTwoChildren | net/joaosilva/j2meds/BinaryTree.java:263-265 | removing a left child with two children drops its right subtree: key 2 is lost while size still says 3, and no shape is a valid tree. The corrected removal keeps keys 0, 2 and 3 |
| Defects.RightChildWithLeftLeaf | net/joaosilva/j2meds/BinaryTree.java:270-273 | removing a right child whose only child is a left leaf reads a null predecessor and fails with NullPointer; the corrected removal returns the value 30 |
| J2meds.BinaryTree.Size | net/joaosilva/j2meds/BinaryTree.java:304-306 | the size field is the number of keys in the map |
| Shapes.EntriesCount | net/joaosilva/j2meds/BinaryTree.java:304-306 | a search tree's map has as many keys as it has nodes |
| J2meds.BinaryTree.GetKeyComparator | net/joaosilva/j2meds/BinaryTree.java:308-310 | returns the tree's comparator object |
| J2meds.BinaryTree.Iterator | net/joaosilva/j2meds/BinaryTree.java:312-314 | a fresh valid iterator over this tree that has handed out nothing |
| J2meds.BinaryTreeIterator.constructor | net/joaosilva/j2meds/BinaryTreeIterator.java:26-31 | the iterator is valid, no node is current, nothing has been handed out, and the stack owes the whole in-order sequence |
| J2meds.BinaryTreeIterator.PushAllNodesToTheLeftOf | net/joaosilva/j2meds/BinaryTreeIterator.java:33-39 | after pushing the left spine of a subtree, the stack owes that subtree in order, then what it owed before |
| Traversal.SpineStep | net/joaosilva/j2meds/BinaryTreeIterator.java:36-37 | pushing one spine node keeps what is owed equal to the subtree followed by the old debt |
| Traversal.StackPush | net/joaosilva/j2meds/BinaryTreeIterator.java:36 | pushing the top of a fitting subtree keeps a well-formed stack |
| J2meds.BinaryTreeIterator.HasNext | net/joaosilva/j2meds/BinaryTreeIterator.java:41-43 | true exactly when some entry of the tree has not been handed out yet |
| Traversal.PendingLength | net/joaosilva/j2meds/BinaryTreeIterator.java:41-43 | a non-empty stack owes at least one entry per stacked node |
| J2meds.BinaryTreeIterator.Next | net/joaosilva/j2meds/BinaryTreeIterator.java:45-50 | on an exhausted iterator it fails with EmptyStack and leaves the current node and the stack alone. Otherwise it hands out the next entry of the in-order sequence, adds it to what was handed out, and makes the node holding that entry current; the iterator stays valid |
| J2meds.BinaryTreeIterator.Pop | net/joaosilva/j2meds/BinaryTreeIterator.java:46 | the popped node becomes current, its entry is appended to what was handed out, and the stack loses its top |
| J2meds.BinaryTreeIterator.Advance | net/joaosilva/j2meds/BinaryTreeIterator.java:46-47 | after the pop and the push of the right child's left spine, the popped node is current, its entry was handed out, and the iterator is valid again |
| Traversal.StackPop | net/joaosilva/j2meds/BinaryTreeIterator.java:46-47 | the top of the stack holds the next in-order entry; after popping it, the entry followed by its right subtree and the rest of the stack make up the remaining sequence |
| J2meds.BinaryTreeIterator.Enumerates | net/joaosilva/j2meds/BinaryTreeIterator.java:45-50 | the iterator hands out one entry per node (size of them), with keys strictly ascending, making up the tree's map |
| Traversal.InOrderSorted | net/joaosilva/j2meds/BinaryTreeIterator.java:45-50 | the in-order sequence of a search tree has strictly ascending keys |
| Traversal.InOrderLength | net/joaosilva/j2meds/BinaryTreeIterator.java:45-50 | the in-order sequence has one entry per node |
| J2meds.BinaryTreeIterator.StackDecreasing | net/joaosilva/j2meds/BinaryTreeIterator.java:33-47 | the stacked keys strictly decrease from bottom to top |
| Traversal.StackDescends | net/joaosilva/j2meds/BinaryTreeIterator.java:33-47 | if what a stack owes ascends, its node keys decrease from bottom to top |
| J2meds.BinaryTreeIterator.Remove | net/joaosilva/j2meds/BinaryTreeIterator.java:52-57 | before any next it fails with NullPointer and changes nothing. Otherwise the key removed is that of the entry next handed out last; the source tree does what its remove does on that key, and an exception of that removal is passed on; on the sound paths it succeeds, the tree stays valid and its map loses that key, and a one-entry tree is left empty |
| J2meds.BinaryTreeIterator.LastOnly | net/joaosilva/j2meds/BinaryTreeIterator.java:52-57 | in a one-entry tree, the entry next handed out last is the whole map |

## Left out

- **`equals`, `hashCode`, `containsValue`** (`BinaryTree.java`) are not
  modelled. They rest on Java's `Object.equals` and `hashCode` of unknown
  key and value types and on 32-bit overflow. `containsValue` also needs a
  second comparator.
- **`DoubleComparator`, `Map`, `Assert` and the exception classes** are not
  part of this model, except as follows. Comparators are a function with a
  total-order condition. `Map.Entry` is the `Entry` datatype. Exceptions are
  `Failure` values. The checks of `Assert` are proof obligations.
- **Comparator exceptions.** A null key passed to `get`, `containsKey` or
  `remove` reaches the comparator, whose behaviour on null is unknown. The
  model takes non-null keys for those operations and leaves a comparator
  exception out.
- **Comparator equality.** Keys are identified up to the comparator: the
  total order requires compare to be zero only on equal keys.
- **Memory.** Allocation never fails, and the Java stack's memory is not
  modelled.
- **`BinaryTree.PutAll`** requires the two trees to share no objects. A tree
  merged into itself (`t.putAll(t)`) is not modelled.
- **`BinaryTree.Remove` and `BinaryTreeIterator.Remove`** state map
  correctness only on the paths named by `Deletion.SoundRemoval`. Those
  paths are:
  - an absent key;
  - a leaf;
  - a non-root node without a left child;
  - a non-root left child without a right child;
  - a non-root right child with two children whose left child has a right
    child and whose predecessor is a leaf.

  On every other path the model gives only the exact as-written state
  (`RemoveF`). That includes paths that happen to work, such as a
  predecessor whose left child has a right child and whose own predecessor
  is a leaf.
- **One class of defective paths has no counterexample lemma.** The
  class: a right child whose left child has no right child, and whose right
  child R has a left child. There, `remove` copies R's key into the node and
  then removes R as a right child with a left child. When that recursive
  removal completes, keys of R's left subtree, which are smaller than the
  node's new key, stay in the node's right subtree, where later searches
  miss them. When R's left child has no right child and R has none either,
  the recursive removal instead ends in a NullPointerException after the
  node's key has already been overwritten. Showing either needs a tree of
  five or more nodes, so the model only includes these paths in `RemoveF`.
- **`BinaryTreeIterator.Remove`** does not state that iteration can go on
  after it. The removal defects make that false in general.
- **Mutating the tree while an iterator is in use.** Only an iterator over
  an unchanged tree is modelled: `Valid()` ties the stack to the source's
  current shape.
- **Removal's recursion.** The recursion in `removeNode` is modelled
  exactly. Its termination rests on the shape shrinking, which is the case
  for any tree built by these operations.

## Findings

The model follows the code on each of these rows. Each as-written member
exhibits the discrepancy on a concrete tree. The corrected removal,
`Deletion.FixedRemoveF`, is proved correct for every input by
`Deletion.FixedRemoveCorrect`. On the sound paths, the as-written removal is
proved to equal it (`Deletion.AsWrittenSound`).

| source | as written | input that shows it | evidently intended | confidence | as-written member | corrected member |
|---|---|---|---|---|---|---|
| net/joaosilva/j2meds/BinaryTree.java:255-259 | removing a root with only a right child rewires only the dummy's slot that aliases the root; `root` and the other dummy link still hold the removed node | root 1 with only a right child 2; `remove(1)` | the child becomes the root and both dummy links point at it | not executed | Defects.RootWithChild | Deletion.FixedRemoveCorrect |
| net/joaosilva/j2meds/BinaryTree.java:263-265 | the same defect for a root with only a left child: the dummy's left slot takes the child, while `root` and the dummy's right link still hold the removed node | root 2 with only a left child 1; `remove(2)` | the child becomes the root and both dummy links point at it | not executed | Defects.RootWithLeftChild | Deletion.FixedRemoveCorrect |
| net/joaosilva/j2meds/BinaryTree.java:263-265 | a left child with two children is replaced by its left child, dropping its right subtree; line 264 repeats the test of line 263, so lines 266-267 never run | root 3, left child 1 with children 0 and 2; `remove(1)` | the two-child case (copy the predecessor, then remove it) for any node with two children | not executed | Defects.LeftChildWithTwoChildren | Deletion.FixedRemoveCorrect |
| net/joaosilva/j2meds/BinaryTree.java:270-273 | when the node's left child has no right child, the predecessor parent is the node itself and the "predecessor" read is its right child; here that is null and is dereferenced | root 1 with right child 3, whose only child is the left leaf 2; `remove(3)` | the predecessor is the node's left child itself; or, with no right child, a one-child splice | not executed | Defects.RightChildWithLeftLeaf | Deletion.FixedRemoveCorrect |

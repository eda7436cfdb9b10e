/** The map itself: class BinaryTree (a naive, unbalanced binary search
    tree behind a dummy node whose two links both point at the root) and
    its in-order iterator, class BinaryTreeIterator.

    Every node field write is paired with the same update of the ghost
    record `h`, so that `Mirrors()` keeps the record equal to the heap, and
    the pure functions of Shapes, Search, Insertion and Removal describe
    what each method does. */
module J2meds {
  import opened Types
  import opened Shapes
  import opened Search
  import opened Grafting
  import opened Insertion
  import opened Removal
  import opened Deletion
  import opened Traversal

  /** Writing a key twice leaves the second value. */
  lemma Overwrite<T, U>(m: map<T, U>, k: T, a: U, b: U)
    ensures m[k := a][k := b] == m[k := b]
  {
  }

  class BinaryTree<K(!new), V(0)> {
    /** The node before the root; its key is null and both its links
        point at the root. */
    const dummy: Node<K, V>
    var root: Node?<K, V>
    var size: int
    const comparator: Comparator<K>

    /** The recorded fields of every node this tree has allocated. */
    ghost var h: Heap<K, V>
    /** The tree of nodes hanging from the root. */
    ghost var shape: Shape<K, V>
    ghost var Repr: set<object>

    /** The mutable state as a value. */
    ghost function St(): State<K, V>
      reads this`h, this`root, this`size
    {
      State(h, root, size)
    }

    /** The ghost record agrees with the nodes' fields: links for every
        node, the dummy included; a non-null key and a value for every node
        but the dummy. */
    ghost predicate Mirrors()
      reads this`h, this`Repr, h.links.Keys
    {
      && this in Repr && h.links.Keys <= Repr
      && dummy in h.links && dummy !in h.data && dummy.key == None
      && h.data.Keys <= h.links.Keys
      && (forall n :: n in h.links ==> n.left == h.links[n].left && n.right == h.links[n].right)
      && (forall n :: n in h.data ==> n.key == Some(h.data[n].key) && n.value == h.data[n].value)
      && comparator.Valid()
    }

    /** `n.left := c`, recorded. */
    method SetLeft(n: Node<K, V>, c: Node?<K, V>)
      requires Mirrors() && n in h.links
      modifies this`h, n
      ensures Mirrors() && Repr == old(Repr)
      ensures h == old(h).(links := old(h.links)[n := Link(c, old(h.links[n]).right)])
      ensures root == old(root) && size == old(size) && shape == old(shape)
    {
      n.left := c;
      h := h.(links := h.links[n := Link(c, n.right)]);
    }

    /** `n.right := c`, recorded. */
    method SetRight(n: Node<K, V>, c: Node?<K, V>)
      requires Mirrors() && n in h.links
      modifies this`h, n
      ensures Mirrors() && Repr == old(Repr)
      ensures h == old(h).(links := old(h.links)[n := Link(old(h.links[n]).left, c)])
      ensures root == old(root) && size == old(size) && shape == old(shape)
    {
      n.right := c;
      h := h.(links := h.links[n := Link(n.left, c)]);
    }

    /** `new BinaryTreeNode(key, value)`, recorded as a node of this
        tree. */
    method NewNode(key: K, value: V) returns (x: Node<K, V>)
      requires Mirrors()
      modifies this`h, this`Repr
      ensures Mirrors() && fresh(x) && Repr == old(Repr) + {x} && x !in old(h.links)
      ensures h == Heap(old(h.links)[x := Link(null, null)], old(h.data)[x := Entry(key, value)])
      ensures root == old(root) && size == old(size) && shape == old(shape)
    {
      x := new Node(Some(key), value);
      h := Heap(h.links[x := Link(null, null)], h.data[x := Entry(key, value)]);
      Repr := Repr + {x};
    }

    /** A well-formed tree: mirrored, and a search tree with shape
        `shape` whose size field counts its nodes. */
    ghost predicate Valid()
      reads this, Repr
    {
      && this in Repr && h.links.Keys <= Repr
      && Mirrors() && Good(St(), dummy, shape, comparator.compare)
    }

    /** The map the tree stands for. */
    ghost function Contents(): map<K, V>
      reads this
      requires Keyed(shape, h.data)
    {
      Entries(shape, h.data)
    }

    /** A new, empty tree ordered by `keyComparator`. */
    constructor (keyComparator: Comparator<K>)
      requires keyComparator.Valid()
      ensures Valid() && Contents() == map[] && comparator == keyComparator
      ensures fresh(Repr)
    {
      comparator := keyComparator;
      var nothing: V := *;
      var d := new Node(None, nothing);
      dummy := d;
      root := null;
      size := 0;
      h := Heap(map[d := Link(null, null)], map[]);
      shape := Nil;
      Repr := {this, d};
      new;
      Clear();
    }

    /** clear: no root, the dummy's links null, size 0 (the empty map). It
        leaves every other node's fields alone. */
    method Clear()
      requires Mirrors()
      modifies this, dummy
      ensures Mirrors() && St() == Cleared(old(St()), dummy) && Repr == old(Repr)
      ensures Valid() && Contents() == map[]
    {
      root := null;
      size := 0;
      shape := Nil;
      ghost var links := h.links;
      SetLeft(dummy, null);
      SetRight(dummy, null);
      Overwrite(links, dummy, Link(null, links[dummy].right), Link(null, null));
    }

    /** findNodePriorTo: the walk from the root toward `key`. It returns
        the node visited just before the one holding `key` (the dummy when
        that is the root), or, when `key` is absent, null if
        `nullWhenNotFound` and otherwise the last node visited. */
    method FindNodePriorTo(key: K, nullWhenNotFound: bool) returns (p: Node?<K, V>)
      requires Valid()
      ensures nullWhenNotFound && key !in Contents() ==> p == null
      ensures !(nullWhenNotFound && key !in Contents()) ==> p == Above(shape, h.data, comparator.compare, key, dummy)
      ensures p != null ==> (p == dummy <==> root == null || (root in h.data && h.data[root].key == key))
      ensures p != null && p != dummy ==>
        && p in h.links && p in h.data && comparator.compare(key, h.data[p].key) != 0
        && var c := Side(h.links, h.data, comparator.compare, p, key);
        && (c != null <==> key in Contents())
        && (c != null ==> c in h.data && h.data[c].key == key)
    {
      var cmp := comparator.compare;
      SiteSpec(shape, h.links, h.data, cmp, key);
      if shape.Br? {
        AboveSpec(shape, h.links, h.data, cmp, key, dummy);
      }
      var cur := root;
      var prev: Node<K, V> := dummy;
      ghost var t := shape;
      while cur != null
        invariant Fits(t, h.links) && Nodes(t) <= Nodes(shape) && cur == Top(t)
        invariant Above(shape, h.data, cmp, key, dummy) == Above(t, h.data, cmp, key, prev)
        invariant Site(shape, h.data, cmp, key) == Site(t, h.data, cmp, key)
        decreases Shapes.Size(t)
      {
        var c := cmp(key, cur.key.value);
        if c == 0 {
          return prev;
        }
        prev := cur;
        if c < 0 {
          cur := cur.left;
          t := t.left;
        } else {
          cur := cur.right;
          t := t.right;
        }
      }
      if nullWhenNotFound {
        return null;
      }
      return prev;
    }

    /** findNodeWithKey: the node holding `key`, null when it is absent. */
    method FindNodeWithKey(key: K) returns (n: Node?<K, V>)
      requires Valid()
      ensures n == null <==> key !in Contents()
      ensures n != null ==> n in h.data && h.data[n] == Entry(key, Contents()[key])
    {
      var cmp := comparator.compare;
      SiteSpec(shape, h.links, h.data, cmp, key);
      var prev := FindNodePriorTo(key, true);
      if prev == null {
        return null;
      }
      AboveSpec(shape, h.links, h.data, cmp, key, dummy);
      if prev == dummy {
        return root;
      }
      var c := cmp(key, prev.key.value);
      if c < 0 {
        return prev.left;
      } else {
        return prev.right;
      }
    }

    /** replaceValue: gives `node` the value `newValue` and returns the
        value it had; nothing else changes. */
    method ReplaceValue(node: Node<K, V>, newValue: V) returns (oldValue: V)
      requires Mirrors() && node in h.data
      modifies this`h, node
      ensures Mirrors() && Repr == old(Repr) && oldValue == old(h.data[node].value)
      ensures h == old(h).(data := old(h.data)[node := Entry(old(h.data[node].key), newValue)])
    {
      oldValue := node.value;
      node.value := newValue;
      h := h.(data := h.data[node := Entry(h.data[node].key, newValue)]);
    }

    /** put: a null key is refused with InvalidKeyException; a key already
        present gets the new value and its old value is returned; a new key
        becomes the root of an empty tree, or a new leaf where the search
        walk ends, and null is returned. */
    method Put(key: Option<K>, value: V) returns (r: Result<Option<V>>)
      requires Valid()
      modifies Repr
      ensures Valid() && fresh(Repr - old(Repr))
      ensures key.None? ==> r == Failure(InvalidKey) && St() == old(St()) && shape == old(shape)
      ensures key.Some? ==> Contents() == old(Contents())[key.value := value]
      ensures key.Some? ==> r == Success(if key.value in old(Contents()) then Some(old(Contents())[key.value]) else None)
      ensures key.Some? && key.value in old(Contents()) ==> h.links == old(h.links) && root == old(root) && size == old(size)
      ensures key.Some? && key.value !in old(Contents()) ==> size == old(size) + 1
    {
      if key.None? {
        return Failure(InvalidKey);
      }
      if root == null {
        r := PutIntoEmpty(key.value, value);
      } else {
        r := PutIntoNonEmpty(key.value, value);
      }
    }

    /** put into an empty tree: the new node becomes the root and both dummy
        links point at it. */
    method PutIntoEmpty(k: K, value: V) returns (r: Result<Option<V>>)
      requires Valid() && root == null
      modifies Repr
      ensures Valid() && fresh(Repr - old(Repr))
      ensures Contents() == old(Contents())[k := value] && r == Success(None)
      ensures k !in old(Contents()) && size == old(size) + 1
    {
      ghost var st0 := St();
      var cmp := comparator.compare;
      var x := NewNode(k, value);
      SetRoot(x, Br(x, Nil, Nil));
      SetLeft(dummy, x);
      SetRight(dummy, x);
      IncSize();
      Overwrite(st0.heap.links[x := Link(null, null)], dummy, Link(x, null), Link(x, x));
      assert St() == Seeded(st0, dummy, k, value, x);
      SeedCorrect(st0, dummy, cmp, k, value, x);
      return Success(None);
    }

    /** put into a non-empty tree: walk to the node above `k`'s place;
        overwrite the value if `k` is there, otherwise hang a new leaf. */
    method PutIntoNonEmpty(k: K, value: V) returns (r: Result<Option<V>>)
      requires Valid() && root != null
      modifies Repr
      ensures Valid() && fresh(Repr - old(Repr))
      ensures Contents() == old(Contents())[k := value]
      ensures r == Success(if k in old(Contents()) then Some(old(Contents())[k]) else None)
      ensures k in old(Contents()) ==> h.links == old(h.links) && root == old(root) && size == old(size)
      ensures k !in old(Contents()) ==> size == old(size) + 1
    {
      var cmp := comparator.compare;
      SiteSpec(shape, h.links, h.data, cmp, k);
      AboveSpec(shape, h.links, h.data, cmp, k, dummy);
      var nearest := FindNodePriorTo(k, false);
      var nodeToWorkOn: Node?<K, V> := null;
      var c := 0;
      if nearest == dummy {
        // Java asserts here that the root holds the key
        assert cmp(root.key.value, k) == 0;
        nodeToWorkOn := root;
      } else {
        c := cmp(k, nearest.key.value);
        // Java asserts here that the key is not a duplicate
        assert c != 0;
        nodeToWorkOn := if c < 0 then nearest.left else nearest.right;
      }
      if nodeToWorkOn == null {
        r := AttachLeaf(nearest, k, value, c);
      } else {
        r := Revalue(nodeToWorkOn, k, value);
      }
    }

    /** The new-key branch of put: `nearest` is where the walk for the
        absent key `k` ended; a new leaf takes its empty slot on `k`'s side
        and size grows by one. */
    method AttachLeaf(nearest: Node<K, V>, k: K, value: V, c: int) returns (r: Result<Option<V>>)
      requires Valid() && shape.Br? && k !in Contents()
      requires nearest == Above(shape, h.data, comparator.compare, k, dummy)
      requires nearest in h.data && c == comparator.compare(k, h.data[nearest].key)
      modifies Repr
      ensures Valid() && fresh(Repr - old(Repr))
      ensures Contents() == old(Contents())[k := value] && r == Success(None)
      ensures size == old(size) + 1
    {
      var cmp := comparator.compare;
      ghost var st0, s0 := St(), shape;
      SiteSpec(s0, st0.heap.links, st0.heap.data, cmp, k);
      AboveSpec(s0, st0.heap.links, st0.heap.data, cmp, k, dummy);
      var x := HangLeaf(nearest, k, value, c);
      AttachAt(st0, dummy, s0, cmp, k, value, x, nearest, St());
      FitsNodes(shape, h.links);
      return Success(None);
    }

    /** A new node for `k` hung below `nearest`, on the left when `c` is
        negative and on the right otherwise; size grows by one. */
    method HangLeaf(nearest: Node<K, V>, k: K, value: V, c: int) returns (x: Node<K, V>)
      requires Mirrors() && nearest in h.links && Keyed(shape, h.data)
      modifies this`h, this`Repr, this`size, this`shape, nearest
      ensures Mirrors() && fresh(x) && Repr == old(Repr) + {x} && x !in old(h.links)
      ensures h.data == old(h.data)[x := Entry(k, value)]
      ensures h.links == old(h.links)[x := Link(null, null)][nearest :=
        if c < 0 then Link(x, old(h.links[nearest]).right) else Link(old(h.links[nearest]).left, x)]
      ensures size == old(size) + 1 && root == old(root)
      ensures shape == Graft(old(shape), old(h.data), comparator.compare, k, Br(x, Nil, Nil))
    {
      ghost var s0, d0 := shape, h.data;
      ghost var l0 := h.links;
      x := NewNode(k, value);
      shape := Graft(s0, d0, comparator.compare, k, Br(x, Nil, Nil));
      assert x != nearest && h.links[nearest] == l0[nearest];
      if c < 0 {
        SetLeft(nearest, x);
      } else {
        SetRight(nearest, x);
      }
      IncSize();
    }

    /** `root := x`, with the shape that now hangs from it. */
    method SetRoot(x: Node?<K, V>, ghost s': Shape<K, V>)
      requires Mirrors()
      modifies this`root, this`shape
      ensures Mirrors() && root == x && shape == s'
      ensures h == old(h) && Repr == old(Repr) && size == old(size)
    {
      root := x;
      shape := s';
    }

    /** `++size`. */
    method IncSize()
      requires Mirrors()
      modifies this`size
      ensures Mirrors() && size == old(size) + 1
      ensures h == old(h) && Repr == old(Repr) && root == old(root) && shape == old(shape)
    {
      size := size + 1;
    }

    /** `--size`. */
    method DecSize()
      requires Mirrors()
      modifies this`size
      ensures Mirrors() && size == old(size) - 1
      ensures h == old(h) && Repr == old(Repr) && root == old(root) && shape == old(shape)
    {
      size := size - 1;
    }

    /** The present-key branch of put: `n` holds `k`; its value is
        replaced and the old one returned. */
    method Revalue(n: Node<K, V>, k: K, value: V) returns (r: Result<Option<V>>)
      requires Valid() && n in Nodes(shape) && h.data[n].key == k
      modifies Repr
      ensures Valid() && Repr == old(Repr)
      ensures k in old(Contents()) && Contents() == old(Contents())[k := value]
      ensures r == Success(Some(old(Contents())[k]))
      ensures h.links == old(h.links) && root == old(root) && size == old(size)
    {
      ghost var st0 := St();
      NodeEntry(shape, h.data, comparator.compare, n);
      RevaluedCorrect(st0, dummy, shape, comparator.compare, n, value);
      var oldValue := ReplaceValue(n, value);
      return Success(Some(oldValue));
    }

    /** containsKey: whether the map holds `key`. */
    method ContainsKey(key: K) returns (b: bool)
      requires Valid()
      ensures b <==> key in Contents()
    {
      var n := FindNodeWithKey(key);
      return n != null;
    }

    /** get: the value of `key`, null (None) when it is absent. */
    method Get(key: K) returns (r: Option<V>)
      requires Valid()
      ensures key in Contents() ==> r == Some(Contents()[key])
      ensures key !in Contents() ==> r == None
    {
      var n := FindNodeWithKey(key);
      if n == null {
        return None;
      }
      return Some(n.value);
    }

    /** isEmpty: whether the map has no entries. */
    method IsEmpty() returns (b: bool)
      requires Valid()
      ensures b <==> Contents() == map[]
    {
      if shape.Br? {
        assert h.data[shape.node].key in Contents();
      }
      return root == null;
    }

    /** size: the number of entries. */
    method Size() returns (n: int)
      requires Valid()
      ensures n == |Contents()|
    {
      EntriesCount(shape, h.data, comparator.compare);
      return size;
    }

    /** getKeyComparator: the comparator the tree was built with. */
    method GetKeyComparator() returns (c: Comparator<K>)
      ensures c == comparator
    {
      return comparator;
    }

    /** `n.key := from.key; n.value := from.value`, recorded. */
    method CopyEntry(n: Node<K, V>, from: Node<K, V>)
      requires Mirrors() && n in h.data && from in h.data
      modifies this`h, n
      ensures Mirrors() && Repr == old(Repr)
      ensures h == old(h).(data := old(h.data)[n := old(h.data)[from]])
      ensures root == old(root) && size == old(size) && shape == old(shape)
    {
      n.key := from.key;
      n.value := from.value;
      h := h.(data := h.data[n := h.data[from]]);
    }

    /** findPredecessorParent: the last node before the end of the right
        spine of `node.left`, or `node` itself when `node.left` has no right
        child. */
    method FindPredecessorParent(node: Node<K, V>, ghost sn: Shape<K, V>) returns (pp: Node<K, V>)
      requires Mirrors() && Fits(sn, h.links) && sn.Br? && sn.left.Br? && node == sn.node
      ensures pp == PredecessorParent(sn)
    {
      var cur: Node<K, V> := node.left;
      var prev := node;
      ghost var t := sn.left;
      while cur.right != null
        invariant t.Br? && Fits(t, h.links) && cur == t.node
        invariant SpineParent(t, prev) == PredecessorParent(sn)
        decreases Shapes.Size(t)
      {
        prev := cur;
        cur := cur.right;
        t := t.right;
      }
      return prev;
    }

    /** removeNode(n, parent), where `sn` is the subtree below `n` (Java
        asserts that `n` is a child of `parent`): the state and result
        RemoveNodeF gives, defects included. */
    method RemoveNode(n: Node?<K, V>, parent: Node<K, V>, ghost sn: Shape<K, V>) returns (r: Result<Option<V>>)
      requires Mirrors() && Fits(sn, h.links) && Keyed(sn, h.data) && Distinct(sn) && Top(sn) == n
      requires parent in h.links && (n == h.links[parent].left || n == h.links[parent].right)
      modifies Repr
      ensures Mirrors() && Repr == old(Repr)
      ensures (St(), r) == RemoveNodeF(old(St()), dummy, parent, sn)
      decreases Shapes.Size(sn), 1
    {
      if n == null {
        return Success(None);
      }
      if n.left == null {
        r := RemoveLeftless(n, parent, sn);
      } else if n == parent.left {
        // Java repeats the test `n == parent.left` here; its else branch
        // cannot run
        SetLeft(parent, n.left);
        DecSize();
        r := Success(Some(n.value));
      } else {
        r := RemoveByPredecessor(n, parent, sn);
      }
    }

    /** The branch of removeNode for a node with no left child: its parent's
        slot takes its right child; a leaf that is the root clears the tree
        instead of decrementing the size. */
    method RemoveLeftless(n: Node<K, V>, parent: Node<K, V>, ghost sn: Shape<K, V>) returns (r: Result<Option<V>>)
      requires Mirrors() && Fits(sn, h.links) && Keyed(sn, h.data) && Distinct(sn)
      requires sn.Br? && sn.node == n && sn.left.Nil?
      requires parent in h.links && (n == h.links[parent].left || n == h.links[parent].right)
      modifies Repr
      ensures Mirrors() && Repr == old(Repr)
      ensures (St(), r) == RemoveNodeF(old(St()), dummy, parent, sn)
    {
      var result := Success(Some(n.value));
      if n.right == null {
        ReplaceChild(parent, n, null);
        if n == root {
          Clear();
          return result;
        }
      } else {
        ReplaceChild(parent, n, n.right);
      }
      DecSize();
      return result;
    }

    /** The slot of `parent` that holds `n` (the left one when it is the
        left child) set to `c`, as removeNode's two one-child branches do. */
    method ReplaceChild(parent: Node<K, V>, n: Node<K, V>, c: Node?<K, V>)
      requires Mirrors() && parent in h.links
      modifies this`h, parent
      ensures Mirrors() && Repr == old(Repr)
      ensures h == old(h).(links := SetChild(old(h.links), parent, n, c))
      ensures root == old(root) && size == old(size) && shape == old(shape)
    {
      if n == parent.left {
        SetLeft(parent, c);
      } else {
        SetRight(parent, c);
      }
    }

    /** The branch of removeNode for a node with a left child that is the
        right child of `parent`: copy the predecessor's entry into `n`,
        remove the predecessor (a NullPointerException when it is null),
        then undo the extra decrement. */
    method RemoveByPredecessor(n: Node<K, V>, parent: Node<K, V>, ghost sn: Shape<K, V>) returns (r: Result<Option<V>>)
      requires Mirrors() && Fits(sn, h.links) && Keyed(sn, h.data) && Distinct(sn)
      requires sn.Br? && sn.node == n && sn.left.Br?
      requires parent in h.links && n == h.links[parent].right && n != h.links[parent].left
      modifies Repr
      ensures Mirrors() && Repr == old(Repr)
      ensures (St(), r) == RemoveNodeF(old(St()), dummy, parent, sn)
      decreases Shapes.Size(sn), 0
    {
      ghost var st0 := St();
      var result := Success(Some(n.value));
      var predecessorParent := FindPredecessorParent(n, sn);
      PredecessorLinks(sn, h.links);
      ghost var sq := PredecessorShape(sn);
      var predecessor := predecessorParent.right;
      if predecessor == null {
        return Failure(NullPointer);
      }
      CopyEntry(n, predecessor);
      var r2 := RemoveNode(predecessor, predecessorParent, sq);
      PredecessorStep(st0, dummy, parent, sn);
      if r2.Failure? {
        return r2;
      }
      IncSize();
      DecSize();
      return result;
    }

    /** remove(key): removeNode on the node the search for `key` stops at.
        It does what RemoveF describes; on the paths where removeNode is
        sound, the tree stays a search tree whose map lost `key`. */
    method Remove(key: K) returns (r: Result<Option<V>>)
      requires Valid()
      modifies Repr
      ensures Mirrors() && Repr == old(Repr)
      ensures (St(), r) == RemoveF(old(St()), dummy, old(shape), comparator.compare, key)
      ensures key !in old(Contents()) ==> r == Success(None) && St() == old(St()) && shape == old(shape)
      ensures SoundRemoval(old(St()), dummy, old(shape), comparator.compare, key) ==>
        && Valid() && Contents() == old(Contents()) - {key}
        && r == Success(if key in old(Contents()) then Some(old(Contents())[key]) else None)
    {
      var cmp := comparator.compare;
      ghost var st0, s0 := St(), shape;
      if root == null {
        return Success(None);
      }
      SiteSpec(s0, h.links, h.data, cmp, key);
      AboveSpec(s0, h.links, h.data, cmp, key, dummy);
      var nearest := FindNodePriorTo(key, false);
      var nodeToRemove: Node?<K, V>;
      if nearest == dummy {
        nodeToRemove := root;
      } else {
        var c := cmp(key, nearest.key.value);
        // Java asserts here that the key is not a duplicate
        assert c != 0;
        nodeToRemove := if c < 0 then nearest.left else nearest.right;
      }
      r := RemoveNode(nodeToRemove, nearest, Site(s0, st0.heap.data, cmp, key));
      SetShape(RemovedShape(s0, st0.heap.data, cmp, key));
      if SoundRemoval(st0, dummy, s0, cmp, key) {
        AsWrittenSound(st0, dummy, s0, cmp, key);
        FixedRemoveCorrect(st0, dummy, s0, cmp, key);
        FitsNodes(shape, h.links);
      }
    }

    /** The ghost shape set to `s'`. */
    method SetShape(ghost s': Shape<K, V>)
      requires Mirrors()
      modifies this`shape
      ensures Mirrors() && shape == s'
      ensures h == old(h) && Repr == old(Repr) && root == old(root) && size == old(size)
    {
      shape := s';
    }

    /** iterator: a fresh in-order iterator over this tree. */
    method Iterator() returns (it: BinaryTreeIterator<K, V>)
      requires Valid()
      ensures fresh(it) && it.Valid() && it.source == this && it.visited == []
    {
      it := new BinaryTreeIterator(this, root);
    }

    /** putAll(other): with a different comparator object, an
        InvalidOperationException before any change; otherwise put of every
        entry of `other` in its iteration order, so that other's values win
        on shared keys. */
    method PutAll(other: BinaryTree<K, V>) returns (r: Result<()>)
      requires Valid() && other.Valid() && Repr !! other.Repr
      modifies Repr
      ensures Valid() && fresh(Repr - old(Repr))
      ensures comparator != other.comparator ==> r == Failure(InvalidOperation) && St() == old(St()) && shape == old(shape)
      ensures comparator == other.comparator ==> r == Success(()) && Contents() == old(Contents()) + other.Contents()
    {
      var otherComparator := other.GetKeyComparator();
      if comparator != otherComparator {
        return Failure(InvalidOperation);
      }
      var it := other.Iterator();
      label Created:
      var more := it.HasNext();
      TreeStillValid(this);
      it.StillValid@Created();
      PutNothing(Contents());
      PutRemaining(it, more, old(Contents()));
      it.Drained(old(Contents()));
      return Success(());
    }

    /** The loop of putAll: while the iterator has a next entry, put it. */
    method PutRemaining(it: BinaryTreeIterator<K, V>, more0: bool, ghost base: map<K, V>)
      requires Valid() && it.Valid() && Repr !! it.source.Repr && it !in Repr
      requires (more0 <==> |it.visited| < |it.All()|) && Contents() == base + MapOf(it.visited)
      modifies Repr, it
      ensures Valid() && fresh(Repr - old(Repr)) && it.Valid()
      ensures |it.visited| >= |it.All()| && Contents() == base + MapOf(it.visited)
    {
      var more := more0;
      while more
        invariant Valid() && fresh(Repr - old(Repr)) && Repr !! it.source.Repr && it !in Repr
        invariant it.Valid()
        invariant (more <==> |it.visited| < |it.All()|) && Contents() == base + MapOf(it.visited)
        decreases |it.All()| - |it.visited|
      {
        more := PutNext(it, base);
      }
    }

    /** One round of putAll's loop: put the iterator's next entry. */
    method PutNext(it: BinaryTreeIterator<K, V>, ghost base: map<K, V>) returns (more: bool)
      requires Valid() && it.Valid() && Repr !! it.source.Repr && it !in Repr
      requires |it.visited| < |it.All()| && Contents() == base + MapOf(it.visited)
      modifies Repr, it
      ensures Valid() && fresh(Repr - old(Repr)) && Repr !! it.source.Repr && it !in Repr && it.Valid()
      ensures it.All() == old(it.All()) && |it.visited| == old(|it.visited|) + 1
      ensures (more <==> |it.visited| < |it.All()|) && Contents() == base + MapOf(it.visited)
    {
      var entry := it.Next();
      TreeStillValid(this);
      PutFetched(it, entry.value, base);
      label Put:
      more := it.HasNext();
      TreeStillValid@Put(this);
      it.StillValid@Put();
    }

    /** The put of one round of putAll's loop, of the entry the iterator
        has just handed out. */
    method PutFetched(it: BinaryTreeIterator<K, V>, e: Entry<K, V>, ghost base: map<K, V>)
      requires Valid() && it.Valid() && Repr !! it.source.Repr && it !in Repr
      requires |it.visited| > 0 && e == it.visited[|it.visited| - 1]
      requires Contents() == base + MapOf(it.visited[..|it.visited| - 1])
      modifies Repr
      ensures Valid() && fresh(Repr - old(Repr)) && Repr !! it.source.Repr && it !in Repr && it.Valid()
      ensures Contents() == base + MapOf(it.visited)
    {
      var _ := Put(Some(e.key), e.value);
      it.StillValid();
      PutOneMore(base, it.visited[..|it.visited| - 1], e);
    }
  }

  /** BinaryTreeIterator: an in-order walk over a tree that keeps the nodes
      still to visit on a stack (top last); each stacked node owes its own
      entry and then those of its right subtree. */
  class BinaryTreeIterator<K(!new), V(0)> {
    var nodesToProcess: seq<Node<K, V>>
    var curNode: Node?<K, V>
    const source: BinaryTree<K, V>
    /** The subtrees whose tops are on the stack. */
    ghost var subs: seq<Shape<K, V>>
    /** The entries handed out so far. */
    ghost var visited: seq<Entry<K, V>>

    /** The source tree is well-formed and does not own the iterator; the
        stack holds the tops of `subs`, subtrees of the source tree; what
        was handed out and what the stack owes make up the source's
        in-order sequence; curNode, once set, is the node whose entry was
        handed out last. */
    ghost predicate Valid()
      reads this, source, source.Repr
    {
      && source.Valid() && this !in source.Repr
      && StackOf(nodesToProcess, subs, source.h.links, source.h.data)
      && visited + Pending(subs, source.h.data) == InOrder(source.shape, source.h.data)
      && (curNode != null ==> curNode in source.h.data && |visited| > 0 && source.h.data[curNode] == visited[|visited| - 1])
    }

    /** The entries of the source, in order. */
    ghost function All(): seq<Entry<K, V>>
      reads this, source
      requires Keyed(source.shape, source.h.data)
    {
      InOrder(source.shape, source.h.data)
    }

    /** Once every entry has been handed out, putting them all over `base`
        puts the source's map over it. */
    lemma Drained(base: map<K, V>)
      requires Valid() && |visited| >= |All()|
      ensures base + MapOf(visited) == base + source.Contents()
    {
      AllPut(base, visited, Pending(subs, source.h.data), source.shape, source.h.data, source.comparator.compare);
    }

    /** What the iterator hands out over an unmodified tree: one entry per
        node (as many as `size`), keys strictly ascending, making up the
        tree's map. */
    lemma Enumerates()
      requires Valid()
      ensures |All()| == source.size && Ascending(All(), source.comparator.compare)
      ensures MapOf(All()) == source.Contents()
    {
      InOrderLength(source.shape, source.h.data);
      InOrderSorted(source.shape, source.h.data, source.comparator.compare);
      MapOfInOrder(source.shape, source.h.data, source.comparator.compare);
    }

    /** In a tree of one entry, the entry last handed out is all there is. */
    lemma LastOnly()
      requires Valid() && curNode != null && source.size == 1
      ensures source.Contents() == map[source.h.data[curNode].key := source.h.data[curNode].value]
    {
      Enumerates();
      Exhausted(visited, Pending(subs, source.h.data), All());
      var e := source.h.data[curNode];
      assert All() == [e];
      assert MapOf([e]) == map[e.key := e.value] by {
        assert [e][..0] == [];
      }
    }

    /** The keys on the stack strictly decrease from bottom to top, so the
        top holds the least key still owed. */
    lemma StackDecreasing()
      requires Valid()
      ensures forall i :: 0 <= i < |nodesToProcess| ==> nodesToProcess[i] in source.h.data
      ensures forall i, j :: 0 <= i < j < |nodesToProcess| ==>
        source.comparator.compare(source.h.data[nodesToProcess[j]].key, source.h.data[nodesToProcess[i]].key) < 0
    {
      var data, cmp := source.h.data, source.comparator.compare;
      InOrderSorted(source.shape, data, cmp);
      AscendingSuffix(visited, Pending(subs, data), cmp);
      StackDescends(subs, data, cmp);
      forall i | 0 <= i < |nodesToProcess|
        ensures nodesToProcess[i] in data
      {
        assert nodesToProcess[i] == subs[i].node;
      }
    }

    /** An iterator none of whose objects has changed is still valid. */
    twostate lemma StillValid()
      requires old(Valid()) && unchanged(this) && unchanged(source) && unchanged(source.Repr)
      ensures Valid()
    {
    }

    /** BinaryTreeIterator(source, root): the left spine of `root` is
        stacked, its left-most node on top. */
    constructor (source: BinaryTree<K, V>, root: Node?<K, V>)
      requires source.Valid() && root == source.root
      ensures Valid() && this.source == source && visited == [] && curNode == null
    {
      this.source := source;
      curNode := null;
      nodesToProcess := [];
      subs := [];
      visited := [];
      new;
      PushAllNodesToTheLeftOf(root, source.shape);
      TreeStillValid(source);
    }

    /** pushAllNodesToTheLeftOf(node): push `node`, its left child, its
        left child's left child, and so on; the stack then owes all of the
        subtree `t` below `node` before what it owed already. */
    method PushAllNodesToTheLeftOf(node: Node?<K, V>, ghost t: Shape<K, V>)
      requires source.Mirrors() && StackOf(nodesToProcess, subs, source.h.links, source.h.data)
      requires Top(t) == node && Fits(t, source.h.links) && Keyed(t, source.h.data)
      modifies this`nodesToProcess, this`subs
      ensures StackOf(nodesToProcess, subs, source.h.links, source.h.data)
      ensures Pending(subs, source.h.data) == InOrder(t, source.h.data) + Pending(old(subs), source.h.data)
    {
      ghost var links, data := source.h.links, source.h.data;
      var iterNode := node;
      ghost var u := t;
      while iterNode != null
        invariant StackOf(nodesToProcess, subs, links, data)
        invariant Top(u) == iterNode && Fits(u, links) && Keyed(u, data)
        invariant InOrder(u, data) + Pending(subs, data) == InOrder(t, data) + Pending(old(subs), data)
        decreases Shapes.Size(u)
      {
        StackPush(nodesToProcess, subs, u, links, data);
        SpineStep(subs, u, data);
        nodesToProcess := nodesToProcess + [iterNode];
        subs := subs + [u];
        iterNode := iterNode.left;
        u := u.left;
      }
    }

    /** hasNext: the stack is not empty, which is when some entry of the
        source has not been handed out yet. */
    method HasNext() returns (b: bool)
      requires Valid()
      ensures b <==> |visited| < |All()|
    {
      PendingLength(subs, source.h.data);
      return |nodesToProcess| != 0;
    }

    /** remove: remove from the source tree the key of the node that next
        handed out last, by BinaryTree.remove, whose exception passes on to
        the caller; before any next, curNode is null and the dereference a
        NullPointerException. */
    method Remove() returns (r: Result<()>)
      requires Valid()
      modifies source.Repr
      ensures curNode == null ==> r == Failure(NullPointer) && source.St() == old(source.St()) && source.shape == old(source.shape)
      ensures curNode != null ==> curNode in old(source.h.data)
      ensures curNode != null ==>
        var res := RemoveF(old(source.St()), source.dummy, old(source.shape), source.comparator.compare, old(source.h.data[curNode].key)).1;
        && (res.Failure? ==> r == Failure(res.error))
        && (res.Success? ==> r == Success(()))
      ensures curNode != null ==>
        var k := old(source.h.data[curNode].key);
        && source.Mirrors()
        && source.St() == RemoveF(old(source.St()), source.dummy, old(source.shape), source.comparator.compare, k).0
        && (SoundRemoval(old(source.St()), source.dummy, old(source.shape), source.comparator.compare, k) ==>
              r == Success(()) && source.Valid() && source.Contents() == old(source.Contents()) - {k})
      ensures curNode != null ==> |visited| > 0 && old(source.h.data[curNode]) == visited[|visited| - 1]
      ensures curNode != null && old(source.size) == 1 ==> source.Valid() && source.Contents() == map[]
    {
      if curNode == null {
        return Failure(NullPointer);
      }
      ghost var single := source.size == 1;
      ghost var k, m0 := curNode.key.value, source.Contents();
      if single {
        LastOnly();
        SingleSound(source.St(), source.dummy, source.shape, source.comparator.compare, k);
        assert m0 - {k} == map[];
      }
      var removed := source.Remove(curNode.key.value);
      assert single ==> source.Contents() == m0 - {k};
      if removed.Failure? {
        return Failure(removed.error);
      }
      return Success(());
    }

    /** next: pop the top node into curNode, stack the left spine of its
        right child, and hand out the popped node's entry: the next entry of
        the in-order sequence. On an empty stack, an EmptyStackException
        before anything changes. */
    method Next() returns (r: Result<Entry<K, V>>)
      requires Valid()
      modifies this
      ensures Valid()
      ensures old(|visited|) == |All()| ==> r == Failure(EmptyStack) && visited == old(visited)
      ensures old(|visited|) == |All()| ==> curNode == old(curNode) && nodesToProcess == old(nodesToProcess)
      ensures old(|visited|) < |All()| ==> r == Success(All()[old(|visited|)]) && visited == old(visited) + [r.value]
      ensures old(|visited|) < |All()| ==> curNode != null && curNode in source.h.data && source.h.data[curNode] == r.value
    {
      if |nodesToProcess| == 0 {
        PendingLength(subs, source.h.data);
        return Failure(EmptyStack);
      }
      ghost var links, data := source.h.links, source.h.data;
      StackPop(nodesToProcess, subs, links, data, visited, InOrder(source.shape, data));
      ghost var top := subs[|subs| - 1];
      var node := nodesToProcess[|nodesToProcess| - 1];
      var e := Entry(node.key.value, node.value);
      assert e == data[top.node];
      Advance(node, e, top);
      return Success(e);
    }

    /** The writes of next once the top node `node` (subtree `top`) is
        known: pop it into curNode, hand out its entry `e`, and push the left
        spine of its right child. */
    method Advance(node: Node<K, V>, e: Entry<K, V>, ghost top: Shape<K, V>)
      requires source.Valid() && this !in source.Repr
      requires |nodesToProcess| > 0 && |subs| > 0
      requires StackOf(nodesToProcess[..|nodesToProcess| - 1], subs[..|subs| - 1], source.h.links, source.h.data)
      requires top.Br? && top.node == node && Fits(top, source.h.links) && Keyed(top, source.h.data)
      requires e == source.h.data[node]
      requires (visited + [e]) + (InOrder(top.right, source.h.data) + Pending(subs[..|subs| - 1], source.h.data))
        == InOrder(source.shape, source.h.data)
      modifies this
      ensures Valid() && curNode == node && visited == old(visited) + [e]
    {
      Pop(node, e);
      PushAllNodesToTheLeftOf(node.right, top.right);
      TreeStillValid(source);
    }

    /** The pop of next: the top node leaves the stack and becomes curNode,
        and its entry joins those handed out. */
    method Pop(node: Node<K, V>, e: Entry<K, V>)
      requires |nodesToProcess| > 0 && |subs| > 0
      modifies this`curNode, this`nodesToProcess, this`subs, this`visited
      ensures curNode == node && visited == old(visited) + [e]
      ensures nodesToProcess == old(nodesToProcess[..|nodesToProcess| - 1]) && subs == old(subs[..|subs| - 1])
    {
      curNode := node;
      nodesToProcess := nodesToProcess[..|nodesToProcess| - 1];
      subs := subs[..|subs| - 1];
      visited := visited + [e];
    }
  }

  /** A well-formed tree none of whose objects has changed is still
      well-formed. */
  twostate lemma TreeStillValid<K(!new), V(0)>(t: BinaryTree<K, V>)
    requires old(t.Valid()) && unchanged(t) && unchanged(t.Repr)
    ensures t.Valid() && t.Contents() == old(t.Contents())
  {
  }
}

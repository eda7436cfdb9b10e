/** Nodes of the tree and the pure values the proofs reason about.

    A BinaryTree owns a set of Node objects. Its ghost `Heap` records, for
    every node it has allocated, the node's two links and (for every node but
    the dummy) its entry; the tree keeps that record equal to the real fields.
    A `Shape` is the ghost tree of node references hanging from the root; the
    functions below give the shape's meaning (its entries, its in-order
    sequence, its search order) in terms of a Heap. */
module Shapes {
  import opened Types

  /** BinaryTreeNode: a key (None only for the tree's dummy node), a value
      and two child links, all updated in place. */
  class Node<K(!new), V> {
    var key: Option<K>
    var value: V
    var left: Node?<K, V>
    var right: Node?<K, V>

    constructor (newKey: Option<K>, newValue: V)
      ensures key == newKey && value == newValue
      ensures left == null && right == null
    {
      key := newKey;
      value := newValue;
      left := null;
      right := null;
    }
  }

  datatype Link<K(!new), V> = Link(left: Node?<K, V>, right: Node?<K, V>)

  /** The recorded fields of the nodes a tree owns. */
  datatype Heap<K(!new), V> = Heap(links: map<Node<K, V>, Link<K, V>>, data: map<Node<K, V>, Entry<K, V>>)

  /** The mutable fields of a BinaryTree: its node fields, root and size. */
  datatype State<K(!new), V> = State(heap: Heap<K, V>, root: Node?<K, V>, size: int)

  /** A tree of node references: the structure a root reaches. */
  datatype Shape<K(!new), V> = Nil | Br(node: Node<K, V>, left: Shape<K, V>, right: Shape<K, V>)

  function Top<K(!new), V>(s: Shape<K, V>): Node?<K, V> {
    if s.Nil? then null else s.node
  }

  ghost function Nodes<K(!new), V>(s: Shape<K, V>): set<Node<K, V>> {
    match s
    case Nil => {}
    case Br(n, l, r) => {n} + Nodes(l) + Nodes(r)
  }

  /** Number of nodes of a shape (the value `size` must agree with). */
  function Size<K(!new), V>(s: Shape<K, V>): nat {
    match s
    case Nil => 0
    case Br(_, l, r) => 1 + Size(l) + Size(r)
  }

  /** No node occurs twice: the links form a tree, not a DAG or a cycle. */
  ghost predicate Distinct<K(!new), V>(s: Shape<K, V>) {
    match s
    case Nil => true
    case Br(n, l, r) =>
      && n !in Nodes(l) && n !in Nodes(r) && Nodes(l) !! Nodes(r)
      && Distinct(l) && Distinct(r)
  }

  /** The recorded links are exactly the shape's edges. */
  ghost predicate Fits<K(!new), V>(s: Shape<K, V>, links: map<Node<K, V>, Link<K, V>>) {
    match s
    case Nil => true
    case Br(n, l, r) =>
      && n in links && links[n] == Link(Top(l), Top(r))
      && Fits(l, links) && Fits(r, links)
  }

  /** Every node of the shape has a recorded entry. */
  ghost predicate Keyed<K(!new), V>(s: Shape<K, V>, data: map<Node<K, V>, Entry<K, V>>) {
    Nodes(s) <= data.Keys
  }

  /** The key-value pairs stored in a shape. */
  ghost function Entries<K(!new), V>(s: Shape<K, V>, data: map<Node<K, V>, Entry<K, V>>): map<K, V>
    requires Keyed(s, data)
  {
    match s
    case Nil => map[]
    case Br(n, l, r) => Entries(l, data) + Entries(r, data) + map[data[n].key := data[n].value]
  }

  /** The binary-search-tree order: every key left of a node orders before
      the node's key, every key right of it after. */
  ghost predicate Ordered<K(!new), V>(s: Shape<K, V>, data: map<Node<K, V>, Entry<K, V>>, cmp: (K, K) -> int)
    requires Keyed(s, data)
  {
    match s
    case Nil => true
    case Br(n, l, r) =>
      && (forall j :: j in Entries(l, data) ==> cmp(j, data[n].key) < 0)
      && (forall j :: j in Entries(r, data) ==> cmp(data[n].key, j) < 0)
      && Ordered(l, data, cmp) && Ordered(r, data, cmp)
  }

  /** The entries of a shape, left subtree first. */
  ghost function InOrder<K(!new), V>(s: Shape<K, V>, data: map<Node<K, V>, Entry<K, V>>): seq<Entry<K, V>>
    requires Keyed(s, data)
  {
    match s
    case Nil => []
    case Br(n, l, r) => InOrder(l, data) + [data[n]] + InOrder(r, data)
  }

  /** A tree state is a well-formed binary search tree with shape `s`: the
      links fit `s`, `s` is ordered, the dummy's two children are the root,
      and `size` counts the nodes. */
  ghost predicate Good<K(!new), V>(st: State<K, V>, dummy: Node<K, V>, s: Shape<K, V>, cmp: (K, K) -> int) {
    && Fits(s, st.heap.links) && Keyed(s, st.heap.data) && Distinct(s)
    && dummy !in Nodes(s) && Ordered(s, st.heap.data, cmp)
    && st.root == Top(s)
    && dummy in st.heap.links && st.heap.links[dummy] == Link(st.root, st.root)
    && st.size == Size(s)
  }

  /** Fits depends only on the links of the shape's own nodes. */
  lemma {:induction false} FitsFrame<K(!new), V>(s: Shape<K, V>, a: map<Node<K, V>, Link<K, V>>, b: map<Node<K, V>, Link<K, V>>)
    requires Fits(s, a)
    requires forall m :: m in Nodes(s) && m in a ==> m in b && b[m] == a[m]
    ensures Fits(s, b)
  {
    match s
    case Nil =>
    case Br(n, l, r) =>
      FitsFrame(l, a, b);
      FitsFrame(r, a, b);
  }

  /** Every node of a fitting shape has recorded links. */
  lemma {:induction false} FitsNodes<K(!new), V>(s: Shape<K, V>, links: map<Node<K, V>, Link<K, V>>)
    requires Fits(s, links)
    ensures Nodes(s) <= links.Keys
  {
    match s
    case Nil =>
    case Br(n, l, r) =>
      FitsNodes(l, links);
      FitsNodes(r, links);
  }

  /** Entries, order and in-order sequence depend only on the entries of the
      shape's own nodes. */
  lemma {:induction false} DataFrame<K(!new), V>(s: Shape<K, V>, a: map<Node<K, V>, Entry<K, V>>, b: map<Node<K, V>, Entry<K, V>>, cmp: (K, K) -> int)
    requires Keyed(s, a)
    requires forall m :: m in Nodes(s) ==> m in b && b[m] == a[m]
    ensures Keyed(s, b)
    ensures Entries(s, b) == Entries(s, a)
    ensures InOrder(s, b) == InOrder(s, a)
    ensures Ordered(s, b, cmp) == Ordered(s, a, cmp)
  {
    match s
    case Nil =>
    case Br(n, l, r) =>
      DataFrame(l, a, b, cmp);
      DataFrame(r, a, b, cmp);
  }

  /** In an ordered shape the node count is the number of distinct keys, so
      `size` is the number of entries of the map. */
  lemma {:induction false} EntriesCount<K(!new), V>(s: Shape<K, V>, data: map<Node<K, V>, Entry<K, V>>, cmp: (K, K) -> int)
    requires Keyed(s, data) && Ordered(s, data, cmp) && TotalOrder(cmp)
    ensures |Entries(s, data).Keys| == Size(s)
  {
    match s
    case Nil =>
    case Br(n, l, r) =>
      EntriesCount(l, data, cmp);
      EntriesCount(r, data, cmp);
      var kl, kr, k := Entries(l, data).Keys, Entries(r, data).Keys, data[n].key;
      SplitKeys(s, data, cmp);
      KeysOfBr(s, data);
      DisjointUnionCard(kl, kr, k);
  }

  /** The keys of a node: its left keys, its right keys and its own key. */
  lemma KeysOfBr<K(!new), V>(s: Shape<K, V>, data: map<Node<K, V>, Entry<K, V>>)
    requires s.Br? && Keyed(s, data)
    ensures Entries(s, data).Keys == Entries(s.left, data).Keys + Entries(s.right, data).Keys + {data[s.node].key}
  {
  }

  lemma DisjointUnionCard<T>(a: set<T>, b: set<T>, x: T)
    requires a !! b && x !in a && x !in b
    ensures |a + b + {x}| == |a| + |b| + 1
  {
    assert |a + b| == |a| + |b| by {
      assert a * b == {};
    }
  }

  /** The keys of an ordered node: its left keys, its right keys and its own
      key are three disjoint sets. */
  lemma SplitKeys<K(!new), V>(s: Shape<K, V>, data: map<Node<K, V>, Entry<K, V>>, cmp: (K, K) -> int)
    requires s.Br? && Keyed(s, data) && Ordered(s, data, cmp) && TotalOrder(cmp)
    ensures Entries(s.left, data).Keys !! Entries(s.right, data).Keys
    ensures data[s.node].key !in Entries(s.left, data) && data[s.node].key !in Entries(s.right, data)
  {
    var k := data[s.node].key;
    forall j | j in Entries(s.left, data) ensures j !in Entries(s.right, data) {
      assert cmp(j, k) < 0;
    }
  }
}

/** BinaryTree.put on the ghost state: a key already present has its value
    overwritten in place; a new key becomes the root of an empty tree, or a
    new leaf in the empty slot where the search walk ends. */
module Insertion {
  import opened Types
  import opened Shapes
  import opened Search
  import opened Grafting

  /** The state after put of a new key `k` into an empty tree, with `x` the
      new node: it is the root and both dummy links point at it. */
  function Seeded<K(!new), V>(st: State<K, V>, dummy: Node<K, V>, k: K, v: V, x: Node<K, V>): State<K, V> {
    State(Heap(st.heap.links[x := Link(null, null)][dummy := Link(x, x)], st.heap.data[x := Entry(k, v)]), x, st.size + 1)
  }

  /** The state after put of a new key `k` into a non-empty tree, with `x`
      the new node: it hangs as a leaf below the node the walk ends at, on
      the side `k` orders to. */
  ghost function Attached<K(!new), V>(st: State<K, V>, dummy: Node<K, V>, s: Shape<K, V>, cmp: (K, K) -> int, k: K, v: V, x: Node<K, V>): State<K, V>
    requires Good(st, dummy, s, cmp) && TotalOrder(cmp) && s.Br? && k !in Entries(s, st.heap.data)
  {
    var links, data := st.heap.links, st.heap.data;
    var p := Above(s, data, cmp, k, dummy);
    SiteSpec(s, links, data, cmp, k);
    AboveSpec(s, links, data, cmp, k, dummy);
    var p' := if cmp(k, data[p].key) < 0 then Link(x, links[p].right) else Link(links[p].left, x);
    State(Heap(links[x := Link(null, null)][p := p'], data[x := Entry(k, v)]), st.root, st.size + 1)
  }

  /** The state after put of a key held by node `n`: only its value
      changes. */
  ghost function Revalued<K(!new), V>(st: State<K, V>, n: Node<K, V>, v: V): State<K, V>
    requires n in st.heap.data
  {
    st.(heap := st.heap.(data := st.heap.data[n := Entry(st.heap.data[n].key, v)]))
  }

  /** put of a new key into an empty tree gives the one-entry tree. */
  lemma SeedCorrect<K(!new), V>(st: State<K, V>, dummy: Node<K, V>, cmp: (K, K) -> int, k: K, v: V, x: Node<K, V>)
    requires Good(st, dummy, Nil, cmp) && x != dummy
    ensures var st' := Seeded(st, dummy, k, v, x);
      && Good(st', dummy, Br(x, Nil, Nil), cmp)
      && Entries(Br(x, Nil, Nil), st'.heap.data) == map[k := v]
      && st'.size == 1 && st'.root == x
  {
  }

  /** put of a new key into a non-empty tree: the result is a well-formed
      search tree whose shape is the old one with a leaf for `x` grafted in
      the empty slot the walk ends at, and whose map is the old one plus
      `k`, with one more node. */
  lemma AttachCorrect<K(!new), V>(st: State<K, V>, dummy: Node<K, V>, s: Shape<K, V>, cmp: (K, K) -> int, k: K, v: V, x: Node<K, V>)
    requires Good(st, dummy, s, cmp) && TotalOrder(cmp) && s.Br?
    requires k !in Entries(s, st.heap.data) && x !in st.heap.links && x != dummy
    ensures var st', s' := Attached(st, dummy, s, cmp, k, v, x), Graft(s, st.heap.data, cmp, k, Br(x, Nil, Nil));
      && Good(st', dummy, s', cmp)
      && Entries(s', st'.heap.data) == Entries(s, st.heap.data)[k := v]
      && Nodes(s') == Nodes(s) + {x}
  {
    var st' := Attached(st, dummy, s, cmp, k, v, x);
    var s' := Graft(s, st.heap.data, cmp, k, Br(x, Nil, Nil));
    AttachLinks(st, dummy, s, cmp, k, v, x);
    FitsNodes(s, st.heap.links);
    AttachData(s, st.heap.data, cmp, k, v, x);
    AttachOrder(s, st.heap.data, cmp, k, v, x);
    GraftTop(s, st.heap.data, cmp, k, Br(x, Nil, Nil));
  }

  /** AttachCorrect for a state given field by field, with the parent `p`
      of the new leaf named. */
  lemma AttachAt<K(!new), V>(st: State<K, V>, dummy: Node<K, V>, s: Shape<K, V>, cmp: (K, K) -> int, k: K, v: V, x: Node<K, V>, p: Node<K, V>, st': State<K, V>)
    requires Good(st, dummy, s, cmp) && TotalOrder(cmp) && s.Br?
    requires k !in Entries(s, st.heap.data) && x !in st.heap.links && x != dummy
    requires p == Above(s, st.heap.data, cmp, k, dummy) && p in st.heap.links && p in st.heap.data
    requires var l := st.heap.links;
      st'.heap.links == l[x := Link(null, null)][p := if cmp(k, st.heap.data[p].key) < 0 then Link(x, l[p].right) else Link(l[p].left, x)]
    requires st'.heap.data == st.heap.data[x := Entry(k, v)] && st'.root == st.root && st'.size == st.size + 1
    ensures var s' := Graft(s, st.heap.data, cmp, k, Br(x, Nil, Nil));
      && Good(st', dummy, s', cmp)
      && Entries(s', st'.heap.data) == Entries(s, st.heap.data)[k := v]
      && Nodes(s') == Nodes(s) + {x}
  {
    AttachCorrect(st, dummy, s, cmp, k, v, x);
    assert st' == Attached(st, dummy, s, cmp, k, v, x);
  }

  /** The links after attaching fit the grafted shape, which has one node
      more. */
  lemma AttachLinks<K(!new), V>(st: State<K, V>, dummy: Node<K, V>, s: Shape<K, V>, cmp: (K, K) -> int, k: K, v: V, x: Node<K, V>)
    requires Good(st, dummy, s, cmp) && TotalOrder(cmp) && s.Br?
    requires k !in Entries(s, st.heap.data) && x !in st.heap.links && x != dummy
    ensures var st', s' := Attached(st, dummy, s, cmp, k, v, x), Graft(s, st.heap.data, cmp, k, Br(x, Nil, Nil));
      && Fits(s', st'.heap.links) && Distinct(s') && Nodes(s') == Nodes(s) + {x} && Size(s') == Size(s) + 1
  {
    var links, data := st.heap.links, st.heap.data;
    var c: Shape<K, V> := Br(x, Nil, Nil);
    var p, t := Above(s, data, cmp, k, dummy), Site(s, data, cmp, k);
    FitsNodes(s, links);
    assert t == Nil by {
      SiteSpec(s, links, data, cmp, k);
    }
    assert p != dummy && p in Nodes(s) && p in links by {
      AboveSpec(s, links, data, cmp, k, dummy);
    }
    var links' := Attached(st, dummy, s, cmp, k, v, x).heap.links;
    assert forall m :: m in Nodes(s) && m != p ==> m in links && m in links' && links'[m] == links[m];
    assert Fits(c, links');
    GraftFits(s, links, links', data, cmp, k, c, dummy);
    assert Nodes(c) !! (Nodes(s) - Nodes(t));
    GraftNodes(s, data, cmp, k, c);
  }

  /** The entries after attaching: the grafted shape maps `k` to `v`
      besides the old entries. */
  lemma AttachData<K(!new), V>(s: Shape<K, V>, data: map<Node<K, V>, Entry<K, V>>, cmp: (K, K) -> int, k: K, v: V, x: Node<K, V>)
    requires Keyed(s, data) && Ordered(s, data, cmp) && Distinct(s) && TotalOrder(cmp)
    requires k !in Entries(s, data) && x !in Nodes(s)
    ensures var data', s' := data[x := Entry(k, v)], Graft(s, data, cmp, k, Br(x, Nil, Nil));
      && Keyed(s', data') && Entries(s', data') == Entries(s, data)[k := v]
  {
    var data' := data[x := Entry(k, v)];
    var c: Shape<K, V> := Br(x, Nil, Nil);
    SiteAbsent(s, data, cmp, k);
    var e, ec := Entries(s, data), Entries(c, data');
    assert ec == map[k := v] by {
      assert Entries(c, data') == Entries(Nil, data') + Entries(Nil, data') + map[k := v];
    }
    assert forall m :: m in Nodes(s) ==> m in data' && data'[m] == data[m];
    assert forall j :: j in ec ==> j == k;
    GraftEntries(s, data, data', cmp, k, c);
    assert Entries(Site(s, data, cmp, k), data).Keys == {};
    AddNew(e, k, v);
  }

  /** Map arithmetic: nothing removed, one key added. */
  lemma AddNew<K, V>(e: map<K, V>, k: K, v: V)
    ensures (e - {}) + map[k := v] == e[k := v]
  {
  }

  /** The grafted shape is still ordered. */
  lemma AttachOrder<K(!new), V>(s: Shape<K, V>, data: map<Node<K, V>, Entry<K, V>>, cmp: (K, K) -> int, k: K, v: V, x: Node<K, V>)
    requires Keyed(s, data) && Ordered(s, data, cmp) && Distinct(s) && TotalOrder(cmp)
    requires k !in Entries(s, data) && x !in Nodes(s)
    ensures var data', s' := data[x := Entry(k, v)], Graft(s, data, cmp, k, Br(x, Nil, Nil));
      && Keyed(s', data') && Ordered(s', data', cmp)
  {
    var data' := data[x := Entry(k, v)];
    var c: Shape<K, V> := Br(x, Nil, Nil);
    SiteAbsent(s, data, cmp, k);
    assert Entries(c, data') == map[k := v];
    GraftOrdered(s, data, data', cmp, k, c);
  }

  /** The walk for an absent key ends at an empty slot. */
  lemma {:induction false} SiteAbsent<K(!new), V>(s: Shape<K, V>, data: map<Node<K, V>, Entry<K, V>>, cmp: (K, K) -> int, k: K)
    requires Keyed(s, data) && TotalOrder(cmp) && k !in Entries(s, data)
    ensures Site(s, data, cmp, k) == Nil
  {
    match s
    case Nil =>
    case Br(n, l, r) =>
      SiteAbsent(l, data, cmp, k);
      SiteAbsent(r, data, cmp, k);
  }

  /** put of a key already present: the shape and links stay, the map maps
      `k` to the new value, and the tree stays a search tree. */
  lemma RevaluedCorrect<K(!new), V>(st: State<K, V>, dummy: Node<K, V>, s: Shape<K, V>, cmp: (K, K) -> int, n: Node<K, V>, v: V)
    requires Good(st, dummy, s, cmp) && TotalOrder(cmp) && n in Nodes(s)
    ensures var st' := Revalued(st, n, v);
      && Good(st', dummy, s, cmp)
      && Entries(s, st'.heap.data) == Entries(s, st.heap.data)[st.heap.data[n].key := v]
  {
    var data := st.heap.data;
    RevalueEntries(s, data, cmp, n, v);
    SameKeys(s, data, data[n := Entry(data[n].key, v)], cmp);
  }

  /** Changing the value of one node changes only that key's value. */
  lemma {:induction false} RevalueEntries<K(!new), V>(s: Shape<K, V>, data: map<Node<K, V>, Entry<K, V>>, cmp: (K, K) -> int, n: Node<K, V>, v: V)
    requires Keyed(s, data) && Ordered(s, data, cmp) && Distinct(s) && TotalOrder(cmp) && n in data
    ensures var data' := data[n := Entry(data[n].key, v)];
      && Keyed(s, data')
      && Entries(s, data') == if n in Nodes(s) then Entries(s, data)[data[n].key := v] else Entries(s, data)
  {
    var data' := data[n := Entry(data[n].key, v)];
    if n !in Nodes(s) {
      DataFrame(s, data, data', cmp);
    } else if n == s.node {
      RevalueAtTop(s, data, cmp, v);
    } else if n in Nodes(s.left) {
      RevalueEntries(s.left, data, cmp, n, v);
      RevalueBelow(s, data, cmp, n, v);
    } else {
      RevalueEntries(s.right, data, cmp, n, v);
      RevalueBelow(s, data, cmp, n, v);
    }
  }

  /** A new value at the top node of a shape. */
  lemma RevalueAtTop<K(!new), V>(s: Shape<K, V>, data: map<Node<K, V>, Entry<K, V>>, cmp: (K, K) -> int, v: V)
    requires s.Br? && Keyed(s, data) && Distinct(s)
    ensures var data' := data[s.node := Entry(data[s.node].key, v)];
      && Keyed(s, data')
      && Entries(s, data') == Entries(s, data)[data[s.node].key := v]
  {
    var n := s.node;
    var data' := data[n := Entry(data[n].key, v)];
    DataFrame(s.left, data, data', cmp);
    DataFrame(s.right, data, data', cmp);
    RevalueTop(Entries(s.left, data), Entries(s.right, data), data[n].key, data[n].value, v);
  }

  /** A new value at a node below the top, given its effect on the subtree
      holding that node. */
  lemma RevalueBelow<K(!new), V>(s: Shape<K, V>, data: map<Node<K, V>, Entry<K, V>>, cmp: (K, K) -> int, n: Node<K, V>, v: V)
    requires s.Br? && Keyed(s, data) && Ordered(s, data, cmp) && Distinct(s) && TotalOrder(cmp)
    requires n in Nodes(s) && n != s.node
    requires var data' := data[n := Entry(data[n].key, v)];
      var sub := if n in Nodes(s.left) then s.left else s.right;
      Keyed(sub, data') && Entries(sub, data') == Entries(sub, data)[data[n].key := v]
    ensures var data' := data[n := Entry(data[n].key, v)];
      && Keyed(s, data')
      && Entries(s, data') == Entries(s, data)[data[n].key := v]
  {
    var data' := data[n := Entry(data[n].key, v)];
    var m, l, r, kn := s.node, s.left, s.right, data[n].key;
    SplitKeys(s, data, cmp);
    if n in Nodes(l) {
      DataFrame(r, data, data', cmp);
      assert kn in Entries(l, data) by {
        NodeKey(l, data, n);
      }
      RevalueLeft(Entries(l, data), Entries(r, data), data[m].key, data[m].value, kn, v);
    } else {
      DataFrame(l, data, data', cmp);
      assert kn in Entries(r, data) by {
        NodeKey(r, data, n);
      }
      RevalueRight(Entries(l, data), Entries(r, data), data[m].key, data[m].value, kn, v);
    }
  }

  /** Keys, and so the search order, depend only on the keys of the shape's
      own nodes. */
  lemma {:induction false} SameKeys<K(!new), V>(s: Shape<K, V>, a: map<Node<K, V>, Entry<K, V>>, b: map<Node<K, V>, Entry<K, V>>, cmp: (K, K) -> int)
    requires Keyed(s, a)
    requires forall m :: m in Nodes(s) ==> m in b && b[m].key == a[m].key
    ensures Keyed(s, b)
    ensures Entries(s, b).Keys == Entries(s, a).Keys
    ensures Ordered(s, b, cmp) == Ordered(s, a, cmp)
  {
    match s
    case Nil =>
    case Br(m, l, r) =>
      SameKeys(l, a, b, cmp);
      SameKeys(r, a, b, cmp);
  }

  /** The key of a node of a shape is a key of the shape. */
  lemma {:induction false} NodeKey<K(!new), V>(s: Shape<K, V>, data: map<Node<K, V>, Entry<K, V>>, n: Node<K, V>)
    requires Keyed(s, data) && n in Nodes(s)
    ensures data[n].key in Entries(s, data)
  {
    match s
    case Br(m, l, r) =>
      if n in Nodes(l) {
        NodeKey(l, data, n);
      } else if n in Nodes(r) {
        NodeKey(r, data, n);
      }
  }

  /** In a search tree, the entry of a node is an entry of the map. */
  lemma {:induction false} NodeEntry<K(!new), V>(s: Shape<K, V>, data: map<Node<K, V>, Entry<K, V>>, cmp: (K, K) -> int, n: Node<K, V>)
    requires Keyed(s, data) && Ordered(s, data, cmp) && TotalOrder(cmp) && n in Nodes(s)
    ensures data[n].key in Entries(s, data) && Entries(s, data)[data[n].key] == data[n].value
  {
    match s
    case Br(m, l, r) =>
      SplitKeys(s, data, cmp);
      if n == m {
      } else if n in Nodes(l) {
        NodeEntry(l, data, cmp, n);
      } else {
        NodeEntry(r, data, cmp, n);
      }
  }

  /** Map arithmetic: a new value for the key added last. */
  lemma RevalueTop<K, V>(el: map<K, V>, er: map<K, V>, k: K, vk: V, v: V)
    ensures el + er + map[k := v] == (el + er + map[k := vk])[k := v]
  {
  }

  /** Map arithmetic: a new value for a key of the left part. */
  lemma RevalueLeft<K, V>(el: map<K, V>, er: map<K, V>, km: K, vm: V, k: K, v: V)
    requires k in el && k !in er && k != km
    ensures el[k := v] + er + map[km := vm] == (el + er + map[km := vm])[k := v]
  {
  }

  /** Map arithmetic: a new value for a key of the right part. */
  lemma RevalueRight<K, V>(el: map<K, V>, er: map<K, V>, km: K, vm: V, k: K, v: V)
    requires k in er && k != km
    ensures el + er[k := v] + map[km := vm] == (el + er + map[km := vm])[k := v]
  {
  }
}

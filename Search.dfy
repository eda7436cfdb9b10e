/** The search walk shared by lookup, insertion and removal
    (BinaryTree.findNodePriorTo and findNodeWithKey). */
module Search {
  import opened Types
  import opened Shapes

  /** The node findNodePriorTo returns for `k` when walking `s` from `prev`:
      the node visited just before the one holding `k` (`prev` itself when
      that is the top of `s`), or, when no node holds `k`, the last node the
      walk visited. */
  ghost function Above<K(!new), V>(s: Shape<K, V>, data: map<Node<K, V>, Entry<K, V>>, cmp: (K, K) -> int, k: K, prev: Node<K, V>): (p: Node<K, V>)
    requires Keyed(s, data)
    ensures p == prev || p in Nodes(s)
  {
    match s
    case Nil => prev
    case Br(n, l, r) =>
      var c := cmp(k, data[n].key);
      if c == 0 then prev
      else if c < 0 then Above(l, data, cmp, k, n)
      else Above(r, data, cmp, k, n)
  }

  /** The subtree the same walk stops at: the one whose top holds `k`, or
      Nil when no node holds `k`. */
  ghost function Site<K(!new), V>(s: Shape<K, V>, data: map<Node<K, V>, Entry<K, V>>, cmp: (K, K) -> int, k: K): (t: Shape<K, V>)
    requires Keyed(s, data)
    ensures Nodes(t) <= Nodes(s)
  {
    match s
    case Nil => Nil
    case Br(n, l, r) =>
      var c := cmp(k, data[n].key);
      if c == 0 then s
      else if c < 0 then Site(l, data, cmp, k)
      else Site(r, data, cmp, k)
  }

  /** The child of `p` on the side `k` orders to (the choice made at
      BinaryTree.java lines 92-96, 161-175 and 293-299). */
  ghost function Side<K(!new), V>(links: map<Node<K, V>, Link<K, V>>, data: map<Node<K, V>, Entry<K, V>>, cmp: (K, K) -> int, p: Node<K, V>, k: K): Node?<K, V>
    requires p in links && p in data
  {
    if cmp(k, data[p].key) < 0 then links[p].left else links[p].right
  }

  /** The keys of a node's subtrees order before and after its key. */
  lemma SidesOfKey<K(!new), V>(s: Shape<K, V>, data: map<Node<K, V>, Entry<K, V>>, cmp: (K, K) -> int, k: K)
    requires s.Br? && Keyed(s, data) && Ordered(s, data, cmp) && TotalOrder(cmp)
    ensures cmp(k, data[s.node].key) < 0 ==> k !in Entries(s.right, data)
    ensures cmp(k, data[s.node].key) > 0 ==> k !in Entries(s.left, data)
    ensures cmp(k, data[s.node].key) != 0 ==> k != data[s.node].key
  {
  }

  /** The walk finds `k` exactly when the map holds it, the node it stops at
      holds `k` with its value, and the subtree it stops at is part of `s`. */
  lemma {:induction false} SiteSpec<K(!new), V>(s: Shape<K, V>, links: map<Node<K, V>, Link<K, V>>, data: map<Node<K, V>, Entry<K, V>>, cmp: (K, K) -> int, k: K)
    requires TotalOrder(cmp) && Fits(s, links) && Keyed(s, data) && Ordered(s, data, cmp) && Distinct(s)
    ensures var t := Site(s, data, cmp, k);
      && Nodes(t) <= Nodes(s) && Fits(t, links) && Distinct(t) && Ordered(t, data, cmp)
      && (t.Nil? <==> k !in Entries(s, data))
      && (t.Br? ==> data[t.node] == Entry(k, Entries(s, data)[k]))
  {
    match s
    case Nil =>
    case Br(n, l, r) =>
      var c := cmp(k, data[n].key);
      SidesOfKey(s, data, cmp, k);
      if c < 0 {
        SiteSpec(l, links, data, cmp, k);
        if k in Entries(l, data) {
          assert Entries(s, data)[k] == Entries(l, data)[k];
        }
      } else if c > 0 {
        SiteSpec(r, links, data, cmp, k);
      }
  }

  /** The node the walk returns is `prev` exactly when `k` is at the top of
      `s`; otherwise it is a node of `s` whose key differs from `k` and whose
      child on `k`'s side is the top of the subtree the walk stops at (null
      when `k` is absent). */
  lemma {:induction false} AboveSpec<K(!new), V>(s: Shape<K, V>, links: map<Node<K, V>, Link<K, V>>, data: map<Node<K, V>, Entry<K, V>>, cmp: (K, K) -> int, k: K, prev: Node<K, V>)
    requires TotalOrder(cmp) && Fits(s, links) && Keyed(s, data) && Distinct(s)
    requires prev !in Nodes(s) && s.Br?
    ensures var p, t := Above(s, data, cmp, k, prev), Site(s, data, cmp, k);
      && (p == prev <==> t == s)
      && (p != prev ==> p in Nodes(s) && p !in Nodes(t) && p in links && cmp(k, data[p].key) != 0 && Top(t) == Side(links, data, cmp, p, k))
  {
    FitsNodes(s, links);
    var n, l, r := s.node, s.left, s.right;
    var c := cmp(k, data[n].key);
    if c != 0 {
      var sub := if c < 0 then l else r;
      SizeOfSub(s, sub);
      if sub.Br? {
        AboveSpec(sub, links, data, cmp, k, n);
        SiteWithin(sub, data, cmp, k);
      }
    }
  }

  /** The subtree the walk stops at is `s` or lies inside it. */
  lemma {:induction false} SiteWithin<K(!new), V>(s: Shape<K, V>, data: map<Node<K, V>, Entry<K, V>>, cmp: (K, K) -> int, k: K)
    requires Keyed(s, data)
    ensures Size(Site(s, data, cmp, k)) <= Size(s)
    ensures Nodes(Site(s, data, cmp, k)) <= Nodes(s)
    ensures s.Br? && cmp(k, data[s.node].key) != 0 ==> Size(Site(s, data, cmp, k)) < Size(s)
    ensures s.Br? && cmp(k, data[s.node].key) != 0 && Distinct(s) ==> s.node !in Nodes(Site(s, data, cmp, k))
  {
    match s
    case Nil =>
    case Br(n, l, r) =>
      SiteWithin(l, data, cmp, k);
      SiteWithin(r, data, cmp, k);
  }

  lemma SizeOfSub<K(!new), V>(s: Shape<K, V>, sub: Shape<K, V>)
    requires s.Br? && (sub == s.left || sub == s.right)
    ensures Size(sub) < Size(s)
  {
  }
}

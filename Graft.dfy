/** Replacing the subtree the search walk stops at. Insertion (a new leaf in
    the empty slot at the end of the walk) and the correct removals (a node
    replaced by one of its children, or by itself minus its predecessor) are
    all such replacements, and the lemmas here give their effect on links,
    entries, order and size once and for all. */
module Grafting {
  import opened Types
  import opened Shapes
  import opened Search

  /** `s` with the subtree the walk for `k` stops at replaced by `c`. */
  ghost function Graft<K(!new), V>(s: Shape<K, V>, data: map<Node<K, V>, Entry<K, V>>, cmp: (K, K) -> int, k: K, c: Shape<K, V>): Shape<K, V>
    requires Keyed(s, data)
  {
    match s
    case Nil => c
    case Br(n, l, r) =>
      var d := cmp(k, data[n].key);
      if d == 0 then c
      else if d < 0 then Br(n, Graft(l, data, cmp, k, c), r)
      else Br(n, l, Graft(r, data, cmp, k, c))
  }

  /** The top of a graft is the top of `c` when the walk stops at the top,
      and otherwise the old top. */
  lemma GraftTop<K(!new), V>(s: Shape<K, V>, data: map<Node<K, V>, Entry<K, V>>, cmp: (K, K) -> int, k: K, c: Shape<K, V>)
    requires s.Br? && Keyed(s, data)
    ensures Top(Graft(s, data, cmp, k, c)) == if Site(s, data, cmp, k) == s then Top(c) else Top(s)
  {
    SiteWithin(s, data, cmp, k);
  }

  /** The nodes of a graft: the old ones outside the replaced subtree, and
      those of `c`. No node occurs twice when `c` brings no node of the rest,
      and the size changes by the difference of the two subtrees. */
  lemma {:induction false} GraftNodes<K(!new), V>(s: Shape<K, V>, data: map<Node<K, V>, Entry<K, V>>, cmp: (K, K) -> int, k: K, c: Shape<K, V>)
    requires Keyed(s, data) && Distinct(s) && Distinct(c)
    requires Nodes(c) !! (Nodes(s) - Nodes(Site(s, data, cmp, k)))
    ensures Nodes(Graft(s, data, cmp, k, c)) == (Nodes(s) - Nodes(Site(s, data, cmp, k))) + Nodes(c)
    ensures Distinct(Graft(s, data, cmp, k, c))
    ensures Size(Graft(s, data, cmp, k, c)) == Size(s) - Size(Site(s, data, cmp, k)) + Size(c)
  {
    GraftSize(s, data, cmp, k, c);
    match s
    case Nil =>
    case Br(n, l, r) =>
      var d := cmp(k, data[n].key);
      if d < 0 {
        GraftNodes(l, data, cmp, k, c);
        NodeSets(n, Nodes(l), Nodes(r), Nodes(Site(l, data, cmp, k)), Nodes(c));
      } else if d > 0 {
        GraftNodes(r, data, cmp, k, c);
        NodeSets(n, Nodes(r), Nodes(l), Nodes(Site(r, data, cmp, k)), Nodes(c));
      }
  }

  /** The size of a graft changes by the difference of the two subtrees. */
  lemma {:induction false} GraftSize<K(!new), V>(s: Shape<K, V>, data: map<Node<K, V>, Entry<K, V>>, cmp: (K, K) -> int, k: K, c: Shape<K, V>)
    requires Keyed(s, data)
    ensures Size(Graft(s, data, cmp, k, c)) == Size(s) - Size(Site(s, data, cmp, k)) + Size(c)
  {
    match s
    case Nil =>
    case Br(n, l, r) =>
      GraftSize(l, data, cmp, k, c);
      GraftSize(r, data, cmp, k, c);
  }

  /** Set arithmetic for a graft below a node `n`. */
  lemma NodeSets<T>(n: T, sub: set<T>, other: set<T>, t: set<T>, c: set<T>)
    requires t <= sub && n !in sub && n !in other && sub !! other
    requires c !! ({n} + sub + other - t)
    ensures {n} + ((sub - t) + c) + other == ({n} + sub + other - t) + c
    ensures n !in (sub - t) + c && ((sub - t) + c) !! other
  {
  }

  /** The links after a graft: if every node off the replaced subtree keeps
      its links, except that the node above it now points at `c`, and `c`
      fits the new links, then the graft fits them. */
  lemma {:induction false} GraftFits<K(!new), V>(s: Shape<K, V>, links: map<Node<K, V>, Link<K, V>>, links': map<Node<K, V>, Link<K, V>>, data: map<Node<K, V>, Entry<K, V>>, cmp: (K, K) -> int, k: K, c: Shape<K, V>, prev: Node<K, V>)
    requires TotalOrder(cmp) && Fits(s, links) && Keyed(s, data) && Distinct(s) && prev !in Nodes(s)
    requires Fits(c, links')
    requires forall m :: m in Nodes(s) && m !in Nodes(Site(s, data, cmp, k)) && m != Above(s, data, cmp, k, prev) ==> m in links && m in links' && links'[m] == links[m]
    requires var p := Above(s, data, cmp, k, prev);
      p != prev ==>
        && p in links && p in data && p in links'
        && links'[p] == if cmp(k, data[p].key) < 0 then Link(Top(c), links[p].right) else Link(links[p].left, Top(c))
    ensures Fits(Graft(s, data, cmp, k, c), links')
  {
    match s
    case Nil =>
    case Br(n, l, r) =>
      var d := cmp(k, data[n].key);
      if d != 0 {
        var sub, other := if d < 0 then l else r, if d < 0 then r else l;
        SiteWithin(sub, data, cmp, k);
        FitsFrame(other, links, links');
        if sub.Br? {
          AboveSpec(sub, links, data, cmp, k, n);
          GraftFits(sub, links, links', data, cmp, k, c, n);
          GraftTop(sub, data, cmp, k, c);
        }
      }
  }

  /** Entries after a graft: if the nodes off the replaced subtree keep
      their entries and `c` holds only `k` and keys of the replaced subtree,
      the graft holds the old entries with those of the replaced subtree
      exchanged for those of `c`. */
  lemma {:induction false} GraftEntries<K(!new), V>(s: Shape<K, V>, data: map<Node<K, V>, Entry<K, V>>, data': map<Node<K, V>, Entry<K, V>>, cmp: (K, K) -> int, k: K, c: Shape<K, V>)
    requires TotalOrder(cmp) && Keyed(s, data) && Ordered(s, data, cmp) && Distinct(s) && Keyed(c, data')
    requires forall m :: m in Nodes(s) && m !in Nodes(Site(s, data, cmp, k)) ==> m in data' && data'[m] == data[m]
    requires forall j :: j in Entries(c, data') ==> j == k || j in Entries(Site(s, data, cmp, k), data)
    ensures Keyed(Graft(s, data, cmp, k, c), data')
    ensures Entries(Graft(s, data, cmp, k, c), data') ==
      (Entries(s, data) - Entries(Site(s, data, cmp, k), data).Keys) + Entries(c, data')
  {
    match s
    case Nil =>
    case Br(n, l, r) =>
      var d := cmp(k, data[n].key);
      if d == 0 {
        assert Graft(s, data, cmp, k, c) == c && Site(s, data, cmp, k) == s;
        ReplaceAll(Entries(s, data), Entries(c, data'));
      } else if d < 0 {
        assert Site(s, data, cmp, k) == Site(l, data, cmp, k);
        GraftEntries(l, data, data', cmp, k, c);
        EntriesStep(s, data, data', cmp, k, c);
      } else {
        assert Site(s, data, cmp, k) == Site(r, data, cmp, k);
        GraftEntries(r, data, data', cmp, k, c);
        EntriesStep(s, data, data', cmp, k, c);
      }
  }

  /** One step of GraftEntries: the graft below the top of `s`. */
  lemma EntriesStep<K(!new), V>(s: Shape<K, V>, data: map<Node<K, V>, Entry<K, V>>, data': map<Node<K, V>, Entry<K, V>>, cmp: (K, K) -> int, k: K, c: Shape<K, V>)
    requires TotalOrder(cmp) && s.Br? && Keyed(s, data) && Ordered(s, data, cmp) && Distinct(s) && Keyed(c, data')
    requires cmp(k, data[s.node].key) != 0
    requires var sub := if cmp(k, data[s.node].key) < 0 then s.left else s.right;
      && (forall m :: m in Nodes(s) && m !in Nodes(Site(sub, data, cmp, k)) ==> m in data' && data'[m] == data[m])
      && (forall j :: j in Entries(c, data') ==> j == k || j in Entries(Site(sub, data, cmp, k), data))
      && Keyed(Graft(sub, data, cmp, k, c), data')
      && Entries(Graft(sub, data, cmp, k, c), data') == (Entries(sub, data) - Entries(Site(sub, data, cmp, k), data).Keys) + Entries(c, data')
    ensures Keyed(Graft(s, data, cmp, k, c), data')
    ensures Entries(Graft(s, data, cmp, k, c), data') ==
      (Entries(s, data) - Entries(Site(s, data, cmp, k), data).Keys) + Entries(c, data')
  {
    var n, l, r := s.node, s.left, s.right;
    var d := cmp(k, data[n].key);
    SidesOfKey(s, data, cmp, k);
    SplitKeys(s, data, cmp);
    var el, er, kn, vn := Entries(l, data), Entries(r, data), data[n].key, data[n].value;
    assert data'[n] == data[n];
    if d < 0 {
      var t := Site(l, data, cmp, k);
      SiteKeys(l, data, cmp, k);
      DataFrame(r, data, data', cmp);
      RegraftLeft(el, er, kn, vn, Entries(t, data).Keys, Entries(c, data'), k);
    } else {
      var t := Site(r, data, cmp, k);
      SiteKeys(r, data, cmp, k);
      DataFrame(l, data, data', cmp);
      RegraftRight(el, er, kn, vn, Entries(t, data).Keys, Entries(c, data'), k);
    }
  }

  /** Order after a graft: when the nodes off the replaced subtree keep
      their entries and `c` is ordered and holds only `k` and keys of the
      replaced subtree, the graft is ordered. */
  lemma {:induction false} GraftOrdered<K(!new), V>(s: Shape<K, V>, data: map<Node<K, V>, Entry<K, V>>, data': map<Node<K, V>, Entry<K, V>>, cmp: (K, K) -> int, k: K, c: Shape<K, V>)
    requires TotalOrder(cmp) && Keyed(s, data) && Ordered(s, data, cmp) && Distinct(s)
    requires Keyed(c, data') && Ordered(c, data', cmp)
    requires forall m :: m in Nodes(s) && m !in Nodes(Site(s, data, cmp, k)) ==> m in data' && data'[m] == data[m]
    requires forall j :: j in Entries(c, data') ==> j == k || j in Entries(Site(s, data, cmp, k), data)
    ensures Keyed(Graft(s, data, cmp, k, c), data')
    ensures Ordered(Graft(s, data, cmp, k, c), data', cmp)
  {
    GraftEntries(s, data, data', cmp, k, c);
    match s
    case Nil =>
    case Br(n, l, r) =>
      var d := cmp(k, data[n].key);
      if d != 0 {
        var sub, other := if d < 0 then l else r, if d < 0 then r else l;
        var t := Site(sub, data, cmp, k);
        assert Site(s, data, cmp, k) == t;
        SiteKeys(sub, data, cmp, k);
        DataFrame(other, data, data', cmp);
        GraftOrdered(sub, data, data', cmp, k, c);
        GraftEntries(sub, data, data', cmp, k, c);
        var g := Graft(sub, data, cmp, k, c);
        var kn := data[n].key;
        assert data'[n] == data[n];
        forall j | j in Entries(g, data') ensures if d < 0 then cmp(j, kn) < 0 else cmp(kn, j) < 0 {
          assert j in Entries(sub, data) || j in Entries(c, data');
        }
      }
  }

  /** The keys of the replaced subtree are keys of the subtree searched. */
  lemma {:induction false} SiteKeys<K(!new), V>(s: Shape<K, V>, data: map<Node<K, V>, Entry<K, V>>, cmp: (K, K) -> int, k: K)
    requires Keyed(s, data)
    ensures Entries(Site(s, data, cmp, k), data).Keys <= Entries(s, data).Keys
  {
    match s
    case Nil =>
    case Br(n, l, r) =>
      SiteKeys(l, data, cmp, k);
      SiteKeys(r, data, cmp, k);
      KeysOfBr(s, data);
  }

  /** Map arithmetic for a graft at the top. */
  lemma ReplaceAll<K, V>(e: map<K, V>, ec: map<K, V>)
    ensures (e - e.Keys) + ec == ec
  {
  }

  /** Map arithmetic for a graft on the left of a node. */
  lemma RegraftLeft<K, V>(el: map<K, V>, er: map<K, V>, kn: K, vn: V, t: set<K>, ec: map<K, V>, k: K)
    requires t <= el.Keys && kn !in t && t !! er.Keys
    requires forall j :: j in ec ==> j == k || j in t
    requires k !in er && k != kn
    ensures (el - t) + ec + er + map[kn := vn] == (el + er + map[kn := vn]) - t + ec
  {
  }

  /** Map arithmetic for a graft on the right of a node. */
  lemma RegraftRight<K, V>(el: map<K, V>, er: map<K, V>, kn: K, vn: V, t: set<K>, ec: map<K, V>, k: K)
    requires t <= er.Keys && kn !in t && t !! el.Keys
    requires forall j :: j in ec ==> j == k || j in t
    requires k !in el && k != kn
    ensures el + ((er - t) + ec) + map[kn := vn] == (el + er + map[kn := vn]) - t + ec
  {
  }
}

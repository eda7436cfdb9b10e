/** The removal BinaryTree.removeNode evidently intends: a node with no left
    child is replaced by its right subtree, one with no right child by its
    left subtree, and one with two children takes the entry of its in-order
    predecessor (the right-most node of its left subtree), which is then
    unhooked and replaced by its own left subtree; when the root changes,
    the root field and both dummy links follow. This corrected removal is
    proved to remove exactly the key, and the removal as written is proved
    to coincide with it on the paths where the written code is sound. */
module Deletion {
  import opened Types
  import opened Shapes
  import opened Search
  import opened Grafting
  import opened Removal

  /** `t` without its right-most node, whose left subtree takes its place. */
  ghost function DeleteRightmost<K(!new), V>(t: Shape<K, V>): (d: Shape<K, V>)
    requires t.Br?
    ensures Nodes(d) <= Nodes(t) && Size(d) == Size(t) - 1
    ensures Distinct(t) ==> Distinct(d)
  {
    if t.right.Nil? then t.left else Br(t.node, t.left, DeleteRightmost(t.right))
  }

  /** The subtree that takes the place of `t` when its top is removed. */
  ghost function Replacement<K(!new), V>(t: Shape<K, V>): (c: Shape<K, V>)
    requires t.Br?
    ensures Nodes(c) <= Nodes(t) && Size(c) == Size(t) - 1
    ensures Distinct(t) ==> Distinct(c)
  {
    if t.left.Nil? then t.right
    else if t.right.Nil? then t.left
    else Br(t.node, DeleteRightmost(t.left), t.right)
  }

  /** The links after unhooking the predecessor `q` of the top `n` of `t`:
      the slot of `q`'s parent that held `q` now holds `q`'s left child. */
  ghost function Unhook<K(!new), V>(links: map<Node<K, V>, Link<K, V>>, t: Shape<K, V>): map<Node<K, V>, Link<K, V>>
    requires t.Br? && t.left.Br? && Fits(t, links) && Distinct(t)
  {
    PredecessorLinks(t, links);
    var pp, q := PredecessorParent(t), Rightmost(t.left);
    if pp == t.node then links[pp := Link(Top(q.left), links[pp].right)]
    else links[pp := Link(links[pp].left, Top(q.left))]
  }

  /** The shape after the corrected removal of `k`. */
  ghost function RemovedShape<K(!new), V>(s: Shape<K, V>, data: map<Node<K, V>, Entry<K, V>>, cmp: (K, K) -> int, k: K): Shape<K, V>
    requires Keyed(s, data)
  {
    var t := Site(s, data, cmp, k);
    if t.Nil? then s else Graft(s, data, cmp, k, Replacement(t))
  }

  /** The corrected remove(k): the new state and the removed value. */
  ghost function FixedRemoveF<K(!new), V>(st: State<K, V>, dummy: Node<K, V>, s: Shape<K, V>, cmp: (K, K) -> int, k: K): (State<K, V>, Result<Option<V>>)
    requires Good(st, dummy, s, cmp) && TotalOrder(cmp)
  {
    var links, data := st.heap.links, st.heap.data;
    var t := Site(s, data, cmp, k);
    SiteSpec(s, links, data, cmp, k);
    if t.Nil? then (st, Success(None))
    else
      var two := t.left.Br? && t.right.Br?;
      var c := Replacement(t);
      var links1 := if two then Unhook(links, t) else links;
      var data1 := if two then data[t.node := data[Rightmost(t.left).node]] else data;
      var p := Above(s, data, cmp, k, dummy);
      AboveSpec(s, links, data, cmp, k, dummy);
      FitsNodes(s, links);
      var links2 := if p == dummy then links1[dummy := Link(Top(c), Top(c))] else SetChild(links1, p, t.node, Top(c));
      (State(Heap(links2, data1), if p == dummy then Top(c) else st.root, st.size - 1), Success(Some(data[t.node].value)))
  }

  /** The corrected removal is a correct map removal: the new state is a
      well-formed search tree, its entries are the old ones without `k`,
      and the result is the value `k` had, or null when it was absent. */
  lemma FixedRemoveCorrect<K(!new), V>(st: State<K, V>, dummy: Node<K, V>, s: Shape<K, V>, cmp: (K, K) -> int, k: K)
    requires Good(st, dummy, s, cmp) && TotalOrder(cmp)
    ensures var (st', r) := FixedRemoveF(st, dummy, s, cmp, k);
      var s' := RemovedShape(s, st.heap.data, cmp, k);
      && Good(st', dummy, s', cmp)
      && Entries(s', st'.heap.data) == Entries(s, st.heap.data) - {k}
      && r == Success(if k in Entries(s, st.heap.data) then Some(Entries(s, st.heap.data)[k]) else None)
  {
    var links, data := st.heap.links, st.heap.data;
    var t := Site(s, data, cmp, k);
    SiteSpec(s, links, data, cmp, k);
    var (st', r) := FixedRemoveF(st, dummy, s, cmp, k);
    var s' := RemovedShape(s, data, cmp, k);
    if t.Nil? {
      assert st' == st && s' == s;
      assert Entries(s, data) - {k} == Entries(s, data);
    } else {
      FixedRemoveShape(st, dummy, s, cmp, k);
      FixedRemoveEntries(st, dummy, s, cmp, k);
      assert Good(st', dummy, s', cmp);
    }
  }

  /** The links part of FixedRemoveCorrect. */
  lemma FixedRemoveShape<K(!new), V>(st: State<K, V>, dummy: Node<K, V>, s: Shape<K, V>, cmp: (K, K) -> int, k: K)
    requires Good(st, dummy, s, cmp) && TotalOrder(cmp) && Site(s, st.heap.data, cmp, k).Br?
    ensures var st' := FixedRemoveF(st, dummy, s, cmp, k).0;
      var s' := RemovedShape(s, st.heap.data, cmp, k);
      && Fits(s', st'.heap.links) && Distinct(s') && dummy !in Nodes(s') && st'.size == Size(s')
      && st'.root == Top(s') && dummy in st'.heap.links && st'.heap.links[dummy] == Link(st'.root, st'.root)
  {
    var links, data := st.heap.links, st.heap.data;
    var t := Site(s, data, cmp, k);
    var c := Replacement(t);
    var links2 := FixedRemoveF(st, dummy, s, cmp, k).0.heap.links;
    FixedLinks(st, dummy, s, cmp, k);
    GraftFits(s, links, links2, data, cmp, k, c, dummy);
    SiteSpec(s, links, data, cmp, k);
    GraftNodes(s, data, cmp, k, c);
    FixedRoot(st, dummy, s, cmp, k);
  }

  /** The root after the corrected removal is the top of the new shape,
      and the dummy's links both point at it. */
  lemma FixedRoot<K(!new), V>(st: State<K, V>, dummy: Node<K, V>, s: Shape<K, V>, cmp: (K, K) -> int, k: K)
    requires Good(st, dummy, s, cmp) && TotalOrder(cmp) && Site(s, st.heap.data, cmp, k).Br?
    ensures var st' := FixedRemoveF(st, dummy, s, cmp, k).0;
      var s' := RemovedShape(s, st.heap.data, cmp, k);
      && st'.root == Top(s') && dummy in st'.heap.links && st'.heap.links[dummy] == Link(st'.root, st'.root)
  {
    var links, data := st.heap.links, st.heap.data;
    var t := Site(s, data, cmp, k);
    var c := Replacement(t);
    SiteSpec(s, links, data, cmp, k);
    AboveSpec(s, links, data, cmp, k, dummy);
    FitsNodes(s, links);
    ReplacementFits(t, links);
    GraftTop(s, data, cmp, k, c);
  }

  /** The links after the corrected removal: only the node above the
      removed one (or the dummy) and the predecessor's parent change, the
      node above now points at the replacement, and the replacement fits. */
  lemma FixedLinks<K(!new), V>(st: State<K, V>, dummy: Node<K, V>, s: Shape<K, V>, cmp: (K, K) -> int, k: K)
    requires Good(st, dummy, s, cmp) && TotalOrder(cmp) && Site(s, st.heap.data, cmp, k).Br?
    ensures var links, data := st.heap.links, st.heap.data;
      var t, p := Site(s, data, cmp, k), Above(s, data, cmp, k, dummy);
      var c := Replacement(t);
      var links2 := FixedRemoveF(st, dummy, s, cmp, k).0.heap.links;
      && Fits(c, links2)
      && (forall m :: m in Nodes(s) && m !in Nodes(t) && m != p ==> m in links && m in links2 && links2[m] == links[m])
      && (p != dummy ==>
        && p in links && p in data && p in links2
        && links2[p] == if cmp(k, data[p].key) < 0 then Link(Top(c), links[p].right) else Link(links[p].left, Top(c)))
  {
    var links, data := st.heap.links, st.heap.data;
    var t := Site(s, data, cmp, k);
    SiteSpec(s, links, data, cmp, k);
    AboveSpec(s, links, data, cmp, k, dummy);
    FitsNodes(s, links);
    var p := Above(s, data, cmp, k, dummy);
    var c := Replacement(t);
    var two := t.left.Br? && t.right.Br?;
    var links1 := if two then Unhook(links, t) else links;
    var links2 := FixedRemoveF(st, dummy, s, cmp, k).0.heap.links;
    ReplacementFits(t, links);
    assert links2 == if p == dummy then links1[dummy := Link(Top(c), Top(c))] else SetChild(links1, p, t.node, Top(c));
    assert p !in Nodes(c) && dummy !in Nodes(c);
    FitsFrame(c, links1, links2);
    if p != dummy {
      ChildrenDiffer(s, links, p);
    }
  }

  /** The entries part of FixedRemoveCorrect. */
  lemma FixedRemoveEntries<K(!new), V>(st: State<K, V>, dummy: Node<K, V>, s: Shape<K, V>, cmp: (K, K) -> int, k: K)
    requires Good(st, dummy, s, cmp) && TotalOrder(cmp) && Site(s, st.heap.data, cmp, k).Br?
    ensures var (st', r) := FixedRemoveF(st, dummy, s, cmp, k);
      var s' := RemovedShape(s, st.heap.data, cmp, k);
      && Keyed(s', st'.heap.data) && Ordered(s', st'.heap.data, cmp)
      && Entries(s', st'.heap.data) == Entries(s, st.heap.data) - {k}
      && k in Entries(s, st.heap.data) && r == Success(Some(Entries(s, st.heap.data)[k]))
  {
    var links, data := st.heap.links, st.heap.data;
    var t := Site(s, data, cmp, k);
    SiteSpec(s, links, data, cmp, k);
    var c := Replacement(t);
    var st' := FixedRemoveF(st, dummy, s, cmp, k).0;
    var data1 := st'.heap.data;
    ReplacementEntries(t, data, data1, cmp, k);
    SiteEntries(s, data, cmp, k);
    GraftEntries(s, data, data1, cmp, k, c);
    GraftOrdered(s, data, data1, cmp, k, c);
    RemoveFromSubmap(Entries(s, data), Entries(t, data), k);
  }

  /** Map arithmetic: exchanging a part `e` of a map for `e` without `k`
      removes `k`. */
  lemma RemoveFromSubmap<K, V>(m: map<K, V>, e: map<K, V>, k: K)
    requires forall j :: j in e ==> j in m && m[j] == e[j]
    requires k in e
    ensures (m - e.Keys) + (e - {k}) == m - {k}
  {
  }

  /** The entries of the subtree the walk stops at are entries of `s`. */
  lemma {:induction false} SiteEntries<K(!new), V>(s: Shape<K, V>, data: map<Node<K, V>, Entry<K, V>>, cmp: (K, K) -> int, k: K)
    requires Keyed(s, data) && Ordered(s, data, cmp) && TotalOrder(cmp)
    ensures forall j :: j in Entries(Site(s, data, cmp, k), data) ==>
      j in Entries(s, data) && Entries(s, data)[j] == Entries(Site(s, data, cmp, k), data)[j]
  {
    match s
    case Nil =>
    case Br(n, l, r) =>
      SiteEntries(l, data, cmp, k);
      SiteEntries(r, data, cmp, k);
      SiteKeys(l, data, cmp, k);
      SiteKeys(r, data, cmp, k);
      SplitKeys(s, data, cmp);
  }

  /** A node's two links never point at the same node. */
  lemma {:induction false} ChildrenDiffer<K(!new), V>(s: Shape<K, V>, links: map<Node<K, V>, Link<K, V>>, m: Node<K, V>)
    requires Fits(s, links) && Distinct(s) && m in Nodes(s)
    ensures m in links && (links[m].left != null ==> links[m].left != links[m].right)
  {
    match s
    case Nil =>
    case Br(n, l, r) =>
      if m != n {
        if m in Nodes(l) {
          ChildrenDiffer(l, links, m);
        } else {
          ChildrenDiffer(r, links, m);
        }
      }
  }

  /** The replacement fits the links after the unhook, which touch only
      nodes of `t`. */
  lemma ReplacementFits<K(!new), V>(t: Shape<K, V>, links: map<Node<K, V>, Link<K, V>>)
    requires t.Br? && Fits(t, links) && Distinct(t)
    ensures var links1 := if t.left.Br? && t.right.Br? then Unhook(links, t) else links;
      && Fits(Replacement(t), links1)
      && links1.Keys == links.Keys
      && forall m :: m in links && m !in Nodes(t) ==> links1[m] == links[m]
  {
    if t.left.Br? && t.right.Br? {
      var n, tl, tr := t.node, t.left, t.right;
      var links1 := Unhook(links, t);
      PredecessorLinks(t, links);
      var pp := PredecessorParent(t);
      FitsFrame(tr, links, links1);
      if tl.right.Nil? {
        FitsFrame(tl.left, links, links1);
      } else {
        UnhookFits(tl, links, n);
      }
    }
  }

  /** Unhooking the right-most node of `t`, below its parent on the right
      spine, leaves exactly DeleteRightmost(t). */
  lemma {:induction false} UnhookFits<K(!new), V>(t: Shape<K, V>, links: map<Node<K, V>, Link<K, V>>, prev: Node<K, V>)
    requires t.Br? && t.right.Br? && Fits(t, links) && Distinct(t) && prev !in Nodes(t)
    ensures var pp := SpineParent(t, prev);
      && pp in links
      && Fits(DeleteRightmost(t), links[pp := Link(links[pp].left, Top(Rightmost(t).left))])
  {
    var n, l, r := t.node, t.left, t.right;
    var pp := SpineParent(t, prev);
    var q := Rightmost(t);
    SpineLinks(t, links, prev);
    var links1 := links[pp := Link(links[pp].left, Top(q.left))];
    if r.right.Nil? {
      FitsFrame(l, links, links1);
      FitsFrame(r.left, links, links1);
    } else {
      UnhookFits(r, links, n);
      FitsFrame(l, links, links1);
    }
  }

  /** The entries of the replacement, under the data after the predecessor
      copy, are those of `t` without its top key; it is ordered. */
  lemma ReplacementEntries<K(!new), V>(t: Shape<K, V>, data: map<Node<K, V>, Entry<K, V>>, data1: map<Node<K, V>, Entry<K, V>>, cmp: (K, K) -> int, k: K)
    requires t.Br? && Keyed(t, data) && Ordered(t, data, cmp) && Distinct(t) && TotalOrder(cmp)
    requires data[t.node].key == k
    requires data1 == if t.left.Br? && t.right.Br? then data[t.node := data[Rightmost(t.left).node]] else data
    ensures Keyed(Replacement(t), data1) && Ordered(Replacement(t), data1, cmp)
    ensures Entries(Replacement(t), data1) == Entries(t, data) - {k}
  {
    var n, l, r := t.node, t.left, t.right;
    SplitKeys(t, data, cmp);
    if l.Nil? {
      EntriesWithoutTop(Entries(l, data), Entries(r, data), k, data[n].value);
    } else if r.Nil? {
      EntriesWithoutTop(Entries(l, data), Entries(r, data), k, data[n].value);
    } else {
      var d := DeleteRightmost(l);
      var q := Rightmost(l).node;
      DeleteRightmostEntries(l, data, cmp);
      DataFrame(d, data, data1, cmp);
      DataFrame(r, data, data1, cmp);
      var qk := data[q].key;
      forall j | j in Entries(r, data1) ensures cmp(qk, j) < 0 {
        assert cmp(qk, k) < 0 && cmp(k, j) < 0;
      }
      forall j | j in Entries(d, data1) ensures cmp(j, qk) < 0 {
        assert j in Entries(l, data) && j != qk;
      }
      PredecessorSwap(Entries(l, data), Entries(r, data), k, data[n].value, qk, data[q].value);
    }
  }

  /** Map arithmetic: a node's entries without its own key. */
  lemma EntriesWithoutTop<K, V>(el: map<K, V>, er: map<K, V>, k: K, v: V)
    requires k !in el && k !in er && (el == map[] || er == map[])
    ensures el + er + map[k := v] - {k} == el + er
    ensures el == map[] ==> el + er + map[k := v] - {k} == er
    ensures er == map[] ==> el + er + map[k := v] - {k} == el
  {
  }

  /** Map arithmetic: replacing a node's entry by its predecessor's, which
      leaves the left subtree. */
  lemma PredecessorSwap<K, V>(el: map<K, V>, er: map<K, V>, k: K, v: V, qk: K, qv: V)
    requires k !in el && k !in er && qk in el && qk !in er && el[qk] == qv
    ensures (el - {qk}) + er + map[qk := qv] == el + er + map[k := v] - {k}
  {
  }

  /** The right-most node holds the greatest key. */
  lemma {:induction false} RightmostGreatest<K(!new), V>(t: Shape<K, V>, data: map<Node<K, V>, Entry<K, V>>, cmp: (K, K) -> int)
    requires t.Br? && Keyed(t, data) && Ordered(t, data, cmp) && TotalOrder(cmp)
    ensures var qk := data[Rightmost(t).node].key;
      && qk in Entries(t, data) && Entries(t, data)[qk] == data[Rightmost(t).node].value
      && (forall j :: j in Entries(t, data) && j != qk ==> cmp(j, qk) < 0)
  {
    var n, l, r := t.node, t.left, t.right;
    SplitKeys(t, data, cmp);
    if r.Br? {
      RightmostGreatest(r, data, cmp);
      var qk := data[Rightmost(t).node].key;
      assert Rightmost(t) == Rightmost(r);
      var kn := data[n].key;
      assert cmp(kn, qk) < 0;
      forall j | j in Entries(t, data) && j != qk ensures cmp(j, qk) < 0 {
        if j in Entries(l, data) {
          assert cmp(j, kn) < 0;
        }
      }
    }
  }

  /** The right-most node holds the greatest key, and deleting it removes
      exactly that key and keeps the order. */
  lemma {:induction false} DeleteRightmostEntries<K(!new), V>(t: Shape<K, V>, data: map<Node<K, V>, Entry<K, V>>, cmp: (K, K) -> int)
    requires t.Br? && Keyed(t, data) && Ordered(t, data, cmp) && TotalOrder(cmp)
    ensures var qk := data[Rightmost(t).node].key;
      && qk in Entries(t, data) && Entries(t, data)[qk] == data[Rightmost(t).node].value
      && (forall j :: j in Entries(t, data) && j != qk ==> cmp(j, qk) < 0)
      && Entries(DeleteRightmost(t), data) == Entries(t, data) - {qk}
      && Ordered(DeleteRightmost(t), data, cmp)
  {
    var n, l, r := t.node, t.left, t.right;
    RightmostGreatest(t, data, cmp);
    SplitKeys(t, data, cmp);
    if r.Nil? {
      EntriesWithoutTop(Entries(l, data), Entries(r, data), data[n].key, data[n].value);
    } else {
      DeleteRightmostEntries(r, data, cmp);
      assert Rightmost(t) == Rightmost(r);
      RightmostSwap(Entries(l, data), Entries(r, data), data[n].key, data[n].value, data[Rightmost(r).node].key);
    }
  }

  /** Map arithmetic: deleting a key of the right subtree. */
  lemma RightmostSwap<K, V>(el: map<K, V>, er: map<K, V>, kn: K, vn: V, qk: K)
    requires qk in er && qk !in el && qk != kn
    ensures el + (er - {qk}) + map[kn := vn] == (el + er + map[kn := vn]) - {qk}
  {
  }

  /** The removal paths on which BinaryTree.removeNode, as written, is
      sound: `k` absent; a leaf (root or not); a non-root node with no left
      child; a non-root left child with no right child; and a non-root
      right child with two children whose left child has a right child and
      whose predecessor is a leaf. */
  ghost predicate SoundRemoval<K(!new), V>(st: State<K, V>, dummy: Node<K, V>, s: Shape<K, V>, cmp: (K, K) -> int, k: K)
    requires Good(st, dummy, s, cmp) && TotalOrder(cmp)
  {
    var data := st.heap.data;
    var t, p := Site(s, data, cmp, k), Above(s, data, cmp, k, dummy);
    AboveSpec'(st, dummy, s, cmp, k);
    || t.Nil?
    || (t.left.Nil? && t.right.Nil?)
    || (p != dummy && t.left.Nil?)
    || (p != dummy && t.right.Nil? && cmp(k, data[p].key) < 0)
    || (p != dummy && cmp(k, data[p].key) > 0 && t.left.Br? && t.right.Br? && t.left.right.Br? && Rightmost(t.left).left.Nil?)
  }

  /** A tree of one entry is always on a sound path: the key is either its
      leaf root or absent. */
  lemma SingleSound<K(!new), V>(st: State<K, V>, dummy: Node<K, V>, s: Shape<K, V>, cmp: (K, K) -> int, k: K)
    requires Good(st, dummy, s, cmp) && TotalOrder(cmp) && st.size == 1
    ensures SoundRemoval(st, dummy, s, cmp, k)
  {
    assert s.Br? && Size(s.left) == 0 && Size(s.right) == 0;
    assert s.left.Nil? && s.right.Nil?;
  }

  /** AboveSpec for a well-formed state, walking from the dummy. */
  lemma AboveSpec'<K(!new), V>(st: State<K, V>, dummy: Node<K, V>, s: Shape<K, V>, cmp: (K, K) -> int, k: K)
    requires Good(st, dummy, s, cmp) && TotalOrder(cmp)
    ensures var p := Above(s, st.heap.data, cmp, k, dummy);
      p != dummy ==> p in st.heap.data && p in Nodes(s)
  {
    if s.Br? {
      AboveSpec(s, st.heap.links, st.heap.data, cmp, k, dummy);
    }
  }

  /** On the sound paths, remove as written produces exactly the state and
      result of the corrected removal, and is therefore a correct removal
      there (FixedRemoveCorrect). */
  lemma AsWrittenSound<K(!new), V>(st: State<K, V>, dummy: Node<K, V>, s: Shape<K, V>, cmp: (K, K) -> int, k: K)
    requires Good(st, dummy, s, cmp) && TotalOrder(cmp) && SoundRemoval(st, dummy, s, cmp, k)
    ensures RemoveF(st, dummy, s, cmp, k) == FixedRemoveF(st, dummy, s, cmp, k)
  {
    var links, data := st.heap.links, st.heap.data;
    var t, p := Site(s, data, cmp, k), Above(s, data, cmp, k, dummy);
    SiteSpec(s, links, data, cmp, k);
    if t.Br? {
      AboveSpec(s, links, data, cmp, k, dummy);
      SiteWithin(s, data, cmp, k);
      FitsNodes(s, links);
      var n := t.node;
      if p == dummy {
        assert t.left.Nil? && t.right.Nil?;
        var none: Link<K, V> := Link(null, null);
        var cleared: map<Node<K, V>, Link<K, V>> := links[dummy := none];
        var unlinked := SetChild(links, dummy, n, null);
        assert unlinked[dummy := none] == cleared;
        var st' := State(Heap(cleared, data), null, 0);
        assert RemoveNodeF(st, dummy, dummy, t) == (st', Success(Some(data[n].value)));
        assert FixedRemoveF(st, dummy, s, cmp, k) == (st', Success(Some(data[n].value)));
      } else if t.left.Br? && t.right.Br? {
        assert PredecessorPath(st, dummy, s, cmp, k);
        SoundPredecessor(st, dummy, s, cmp, k);
      } else {
        assert ChildPath(st, dummy, s, cmp, k);
        SoundChildRemoval(st, dummy, s, cmp, k);
      }
    }
  }

  /** The sound paths for a non-root node with at most one child: a node
      with no left child, or a left child with no right child. Both
      removals hook the only child (or null) into the parent's slot. */
  lemma SoundChildRemoval<K(!new), V>(st: State<K, V>, dummy: Node<K, V>, s: Shape<K, V>, cmp: (K, K) -> int, k: K)
    requires Good(st, dummy, s, cmp) && TotalOrder(cmp)
    requires ChildPath(st, dummy, s, cmp, k)
    ensures RemoveF(st, dummy, s, cmp, k) == FixedRemoveF(st, dummy, s, cmp, k)
  {
    ChildAsWritten(st, dummy, s, cmp, k);
    ChildFixed(st, dummy, s, cmp, k);
  }

  /** A non-root node with no left child, or a non-root left child with no
      right child. */
  ghost predicate ChildPath<K(!new), V>(st: State<K, V>, dummy: Node<K, V>, s: Shape<K, V>, cmp: (K, K) -> int, k: K)
    requires Good(st, dummy, s, cmp) && TotalOrder(cmp)
  {
    var data := st.heap.data;
    var t, p := Site(s, data, cmp, k), Above(s, data, cmp, k, dummy);
    && t.Br? && p != dummy && p in data && p in st.heap.links
    && (t.left.Nil? || (t.right.Nil? && cmp(k, data[p].key) < 0))
  }

  /** The state both removals reach on a child path: the parent's slot
      holds the only child (or null), size one less; and the removed value. */
  ghost function ChildRemoved<K(!new), V>(st: State<K, V>, dummy: Node<K, V>, s: Shape<K, V>, cmp: (K, K) -> int, k: K): (State<K, V>, Result<Option<V>>)
    requires Good(st, dummy, s, cmp) && TotalOrder(cmp) && ChildPath(st, dummy, s, cmp, k)
  {
    var links, data := st.heap.links, st.heap.data;
    var t, p := Site(s, data, cmp, k), Above(s, data, cmp, k, dummy);
    (State(Heap(SetChild(links, p, t.node, Top(Replacement(t))), data), st.root, st.size - 1), Success(Some(data[t.node].value)))
  }

  lemma ChildAsWritten<K(!new), V>(st: State<K, V>, dummy: Node<K, V>, s: Shape<K, V>, cmp: (K, K) -> int, k: K)
    requires Good(st, dummy, s, cmp) && TotalOrder(cmp) && ChildPath(st, dummy, s, cmp, k)
    ensures RemoveF(st, dummy, s, cmp, k) == ChildRemoved(st, dummy, s, cmp, k)
  {
    var links, data := st.heap.links, st.heap.data;
    var t, p := Site(s, data, cmp, k), Above(s, data, cmp, k, dummy);
    assert Fits(t, links) && Keyed(t, data) && Distinct(t) && p in links && t.Br? && t.node != st.root
      && (t.node == links[p].left || t.node == links[p].right)
      && (t.left.Nil? || (t.right.Nil? && t.node == links[p].left)) by {
      SiteSpec(s, links, data, cmp, k);
      AboveSpec(s, links, data, cmp, k, dummy);
      SiteWithin(s, data, cmp, k);
    }
    assert RemoveF(st, dummy, s, cmp, k) == RemoveNodeF(st, dummy, p, t);
    OneChildRemoval(st, dummy, p, t);
  }

  /** removeNode on a node other than the root that has at most one child,
      reached from the parent's left slot when that child is a left one. */
  lemma OneChildRemoval<K(!new), V>(st: State<K, V>, dummy: Node<K, V>, p: Node<K, V>, sn: Shape<K, V>)
    requires Fits(sn, st.heap.links) && Keyed(sn, st.heap.data) && Distinct(sn)
    requires p in st.heap.links && dummy in st.heap.links
    requires sn.Br? && sn.node != st.root
    requires sn.node == st.heap.links[p].left || sn.node == st.heap.links[p].right
    requires sn.left.Nil? || (sn.right.Nil? && sn.node == st.heap.links[p].left)
    ensures RemoveNodeF(st, dummy, p, sn) ==
      (st.(heap := st.heap.(links := SetChild(st.heap.links, p, sn.node, Top(Replacement(sn)))), size := st.size - 1), Success(Some(st.heap.data[sn.node].value)))
  {
    if sn.left.Nil? {
      LeftlessRemoval(st, dummy, p, sn);
    } else {
      LeftChildRemoval(st, dummy, p, sn);
    }
  }

  /** removeNode on a node other than the root with no left child: the
      parent's slot takes its right child (or null) and size drops. */
  lemma LeftlessRemoval<K(!new), V>(st: State<K, V>, dummy: Node<K, V>, p: Node<K, V>, sn: Shape<K, V>)
    requires Fits(sn, st.heap.links) && Keyed(sn, st.heap.data) && Distinct(sn)
    requires p in st.heap.links && dummy in st.heap.links
    requires sn.Br? && sn.left.Nil? && sn.node != st.root
    requires sn.node == st.heap.links[p].left || sn.node == st.heap.links[p].right
    ensures RemoveNodeF(st, dummy, p, sn) ==
      (st.(heap := st.heap.(links := SetChild(st.heap.links, p, sn.node, Top(sn.right))), size := st.size - 1), Success(Some(st.heap.data[sn.node].value)))
  {
  }

  /** removeNode on a left child with a left child and no right child: the
      parent's left slot takes the left child and size drops. */
  lemma LeftChildRemoval<K(!new), V>(st: State<K, V>, dummy: Node<K, V>, p: Node<K, V>, sn: Shape<K, V>)
    requires Fits(sn, st.heap.links) && Keyed(sn, st.heap.data) && Distinct(sn)
    requires p in st.heap.links && dummy in st.heap.links
    requires sn.Br? && sn.left.Br? && sn.node == st.heap.links[p].left
    ensures RemoveNodeF(st, dummy, p, sn) ==
      (st.(heap := st.heap.(links := SetChild(st.heap.links, p, sn.node, sn.left.node)), size := st.size - 1), Success(Some(st.heap.data[sn.node].value)))
  {
    var links := st.heap.links;
    assert links[p := Link(sn.left.node, links[p].right)] == SetChild(links, p, sn.node, sn.left.node);
  }

  lemma ChildFixed<K(!new), V>(st: State<K, V>, dummy: Node<K, V>, s: Shape<K, V>, cmp: (K, K) -> int, k: K)
    requires Good(st, dummy, s, cmp) && TotalOrder(cmp) && ChildPath(st, dummy, s, cmp, k)
    ensures FixedRemoveF(st, dummy, s, cmp, k) == ChildRemoved(st, dummy, s, cmp, k)
  {
    SiteSpec(s, st.heap.links, st.heap.data, cmp, k);
  }

  /** The sound predecessor path: a non-root right child with two children
      whose predecessor is a leaf strictly below its left child. */
  ghost predicate PredecessorPath<K(!new), V>(st: State<K, V>, dummy: Node<K, V>, s: Shape<K, V>, cmp: (K, K) -> int, k: K)
    requires Good(st, dummy, s, cmp) && TotalOrder(cmp)
  {
    var t, p := Site(s, st.heap.data, cmp, k), Above(s, st.heap.data, cmp, k, dummy);
    && t.Br? && t.left.Br? && t.right.Br? && t.left.right.Br? && Rightmost(t.left).left.Nil?
    && p != dummy && p in st.heap.data && cmp(k, st.heap.data[p].key) > 0
  }

  /** The state both removals reach on the sound predecessor path: the
      predecessor's entry copied into the removed node, the predecessor
      unhooked from its parent, size one less; and the removed value. */
  ghost function PredecessorRemoved<K(!new), V>(st: State<K, V>, dummy: Node<K, V>, s: Shape<K, V>, cmp: (K, K) -> int, k: K): (State<K, V>, Result<Option<V>>)
    requires Good(st, dummy, s, cmp) && TotalOrder(cmp) && PredecessorPath(st, dummy, s, cmp, k)
  {
    var links, data := st.heap.links, st.heap.data;
    var t := Site(s, data, cmp, k);
    SiteSpec(s, links, data, cmp, k);
    PredecessorLinks(t, links);
    var pp, q := PredecessorParent(t), Rightmost(t.left);
    (State(Heap(links[pp := Link(links[pp].left, null)], data[t.node := data[q.node]]), st.root, st.size - 1), Success(Some(data[t.node].value)))
  }

  lemma SoundPredecessor<K(!new), V>(st: State<K, V>, dummy: Node<K, V>, s: Shape<K, V>, cmp: (K, K) -> int, k: K)
    requires Good(st, dummy, s, cmp) && TotalOrder(cmp) && PredecessorPath(st, dummy, s, cmp, k)
    ensures RemoveF(st, dummy, s, cmp, k) == FixedRemoveF(st, dummy, s, cmp, k)
  {
    PredecessorAsWritten(st, dummy, s, cmp, k);
    PredecessorFixed(st, dummy, s, cmp, k);
  }

  lemma PredecessorAsWritten<K(!new), V>(st: State<K, V>, dummy: Node<K, V>, s: Shape<K, V>, cmp: (K, K) -> int, k: K)
    requires Good(st, dummy, s, cmp) && TotalOrder(cmp) && PredecessorPath(st, dummy, s, cmp, k)
    ensures RemoveF(st, dummy, s, cmp, k) == PredecessorRemoved(st, dummy, s, cmp, k)
  {
    var links, data := st.heap.links, st.heap.data;
    var t, p := Site(s, data, cmp, k), Above(s, data, cmp, k, dummy);
    SiteSpec(s, links, data, cmp, k);
    var n := t.node;
    assert p in links && n == links[p].right && n != links[p].left by {
      AboveSpec(s, links, data, cmp, k, dummy);
      FitsNodes(s, links);
      ChildrenDiffer(s, links, p);
    }
    PredecessorLinks(t, links);
    var pp, q := PredecessorParent(t), Rightmost(t.left);
    assert PredecessorShape(t) == q;
    var st1 := st.(heap := st.heap.(data := data[n := data[q.node]]));
    assert RemoveNodeF(st1, dummy, pp, q).0 == PredecessorRemoved(st, dummy, s, cmp, k).0 && RemoveNodeF(st1, dummy, pp, q).1.Success? by {
      assert q.node != st.root && q.node != links[pp].left by {
        SiteWithin(s, data, cmp, k);
        SpineLinks(t.left, links, n);
        FitsNodes(t, links);
        ChildrenDiffer(t, links, pp);
      }
      LeafRemoval(st1, dummy, pp, q);
    }
    PredecessorStep(st, dummy, p, t);
  }

  /** removeNode on a leaf that is the right child of a node other than the
      root's dummy: the parent's right slot is nulled and size drops. */
  lemma LeafRemoval<K(!new), V>(st: State<K, V>, dummy: Node<K, V>, p: Node<K, V>, sn: Shape<K, V>)
    requires Fits(sn, st.heap.links) && Keyed(sn, st.heap.data) && Distinct(sn)
    requires p in st.heap.links && dummy in st.heap.links
    requires sn.Br? && sn.left.Nil? && sn.right.Nil? && sn.node != st.root
    requires sn.node == st.heap.links[p].right && sn.node != st.heap.links[p].left
    ensures var links := st.heap.links;
      RemoveNodeF(st, dummy, p, sn) ==
      (st.(heap := st.heap.(links := links[p := Link(links[p].left, null)]), size := st.size - 1), Success(Some(st.heap.data[sn.node].value)))
  {
  }

  /** One unfolding of removeNode on the predecessor path. */
  lemma PredecessorStep<K(!new), V>(st: State<K, V>, dummy: Node<K, V>, p: Node<K, V>, sn: Shape<K, V>)
    requires Fits(sn, st.heap.links) && Keyed(sn, st.heap.data) && Distinct(sn)
    requires p in st.heap.links && dummy in st.heap.links
    requires sn.Br? && sn.left.Br? && sn.node == st.heap.links[p].right && sn.node != st.heap.links[p].left
    requires PredecessorShape(sn).Br? && PredecessorParent(sn) in st.heap.links
    requires st.heap.links[PredecessorParent(sn)].right == Top(PredecessorShape(sn)) && Fits(PredecessorShape(sn), st.heap.links)
    ensures var sq := PredecessorShape(sn);
      var st1 := st.(heap := st.heap.(data := st.heap.data[sn.node := st.heap.data[sq.node]]));
      var (st2, r2) := RemoveNodeF(st1, dummy, PredecessorParent(sn), sq);
      RemoveNodeF(st, dummy, p, sn) == if r2.Failure? then (st2, r2) else (st2, Success(Some(st.heap.data[sn.node].value)))
  {
    PredecessorLinks(sn, st.heap.links);
  }

  lemma PredecessorFixed<K(!new), V>(st: State<K, V>, dummy: Node<K, V>, s: Shape<K, V>, cmp: (K, K) -> int, k: K)
    requires Good(st, dummy, s, cmp) && TotalOrder(cmp) && PredecessorPath(st, dummy, s, cmp, k)
    ensures FixedRemoveF(st, dummy, s, cmp, k) == PredecessorRemoved(st, dummy, s, cmp, k)
  {
    var links, data := st.heap.links, st.heap.data;
    var t, p := Site(s, data, cmp, k), Above(s, data, cmp, k, dummy);
    assert Fits(t, links) && Distinct(t) && p in links && p !in Nodes(t) && links[p].right == t.node by {
      SiteSpec(s, links, data, cmp, k);
      AboveSpec(s, links, data, cmp, k, dummy);
    }
    var n := t.node;
    UnhookLeaf(t, links);
    var links1 := links[PredecessorParent(t) := Link(links[PredecessorParent(t)].left, null)];
    assert SetChild(links1, p, n, n) == links1 by {
      assert links1[p] == links[p];
    }
  }

  /** Unhooking a predecessor that is a leaf strictly below the left child
      nulls its parent's right slot. */
  lemma UnhookLeaf<K(!new), V>(t: Shape<K, V>, links: map<Node<K, V>, Link<K, V>>)
    requires t.Br? && t.left.Br? && t.left.right.Br? && Rightmost(t.left).left.Nil? && Fits(t, links) && Distinct(t)
    ensures PredecessorParent(t) in links && PredecessorParent(t) in Nodes(t) && PredecessorParent(t) != t.node
    ensures Unhook(links, t) == links[PredecessorParent(t) := Link(links[PredecessorParent(t)].left, null)]
  {
    PredecessorLinks(t, links);
    SpineLinks(t.left, links, t.node);
  }
}

/** BinaryTree.removeNode and BinaryTree.remove exactly as written, on the
    ghost state: the predecessor search, the three cases, the key copy, the
    recursion with its size fix-up, and the NullPointerException that the
    predecessor case can end with. */
module Removal {
  import opened Types
  import opened Shapes
  import opened Search

  /** The node findPredecessorParent returns when it walks the right spine
      of `t` starting with `prev` as the previous node: the parent of the
      right-most node of `t`, or `prev` when the top of `t` is right-most. */
  ghost function SpineParent<K(!new), V>(t: Shape<K, V>, prev: Node<K, V>): (pp: Node<K, V>)
    requires t.Br?
    ensures pp == prev || pp in Nodes(t)
  {
    if t.right.Nil? then prev else SpineParent(t.right, t.node)
  }

  /** The right-most subtree of `t`: the one whose top holds the greatest
      key of `t`. */
  ghost function Rightmost<K(!new), V>(t: Shape<K, V>): (m: Shape<K, V>)
    requires t.Br?
    ensures m.Br? && m.right.Nil? && Nodes(m) <= Nodes(t) && Size(m) <= Size(t)
    ensures Distinct(t) ==> Distinct(m)
  {
    if t.right.Nil? then t else Rightmost(t.right)
  }

  /** The node findPredecessorParent returns for the top of `sn`. */
  ghost function PredecessorParent<K(!new), V>(sn: Shape<K, V>): Node<K, V>
    requires sn.Br? && sn.left.Br?
  {
    SpineParent(sn.left, sn.node)
  }

  /** The subtree whose top removeNode takes as the predecessor
      (`predecessorParent.right`): the right-most subtree of the left child,
      except when the left child has no right child, where the walk returns
      the node itself and its right child is taken instead. */
  ghost function PredecessorShape<K(!new), V>(sn: Shape<K, V>): (q: Shape<K, V>)
    requires sn.Br? && sn.left.Br?
    ensures Nodes(q) <= Nodes(sn.left) + Nodes(sn.right) && Size(q) < Size(sn)
    ensures Distinct(sn) ==> Distinct(q)
  {
    if sn.left.right.Nil? then sn.right else Rightmost(sn.left)
  }

  /** The right spine of a fitting shape: the node SpineParent returns is
      `prev` exactly when the top is right-most, and otherwise a node of `t`
      whose right child is the top of the right-most subtree. */
  lemma {:induction false} SpineLinks<K(!new), V>(t: Shape<K, V>, links: map<Node<K, V>, Link<K, V>>, prev: Node<K, V>)
    requires t.Br? && Fits(t, links) && Distinct(t) && prev !in Nodes(t)
    ensures Fits(Rightmost(t), links)
    ensures var pp := SpineParent(t, prev);
      && (pp == prev <==> t.right.Nil?)
      && (pp != prev ==> pp in links && links[pp].right == Top(Rightmost(t)))
  {
    if t.right.Br? {
      SpineLinks(t.right, links, t.node);
    }
  }

  /** The predecessor removeNode picks is the right child of the node
      findPredecessorParent returns, and its subtree fits the links. */
  lemma PredecessorLinks<K(!new), V>(sn: Shape<K, V>, links: map<Node<K, V>, Link<K, V>>)
    requires sn.Br? && sn.left.Br? && Fits(sn, links) && Distinct(sn)
    ensures PredecessorParent(sn) in links
    ensures links[PredecessorParent(sn)].right == Top(PredecessorShape(sn))
    ensures Fits(PredecessorShape(sn), links)
  {
    SpineLinks(sn.left, links, sn.node);
  }

  /** `p`'s slot holding `n` (the left one when `n` is its left child)
      set to `c`: the assignment at BinaryTree.java lines 246-249 and
      256-259. */
  function SetChild<K(!new), V>(links: map<Node<K, V>, Link<K, V>>, p: Node<K, V>, n: Node<K, V>, c: Node?<K, V>): (links': map<Node<K, V>, Link<K, V>>)
    requires p in links
    ensures links'.Keys == links.Keys
    ensures n == links[p].left ==> links'[p] == Link(c, links[p].right)
    ensures n != links[p].left ==> links'[p] == Link(links[p].left, c)
    ensures forall m :: m in links && m != p ==> links'[m] == links[m]
  {
    if n == links[p].left then links[p := Link(c, links[p].right)]
    else links[p := Link(links[p].left, c)]
  }

  /** BinaryTree.clear on a state: no root, the dummy's links null, size 0. */
  function Cleared<K(!new), V>(st: State<K, V>, dummy: Node<K, V>): (st': State<K, V>)
    requires dummy in st.heap.links
    ensures st'.root == null && st'.size == 0 && st'.heap.data == st.heap.data
    ensures st'.heap.links == st.heap.links[dummy := Link(null, null)]
  {
    State(Heap(st.heap.links[dummy := Link(null, null)], st.heap.data), null, 0)
  }

  /** Whatever state clear starts from, even one the defects of removeNode
      left behind, it ends in a well-formed empty tree. */
  lemma ClearedGood<K(!new), V>(st: State<K, V>, dummy: Node<K, V>, cmp: (K, K) -> int)
    requires dummy in st.heap.links
    ensures Good(Cleared(st, dummy), dummy, Nil, cmp)
  {
  }

  /** removeNode(n, p) where `sn` is the subtree with top `n`: the new state
      and the result (the removed value, null when `n` is null, or the
      NullPointerException the predecessor case throws when it takes a null
      predecessor). An exception leaves the state as it is at that point. */
  ghost function RemoveNodeF<K(!new), V>(st: State<K, V>, dummy: Node<K, V>, p: Node<K, V>, sn: Shape<K, V>): (State<K, V>, Result<Option<V>>)
    requires Fits(sn, st.heap.links) && Keyed(sn, st.heap.data) && Distinct(sn)
    requires p in st.heap.links && dummy in st.heap.links
    requires Top(sn) == st.heap.links[p].left || Top(sn) == st.heap.links[p].right
    decreases Size(sn)
  {
    match sn
    case Nil => (st, Success(None))
    case Br(n, l, r) =>
      var links, data := st.heap.links, st.heap.data;
      var result := Success(Some(data[n].value));
      if l.Nil? then
        if r.Nil? then
          var st1 := st.(heap := st.heap.(links := SetChild(links, p, n, null)));
          if n == st.root then (Cleared(st1, dummy), result)
          else (st1.(size := st1.size - 1), result)
        else
          (st.(heap := st.heap.(links := SetChild(links, p, n, r.node)), size := st.size - 1), result)
      else if n == links[p].left then
        (st.(heap := st.heap.(links := links[p := Link(l.node, links[p].right)]), size := st.size - 1), result)
      else
        var pp, sq := PredecessorParent(sn), PredecessorShape(sn);
        PredecessorLinks(sn, links);
        if sq.Nil? then (st, Failure(NullPointer))
        else
          var st1 := st.(heap := st.heap.(data := data[n := data[sq.node]]));
          var (st2, r2) := RemoveNodeF(st1, dummy, pp, sq);
          if r2.Failure? then (st2, r2)
          else (st2.(size := st2.size + 1 - 1), result)
  }

  /** BinaryTree.remove(k) on a well-formed tree with shape `s`: nothing
      when the tree is empty, otherwise removeNode on the node the search
      walk stops at (null when `k` is absent) and the node above it. */
  ghost function RemoveF<K(!new), V>(st: State<K, V>, dummy: Node<K, V>, s: Shape<K, V>, cmp: (K, K) -> int, k: K): (State<K, V>, Result<Option<V>>)
    requires Good(st, dummy, s, cmp) && TotalOrder(cmp)
  {
    if st.root == null then (st, Success(None))
    else
      var p, t := Above(s, st.heap.data, cmp, k, dummy), Site(s, st.heap.data, cmp, k);
      AboveSpec(s, st.heap.links, st.heap.data, cmp, k, dummy);
      SiteSpec(s, st.heap.links, st.heap.data, cmp, k);
      RemoveNodeF(st, dummy, p, t)
  }
}

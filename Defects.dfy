/** Concrete inputs on which BinaryTree.removeNode, as written, goes wrong,
    each beside what the corrected removal (Deletion.FixedRemoveF) does on
    the same input. The trees have int keys ordered by subtraction and
    are built from any distinct node objects; `dummy` is the tree's dummy
    node, whose two links both hold the root. */
module Defects {
  import opened Types
  import opened Shapes
  import opened Search
  import opened Grafting
  import opened Removal
  import opened Deletion

  /** Integer keys in their natural order. */
  const IntOrder: (int, int) -> int := (a: int, b: int) => a - b

  lemma IntOrderTotal()
    ensures TotalOrder(IntOrder)
  {
  }

  function Leaf(n: Node<int, int>): Shape<int, int> {
    Br(n, Nil, Nil)
  }

  lemma LeafFacts(n: Node<int, int>, links: map<Node<int, int>, Link<int, int>>, data: map<Node<int, int>, Entry<int, int>>)
    requires n in links && links[n] == Link(null, null) && n in data
    ensures Fits(Leaf(n), links) && Nodes(Leaf(n)) == {n} && Distinct(Leaf(n)) && Size(Leaf(n)) == 1
    ensures Keyed(Leaf(n), data) && Ordered(Leaf(n), data, IntOrder)
    ensures Entries(Leaf(n), data) == map[data[n].key := data[n].value]
  {
    assert Entries(Nil, data) == map[];
  }

  /** Tree A: root `a` (key 1) with only a right child `b` (key 2). */
  function TreeA(dummy: Node<int, int>, a: Node<int, int>, b: Node<int, int>): State<int, int> {
    var links := map[dummy := Link(a, a), a := Link(null, b), b := Link(null, null)];
    State(Heap(links, map[a := Entry(1, 10), b := Entry(2, 20)]), a, 2)
  }

  lemma GoodA(dummy: Node<int, int>, a: Node<int, int>, b: Node<int, int>)
    requires dummy != a && dummy != b && a != b
    ensures Good(TreeA(dummy, a, b), dummy, Br(a, Nil, Leaf(b)), IntOrder)
    ensures Entries(Br(a, Nil, Leaf(b)), TreeA(dummy, a, b).heap.data) == map[2 := 20, 1 := 10]
    ensures Entries(Leaf(b), TreeA(dummy, a, b).heap.data) == map[2 := 20]
  {
    var st := TreeA(dummy, a, b);
    LeafFacts(b, st.heap.links, st.heap.data);
  }

  /** Removing the key of a root that has a child (here only a right
      child): the dummy's left link, which aliases the root, takes the
      child, but the root field and the dummy's right link still point at
      the removed node, so the result is no well-formed tree at all. The
      corrected removal leaves the one-node tree holding key 2. */
  lemma RootWithChild(dummy: Node<int, int>, a: Node<int, int>, b: Node<int, int>)
    requires dummy != a && dummy != b && a != b
    ensures TotalOrder(IntOrder) && Good(TreeA(dummy, a, b), dummy, Br(a, Nil, Leaf(b)), IntOrder)
    ensures var st' := RemoveF(TreeA(dummy, a, b), dummy, Br(a, Nil, Leaf(b)), IntOrder, 1).0;
      && st'.root == a && st'.heap.links[dummy] == Link(b, a)
      && (forall s' :: !Good(st', dummy, s', IntOrder))
    ensures var fixed := FixedRemoveF(TreeA(dummy, a, b), dummy, Br(a, Nil, Leaf(b)), IntOrder, 1).0;
      && Good(fixed, dummy, Leaf(b), IntOrder) && Entries(Leaf(b), fixed.heap.data) == map[2 := 20]
  {
    GoodA(dummy, a, b);
    var st, s := TreeA(dummy, a, b), Br(a, Nil, Leaf(b));
    var data := st.heap.data;
    assert Site(s, data, IntOrder, 1) == s;
    assert Above(s, data, IntOrder, 1, dummy) == dummy;
    IntOrderTotal();
    FixedRemovalA(dummy, a, b);
  }

  /** The corrected removal of key 1 from tree A. */
  lemma FixedRemovalA(dummy: Node<int, int>, a: Node<int, int>, b: Node<int, int>)
    requires dummy != a && dummy != b && a != b
    ensures TotalOrder(IntOrder) && Good(TreeA(dummy, a, b), dummy, Br(a, Nil, Leaf(b)), IntOrder)
    ensures var fixed := FixedRemoveF(TreeA(dummy, a, b), dummy, Br(a, Nil, Leaf(b)), IntOrder, 1).0;
      && Good(fixed, dummy, Leaf(b), IntOrder) && Entries(Leaf(b), fixed.heap.data) == map[2 := 20]
  {
    GoodA(dummy, a, b);
    var st, s := TreeA(dummy, a, b), Br(a, Nil, Leaf(b));
    var data := st.heap.data;
    assert Site(s, data, IntOrder, 1) == s;
    assert RemovedShape(s, data, IntOrder, 1) == Leaf(b);
    assert map[2 := 20, 1 := 10] - {1} == map[2 := 20];
    IntOrderTotal();
    FixedRemoveCorrect(st, dummy, s, IntOrder, 1);
  }

  /** Tree D: root `a` (key 2) with only a left child `b` (key 1). */
  function TreeD(dummy: Node<int, int>, a: Node<int, int>, b: Node<int, int>): State<int, int> {
    var links := map[dummy := Link(a, a), a := Link(b, null), b := Link(null, null)];
    State(Heap(links, map[a := Entry(2, 20), b := Entry(1, 10)]), a, 2)
  }

  lemma GoodD(dummy: Node<int, int>, a: Node<int, int>, b: Node<int, int>)
    requires dummy != a && dummy != b && a != b
    ensures Good(TreeD(dummy, a, b), dummy, Br(a, Leaf(b), Nil), IntOrder)
    ensures Entries(Br(a, Leaf(b), Nil), TreeD(dummy, a, b).heap.data) == map[1 := 10, 2 := 20]
    ensures Entries(Leaf(b), TreeD(dummy, a, b).heap.data) == map[1 := 10]
  {
    var st := TreeD(dummy, a, b);
    LeafFacts(b, st.heap.links, st.heap.data);
  }

  /** The same defect through the one-child case of a node with a left
      child (lines 263-265): removing the key of a root that has only a left
      child sets the dummy's left link to that child, and again the root
      field and the dummy's right link keep the removed node. The corrected
      removal leaves the one-node tree holding key 1. */
  lemma RootWithLeftChild(dummy: Node<int, int>, a: Node<int, int>, b: Node<int, int>)
    requires dummy != a && dummy != b && a != b
    ensures TotalOrder(IntOrder) && Good(TreeD(dummy, a, b), dummy, Br(a, Leaf(b), Nil), IntOrder)
    ensures var st' := RemoveF(TreeD(dummy, a, b), dummy, Br(a, Leaf(b), Nil), IntOrder, 2).0;
      && st'.root == a && st'.heap.links[dummy] == Link(b, a)
      && (forall s' :: !Good(st', dummy, s', IntOrder))
    ensures var fixed := FixedRemoveF(TreeD(dummy, a, b), dummy, Br(a, Leaf(b), Nil), IntOrder, 2).0;
      && Good(fixed, dummy, Leaf(b), IntOrder) && Entries(Leaf(b), fixed.heap.data) == map[1 := 10]
  {
    GoodD(dummy, a, b);
    var st, s := TreeD(dummy, a, b), Br(a, Leaf(b), Nil);
    var data := st.heap.data;
    assert Site(s, data, IntOrder, 2) == s;
    assert Above(s, data, IntOrder, 2, dummy) == dummy;
    IntOrderTotal();
    FixedRemovalD(dummy, a, b);
  }

  /** The corrected removal of key 2 from tree D. */
  lemma FixedRemovalD(dummy: Node<int, int>, a: Node<int, int>, b: Node<int, int>)
    requires dummy != a && dummy != b && a != b
    ensures TotalOrder(IntOrder) && Good(TreeD(dummy, a, b), dummy, Br(a, Leaf(b), Nil), IntOrder)
    ensures var fixed := FixedRemoveF(TreeD(dummy, a, b), dummy, Br(a, Leaf(b), Nil), IntOrder, 2).0;
      && Good(fixed, dummy, Leaf(b), IntOrder) && Entries(Leaf(b), fixed.heap.data) == map[1 := 10]
  {
    GoodD(dummy, a, b);
    var st, s := TreeD(dummy, a, b), Br(a, Leaf(b), Nil);
    var data := st.heap.data;
    assert Site(s, data, IntOrder, 2) == s;
    assert RemovedShape(s, data, IntOrder, 2) == Leaf(b);
    assert map[1 := 10, 2 := 20] - {2} == map[1 := 10];
    IntOrderTotal();
    FixedRemoveCorrect(st, dummy, s, IntOrder, 2);
  }

  /** Tree B: root `n3` (key 3) whose left child `n1` (key 1) has the two
      children `n0` (key 0) and `n2` (key 2). */
  function TreeB(dummy: Node<int, int>, n3: Node<int, int>, n1: Node<int, int>, n0: Node<int, int>, n2: Node<int, int>): State<int, int> {
    var links := map[dummy := Link(n3, n3), n3 := Link(n1, null), n1 := Link(n0, n2), n0 := Link(null, null), n2 := Link(null, null)];
    State(Heap(links, map[n3 := Entry(3, 30), n1 := Entry(1, 10), n0 := Entry(0, 0), n2 := Entry(2, 20)]), n3, 4)
  }

  function ShapeB(n3: Node<int, int>, n1: Node<int, int>, n0: Node<int, int>, n2: Node<int, int>): Shape<int, int> {
    Br(n3, Br(n1, Leaf(n0), Leaf(n2)), Nil)
  }

  lemma GoodB(dummy: Node<int, int>, n3: Node<int, int>, n1: Node<int, int>, n0: Node<int, int>, n2: Node<int, int>)
    requires dummy != n3 && dummy != n1 && dummy != n0 && dummy != n2
    requires n3 != n1 && n3 != n0 && n3 != n2 && n1 != n0 && n1 != n2 && n0 != n2
    ensures Good(TreeB(dummy, n3, n1, n0, n2), dummy, ShapeB(n3, n1, n0, n2), IntOrder)
    ensures Entries(ShapeB(n3, n1, n0, n2), TreeB(dummy, n3, n1, n0, n2).heap.data) == map[3 := 30, 1 := 10, 0 := 0, 2 := 20]
  {
    MidB(dummy, n3, n1, n0, n2);
  }

  /** The left subtree of tree B. */
  lemma MidB(dummy: Node<int, int>, n3: Node<int, int>, n1: Node<int, int>, n0: Node<int, int>, n2: Node<int, int>)
    requires dummy != n3 && dummy != n1 && dummy != n0 && dummy != n2
    requires n3 != n1 && n3 != n0 && n3 != n2 && n1 != n0 && n1 != n2 && n0 != n2
    ensures var st, mid := TreeB(dummy, n3, n1, n0, n2), Br(n1, Leaf(n0), Leaf(n2));
      && Fits(mid, st.heap.links) && Keyed(mid, st.heap.data) && Distinct(mid) && Ordered(mid, st.heap.data, IntOrder)
      && Nodes(mid) == {n1, n0, n2} && Size(mid) == 3
      && Entries(mid, st.heap.data) == map[1 := 10, 0 := 0, 2 := 20]
  {
    var st := TreeB(dummy, n3, n1, n0, n2);
    var links, data := st.heap.links, st.heap.data;
    LeafFacts(n0, links, data);
    LeafFacts(n2, links, data);
  }

  /** The search for key 1 in tree B stops at `n1`, below `n3`. */
  lemma SearchB(dummy: Node<int, int>, n3: Node<int, int>, n1: Node<int, int>, n0: Node<int, int>, n2: Node<int, int>)
    requires dummy != n3 && dummy != n1 && dummy != n0 && dummy != n2
    requires n3 != n1 && n3 != n0 && n3 != n2 && n1 != n0 && n1 != n2 && n0 != n2
    ensures var s, data := ShapeB(n3, n1, n0, n2), TreeB(dummy, n3, n1, n0, n2).heap.data;
      && Keyed(s, data)
      && Site(s, data, IntOrder, 1) == Br(n1, Leaf(n0), Leaf(n2))
      && Above(s, data, IntOrder, 1, dummy) == n3
      && RemovedShape(s, data, IntOrder, 1) == Br(n3, Br(n1, Nil, Leaf(n2)), Nil)
  {
    var s, data := ShapeB(n3, n1, n0, n2), TreeB(dummy, n3, n1, n0, n2).heap.data;
    var mid := Br(n1, Leaf(n0), Leaf(n2));
    MidB(dummy, n3, n1, n0, n2);
    assert Site(mid, data, IntOrder, 1) == mid;
    assert Replacement(mid) == Br(n1, Nil, Leaf(n2));
    assert Graft(mid, data, IntOrder, 1, Replacement(mid)) == Replacement(mid);
  }

  /** The one shape that links holding `n3` over the leaf `n0` reach from
      `n3`. */
  lemma ReachedB(links: map<Node<int, int>, Link<int, int>>, n3: Node<int, int>, n0: Node<int, int>, s': Shape<int, int>)
    requires n3 in links && links[n3] == Link(n0, null) && n0 in links && links[n0] == Link(null, null)
    requires Fits(s', links) && Top(s') == n3
    ensures s' == Br(n3, Leaf(n0), Nil)
  {
    assert s'.left.node == n0;
  }

  /** Removing the key of a left child with two children: the parent's left
      link takes the left child and the right subtree is dropped, so key 2
      is lost while the size still counts three nodes. The corrected
      removal copies key 0 into `n1` and keeps keys 0, 2 and 3. */
  lemma LeftChildWithTwoChildren(dummy: Node<int, int>, n3: Node<int, int>, n1: Node<int, int>, n0: Node<int, int>, n2: Node<int, int>)
    requires dummy != n3 && dummy != n1 && dummy != n0 && dummy != n2
    requires n3 != n1 && n3 != n0 && n3 != n2 && n1 != n0 && n1 != n2 && n0 != n2
    ensures TotalOrder(IntOrder) && Good(TreeB(dummy, n3, n1, n0, n2), dummy, ShapeB(n3, n1, n0, n2), IntOrder)
    ensures var st' := RemoveF(TreeB(dummy, n3, n1, n0, n2), dummy, ShapeB(n3, n1, n0, n2), IntOrder, 1).0;
      && st'.size == 3
      && (forall s' :: Fits(s', st'.heap.links) && Top(s') == st'.root ==> Keyed(s', st'.heap.data) && 2 !in Entries(s', st'.heap.data))
      && (forall s' :: !Good(st', dummy, s', IntOrder))
    ensures var fixed := FixedRemoveF(TreeB(dummy, n3, n1, n0, n2), dummy, ShapeB(n3, n1, n0, n2), IntOrder, 1).0;
      var s' := Br(n3, Br(n1, Nil, Leaf(n2)), Nil);
      && Good(fixed, dummy, s', IntOrder) && Entries(s', fixed.heap.data) == map[3 := 30, 0 := 0, 2 := 20]
  {
    AsWrittenB(dummy, n3, n1, n0, n2);
    LostB(dummy, n3, n1, n0, n2);
    FixedRemovalB(dummy, n3, n1, n0, n2);
  }

  /** Tree B after the removal as written: `n3`'s left link holds `n0`. */
  function LeftOnlyB(dummy: Node<int, int>, n3: Node<int, int>, n1: Node<int, int>, n0: Node<int, int>, n2: Node<int, int>): State<int, int> {
    var st := TreeB(dummy, n3, n1, n0, n2);
    st.(heap := st.heap.(links := st.heap.links[n3 := Link(n0, null)]), size := 3)
  }

  /** The removal as written takes the left-child branch at `n1`. */
  lemma AsWrittenB(dummy: Node<int, int>, n3: Node<int, int>, n1: Node<int, int>, n0: Node<int, int>, n2: Node<int, int>)
    requires dummy != n3 && dummy != n1 && dummy != n0 && dummy != n2
    requires n3 != n1 && n3 != n0 && n3 != n2 && n1 != n0 && n1 != n2 && n0 != n2
    ensures TotalOrder(IntOrder) && Good(TreeB(dummy, n3, n1, n0, n2), dummy, ShapeB(n3, n1, n0, n2), IntOrder)
    ensures RemoveF(TreeB(dummy, n3, n1, n0, n2), dummy, ShapeB(n3, n1, n0, n2), IntOrder, 1).0 == LeftOnlyB(dummy, n3, n1, n0, n2)
  {
    GoodB(dummy, n3, n1, n0, n2);
    SearchB(dummy, n3, n1, n0, n2);
    MidB(dummy, n3, n1, n0, n2);
    IntOrderTotal();
    var st, s := TreeB(dummy, n3, n1, n0, n2), ShapeB(n3, n1, n0, n2);
    var mid := Br(n1, Leaf(n0), Leaf(n2));
    assert RemoveF(st, dummy, s, IntOrder, 1) == RemoveNodeF(st, dummy, n3, mid);
    LeftChildRemoval(st, dummy, n3, mid);
    assert SetChild(st.heap.links, n3, n1, n0) == st.heap.links[n3 := Link(n0, null)];
  }

  /** In that state the tree reached from the root holds two nodes, without
      key 2, while the size field says three. */
  lemma LostB(dummy: Node<int, int>, n3: Node<int, int>, n1: Node<int, int>, n0: Node<int, int>, n2: Node<int, int>)
    requires dummy != n3 && dummy != n1 && dummy != n0 && dummy != n2
    requires n3 != n1 && n3 != n0 && n3 != n2 && n1 != n0 && n1 != n2 && n0 != n2
    ensures var st' := LeftOnlyB(dummy, n3, n1, n0, n2);
      && st'.size == 3
      && (forall s' :: Fits(s', st'.heap.links) && Top(s') == st'.root ==> Keyed(s', st'.heap.data) && 2 !in Entries(s', st'.heap.data))
      && (forall s' :: !Good(st', dummy, s', IntOrder))
  {
    var st' := LeftOnlyB(dummy, n3, n1, n0, n2);
    var links, data := st'.heap.links, st'.heap.data;
    forall s' | Fits(s', links) && Top(s') == n3
      ensures Keyed(s', data) && 2 !in Entries(s', data) && Size(s') == 2
    {
      ReachedB(links, n3, n0, s');
      LeafFacts(n0, links, data);
      assert Entries(s', data) == map[0 := 0, 3 := 30];
    }
  }

  /** The corrected removal of key 1 from tree B. */
  lemma FixedRemovalB(dummy: Node<int, int>, n3: Node<int, int>, n1: Node<int, int>, n0: Node<int, int>, n2: Node<int, int>)
    requires dummy != n3 && dummy != n1 && dummy != n0 && dummy != n2
    requires n3 != n1 && n3 != n0 && n3 != n2 && n1 != n0 && n1 != n2 && n0 != n2
    ensures TotalOrder(IntOrder) && Good(TreeB(dummy, n3, n1, n0, n2), dummy, ShapeB(n3, n1, n0, n2), IntOrder)
    ensures var fixed := FixedRemoveF(TreeB(dummy, n3, n1, n0, n2), dummy, ShapeB(n3, n1, n0, n2), IntOrder, 1).0;
      var s' := Br(n3, Br(n1, Nil, Leaf(n2)), Nil);
      && Good(fixed, dummy, s', IntOrder) && Entries(s', fixed.heap.data) == map[3 := 30, 0 := 0, 2 := 20]
  {
    GoodB(dummy, n3, n1, n0, n2);
    SearchB(dummy, n3, n1, n0, n2);
    IntOrderTotal();
    FixedRemoveCorrect(TreeB(dummy, n3, n1, n0, n2), dummy, ShapeB(n3, n1, n0, n2), IntOrder, 1);
    WithoutOne();
  }

  lemma WithoutOne()
    ensures map[3 := 30, 1 := 10, 0 := 0, 2 := 20] - {1} == map[3 := 30, 0 := 0, 2 := 20]
  {
  }

  /** Tree C: root `n1` (key 1) whose right child `n3` (key 3) has only a
      left child `n2` (key 2). */
  function TreeC(dummy: Node<int, int>, n1: Node<int, int>, n3: Node<int, int>, n2: Node<int, int>): State<int, int> {
    var links := map[dummy := Link(n1, n1), n1 := Link(null, n3), n3 := Link(n2, null), n2 := Link(null, null)];
    State(Heap(links, map[n1 := Entry(1, 10), n3 := Entry(3, 30), n2 := Entry(2, 20)]), n1, 3)
  }

  function ShapeC(n1: Node<int, int>, n3: Node<int, int>, n2: Node<int, int>): Shape<int, int> {
    Br(n1, Nil, Br(n3, Leaf(n2), Nil))
  }

  lemma GoodC(dummy: Node<int, int>, n1: Node<int, int>, n3: Node<int, int>, n2: Node<int, int>)
    requires dummy != n1 && dummy != n3 && dummy != n2 && n1 != n3 && n1 != n2 && n3 != n2
    ensures Good(TreeC(dummy, n1, n3, n2), dummy, ShapeC(n1, n3, n2), IntOrder)
    ensures 3 in Entries(ShapeC(n1, n3, n2), TreeC(dummy, n1, n3, n2).heap.data)
  {
    var st := TreeC(dummy, n1, n3, n2);
    LeafFacts(n2, st.heap.links, st.heap.data);
    var mid := Br(n3, Leaf(n2), Nil);
    assert Entries(mid, st.heap.data) == map[2 := 20, 3 := 30];
    assert Fits(mid, st.heap.links) && Distinct(mid) && Ordered(mid, st.heap.data, IntOrder);
  }

  /** Removing the key of a right child whose left child has no right
      child: findPredecessorParent returns the node itself, removeNode
      takes its right child as the predecessor, and dereferences it while
      it is null: a NullPointerException for a key that is present. The
      corrected removal returns the key's value. */
  lemma RightChildWithLeftLeaf(dummy: Node<int, int>, n1: Node<int, int>, n3: Node<int, int>, n2: Node<int, int>)
    requires dummy != n1 && dummy != n3 && dummy != n2 && n1 != n3 && n1 != n2 && n3 != n2
    ensures TotalOrder(IntOrder) && Good(TreeC(dummy, n1, n3, n2), dummy, ShapeC(n1, n3, n2), IntOrder)
    ensures 3 in Entries(ShapeC(n1, n3, n2), TreeC(dummy, n1, n3, n2).heap.data)
    ensures RemoveF(TreeC(dummy, n1, n3, n2), dummy, ShapeC(n1, n3, n2), IntOrder, 3).1 == Failure(NullPointer)
    ensures FixedRemoveF(TreeC(dummy, n1, n3, n2), dummy, ShapeC(n1, n3, n2), IntOrder, 3).1 == Success(Some(30))
  {
    GoodC(dummy, n1, n3, n2);
    var st, s := TreeC(dummy, n1, n3, n2), ShapeC(n1, n3, n2);
    assert Site(s, st.heap.data, IntOrder, 3) == Br(n3, Leaf(n2), Nil);
    assert Above(s, st.heap.data, IntOrder, 3, dummy) == n1;
  }
}

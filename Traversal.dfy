/** In-order traversal: the order BinaryTreeIterator hands out entries in,
    the entries its stack still owes, and the map that putting a sequence
    of entries one after another builds. */
module Traversal {
  import opened Types
  import opened Shapes

  /** Every subtree of a stack is a node with a recorded entry. */
  ghost predicate Stacked<K(!new), V>(subs: seq<Shape<K, V>>, data: map<Node<K, V>, Entry<K, V>>) {
    forall i :: 0 <= i < |subs| ==> subs[i].Br? && Keyed(subs[i], data)
  }

  /** The entries a stack of subtrees (top last) still owes, in the order
      they come: the top node's entry, then its right subtree in order, then
      what the rest of the stack owes. */
  ghost function Pending<K(!new), V>(subs: seq<Shape<K, V>>, data: map<Node<K, V>, Entry<K, V>>): seq<Entry<K, V>>
    requires Stacked(subs, data)
  {
    if |subs| == 0 then []
    else
      var top := subs[|subs| - 1];
      [data[top.node]] + InOrder(top.right, data) + Pending(subs[..|subs| - 1], data)
  }

  /** Pushing a node on the stack puts its entry and its right subtree in
      front of what the stack owed. */
  lemma PendingPush<K(!new), V>(subs: seq<Shape<K, V>>, u: Shape<K, V>, data: map<Node<K, V>, Entry<K, V>>)
    requires Stacked(subs, data) && u.Br? && Keyed(u, data)
    ensures Stacked(subs + [u], data)
    ensures Pending(subs + [u], data) == [data[u.node]] + InOrder(u.right, data) + Pending(subs, data)
  {
    assert (subs + [u])[..|subs|] == subs;
  }

  /** A stack of nodes (top last) holding the tops of the subtrees
      `subs`, which fit the recorded links and entries. */
  ghost predicate StackOf<K(!new), V>(stack: seq<Node<K, V>>, subs: seq<Shape<K, V>>, links: map<Node<K, V>, Link<K, V>>, data: map<Node<K, V>, Entry<K, V>>) {
    && |stack| == |subs| && Stacked(subs, data)
    && forall i :: 0 <= i < |subs| ==> stack[i] == subs[i].node && Fits(subs[i], links)
  }

  /** Pushing the top of a subtree keeps a stack. */
  lemma StackPush<K(!new), V>(stack: seq<Node<K, V>>, subs: seq<Shape<K, V>>, u: Shape<K, V>, links: map<Node<K, V>, Link<K, V>>, data: map<Node<K, V>, Entry<K, V>>)
    requires StackOf(stack, subs, links, data) && u.Br? && Fits(u, links) && Keyed(u, data)
    ensures StackOf(stack + [u.node], subs + [u], links, data)
  {
    PendingPush(subs, u, data);
    var stack', subs' := stack + [u.node], subs + [u];
    forall i | 0 <= i < |subs'| ensures stack'[i] == subs'[i].node && Fits(subs'[i], links) {
      if i < |subs| {
        assert stack'[i] == stack[i] && subs'[i] == subs[i];
      }
    }
  }

  /** One step down a left spine: once the top of `u` is pushed, what is
      left of `u` to push and what the stack owes still make up `u` followed
      by what the stack owed before. */
  lemma SpineStep<K(!new), V>(subs: seq<Shape<K, V>>, u: Shape<K, V>, data: map<Node<K, V>, Entry<K, V>>)
    requires Stacked(subs, data) && u.Br? && Keyed(u, data)
    ensures Stacked(subs + [u], data)
    ensures InOrder(u.left, data) + Pending(subs + [u], data) == InOrder(u, data) + Pending(subs, data)
  {
    PendingPush(subs, u, data);
    var l, d, r, p := InOrder(u.left, data), [data[u.node]], InOrder(u.right, data), Pending(subs, data);
    assert l + (d + r + p) == (l + d + r) + p;
  }

  /** Popping the top of a stack that owes the rest of `all` after
      `visited`: the rest is a stack, the top's entry is the next one of
      `all`, and after it come the top's right subtree and what the rest
      owes. */
  lemma StackPop<K(!new), V>(stack: seq<Node<K, V>>, subs: seq<Shape<K, V>>, links: map<Node<K, V>, Link<K, V>>, data: map<Node<K, V>, Entry<K, V>>, visited: seq<Entry<K, V>>, all: seq<Entry<K, V>>)
    requires StackOf(stack, subs, links, data) && |subs| > 0 && visited + Pending(subs, data) == all
    ensures var top, rest := subs[|subs| - 1], subs[..|subs| - 1];
      && StackOf(stack[..|stack| - 1], rest, links, data)
      && top.Br? && stack[|stack| - 1] == top.node && Fits(top, links) && Keyed(top, data)
      && |visited| < |all| && all[|visited|] == data[top.node]
      && (visited + [data[top.node]]) + (InOrder(top.right, data) + Pending(rest, data)) == all
  {
    var top, rest := subs[|subs| - 1], subs[..|subs| - 1];
    var e, r, p := data[top.node], InOrder(top.right, data), Pending(rest, data);
    assert Pending(subs, data) == [e] + r + p;
    assert all == visited + ([e] + r + p);
    assert (visited + [e]) + (r + p) == visited + ([e] + r + p);
    assert all[|visited|] == ([e] + r + p)[0];
  }

  /** The entry of every stacked node is still owed. */
  lemma {:induction false} StackedPending<K(!new), V>(subs: seq<Shape<K, V>>, data: map<Node<K, V>, Entry<K, V>>, i: int)
    requires Stacked(subs, data) && 0 <= i < |subs|
    ensures data[subs[i].node] in Pending(subs, data)
  {
    if i < |subs| - 1 {
      StackedPending(subs[..|subs| - 1], data, i);
    }
  }

  /** When what a stack owes is ascending, the keys of the stacked nodes
      strictly decrease from the bottom of the stack to its top. */
  lemma {:induction false} StackDescends<K(!new), V>(subs: seq<Shape<K, V>>, data: map<Node<K, V>, Entry<K, V>>, cmp: (K, K) -> int)
    requires Stacked(subs, data) && Ascending(Pending(subs, data), cmp)
    ensures forall i, j :: 0 <= i < j < |subs| ==> cmp(data[subs[j].node].key, data[subs[i].node].key) < 0
  {
    if |subs| > 0 {
      var rest := subs[..|subs| - 1];
      var top := subs[|subs| - 1];
      var front := [data[top.node]] + InOrder(top.right, data);
      assert Pending(subs, data) == front + Pending(rest, data);
      AscendingSuffix(front, Pending(rest, data), cmp);
      StackDescends(rest, data, cmp);
      forall i, j | 0 <= i < j < |subs|
        ensures cmp(data[subs[j].node].key, data[subs[i].node].key) < 0
      {
        if j < |subs| - 1 {
          assert subs[i] == rest[i] && subs[j] == rest[j];
        } else {
          assert subs[i] == rest[i];
          StackedPending(rest, data, i);
          var x :| 0 <= x < |Pending(rest, data)| && Pending(rest, data)[x] == data[subs[i].node];
          assert Pending(subs, data)[0] == data[top.node];
          assert Pending(subs, data)[|front| + x] == data[subs[i].node];
        }
      }
    }
  }

  /** The end of an ascending run is ascending. */
  lemma AscendingSuffix<K, V>(a: seq<Entry<K, V>>, b: seq<Entry<K, V>>, cmp: (K, K) -> int)
    requires Ascending(a + b, cmp)
    ensures Ascending(b, cmp)
  {
    forall i, j | 0 <= i < j < |b| ensures cmp(b[i].key, b[j].key) < 0 {
      assert b[i] == (a + b)[|a| + i] && b[j] == (a + b)[|a| + j];
    }
  }

  /** A stack owes at least one entry per subtree on it, so a non-empty
      stack owes something. */
  lemma {:induction false} PendingLength<K(!new), V>(subs: seq<Shape<K, V>>, data: map<Node<K, V>, Entry<K, V>>)
    requires Stacked(subs, data)
    ensures |Pending(subs, data)| >= |subs|
  {
    if |subs| > 0 {
      PendingLength(subs[..|subs| - 1], data);
    }
  }

  /** The in-order sequence lists each node once. */
  lemma {:induction false} InOrderLength<K(!new), V>(s: Shape<K, V>, data: map<Node<K, V>, Entry<K, V>>)
    requires Keyed(s, data)
    ensures |InOrder(s, data)| == Size(s)
  {
    match s
    case Nil =>
    case Br(n, l, r) =>
      InOrderLength(l, data);
      InOrderLength(r, data);
  }

  /** Every entry of the in-order sequence is an entry of the shape. */
  lemma {:induction false} InOrderEntries<K(!new), V>(s: Shape<K, V>, data: map<Node<K, V>, Entry<K, V>>, cmp: (K, K) -> int)
    requires Keyed(s, data) && Ordered(s, data, cmp) && TotalOrder(cmp)
    ensures forall e :: e in InOrder(s, data) ==> e.key in Entries(s, data) && Entries(s, data)[e.key] == e.value
  {
    match s
    case Nil =>
    case Br(n, l, r) =>
      InOrderEntries(l, data, cmp);
      InOrderEntries(r, data, cmp);
      SplitKeys(s, data, cmp);
  }

  /** Keys strictly ascending in the comparator's order. */
  ghost predicate Ascending<K, V>(es: seq<Entry<K, V>>, cmp: (K, K) -> int) {
    forall i, j :: 0 <= i < j < |es| ==> cmp(es[i].key, es[j].key) < 0
  }

  /** The in-order sequence of a search tree is strictly ascending. */
  lemma {:induction false} InOrderSorted<K(!new), V>(s: Shape<K, V>, data: map<Node<K, V>, Entry<K, V>>, cmp: (K, K) -> int)
    requires Keyed(s, data) && Ordered(s, data, cmp) && TotalOrder(cmp)
    ensures Ascending(InOrder(s, data), cmp)
  {
    match s
    case Nil =>
    case Br(n, l, r) =>
      InOrderSorted(l, data, cmp);
      InOrderSorted(r, data, cmp);
      InOrderEntries(l, data, cmp);
      InOrderEntries(r, data, cmp);
      AscendingJoin(InOrder(l, data), data[n], InOrder(r, data), cmp);
  }

  /** Two ascending runs with an entry between them that orders after the
      first and before the second make one ascending run. */
  lemma AscendingJoin<K(!new), V>(a: seq<Entry<K, V>>, x: Entry<K, V>, b: seq<Entry<K, V>>, cmp: (K, K) -> int)
    requires TotalOrder(cmp) && Ascending(a, cmp) && Ascending(b, cmp)
    requires forall e :: e in a ==> cmp(e.key, x.key) < 0
    requires forall e :: e in b ==> cmp(x.key, e.key) < 0
    ensures Ascending(a + [x] + b, cmp)
  {
    var all := a + [x] + b;
    forall i, j | 0 <= i < j < |all| ensures cmp(all[i].key, all[j].key) < 0 {
      if j < |a| {
        assert all[i] == a[i] && all[j] == a[j];
      } else if i < |a| {
        assert all[i] in a;
        if j > |a| {
          assert all[j] == b[j - |a| - 1];
          assert all[j] in b;
        }
      } else if i == |a| {
        assert all[j] == b[j - |a| - 1];
        assert all[j] in b;
      } else {
        assert all[i] == b[i - |a| - 1] && all[j] == b[j - |a| - 1];
      }
    }
  }

  /** The map that putting the entries of `es` one after another, into an
      empty map, builds: later entries win. */
  function MapOf<K, V>(es: seq<Entry<K, V>>): (m: map<K, V>)
  {
    if |es| == 0 then map[]
    else MapOf(es[..|es| - 1])[es[|es| - 1].key := es[|es| - 1].value]
  }

  /** Putting the entries of two sequences is putting those of the first,
      then those of the second. */
  lemma {:induction false} MapOfAppend<K, V>(a: seq<Entry<K, V>>, b: seq<Entry<K, V>>)
    ensures MapOf(a + b) == MapOf(a) + MapOf(b)
  {
    if |b| > 0 {
      var b' := b[..|b| - 1];
      assert (a + b)[..|a + b| - 1] == a + b';
      MapOfAppend(a, b');
    } else {
      assert a + b == a;
    }
  }

  /** A prefix as long as the whole is the whole. */
  lemma Exhausted<T>(done: seq<T>, rest: seq<T>, all: seq<T>)
    requires done + rest == all && |done| >= |all|
    ensures done == all
  {
    assert |rest| == 0;
    assert done + rest == done;
  }

  /** Once every in-order entry of a search tree has been put into a map,
      the map holds the tree's entries over its own. */
  lemma AllPut<K(!new), V>(base: map<K, V>, done: seq<Entry<K, V>>, rest: seq<Entry<K, V>>, s: Shape<K, V>, data: map<Node<K, V>, Entry<K, V>>, cmp: (K, K) -> int)
    requires Keyed(s, data) && Ordered(s, data, cmp) && TotalOrder(cmp)
    requires done + rest == InOrder(s, data) && |done| >= |InOrder(s, data)|
    ensures base + MapOf(done) == base + Entries(s, data)
  {
    Exhausted(done, rest, InOrder(s, data));
    MapOfInOrder(s, data, cmp);
  }

  /** Putting the in-order entries of a search tree rebuilds its map. */
  lemma {:induction false} MapOfInOrder<K(!new), V>(s: Shape<K, V>, data: map<Node<K, V>, Entry<K, V>>, cmp: (K, K) -> int)
    requires Keyed(s, data) && Ordered(s, data, cmp) && TotalOrder(cmp)
    ensures MapOf(InOrder(s, data)) == Entries(s, data)
  {
    match s
    case Nil =>
    case Br(n, l, r) =>
      MapOfInOrder(l, data, cmp);
      MapOfInOrder(r, data, cmp);
      SplitKeys(s, data, cmp);
      MapOfAppend(InOrder(l, data) + [data[n]], InOrder(r, data));
      MapOfAppend(InOrder(l, data), [data[n]]);
      assert MapOf([data[n]]) == map[data[n].key := data[n].value] by {
        assert [data[n]][..0] == [];
      }
      assert InOrder(s, data) == InOrder(l, data) + [data[n]] + InOrder(r, data);
      SwapLast(Entries(l, data), Entries(r, data), data[n].key, data[n].value);
  }

  /** Map arithmetic: a key in neither part may be added last or between. */
  lemma SwapLast<K, V>(ml: map<K, V>, mr: map<K, V>, k: K, v: V)
    requires k !in mr
    ensures ml + map[k := v] + mr == ml + mr + map[k := v]
  {
  }

  /** Putting one more entry into a map that already took a sequence. */
  lemma PutNothing<K, V>(base: map<K, V>)
    ensures base + MapOf<K, V>([]) == base
  {
  }

  lemma PutOneMore<K, V>(base: map<K, V>, es: seq<Entry<K, V>>, e: Entry<K, V>)
    ensures (base + MapOf(es))[e.key := e.value] == base + MapOf(es + [e])
  {
    assert (es + [e])[..|es|] == es;
  }
}

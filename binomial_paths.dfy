/** Nodes of a binomial heap named by paths, and the key updates of
    `find` and `decrease_key` in binomial_heap_advanced.py. A path is an
    index into a sibling chain followed by indices into the children of
    each node on the way down; the node's parent is the path without its
    last index. */
module BinomialPaths {
  import opened Wrappers
  import opened BinomialTrees

  predicate ValidPath(ts: seq<BTree>, p: seq<nat>)
    decreases p
  {
    |p| >= 1 && p[0] < |ts| && (|p| == 1 || ValidPath(ts[p[0]].children, p[1..]))
  }

  function KeyAt(ts: seq<BTree>, p: seq<nat>): int
    requires ValidPath(ts, p)
    decreases p
  {
    if |p| == 1 then ts[p[0]].key else KeyAt(ts[p[0]].children, p[1..])
  }

  /** The path of the parent (`node.parent`) of a node below the roots. */
  function Parent(p: seq<nat>): (q: seq<nat>)
    requires |p| >= 2
    ensures |q| == |p| - 1 && q[0] == p[0]
  {
    p[..|p| - 1]
  }

  lemma {:induction false} ParentValid(ts: seq<BTree>, p: seq<nat>)
    requires ValidPath(ts, p) && |p| >= 2
    ensures ValidPath(ts, Parent(p))
    ensures |p| >= 3 ==> Parent(p)[1..] == Parent(p[1..])
    decreases p
  {
    assert Parent(p)[1..] == p[1..|p| - 1];
    if |p| >= 3 {
      ParentValid(ts[p[0]].children, p[1..]);
      assert Parent(p)[1..] == Parent(p[1..]);
    }
  }

  /** The key found at the end of a path is one of the chain's keys. */
  lemma {:induction false} KeyAtIn(ts: seq<BTree>, p: seq<nat>)
    requires ValidPath(ts, p)
    ensures KeyAt(ts, p) in ListKeys(ts)
    decreases p
  {
    ListKeysRemove(ts, p[0]);
    if |p| > 1 {
      KeyAtIn(ts[p[0]].children, p[1..]);
    }
  }

  /** Replacing one tree of a chain replaces its keys. */
  lemma {:induction false} ListKeysUpdate(ts: seq<BTree>, i: nat, t: BTree)
    requires i < |ts|
    ensures Keys(ts[i]) <= ListKeys(ts)
    ensures ListKeys(ts[i := t]) == ListKeys(ts) - Keys(ts[i]) + Keys(t)
  {
    var us := ts[i := t];
    ListKeysRemove(ts, i);
    ListKeysRemove(us, i);
    assert us[..i] + us[i + 1..] == ts[..i] + ts[i + 1..];
  }

  /** Multiset bookkeeping for a replacement made inside a part `a` of `m`. */
  lemma {:induction false} ReplaceInside(m: multiset<int>, a: multiset<int>, x: int, k: int)
    requires a <= m && x in a
    ensures m - a + (a - multiset{x} + multiset{k}) == m - multiset{x} + multiset{k}
  {
    var l, r := m - a + (a - multiset{x} + multiset{k}), m - multiset{x} + multiset{k};
    forall z ensures l[z] == r[z] {
      assert a[z] <= m[z];
    }
  }

  // ---------------------------------------------------------------------
  // `find`
  // ---------------------------------------------------------------------

  /** `find(root, key)`: a node whose key is `key`, looking at a node, then
      among its children, then along its siblings; `None` when the key is
      nowhere in the chain. */
  function Find(ts: seq<BTree>, key: int): (r: Option<seq<nat>>)
    ensures r.Some? ==> ValidPath(ts, r.value) && KeyAt(ts, r.value) == key
    ensures r.None? <==> key !in ListKeys(ts)
    decreases ts
  {
    if ts == [] then None
    else if ts[0].key == key then Some([0])
    else match Find(ts[0].children, key)
      case Some(q) =>
        assert ([0] + q)[1..] == q;
        Some([0] + q)
      case None =>
        match Find(ts[1..], key)
        case Some(q) =>
          FindShift(ts, q, key);
          Some([q[0] + 1] + q[1..])
        case None => None
  }

  /** A path into the tail of a chain, shifted by one, is a path into the
      chain. */
  lemma {:induction false} FindShift(ts: seq<BTree>, q: seq<nat>, key: int)
    requires ts != [] && ValidPath(ts[1..], q) && KeyAt(ts[1..], q) == key
    ensures ValidPath(ts, [q[0] + 1] + q[1..]) && KeyAt(ts, [q[0] + 1] + q[1..]) == key
  {
    var p := [q[0] + 1] + q[1..];
    assert p[1..] == q[1..];
    assert ts[p[0]] == ts[1..][q[0]];
  }

  /** `search(root, key)` of rbt_vs_binomial.py: `True` exactly when the
      key is in the node, among its children, or along its siblings. */
  function Search(ts: seq<BTree>, key: int): (r: bool)
    ensures r <==> key in ListKeys(ts)
    decreases ts
  {
    ts != [] && (ts[0].key == key || Search(ts[0].children, key) || Search(ts[1..], key))
  }

  // ---------------------------------------------------------------------
  // Key updates
  // ---------------------------------------------------------------------

  /** `node.key = new_key` for the node at the end of `p`. */
  function SetKey(ts: seq<BTree>, p: seq<nat>, k: int): (r: seq<BTree>)
    requires ValidPath(ts, p)
    ensures |r| == |ts| && ValidPath(r, p) && KeyAt(r, p) == k
    ensures forall j :: 0 <= j < |ts| ==> r[j].degree == ts[j].degree
    decreases p
  {
    var i, t := p[0], ts[p[0]];
    if |p| == 1 then ts[i := BTree(k, t.degree, t.children)]
    else
      var r := ts[i := BTree(t.key, t.degree, SetKey(t.children, p[1..], k))];
      assert r[i].children == SetKey(t.children, p[1..], k);
      r
  }

  /** `node.key, parent.key = parent.key, node.key` for the node at the end
      of `p` and its parent. */
  function SwapUp(ts: seq<BTree>, p: seq<nat>): (r: seq<BTree>)
    requires ValidPath(ts, p) && |p| >= 2
    ensures |r| == |ts| && ValidPath(r, p)
    ensures forall j :: 0 <= j < |ts| ==> r[j].degree == ts[j].degree
    decreases p
  {
    var i, t := p[0], ts[p[0]];
    if |p| == 2 then
      assert ValidPath(t.children, p[1..]) && p[1..][0] == p[1];
      var c := t.children[p[1]];
      ts[i := BTree(c.key, t.degree, t.children[p[1] := BTree(t.key, c.degree, c.children)])]
    else
      ts[i := BTree(t.key, t.degree, SwapUp(t.children, p[1..]))]
  }

  /** `SetKey` replaces one occurrence of the old key by the new one. */
  lemma {:induction false} SetKeyKeys(ts: seq<BTree>, p: seq<nat>, k: int)
    requires ValidPath(ts, p)
    ensures ListKeys(SetKey(ts, p, k)) == ListKeys(ts) - multiset{KeyAt(ts, p)} + multiset{k}
    decreases p
  {
    var i, t := p[0], ts[p[0]];
    var x := KeyAt(ts, p);
    if |p| == 1 {
      ListKeysUpdate(ts, i, BTree(k, t.degree, t.children));
      ReplaceInside(ListKeys(ts), Keys(t), x, k);
    } else {
      SetKeyKeys(t.children, p[1..], k);
      var t' := BTree(t.key, t.degree, SetKey(t.children, p[1..], k));
      SetKeyBelow(t, p[1..], k);
      assert x == KeyAt(t.children, p[1..]);
      ListKeysUpdate(ts, i, t');
      ReplaceInside(ListKeys(ts), Keys(t), x, k);
    }
  }

  /** One level of `SetKeyKeys`: a key replaced among a node's descendants
      is replaced in the node's keys. */
  lemma {:induction false} SetKeyBelow(t: BTree, q: seq<nat>, k: int)
    requires ValidPath(t.children, q)
    requires ListKeys(SetKey(t.children, q, k)) == ListKeys(t.children) - multiset{KeyAt(t.children, q)} + multiset{k}
    ensures KeyAt(t.children, q) in Keys(t)
    ensures Keys(BTree(t.key, t.degree, SetKey(t.children, q, k))) == Keys(t) - multiset{KeyAt(t.children, q)} + multiset{k}
  {
    KeyAtIn(t.children, q);
    ReplaceInside(Keys(t), ListKeys(t.children), KeyAt(t.children, q), k);
  }

  /** Swapping two keys keeps the chain's keys. */
  lemma {:induction false} SwapUpKeys(ts: seq<BTree>, p: seq<nat>)
    requires ValidPath(ts, p) && |p| >= 2
    ensures ListKeys(SwapUp(ts, p)) == ListKeys(ts)
    decreases p
  {
    var i, t := p[0], ts[p[0]];
    if |p| == 2 {
      var j := p[1];
      var c := t.children[j];
      var c' := BTree(t.key, c.degree, c.children);
      var t' := BTree(c.key, t.degree, t.children[j := c']);
      ListKeysUpdate(t.children, j, c');
      assert Keys(t') == Keys(t) by {
        SwapRoots(ListKeys(t.children), Keys(c), ListKeys(c.children), t.key, c.key);
      }
      ListKeysUpdate(ts, i, t');
    } else {
      SwapUpKeys(t.children, p[1..]);
      ListKeysUpdate(ts, i, BTree(t.key, t.degree, SwapUp(t.children, p[1..])));
    }
  }

  /** Multiset bookkeeping for swapping a parent's key with its child's. */
  lemma {:induction false} SwapRoots(cs: multiset<int>, c: multiset<int>, below: multiset<int>, y: int, x: int)
    requires c == multiset{x} + below && c <= cs
    ensures multiset{x} + (cs - c + (multiset{y} + below)) == multiset{y} + cs
  {
  }

  // ---------------------------------------------------------------------
  // Shapes are kept
  // ---------------------------------------------------------------------

  ghost predicate AllShape(ts: seq<BTree>)
  {
    forall j :: 0 <= j < |ts| ==> Shape(ts[j])
  }

  lemma {:induction false} SetKeyShape(ts: seq<BTree>, p: seq<nat>, k: int)
    requires ValidPath(ts, p) && AllShape(ts)
    ensures AllShape(SetKey(ts, p, k))
    decreases p
  {
    var i, t := p[0], ts[p[0]];
    if |p| > 1 {
      assert Shape(t);
      SetKeyShape(t.children, p[1..], k);
    }
  }

  lemma {:induction false} SwapUpShape(ts: seq<BTree>, p: seq<nat>)
    requires ValidPath(ts, p) && |p| >= 2 && AllShape(ts)
    ensures AllShape(SwapUp(ts, p))
    decreases p
  {
    var i, t := p[0], ts[p[0]];
    assert Shape(t);
    if |p| > 2 {
      SwapUpShape(t.children, p[1..]);
    }
  }

  // ---------------------------------------------------------------------
  // Heap order with one hole
  // ---------------------------------------------------------------------

  /** Every tree of the chain is heap-ordered, and its root is not below
      `up`, the key of the chain's parent (absent for the root list). */
  ghost predicate ChainOrdered(ts: seq<BTree>, up: Option<int>)
  {
    forall j :: 0 <= j < |ts| ==> Ordered(ts[j]) && (up.Some? ==> up.value <= ts[j].key)
  }

  /** Heap order holds everywhere except, possibly, between the node at the
      end of `p` (the hole) and its parent; and the hole's parent is not
      above the hole's children, so that the two keys may be swapped. */
  ghost predicate Hole(ts: seq<BTree>, p: seq<nat>, up: Option<int>)
    decreases p
  {
    ValidPath(ts, p) &&
    (forall j :: 0 <= j < |ts| && j != p[0] ==> Ordered(ts[j]) && (up.Some? ==> up.value <= ts[j].key)) &&
    var t := ts[p[0]];
    if |p| == 1 then
      Ordered(t) && (up.Some? ==> forall m :: 0 <= m < |t.children| ==> up.value <= t.children[m].key)
    else
      (up.Some? ==> up.value <= t.key) && Hole(t.children, p[1..], Some(t.key))
  }

  /** Lowering a key of an ordered chain leaves a hole at its node. */
  lemma {:induction false} SetKeyHole(ts: seq<BTree>, p: seq<nat>, k: int, up: Option<int>)
    requires ValidPath(ts, p) && ChainOrdered(ts, up) && k <= KeyAt(ts, p)
    ensures Hole(SetKey(ts, p, k), p, up)
    decreases p
  {
    var i, t := p[0], ts[p[0]];
    var r := SetKey(ts, p, k);
    assert forall j :: 0 <= j < |ts| && j != i ==> r[j] == ts[j];
    if |p| > 1 {
      assert ChainOrdered(t.children, Some(t.key));
      SetKeyHole(t.children, p[1..], k, Some(t.key));
    }
  }

  /** A swap across the hole moves the hole up to the parent. */
  lemma {:induction false} SwapUpHole(ts: seq<BTree>, p: seq<nat>, up: Option<int>)
    requires Hole(ts, p, up) && |p| >= 2
    requires ValidPath(ts, Parent(p))
    requires KeyAt(ts, p) < KeyAt(ts, Parent(p))
    ensures Hole(SwapUp(ts, p), Parent(p), up)
    decreases p
  {
    var i, t := p[0], ts[p[0]];
    var r := SwapUp(ts, p);
    assert forall j :: 0 <= j < |ts| && j != i ==> r[j] == ts[j];
    if |p| == 2 {
      SwapAtParent(ts, p, up);
    } else {
      ParentValid(ts, p);
      ParentValid(t.children, p[1..]);
      SwapUpHole(t.children, p[1..], Some(t.key));
      assert Parent(p)[1..] == Parent(p[1..]);
      assert r[i].children == SwapUp(t.children, p[1..]);
    }
  }

  /** The swap at the hole's parent itself. */
  lemma {:induction false} SwapAtParent(ts: seq<BTree>, p: seq<nat>, up: Option<int>)
    requires Hole(ts, p, up) && |p| == 2
    requires KeyAt(ts, p) < KeyAt(ts, Parent(p))
    ensures Hole(SwapUp(ts, p), Parent(p), up)
  {
    var i, j := p[0], p[1];
    var t := ts[i];
    var c := t.children[j];
    var c' := BTree(t.key, c.degree, c.children);
    var t' := BTree(c.key, t.degree, t.children[j := c']);
    var r := SwapUp(ts, p);
    assert r == ts[i := t'];
    assert Parent(p) == [i];
    assert Hole(t.children, [j], Some(t.key));
    assert Ordered(c') by {
      assert Ordered(c);
    }
    assert Ordered(t') by {
      forall m | 0 <= m < |t'.children|
        ensures t'.key <= t'.children[m].key && Ordered(t'.children[m])
      {
        if m != j {
          assert t'.children[m] == t.children[m];
        }
      }
    }
  }

  /** When the hole's key is not below its parent's, the chain is ordered. */
  lemma {:induction false} HoleClosed(ts: seq<BTree>, p: seq<nat>, up: Option<int>)
    requires Hole(ts, p, up)
    requires |p| == 1 ==> up.None? || up.value <= KeyAt(ts, p)
    requires |p| >= 2 ==> ValidPath(ts, Parent(p)) && KeyAt(ts, Parent(p)) <= KeyAt(ts, p)
    ensures ChainOrdered(ts, up)
    decreases p
  {
    var i, t := p[0], ts[p[0]];
    if |p| == 2 {
      assert Parent(p) == [i];
      assert Hole(t.children, p[1..], Some(t.key));
    } else if |p| > 2 {
      ParentValid(ts, p);
      HoleClosed(t.children, p[1..], Some(t.key));
    }
  }
}

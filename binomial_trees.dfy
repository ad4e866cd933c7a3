/** Binomial trees as values. A node of binomial_heap.py,
    binomial_heap_advanced.py and rbt_vs_binomial.py has a key, a degree and
    a `child` link whose `sibling` chain lists its children, the most
    recently linked first; here that chain is the sequence `children`. */
module BinomialTrees {
  datatype BTree = BTree(key: int, degree: nat, children: seq<BTree>)

  /** The keys stored in a tree. */
  function Keys(t: BTree): multiset<int>
    decreases t
  {
    multiset{t.key} + ListKeys(t.children)
  }

  /** The keys stored in a sibling chain of trees. */
  function ListKeys(ts: seq<BTree>): multiset<int>
    decreases ts
  {
    if ts == [] then multiset{} else Keys(ts[0]) + ListKeys(ts[1..])
  }

  /** The shape of a binomial tree `B_k`, `k` the degree: `k` children of
      degrees `k - 1, ..., 1, 0` in sibling order. */
  ghost predicate Shape(t: BTree)
    decreases t
  {
    t.degree == |t.children| &&
    forall i :: 0 <= i < |t.children| ==> t.children[i].degree == |t.children| - 1 - i && Shape(t.children[i])
  }

  /** Min-heap order: no child has a smaller key than its parent. */
  ghost predicate Ordered(t: BTree)
    decreases t
  {
    forall i :: 0 <= i < |t.children| ==> t.key <= t.children[i].key && Ordered(t.children[i])
  }

  ghost predicate Binomial(t: BTree)
  {
    Shape(t) && Ordered(t)
  }

  ghost predicate AllBinomial(ts: seq<BTree>)
  {
    forall i :: 0 <= i < |ts| ==> Binomial(ts[i])
  }

  ghost predicate StrictDegrees(ts: seq<BTree>)
  {
    forall i, j :: 0 <= i < j < |ts| ==> ts[i].degree < ts[j].degree
  }

  /** A root list of a valid heap: binomial trees of strictly increasing
      degrees. */
  ghost predicate ValidHeap(ts: seq<BTree>)
  {
    AllBinomial(ts) && StrictDegrees(ts)
  }

  // ---------------------------------------------------------------------
  // Keys of sibling chains
  // ---------------------------------------------------------------------

  lemma {:induction false} ListKeysCons(t: BTree, ts: seq<BTree>)
    ensures ListKeys([t] + ts) == Keys(t) + ListKeys(ts)
  {
    assert ([t] + ts)[1..] == ts;
  }

  lemma {:induction false} ListKeysAppend(a: seq<BTree>, b: seq<BTree>)
    ensures ListKeys(a + b) == ListKeys(a) + ListKeys(b)
    decreases |a|
  {
    if a == [] {
      assert a + b == b;
    } else {
      assert (a + b)[0] == a[0] && (a + b)[1..] == a[1..] + b;
      ListKeysAppend(a[1..], b);
    }
  }

  /** Taking the tree at index `i` out of a chain takes out its keys. */
  lemma {:induction false} ListKeysRemove(ts: seq<BTree>, i: nat)
    requires i < |ts|
    ensures ListKeys(ts) == ListKeys(ts[..i] + ts[i + 1..]) + Keys(ts[i])
  {
    assert ts == ts[..i] + ([ts[i]] + ts[i + 1..]);
    ListKeysAppend(ts[..i], [ts[i]] + ts[i + 1..]);
    ListKeysCons(ts[i], ts[i + 1..]);
    ListKeysAppend(ts[..i], ts[i + 1..]);
  }

  /** The root of a heap-ordered tree holds its least key. */
  lemma {:induction false} RootIsMin(t: BTree)
    requires Ordered(t)
    ensures forall x :: x in Keys(t) ==> t.key <= x
    decreases t
  {
    ChildrenAbove(t.children, t.key);
  }

  /** Every key in a chain of heap-ordered trees whose roots are at least
      `k` is at least `k`. */
  lemma {:induction false} ChildrenAbove(ts: seq<BTree>, k: int)
    requires forall i :: 0 <= i < |ts| ==> k <= ts[i].key && Ordered(ts[i])
    ensures forall x :: x in ListKeys(ts) ==> k <= x
    decreases ts
  {
    if ts != [] {
      RootIsMin(ts[0]);
      ChildrenAbove(ts[1..], k);
    }
  }

  // ---------------------------------------------------------------------
  // Linking two trees
  // ---------------------------------------------------------------------

  /** `merge_tree(t1, t2)`: the root with the larger key becomes the first
      child of the other (`t1` stays on top on equal keys), whose degree
      goes up by one. Two binomial trees of one degree make a binomial
      tree of the next degree. */
  function MergeTree(t1: BTree, t2: BTree): (r: BTree)
    ensures Keys(r) == Keys(t1) + Keys(t2)
    ensures r.key == if t1.key <= t2.key then t1.key else t2.key
    ensures Binomial(t1) && Binomial(t2) && t1.degree == t2.degree ==>
      Binomial(r) && r.degree == t1.degree + 1
  {
    if t1.key > t2.key then
      LinkKeys(t2, t1);
      LinkBinomial(t2, t1);
      BTree(t2.key, t2.degree + 1, [t1] + t2.children)
    else
      LinkKeys(t1, t2);
      LinkBinomial(t1, t2);
      BTree(t1.key, t1.degree + 1, [t2] + t1.children)
  }

  lemma {:induction false} LinkKeys(a: BTree, b: BTree)
    ensures Keys(BTree(a.key, a.degree + 1, [b] + a.children)) == Keys(a) + Keys(b)
  {
    ListKeysCons(b, a.children);
  }

  lemma {:induction false} LinkBinomial(a: BTree, b: BTree)
    requires a.key <= b.key
    ensures Binomial(a) && Binomial(b) && a.degree == b.degree ==>
      Binomial(BTree(a.key, a.degree + 1, [b] + a.children))
  {
    if Binomial(a) && Binomial(b) && a.degree == b.degree {
      var cs := [b] + a.children;
      assert forall i :: 1 <= i < |cs| ==> cs[i] == a.children[i - 1];
    }
  }

  // ---------------------------------------------------------------------
  // Reversing a sibling chain
  // ---------------------------------------------------------------------

  function Reverse(ts: seq<BTree>): (r: seq<BTree>)
    ensures |r| == |ts| && forall i :: 0 <= i < |ts| ==> r[i] == ts[|ts| - 1 - i]
  {
    if ts == [] then [] else Reverse(ts[1..]) + [ts[0]]
  }

  lemma {:induction false} ListKeysReverse(ts: seq<BTree>)
    ensures ListKeys(Reverse(ts)) == ListKeys(ts)
    decreases |ts|
  {
    if ts != [] {
      ListKeysReverse(ts[1..]);
      ListKeysAppend(Reverse(ts[1..]), [ts[0]]);
      ListKeysCons(ts[0], []);
      assert [ts[0]] + [] == [ts[0]];
    }
  }

  /** The children of a binomial tree, reversed, are a valid heap: binomial
      trees of degrees `0, 1, ..., k - 1`, holding the tree's keys but its
      root's. */
  lemma {:induction false} ChildrenHeap(t: BTree)
    requires Binomial(t)
    ensures ValidHeap(Reverse(t.children))
    ensures ListKeys(Reverse(t.children)) == Keys(t) - multiset{t.key}
  {
    var r := Reverse(t.children);
    assert forall i :: 0 <= i < |r| ==> r[i].degree == i;
    ListKeysReverse(t.children);
  }
}

/** The binomial heap of binomial_heap_advanced.py. binomial_heap.py and the
    heap half of rbt_vs_binomial.py hold the same `merge_tree`,
    `merge_root_lists`, `union` and `insert`. The heap object keeps its
    root list, `head`, as a sequence of binomial trees. */
module BinomialHeaps {
  import opened Wrappers
  import opened BinomialTrees
  import opened BinomialPaths

  // ---------------------------------------------------------------------
  // Merging root lists
  // ---------------------------------------------------------------------

  /** The merge of two root lists by degree, taking from `h1` on a tie. */
  function Interleave(h1: seq<BTree>, h2: seq<BTree>): (r: seq<BTree>)
    ensures |r| == |h1| + |h2|
    decreases |h1| + |h2|
  {
    if h1 == [] then h2
    else if h2 == [] then h1
    else if h1[0].degree <= h2[0].degree then [h1[0]] + Interleave(h1[1..], h2)
    else [h2[0]] + Interleave(h1, h2[1..])
  }

  ghost predicate DegreesSorted(ts: seq<BTree>)
  {
    forall i, j :: 0 <= i < j < |ts| ==> ts[i].degree <= ts[j].degree
  }

  /** Every root of both lists is in the merge exactly as often as in the
      lists. */
  lemma {:induction false} InterleaveRoots(h1: seq<BTree>, h2: seq<BTree>)
    ensures multiset(Interleave(h1, h2)) == multiset(h1) + multiset(h2)
    decreases |h1| + |h2|
  {
    if h1 != [] && h2 != [] {
      if h1[0].degree <= h2[0].degree {
        InterleaveRoots(h1[1..], h2);
        assert Interleave(h1, h2) == [h1[0]] + Interleave(h1[1..], h2);
        assert multiset(h1) == multiset{h1[0]} + multiset(h1[1..]) by {
          assert h1 == [h1[0]] + h1[1..];
        }
      } else {
        InterleaveRoots(h1, h2[1..]);
        assert Interleave(h1, h2) == [h2[0]] + Interleave(h1, h2[1..]);
        assert multiset(h2) == multiset{h2[0]} + multiset(h2[1..]) by {
          assert h2 == [h2[0]] + h2[1..];
        }
      }
    }
  }

  lemma {:induction false} InterleaveKeys(h1: seq<BTree>, h2: seq<BTree>)
    ensures ListKeys(Interleave(h1, h2)) == ListKeys(h1) + ListKeys(h2)
    decreases |h1| + |h2|
  {
    if h1 != [] && h2 != [] {
      if h1[0].degree <= h2[0].degree {
        InterleaveKeys(h1[1..], h2);
        ListKeysCons(h1[0], Interleave(h1[1..], h2));
      } else {
        InterleaveKeys(h1, h2[1..]);
        ListKeysCons(h2[0], Interleave(h1, h2[1..]));
      }
    }
  }

  lemma {:induction false} InterleaveAbove(h1: seq<BTree>, h2: seq<BTree>, d: int)
    requires forall i :: 0 <= i < |h1| ==> d <= h1[i].degree
    requires forall i :: 0 <= i < |h2| ==> d <= h2[i].degree
    ensures forall i :: 0 <= i < |Interleave(h1, h2)| ==> d <= Interleave(h1, h2)[i].degree
    decreases |h1| + |h2|
  {
    if h1 != [] && h2 != [] {
      if h1[0].degree <= h2[0].degree {
        InterleaveAbove(h1[1..], h2, d);
      } else {
        InterleaveAbove(h1, h2[1..], d);
      }
    }
  }

  /** Merging lists sorted by degree gives a list sorted by degree. */
  lemma {:induction false} InterleaveSorted(h1: seq<BTree>, h2: seq<BTree>)
    requires DegreesSorted(h1) && DegreesSorted(h2)
    ensures DegreesSorted(Interleave(h1, h2))
    decreases |h1| + |h2|
  {
    if h1 != [] && h2 != [] {
      if h1[0].degree <= h2[0].degree {
        InterleaveSorted(h1[1..], h2);
        InterleaveAbove(h1[1..], h2, h1[0].degree);
      } else {
        InterleaveSorted(h1, h2[1..]);
        InterleaveAbove(h1, h2[1..], h2[0].degree);
      }
    }
  }

  /** The number of trees of degree `d`. */
  function CountDegree(ts: seq<BTree>, d: nat): nat
  {
    if ts == [] then 0 else (if ts[0].degree == d then 1 else 0) + CountDegree(ts[1..], d)
  }

  lemma {:induction false} CountAppend(a: seq<BTree>, b: seq<BTree>, d: nat)
    ensures CountDegree(a + b, d) == CountDegree(a, d) + CountDegree(b, d)
    decreases |a|
  {
    if a == [] {
      assert a + b == b;
    } else {
      assert (a + b)[1..] == a[1..] + b;
      CountAppend(a[1..], b, d);
    }
  }

  lemma {:induction false} InterleaveCount(h1: seq<BTree>, h2: seq<BTree>, d: nat)
    ensures CountDegree(Interleave(h1, h2), d) == CountDegree(h1, d) + CountDegree(h2, d)
    decreases |h1| + |h2|
  {
    if h1 != [] && h2 != [] {
      if h1[0].degree <= h2[0].degree {
        InterleaveCount(h1[1..], h2, d);
        assert ([h1[0]] + Interleave(h1[1..], h2))[1..] == Interleave(h1[1..], h2);
      } else {
        InterleaveCount(h1, h2[1..], d);
        assert ([h2[0]] + Interleave(h1, h2[1..]))[1..] == Interleave(h1, h2[1..]);
      }
    }
  }

  /** A list of strictly increasing degrees has each degree at most once. */
  lemma {:induction false} StrictCount(ts: seq<BTree>, d: nat)
    requires StrictDegrees(ts)
    ensures CountDegree(ts, d) <= 1
    decreases |ts|
  {
    if ts != [] {
      StrictCount(ts[1..], d);
      if ts[0].degree == d {
        AboveCount(ts[1..], d);
      }
    }
  }

  lemma {:induction false} AboveCount(ts: seq<BTree>, d: nat)
    requires forall i :: 0 <= i < |ts| ==> d < ts[i].degree
    ensures CountDegree(ts, d) == 0
    decreases |ts|
  {
    if ts != [] {
      AboveCount(ts[1..], d);
    }
  }

  /** No degree occurs three times: two places apart, degrees differ. */
  ghost predicate AtMostTwice(ts: seq<BTree>)
  {
    forall i :: 0 <= i < |ts| - 2 ==> ts[i].degree < ts[i + 2].degree
  }

  /** The merge of two valid root lists has each degree at most twice. */
  lemma {:induction false} InterleaveAtMostTwice(h1: seq<BTree>, h2: seq<BTree>)
    requires StrictDegrees(h1) && StrictDegrees(h2)
    ensures AtMostTwice(Interleave(h1, h2))
  {
    var r := Interleave(h1, h2);
    InterleaveSorted(h1, h2);
    forall i | 0 <= i < |r| - 2 ensures r[i].degree < r[i + 2].degree {
      if r[i].degree == r[i + 2].degree {
        var d := r[i].degree;
        var s := r[i..i + 3];
        assert s[0].degree == d && s[1].degree == d && s[2].degree == d;
        ThreeCount(s, d);
        assert r == (r[..i] + s) + r[i + 3..];
        CountAppend(r[..i] + s, r[i + 3..], d);
        CountAppend(r[..i], s, d);
        StrictCount(h1, d);
        StrictCount(h2, d);
        InterleaveCount(h1, h2, d);
        assert false;
      }
    }
  }

  lemma {:induction false} ThreeCount(s: seq<BTree>, d: nat)
    requires |s| == 3 && s[0].degree == d && s[1].degree == d && s[2].degree == d
    ensures CountDegree(s, d) == 3
  {
    assert s[1..][1..][1..] == [];
    assert CountDegree(s[1..][1..], d) == 1 + CountDegree(s[1..][1..][1..], d);
  }

  /** `merge_root_lists(h1, h2)`: an empty list gives the other one back;
      otherwise the loop appends the root of lower degree (`h1`'s on a
      tie), then whatever is left of `h1`, then of `h2`. */
  method MergeRootLists(h1: seq<BTree>, h2: seq<BTree>) returns (r: seq<BTree>)
    ensures r == Interleave(h1, h2)
  {
    if h1 == [] {
      return h2;
    }
    if h2 == [] {
      return h1;
    }
    r := [];
    var i, j := 0, 0;
    while i < |h1| && j < |h2|
      invariant 0 <= i <= |h1| && 0 <= j <= |h2|
      invariant r + Interleave(h1[i..], h2[j..]) == Interleave(h1, h2)
      decreases |h1| - i + |h2| - j
    {
      InterleaveStep(h1, h2, i, j, r);
      if h1[i].degree <= h2[j].degree {
        r := r + [h1[i]];
        i := i + 1;
      } else {
        r := r + [h2[j]];
        j := j + 1;
      }
    }
    while i < |h1|
      invariant 0 <= i <= |h1| && (i < |h1| ==> j == |h2|)
      invariant r + Interleave(h1[i..], h2[j..]) == Interleave(h1, h2)
    {
      LeftoverStep(h1, h2, i, j, r);
      r := r + [h1[i]];
      i := i + 1;
    }
    while j < |h2|
      invariant 0 <= j <= |h2| && i == |h1|
      invariant r + Interleave(h1[i..], h2[j..]) == Interleave(h1, h2)
    {
      LeftoverStep(h1, h2, i, j, r);
      r := r + [h2[j]];
      j := j + 1;
    }
    assert h1[i..] == [] && h2[j..] == [];
  }

  lemma {:induction false} InterleaveStep(h1: seq<BTree>, h2: seq<BTree>, i: nat, j: nat, done: seq<BTree>)
    requires i < |h1| && j < |h2|
    requires done + Interleave(h1[i..], h2[j..]) == Interleave(h1, h2)
    ensures h1[i].degree <= h2[j].degree ==> (done + [h1[i]]) + Interleave(h1[i + 1..], h2[j..]) == Interleave(h1, h2)
    ensures h2[j].degree < h1[i].degree ==> (done + [h2[j]]) + Interleave(h1[i..], h2[j + 1..]) == Interleave(h1, h2)
  {
    assert h1[i..][1..] == h1[i + 1..] && h2[j..][1..] == h2[j + 1..];
  }

  /** Once one list is used up, the other is copied over one root at a time. */
  lemma {:induction false} LeftoverStep(h1: seq<BTree>, h2: seq<BTree>, i: nat, j: nat, done: seq<BTree>)
    requires i <= |h1| && j <= |h2| && (i == |h1| || j == |h2|)
    requires done + Interleave(h1[i..], h2[j..]) == Interleave(h1, h2)
    ensures i < |h1| ==> (done + [h1[i]]) + Interleave(h1[i + 1..], h2[j..]) == Interleave(h1, h2)
    ensures j < |h2| ==> (done + [h2[j]]) + Interleave(h1[i..], h2[j + 1..]) == Interleave(h1, h2)
  {
    if i < |h1| {
      assert h2[j..] == [];
      assert h1[i..] == [h1[i]] + h1[i + 1..];
    }
    if j < |h2| {
      assert h1[i..] == [];
      assert h2[j..] == [h2[j]] + h2[j + 1..];
    }
  }

  // ---------------------------------------------------------------------
  // The union loop
  // ---------------------------------------------------------------------

  /** What the union loop keeps when both heaps are valid: the roots before
      `curr` are done (strictly increasing degrees), `curr` and the rest
      are sorted by degree with no degree three times in the rest, and a
      done root as large as `curr` is only allowed when `curr` is about to
      be linked with the next root. */
  ghost predicate UnionInvariant(done: seq<BTree>, curr: BTree, rest: seq<BTree>)
  {
    AllBinomial(done) && Binomial(curr) && AllBinomial(rest) &&
    StrictDegrees(done) && DegreesSorted(rest) && AtMostTwice(rest) &&
    (rest != [] ==> curr.degree <= rest[0].degree) &&
    (done != [] ==>
      done[|done| - 1].degree < curr.degree ||
      (done[|done| - 1].degree == curr.degree && rest != [] && rest[0].degree == curr.degree &&
       (|rest| == 1 || curr.degree < rest[1].degree)))
  }

  /** The merged list of two valid heaps starts the loop. */
  lemma {:induction false} UnionStart(h1: seq<BTree>, h2: seq<BTree>)
    requires ValidHeap(h1) && ValidHeap(h2) && Interleave(h1, h2) != []
    ensures UnionInvariant([], Interleave(h1, h2)[0], Interleave(h1, h2)[1..])
  {
    var m := Interleave(h1, h2);
    InterleaveSorted(h1, h2);
    InterleaveAtMostTwice(h1, h2);
    InterleaveRoots(h1, h2);
    forall i | 0 <= i < |m| ensures Binomial(m[i]) {
      assert m[i] in multiset(h1) + multiset(h2);
    }
  }

  /** `prev = curr; curr = next`: taken when the degrees differ, or when
      three roots in a row share a degree. */
  lemma {:induction false} UnionAdvance(done: seq<BTree>, curr: BTree, rest: seq<BTree>)
    requires UnionInvariant(done, curr, rest) && rest != []
    requires curr.degree != rest[0].degree || (|rest| > 1 && rest[1].degree == curr.degree)
    ensures UnionInvariant(done + [curr], rest[0], rest[1..])
  {
    var done' := done + [curr];
    assert done'[|done'| - 1] == curr;
  }

  /** Linking `curr` with the next root of the same degree, either way. */
  lemma {:induction false} UnionLink(done: seq<BTree>, curr: BTree, rest: seq<BTree>)
    requires UnionInvariant(done, curr, rest) && rest != []
    requires curr.degree == rest[0].degree && !(|rest| > 1 && rest[1].degree == curr.degree)
    ensures curr.key <= rest[0].key ==> UnionInvariant(done, MergeTree(curr, rest[0]), rest[1..])
    ensures curr.key > rest[0].key ==> UnionInvariant(done, MergeTree(rest[0], curr), rest[1..])
  {
  }

  /** When no root is left, the done roots and `curr` form a valid heap. */
  lemma {:induction false} UnionEnd(done: seq<BTree>, curr: BTree)
    requires UnionInvariant(done, curr, [])
    ensures ValidHeap(done + [curr])
  {
    var r := done + [curr];
    assert forall i :: 0 <= i < |done| ==> r[i] == done[i];
  }

  lemma {:induction false} AppendKeys(done: seq<BTree>, curr: BTree)
    ensures ListKeys(done + [curr]) == ListKeys(done) + Keys(curr)
  {
    ListKeysAppend(done, [curr]);
    ListKeysCons(curr, []);
    assert [curr] + [] == [curr];
  }

  /** Each step of the union loop keeps the keys of `done`, `curr` and
      `rest` together. */
  lemma {:induction false} UnionStepKeys(done: seq<BTree>, curr: BTree, rest: seq<BTree>)
    requires rest != []
    ensures ListKeys(done + [curr]) + Keys(rest[0]) + ListKeys(rest[1..]) ==
      ListKeys(done) + Keys(curr) + ListKeys(rest)
    ensures ListKeys(done) + Keys(MergeTree(curr, rest[0])) + ListKeys(rest[1..]) ==
      ListKeys(done) + Keys(curr) + ListKeys(rest)
    ensures ListKeys(done) + Keys(MergeTree(rest[0], curr)) + ListKeys(rest[1..]) ==
      ListKeys(done) + Keys(curr) + ListKeys(rest)
  {
    assert rest == [rest[0]] + rest[1..];
    ListKeysCons(rest[0], rest[1..]);
    AppendKeys(done, curr);
  }

  /** The walk of `union` over the merged root list: two neighbouring roots
      of one degree are linked, the smaller key on top, unless a third root
      of that degree follows, in which case the walk moves on first. */
  method LinkRoots(merged: seq<BTree>) returns (r: seq<BTree>)
    requires merged != []
    ensures r != [] && ListKeys(r) == ListKeys(merged)
    ensures UnionInvariant([], merged[0], merged[1..]) ==> ValidHeap(r)
  {
    ghost var valid := UnionInvariant([], merged[0], merged[1..]);
    var done: seq<BTree> := [];
    var curr := merged[0];
    var rest := merged[1..];
    assert merged == [curr] + rest;
    ListKeysCons(curr, rest);
    assert ListKeys(done) == multiset{};
    while rest != []
      invariant ListKeys(done) + Keys(curr) + ListKeys(rest) == ListKeys(merged)
      invariant valid ==> UnionInvariant(done, curr, rest)
      decreases |rest|
    {
      var next := rest[0];
      UnionStepKeys(done, curr, rest);
      if curr.degree != next.degree || (|rest| > 1 && rest[1].degree == curr.degree) {
        if valid {
          UnionAdvance(done, curr, rest);
        }
        done := done + [curr];
        curr := next;
      } else if curr.key <= next.key {
        if valid {
          UnionLink(done, curr, rest);
        }
        curr := MergeTree(curr, next);
      } else {
        if valid {
          UnionLink(done, curr, rest);
        }
        curr := MergeTree(next, curr);
      }
      rest := rest[1..];
    }
    if valid {
      UnionEnd(done, curr);
    }
    AppendKeys(done, curr);
    r := done + [curr];
  }

  // ---------------------------------------------------------------------
  // The heap object
  // ---------------------------------------------------------------------

  class BinomialHeap {
    /** The root list; `[]` is `head is None`. */
    var head: seq<BTree>

    /** `__init__`: an empty heap. */
    constructor ()
      ensures head == []
    {
      head := [];
    }

    /** `union(h2)`: the root lists are merged by degree; walking it, two
        neighbouring roots of one degree are linked (the smaller key on top)
        unless a third root of that degree follows, in which case the walk
        moves on first. Keys are kept and two valid heaps give a valid
        heap; two empty heaps leave `head` empty. */
    method Union(other: BinomialHeap)
      modifies this
      ensures ListKeys(head) == ListKeys(old(head)) + ListKeys(old(other.head))
      ensures ValidHeap(old(head)) && ValidHeap(old(other.head)) ==> ValidHeap(head)
      ensures old(head) == [] && old(other.head) == [] ==> head == []
    {
      var h1, h2 := head, other.head;
      var merged := MergeRootLists(h1, h2);
      InterleaveKeys(h1, h2);
      if merged == [] {
        return;
      }
      if ValidHeap(h1) && ValidHeap(h2) {
        UnionStart(h1, h2);
      }
      head := LinkRoots(merged);
    }

    /** `insert(key)`: the union with a one-node heap. */
    method Insert(key: int)
      modifies this
      ensures ListKeys(head) == ListKeys(old(head)) + multiset{key}
      ensures ValidHeap(old(head)) ==> ValidHeap(head)
    {
      var single := new BinomialHeap();
      single.head := [BTree(key, 0, [])];
      ListKeysCons(BTree(key, 0, []), []);
      assert [BTree(key, 0, [])] + [] == [BTree(key, 0, [])];
      Union(single);
    }

    /** `get_min_node()`: the index of the first root of least key and of
        the root before it (`None` when it is the head); both `None` on an
        empty heap. */
    method GetMinNode() returns (minPrev: Option<nat>, minNode: Option<nat>)
      ensures head == [] ==> minPrev == None && minNode == None
      ensures head != [] ==> minNode.Some? && minNode.value < |head|
      ensures head != [] ==> forall j :: 0 <= j < |head| ==> head[minNode.value].key <= head[j].key
      ensures head != [] ==> forall j :: 0 <= j < minNode.value ==> head[minNode.value].key < head[j].key
      ensures head != [] ==> minPrev == if minNode.value == 0 then None else Some(minNode.value - 1)
    {
      if head == [] {
        return None, None;
      }
      var m := 0;
      minPrev := None;
      var i := 1;
      while i < |head|
        invariant 1 <= i <= |head| && 0 <= m < i
        invariant forall j :: 0 <= j < i ==> head[m].key <= head[j].key
        invariant forall j :: 0 <= j < m ==> head[m].key < head[j].key
        invariant minPrev == if m == 0 then None else Some(m - 1)
      {
        if head[i].key < head[m].key {
          m := i;
          minPrev := Some(i - 1);
        }
        i := i + 1;
      }
      minNode := Some(m);
    }

    /** `extract_min()`: `None` on an empty heap. Otherwise the first root of
        least key is unlinked, its children reversed into a root list of
        increasing degrees, and that list united with the heap; its key is
        returned. On a valid heap that key is the least of all. */
    method ExtractMin() returns (k: Option<int>)
      modifies this
      ensures old(head) == [] ==> k == None && head == old(head)
      ensures old(head) != [] ==>
        k.Some? && k.value in ListKeys(old(head)) && ListKeys(head) == ListKeys(old(head)) - multiset{k.value}
      ensures old(head) != [] && ValidHeap(old(head)) ==>
        (forall x :: x in ListKeys(old(head)) ==> k.value <= x) && ValidHeap(head)
    {
      if head == [] {
        return None;
      }
      var minPrev, minNode := GetMinNode();
      var i := minNode.value;
      var node := head[i];
      ghost var h0 := head;
      if ValidHeap(h0) {
        RootsAbove(h0, i);
      }
      ExtractParts(h0, i);
      head := head[..i] + head[i + 1..];
      var newHead := ReverseChildren(node.children);
      var rest := new BinomialHeap();
      rest.head := newHead;
      Union(rest);
      return Some(node.key);
    }

    /** `decrease_key(old_key, new_key)`: nothing happens when the new key
        is larger or the old key is absent. Otherwise the first node holding
        the old key (in `find` order) gets the new key, which is swapped
        with its parent's while it is smaller: one occurrence of the old key
        becomes the new key, and a valid heap stays valid. */
    method DecreaseKey(oldKey: int, newKey: int)
      modifies this
      ensures newKey > oldKey || oldKey !in ListKeys(old(head)) ==> head == old(head)
      ensures newKey <= oldKey && oldKey in ListKeys(old(head)) ==>
        ListKeys(head) == ListKeys(old(head)) - multiset{oldKey} + multiset{newKey}
      ensures ValidHeap(old(head)) ==> ValidHeap(head)
    {
      if newKey > oldKey {
        return;
      }
      var found := Find(head, oldKey);
      if found.None? {
        return;
      }
      var p := found.value;
      ghost var h0 := head;
      SetKeyKeys(head, p, newKey);
      if ValidHeap(h0) {
        assert ChainOrdered(head, None);
        SetKeyHole(head, p, newKey, None);
        SetKeyShape(head, p, newKey);
      }
      var h1 := SetKey(head, p, newKey);
      head := SiftUp(h1, p);
      if ValidHeap(h0) {
        SameDegrees(h0, head);
      }
    }
  }

  /** The loop of `decrease_key`: while the node at `p` has a parent with a
      larger key, the two keys are swapped and `p` moves up. Keys and root
      degrees are kept; when `p` is the only place heap order may fail, the
      result is heap-ordered. */
  method SiftUp(ts: seq<BTree>, p: seq<nat>) returns (r: seq<BTree>)
    requires ValidPath(ts, p)
    ensures ListKeys(r) == ListKeys(ts)
    ensures |r| == |ts| && forall j :: 0 <= j < |ts| ==> r[j].degree == ts[j].degree
    ensures AllShape(ts) && Hole(ts, p, None) ==> AllShape(r) && ChainOrdered(r, None)
  {
    ghost var valid := AllShape(ts) && Hole(ts, p, None);
    r := ts;
    var q := p;
    if |q| > 1 {
      ParentValid(r, q);
    }
    while |q| > 1 && KeyAt(r, q) < KeyAt(r, Parent(q))
      invariant ValidPath(r, q)
      invariant |q| > 1 ==> ValidPath(r, Parent(q))
      invariant ListKeys(r) == ListKeys(ts)
      invariant |r| == |ts| && forall j :: 0 <= j < |ts| ==> r[j].degree == ts[j].degree
      invariant valid ==> AllShape(r) && Hole(r, q, None)
      decreases |q|
    {
      SwapUpKeys(r, q);
      if valid {
        SwapUpHole(r, q, None);
        SwapUpShape(r, q);
      }
      r := SwapUp(r, q);
      ParentValid(r, q);
      q := Parent(q);
      if |q| > 1 {
        ParentValid(r, q);
      }
    }
    if valid {
      HoleClosed(r, q, None);
    }
  }

  /** The loop of `extract_min` that walks the children of the removed root,
      pushing each onto the front of a new root list. */
  method ReverseChildren(cs: seq<BTree>) returns (r: seq<BTree>)
    ensures r == Reverse(cs)
  {
    var child := cs;
    r := [];
    while child != []
      invariant |child| <= |cs|
      invariant child == cs[|cs| - |child|..]
      invariant r == Reverse(cs[..|cs| - |child|])
      decreases |child|
    {
      ReversePrepend(cs, |cs| - |child|);
      r := [child[0]] + r;
      child := child[1..];
    }
    assert cs[..|cs|] == cs;
  }

  /** Unlinking root `i` and reversing its children gives two root lists
      holding every key but one copy of that root's; both are valid heaps
      when the heap was. */
  lemma {:induction false} ExtractParts(h: seq<BTree>, i: nat)
    requires i < |h|
    ensures h[i].key in ListKeys(h)
    ensures ListKeys(h[..i] + h[i + 1..]) + ListKeys(Reverse(h[i].children)) ==
      ListKeys(h) - multiset{h[i].key}
    ensures ValidHeap(h) ==> ValidHeap(h[..i] + h[i + 1..]) && ValidHeap(Reverse(h[i].children))
  {
    ListKeysRemove(h, i);
    ListKeysReverse(h[i].children);
    if ValidHeap(h) {
      RemoveKeepsValid(h, i);
      ChildrenHeap(h[i]);
    }
  }

  /** Every root of a valid heap has a key at least that of a root of
      least key, and so has every key of the heap. */
  lemma {:induction false} RootsAbove(h: seq<BTree>, m: nat)
    requires ValidHeap(h) && m < |h|
    requires forall j :: 0 <= j < |h| ==> h[m].key <= h[j].key
    ensures forall x :: x in ListKeys(h) ==> h[m].key <= x
  {
    forall x | x in ListKeys(h) ensures h[m].key <= x {
      var j := ListKeysMember(h, x);
      RootIsMin(h[j]);
    }
  }

  /** A key of a chain lies in one of its trees. */
  lemma {:induction false} ListKeysMember(ts: seq<BTree>, x: int) returns (j: nat)
    requires x in ListKeys(ts)
    ensures j < |ts| && x in Keys(ts[j])
    decreases |ts|
  {
    if x in Keys(ts[0]) {
      j := 0;
    } else {
      var j' := ListKeysMember(ts[1..], x);
      j := j' + 1;
    }
  }

  /** Unlinking a root keeps a heap valid. */
  lemma {:induction false} RemoveKeepsValid(h: seq<BTree>, i: nat)
    requires ValidHeap(h) && i < |h|
    ensures ValidHeap(h[..i] + h[i + 1..])
  {
    var r := h[..i] + h[i + 1..];
    assert forall j :: 0 <= j < |r| ==> r[j] == if j < i then h[j] else h[j + 1];
  }

  /** Reversing one more child onto the front. */
  lemma {:induction false} ReversePrepend(cs: seq<BTree>, n: nat)
    requires n < |cs|
    ensures Reverse(cs[..n + 1]) == [cs[n]] + Reverse(cs[..n])
  {
    var a, b := Reverse(cs[..n + 1]), [cs[n]] + Reverse(cs[..n]);
    assert |a| == |b|;
    forall j | 0 <= j < |a| ensures a[j] == b[j] {
      if j > 0 {
        assert b[j] == Reverse(cs[..n])[j - 1];
      }
    }
  }

  /** A root list with the same degrees, all of binomial shape and heap
      order, is a valid heap again. */
  lemma {:induction false} SameDegrees(h0: seq<BTree>, h: seq<BTree>)
    requires ValidHeap(h0) && |h| == |h0| && forall j :: 0 <= j < |h0| ==> h[j].degree == h0[j].degree
    requires AllShape(h) && ChainOrdered(h, None)
    ensures ValidHeap(h)
  {
  }
}

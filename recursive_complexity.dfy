/** recursive_complexity.py: merge sort with its `merge` loop, a three-way
    quick sort around the middle element, and insertion into an unbalanced
    binary search tree whose equal keys go right. */
module RecursiveComplexity {
  import opened Sequences

  // ---------------------------------------------------------------------
  // Merge sort
  // ---------------------------------------------------------------------

  /** The merge of `L` and `R` that takes the head of `L` while it is not
      greater than the head of `R` (so equal elements of `L` come first). */
  function Merged(L: seq<int>, R: seq<int>): (r: seq<int>)
    ensures |r| == |L| + |R|
    decreases |L| + |R|
  {
    if L == [] then R
    else if R == [] then L
    else if L[0] <= R[0] then [L[0]] + Merged(L[1..], R)
    else [R[0]] + Merged(L, R[1..])
  }

  /** A merge loses and adds nothing. */
  lemma {:induction false} MergedPermutes(L: seq<int>, R: seq<int>)
    ensures multiset(Merged(L, R)) == multiset(L) + multiset(R)
    decreases |L| + |R|
  {
    if L != [] && R != [] {
      if L[0] <= R[0] {
        MergedPermutes(L[1..], R);
        assert Merged(L, R) == [L[0]] + Merged(L[1..], R);
        assert multiset(L) == multiset{L[0]} + multiset(L[1..]) by {
          assert L == [L[0]] + L[1..];
        }
      } else {
        MergedPermutes(L, R[1..]);
        assert Merged(L, R) == [R[0]] + Merged(L, R[1..]);
        assert multiset(R) == multiset{R[0]} + multiset(R[1..]) by {
          assert R == [R[0]] + R[1..];
        }
      }
    }
  }

  /** A bound below both lists is a bound below their merge. */
  lemma {:induction false} MergedAbove(L: seq<int>, R: seq<int>, h: int)
    requires forall i :: 0 <= i < |L| ==> h <= L[i]
    requires forall i :: 0 <= i < |R| ==> h <= R[i]
    ensures forall i :: 0 <= i < |Merged(L, R)| ==> h <= Merged(L, R)[i]
    decreases |L| + |R|
  {
    if L != [] && R != [] {
      if L[0] <= R[0] {
        MergedAbove(L[1..], R, h);
      } else {
        MergedAbove(L, R[1..], h);
      }
    }
  }

  /** The merge of sorted lists is sorted. */
  lemma {:induction false} MergedSorted(L: seq<int>, R: seq<int>)
    requires Sorted(L) && Sorted(R)
    ensures Sorted(Merged(L, R))
    decreases |L| + |R|
  {
    if L != [] && R != [] {
      if L[0] <= R[0] {
        MergedSorted(L[1..], R);
        MergedAbove(L[1..], R, L[0]);
        SortedCons(L[0], Merged(L[1..], R));
      } else {
        MergedSorted(L, R[1..]);
        MergedAbove(L, R[1..], R[0]);
        SortedCons(R[0], Merged(L, R[1..]));
      }
    }
  }

  /** `merge`: the loop appends the smaller head, `L`'s on a tie, then the
      leftovers of both lists. */
  method Merge(L: seq<int>, R: seq<int>) returns (result: seq<int>)
    ensures result == Merged(L, R)
  {
    result := [];
    var i, j := 0, 0;
    while i < |L| && j < |R|
      invariant 0 <= i <= |L| && 0 <= j <= |R|
      invariant result + Merged(L[i..], R[j..]) == Merged(L, R)
      decreases |L| - i + |R| - j
    {
      MergedStep(L, R, i, j, result);
      if L[i] <= R[j] {
        result := result + [L[i]];
        i := i + 1;
      } else {
        result := result + [R[j]];
        j := j + 1;
      }
    }
    MergedLeftover(L, R, i, j, result);
    result := result + L[i..] + R[j..];
  }

  /** One turn of the loop keeps what is still to come equal to the merge
      of what is left. */
  lemma {:induction false} MergedStep(L: seq<int>, R: seq<int>, i: nat, j: nat, done: seq<int>)
    requires i < |L| && j < |R|
    requires done + Merged(L[i..], R[j..]) == Merged(L, R)
    ensures L[i] <= R[j] ==> (done + [L[i]]) + Merged(L[i + 1..], R[j..]) == Merged(L, R)
    ensures R[j] < L[i] ==> (done + [R[j]]) + Merged(L[i..], R[j + 1..]) == Merged(L, R)
  {
    assert L[i..][1..] == L[i + 1..] && R[j..][1..] == R[j + 1..];
    if L[i] <= R[j] {
      assert Merged(L[i..], R[j..]) == [L[i]] + Merged(L[i + 1..], R[j..]);
    } else {
      assert Merged(L[i..], R[j..]) == [R[j]] + Merged(L[i..], R[j + 1..]);
    }
  }

  /** Once one list is used up, the rest of the other follows unchanged. */
  lemma {:induction false} MergedLeftover(L: seq<int>, R: seq<int>, i: nat, j: nat, done: seq<int>)
    requires i <= |L| && j <= |R| && (i == |L| || j == |R|)
    requires done + Merged(L[i..], R[j..]) == Merged(L, R)
    ensures done + L[i..] + R[j..] == Merged(L, R)
  {
    if i == |L| {
      assert L[i..] == [];
    } else {
      assert R[j..] == [];
    }
  }

  /** `merge_sort`: lists of at most one element come back as they are;
      longer ones are split at `len // 2`. */
  function MergeSort(arr: seq<int>): (r: seq<int>)
    ensures Sorted(r) && multiset(r) == multiset(arr)
    ensures |arr| <= 1 ==> r == arr
    decreases |arr|
  {
    if |arr| <= 1 then arr
    else
      var mid := |arr| / 2;
      assert arr == arr[..mid] + arr[mid..];
      var L, R := MergeSort(arr[..mid]), MergeSort(arr[mid..]);
      MergedPermutes(L, R);
      MergedSorted(L, R);
      Merged(L, R)
  }

  // ---------------------------------------------------------------------
  // Quick sort with a three-way split
  // ---------------------------------------------------------------------

  /** `quick_sort`: the middle element is the pivot; the elements below,
      equal to and above it are split off by three comprehensions. */
  function QuickSort(arr: seq<int>): (r: seq<int>)
    ensures Sorted(r) && multiset(r) == multiset(arr)
    decreases |arr|
  {
    if |arr| <= 1 then arr
    else
      var pivot := arr[|arr| / 2];
      ThreeWayShorter(arr, pivot);
      var l, rt := QuickSort(Where(arr, Below, pivot)), QuickSort(Where(arr, Above, pivot));
      ThreeWayJoin(arr, pivot, l, rt);
      l + Where(arr, Equal, pivot) + rt
  }

  /** Around an element of the list, the parts below and above it are
      shorter than the list. */
  lemma {:induction false} ThreeWayShorter(arr: seq<int>, pivot: int)
    requires pivot in arr
    ensures |Where(arr, Below, pivot)| < |arr| && |Where(arr, Above, pivot)| < |arr|
  {
    var left, mid, right := Where(arr, Below, pivot), Where(arr, Equal, pivot), Where(arr, Above, pivot);
    SplitThreeWays(arr, pivot);
    assert multiset(mid)[pivot] == multiset(arr)[pivot] > 0;
    assert |multiset(left)| + |multiset(mid)| + |multiset(right)| == |multiset(arr)|;
  }

  /** Sorted permutations of the parts below and above the pivot, around
      the elements equal to it, make a sorted permutation of the list. */
  lemma {:induction false} ThreeWayJoin(arr: seq<int>, pivot: int, l: seq<int>, rt: seq<int>)
    requires Sorted(l) && multiset(l) == multiset(Where(arr, Below, pivot))
    requires Sorted(rt) && multiset(rt) == multiset(Where(arr, Above, pivot))
    ensures Sorted(l + Where(arr, Equal, pivot) + rt)
    ensures multiset(l + Where(arr, Equal, pivot) + rt) == multiset(arr)
  {
    var mid := Where(arr, Equal, pivot);
    SplitThreeWays(arr, pivot);
    AllHold(l, arr, Below, pivot);
    AllHold(mid, arr, Equal, pivot);
    AllHold(rt, arr, Above, pivot);
    SortedJoin(l, mid);
    SortedJoin(l + mid, rt);
  }

  /** Merge sort and quick sort return the same list. */
  lemma {:induction false} SortsAgree(arr: seq<int>)
    ensures MergeSort(arr) == QuickSort(arr)
  {
    SortedUnique(MergeSort(arr), QuickSort(arr));
  }

  // ---------------------------------------------------------------------
  // Binary search tree insertion
  // ---------------------------------------------------------------------

  ghost predicate AllBelow(s: seq<int>, k: int)
  {
    forall i :: 0 <= i < |s| ==> s[i] < k
  }

  ghost predicate AllAtLeast(s: seq<int>, k: int)
  {
    forall i :: 0 <= i < |s| ==> k <= s[i]
  }

  /** `Node`: a key and two optional children. The ghost fields give the
      nodes of the subtree and its keys in order. */
  class Node {
    var key: int
    var left: Node?
    var right: Node?
    ghost var Repr: set<object>
    ghost var Keys: seq<int>

    /** The subtree is a tree, keys left of a node are below it, keys right
        of it are at least it, and `Keys` is the in-order walk. */
    ghost predicate Valid()
      reads this, Repr
      decreases Repr
    {
      this in Repr &&
      (left != null ==>
        left in Repr && left.Repr <= Repr && this !in left.Repr && left.Valid() &&
        AllBelow(left.Keys, key)) &&
      (right != null ==>
        right in Repr && right.Repr <= Repr && this !in right.Repr && right.Valid() &&
        AllAtLeast(right.Keys, key)) &&
      (left != null && right != null ==> left.Repr !! right.Repr) &&
      Keys == KeysOf(left) + [key] + KeysOf(right)
    }

    /** `Node(key)`. */
    constructor (k: int)
      ensures Valid() && fresh(Repr)
      ensures key == k && left == null && right == null && Keys == [k]
    {
      key, left, right := k, null, null;
      Repr := {this};
      Keys := [k];
    }
  }

  /** The in-order walk of an optional subtree. */
  ghost function KeysOf(n: Node?): seq<int>
    reads n
  {
    if n == null then [] else n.Keys
  }

  /** The in-order walk of a valid tree is sorted. */
  lemma {:induction false} ValidSorted(n: Node)
    requires n.Valid()
    ensures Sorted(n.Keys)
    decreases n.Repr
  {
    var l, r := KeysOf(n.left), KeysOf(n.right);
    if n.left != null {
      ValidSorted(n.left);
    }
    if n.right != null {
      ValidSorted(n.right);
    }
    SortedJoin(l, [n.key]);
    SortedJoin(l + [n.key], r);
  }

  /** `bst_insert`: an empty tree becomes one fresh node; otherwise the key
      goes down the left side when it is below the node's key and down the
      right side when not, and the root is returned. Its in-order walk gains
      the key behind every key not greater than it. */
  method BstInsert(root: Node?, key: int) returns (r: Node)
    requires root != null ==> root.Valid()
    modifies if root != null then root.Repr else {}
    ensures r.Valid()
    ensures root == null ==> fresh(r.Repr) && r.Keys == [key] && r.left == null && r.right == null
    ensures root != null ==> r == root && fresh(r.Repr - old(root.Repr))
    ensures root != null ==> r.Keys == InsertAfterEquals(old(root.Keys), key)
    decreases if root != null then root.Repr else {}, 1
  {
    if root == null {
      r := new Node(key);
    } else if key < root.key {
      InsertLeft(root, key);
      r := root;
    } else {
      InsertRight(root, key);
      r := root;
    }
  }

  /** `root.left = bst_insert(root.left, key)` for a key below `root.key`. */
  method InsertLeft(root: Node, key: int)
    requires root.Valid() && key < root.key
    modifies root.Repr
    ensures root.Valid() && fresh(root.Repr - old(root.Repr))
    ensures root.Keys == InsertAfterEquals(old(root.Keys), key)
    decreases root.Repr, 0
  {
    ghost var lk, rk := KeysOf(root.left), KeysOf(root.right);
    var sub := BstInsert(root.left, key);
    assert AllBelow(sub.Keys, root.key) by {
      InsertAfterEqualsBelow(lk, key, root.key);
    }
    assert sub.Keys + [root.key] + rk == InsertAfterEquals(lk + [root.key] + rk, key) by {
      InsertBefore(lk, root.key, rk, key);
    }
    assert KeysOf(root.right) == rk;
    Relink(root, sub, Left);
  }

  /** `root.right = bst_insert(root.right, key)` for a key not below
      `root.key`. */
  method InsertRight(root: Node, key: int)
    requires root.Valid() && root.key <= key
    modifies root.Repr
    ensures root.Valid() && fresh(root.Repr - old(root.Repr))
    ensures root.Keys == InsertAfterEquals(old(root.Keys), key)
    decreases root.Repr, 0
  {
    ghost var lk, rk := KeysOf(root.left), KeysOf(root.right);
    var sub := BstInsert(root.right, key);
    assert AllAtLeast(sub.Keys, root.key) by {
      InsertAfterEqualsAbove(rk, key, root.key);
    }
    assert lk + [root.key] + sub.Keys == InsertAfterEquals(lk + [root.key] + rk, key) by {
      InsertAfter(lk, root.key, rk, key);
    }
    assert KeysOf(root.left) == lk;
    Relink(root, sub, Right);
  }

  datatype Side = Left | Right

  /** The assignment of the new subtree to `root.left` or `root.right`,
      with the ghost bookkeeping that follows it. */
  method Relink(root: Node, sub: Node, side: Side)
    requires root in root.Repr && sub.Valid() && root !in sub.Repr
    requires side == Left ==> AllBelow(sub.Keys, root.key)
    requires side == Right ==> AllAtLeast(sub.Keys, root.key)
    requires var other := if side == Left then root.right else root.left;
      other != null ==>
        other in root.Repr && other.Repr <= root.Repr && root !in other.Repr && other.Valid() &&
        other.Repr !! sub.Repr &&
        (if side == Left then AllAtLeast(other.Keys, root.key) else AllBelow(other.Keys, root.key))
    modifies root
    ensures root.Valid() && root.Repr == old(root.Repr) + sub.Repr && root.key == old(root.key)
    ensures side == Left ==> root.left == sub && root.Keys == sub.Keys + [root.key] + old(KeysOf(root.right))
    ensures side == Right ==> root.right == sub && root.Keys == old(KeysOf(root.left)) + [root.key] + sub.Keys
  {
    if side == Left {
      root.left := sub;
    } else {
      root.right := sub;
    }
    root.Repr := root.Repr + sub.Repr;
    root.Keys := KeysOf(root.left) + [root.key] + KeysOf(root.right);
  }

  /** A key below the node's key lands in the left part of the walk. */
  lemma {:induction false} InsertBefore(a: seq<int>, k: int, b: seq<int>, x: int)
    requires x < k
    ensures InsertAfterEquals(a + [k] + b, x) == InsertAfterEquals(a, x) + [k] + b
    decreases |a|
  {
    if a == [] {
      assert a + [k] + b == [k] + b;
    } else {
      assert (a + [k] + b)[1..] == a[1..] + [k] + b;
      InsertBefore(a[1..], k, b, x);
    }
  }

  /** A bound above a sequence and the new key is a bound above the result. */
  lemma {:induction false} InsertAfterEqualsBelow(s: seq<int>, k: int, h: int)
    requires k < h && forall i :: 0 <= i < |s| ==> s[i] < h
    ensures forall i :: 0 <= i < |InsertAfterEquals(s, k)| ==> InsertAfterEquals(s, k)[i] < h
    decreases |s|
  {
    if s != [] && k >= s[0] {
      InsertAfterEqualsBelow(s[1..], k, h);
    }
  }

  /** A key not below the node's key passes the left part and the node. */
  lemma {:induction false} InsertAfter(a: seq<int>, k: int, b: seq<int>, x: int)
    requires k <= x && forall i :: 0 <= i < |a| ==> a[i] < k
    ensures InsertAfterEquals(a + [k] + b, x) == a + [k] + InsertAfterEquals(b, x)
    decreases |a|
  {
    if a == [] {
      assert a + [k] + b == [k] + b && ([k] + b)[1..] == b;
    } else {
      assert (a + [k] + b)[1..] == a[1..] + [k] + b;
      InsertAfter(a[1..], k, b, x);
    }
  }
}

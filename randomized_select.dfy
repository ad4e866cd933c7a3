/** randomized_select.py: Lomuto partition in place, quickselect, and its
    randomised variant. The random pivot index is a nondeterministic choice
    in `[low, high]`; every property below holds for every choice. */
module RandomizedSelect {
  /** How many elements of `s` are below `v`. */
  function CountLt(s: seq<int>, v: int): (r: nat)
    ensures r <= |s|
  {
    if s == [] then 0 else CountLt(s[..|s| - 1], v) + (if s[|s| - 1] < v then 1 else 0)
  }

  /** How many elements of `s` are at most `v`. */
  function CountLe(s: seq<int>, v: int): (r: nat)
    ensures r <= |s|
  {
    if s == [] then 0 else CountLe(s[..|s| - 1], v) + (if s[|s| - 1] <= v then 1 else 0)
  }

  /** `v` is the element of 0-based rank `k` of `s`: the `k`-th smallest,
      counting repetitions. */
  ghost predicate HasRank(s: seq<int>, k: int, v: int)
  {
    CountLt(s, v) <= k < CountLe(s, v)
  }

  lemma {:induction false} CountAppend(a: seq<int>, b: seq<int>, v: int)
    ensures CountLt(a + b, v) == CountLt(a, v) + CountLt(b, v)
    ensures CountLe(a + b, v) == CountLe(a, v) + CountLe(b, v)
    decreases |b|
  {
    if b == [] {
      assert a + b == a;
    } else {
      assert (a + b)[..|a + b| - 1] == a + b[..|b| - 1];
      CountAppend(a, b[..|b| - 1], v);
    }
  }

  /** Taking out the element at `i` takes out its share of the counts. */
  lemma {:induction false} RemoveAt(b: seq<int>, i: int, v: int)
    requires 0 <= i < |b|
    ensures CountLt(b, v) == CountLt(b[..i] + b[i + 1..], v) + (if b[i] < v then 1 else 0)
    ensures CountLe(b, v) == CountLe(b[..i] + b[i + 1..], v) + (if b[i] <= v then 1 else 0)
    ensures multiset(b[..i] + b[i + 1..]) == multiset(b) - multiset{b[i]}
  {
    assert b == b[..i] + [b[i]] + b[i + 1..];
    CountAppend(b[..i], [b[i]], v);
    CountAppend(b[..i] + [b[i]], b[i + 1..], v);
    CountAppend(b[..i], b[i + 1..], v);
    assert [b[i]][..0] == [];
  }

  /** The counts depend only on the multiset of elements. */
  lemma {:induction false} CountPermutation(a: seq<int>, b: seq<int>, v: int)
    requires multiset(a) == multiset(b)
    ensures CountLt(a, v) == CountLt(b, v) && CountLe(a, v) == CountLe(b, v)
    decreases |a|
  {
    if a == [] {
      assert |multiset(b)| == 0;
    } else {
      var x := a[|a| - 1];
      var a' := a[..|a| - 1];
      assert a == a' + [x];
      assert multiset(a') == multiset(a) - multiset{x};
      assert x in multiset(b);
      var i :| 0 <= i < |b| && b[i] == x;
      RemoveAt(b, i, v);
      CountPermutation(a', b[..i] + b[i + 1..], v);
    }
  }

  /** Every element at most `v` is below any larger `w`. */
  lemma {:induction false} CountMonotone(s: seq<int>, v: int, w: int)
    requires v < w
    ensures CountLe(s, v) <= CountLt(s, w)
  {
    if s != [] {
      CountMonotone(s[..|s| - 1], v, w);
    }
  }

  /** An element has a rank only if it occurs. */
  lemma {:induction false} RankedOccurs(s: seq<int>, v: int)
    requires CountLt(s, v) < CountLe(s, v)
    ensures v in s
  {
    if s[|s| - 1] != v {
      RankedOccurs(s[..|s| - 1], v);
    }
  }

  /** The element of a given rank is unique. */
  lemma {:induction false} RankUnique(s: seq<int>, k: int, v: int, w: int)
    requires HasRank(s, k, v) && HasRank(s, k, w)
    ensures v == w
  {
    if v < w {
      CountMonotone(s, v, w);
    } else if w < v {
      CountMonotone(s, w, v);
    }
  }

  /** `s` is split at `p`: nothing above `s[p]` before it, only larger
      elements after it. */
  ghost predicate PartitionedAt(s: seq<int>, p: int)
  {
    0 <= p < |s| &&
    (forall m :: 0 <= m < p ==> s[m] <= s[p]) &&
    (forall m :: p < m < |s| ==> s[m] > s[p])
  }

  /** Two arrays' contents that agree outside `[lo, hi)` and have the same
      multiset agree as multisets on `[lo, hi)` too. */
  lemma {:induction false} SliceMultiset(a: seq<int>, b: seq<int>, lo: int, hi: int)
    requires |a| == |b| && 0 <= lo <= hi <= |a| && multiset(a) == multiset(b)
    requires forall m :: 0 <= m < |a| && !(lo <= m < hi) ==> a[m] == b[m]
    ensures multiset(a[lo..hi]) == multiset(b[lo..hi])
  {
    assert a[..lo] == b[..lo] && a[hi..] == b[hi..];
    ThreeParts(a, lo, hi);
    ThreeParts(b, lo, hi);
    Cancel(multiset(a[lo..hi]), multiset(b[lo..hi]), multiset(a[..lo]) + multiset(a[hi..]));
  }

  lemma {:induction false} ThreeParts(a: seq<int>, lo: int, hi: int)
    requires 0 <= lo <= hi <= |a|
    ensures multiset(a) == multiset(a[lo..hi]) + (multiset(a[..lo]) + multiset(a[hi..]))
  {
    assert a == a[..lo] + a[lo..hi] + a[hi..];
  }

  lemma {:induction false} Cancel(x: multiset<int>, y: multiset<int>, o: multiset<int>)
    requires x + o == y + o
    ensures x == y
  {
    assert forall e :: (x + o)[e] == x[e] + o[e] && (y + o)[e] == y[e] + o[e];
  }

  /** `arr[i], arr[j] = arr[j], arr[i]`. */
  method Swap(arr: array<int>, i: int, j: int)
    requires 0 <= i < arr.Length && 0 <= j < arr.Length
    modifies arr
    ensures arr[i] == old(arr[j]) && arr[j] == old(arr[i])
    ensures forall m :: 0 <= m < arr.Length && m != i && m != j ==> arr[m] == old(arr[m])
    ensures multiset(arr[..]) == multiset(old(arr[..]))
  {
    arr[i], arr[j] := arr[j], arr[i];
  }

  /** `b` is `a` with `[lo, hi)` rearranged and everything else in place. */
  ghost predicate Rearranged(a: seq<int>, b: seq<int>, lo: int, hi: int)
  {
    |a| == |b| && 0 <= lo <= hi <= |a| &&
    multiset(a[lo..hi]) == multiset(b[lo..hi]) && a[..lo] == b[..lo] && a[hi..] == b[hi..]
  }

  lemma {:induction false} RearrangedTrans(a: seq<int>, b: seq<int>, c: seq<int>, lo: int, hi: int)
    requires Rearranged(a, b, lo, hi) && Rearranged(b, c, lo, hi)
    ensures Rearranged(a, c, lo, hi)
  {
  }

  /** A rearrangement of a range is one of any range around it. */
  lemma {:induction false} RearrangedWiden(a: seq<int>, b: seq<int>, lo: int, hi: int, lo': int, hi': int)
    requires Rearranged(a, b, lo, hi) && 0 <= lo' <= lo && hi <= hi' <= |a|
    ensures Rearranged(a, b, lo', hi')
  {
    assert a[lo'..hi'] == a[lo'..lo] + a[lo..hi] + a[hi..hi'];
    assert b[lo'..hi'] == b[lo'..lo] + b[lo..hi] + b[hi..hi'];
    assert a[lo'..lo] == a[..lo][lo'..] && b[lo'..lo] == b[..lo][lo'..];
    assert a[hi..hi'] == a[hi..][..hi' - hi] && b[hi..hi'] == b[hi..][..hi' - hi];
    assert a[..lo'] == a[..lo][..lo'] && b[..lo'] == b[..lo][..lo'];
    assert a[hi'..] == a[hi..][hi' - hi..] && b[hi'..] == b[hi..][hi' - hi..];
  }

  /** `partition`: Lomuto's scheme with `arr[high]` as the pivot. */
  method Partition(arr: array<int>, low: int, high: int) returns (p: int)
    requires 0 <= low <= high < arr.Length
    modifies arr
    ensures low <= p <= high && arr[p] == old(arr[high])
    ensures PartitionedAt(arr[low..high + 1], p - low)
    ensures Rearranged(old(arr[..]), arr[..], low, high + 1)
  {
    var pivot := arr[high];
    var i := low;
    var j := low;
    while j < high
      invariant low <= i <= j <= high && arr[high] == pivot
      invariant forall m :: low <= m < i ==> arr[m] <= pivot
      invariant forall m :: i <= m < j ==> arr[m] > pivot
      invariant multiset(arr[..]) == multiset(old(arr[..]))
      invariant forall m :: 0 <= m < arr.Length && !(low <= m <= high) ==> arr[m] == old(arr[m])
    {
      if arr[j] <= pivot {
        Swap(arr, i, j);
        i := i + 1;
      }
      j := j + 1;
    }
    Swap(arr, i, high);
    p := i;
    PartitionDone(old(arr[..]), arr[..], low, high, p, pivot);
  }

  /** What the loop leaves behind, once the pivot is swapped to `p`, is a
      partition of a rearranged range. */
  lemma {:induction false} PartitionDone(a0: seq<int>, a: seq<int>, low: int, high: int, p: int, pivot: int)
    requires |a| == |a0| && 0 <= low <= p <= high < |a| && a[p] == pivot
    requires forall m :: low <= m < p ==> a[m] <= pivot
    requires forall m :: p < m <= high ==> a[m] > pivot
    requires multiset(a) == multiset(a0)
    requires forall m :: 0 <= m < |a| && !(low <= m <= high) ==> a[m] == a0[m]
    ensures PartitionedAt(a[low..high + 1], p - low) && Rearranged(a0, a, low, high + 1)
  {
    SliceMultiset(a, a0, low, high + 1);
    assert a[..low] == a0[..low] && a[high + 1..] == a0[high + 1..];
  }

  /** Ranks in a partitioned sequence: the pivot has the rank of its
      position; a rank left of it is a rank in the left part, a rank right
      of it one in the right part, shifted. */
  lemma {:induction false} RankAcrossPivot(s: seq<int>, p: int, k: int, v: int)
    requires PartitionedAt(s, p) && 0 <= k < |s|
    requires k == p ==> v == s[p]
    requires k < p ==> HasRank(s[..p], k, v) && v in s[..p]
    requires k > p ==> HasRank(s[p + 1..], k - p - 1, v) && v in s[p + 1..]
    ensures HasRank(s, k, v)
  {
    var left, right := s[..p], s[p + 1..];
    assert forall m :: 0 <= m < |left| ==> left[m] <= s[p];
    assert forall m :: 0 <= m < |right| ==> right[m] > s[p];
    assert s == left + [s[p]] + right;
    CountAppend(left, [s[p]], v);
    CountAppend(left + [s[p]], right, v);
    assert [s[p]][..0] == [];
    if k == p {
      AllAtMost(left, v);
      AllAbove(right, v);
    } else if k < p {
      var i :| 0 <= i < |left| && left[i] == v;
      AllAbove(right, v);
    } else {
      var i :| 0 <= i < |right| && right[i] == v;
      AllAtMost(left, v);
    }
  }

  /** When every element is at most `v`, all count as at most `v`. */
  lemma {:induction false} AllAtMost(s: seq<int>, v: int)
    requires forall m :: 0 <= m < |s| ==> s[m] <= v
    ensures CountLe(s, v) == |s|
    ensures forall w :: w > v ==> CountLt(s, w) == |s|
  {
    if s != [] {
      AllAtMost(s[..|s| - 1], v);
    }
  }

  /** When every element is above `v`, none counts as at most `v`. */
  lemma {:induction false} AllAbove(s: seq<int>, v: int)
    requires forall m :: 0 <= m < |s| ==> s[m] > v
    ensures CountLe(s, v) == 0 && CountLt(s, v) == 0
  {
    if s != [] {
      AllAbove(s[..|s| - 1], v);
    }
  }

  /** One recursive step of quickselect: `a0[low..high]` was partitioned
      at `p` (giving `a1`), the search went on in the part `[lo, hi)` holding
      rank `k` and found `v` there, rearranging that part only (giving
      `a2`). Then `v` has rank `k - low` in `a0[low..high]` and `a2` only
      rearranges it. */
  lemma {:induction false} Descend(a0: seq<int>, a1: seq<int>, a2: seq<int>, low: int, high: int, p: int, lo: int, hi: int, k: int, v: int)
    requires Rearranged(a0, a1, low, high + 1) && high < |a1|
    requires low <= p <= high && PartitionedAt(a1[low..high + 1], p - low)
    requires (lo == low && hi == p) || (lo == p + 1 && hi == high + 1)
    requires lo <= k < hi && HasRank(a1[lo..hi], k - lo, v)
    requires Rearranged(a1, a2, lo, hi)
    ensures HasRank(a0[low..high + 1], k - low, v) && Rearranged(a0, a2, low, high + 1)
  {
    DescendRank(a1, low, high, p, lo, hi, k, v);
    CountPermutation(a1[low..high + 1], a0[low..high + 1], v);
    RearrangedWiden(a1, a2, lo, hi, low, high + 1);
    RearrangedTrans(a0, a1, a2, low, high + 1);
  }

  lemma {:induction false} DescendRank(a1: seq<int>, low: int, high: int, p: int, lo: int, hi: int, k: int, v: int)
    requires 0 <= low <= p <= high < |a1| && PartitionedAt(a1[low..high + 1], p - low)
    requires (lo == low && hi == p) || (lo == p + 1 && hi == high + 1)
    requires lo <= k < hi && HasRank(a1[lo..hi], k - lo, v)
    ensures HasRank(a1[low..high + 1], k - low, v)
  {
    var s := a1[low..high + 1];
    RankedOccurs(a1[lo..hi], v);
    if lo == low {
      assert s[..p - low] == a1[lo..hi];
    } else {
      assert s[p - low + 1..] == a1[lo..hi];
    }
    RankAcrossPivot(s, p - low, k - low, v);
  }

  /** The pivot step of quickselect: when the pivot lands on `k`, it has
      rank `k - low` in the original range. */
  lemma {:induction false} AtPivot(a0: seq<int>, a1: seq<int>, low: int, high: int, p: int)
    requires Rearranged(a0, a1, low, high + 1) && high < |a1|
    requires low <= p <= high && PartitionedAt(a1[low..high + 1], p - low)
    ensures HasRank(a0[low..high + 1], p - low, a1[p])
  {
    RankAcrossPivot(a1[low..high + 1], p - low, p - low, a1[p]);
    CountPermutation(a1[low..high + 1], a0[low..high + 1], a1[p]);
  }

  /** `quickselect`: the value returned is the element of rank `k - low` of
      the original `arr[low..high]`, and it is left at index `k`. */
  method QuickSelect(arr: array<int>, low: int, high: int, k: int) returns (v: int)
    requires 0 <= low <= k <= high < arr.Length
    modifies arr
    ensures v == arr[k]
    ensures HasRank(old(arr[..])[low..high + 1], k - low, v)
    ensures Rearranged(old(arr[..]), arr[..], low, high + 1)
    decreases high - low
  {
    if low == high {
      v := arr[low];
      assert arr[..][low..high + 1] == [v];
      return;
    }
    ghost var a0 := arr[..];
    var p := Partition(arr, low, high);
    ghost var a1 := arr[..];
    if k == p {
      v := arr[k];
      AtPivot(a0, a1, low, high, p);
    } else if k < p {
      v := QuickSelect(arr, low, p - 1, k);
      Descend(a0, a1, arr[..], low, high, p, low, p, k, v);
    } else {
      v := QuickSelect(arr, p + 1, high, k);
      Descend(a0, a1, arr[..], low, high, p, p + 1, high + 1, k, v);
    }
  }

  /** `randomized_partition`: a pivot index chosen anywhere in `[low, high]`
      is swapped to the end before partitioning; the pivot that lands at `p`
      is one of the range's elements. */
  method RandomizedPartition(arr: array<int>, low: int, high: int) returns (p: int)
    requires 0 <= low <= high < arr.Length
    modifies arr
    ensures low <= p <= high && arr[p] in multiset(old(arr[..])[low..high + 1])
    ensures PartitionedAt(arr[low..high + 1], p - low)
    ensures Rearranged(old(arr[..]), arr[..], low, high + 1)
  {
    var r :| low <= r <= high;
    ghost var a0 := arr[..];
    Swap(arr, r, high);
    ghost var a1 := arr[..];
    SwapInRange(a0, a1, low, high, r);
    p := Partition(arr, low, high);
    RearrangedTrans(a0, a1, arr[..], low, high + 1);
  }

  /** Swapping `r` with `high` rearranges `[low, high]` and moves an element
      of that range to `high`. */
  lemma {:induction false} SwapInRange(a0: seq<int>, a1: seq<int>, low: int, high: int, r: int)
    requires |a0| == |a1| && 0 <= low <= r <= high < |a0|
    requires multiset(a1) == multiset(a0) && a1[high] == a0[r]
    requires forall m :: 0 <= m < |a0| && m != r && m != high ==> a1[m] == a0[m]
    ensures Rearranged(a0, a1, low, high + 1) && a1[high] in multiset(a0[low..high + 1])
  {
    SliceMultiset(a1, a0, low, high + 1);
    assert a1[..low] == a0[..low] && a1[high + 1..] == a0[high + 1..];
    assert a0[r] == a0[low..high + 1][r - low];
  }

  /** `randomized_select`: as `QuickSelect`, with random pivots. */
  method RandomizedSelect(arr: array<int>, low: int, high: int, k: int) returns (v: int)
    requires 0 <= low <= k <= high < arr.Length
    modifies arr
    ensures v == arr[k]
    ensures HasRank(old(arr[..])[low..high + 1], k - low, v)
    ensures Rearranged(old(arr[..]), arr[..], low, high + 1)
    decreases high - low
  {
    if low == high {
      v := arr[low];
      assert arr[..][low..high + 1] == [v];
      return;
    }
    ghost var a0 := arr[..];
    var p := RandomizedPartition(arr, low, high);
    ghost var a1 := arr[..];
    if k == p {
      v := arr[k];
      AtPivot(a0, a1, low, high, p);
    } else if k < p {
      v := RandomizedSelect(arr, low, p - 1, k);
      Descend(a0, a1, arr[..], low, high, p, low, p, k, v);
    } else {
      v := RandomizedSelect(arr, p + 1, high, k);
      Descend(a0, a1, arr[..], low, high, p, p + 1, high + 1, k, v);
    }
  }

  /** The demonstration: both selections run on copies of the same list
      and, whatever pivots are drawn, return the same element, the one of
      rank `k`. */
  method SelectBoth(xs: seq<int>, k: int) returns (deterministic: int, randomized: int)
    requires 0 <= k < |xs|
    ensures deterministic == randomized && HasRank(xs, k, deterministic)
  {
    var a := new int[|xs|](i requires 0 <= i < |xs| => xs[i]);
    var b := new int[|xs|](i requires 0 <= i < |xs| => xs[i]);
    assert a[..][0..|xs|] == xs && b[..][0..|xs|] == xs;
    deterministic := QuickSelect(a, 0, |xs| - 1, k);
    randomized := RandomizedSelect(b, 0, |xs| - 1, k);
    RankUnique(xs, k, deterministic, randomized);
  }
}

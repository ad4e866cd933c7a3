/** Deterministic and randomized quick sort on Python lists. */
module QuicksortComparison {
  import opened Sequences
  import RecursiveComplexity

  /** `quicksort_det`: the first element is the pivot; the rest is split
      into the elements `<= pivot` and those `> pivot`. */
  function QuicksortDet(arr: seq<int>): (r: seq<int>)
    ensures Sorted(r) && multiset(r) == multiset(arr)
    decreases |arr|
  {
    if |arr| <= 1 then arr
    else
      var pivot, rest := arr[0], arr[1..];
      SplitShorter(rest, pivot);
      var l, rt := QuicksortDet(Where(rest, AtMost, pivot)), QuicksortDet(Where(rest, Above, pivot));
      MultisetCons(arr);
      PivotJoin(rest, pivot, l, rt);
      l + [pivot] + rt
  }

  /** Both sides of a two-way split are no longer than the list split. */
  lemma {:induction false} SplitShorter(s: seq<int>, pivot: int)
    ensures |Where(s, AtMost, pivot)| <= |s| && |Where(s, Above, pivot)| <= |s|
  {
    SplitTwoWays(s, pivot);
    assert |multiset(Where(s, AtMost, pivot))| + |multiset(Where(s, Above, pivot))| == |multiset(s)|;
  }

  /** Sorted permutations of the two sides of a split, around the pivot,
      make a sorted permutation of the pivot and the list split. */
  lemma {:induction false} PivotJoin(rest: seq<int>, pivot: int, l: seq<int>, rt: seq<int>)
    requires Sorted(l) && multiset(l) == multiset(Where(rest, AtMost, pivot))
    requires Sorted(rt) && multiset(rt) == multiset(Where(rest, Above, pivot))
    ensures Sorted(l + [pivot] + rt)
    ensures multiset(l + [pivot] + rt) == multiset{pivot} + multiset(rest)
  {
    SplitTwoWays(rest, pivot);
    AllHold(l, rest, AtMost, pivot);
    AllHold(rt, rest, Above, pivot);
    SortedJoin(l, [pivot]);
    SortedJoin(l + [pivot], rt);
  }

  /** `quicksort_rand`: the pivot is any element of the list
      (`random.choice`); its first occurrence is removed from a copy,
      which is then split like the deterministic version. Whatever the
      choices, the result is the deterministic sort's. */
  method QuicksortRand(arr: seq<int>) returns (r: seq<int>)
    ensures Sorted(r) && multiset(r) == multiset(arr)
    ensures r == QuicksortDet(arr)
    decreases |arr|
  {
    if |arr| <= 1 {
      r := arr;
    } else {
      var i :| 0 <= i < |arr|;
      var pivot := arr[i];
      var arr2 := RemoveFirst(arr, pivot);
      RemoveFirstCount(arr, pivot);
      SplitShorter(arr2, pivot);
      var l := QuicksortRand(Where(arr2, AtMost, pivot));
      var rt := QuicksortRand(Where(arr2, Above, pivot));
      PivotJoin(arr2, pivot, l, rt);
      r := l + [pivot] + rt;
      assert multiset(r) == multiset(arr) by {
        assert multiset(arr) == multiset(arr2) + multiset{pivot};
      }
      SortedUnique(r, QuicksortDet(arr));
    }
  }

  /** The two-way quick sort of this file and the three-way one of
      recursive_complexity.py return the same list. */
  lemma {:induction false} AgreesWithThreeWay(arr: seq<int>)
    ensures QuicksortDet(arr) == RecursiveComplexity.QuickSort(arr)
  {
    SortedUnique(QuicksortDet(arr), RecursiveComplexity.QuickSort(arr));
  }
}

/** Sequences shared by the searching, sorting and subset-search modules. */
module Sequences {
  /** Non-decreasing order. */
  ghost predicate Sorted(s: seq<int>)
  {
    forall i, j :: 0 <= i < j < |s| ==> s[i] <= s[j]
  }

  /** `sub` keeps some of the elements of `s`, in their order. */
  ghost predicate Subsequence(sub: seq<int>, s: seq<int>)
    decreases |s|
  {
    if sub == [] then true
    else if s == [] then false
    else (sub[0] == s[0] && Subsequence(sub[1..], s[1..])) || Subsequence(sub, s[1..])
  }

  /** The sum of the elements, as Python's `sum`. */
  function Sum(s: seq<int>): int
  {
    if s == [] then 0 else Sum(s[..|s| - 1]) + s[|s| - 1]
  }

  lemma {:induction false} SumAppend(a: seq<int>, b: seq<int>)
    ensures Sum(a + b) == Sum(a) + Sum(b)
    decreases |b|
  {
    if b == [] {
      assert a + b == a;
    } else {
      assert (a + b)[..|a + b| - 1] == a + b[..|b| - 1];
      SumAppend(a, b[..|b| - 1]);
    }
  }

  /** The key sequence after a key is placed behind every key not greater than it. */
  ghost function InsertAfterEquals(s: seq<int>, k: int): seq<int>
  {
    if s == [] then [k]
    else if k < s[0] then [k] + s
    else [s[0]] + InsertAfterEquals(s[1..], k)
  }

  lemma {:induction false} InsertAfterEqualsSplit(b: seq<int>, a: seq<int>, k: int)
    requires forall i :: 0 <= i < |b| ==> b[i] <= k
    requires forall i :: 0 <= i < |a| ==> k < a[i]
    ensures InsertAfterEquals(b + a, k) == b + [k] + a
    decreases |b|
  {
    if b == [] {
      assert b + a == a;
    } else {
      assert (b + a)[0] == b[0] && (b + a)[1..] == b[1..] + a;
      InsertAfterEqualsSplit(b[1..], a, k);
    }
  }

  /** Inserting keeps a sorted sequence sorted and adds exactly one `k`. */
  lemma {:induction false} InsertAfterEqualsSorted(s: seq<int>, k: int)
    requires Sorted(s)
    ensures Sorted(InsertAfterEquals(s, k))
    ensures multiset(InsertAfterEquals(s, k)) == multiset(s) + multiset{k}
    decreases |s|
  {
    if s == [] {
    } else if k < s[0] {
      SortedCons(k, s);
    } else {
      var t := InsertAfterEquals(s[1..], k);
      SortedTail(s);
      InsertAfterEqualsSorted(s[1..], k);
      InsertAfterEqualsAbove(s[1..], k, s[0]);
      SortedCons(s[0], t);
      assert multiset(s) == multiset{s[0]} + multiset(s[1..]) by {
        assert s == [s[0]] + s[1..];
      }
    }
  }

  /** The tail of a sorted sequence is sorted and bounded below by its head. */
  lemma {:induction false} SortedTail(s: seq<int>)
    requires Sorted(s) && s != []
    ensures Sorted(s[1..]) && forall i :: 0 <= i < |s[1..]| ==> s[0] <= s[1..][i]
  {
  }

  lemma {:induction false} InsertAfterEqualsAbove(s: seq<int>, k: int, h: int)
    requires h <= k && forall i :: 0 <= i < |s| ==> h <= s[i]
    ensures forall i :: 0 <= i < |InsertAfterEquals(s, k)| ==> h <= InsertAfterEquals(s, k)[i]
    decreases |s|
  {
    if s != [] && k >= s[0] {
      InsertAfterEqualsAbove(s[1..], k, h);
    }
  }

  /** `b` is `a` without its element at index `i`, which is `k`. */
  ghost predicate RemovedAt(a: seq<int>, b: seq<int>, i: nat, k: int)
  {
    i < |a| && a[i] == k && b == a[..i] + a[i + 1..]
  }

  /** `s` without its first occurrence of `k` (unchanged when there is none). */
  function RemoveFirst(s: seq<int>, k: int): seq<int>
  {
    if s == [] then []
    else if s[0] == k then s[1..]
    else [s[0]] + RemoveFirst(s[1..], k)
  }

  /** In a sorted sequence, removing any occurrence of `k` is removing the
      first one, and the rest stays sorted. */
  lemma {:induction false} RemoveFirstSorted(a: seq<int>, b: seq<int>, i: nat, k: int)
    requires Sorted(a) && RemovedAt(a, b, i, k)
    ensures b == RemoveFirst(a, k) && Sorted(b)
    decreases |a|
  {
    SortedTail(a);
    if a[0] == k {
      RemovedAtHead(a, b, i, k);
    } else {
      RemovedAtTail(a, b, i, k);
      RemoveFirstSorted(a[1..], b[1..], i - 1, k);
      SortedCons(a[0], b[1..]);
      assert b == [a[0]] + b[1..];
    }
  }

  /** In a sorted sequence that starts with `k`, removing any occurrence of
      `k` leaves the tail. */
  lemma {:induction false} RemovedAtHead(a: seq<int>, b: seq<int>, i: nat, k: int)
    requires Sorted(a) && RemovedAt(a, b, i, k) && a[0] == k
    ensures b == a[1..]
  {
    forall j | 0 <= j < |b| ensures b[j] == a[1..][j] {
      if j < i {
        assert a[0] <= a[j] <= a[j + 1] <= a[i];
      }
    }
  }

  /** Removing a later element keeps the head, and the tails are related
      the same way; in a sorted sequence the head bounds the rest. */
  lemma {:induction false} RemovedAtTail(a: seq<int>, b: seq<int>, i: nat, k: int)
    requires Sorted(a) && RemovedAt(a, b, i, k) && a[0] != k
    ensures i > 0 && b != [] && b[0] == a[0] && RemovedAt(a[1..], b[1..], i - 1, k)
    ensures forall j :: 0 <= j < |b[1..]| ==> a[0] <= b[1..][j]
  {
    assert a[1..][..i - 1] == a[1..i] && a[1..][i..] == a[i + 1..];
    assert b[1..] == a[1..i] + a[i + 1..];
    forall j | 0 <= j < |b[1..]| ensures a[0] <= b[1..][j] {
      assert b[1..][j] == b[j + 1];
      assert b[j + 1] == if j + 1 < i then a[j + 1] else a[j + 2];
    }
  }

  lemma {:induction false} RemoveFirstAbsent(s: seq<int>, k: int)
    requires k !in s
    ensures RemoveFirst(s, k) == s
    decreases |s|
  {
    if s != [] {
      assert s[1..] + [] == s[1..];
      assert k !in s[1..];
      RemoveFirstAbsent(s[1..], k);
    }
  }

  /** Removing the first `k` takes exactly one `k` out of the multiset. */
  lemma {:induction false} RemoveFirstCount(s: seq<int>, k: int)
    requires k in s
    ensures multiset(RemoveFirst(s, k)) == multiset(s) - multiset{k}
    ensures |RemoveFirst(s, k)| == |s| - 1
    decreases |s|
  {
    assert s == [s[0]] + s[1..];
    if s[0] != k {
      assert k in s[1..];
      RemoveFirstCount(s[1..], k);
    }
  }


  // ---------------------------------------------------------------------
  // List comprehensions that keep the elements on one side of a pivot
  // ---------------------------------------------------------------------

  datatype Cmp = Below | AtMost | Equal | Above

  predicate Holds(x: int, c: Cmp, pivot: int)
  {
    match c
    case Below => x < pivot
    case AtMost => x <= pivot
    case Equal => x == pivot
    case Above => x > pivot
  }

  /** `[x for x in s if x <c> pivot]`: each value is kept as often as it
      occurs in `s` when it passes the test, and dropped otherwise. */
  function Where(s: seq<int>, c: Cmp, pivot: int): (r: seq<int>)
    ensures forall x {:trigger multiset(r)[x]} :: multiset(r)[x] == if Holds(x, c, pivot) then multiset(s)[x] else 0
  {
    if s == [] then []
    else
      assert s == [s[0]] + s[1..];
      (if Holds(s[0], c, pivot) then [s[0]] else []) + Where(s[1..], c, pivot)
  }

  /** Splitting at `<=` and `>` loses and adds nothing. */
  lemma {:induction false} SplitTwoWays(s: seq<int>, pivot: int)
    ensures multiset(Where(s, AtMost, pivot)) + multiset(Where(s, Above, pivot)) == multiset(s)
  {
    var a, b := multiset(Where(s, AtMost, pivot)), multiset(Where(s, Above, pivot));
    forall x ensures (a + b)[x] == multiset(s)[x] {
      assert (a + b)[x] == a[x] + b[x];
    }
  }

  /** Splitting at `<`, `==` and `>` loses and adds nothing. */
  lemma {:induction false} SplitThreeWays(s: seq<int>, pivot: int)
    ensures multiset(Where(s, Below, pivot)) + multiset(Where(s, Equal, pivot)) + multiset(Where(s, Above, pivot)) == multiset(s)
  {
    var a, m, b := multiset(Where(s, Below, pivot)), multiset(Where(s, Equal, pivot)), multiset(Where(s, Above, pivot));
    forall x ensures (a + m + b)[x] == multiset(s)[x] {
      assert (a + m + b)[x] == a[x] + m[x] + b[x];
    }
  }

  /** Every element of `t` passes the test when `t` is a permutation of a
      filtered list. */
  lemma {:induction false} AllHold(t: seq<int>, s: seq<int>, c: Cmp, pivot: int)
    requires multiset(t) == multiset(Where(s, c, pivot))
    ensures forall i :: 0 <= i < |t| ==> Holds(t[i], c, pivot)
  {
    forall i | 0 <= i < |t| ensures Holds(t[i], c, pivot) {
      assert t[i] in multiset(t);
    }
  }

  /** Sorted pieces in order make a sorted whole. */
  lemma {:induction false} SortedJoin(a: seq<int>, b: seq<int>)
    requires Sorted(a) && Sorted(b)
    requires forall i, j :: 0 <= i < |a| && 0 <= j < |b| ==> a[i] <= b[j]
    ensures Sorted(a + b)
  {
  }

  lemma {:induction false} SortedCons(h: int, t: seq<int>)
    requires Sorted(t) && forall i :: 0 <= i < |t| ==> h <= t[i]
    ensures Sorted([h] + t)
  {
  }

  /** A sorted sequence is fixed by its multiset of elements. */
  lemma {:induction false} SortedUnique(a: seq<int>, b: seq<int>)
    requires Sorted(a) && Sorted(b) && multiset(a) == multiset(b)
    ensures a == b
    decreases |a|
  {
    if a != [] {
      assert |b| == |a| by { assert |multiset(a)| == |multiset(b)|; }
      SameHead(a, b);
      SortedTail(a);
      SortedTail(b);
      SameTail(a, b);
      SortedUnique(a[1..], b[1..]);
      assert a == [a[0]] + a[1..] && b == [b[0]] + b[1..];
    }
  }

  /** Sequences with the same elements and the same head have tails with
      the same elements. */
  lemma {:induction false} SameTail(a: seq<int>, b: seq<int>)
    requires multiset(a) == multiset(b) && a != [] && b != [] && a[0] == b[0]
    ensures multiset(a[1..]) == multiset(b[1..])
  {
    MultisetCons(a);
    MultisetCons(b);
    forall x ensures multiset(a[1..])[x] == multiset(b[1..])[x] {
      assert multiset(a)[x] == multiset{a[0]}[x] + multiset(a[1..])[x];
      assert multiset(b)[x] == multiset{b[0]}[x] + multiset(b[1..])[x];
    }
  }

  /** Sorted sequences with the same elements start with the same one. */
  lemma {:induction false} SameHead(a: seq<int>, b: seq<int>)
    requires Sorted(a) && Sorted(b) && multiset(a) == multiset(b) && a != [] && b != []
    ensures a[0] == b[0]
  {
    assert a[0] in multiset(b) && b[0] in multiset(a);
    var i :| 0 <= i < |b| && b[i] == a[0];
    var j :| 0 <= j < |a| && a[j] == b[0];
    assert b[0] <= b[i] && a[0] <= a[j];
  }

  lemma {:induction false} MultisetCons(s: seq<int>)
    requires s != []
    ensures multiset(s) == multiset{s[0]} + multiset(s[1..])
  {
    assert s == [s[0]] + s[1..];
  }
}

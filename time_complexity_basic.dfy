/** time_complexity_basic.py: linear and binary search, and the sum of the
    first `n` numbers by a loop and by recursion. */
module TimeComplexityBasic {
  import opened Sequences

  /** `linear_search`: the first index holding `key`, or -1 when none does. */
  method LinearSearch(arr: seq<int>, key: int) returns (r: int)
    ensures r == -1 <==> key !in arr
    ensures r != -1 ==> 0 <= r < |arr| && arr[r] == key && key !in arr[..r]
  {
    var i := 0;
    while i < |arr|
      invariant 0 <= i <= |arr|
      invariant key !in arr[..i]
    {
      if arr[i] == key {
        return i;
      }
      assert arr[..i + 1] == arr[..i] + [arr[i]];
      i := i + 1;
    }
    assert arr[..i] == arr;
    return -1;
  }

  /** `binary_search` (the same code as proof_techniques.py's). Whatever the
      order of `arr`, an index it returns holds `key`; on a sorted `arr` it
      returns -1 exactly when `key` is absent. */
  method BinarySearch(arr: seq<int>, key: int) returns (r: int)
    ensures r == -1 || (0 <= r < |arr| && arr[r] == key)
    ensures Sorted(arr) ==> (r == -1 <==> key !in arr)
  {
    var low, high := 0, |arr| - 1;
    while low <= high
      invariant 0 <= low <= high + 1 <= |arr|
      invariant Sorted(arr) ==> key !in arr[..low] && key !in arr[high + 1..]
      decreases high - low
    {
      var mid := (low + high) / 2;
      if arr[mid] == key {
        return mid;
      } else if arr[mid] < key {
        low := mid + 1;
      } else {
        high := mid - 1;
      }
    }
    assert arr == arr[..low] + arr[high + 1..];
    return -1;
  }

  /** `sum_recursive`: Gauss's sum. A negative `n` never reaches the base case
      in the source, so it is excluded. */
  function SumRecursive(n: int): (r: int)
    requires n >= 0
    ensures 2 * r == n * (n + 1)
  {
    if n == 0 then 0 else n + SumRecursive(n - 1)
  }

  /** `sum_iterative`: adds 1..n in a loop; `range(1, n + 1)` is empty for a
      negative `n`, which gives 0. */
  method SumIterative(n: int) returns (total: int)
    ensures n >= 0 ==> total == SumRecursive(n)
    ensures n < 0 ==> total == 0
    ensures 2 * total == if n >= 0 then n * (n + 1) else 0
  {
    total := 0;
    var i := 1;
    while i <= n
      invariant 1 <= i && (n >= 0 ==> i <= n + 1) && (n < 0 ==> i == 1)
      invariant total == SumRecursive(i - 1)
    {
      total := total + i;
      i := i + 1;
    }
  }
}

/** subset_sum_partition.py: subset sum by backtracking over a shared list
    `current`, and the partition problem reduced to it. The list the source
    appends to and pops from is threaded through the recursion: each call
    takes its value on entry and returns its value on exit. */
module SubsetSumPartition {
  import opened Sequences
  import opened Wrappers


  ghost predicate NonNegative(s: seq<int>)
  {
    forall i :: 0 <= i < |s| ==> s[i] >= 0
  }

  lemma {:induction false} SumCons(x: int, s: seq<int>)
    ensures Sum([x] + s) == x + Sum(s)
  {
    SumAppend([x], s);
    assert [x][..0] == [];
  }

  /** Every subsequence of non-negative numbers has a non-negative sum. */
  lemma {:induction false} SubsequenceSumNonNegative(sub: seq<int>, s: seq<int>)
    requires Subsequence(sub, s) && NonNegative(s)
    ensures Sum(sub) >= 0
    decreases |s|
  {
    if sub != [] {
      if sub[0] == s[0] && Subsequence(sub[1..], s[1..]) {
        SubsequenceSumNonNegative(sub[1..], s[1..]);
        SumCons(sub[0], sub[1..]);
        assert [sub[0]] + sub[1..] == sub;
      } else {
        SubsequenceSumNonNegative(sub, s[1..]);
      }
    }
  }

  /** A subsequence of `s[1..]`, with or without `s[0]` in front, is one of `s`. */
  lemma {:induction false} SubsequenceExtend(sub: seq<int>, s: seq<int>)
    requires s != [] && Subsequence(sub, s[1..])
    ensures Subsequence(sub, s) && Subsequence([s[0]] + sub, s)
  {
    assert ([s[0]] + sub)[1..] == sub;
  }

  /** `subset_sum(nums, target, index, current)`. A result extends the
      entry value of `current` by a subsequence of `nums[index..]` that adds
      up to `target`; when there is none, `current` is back to its entry
      value, and for non-negative numbers there is none exactly when no
      subsequence of `nums[index..]` adds up to `target`. */
  method SubsetSumFrom(nums: seq<int>, target: int, index: nat, current: seq<int>)
    returns (result: Option<seq<int>>, current': seq<int>)
    requires index <= |nums|
    ensures target == 0 ==> result == Some(current) && current' == current
    ensures result.Some? ==>
      (exists sub :: Subsequence(sub, nums[index..]) && Sum(sub) == target && result.value == current + sub)
    ensures result.None? ==> current' == current
    ensures result.None? && NonNegative(nums) ==>
      forall sub :: Subsequence(sub, nums[index..]) ==> Sum(sub) != target
    decreases |nums| - index
  {
    if target == 0 {
      assert Subsequence([], nums[index..]) && current + [] == current;
      return Some(current), current;
    }
    if index >= |nums| || target < 0 {
      if NonNegative(nums) {
        forall sub | Subsequence(sub, nums[index..]) ensures Sum(sub) != target {
          if index == |nums| {
            assert sub == [];
          } else {
            assert NonNegative(nums[index..]);
            SubsequenceSumNonNegative(sub, nums[index..]);
          }
        }
      }
      return None, current;
    }
    var x := nums[index];
    var tail := nums[index + 1..];
    assert nums[index..] == [x] + tail && nums[index..][1..] == tail;
    var included;
    included, current' := SubsetSumFrom(nums, target - x, index + 1, current + [x]);
    if included.Some? && included.value != [] {
      ghost var sub :| Subsequence(sub, tail) && Sum(sub) == target - x && included.value == current + [x] + sub;
      SubsequenceExtend(sub, nums[index..]);
      SumCons(x, sub);
      assert included.value == current + ([x] + sub);
      return included, current';
    }
    current' := current'[..|current'| - 1];
    var excluded;
    excluded, current' := SubsetSumFrom(nums, target, index + 1, current');
    if excluded.Some? {
      ghost var sub :| Subsequence(sub, tail) && Sum(sub) == target && excluded.value == current + sub;
      SubsequenceExtend(sub, nums[index..]);
    } else if NonNegative(nums) {
      forall sub | Subsequence(sub, nums[index..]) ensures Sum(sub) != target {
        if sub != [] && sub[0] == x && Subsequence(sub[1..], tail) {
          SumCons(x, sub[1..]);
          assert [x] + sub[1..] == sub;
        }
      }
    }
    result := excluded;
  }

  /** `subset_sum(nums, target)` at top level, where `current` starts empty. */
  method SubsetSum(nums: seq<int>, target: int) returns (result: Option<seq<int>>)
    ensures target == 0 ==> result == Some([])
    ensures result.Some? ==> Subsequence(result.value, nums) && Sum(result.value) == target
    ensures NonNegative(nums) ==>
      (result.None? <==> forall sub :: Subsequence(sub, nums) ==> Sum(sub) != target)
  {
    var rest;
    result, rest := SubsetSumFrom(nums, target, 0, []);
    assert nums[0..] == nums;
    if result.Some? {
      ghost var sub :| Subsequence(sub, nums[0..]) && Sum(sub) == target && result.value == [] + sub;
      assert result.value == sub;
    }
  }

  /** `can_partition`, as written: `if result:` treats the empty subset as a
      failure, so a list whose total is 0 is reported as not partitionable. */
  method CanPartition(nums: seq<int>) returns (possible: bool, subset: Option<seq<int>>)
    ensures Sum(nums) % 2 != 0 ==> !possible && subset == None
    ensures possible ==> subset.Some? && Subsequence(subset.value, nums) && 2 * Sum(subset.value) == Sum(nums)
    ensures Sum(nums) == 0 ==> !possible
    ensures NonNegative(nums) && Sum(nums) != 0 ==>
      (possible <==> exists sub :: Subsequence(sub, nums) && 2 * Sum(sub) == Sum(nums))
  {
    var total := Sum(nums);
    if total % 2 != 0 {
      if NonNegative(nums) {
        assert forall sub :: Subsequence(sub, nums) ==> 2 * Sum(sub) != total;
      }
      return false, None;
    }
    var target := total / 2;
    var result := SubsetSum(nums, target);
    if result.Some? && result.value != [] {
      return true, result;
    }
    return false, None;
  }

  /** A list whose total is 0 always splits into two halves of sum 0: the
      empty subset and everything. Against `CanPartition`'s clause
      `Sum(nums) == 0 ==> !possible`, this is the discrepancy of the
      `if result:` test: for such a list (`[0]`, or `[]`) the split exists,
      yet the source answers `(False, None)`. */
  lemma {:induction false} ZeroTotalSplits(nums: seq<int>)
    requires Sum(nums) == 0
    ensures Subsequence([], nums) && 2 * Sum([]) == Sum(nums)
  {
  }

  /** `can_partition` with the evident intent, `if result is not None`: for
      non-negative numbers it succeeds exactly when some subsequence adds up
      to half the total. */
  method CanPartitionIntended(nums: seq<int>) returns (possible: bool, subset: Option<seq<int>>)
    ensures Sum(nums) % 2 != 0 ==> !possible && subset == None
    ensures possible ==> subset.Some? && Subsequence(subset.value, nums) && 2 * Sum(subset.value) == Sum(nums)
    ensures NonNegative(nums) ==>
      (possible <==> exists sub :: Subsequence(sub, nums) && 2 * Sum(sub) == Sum(nums))
  {
    var total := Sum(nums);
    if total % 2 != 0 {
      if NonNegative(nums) {
        assert forall sub :: Subsequence(sub, nums) ==> 2 * Sum(sub) != total;
      }
      return false, None;
    }
    var target := total / 2;
    var result := SubsetSum(nums, target);
    if result.Some? {
      return true, result;
    }
    return false, None;
  }
}

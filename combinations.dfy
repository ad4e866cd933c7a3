/** `itertools.combinations`, as the vertex-cover and clique searches use it:
    the `r`-element subsequences of a sequence, in lexicographic order of
    their positions. */
module Combinations {
  import opened Sequences

  /** Each of `cs`, with `x` in front. */
  function PrependAll(x: int, cs: seq<seq<int>>): (r: seq<seq<int>>)
    ensures |r| == |cs| && forall i {:trigger r[i]} :: 0 <= i < |cs| ==> r[i] == [x] + cs[i]
  {
    if cs == [] then [] else [[x] + cs[0]] + PrependAll(x, cs[1..])
  }

  /** The binomial coefficient `n` choose `k`, by Pascal's rule. */
  function Choose(n: nat, k: nat): nat
  {
    if k == 0 then 1 else if n == 0 then 0 else Choose(n - 1, k - 1) + Choose(n - 1, k)
  }

  /** `combinations(s, r)`: first those that take `s[0]`, then those that
      skip it. There are `|s|` choose `r` of them, each of length `r`. */
  function Combinations(s: seq<int>, r: nat): (cs: seq<seq<int>>)
    ensures |cs| == Choose(|s|, r)
    ensures forall k :: 0 <= k < |cs| ==> |cs[k]| == r
    decreases |s|
  {
    if r == 0 then [[]]
    else if s == [] then []
    else PrependAll(s[0], Combinations(s[1..], r - 1)) + Combinations(s[1..], r)
  }

  ghost predicate Distinct(s: seq<int>)
  {
    forall i, j :: 0 <= i < j < |s| ==> s[i] != s[j]
  }

  /** Every combination has `r` elements and is a subsequence of `s`. */
  lemma {:induction false} CombinationsSound(s: seq<int>, r: nat, c: seq<int>)
    requires c in Combinations(s, r)
    ensures |c| == r && Subsequence(c, s)
  {
    var k :| 0 <= k < |Combinations(s, r)| && Combinations(s, r)[k] == c;
    CombinationSoundAt(s, r, k);
  }

  lemma {:induction false} CombinationSoundAt(s: seq<int>, r: nat, k: nat)
    requires k < |Combinations(s, r)|
    ensures |Combinations(s, r)[k]| == r && Subsequence(Combinations(s, r)[k], s)
    decreases |s|
  {
    if r > 0 {
      assert s != [];
      var inner := Combinations(s[1..], r - 1);
      var with := PrependAll(s[0], inner);
      var without := Combinations(s[1..], r);
      assert Combinations(s, r) == with + without;
      if k < |with| {
        CombinationSoundAt(s[1..], r - 1, k);
        assert Combinations(s, r)[k] == [s[0]] + inner[k];
        SubsequencePrepend(inner[k], s);
      } else {
        CombinationSoundAt(s[1..], r, k - |with|);
        assert Combinations(s, r)[k] == without[k - |with|];
        SubsequenceSkip(without[k - |with|], s);
      }
    }
  }

  lemma {:induction false} SubsequencePrepend(d: seq<int>, s: seq<int>)
    requires s != [] && Subsequence(d, s[1..])
    ensures Subsequence([s[0]] + d, s)
  {
    assert ([s[0]] + d)[1..] == d;
  }

  /** A subsequence draws only on the elements of `s`. */
  lemma {:induction false} SubsequenceMembers(sub: seq<int>, s: seq<int>)
    requires Subsequence(sub, s)
    ensures forall x :: x in sub ==> x in s
    decreases |s|
  {
    if sub != [] {
      if sub[0] == s[0] && Subsequence(sub[1..], s[1..]) {
        SubsequenceMembers(sub[1..], s[1..]);
        assert sub == [sub[0]] + sub[1..];
      } else {
        SubsequenceMembers(sub, s[1..]);
      }
    }
  }

  lemma {:induction false} SubsequenceSkip(c: seq<int>, s: seq<int>)
    requires s != [] && Subsequence(c, s[1..])
    ensures Subsequence(c, s)
  {
  }

  /** A subsequence of a repetition-free sequence has no repetitions either. */
  lemma {:induction false} SubsequenceDistinct(sub: seq<int>, s: seq<int>)
    requires Subsequence(sub, s) && Distinct(s)
    ensures Distinct(sub)
    decreases |s|
  {
    if sub != [] {
      if sub[0] == s[0] && Subsequence(sub[1..], s[1..]) {
        SubsequenceDistinct(sub[1..], s[1..]);
        SubsequenceMembers(sub[1..], s[1..]);
        assert s[0] !in s[1..];
        forall i, j | 0 <= i < j < |sub| ensures sub[i] != sub[j] {
          if i == 0 {
            assert sub[j] == sub[1..][j - 1];
          } else {
            assert sub[i] == sub[1..][i - 1] && sub[j] == sub[1..][j - 1];
          }
        }
      } else {
        SubsequenceDistinct(sub, s[1..]);
      }
    }
  }

  /** Every subsequence of length `r` is one of the combinations. */
  lemma {:induction false} CombinationsComplete(s: seq<int>, c: seq<int>)
    requires Subsequence(c, s)
    ensures c in Combinations(s, |c|)
  {
    var k := CombinationIndex(s, c);
  }

  /** Where `c` sits among the combinations of its size. */
  lemma {:induction false} CombinationIndex(s: seq<int>, c: seq<int>) returns (k: nat)
    requires Subsequence(c, s)
    ensures k < |Combinations(s, |c|)| && Combinations(s, |c|)[k] == c
    decreases |s|
  {
    if c == [] {
      k := 0;
    } else if c[0] == s[0] && Subsequence(c[1..], s[1..]) {
      var j := CombinationIndex(s[1..], c[1..]);
      k := IndexTaken(s, c, j);
    } else {
      var j := CombinationIndex(s[1..], c);
      k := IndexSkipped(s, c, j);
    }
  }

  /** A combination of `s[1..]` with `s[0]` in front is among the first ones of `s`. */
  lemma {:induction false} IndexTaken(s: seq<int>, c: seq<int>, j: nat) returns (k: nat)
    requires s != [] && c != [] && c[0] == s[0]
    requires j < |Combinations(s[1..], |c| - 1)| && Combinations(s[1..], |c| - 1)[j] == c[1..]
    ensures k < |Combinations(s, |c|)| && Combinations(s, |c|)[k] == c
  {
    var with := PrependAll(s[0], Combinations(s[1..], |c| - 1));
    assert Combinations(s, |c|) == with + Combinations(s[1..], |c|);
    assert with[j] == [s[0]] + c[1..] == c;
    k := j;
  }

  /** A combination of `s[1..]` is among the last ones of `s`. */
  lemma {:induction false} IndexSkipped(s: seq<int>, c: seq<int>, j: nat) returns (k: nat)
    requires s != [] && c != []
    requires j < |Combinations(s[1..], |c|)| && Combinations(s[1..], |c|)[j] == c
    ensures k < |Combinations(s, |c|)| && Combinations(s, |c|)[k] == c
  {
    var with := PrependAll(s[0], Combinations(s[1..], |c| - 1));
    assert Combinations(s, |c|) == with + Combinations(s[1..], |c|);
    k := |with| + j;
  }

  /** The elements of `s` that lie in `S`, in their order in `s`. */
  function Filter(s: seq<int>, S: set<int>): seq<int>
  {
    if s == [] then [] else (if s[0] in S then [s[0]] else []) + Filter(s[1..], S)
  }

  lemma {:induction false} FilterProps(s: seq<int>, S: set<int>)
    requires Distinct(s)
    ensures Subsequence(Filter(s, S), s) && Distinct(Filter(s, S))
    ensures forall x :: x in Filter(s, S) <==> x in s && x in S
  {
    if s != [] {
      FilterProps(s[1..], S);
      var f := Filter(s[1..], S);
      if s[0] in S {
        assert Filter(s, S) == [s[0]] + f && ([s[0]] + f)[1..] == f;
        assert s[0] !in s[1..];
      } else {
        assert Filter(s, S) == f;
        SubsequenceSkip(f, s);
      }
    }
  }

  /** A sequence without repetitions has as many elements as its set. */
  lemma {:induction false} DistinctCard(s: seq<int>)
    requires Distinct(s)
    ensures |set x | x in s| == |s|
  {
    if s != [] {
      DistinctCard(s[1..]);
      assert (set x | x in s) == (set x | x in s[1..]) + {s[0]};
      assert s[0] !in (set x | x in s[1..]);
    }
  }

  /** Every subset of the elements of a repetition-free `s` is, as a set, one
      of the combinations of its size. */
  lemma {:induction false} SubsetIsCombination(s: seq<int>, S: set<int>)
    requires Distinct(s) && forall x :: x in S ==> x in s
    ensures Filter(s, S) in Combinations(s, |S|) && (set x | x in Filter(s, S)) == S
  {
    var f := Filter(s, S);
    FilterProps(s, S);
    DistinctCard(f);
    forall x ensures x in (set y | y in f) <==> x in S {
      if x in S {
        assert x in s && x in S;
      }
    }
    assert (set y | y in f) == S;
    CombinationsComplete(s, f);
  }
}

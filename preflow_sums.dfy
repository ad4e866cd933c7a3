/** Sums over the `flow` matrix of push_relabel.py: the flow out of a
    vertex along its row, the flow into it down its column, and the fact
    that a skew-symmetric matrix (`flow[v][u] == -flow[u][v]`) sums to
    zero, so what leaves the source is what the other vertices hold. */
module PreflowSums {
  import opened ResidualGraphs

  /** `flow[u][0] + ... + flow[u][c - 1]`. */
  function RowSum(m: seq<seq<int>>, u: int, c: nat): int
    requires IsMatrix(m) && 0 <= u < |m| && c <= |m|
  {
    if c == 0 then 0 else RowSum(m, u, c - 1) + m[u][c - 1]
  }

  /** `flow[0][v] + ... + flow[r - 1][v]`. */
  function ColSum(m: seq<seq<int>>, v: int, r: nat): int
    requires IsMatrix(m) && 0 <= v < |m| && r <= |m|
  {
    if r == 0 then 0 else ColSum(m, v, r - 1) + m[r - 1][v]
  }

  /** What flows into `v`. */
  function InFlow(m: seq<seq<int>>, v: int): int
    requires IsMatrix(m) && 0 <= v < |m|
  {
    ColSum(m, v, |m|)
  }

  /** The first `r` rows, each summed over its first `c` entries. */
  function ByRows(m: seq<seq<int>>, r: nat, c: nat): int
    requires IsMatrix(m) && r <= |m| && c <= |m|
  {
    if r == 0 then 0 else ByRows(m, r - 1, c) + RowSum(m, r - 1, c)
  }

  /** The first `c` columns, each summed over its first `r` entries. */
  function ByCols(m: seq<seq<int>>, r: nat, c: nat): int
    requires IsMatrix(m) && r <= |m| && c <= |m|
  {
    if c == 0 then 0 else ByCols(m, r, c - 1) + ColSum(m, c - 1, r)
  }

  ghost predicate Skew(m: seq<seq<int>>)
  {
    IsMatrix(m) && forall u, v :: 0 <= u < |m| && 0 <= v < |m| ==> m[v][u] == -m[u][v]
  }

  /** Adding row `r - 1` to the column sums adds its row sum. */
  lemma {:induction false} ByColsAddRow(m: seq<seq<int>>, r: nat, c: nat)
    requires IsMatrix(m) && 0 < r <= |m| && c <= |m|
    ensures ByCols(m, r, c) == ByCols(m, r - 1, c) + RowSum(m, r - 1, c)
  {
    if c > 0 {
      ByColsAddRow(m, r, c - 1);
    }
  }

  lemma {:induction false} ByColsNoRows(m: seq<seq<int>>, c: nat)
    requires IsMatrix(m) && c <= |m|
    ensures ByCols(m, 0, c) == 0
  {
    if c > 0 {
      ByColsNoRows(m, c - 1);
    }
  }

  /** Summing row by row or column by column gives the same total. */
  lemma {:induction false} SwapSums(m: seq<seq<int>>, r: nat, c: nat)
    requires IsMatrix(m) && r <= |m| && c <= |m|
    ensures ByRows(m, r, c) == ByCols(m, r, c)
  {
    if r == 0 {
      ByColsNoRows(m, c);
    } else {
      SwapSums(m, r - 1, c);
      ByColsAddRow(m, r, c);
    }
  }

  /** In a skew-symmetric matrix row `u` is column `u` negated. */
  lemma {:induction false} SkewRow(m: seq<seq<int>>, u: int, c: nat)
    requires Skew(m) && 0 <= u < |m| && c <= |m|
    ensures RowSum(m, u, c) == -ColSum(m, u, c)
  {
    if c > 0 {
      SkewRow(m, u, c - 1);
    }
  }

  lemma {:induction false} SkewRows(m: seq<seq<int>>, k: nat)
    requires Skew(m) && k <= |m|
    ensures ByRows(m, k, |m|) == -ByCols(m, |m|, k)
  {
    if k > 0 {
      SkewRows(m, k - 1);
      SkewRow(m, k - 1, |m|);
    }
  }

  /** A skew-symmetric matrix sums to zero. */
  lemma {:induction false} SkewTotal(m: seq<seq<int>>)
    requires Skew(m)
    ensures ByCols(m, |m|, |m|) == 0
  {
    SwapSums(m, |m|, |m|);
    SkewRows(m, |m|);
  }

  /** The sum of `e[v]` over `v < k` other than `s`. */
  function SumExcept(e: seq<int>, s: int, k: nat): int
    requires k <= |e|
  {
    if k == 0 then 0 else SumExcept(e, s, k - 1) + (if k - 1 == s then 0 else e[k - 1])
  }

  /** The inflows of the vertices `v < k` other than `s`. */
  function InFlowExcept(m: seq<seq<int>>, s: int, k: nat): int
    requires IsMatrix(m) && k <= |m|
  {
    if k == 0 then 0 else InFlowExcept(m, s, k - 1) + (if k - 1 == s then 0 else InFlow(m, k - 1))
  }

  lemma {:induction false} InFlowExceptTotal(m: seq<seq<int>>, s: int, k: nat)
    requires IsMatrix(m) && k <= |m| && 0 <= s < |m|
    ensures InFlowExcept(m, s, k) == ByCols(m, |m|, k) - (if s < k then InFlow(m, s) else 0)
  {
    if k > 0 {
      InFlowExceptTotal(m, s, k - 1);
    }
  }

  /** Where `e[v]` is the inflow of every `v` but `s`, the two sums agree. */
  lemma {:induction false} SumExceptInFlow(m: seq<seq<int>>, e: seq<int>, s: int, k: nat)
    requires IsMatrix(m) && |e| == |m| && k <= |m|
    requires forall v :: 0 <= v < |m| && v != s ==> e[v] == InFlow(m, v)
    ensures SumExcept(e, s, k) == InFlowExcept(m, s, k)
  {
    if k > 0 {
      SumExceptInFlow(m, e, s, k - 1);
    }
  }

  lemma {:induction false} SumExceptNonNegative(e: seq<int>, s: int, k: nat)
    requires k <= |e| && forall v :: 0 <= v < |e| && v != s ==> e[v] >= 0
    ensures SumExcept(e, s, k) >= 0
  {
    if k > 0 {
      SumExceptNonNegative(e, s, k - 1);
    }
  }

  /** For a skew-symmetric flow in which every vertex but `s` holds its
      inflow as `e`, the row of `s` sums to what all the other vertices
      hold. */
  lemma {:induction false} SourceRowSum(m: seq<seq<int>>, e: seq<int>, s: int)
    requires Skew(m) && |e| == |m| && 0 <= s < |m|
    requires forall v :: 0 <= v < |m| && v != s ==> e[v] == InFlow(m, v)
    ensures RowSum(m, s, |m|) == SumExcept(e, s, |m|)
  {
    SkewRow(m, s, |m|);
    SkewTotal(m);
    InFlowExceptTotal(m, s, |m|);
    SumExceptInFlow(m, e, s, |m|);
  }

  /** Changing one entry `(x, w)` of column `w` by `d` changes its sum by
      `d`. */
  lemma {:induction false} ColSumPoint(m: seq<seq<int>>, m': seq<seq<int>>, w: int, r: nat, x: int, d: int)
    requires IsMatrix(m) && IsMatrix(m') && |m'| == |m| && 0 <= w < |m| && r <= |m|
    requires forall y :: 0 <= y < r && y != x ==> m'[y][w] == m[y][w]
    requires 0 <= x < r ==> m'[x][w] == m[x][w] + d
    ensures ColSum(m', w, r) == ColSum(m, w, r) + (if 0 <= x < r then d else 0)
  {
    if r > 0 {
      ColSumPoint(m, m', w, r - 1, x, d);
    }
  }
}

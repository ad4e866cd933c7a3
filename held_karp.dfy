/** `tsp_held_karp` of tsp_bruteforce_dp.py: the Held–Karp dynamic program
    over subsets of vertices encoded as bitmasks. `dp[(mask, j)]` is the
    cheapest path that leaves 0, visits the vertices of `mask` once each
    and ends at `j`. */
module HeldKarp {
  import opened Extended
  import opened Bitmasks
  import opened TourSearch

  /** What `dp[(mask, j)]` holds for a `mask` with bit `j` set: the base
      `graph[0][j]` when `j` is alone, else the best extension of a path
      through `mask ^ (1 << j)`. */
  function Dp(graph: seq<seq<int>>, mask: nat, j: nat): (r: Ext)
    requires Square(graph) && 1 <= j < |graph| && Bit(mask, j)
    ensures Bit(mask, 0) ==> r == Inf
    decreases mask, 0
  {
    ClearBit(mask, j, j);
    ClearBit(mask, j, 0);
    ZeroBits(0);
    var prev := mask - Pow2(j);
    if prev == 0 then Fin(graph[0][j]) else Best(graph, prev, j, |graph|)
  }

  /** The `for k in range(1, n)` loop after its first `k - 1` rounds:
      `min(dp[(prev, c)] + graph[c][j])` over the vertices `c < k` other
      than `j` that `prev` holds, `inf` when there are none. */
  function Best(graph: seq<seq<int>>, prev: nat, j: nat, k: nat): (r: Ext)
    requires Square(graph) && 1 <= j < |graph| && k <= |graph|
    ensures Bit(prev, 0) ==> r == Inf
    decreases prev + 1, k
  {
    if k <= 1 then Inf
    else
      var b := Best(graph, prev, j, k - 1);
      if k - 1 != j && Bit(prev, k - 1) then Min(b, Add(Dp(graph, prev, k - 1), graph[k - 1][j])) else b
  }

  /** The final loop after its first `k - 1` rounds: the best path through
      `full_mask - 1` closed by the edge back to 0. */
  function Closing(graph: seq<seq<int>>, k: nat): (r: Ext)
    requires Square(graph) && |graph| >= 2 && k <= |graph|
    ensures r.Fin? <==> k >= 2
  {
    if k <= 1 then Inf
    else
      AllButZero(|graph|, k - 1);
      AllButZero(|graph|, 0);
      DpOptimal(graph, Pow2(|graph|) - 2, k - 1);
      Min(Closing(graph, k - 1), Add(Dp(graph, Pow2(|graph|) - 2, k - 1), graph[k - 1][0]))
  }

  /** The value `tsp_held_karp` returns: `inf` for fewer than two vertices. */
  function HeldKarpValue(graph: seq<seq<int>>): (r: Ext)
    requires Square(graph)
    ensures r.Fin? <==> |graph| >= 2
  {
    if |graph| <= 1 then Inf else Closing(graph, |graph|)
  }

  /** `dp.get(key, float("inf"))`. */
  function Get(dp: map<(int, int), Ext>, key: (int, int)): Ext
  {
    if key in dp then dp[key] else Inf
  }

  /** The base entry `dp[(1 << i, i)]` is present. */
  ghost predicate HasBase(dp: map<(int, int), Ext>, i: nat)
  {
    (Pow2(i), i) in dp
  }

  /** The base entry `dp[(1 << i, i)]` holds `graph[0][i]`. */
  ghost predicate BaseEntry(graph: seq<seq<int>>, dp: map<(int, int), Ext>, i: nat)
  {
    0 < i < |graph| == |graph[0]| && HasBase(dp, i) && dp[(Pow2(i), i)] == Fin(graph[0][i])
  }

  ghost predicate Key(n: int, key: (int, int))
  {
    0 <= key.0 && 1 <= key.1 < n && Bit(key.0, key.1)
  }

  /** `dp` after the masks below `mask` and, for `mask` itself, the
      vertices below `jdone`: every key holds its `Dp` value, and every
      pair computed so far and every base pair is present. */
  ghost predicate Filled(graph: seq<seq<int>>, dp: map<(int, int), Ext>, mask: int, jdone: int)
  {
    Square(graph) &&
    (forall key :: key in dp ==>
       Key(|graph|, key) && dp[key] == Dp(graph, key.0, key.1) &&
       (key.0 < mask || (key.0 == mask && key.1 < jdone) || key.0 == Pow2(key.1))) &&
    (forall m: nat, j: int :: Key(|graph|, (m, j)) && (m < mask || (m == mask && j < jdone)) ==> (m, j) in dp) &&
    (forall i :: 1 <= i < |graph| ==> HasBase(dp, i))
  }

  /** The base entries `dp[(1 << i, i)] = graph[0][i]`. */
  method BaseCases(graph: seq<seq<int>>) returns (dp: map<(int, int), Ext>)
    requires Square(graph)
    ensures forall key :: key in dp ==> 1 <= key.1 < |graph| && key.0 == Pow2(key.1) && dp[key] == Fin(graph[0][key.1])
    ensures forall i :: 1 <= i < |graph| ==> HasBase(dp, i)
  {
    dp := map[];
    var i := 1;
    while i < |graph|
      invariant 1 <= i
      invariant forall key :: key in dp ==> 1 <= key.1 < i && key.1 < |graph| && key.0 == Pow2(key.1) && dp[key] == Fin(graph[0][key.1])
      invariant forall i' :: 1 <= i' < i ==> HasBase(dp, i')
    {
      ghost var dp0 := dp;
      dp := dp[(Pow2(i), i) := Fin(graph[0][i])];
      forall i' | 1 <= i' <= i
        ensures HasBase(dp, i')
      {
        if i' < i {
          assert HasBase(dp0, i');
        }
      }
      i := i + 1;
    }
  }

  /** The base entries already hold their `Dp` values. */
  lemma {:induction false} BaseFilled(graph: seq<seq<int>>, dp: map<(int, int), Ext>)
    requires Square(graph)
    requires forall key :: key in dp ==> 1 <= key.1 < |graph| && key.0 == Pow2(key.1) && dp[key] == Fin(graph[0][key.1])
    requires forall i :: 1 <= i < |graph| ==> HasBase(dp, i)
    ensures Filled(graph, dp, 0, 1)
  {
    forall key | key in dp
      ensures Key(|graph|, key) && dp[key] == Dp(graph, key.0, key.1)
    {
      PowerBits(key.1, key.1);
    }
  }

  /** A vertex `j` that `mask` does not hold adds nothing. */
  lemma {:induction false} FillSkip(graph: seq<seq<int>>, dp: map<(int, int), Ext>, mask: nat, j: int)
    requires Filled(graph, dp, mask, j) && 1 <= j && !Bit(mask, j)
    ensures Filled(graph, dp, mask, j + 1)
  {
  }

  /** `(1 << j, j)` is a base entry, already present. */
  lemma {:induction false} FillBase(graph: seq<seq<int>>, dp: map<(int, int), Ext>, mask: nat, j: int)
    requires Filled(graph, dp, mask, j) && 1 <= j < |graph| && mask == Pow2(j)
    ensures Filled(graph, dp, mask, j + 1)
  {
    assert HasBase(dp, j);
  }

  /** Storing the `Dp` value of `(mask, j)`. */
  lemma {:induction false} FillStep(graph: seq<seq<int>>, dp: map<(int, int), Ext>, mask: nat, j: int, v: Ext)
    requires Filled(graph, dp, mask, j) && Key(|graph|, (mask, j)) && v == Dp(graph, mask, j)
    ensures Filled(graph, dp[(mask, j) := v], mask, j + 1)
  {
    var dp' := dp[(mask, j) := v];
    forall i | 1 <= i < |graph|
      ensures HasBase(dp', i)
    {
      assert HasBase(dp, i);
    }
  }

  /** A finished mask lets the next one start. */
  lemma {:induction false} FillNext(graph: seq<seq<int>>, dp: map<(int, int), Ext>, mask: nat)
    requires Filled(graph, dp, mask, |graph|)
    ensures Filled(graph, dp, mask + 1, 1)
  {
  }

  /** The `for k in range(1, n)` loop for one `(mask, j)`. */
  method BestExtension(graph: seq<seq<int>>, dp: map<(int, int), Ext>, mask: nat, j: int, prev: nat)
    returns (best: Ext)
    requires Filled(graph, dp, mask, j) && 1 <= j < |graph| && prev < mask
    ensures best == Best(graph, prev, j, |graph|)
  {
    best := Inf;
    for k := 1 to |graph|
      invariant best == Best(graph, prev, j, k)
    {
      if k != j && Bit(prev, k) {
        assert Key(|graph|, (prev, k));
        best := Min(best, Add(Get(dp, (prev, k)), graph[k][j]));
      }
    }
  }

  /** The table of `tsp_held_karp`: the base entries, then every `(mask, j)` in increasing
      order of `mask`. Afterwards `dp` holds exactly the pairs of a mask
      below `1 << n` and a vertex `j >= 1` of it, each with its `Dp`
      value; the base entries are unchanged. */
  method BuildTable(graph: seq<seq<int>>) returns (dp: map<(int, int), Ext>)
    requires Square(graph)
    ensures forall key :: key in dp ==> Key(|graph|, key) && key.0 < Pow2(|graph|) && dp[key] == Dp(graph, key.0, key.1)
    ensures forall m: nat, j :: m < Pow2(|graph|) && Key(|graph|, (m, j)) ==> (m, j) in dp
    ensures forall i :: 1 <= i < |graph| ==> BaseEntry(graph, dp, i)
  {
    var n := |graph|;
    dp := BaseCases(graph);
    BaseFilled(graph, dp);
    for mask := 0 to Pow2(n)
      invariant Filled(graph, dp, mask, 1)
    {
      var j := 1;
      while j < n
        invariant 1 <= j && Filled(graph, dp, mask, j)
      {
        if Bit(mask, j) {
          ClearBit(mask, j, j);
          var prev := mask - Pow2(j);
          if prev == 0 {
            FillBase(graph, dp, mask, j);
            j := j + 1;
            continue;
          }
          var best := BestExtension(graph, dp, mask, j, prev);
          FillStep(graph, dp, mask, j, best);
          dp := dp[(mask, j) := best];
        } else {
          FillSkip(graph, dp, mask, j);
        }
        j := j + 1;
      }
      FillNext(graph, dp, mask);
    }
    FillDone(graph, dp);
  }

  /** After the last mask: the keys, their values and the base entries. */
  lemma {:induction false} FillDone(graph: seq<seq<int>>, dp: map<(int, int), Ext>)
    requires Filled(graph, dp, Pow2(|graph|), 1)
    ensures forall key :: key in dp ==> Key(|graph|, key) && key.0 < Pow2(|graph|) && dp[key] == Dp(graph, key.0, key.1)
    ensures forall m: nat, j :: m < Pow2(|graph|) && Key(|graph|, (m, j)) ==> (m, j) in dp
    ensures forall i :: 1 <= i < |graph| ==> BaseEntry(graph, dp, i)
  {
    forall key | key in dp
      ensures key.0 < Pow2(|graph|)
    {
      if key.0 == Pow2(key.1) {
        Pow2Below(key.1, |graph|);
      }
    }
    forall i | 1 <= i < |graph|
      ensures BaseEntry(graph, dp, i)
    {
      PowerBits(i, i);
    }
  }

  lemma {:induction false} Pow2Below(i: nat, n: nat)
    requires i < n
    ensures Pow2(i) < Pow2(n)
  {
    if i < n - 1 {
      Pow2Below(i, n - 1);
    }
  }

  /** The vertices below `k` that `mask` holds, as a multiset. */
  ghost function Members(mask: nat, k: nat): multiset<int>
  {
    if k == 0 then multiset{} else Members(mask, k - 1) + (if Bit(mask, k - 1) then multiset{k - 1} else multiset{})
  }

  lemma {:induction false} MembersIn(mask: nat, k: nat, x: int)
    ensures x in Members(mask, k) <==> 0 <= x < k && Bit(mask, x)
  {
    if k > 0 {
      MembersIn(mask, k - 1, x);
    }
  }

  /** Each member occurs once. */
  lemma {:induction false} MembersCount(mask: nat, k: nat, x: int)
    ensures Members(mask, k)[x] == if 0 <= x < k && Bit(mask, x) then 1 else 0
  {
    if k > 0 {
      MembersCount(mask, k - 1, x);
    }
  }

  lemma {:induction false} MembersZero(k: nat)
    ensures Members(0, k) == multiset{}
  {
    if k > 0 {
      MembersZero(k - 1);
      ZeroBits(k - 1);
    }
  }

  /** Clearing bit `j` removes `j` from the members, if it was counted. */
  lemma MembersClear(mask: nat, j: nat, k: nat)
    requires Bit(mask, j)
    ensures mask >= Pow2(j)
    ensures Members(mask, k) == Members(mask - Pow2(j), k) + if j < k then multiset{j} else multiset{}
  {
    ClearBit(mask, j, j);
    var cleared := mask - Pow2(j);
    var expected := Members(cleared, k) + if j < k then multiset{j} else multiset{};
    forall x
      ensures Members(mask, k)[x] == expected[x]
    {
      MembersCount(cleared, k, x);
      MembersCount(mask, k, x);
      if x >= 0 {
        ClearBit(mask, j, x);
      }
    }
  }

  lemma {:induction false} FullMembers(n: nat, k: nat)
    requires 1 <= k <= n
    ensures Members(Pow2(n) - 2, k) == multiset(Range(1, k))
  {
    AllButZero(n, k - 1);
    if k > 1 {
      FullMembers(n, k - 1);
      RangeSnoc(1, k);
    }
  }

  lemma {:induction false} RangeSnoc(lo: int, hi: int)
    requires lo < hi
    ensures Range(lo, hi) == Range(lo, hi - 1) + [hi - 1]
  {
    assert forall i :: 0 <= i < hi - lo ==> Range(lo, hi)[i] == (Range(lo, hi - 1) + [hi - 1])[i];
  }

  /** `p` visits the vertices of `mask` once each and ends at `j`. */
  ghost predicate Route(graph: seq<seq<int>>, mask: nat, j: int, p: seq<int>)
  {
    Vertices(graph, p) && multiset(p) == Members(mask, |graph|) && p != [] && p[|p| - 1] == j
  }

  /** The cost of the path `[0] + p`. */
  ghost function RouteCost(graph: seq<seq<int>>, p: seq<int>): int
    requires Square(graph) && |graph| >= 1 && Vertices(graph, p)
  {
    assert Vertices(graph, [0] + p) by {
      forall i | 0 < i < |p| + 1
        ensures ([0] + p)[i] == p[i - 1]
      {
      }
    }
    PathCost(graph, [0] + p)
  }

  /** Some route through `mask` to `j` costs `c`. */
  ghost predicate RouteAchieved(graph: seq<seq<int>>, mask: nat, j: int, c: int)
    requires Square(graph) && |graph| >= 1
  {
    exists p :: Route(graph, mask, j, p) && RouteCost(graph, p) == c
  }

  /** No route through `mask` to `j` costs less than `c`. */
  ghost predicate RouteBounded(graph: seq<seq<int>>, mask: nat, j: int, c: int)
    requires Square(graph) && |graph| >= 1
  {
    forall p :: Route(graph, mask, j, p) ==> c <= RouteCost(graph, p)
  }

  /** Extending a route by one more vertex adds one edge. */
  lemma {:induction false} RouteCostSnoc(graph: seq<seq<int>>, q: seq<int>, j: int)
    requires Square(graph) && |graph| >= 1 && Vertices(graph, q) && q != [] && 0 <= j < |graph|
    ensures Vertices(graph, q + [j])
    ensures RouteCost(graph, q + [j]) == RouteCost(graph, q) + graph[q[|q| - 1]][j]
  {
    assert ([0] + (q + [j]))[..|q| + 1] == [0] + q;
    assert [0] + (q + [j]) == ([0] + q) + [j];
  }

  /** `Best` is at most every candidate it ranges over. */
  lemma {:induction false} BestLe(graph: seq<seq<int>>, prev: nat, j: nat, k: nat, c: nat)
    requires Square(graph) && 1 <= j < |graph| && 1 <= c < k <= |graph| && c != j && Bit(prev, c)
    ensures AtMost(Best(graph, prev, j, k), Add(Dp(graph, prev, c), graph[c][j]))
  {
    if c < k - 1 {
      BestLe(graph, prev, j, k - 1, c);
      AtMostTrans(Best(graph, prev, j, k), Best(graph, prev, j, k - 1), Add(Dp(graph, prev, c), graph[c][j]));
    }
  }

  /** A finite `Best` is one of its candidates. */
  lemma {:induction false} BestAttained(graph: seq<seq<int>>, prev: nat, j: nat, k: nat) returns (c: nat)
    requires Square(graph) && 1 <= j < |graph| && k <= |graph| && Best(graph, prev, j, k).Fin?
    ensures 1 <= c < k && c != j && Bit(prev, c) && Best(graph, prev, j, k) == Add(Dp(graph, prev, c), graph[c][j])
  {
    var b := Best(graph, prev, j, k - 1);
    if k - 1 != j && Bit(prev, k - 1) && Best(graph, prev, j, k) == Add(Dp(graph, prev, k - 1), graph[k - 1][j]) {
      c := k - 1;
    } else {
      c := BestAttained(graph, prev, j, k - 1);
    }
  }

  /** A mask holding only `j`: the one route is `[j]`, of cost
      `graph[0][j]`. */
  lemma {:induction false} SingleRoute(graph: seq<seq<int>>, mask: nat, j: nat)
    requires Square(graph) && 1 <= j < |graph| && Bit(mask, j) && mask - Pow2(j) == 0
    ensures Dp(graph, mask, j) == Fin(graph[0][j])
    ensures RouteAchieved(graph, mask, j, graph[0][j])
    ensures RouteBounded(graph, mask, j, graph[0][j])
  {
    var n := |graph|;
    assert Members(mask, n) == multiset{j} by {
      MembersClear(mask, j, n);
      MembersZero(n);
    }
    assert Route(graph, mask, j, [j]);
    assert RouteCost(graph, [j]) == graph[0][j] by {
      assert [0] + [j] == [0, j] && [0, j][..1] == [0];
      assert PathCost(graph, [0, j]) == PathCost(graph, [0]) + graph[0][j];
    }
    forall p | Route(graph, mask, j, p)
      ensures p == [j]
    {
      assert |p| == |multiset(p)| == 1;
      assert p[0] in multiset(p);
    }
  }

  /** A route through `mask ^ (1 << j)` ending at `c`, extended by `j`, is
      a route through `mask` one edge dearer. */
  lemma {:induction false} RouteExtend(graph: seq<seq<int>>, mask: nat, j: nat, c: int, q: seq<int>)
    requires Square(graph) && 1 <= j < |graph| && Bit(mask, j)
    requires mask >= Pow2(j) && Route(graph, mask - Pow2(j), c, q)
    ensures Route(graph, mask, j, q + [j])
    ensures RouteCost(graph, q + [j]) == RouteCost(graph, q) + graph[c][j]
  {
    assert multiset(q + [j]) == Members(mask, |graph|) by {
      MembersClear(mask, j, |graph|);
      MembersIn(mask, |graph|, j);
      assert multiset(q + [j]) == multiset(q) + multiset{j};
    }
    RouteCostSnoc(graph, q, j);
  }

  /** The cheapest route is finite and attained, through a mask that holds
      vertices of the graph other than 0. */
  lemma {:induction false} DpOptimal(graph: seq<seq<int>>, mask: nat, j: nat)
    requires Square(graph) && 1 <= j < |graph| && Bit(mask, j) && !Bit(mask, 0) && mask < Pow2(|graph|)
    ensures Dp(graph, mask, j).Fin?
    ensures RouteAchieved(graph, mask, j, Dp(graph, mask, j).n)
    ensures RouteBounded(graph, mask, j, Dp(graph, mask, j).n)
    decreases mask
  {
    var n := |graph|;
    MembersClear(mask, j, n);
    var prev := mask - Pow2(j);
    ClearBit(mask, j, 0);
    ClearBit(mask, j, j);
    if prev == 0 {
      SingleRoute(graph, mask, j);
    } else {
      var k0 := SomeBit(prev, n);
      DpOptimal(graph, prev, k0);
      BestLe(graph, prev, j, n, k0);
      assert Dp(graph, mask, j) == Best(graph, prev, j, n);
      var c := BestAttained(graph, prev, j, n);
      assert RouteAchieved(graph, mask, j, Dp(graph, mask, j).n) by {
        DpOptimal(graph, prev, c);
        var q :| Route(graph, prev, c, q) && RouteCost(graph, q) == Dp(graph, prev, c).n;
        RouteExtend(graph, mask, j, c, q);
      }
      forall p | Route(graph, mask, j, p)
        ensures Dp(graph, mask, j).n <= RouteCost(graph, p)
      {
        RouteBound(graph, mask, j, p);
      }
    }
  }

  lemma Cancel(a: multiset<int>, b: multiset<int>, j: int)
    requires a + multiset{j} == b + multiset{j}
    ensures a == b
  {
    forall x
      ensures a[x] == b[x]
    {
      assert (a + multiset{j})[x] == (b + multiset{j})[x];
    }
  }

  /** The converse of `RouteExtend`: a route through a mask with more than
      one vertex is a route through the mask without its last vertex `j`,
      ending at some `c` of that mask, then one edge `c -> j`. */
  lemma {:induction false} RouteShrink(graph: seq<seq<int>>, mask: nat, j: nat, p: seq<int>) returns (c: nat, q: seq<int>)
    requires Square(graph) && 1 <= j < |graph| && Bit(mask, j) && !Bit(mask, 0) && mask < Pow2(|graph|)
    requires mask - Pow2(j) != 0 && Route(graph, mask, j, p)
    ensures mask >= Pow2(j) && p == q + [j]
    ensures 1 <= c < |graph| && c != j && Bit(mask - Pow2(j), c) && !Bit(mask - Pow2(j), 0)
    ensures Route(graph, mask - Pow2(j), c, q)
    ensures RouteCost(graph, p) == RouteCost(graph, q) + graph[c][j]
  {
    var n := |graph|;
    MembersClear(mask, j, n);
    var prev := mask - Pow2(j);
    q := p[..|p| - 1];
    assert p == q + [j];
    assert multiset(p) == multiset(q) + multiset{j};
    Cancel(multiset(q), Members(prev, n), j);
    var k0 := SomeBit(prev, n);
    MembersIn(prev, n, k0);
    assert q != [];
    c := q[|q| - 1];
    assert c in multiset(q);
    MembersIn(prev, n, c);
    ClearBit(mask, j, c);
    ClearBit(mask, j, 0);
    RouteCostSnoc(graph, q, c);
    RouteCostSnoc(graph, q, j);
  }

  /** The step of `DpOptimal` that bounds a given route through a mask
      with more than one vertex by the cheaper route through its last
      predecessor. */
  lemma {:induction false} RouteBound(graph: seq<seq<int>>, mask: nat, j: nat, p: seq<int>)
    requires Square(graph) && 1 <= j < |graph| && Bit(mask, j) && !Bit(mask, 0) && mask < Pow2(|graph|)
    requires mask - Pow2(j) != 0 && Route(graph, mask, j, p)
    ensures Dp(graph, mask, j).Fin? && Dp(graph, mask, j).n <= RouteCost(graph, p)
    decreases mask, 0
  {
    var c, q := RouteShrink(graph, mask, j, p);
    var prev := mask - Pow2(j);
    DpOptimal(graph, prev, c);
    BestLe(graph, prev, j, |graph|, c);
  }

  /** `Closing` is at most every candidate. */
  lemma {:induction false} ClosingLe(graph: seq<seq<int>>, k: nat, c: nat)
    requires Square(graph) && |graph| >= 2 && 1 <= c < k <= |graph|
    ensures Bit(Pow2(|graph|) - 2, c)
    ensures AtMost(Closing(graph, k), Add(Dp(graph, Pow2(|graph|) - 2, c), graph[c][0]))
  {
    AllButZero(|graph|, c);
    if c < k - 1 {
      ClosingLe(graph, k - 1, c);
      AtMostTrans(Closing(graph, k), Closing(graph, k - 1), Add(Dp(graph, Pow2(|graph|) - 2, c), graph[c][0]));
    }
  }

  /** A finite `Closing` is one of its candidates. */
  lemma {:induction false} ClosingAttained(graph: seq<seq<int>>, k: nat) returns (c: nat)
    requires Square(graph) && |graph| >= 2 && k <= |graph| && Closing(graph, k).Fin?
    ensures 1 <= c < k && Bit(Pow2(|graph|) - 2, c)
    ensures Closing(graph, k) == Add(Dp(graph, Pow2(|graph|) - 2, c), graph[c][0])
  {
    AllButZero(|graph|, k - 1);
    if Closing(graph, k) == Add(Dp(graph, Pow2(|graph|) - 2, k - 1), graph[k - 1][0]) {
      c := k - 1;
    } else {
      c := ClosingAttained(graph, k - 1);
    }
  }

  /** A tour is a route through `full_mask - 1` closed by its last edge. */
  lemma {:induction false} TourIsRoute(graph: seq<seq<int>>, p: seq<int>)
    requires Square(graph) && |graph| >= 2 && Ordering(|graph|, p)
    ensures p != [] && Route(graph, Pow2(|graph|) - 2, p[|p| - 1], p)
    ensures TourCost(graph, p) == RouteCost(graph, p) + graph[p[|p| - 1]][0]
  {
    var n := |graph|;
    FullMembers(n, n);
    assert 1 in multiset(Range(1, n));
    OrderingVertices(graph, p);
    assert Vertices(graph, p) by {
      forall i | 0 <= i < |p|
        ensures 0 <= p[i] < n
      {
        assert p[i] == ([0] + p + [0])[i + 1];
      }
    }
    RouteCostSnoc(graph, p, 0);
    assert [0] + p + [0] == [0] + (p + [0]);
  }

  /** The closing step reaches the cost of some tour. */
  lemma {:induction false} ClosingAchieved(graph: seq<seq<int>>)
    requires Square(graph) && |graph| >= 2
    ensures Closing(graph, |graph|).Fin? && Achieved(graph, Closing(graph, |graph|).n)
  {
    var n := |graph|;
    var full := Pow2(n) - 2;
    AllButZero(n, 0);
    AllButZero(n, 1);
    DpOptimal(graph, full, 1);
    ClosingLe(graph, n, 1);
    var c := ClosingAttained(graph, n);
    DpOptimal(graph, full, c);
    var p :| Route(graph, full, c, p) && RouteCost(graph, p) == Dp(graph, full, c).n;
    assert Ordering(n, p) by {
      FullMembers(n, n);
    }
    TourIsRoute(graph, p);
  }

  /** No tour is cheaper than the closing step. */
  lemma {:induction false} ClosingBounded(graph: seq<seq<int>>, q: seq<int>)
    requires Square(graph) && |graph| >= 2 && Ordering(|graph|, q)
    ensures Closing(graph, |graph|).Fin? && Closing(graph, |graph|).n <= TourCost(graph, q)
  {
    var n := |graph|;
    var full := Pow2(n) - 2;
    TourIsRoute(graph, q);
    var j := q[|q| - 1];
    MembersIn(full, n, j);
    AllButZero(n, 0);
    AllButZero(n, j);
    DpOptimal(graph, full, j);
    ClosingLe(graph, n, j);
  }

  /** For two or more vertices, the Held–Karp value is the cheapest tour
      cost, the one `tsp_bruteforce` returns. */
  lemma {:induction false} HeldKarpOptimal(graph: seq<seq<int>>)
    requires Square(graph) && |graph| >= 2
    ensures HeldKarpValue(graph).Fin? && Optimal(graph, HeldKarpValue(graph).n)
  {
    ClosingAchieved(graph);
    forall q | Ordering(|graph|, q)
      ensures HeldKarpValue(graph).n <= TourCost(graph, q)
    {
      ClosingBounded(graph, q);
    }
  }

  /** The equivalence the program's demo prints side by side. */
  lemma {:induction false} HeldKarpMatchesBruteForce(graph: seq<seq<int>>, bruteForce: int)
    requires Square(graph) && |graph| >= 2 && Optimal(graph, bruteForce)
    ensures HeldKarpValue(graph) == Fin(bruteForce)
  {
    HeldKarpOptimal(graph);
    OptimalUnique(graph, HeldKarpValue(graph).n, bruteForce);
  }

  /** `tsp_held_karp(graph)`. */
  method TspHeldKarp(graph: seq<seq<int>>) returns (result: Ext)
    requires Square(graph)
    ensures result == HeldKarpValue(graph)
    ensures |graph| <= 1 ==> result == Inf
    ensures |graph| >= 2 ==> result.Fin? && Optimal(graph, result.n)
  {
    var n := |graph|;
    var dp := BuildTable(graph);
    var fullMask := Pow2(n) - 1;
    result := Inf;
    var j := 1;
    while j < n
      invariant 1 <= j && (n <= 1 ==> result == Inf) && (n >= 2 ==> j <= n && result == Closing(graph, j))
    {
      AllButZero(n, j);
      result := Min(result, Add(dp[(fullMask - 1, j)], graph[j][0]));
      j := j + 1;
    }
    if n >= 2 {
      HeldKarpOptimal(graph);
    }
  }
}

/** `tsp_bruteforce` of tsp_bruteforce_dp.py (and its copy in
    poly_vs_nphard.py): the cheapest tour that leaves vertex 0, visits
    every other vertex once and returns, found by trying every order of
    the vertices `1 .. n - 1` that `itertools.permutations` yields. */
module TourSearch {
  import opened Extended

  /** `n` rows of `n` weights. */
  ghost predicate Square(graph: seq<seq<int>>)
  {
    forall u :: 0 <= u < |graph| ==> |graph[u]| == |graph|
  }

  /** `list(range(lo, hi))`. */
  function Range(lo: int, hi: int): (r: seq<int>)
    decreases hi - lo
    ensures |r| == if lo <= hi then hi - lo else 0
    ensures forall i :: 0 <= i < |r| ==> r[i] == lo + i
  {
    if lo >= hi then [] else [lo] + Range(lo + 1, hi)
  }

  ghost predicate Vertices(graph: seq<seq<int>>, path: seq<int>)
  {
    forall i :: 0 <= i < |path| ==> 0 <= path[i] < |graph|
  }

  /** The weight of the edges along `path`. */
  ghost function PathCost(graph: seq<seq<int>>, path: seq<int>): int
    requires Square(graph) && Vertices(graph, path)
  {
    if |path| <= 1 then 0
    else PathCost(graph, path[..|path| - 1]) + graph[path[|path| - 2]][path[|path| - 1]]
  }

  /** `p` orders the vertices `1 .. n - 1`: each appears once. */
  ghost predicate Ordering(n: int, p: seq<int>)
  {
    multiset(p) == multiset(Range(1, n))
  }

  lemma {:induction false} OrderingVertices(graph: seq<seq<int>>, p: seq<int>)
    requires |graph| >= 1 && Ordering(|graph|, p)
    ensures Vertices(graph, [0] + p + [0])
  {
    forall i | 0 <= i < |p|
      ensures 1 <= p[i] < |graph|
    {
      assert p[i] in multiset(Range(1, |graph|));
      var j :| 0 <= j < |Range(1, |graph|)| && Range(1, |graph|)[j] == p[i];
    }
    var path := [0] + p + [0];
    forall i | 0 <= i < |path|
      ensures 0 <= path[i] < |graph|
    {
      if 0 < i < |path| - 1 {
        assert path[i] == p[i - 1];
      }
    }
  }

  /** The cost of the tour `[0] + p + [0]`. */
  ghost function TourCost(graph: seq<seq<int>>, p: seq<int>): int
    requires Square(graph) && |graph| >= 1 && Ordering(|graph|, p)
  {
    OrderingVertices(graph, p);
    PathCost(graph, [0] + p + [0])
  }

  /** Some tour costs `c`. */
  ghost predicate Achieved(graph: seq<seq<int>>, c: int)
    requires Square(graph) && |graph| >= 1
  {
    exists p :: Ordering(|graph|, p) && TourCost(graph, p) == c
  }

  /** No tour costs less than `c`. */
  ghost predicate Bounded(graph: seq<seq<int>>, c: int)
    requires Square(graph) && |graph| >= 1
  {
    forall p :: Ordering(|graph|, p) ==> c <= TourCost(graph, p)
  }

  /** `c` is the cost of a cheapest tour. */
  ghost predicate Optimal(graph: seq<seq<int>>, c: int)
    requires Square(graph) && |graph| >= 1
  {
    Achieved(graph, c) && Bounded(graph, c)
  }

  /** There is only one cheapest cost. */
  lemma {:induction false} OptimalUnique(graph: seq<seq<int>>, c: int, d: int)
    requires Square(graph) && |graph| >= 1 && Optimal(graph, c) && Optimal(graph, d)
    ensures c == d
  {
    var p :| Ordering(|graph|, p) && TourCost(graph, p) == c;
    var q :| Ordering(|graph|, q) && TourCost(graph, q) == d;
  }

  /** `xs` without its `i`-th element. */
  function Remove(xs: seq<int>, i: int): (r: seq<int>)
    requires 0 <= i < |xs|
    ensures |r| == |xs| - 1
    ensures multiset(r) == multiset(xs) - multiset{xs[i]}
  {
    assert xs == xs[..i] + [xs[i]] + xs[i + 1..];
    xs[..i] + xs[i + 1..]
  }

  /** `[x] + q` for every `q` in `ps`, in order. */
  function Prepend(x: int, ps: seq<seq<int>>): (r: seq<seq<int>>)
    ensures |r| == |ps| && forall k :: 0 <= k < |ps| ==> r[k] == [x] + ps[k]
  {
    seq(|ps|, k requires 0 <= k < |ps| => [x] + ps[k])
  }

  /** `n!`. */
  function Factorial(n: nat): nat
  {
    if n == 0 then 1 else n * Factorial(n - 1)
  }

  /** `itertools.permutations(xs)`: every order of `xs`, grouped by the
      position of the first element taken; each is as long as `xs`. */
  function Perms(xs: seq<int>): (ps: seq<seq<int>>)
    ensures forall k :: 0 <= k < |ps| ==> |ps[k]| == |xs|
    decreases |xs|, 1, 0
  {
    if xs == [] then [[]] else PermsFrom(xs, 0)
  }

  /** The orders of `xs` whose first element is taken from position `i` or
      later. */
  function PermsFrom(xs: seq<int>, i: nat): (ps: seq<seq<int>>)
    requires i <= |xs|
    ensures forall k :: 0 <= k < |ps| ==> |ps[k]| == |xs|
    decreases |xs|, 0, |xs| - i
  {
    if i == |xs| then [] else Prepend(xs[i], Perms(Remove(xs, i))) + PermsFrom(xs, i + 1)
  }

  /** `permutations(xs)` yields `|xs|!` orderings. */
  lemma {:induction false} PermsCount(xs: seq<int>)
    ensures |Perms(xs)| == Factorial(|xs|)
    decreases |xs|, 1
  {
    if xs != [] {
      PermsFromCount(xs, 0);
    }
  }

  /** Each first position contributes `(|xs| - 1)!` orderings. */
  lemma {:induction false} PermsFromCount(xs: seq<int>, i: nat)
    requires xs != [] && i <= |xs|
    ensures |PermsFrom(xs, i)| == (|xs| - i) * Factorial(|xs| - 1)
    decreases |xs|, 0, |xs| - i
  {
    if i < |xs| {
      PermsCount(Remove(xs, i));
      PermsFromCount(xs, i + 1);
      var f := Factorial(|xs| - 1);
      assert (|xs| - i) * f == f + (|xs| - i - 1) * f;
    }
  }

  /** Every order `Perms` yields holds the elements of `xs`. */
  lemma {:induction false} PermsSound(xs: seq<int>, q: seq<int>)
    requires q in Perms(xs)
    ensures multiset(q) == multiset(xs)
    decreases |xs|, 1, 0
  {
    if xs != [] {
      PermsFromSound(xs, 0, q);
    }
  }

  lemma {:induction false} PermsFromSound(xs: seq<int>, i: nat, q: seq<int>)
    requires i <= |xs| && q in PermsFrom(xs, i)
    ensures multiset(q) == multiset(xs)
    decreases |xs|, 0, |xs| - i
  {
    var ps := Prepend(xs[i], Perms(Remove(xs, i)));
    if q in ps {
      var k :| 0 <= k < |ps| && ps[k] == q;
      PermsSound(Remove(xs, i), Perms(Remove(xs, i))[k]);
    } else {
      PermsFromSound(xs, i + 1, q);
    }
  }

  lemma {:induction false} PermsFromHas(xs: seq<int>, i: nat, j: nat, q: seq<int>)
    requires i <= j < |xs| && q in Perms(Remove(xs, j))
    ensures [xs[j]] + q in PermsFrom(xs, i)
    decreases |xs| - i
  {
    if i < j {
      PermsFromHas(xs, i + 1, j, q);
    } else {
      var k :| 0 <= k < |Perms(Remove(xs, j))| && Perms(Remove(xs, j))[k] == q;
      assert Prepend(xs[j], Perms(Remove(xs, j)))[k] == [xs[j]] + q;
    }
  }

  /** Every order of `xs` is among those `Perms` yields. */
  lemma {:induction false} PermsComplete(xs: seq<int>, q: seq<int>)
    requires multiset(q) == multiset(xs)
    ensures q in Perms(xs)
    decreases |xs|
  {
    if xs == [] {
      assert q == [];
    } else {
      assert q[0] in multiset(xs);
      var i :| 0 <= i < |xs| && xs[i] == q[0];
      assert q == [q[0]] + q[1..];
      assert multiset(q[1..]) == multiset(q) - multiset{q[0]};
      PermsComplete(Remove(xs, i), q[1..]);
      PermsFromHas(xs, 0, i, q[1..]);
    }
  }

  /** The inner loop of `tsp_bruteforce`: adds up the edges of `path`. */
  method WalkCost(graph: seq<seq<int>>, path: seq<int>) returns (cost: int)
    requires Square(graph) && Vertices(graph, path) && |path| >= 1
    ensures cost == PathCost(graph, path)
  {
    cost := 0;
    for e := 0 to |path| - 1
      invariant cost == PathCost(graph, path[..e + 1])
    {
      assert path[..e + 2][..e + 1] == path[..e + 1];
      cost := cost + graph[path[e]][path[e + 1]];
    }
    assert path[..|path|] == path;
  }

  /** Each of `perms` orders the vertices `1 .. n - 1`. */
  ghost predicate Orderings(n: int, perms: seq<seq<int>>)
  {
    forall k :: 0 <= k < |perms| ==> Ordering(n, perms[k])
  }

  /** The `for perm in ...` loop of `tsp_bruteforce`: the least tour cost
      over `perms`, starting from `float("inf")`. */
  method Cheapest(graph: seq<seq<int>>, perms: seq<seq<int>>) returns (best: Ext)
    requires Square(graph) && |graph| >= 1 && Orderings(|graph|, perms)
    ensures best == Inf <==> perms == []
    ensures forall k :: 0 <= k < |perms| ==> AtMost(best, Fin(TourCost(graph, perms[k])))
    ensures best.Fin? ==> exists k :: 0 <= k < |perms| && TourCost(graph, perms[k]) == best.n
  {
    best := Inf;
    for i := 0 to |perms|
      invariant best == Inf <==> i == 0
      invariant forall k :: 0 <= k < i ==> AtMost(best, Fin(TourCost(graph, perms[k])))
      invariant best.Fin? ==> exists k :: 0 <= k < i && TourCost(graph, perms[k]) == best.n
    {
      OrderingVertices(graph, perms[i]);
      var cost := WalkCost(graph, [0] + perms[i] + [0]);
      best := Min(best, Fin(cost));
    }
  }

  /** The orders `itertools.permutations(range(1, n))` yields are exactly
      the orderings of `1 .. n - 1`. */
  lemma {:induction false} PermsOrderings(n: int)
    ensures Orderings(n, Perms(Range(1, n)))
    ensures forall p :: Ordering(n, p) ==> p in Perms(Range(1, n))
  {
    var perms := Perms(Range(1, n));
    forall k | 0 <= k < |perms|
      ensures Ordering(n, perms[k])
    {
      PermsSound(Range(1, n), perms[k]);
    }
    forall p | Ordering(n, p)
      ensures p in perms
    {
      PermsComplete(Range(1, n), p);
    }
  }

  /** `tsp_bruteforce(graph)`. An empty graph fails at `graph[0][0]`. */
  method TspBruteForce(graph: seq<seq<int>>) returns (minCost: int)
    requires Square(graph) && |graph| >= 1
    ensures Optimal(graph, minCost)
  {
    var perms := Perms(Range(1, |graph|));
    PermsOrderings(|graph|);
    assert Range(1, |graph|) in perms;
    var best := Cheapest(graph, perms);
    minCost := best.n;
    ghost var j :| 0 <= j < |perms| && TourCost(graph, perms[j]) == minCost;
    forall p | Ordering(|graph|, p)
      ensures minCost <= TourCost(graph, p)
    {
      var k :| 0 <= k < |perms| && perms[k] == p;
    }
  }

  /** With one vertex the only tour is the loop `[0, 0]`. */
  lemma {:induction false} SingleVertex(graph: seq<seq<int>>, c: int)
    requires Square(graph) && |graph| == 1 && Optimal(graph, c)
    ensures c == graph[0][0]
  {
    var p :| Ordering(1, p) && TourCost(graph, p) == c;
    assert |p| == |multiset(p)| == 0;
    assert [0] + p + [0] == [0, 0];
    assert [0, 0][..1] == [0];
    assert PathCost(graph, [0, 0]) == PathCost(graph, [0]) + graph[0][0];
  }
}

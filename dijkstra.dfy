/** `dijkstra` of poly_vs_nphard.py: lazy Dijkstra over an adjacency list
    `graph[u] = [(v, w), ...]`, with a priority queue of `(distance,
    vertex)` pairs from which stale entries are skipped when popped. */
module ShortestPaths {
  import opened Extended

  /** Every edge ends at a vertex of the graph and has a non-negative weight. */
  ghost predicate Graph(graph: seq<seq<(int, int)>>)
  {
    forall u, k :: 0 <= u < |graph| && 0 <= k < |graph[u]| ==>
      0 <= graph[u][k].0 < |graph| && graph[u][k].1 >= 0
  }

  /** The lexicographic order of Python tuples. */
  predicate PairLess(a: (int, int), b: (int, int))
  {
    a.0 < b.0 || (a.0 == b.0 && a.1 < b.1)
  }

  /** The position of the entry `heapq.heappop` returns: a least pair. */
  function Smallest(pq: seq<(int, int)>): (i: nat)
    requires pq != []
    ensures i < |pq| && forall j :: 0 <= j < |pq| ==> !PairLess(pq[j], pq[i])
  {
    if |pq| == 1 then 0
    else
      var i := Smallest(pq[..|pq| - 1]);
      if PairLess(pq[|pq| - 1], pq[i]) then |pq| - 1 else i
  }

  /** Removing the entry at `i` keeps every other entry. */
  lemma {:induction false} RemoveKeeps(pq: seq<(int, int)>, i: nat, y: (int, int))
    requires i < |pq| && y in pq && y != pq[i]
    ensures y in pq[..i] + pq[i + 1..]
  {
    var j :| 0 <= j < |pq| && pq[j] == y;
    if j < i {
      assert (pq[..i] + pq[i + 1..])[j] == y;
    } else {
      assert (pq[..i] + pq[i + 1..])[j - 1] == y;
    }
  }

  /** A hop `(x, k)` takes the `k`-th edge out of `x`. */
  ghost predicate Hop(graph: seq<seq<(int, int)>>, h: (int, int))
  {
    0 <= h.0 < |graph| && 0 <= h.1 < |graph[h.0]|
  }

  /** `hops` is a walk from `s` to `v`. */
  ghost predicate Walk(graph: seq<seq<(int, int)>>, s: int, v: int, hops: seq<(int, int)>)
    decreases |hops|
  {
    if hops == [] then v == s
    else
      var h := hops[|hops| - 1];
      Hop(graph, h) && graph[h.0][h.1].0 == v && Walk(graph, s, h.0, hops[..|hops| - 1])
  }

  /** The total weight of the edges a walk takes. */
  ghost function Weight(graph: seq<seq<(int, int)>>, hops: seq<(int, int)>): int
  {
    if hops == [] then 0
    else
      var h := hops[|hops| - 1];
      Weight(graph, hops[..|hops| - 1]) + (if Hop(graph, h) then graph[h.0][h.1].1 else 0)
  }

  lemma {:induction false} WalkExtend(graph: seq<seq<(int, int)>>, s: int, u: int, k: int, hops: seq<(int, int)>)
    requires Walk(graph, s, u, hops) && Hop(graph, (u, k))
    ensures Walk(graph, s, graph[u][k].0, hops + [(u, k)])
    ensures Weight(graph, hops + [(u, k)]) == Weight(graph, hops) + graph[u][k].1
  {
    assert (hops + [(u, k)])[..|hops|] == hops;
  }

  /** Some walk from `s` to `v` weighs `w`. */
  ghost predicate Reaches(graph: seq<seq<(int, int)>>, s: int, v: int, w: int)
  {
    exists hops :: Walk(graph, s, v, hops) && Weight(graph, hops) == w
  }

  /** No walk from `s` reaches `v`. */
  ghost predicate Unreached(graph: seq<seq<(int, int)>>, s: int, v: int)
  {
    forall hops :: !Walk(graph, s, v, hops)
  }

  /** Every edge out of `u` is relaxed: `dist[v] <= dist[u] + w`. */
  ghost predicate Relaxed(graph: seq<seq<(int, int)>>, dist: seq<Ext>, u: int)
    requires Graph(graph) && |dist| == |graph| && 0 <= u < |graph|
  {
    forall k :: 0 <= k < |graph[u]| ==> AtMost(dist[graph[u][k].0], Add(dist[u], graph[u][k].1))
  }

  /** Where every edge is relaxed and the start is at 0, no walk from the
      start to `v` weighs less than `dist[v]`. */
  lemma {:induction false} WalkBound(graph: seq<seq<(int, int)>>, start: int, dist: seq<Ext>, v: int, hops: seq<(int, int)>)
    requires Graph(graph) && |dist| == |graph| && 0 <= start < |graph| && dist[start] == Fin(0)
    requires forall u :: 0 <= u < |graph| ==> Relaxed(graph, dist, u)
    requires 0 <= v < |graph| && Walk(graph, start, v, hops)
    ensures AtMost(dist[v], Fin(Weight(graph, hops)))
    decreases |hops|
  {
    if hops != [] {
      var h := hops[|hops| - 1];
      WalkBound(graph, start, dist, h.0, hops[..|hops| - 1]);
      assert Relaxed(graph, dist, h.0);
      assert AtMost(dist[v], Add(dist[h.0], graph[h.0][h.1].1));
    }
  }

  /** Each finite `dist[v]` is non-negative and is the weight of the walk
      `wit[v]` from the start to `v`. */
  ghost predicate Witnessed(graph: seq<seq<(int, int)>>, start: int, dist: seq<Ext>, wit: seq<seq<(int, int)>>)
  {
    |dist| == |graph| && |wit| == |graph| &&
    forall v :: 0 <= v < |graph| && dist[v].Fin? ==>
      dist[v].n >= 0 && Walk(graph, start, v, wit[v]) && Weight(graph, wit[v]) == dist[v].n
  }

  /** The number of infinite distances. */
  function InfCount(d: seq<Ext>): nat
  {
    if d == [] then 0 else InfCount(d[..|d| - 1]) + (if d[|d| - 1].Inf? then 1 else 0)
  }

  /** The sum of the non-negative finite distances. */
  function FiniteSum(d: seq<Ext>): nat
  {
    if d == [] then 0
    else FiniteSum(d[..|d| - 1]) + (if d[|d| - 1].Fin? && d[|d| - 1].n >= 0 then d[|d| - 1].n else 0)
  }

  lemma {:induction false} UpdateCounts(d: seq<Ext>, v: int, x: Ext)
    requires 0 <= v < |d|
    ensures InfCount(d[v := x]) == InfCount(d) - (if d[v].Inf? then 1 else 0) + (if x.Inf? then 1 else 0)
    ensures FiniteSum(d[v := x]) ==
      FiniteSum(d) - (if d[v].Fin? && d[v].n >= 0 then d[v].n else 0) + (if x.Fin? && x.n >= 0 then x.n else 0)
  {
    var e := d[v := x];
    if v < |d| - 1 {
      assert e[..|e| - 1] == d[..|d| - 1][v := x];
      UpdateCounts(d[..|d| - 1], v, x);
    } else {
      assert e[..|e| - 1] == d[..|d| - 1];
    }
  }

  /** `d` is further along than `d0`: fewer infinite distances, or as many
      and a smaller sum. */
  predicate Lower(d: seq<Ext>, d0: seq<Ext>)
  {
    InfCount(d) < InfCount(d0) || (InfCount(d) == InfCount(d0) && FiniteSum(d) < FiniteSum(d0))
  }

  /** Lowering one non-negative distance makes progress. */
  lemma {:induction false} LowerOne(d: seq<Ext>, v: int, x: int)
    requires 0 <= v < |d| && 0 <= x && Less(Fin(x), d[v])
    requires d[v].Fin? ==> d[v].n >= 0
    ensures Lower(d[v := Fin(x)], d)
  {
    UpdateCounts(d, v, Fin(x));
  }

  /** Distances that are reached by walks and bound every walk are
      infinite exactly for the vertices no walk from the start reaches. */
  lemma {:induction false} InfUnreached(graph: seq<seq<(int, int)>>, start: int, dist: seq<Ext>, v: int)
    requires |dist| == |graph| && 0 <= v < |graph|
    requires dist[v].Fin? ==> Reaches(graph, start, v, dist[v].n)
    requires forall hops :: Walk(graph, start, v, hops) ==> AtMost(dist[v], Fin(Weight(graph, hops)))
    ensures dist[v] == Inf <==> Unreached(graph, start, v)
  {
    if dist[v].Fin? {
      var hops :| Walk(graph, start, v, hops) && Weight(graph, hops) == dist[v].n;
      assert exists h :: Walk(graph, start, v, h);
    }
  }

  /** Each vertex either waits in the queue with its current distance or
      has all its edges relaxed. */
  ghost predicate Pending(graph: seq<seq<(int, int)>>, dist: seq<Ext>, pq: seq<(int, int)>, u: int)
    requires Graph(graph) && |dist| == |graph| && 0 <= u < |graph|
  {
    (dist[u].Fin? && (dist[u].n, u) in pq) || Relaxed(graph, dist, u)
  }

  /** The state of the inner loop after the first `k` edges out of `u`:
      distances only dropped, `u`'s own unchanged, those `k` edges relaxed,
      each dropped distance queued, and progress made unless nothing
      changed. */
  ghost predicate Relaxing(graph: seq<seq<(int, int)>>, u: int, dist0: seq<Ext>, pq0: seq<(int, int)>,
                           k: int, dist: seq<Ext>, pq: seq<(int, int)>)
  {
    Graph(graph) && 0 <= u < |graph| && 0 <= k <= |graph[u]| && |dist0| == |graph| && |dist| == |graph| &&
    (forall v :: 0 <= v < |graph| ==> AtMost(dist[v], dist0[v])) &&
    dist[u] == dist0[u] &&
    (forall j :: 0 <= j < k ==> AtMost(dist[graph[u][j].0], Add(dist[u], graph[u][j].1))) &&
    (forall v :: 0 <= v < |graph| && dist[v] != dist0[v] ==> dist[v].Fin? && (dist[v].n, v) in pq) &&
    |pq0| <= |pq| && pq[..|pq0|] == pq0 &&
    (forall i :: |pq0| <= i < |pq| ==> 0 <= pq[i].1 < |graph|) &&
    ((dist == dist0 && pq == pq0) || Lower(dist, dist0))
  }

  /** Lowering `dist[v]` to `dist[u] + w` along edge `k` of `u` extends
      the witness walk of `u` to one for `v`. */
  lemma {:induction false} WitnessLower(graph: seq<seq<(int, int)>>, start: int, u: int, k: int,
                                        dist: seq<Ext>, wit: seq<seq<(int, int)>>)
    requires Graph(graph) && 0 <= u < |graph| && 0 <= k < |graph[u]|
    requires Witnessed(graph, start, dist, wit) && dist[u].Fin?
    ensures var (v, x) := (graph[u][k].0, dist[u].n + graph[u][k].1);
      Witnessed(graph, start, dist[v := Fin(x)], wit[v := wit[u] + [(u, k)]])
  {
    WalkExtend(graph, start, u, k, wit[u]);
  }

  /** Lowering one distance and queueing it keeps every changed distance
      queued. */
  lemma {:induction false} QueueLower(dist0: seq<Ext>, dist: seq<Ext>, pq: seq<(int, int)>, v: int, x: int)
    requires |dist| == |dist0| && 0 <= v < |dist|
    requires forall y :: 0 <= y < |dist| && dist[y] != dist0[y] ==> dist[y].Fin? && (dist[y].n, y) in pq
    ensures forall y :: 0 <= y < |dist| && dist[v := Fin(x)][y] != dist0[y] ==>
      dist[v := Fin(x)][y].Fin? && (dist[v := Fin(x)][y].n, y) in pq + [(x, v)]
  {
    var pq' := pq + [(x, v)];
    forall y | 0 <= y < |dist| && dist[v := Fin(x)][y] != dist0[y]
      ensures (dist[v := Fin(x)][y].n, y) in pq'
    {
      if y != v {
        var i :| 0 <= i < |pq| && pq[i] == (dist[y].n, y);
        assert pq'[i] == pq[i];
      } else {
        assert pq'[|pq|] == (x, v);
      }
    }
  }

  /** Lowering the end of edge `k` keeps the first `k` edges relaxed and
      relaxes edge `k`. */
  lemma {:induction false} PrefixLower(graph: seq<seq<(int, int)>>, u: int, k: int, dist: seq<Ext>)
    requires Graph(graph) && 0 <= u < |graph| && 0 <= k < |graph[u]| && |dist| == |graph|
    requires forall j :: 0 <= j < k ==> AtMost(dist[graph[u][j].0], Add(dist[u], graph[u][j].1))
    requires Less(Add(dist[u], graph[u][k].1), dist[graph[u][k].0])
    ensures var d := dist[graph[u][k].0 := Add(dist[u], graph[u][k].1)];
      d[u] == dist[u] && forall j :: 0 <= j < k + 1 ==> AtMost(d[graph[u][j].0], Add(d[u], graph[u][j].1))
  {
    var d := dist[graph[u][k].0 := Add(dist[u], graph[u][k].1)];
    forall j | 0 <= j < k
      ensures AtMost(d[graph[u][j].0], Add(d[u], graph[u][j].1))
    {
      AtMostTrans(d[graph[u][j].0], dist[graph[u][j].0], Add(dist[u], graph[u][j].1));
    }
  }

  /** Edge `k` leads to a shorter distance for its end `v`: lower it to
      `dist[u] + w` and queue `v`. */
  lemma {:induction false} RelaxLower(graph: seq<seq<(int, int)>>, u: int, dist0: seq<Ext>, pq0: seq<(int, int)>,
                                      k: int, dist: seq<Ext>, pq: seq<(int, int)>, v: int, x: int)
    requires 0 <= u < |graph| && 0 <= k < |graph[u]| && |dist| == |graph| && 0 <= v < |graph|
    requires Relaxing(graph, u, dist0, pq0, k, dist, pq)
    requires graph[u][k].0 == v && Add(dist[u], graph[u][k].1) == Fin(x) && Less(Fin(x), dist[v])
    requires 0 <= x && (dist[v].Fin? ==> dist[v].n >= 0)
    ensures Relaxing(graph, u, dist0, pq0, k + 1, dist[v := Fin(x)], pq + [(x, v)])
  {
    LowerOne(dist, v, x);
    QueueLower(dist0, dist, pq, v, x);
    PrefixLower(graph, u, k, dist);
    var dist' := dist[v := Fin(x)];
    forall y | 0 <= y < |graph|
      ensures AtMost(dist'[y], dist0[y])
    {
      AtMostTrans(dist'[y], dist[y], dist0[y]);
    }
    assert (pq + [(x, v)])[..|pq0|] == pq[..|pq0|];
  }

  /** Edge `k` is already relaxed: nothing changes. */
  lemma {:induction false} RelaxKeep(graph: seq<seq<(int, int)>>, u: int, dist0: seq<Ext>, pq0: seq<(int, int)>,
                                     k: int, dist: seq<Ext>, pq: seq<(int, int)>)
    requires Relaxing(graph, u, dist0, pq0, k, dist, pq) && k < |graph[u]|
    requires !Less(Add(dist[u], graph[u][k].1), dist[graph[u][k].0])
    ensures Relaxing(graph, u, dist0, pq0, k + 1, dist, pq)
  {
  }

  /** The inner `for v, w in graph[u]` loop: relaxes every edge out of `u`
      and queues each vertex whose distance drops. */
  method RelaxEdges(graph: seq<seq<(int, int)>>, ghost start: int, u: int, dist0: seq<Ext>, pq0: seq<(int, int)>,
                    ghost wit0: seq<seq<(int, int)>>)
    returns (dist: seq<Ext>, pq: seq<(int, int)>, ghost wit: seq<seq<(int, int)>>)
    requires Graph(graph) && 0 <= u < |graph| && Witnessed(graph, start, dist0, wit0)
    ensures Witnessed(graph, start, dist, wit)
    ensures forall v :: 0 <= v < |graph| ==> AtMost(dist[v], dist0[v])
    ensures dist[u] == dist0[u] && Relaxed(graph, dist, u)
    ensures forall v :: 0 <= v < |graph| && dist[v] != dist0[v] ==> dist[v].Fin? && (dist[v].n, v) in pq
    ensures |pq0| <= |pq| && pq[..|pq0|] == pq0
    ensures forall i :: |pq0| <= i < |pq| ==> 0 <= pq[i].1 < |graph|
    ensures (dist == dist0 && pq == pq0) || Lower(dist, dist0)
  {
    dist, pq, wit := dist0, pq0, wit0;
    for k := 0 to |graph[u]|
      invariant Relaxing(graph, u, dist0, pq0, k, dist, pq)
      invariant Witnessed(graph, start, dist, wit)
    {
      var (v, w) := graph[u][k];
      if Less(Add(dist[u], w), dist[v]) {
        var x := dist[u].n + w;
        RelaxLower(graph, u, dist0, pq0, k, dist, pq, v, x);
        WitnessLower(graph, start, u, k, dist, wit);
        wit := wit[v := wit[u] + [(u, k)]];
        dist := dist[v := Fin(x)];
        pq := pq + [(x, v)];
      } else {
        RelaxKeep(graph, u, dist0, pq0, k, dist, pq);
      }
    }
  }

  /** After popping an entry for `u`, every other vertex is still pending. */
  lemma {:induction false} PopKeepsPending(graph: seq<seq<(int, int)>>, dist: seq<Ext>, pq: seq<(int, int)>, i: nat, x: int)
    requires Graph(graph) && |dist| == |graph| && i < |pq| && 0 <= x < |graph|
    requires Pending(graph, dist, pq, x)
    requires pq[i].1 != x || (dist[x].Fin? && pq[i].0 != dist[x].n)
    ensures Pending(graph, dist, pq[..i] + pq[i + 1..], x)
  {
    if dist[x].Fin? && (dist[x].n, x) in pq {
      RemoveKeeps(pq, i, (dist[x].n, x));
    }
  }

  /** Relaxing the edges of the popped `u` keeps every vertex pending. */
  lemma {:induction false} RelaxKeepsPending(graph: seq<seq<(int, int)>>, dist0: seq<Ext>, pq0: seq<(int, int)>,
                                             dist: seq<Ext>, pq: seq<(int, int)>, u: int, x: int)
    requires Graph(graph) && |dist0| == |graph| && |dist| == |graph| && 0 <= u < |graph| && 0 <= x < |graph|
    requires x != u ==> Pending(graph, dist0, pq0, x)
    requires forall v :: 0 <= v < |graph| ==> AtMost(dist[v], dist0[v])
    requires Relaxed(graph, dist, u)
    requires forall v :: 0 <= v < |graph| && dist[v] != dist0[v] ==> dist[v].Fin? && (dist[v].n, v) in pq
    requires |pq0| <= |pq| && pq[..|pq0|] == pq0
    ensures Pending(graph, dist, pq, x)
  {
    if x != u && dist[x] == dist0[x] {
      if dist0[x].Fin? && (dist0[x].n, x) in pq0 {
        var j :| 0 <= j < |pq0| && pq0[j] == (dist0[x].n, x);
        assert pq[j] == pq0[j];
      } else {
        forall k | 0 <= k < |graph[x]|
          ensures AtMost(dist[graph[x][k].0], Add(dist[x], graph[x][k].1))
        {
          AtMostTrans(dist[graph[x][k].0], dist0[graph[x][k].0], Add(dist0[x], graph[x][k].1));
        }
      }
    }
  }

  /** `dijkstra(graph, start)`: the distance of every vertex from `start`,
      `inf` for those no walk reaches. */
  method Dijkstra(graph: seq<seq<(int, int)>>, start: int) returns (dist: seq<Ext>)
    requires Graph(graph) && 0 <= start < |graph|
    ensures |dist| == |graph| && dist[start] == Fin(0)
    ensures forall u :: 0 <= u < |graph| ==> Relaxed(graph, dist, u)
    ensures forall v :: 0 <= v < |graph| && dist[v].Fin? ==> Reaches(graph, start, v, dist[v].n)
    ensures forall v, hops :: 0 <= v < |graph| && Walk(graph, start, v, hops) ==>
      AtMost(dist[v], Fin(Weight(graph, hops)))
    ensures forall v :: 0 <= v < |graph| ==> (dist[v] == Inf <==> Unreached(graph, start, v))
  {
    var n := |graph|;
    dist := seq(n, _ => Inf)[start := Fin(0)];
    var pq := [(0, start)];
    ghost var wit: seq<seq<(int, int)>> := seq(n, _ => []);
    while pq != []
      invariant Witnessed(graph, start, dist, wit) && dist[start] == Fin(0)
      invariant forall i :: 0 <= i < |pq| ==> 0 <= pq[i].1 < n
      invariant forall x :: 0 <= x < n ==> Pending(graph, dist, pq, x)
      decreases InfCount(dist), FiniteSum(dist), |pq|
    {
      var i := Smallest(pq);
      var (d, u) := pq[i];
      var rest := pq[..i] + pq[i + 1..];
      if Less(dist[u], Fin(d)) {
        forall x | 0 <= x < n
          ensures Pending(graph, dist, rest, x)
        {
          PopKeepsPending(graph, dist, pq, i, x);
        }
        pq := rest;
      } else {
        forall x | 0 <= x < n && x != u
          ensures Pending(graph, dist, rest, x)
        {
          PopKeepsPending(graph, dist, pq, i, x);
        }
        ghost var dist0 := dist;
        dist, pq, wit := RelaxEdges(graph, start, u, dist, rest, wit);
        forall x | 0 <= x < n
          ensures Pending(graph, dist, pq, x)
        {
          RelaxKeepsPending(graph, dist0, rest, dist, pq, u, x);
        }
      }
    }
    forall u | 0 <= u < n
      ensures Relaxed(graph, dist, u)
    {
      assert Pending(graph, dist, pq, u);
    }
    forall v | 0 <= v < n && dist[v].Fin?
      ensures Reaches(graph, start, v, dist[v].n)
    {
      assert Walk(graph, start, v, wit[v]);
    }
    forall v, hops | 0 <= v < n && Walk(graph, start, v, hops)
      ensures AtMost(dist[v], Fin(Weight(graph, hops)))
    {
      WalkBound(graph, start, dist, v, hops);
    }
    forall v | 0 <= v < n
      ensures dist[v] == Inf <==> Unreached(graph, start, v)
    {
      InfUnreached(graph, start, dist, v);
    }
  }
}

/** bipartite_matching_flow.py: Edmonds–Karp (augmenting along paths found
    by breadth-first search) and the reduction of maximum bipartite
    matching to it. */
module BipartiteMatching {
  import opened ResidualGraphs
  import opened GraphSearch

  /** `MaxFlow`: `V` vertices and the residual matrix `graph`, which starts
      as the capacities and is updated in place by each augmentation. */
  class MaxFlow {
    var V: nat
    var graph: seq<seq<int>>

    ghost predicate Valid()
      reads this
    {
      |graph| == V && IsMatrix(graph)
    }

    /** `__init__(vertices)`: a `V` by `V` matrix of zeros. */
    constructor (vertices: nat)
      ensures Valid() && V == vertices
      ensures forall u, v :: 0 <= u < V && 0 <= v < V ==> graph[u][v] == 0
    {
      V := vertices;
      graph := seq(vertices, _ => seq(vertices, _ => 0));
    }

    /** `add_edge(u, v, capacity)`: the entry for `(u, v)` becomes
        `capacity`; no other entry changes. */
    method AddEdge(u: int, v: int, capacity: int)
      requires Valid() && 0 <= u < V && 0 <= v < V
      modifies this
      ensures Valid() && V == old(V)
      ensures graph[u][v] == capacity
      ensures forall x, y :: 0 <= x < V && 0 <= y < V && (x != u || y != v) ==> graph[x][y] == old(graph)[x][y]
    {
      graph := graph[u := graph[u][v := capacity]];
    }

    /** `bfs(s, t, parent)`: a breadth-first search from `s` with a queue,
        marking each vertex when it is enqueued and recording in `parent`
        where it was reached from; it stops as soon as `t` is marked. It
        succeeds exactly when `t` is another vertex reachable from `s`
        along positive entries, and then `parent` leads back from `t` to
        `s`. */
    method Bfs(s: int, t: int, parent: array<int>) returns (found: bool, ghost time: seq<int>)
      requires Valid() && 0 <= s < V && parent.Length == V
      modifies parent
      ensures found <==> s != t && Reachable(graph, s, t)
      ensures found ==> 0 <= t < V && ParentTree(graph, parent[..], time, s) && time[t] >= 0
    {
      found, time := BreadthFirst(graph, s, t, parent);
    }

    /** One augmentation of `edmonds_karp`: the path the last search left
        in `parent` gets its least entry, which is taken off the source's
        row and the sink's column. */
    method AugmentOnce(parent: seq<int>, source: int, sink: int, ghost time: seq<int>) returns (pathFlow: int)
      requires Valid() && 0 <= sink < V && sink != source
      requires ParentTree(graph, parent, time, source) && time[sink] >= 0
      modifies this
      ensures Valid() && V == old(V) && pathFlow > 0
      ensures AugmentedAlong(old(graph), parent, time, source, sink, graph, pathFlow)
      ensures Out(graph, source) == Out(old(graph), source) - pathFlow
      ensures In(graph, sink) == In(old(graph), sink) - pathFlow
      ensures SamePairSums(old(graph), graph)
      ensures NonNegative(old(graph)) ==> NonNegative(graph)
    {
      var g := graph;
      var r;
      r, pathFlow := Augment(g, parent, source, sink, time);
      graph := r;
      assert old(graph) == g;
    }

    /** `edmonds_karp(source, sink)`: while the breadth-first search finds
        a path, its least residual entry is added to the flow and pushed
        along it. The result is what the augmentations took off the
        source's row (and, for another sink, off the sink's column);
        afterwards no path of positive entries leads from source to sink;
        `g[u][v] + g[v][u]` never changes; and non-negative capacities stay
        non-negative. */
    method EdmondsKarp(source: int, sink: int) returns (maxFlow: int)
      requires Valid() && 0 <= source < V
      modifies this
      ensures Valid() && V == old(V)
      ensures 0 <= maxFlow == Out(old(graph), source) - Out(graph, source)
      ensures 0 <= sink < V && sink != source ==> maxFlow == In(old(graph), sink) - In(graph, sink)
      ensures source != sink ==> !Reachable(graph, source, sink)
      ensures !(0 <= sink < V && sink != source) ==> maxFlow == 0
      ensures SamePairSums(old(graph), graph)
      ensures NonNegative(old(graph)) ==> NonNegative(graph)
    {
      var parent := new int[V](_ => -1);
      maxFlow := 0;
      var found;
      ghost var time;
      found, time := Bfs(source, sink, parent);
      while found
        invariant Valid() && V == old(V) && parent.Length == V
        invariant found ==> 0 <= sink < V && sink != source && ParentTree(graph, parent[..], time, source) && time[sink] >= 0
        invariant !found ==> (source != sink ==> !Reachable(graph, source, sink))
        invariant !(0 <= sink < V && sink != source) ==> maxFlow == 0
        invariant 0 <= maxFlow == Out(old(graph), source) - Out(graph, source)
        invariant 0 <= sink < V && sink != source ==> maxFlow == In(old(graph), sink) - In(graph, sink)
        invariant SamePairSums(old(graph), graph)
        invariant NonNegative(old(graph)) ==> NonNegative(graph)
        decreases Out(graph, source)
      {
        ghost var before := graph;
        var pathFlow := AugmentOnce(parent[..], source, sink, time);
        SamePairSumsTrans(old(graph), before, graph);
        maxFlow := maxFlow + pathFlow;
        found, time := Bfs(source, sink, parent);
      }
    }
  }

  /** The search of `bfs` on the matrix `g`. */
  method BreadthFirst(g: seq<seq<int>>, s: int, t: int, parent: array<int>) returns (found: bool, ghost time: seq<int>)
    requires IsMatrix(g) && 0 <= s < |g| && parent.Length == |g|
    modifies parent
    ensures found <==> s != t && Reachable(g, s, t)
    ensures found ==> 0 <= t < |g| && ParentTree(g, parent[..], time, s) && time[t] >= 0
  {
    var visited := seq(|g|, _ => false)[s := true];
    var queue := [s];
    time := seq(|g|, _ => -1)[s := 0];
    ghost var clock := 1;
    SearchStart(g, s, t, visited, time, parent[..]);
    while queue != []
      invariant Searching(g, s, t, visited, time, clock, parent[..], queue)
      invariant ClosedBut(g, visited, queue, -1)
      decreases Unvisited(visited), |queue|
    {
      var u := queue[0];
      SearchPopFront(g, s, t, visited, time, clock, parent[..], queue);
      queue := queue[1..];
      found, visited, queue, time, clock := Scan(g, s, t, u, parent, visited, queue, time, clock);
      if found {
        ghost var p := PathTo(g, parent[..], time, s, t);
        assert IsPath(g, p) && p[0] == s && p[|p| - 1] == t;
        return;
      }
    }
    if s != t {
      SearchEnd(g, s, t, visited, time, clock, parent[..]);
    }
    return false, time;
  }

  // ---------------------------------------------------------------------
  // The bipartite network
  // ---------------------------------------------------------------------

  /** The capacity `max_bipartite_matching` gives the entry `(x, y)`: left
      vertices are `0 .. U - 1`, right vertex `v` is `U + v`, the source is
      `U + V` and the sink `U + V + 1`; the source feeds every left vertex,
      every right vertex feeds the sink, and each listed pair `(u, v)`
      joins `u` to `U + v`, all with capacity 1. */
  function Entry(U: nat, V: nat, edges: seq<(int, int)>, x: int, y: int): int
  {
    if x == U + V && 0 <= y < U then 1
    else if U <= x < U + V && y == U + V + 1 then 1
    else if 0 <= x < U && U <= y < U + V && (x, y - U) in edges then 1
    else 0
  }

  ghost predicate IsNetwork(g: seq<seq<int>>, U: nat, V: nat, edges: seq<(int, int)>)
  {
    |g| == U + V + 2 && IsMatrix(g) &&
    forall x, y :: 0 <= x < |g| && 0 <= y < |g| ==> g[x][y] == Entry(U, V, edges, x, y)
  }

  /** A 0/1 sequence that is 1 exactly on `lo .. hi - 1` sums to
      `hi - lo`. */
  lemma {:induction false} PosSumRange(s: seq<int>, lo: int, hi: int)
    requires 0 <= lo <= hi <= |s|
    requires forall i :: 0 <= i < |s| ==> s[i] == if lo <= i < hi then 1 else 0
    ensures PosSum(s) == hi - lo
    decreases |s|
  {
    if s != [] {
      if lo > 0 {
        PosSumRange(s[1..], lo - 1, hi - 1);
      } else if hi > 0 {
        PosSumRange(s[1..], 0, hi - 1);
      } else {
        PosSumRange(s[1..], 0, 0);
      }
    }
  }

  /** The source can send at most `U`: one unit to each left vertex. */
  lemma {:induction false} NetworkOut(g: seq<seq<int>>, U: nat, V: nat, edges: seq<(int, int)>)
    requires IsNetwork(g, U, V, edges)
    ensures Out(g, U + V) == U
  {
    PosSumRange(g[U + V], 0, U);
  }

  /** The sink can take at most `V`: one unit from each right vertex. */
  lemma {:induction false} NetworkIn(g: seq<seq<int>>, U: nat, V: nat, edges: seq<(int, int)>)
    requires IsNetwork(g, U, V, edges)
    ensures In(g, U + V + 1) == V
  {
    PosSumRange(Column(g, U + V + 1), U, U + V);
  }

  /** The first part of `max_bipartite_matching`: a `MaxFlow` on
      `U + V + 2` vertices with the source, sink and pair edges added. */
  method BuildNetwork(U: nat, V: nat, edges: seq<(int, int)>) returns (mf: MaxFlow)
    requires forall i :: 0 <= i < |edges| ==> 0 <= edges[i].0 < U && 0 <= edges[i].1 < V
    ensures fresh(mf) && mf.Valid() && mf.V == U + V + 2 && IsNetwork(mf.graph, U, V, edges)
  {
    var totalNodes := U + V + 2;
    var source := U + V;
    var sink := U + V + 1;
    mf := new MaxFlow(totalNodes);
    var u := 0;
    while u < U
      invariant 0 <= u <= U && mf.Valid() && mf.V == totalNodes
      invariant forall x, y :: 0 <= x < totalNodes && 0 <= y < totalNodes ==>
        mf.graph[x][y] == if x == source && y < u then 1 else 0
    {
      mf.AddEdge(source, u, 1);
      u := u + 1;
    }
    var v := 0;
    while v < V
      invariant 0 <= v <= V && mf.Valid() && mf.V == totalNodes
      invariant forall x, y :: 0 <= x < totalNodes && 0 <= y < totalNodes ==>
        mf.graph[x][y] == if x == source && y < U then 1 else if U <= x < U + v && y == sink then 1 else 0
    {
      mf.AddEdge(U + v, sink, 1);
      v := v + 1;
    }
    var i := 0;
    while i < |edges|
      invariant 0 <= i <= |edges| && mf.Valid() && mf.V == totalNodes
      invariant IsNetwork(mf.graph, U, V, edges[..i])
    {
      var (a, b) := edges[i];
      mf.AddEdge(a, U + b, 1);
      assert edges[..i + 1] == edges[..i] + [(a, b)];
      i := i + 1;
    }
    assert edges[..i] == edges;
  }

  /** `max_bipartite_matching(U, V, edges)`: builds the network and runs
      Edmonds–Karp from its source to its sink. The ghost `network` is the
      network built and `residual` what the search leaves; the result is
      the flow taken off the source, at most `U` and at most `V`, and no
      augmenting path is left. */
  method MaxBipartiteMatching(U: nat, V: nat, edges: seq<(int, int)>)
      returns (maxMatch: int, ghost network: seq<seq<int>>, ghost residual: seq<seq<int>>)
    requires forall i :: 0 <= i < |edges| ==> 0 <= edges[i].0 < U && 0 <= edges[i].1 < V
    ensures IsNetwork(network, U, V, edges) && IsMatrix(residual) && |residual| == U + V + 2
    ensures 0 <= maxMatch <= U && maxMatch <= V
    ensures maxMatch == Out(network, U + V) - Out(residual, U + V)
    ensures maxMatch == In(network, U + V + 1) - In(residual, U + V + 1)
    ensures !Reachable(residual, U + V, U + V + 1)
    ensures SamePairSums(network, residual) && NonNegative(residual)
  {
    var mf := BuildNetwork(U, V, edges);
    network := mf.graph;
    assert NonNegative(network);
    maxMatch := mf.EdmondsKarp(U + V, U + V + 1);
    residual := mf.graph;
    NetworkOut(network, U, V, edges);
    NetworkIn(network, U, V, edges);
  }
}

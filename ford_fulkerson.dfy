/** ford_fulkerson.py: maximum flow by repeated depth-first search for a
    path of positive residual capacity in an adjacency matrix. */
module FordFulkerson {
  import opened ResidualGraphs
  import opened GraphSearch

  /** `Graph`: `V` vertices and the residual matrix `graph`, which starts
      as the capacities and is updated in place by each augmentation. */
  class Graph {
    var V: nat
    var graph: seq<seq<int>>

    ghost predicate Valid()
      reads this
    {
      |graph| == V && IsMatrix(graph)
    }

    /** `__init__(vertices)`: a `V` by `V` matrix of zeros. */
    constructor (vertices: nat)
      ensures Valid() && V == vertices
      ensures forall u, v :: 0 <= u < V && 0 <= v < V ==> graph[u][v] == 0
    {
      V := vertices;
      graph := seq(vertices, _ => seq(vertices, _ => 0));
    }

    /** `add_edge(u, v, capacity)`: the entry for `(u, v)` becomes
        `capacity`; no other entry changes. */
    method AddEdge(u: int, v: int, capacity: int)
      requires Valid() && 0 <= u < V && 0 <= v < V
      modifies this
      ensures Valid() && V == old(V)
      ensures graph[u][v] == capacity
      ensures forall x, y :: 0 <= x < V && 0 <= y < V && (x != u || y != v) ==> graph[x][y] == old(graph)[x][y]
    {
      graph := graph[u := graph[u][v := capacity]];
    }

    /** `dfs(s, t, parent)`: a depth-first search from `s` with an explicit
        stack, marking each vertex when it is pushed and recording in
        `parent` where it was reached from; it stops as soon as `t` is
        marked. It succeeds exactly when `t` is another vertex reachable
        from `s` along positive entries, and then `parent` leads back
        from `t` to `s` (the ghost `time` orders the marked vertices). */
    method Dfs(s: int, t: int, parent: array<int>) returns (found: bool, ghost time: seq<int>)
      requires Valid() && 0 <= s < V && parent.Length == V
      modifies parent
      ensures found <==> s != t && Reachable(graph, s, t)
      ensures found ==> 0 <= t < V && ParentTree(graph, parent[..], time, s) && time[t] >= 0
    {
      found, time := Search(graph, s, t, parent);
    }

    /** One augmentation of `ford_fulkerson`: the path the last search left
        in `parent` gets its least entry, which is taken off the source's
        row and the sink's column. */
    method AugmentOnce(parent: seq<int>, source: int, sink: int, ghost time: seq<int>) returns (pathFlow: int)
      requires Valid() && 0 <= sink < V && sink != source
      requires ParentTree(graph, parent, time, source) && time[sink] >= 0
      modifies this
      ensures Valid() && V == old(V) && pathFlow > 0
      ensures AugmentedAlong(old(graph), parent, time, source, sink, graph, pathFlow)
      ensures Out(graph, source) == Out(old(graph), source) - pathFlow
      ensures In(graph, sink) == In(old(graph), sink) - pathFlow
      ensures SamePairSums(old(graph), graph)
      ensures NonNegative(old(graph)) ==> NonNegative(graph)
    {
      var r;
      r, pathFlow := Augment(graph, parent, source, sink, time);
      graph := r;
    }

    /** `ford_fulkerson(source, sink)`: while the search finds a path, its
        least residual entry is added to the flow and pushed along it.
        The result is what the augmentations took off the source's row
        (and, for another sink, off the sink's column); afterwards no path
        of positive entries leads from source to sink; `g[u][v] + g[v][u]`
        never changes; and non-negative capacities stay non-negative. */
    method MaxFlow(source: int, sink: int) returns (maxFlow: int)
      requires Valid() && 0 <= source < V
      modifies this
      ensures Valid() && V == old(V)
      ensures 0 <= maxFlow == Out(old(graph), source) - Out(graph, source)
      ensures 0 <= sink < V && sink != source ==> maxFlow == In(old(graph), sink) - In(graph, sink)
      ensures source != sink ==> !Reachable(graph, source, sink)
      ensures !(0 <= sink < V && sink != source) ==> maxFlow == 0
      ensures SamePairSums(old(graph), graph)
      ensures NonNegative(old(graph)) ==> NonNegative(graph)
    {
      var parent := new int[V](_ => -1);
      maxFlow := 0;
      var found;
      ghost var time;
      found, time := Dfs(source, sink, parent);
      while found
        invariant Valid() && V == old(V) && parent.Length == V
        invariant found ==> 0 <= sink < V && sink != source && ParentTree(graph, parent[..], time, source) && time[sink] >= 0
        invariant !found ==> (source != sink ==> !Reachable(graph, source, sink))
        invariant !(0 <= sink < V && sink != source) ==> maxFlow == 0
        invariant 0 <= maxFlow == Out(old(graph), source) - Out(graph, source)
        invariant 0 <= sink < V && sink != source ==> maxFlow == In(old(graph), sink) - In(graph, sink)
        invariant SamePairSums(old(graph), graph)
        invariant NonNegative(old(graph)) ==> NonNegative(graph)
        decreases Out(graph, source)
      {
        ghost var before := graph;
        var pathFlow := AugmentOnce(parent[..], source, sink, time);
        SamePairSumsTrans(old(graph), before, graph);
        maxFlow := maxFlow + pathFlow;
        found, time := Dfs(source, sink, parent);
      }
    }
  }

  /** The search of `dfs` on the matrix `g`. */
  method Search(g: seq<seq<int>>, s: int, t: int, parent: array<int>) returns (found: bool, ghost time: seq<int>)
    requires IsMatrix(g) && 0 <= s < |g| && parent.Length == |g|
    modifies parent
    ensures found <==> s != t && Reachable(g, s, t)
    ensures found ==> 0 <= t < |g| && ParentTree(g, parent[..], time, s) && time[t] >= 0
  {
    var visited := seq(|g|, _ => false)[s := true];
    var stack := [s];
    time := seq(|g|, _ => -1)[s := 0];
    ghost var clock := 1;
    SearchStart(g, s, t, visited, time, parent[..]);
    while stack != []
      invariant Searching(g, s, t, visited, time, clock, parent[..], stack)
      invariant ClosedBut(g, visited, stack, -1)
      decreases Unvisited(visited), |stack|
    {
      var u := stack[|stack| - 1];
      SearchPop(g, s, t, visited, time, clock, parent[..], stack);
      stack := stack[..|stack| - 1];
      found, visited, stack, time, clock := Scan(g, s, t, u, parent, visited, stack, time, clock);
      if found {
        ghost var p := PathTo(g, parent[..], time, s, t);
        assert IsPath(g, p) && p[0] == s && p[|p| - 1] == t;
        return;
      }
    }
    if s != t {
      SearchEnd(g, s, t, visited, time, clock, parent[..]);
    }
    return false, time;
  }
}

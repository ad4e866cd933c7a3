/** The search shared by `dfs` in ford_fulkerson.py and `bfs` in
    bipartite_matching_flow.py: both mark `s`, then repeatedly take a
    pending vertex `u` and, for each `v` in order, push every unmarked `v`
    with a positive entry `graph[u][v]`, marking it and setting
    `parent[v] = u`, and stop as soon as `t` is marked. They differ only in
    which pending vertex they take. */
module GraphSearch {
  import opened ResidualGraphs

  /** The state of `dfs` and `bfs` between steps: the marked vertices are
      those with a time, `parent` (as a sequence) is a tree of their
      discovery rooted at `s`, the pending vertices (the stack or queue)
      are marked, and `t`, when it is another vertex, is not marked yet. */
  ghost predicate Searching(g: seq<seq<int>>, s: int, t: int, visited: seq<bool>, time: seq<int>, clock: int, tree: seq<int>, stack: seq<int>)
  {
    ParentTree(g, tree, time, s) && |visited| == |g| &&
    (forall x :: 0 <= x < |g| ==> (visited[x] <==> time[x] >= 0) && time[x] < clock) &&
    (forall i :: 0 <= i < |stack| ==> 0 <= stack[i] < |g| && visited[stack[i]]) &&
    (s != t && 0 <= t < |g| ==> !visited[t])
  }

  /** The search starts with only `s` marked and on the stack, at time 0. */
  lemma {:induction false} SearchStart(g: seq<seq<int>>, s: int, t: int, visited: seq<bool>, time: seq<int>, tree: seq<int>)
    requires IsMatrix(g) && 0 <= s < |g| && |visited| == |g| && |time| == |g| && |tree| == |g|
    requires forall x :: 0 <= x < |g| ==> (visited[x] <==> x == s) && time[x] == if x == s then 0 else -1
    ensures Searching(g, s, t, visited, time, 1, tree, [s]) && ClosedBut(g, visited, [s], -1)
  {
  }

  /** Popping the top of the stack (`dfs`) leaves a marked vertex to scan. */
  lemma {:induction false} SearchPop(g: seq<seq<int>>, s: int, t: int, visited: seq<bool>, time: seq<int>, clock: int, tree: seq<int>, stack: seq<int>)
    requires Searching(g, s, t, visited, time, clock, tree, stack) && ClosedBut(g, visited, stack, -1) && stack != []
    ensures 0 <= stack[|stack| - 1] < |g| && visited[stack[|stack| - 1]]
    ensures Searching(g, s, t, visited, time, clock, tree, stack[..|stack| - 1])
    ensures ClosedBut(g, visited, stack[..|stack| - 1], stack[|stack| - 1])
  {
    ClosedPop(g, visited, stack);
  }

  /** Popping the front of the queue (`bfs`) leaves a marked vertex to
      scan. */
  lemma {:induction false} SearchPopFront(g: seq<seq<int>>, s: int, t: int, visited: seq<bool>, time: seq<int>, clock: int, tree: seq<int>, queue: seq<int>)
    requires Searching(g, s, t, visited, time, clock, tree, queue) && ClosedBut(g, visited, queue, -1) && queue != []
    ensures 0 <= queue[0] < |g| && visited[queue[0]]
    ensures Searching(g, s, t, visited, time, clock, tree, queue[1..])
    ensures ClosedBut(g, visited, queue[1..], queue[0])
  {
    ClosedPopFront(g, visited, queue);
  }

  /** With nothing pending every marked vertex is closed, so a target that
      is still unmarked cannot be reached. */
  lemma {:induction false} SearchEnd(g: seq<seq<int>>, s: int, t: int, visited: seq<bool>, time: seq<int>, clock: int, tree: seq<int>)
    requires Searching(g, s, t, visited, time, clock, tree, []) && ClosedBut(g, visited, [], -1) && s != t
    ensures !Reachable(g, s, t)
  {
    ClosedUnreachable(g, visited, s, t);
  }

  /** Marking an unmarked `v` reached from the marked `u` and pushing it
      keeps the search state, unless `v` is the target. */
  lemma {:induction false} SearchStep(g: seq<seq<int>>, s: int, t: int, visited: seq<bool>, time: seq<int>, clock: int, tree: seq<int>, stack: seq<int>, u: int, v: int)
    requires Searching(g, s, t, visited, time, clock, tree, stack)
    requires 0 <= u < |g| && visited[u] && 0 <= v < |g| && !visited[v] && g[u][v] > 0
    ensures ParentTree(g, tree[v := u], time[v := clock], s) && time[v := clock][v] >= 0
    ensures v != t ==> Searching(g, s, t, visited[v := true], time[v := clock], clock + 1, tree[v := u], stack + [v])
  {
    ParentTreeExtend(g, tree, time, s, u, v, clock);
    var visited', time', stack' := visited[v := true], time[v := clock], stack + [v];
    assert forall i :: 0 <= i < |stack'| ==> 0 <= stack'[i] < |g| && visited'[stack'[i]];
  }

  /** The state of the `for v in range(V)` loop of `dfs` and `bfs` for the popped
      vertex `u`: the search state holds, every marked vertex but `u` and
      those on the stack is closed, and the entries of `u` before `v` that
      are positive lead to marked vertices. */
  ghost predicate Scanning(g: seq<seq<int>>, s: int, t: int, u: int, v: int, visited: seq<bool>, time: seq<int>, clock: int, tree: seq<int>, stack: seq<int>)
  {
    Searching(g, s, t, visited, time, clock, tree, stack) && 0 <= u < |g| && visited[u] && 0 <= v <= |g| &&
    ClosedBut(g, visited, stack, u) &&
    forall w :: 0 <= w < v && g[u][w] > 0 ==> visited[w]
  }

  /** Pushing an unmarked `v` with a positive entry from `u` moves the loop
      on, unless `v` is the target. */
  lemma {:induction false} ScanPush(g: seq<seq<int>>, s: int, t: int, u: int, v: int, visited: seq<bool>, time: seq<int>, clock: int, tree: seq<int>, stack: seq<int>)
    requires Scanning(g, s, t, u, v, visited, time, clock, tree, stack) && v < |g| && !visited[v] && g[u][v] > 0
    ensures ParentTree(g, tree[v := u], time[v := clock], s) && time[v := clock][v] >= 0
    ensures Unvisited(visited[v := true]) < Unvisited(visited)
    ensures v != t ==> Scanning(g, s, t, u, v + 1, visited[v := true], time[v := clock], clock + 1, tree[v := u], stack + [v])
  {
    Visit(visited, v);
    SearchStep(g, s, t, visited, time, clock, tree, stack, u, v);
    ClosedPush(g, visited, stack, u, v);
  }

  /** Passing over a marked `v`, or one without a positive entry from `u`,
      moves the loop on. */
  lemma {:induction false} ScanSkip(g: seq<seq<int>>, s: int, t: int, u: int, v: int, visited: seq<bool>, time: seq<int>, clock: int, tree: seq<int>, stack: seq<int>)
    requires Scanning(g, s, t, u, v, visited, time, clock, tree, stack) && v < |g| && (visited[v] || g[u][v] <= 0)
    ensures Scanning(g, s, t, u, v + 1, visited, time, clock, tree, stack)
  {
  }

  /** The `for v in range(V)` loop of `dfs` and `bfs` for a popped vertex `u`: each
      unmarked `v` with a positive entry from `u` is pushed, marked and
      given `u` as parent, and the search stops when `v` is `t`. Otherwise
      `u` ends up closed, and either a vertex was marked or nothing
      changed. */
  method Scan(g: seq<seq<int>>, s: int, t: int, u: int, parent: array<int>, visited0: seq<bool>, stack0: seq<int>, ghost time0: seq<int>, ghost clock0: int)
      returns (found: bool, visited: seq<bool>, stack: seq<int>, ghost time: seq<int>, ghost clock: int)
    requires Searching(g, s, t, visited0, time0, clock0, parent[..], stack0) && parent.Length == |g|
    requires 0 <= u < |g| && visited0[u] && ClosedBut(g, visited0, stack0, u)
    modifies parent
    ensures found ==> s != t && 0 <= t < |g| && ParentTree(g, parent[..], time, s) && time[t] >= 0
    ensures !found ==> Searching(g, s, t, visited, time, clock, parent[..], stack) && ClosedBut(g, visited, stack, -1)
    ensures !found ==> Unvisited(visited) < Unvisited(visited0) || (Unvisited(visited) == Unvisited(visited0) && stack == stack0)
  {
    visited, stack, time, clock := visited0, stack0, time0, clock0;
    ghost var tree := parent[..];
    var v := 0;
    while v < |g|
      invariant tree == parent[..]
      invariant Scanning(g, s, t, u, v, visited, time, clock, tree, stack)
      invariant Unvisited(visited) < Unvisited(visited0) || (Unvisited(visited) == Unvisited(visited0) && stack == stack0)
    {
      if !visited[v] && g[u][v] > 0 {
        ScanPush(g, s, t, u, v, visited, time, clock, tree, stack);
        stack := stack + [v];
        visited := visited[v := true];
        parent[v] := u;
        tree := tree[v := u];
        time := time[v := clock];
        clock := clock + 1;
        if v == t {
          return true, visited, stack, time, clock;
        }
      } else {
        ScanSkip(g, s, t, u, v, visited, time, clock, tree, stack);
      }
      v := v + 1;
    }
    ClosedDone(g, visited, stack, u);
    found := false;
  }
}

/** Residual capacity matrices, as kept by ford_fulkerson.py and
    bipartite_matching_flow.py: `graph[u][v]` is what may still be sent
    from `u` to `v`. Both files search for a path of positive entries,
    leaving a `parent` list behind, and then push the path's least entry
    along it. */
module ResidualGraphs {
  import opened Wrappers

  /** `n` rows of `n` entries. */
  predicate IsMatrix(g: seq<seq<int>>)
  {
    forall u :: 0 <= u < |g| ==> |g[u]| == |g|
  }

  ghost predicate NonNegative(g: seq<seq<int>>)
  {
    IsMatrix(g) && forall u, v :: 0 <= u < |g| && 0 <= v < |g| ==> g[u][v] >= 0
  }

  /** The sum `g[u][v] + g[v][u]` for every pair is the same in both. */
  ghost predicate SamePairSums(g: seq<seq<int>>, h: seq<seq<int>>)
  {
    IsMatrix(g) && IsMatrix(h) && |g| == |h| &&
    forall u, v :: 0 <= u < |g| && 0 <= v < |g| ==> h[u][v] + h[v][u] == g[u][v] + g[v][u]
  }

  lemma {:induction false} SamePairSumsTrans(f: seq<seq<int>>, g: seq<seq<int>>, h: seq<seq<int>>)
    requires SamePairSums(f, g) && SamePairSums(g, h)
    ensures SamePairSums(f, h)
  {
  }

  function Pos(x: int): int
  {
    if x > 0 then x else 0
  }

  /** The sum of the positive entries. */
  function PosSum(s: seq<int>): (r: int)
    ensures r >= 0
  {
    if s == [] then 0 else Pos(s[0]) + PosSum(s[1..])
  }

  /** What may still leave `s`. */
  function Out(g: seq<seq<int>>, s: int): int
    requires IsMatrix(g) && 0 <= s < |g|
  {
    PosSum(g[s])
  }

  function Column(g: seq<seq<int>>, t: int): (c: seq<int>)
    requires IsMatrix(g) && 0 <= t < |g|
    ensures |c| == |g| && forall u :: 0 <= u < |g| ==> c[u] == g[u][t]
  {
    seq(|g|, u requires 0 <= u < |g| => g[u][t])
  }

  /** What may still enter `t`. */
  function In(g: seq<seq<int>>, t: int): int
    requires IsMatrix(g) && 0 <= t < |g|
  {
    PosSum(Column(g, t))
  }

  // ---------------------------------------------------------------------
  // Paths and reachability
  // ---------------------------------------------------------------------

  ghost predicate InRange(g: seq<seq<int>>, p: seq<int>)
  {
    forall k :: 0 <= k < |p| ==> 0 <= p[k] < |g|
  }

  /** The entry for the `i`-th edge of `p`. */
  function Residual(g: seq<seq<int>>, p: seq<int>, i: int): int
    requires IsMatrix(g) && 0 <= i < |p| - 1 && 0 <= p[i] < |g| && 0 <= p[i + 1] < |g|
  {
    g[p[i]][p[i + 1]]
  }

  /** A walk along positive entries. */
  ghost predicate IsPath(g: seq<seq<int>>, p: seq<int>)
  {
    IsMatrix(g) && |p| >= 1 && InRange(g, p) &&
    forall i :: 0 <= i < |p| - 1 ==> Residual(g, p, i) > 0
  }

  ghost predicate Simple(p: seq<int>)
  {
    forall i, j :: 0 <= i < j < |p| ==> p[i] != p[j]
  }

  /** `t` can be reached from `s` along positive entries. */
  ghost predicate Reachable(g: seq<seq<int>>, s: int, t: int)
  {
    exists p :: IsPath(g, p) && p[0] == s && p[|p| - 1] == t
  }

  /** A set of vertices that holds `p`'s first vertex and every positive
      entry's head once it holds its tail holds `p`'s last vertex. */
  lemma {:induction false} ClosedReach(g: seq<seq<int>>, seen: seq<bool>, p: seq<int>)
    requires IsPath(g, p) && |seen| == |g| && seen[p[0]]
    requires forall u, v :: 0 <= u < |g| && 0 <= v < |g| && seen[u] && g[u][v] > 0 ==> seen[v]
    ensures seen[p[|p| - 1]]
    decreases |p|
  {
    if |p| > 1 {
      var q := p[..|p| - 1];
      assert forall i :: 0 <= i < |q| - 1 ==> Residual(g, q, i) == Residual(g, p, i);
      ClosedReach(g, seen, q);
      assert Residual(g, p, |p| - 2) > 0;
    }
  }

  /** Nothing outside such a set is reachable from inside it. */
  lemma {:induction false} ClosedUnreachable(g: seq<seq<int>>, seen: seq<bool>, s: int, t: int)
    requires IsMatrix(g) && |seen| == |g| && 0 <= s < |g| && seen[s]
    requires !(0 <= t < |g|) || !seen[t]
    requires forall u, v :: 0 <= u < |g| && 0 <= v < |g| && seen[u] && g[u][v] > 0 ==> seen[v]
    ensures !Reachable(g, s, t)
  {
    forall p | IsPath(g, p) && p[0] == s
      ensures p[|p| - 1] != t
    {
      ClosedReach(g, seen, p);
    }
  }

  /** Every vertex marked in `visited`, other than `u` and those still in
      `pending`, has all its positive entries leading to marked vertices. */
  ghost predicate ClosedBut(g: seq<seq<int>>, visited: seq<bool>, pending: seq<int>, u: int)
  {
    IsMatrix(g) && |visited| == |g| &&
    forall x, w :: 0 <= x < |g| && 0 <= w < |g| && x != u && visited[x] && x !in pending && g[x][w] > 0 ==> visited[w]
  }

  /** Popping `u` off the stack: only `u` may now be open. */
  lemma {:induction false} ClosedPop(g: seq<seq<int>>, visited: seq<bool>, stack: seq<int>)
    requires ClosedBut(g, visited, stack, -1) && stack != []
    ensures ClosedBut(g, visited, stack[..|stack| - 1], stack[|stack| - 1])
  {
    var u, rest := stack[|stack| - 1], stack[..|stack| - 1];
    forall x, w | 0 <= x < |g| && 0 <= w < |g| && x != u && visited[x] && x !in rest && g[x][w] > 0
      ensures visited[w]
    {
      assert stack == rest + [u];
    }
  }

  /** Taking `u` off the front of the queue: only `u` may now be open. */
  lemma {:induction false} ClosedPopFront(g: seq<seq<int>>, visited: seq<bool>, queue: seq<int>)
    requires ClosedBut(g, visited, queue, -1) && queue != []
    ensures ClosedBut(g, visited, queue[1..], queue[0])
  {
    var u, rest := queue[0], queue[1..];
    forall x, w | 0 <= x < |g| && 0 <= w < |g| && x != u && visited[x] && x !in rest && g[x][w] > 0
      ensures visited[w]
    {
      assert queue == [u] + rest;
    }
  }

  /** Marking `v` and pushing it keeps every other marked vertex closed. */
  lemma {:induction false} ClosedPush(g: seq<seq<int>>, visited: seq<bool>, stack: seq<int>, u: int, v: int)
    requires ClosedBut(g, visited, stack, u) && 0 <= v < |g|
    ensures ClosedBut(g, visited[v := true], stack + [v], u)
  {
  }

  /** Once all of `u`'s positive entries lead to marked vertices, `u` is
      closed too. */
  lemma {:induction false} ClosedDone(g: seq<seq<int>>, visited: seq<bool>, stack: seq<int>, u: int)
    requires ClosedBut(g, visited, stack, u) && 0 <= u < |g|
    requires forall w :: 0 <= w < |g| && g[u][w] > 0 ==> visited[w]
    ensures ClosedBut(g, visited, stack, -1)
  {
  }

  /** The number of vertices a search has not marked yet. */
  function Unvisited(visited: seq<bool>): nat
  {
    if visited == [] then 0 else (if visited[0] then 0 else 1) + Unvisited(visited[1..])
  }

  lemma {:induction false} Visit(visited: seq<bool>, v: int)
    requires 0 <= v < |visited| && !visited[v]
    ensures Unvisited(visited[v := true]) == Unvisited(visited) - 1
    decreases |visited|
  {
    if v > 0 {
      assert visited[v := true][1..] == visited[1..][v - 1 := true];
      Visit(visited[1..], v - 1);
    }
  }

  // ---------------------------------------------------------------------
  // The parent list left by a search
  // ---------------------------------------------------------------------

  /** The `parent` list after a search from `s` that gave every vertex it
      reached a visiting time (`-1` for the others): a reached vertex other
      than `s` has a parent reached earlier, joined to it by a positive
      entry. Entries of `parent` for vertices not reached are left over
      from earlier searches and mean nothing. */
  ghost predicate ParentTree(g: seq<seq<int>>, parent: seq<int>, time: seq<int>, s: int)
  {
    IsMatrix(g) && |parent| == |g| && |time| == |g| && 0 <= s < |g| && time[s] == 0 &&
    forall v :: 0 <= v < |g| && v != s && time[v] >= 0 ==>
      0 <= parent[v] < |g| && 0 <= time[parent[v]] < time[v] && g[parent[v]][v] > 0
  }

  /** Reaching an unreached `v` from a reached `u` along a positive entry,
      at a time later than all others, keeps the parent tree. */
  lemma {:induction false} ParentTreeExtend(g: seq<seq<int>>, parent: seq<int>, time: seq<int>, s: int, u: int, v: int, clock: int)
    requires ParentTree(g, parent, time, s)
    requires 0 <= u < |g| && 0 <= v < |g| && time[u] >= 0 && time[v] < 0 && g[u][v] > 0
    requires forall x :: 0 <= x < |g| ==> time[x] < clock
    ensures ParentTree(g, parent[v := u], time[v := clock], s)
  {
    var parent', time' := parent[v := u], time[v := clock];
    forall x | 0 <= x < |g| && x != s && time'[x] >= 0
      ensures 0 <= parent'[x] < |g| && 0 <= time'[parent'[x]] < time'[x] && g[parent'[x]][x] > 0
    {
      if x != v {
        assert parent'[x] == parent[x] && parent[x] != v;
      }
    }
  }

  /** The path from `s` to a reached vertex `v`, found by following
      `parent` back from `v`: a simple path along positive entries. */
  ghost function PathTo(g: seq<seq<int>>, parent: seq<int>, time: seq<int>, s: int, v: int): (p: seq<int>)
    requires ParentTree(g, parent, time, s) && 0 <= v < |g| && time[v] >= 0
    ensures IsPath(g, p) && p[0] == s && p[|p| - 1] == v && Simple(p)
    ensures forall i :: 0 <= i < |p| ==> 0 <= time[p[i]] <= time[v]
    ensures forall i :: 0 < i < |p| ==> parent[p[i]] == p[i - 1]
    decreases time[v]
  {
    if v == s then [s]
    else
      var q := PathTo(g, parent, time, s, parent[v]);
      PathExtend(g, parent, time, s, v, q);
      q + [v]
  }

  /** The walk to `v` in the parent tree, as `PathTo` states it. */
  ghost predicate TreePath(g: seq<seq<int>>, parent: seq<int>, time: seq<int>, s: int, v: int, p: seq<int>)
    requires |parent| == |g| && |time| == |g| && 0 <= v < |g|
  {
    IsPath(g, p) && p[0] == s && p[|p| - 1] == v && Simple(p) &&
    (forall i :: 0 <= i < |p| ==> 0 <= time[p[i]] <= time[v]) &&
    (forall i :: 0 < i < |p| ==> parent[p[i]] == p[i - 1])
  }

  /** The walk to `parent[v]`, then the edge into `v`. */
  lemma PathExtend(g: seq<seq<int>>, parent: seq<int>, time: seq<int>, s: int, v: int, q: seq<int>)
    requires ParentTree(g, parent, time, s) && 0 <= v < |g| && time[v] >= 0 && v != s
    requires TreePath(g, parent, time, s, parent[v], q)
    ensures TreePath(g, parent, time, s, v, q + [v])
  {
    var p := q + [v];
    var u := parent[v];
    assert 0 <= u < |g| && 0 <= time[u] < time[v] && g[u][v] > 0;
    forall i | 0 <= i < |q|
      ensures p[i] == q[i] && 0 <= time[q[i]] < time[v]
    {
    }
    assert IsPath(g, p) by {
      forall i | 0 <= i < |p| - 1
        ensures Residual(g, p, i) > 0
      {
        if i < |q| - 1 {
          assert Residual(g, p, i) == Residual(g, q, i);
        }
      }
    }
  }

  // ---------------------------------------------------------------------
  // Augmenting along a path
  // ---------------------------------------------------------------------

  /** `graph[u][v] -= d; graph[v][u] += d`. */
  function Push(g: seq<seq<int>>, u: int, v: int, d: int): (r: seq<seq<int>>)
    requires IsMatrix(g) && 0 <= u < |g| && 0 <= v < |g|
    ensures IsMatrix(r) && |r| == |g|
  {
    var g1 := g[u := g[u][v := g[u][v] - d]];
    g1[v := g1[v][u := g1[v][u] + d]]
  }

  /** `d` pushed along every edge of `p`, the edge into the last vertex
      first, as the walk back from the sink does. */
  ghost function Augmented(g: seq<seq<int>>, p: seq<int>, d: int): (r: seq<seq<int>>)
    requires IsMatrix(g) && InRange(g, p)
    ensures IsMatrix(r) && |r| == |g|
    decreases |p|
  {
    if |p| <= 1 then g else Augmented(Push(g, p[|p| - 2], p[|p| - 1], d), p[..|p| - 1], d)
  }

  /** Each push keeps `g[u][v] + g[v][u]` for every pair. */
  lemma {:induction false} AugmentedSums(g: seq<seq<int>>, p: seq<int>, d: int)
    requires IsMatrix(g) && InRange(g, p)
    ensures SamePairSums(g, Augmented(g, p, d))
    decreases |p|
  {
    if |p| > 1 {
      var a, b := p[|p| - 2], p[|p| - 1];
      var g' := Push(g, a, b, d);
      AugmentedSums(g', p[..|p| - 1], d);
      forall u, v | 0 <= u < |g| && 0 <= v < |g|
        ensures g'[u][v] + g'[v][u] == g[u][v] + g[v][u]
      {
      }
    }
  }

  /** Pushing along the last edge of a simple path decreases no entry of
      the path's other edges. */
  lemma {:induction false} PushKeepsPrefix(g: seq<seq<int>>, p: seq<int>, d: int)
    requires IsMatrix(g) && InRange(g, p) && Simple(p) && |p| >= 2 && d >= 0
    ensures forall i :: 0 <= i < |p| - 2 ==>
      Residual(Push(g, p[|p| - 2], p[|p| - 1], d), p[..|p| - 1], i) >= Residual(g, p, i)
  {
    var a, b := p[|p| - 2], p[|p| - 1];
    var q := p[..|p| - 1];
    forall i | 0 <= i < |q| - 1
      ensures Residual(Push(g, a, b, d), q, i) >= Residual(g, p, i)
    {
      assert p[i] != a;
    }
  }

  /** Pushing no more than any edge holds keeps every entry non-negative. */
  lemma {:induction false} AugmentedNonNegative(g: seq<seq<int>>, p: seq<int>, d: int)
    requires NonNegative(g) && InRange(g, p) && Simple(p) && d >= 0
    requires forall i :: 0 <= i < |p| - 1 ==> d <= Residual(g, p, i)
    ensures NonNegative(Augmented(g, p, d))
    decreases |p|
  {
    if |p| > 1 {
      var a, b := p[|p| - 2], p[|p| - 1];
      var g' := Push(g, a, b, d);
      assert Residual(g, p, |p| - 2) == g[a][b];
      assert NonNegative(g');
      PushKeepsPrefix(g, p, d);
      var q := p[..|p| - 1];
      forall i | 0 <= i < |q| - 1
        ensures d <= Residual(g', q, i)
      {
        assert Residual(g', q, i) >= Residual(g, p, i);
      }
      AugmentedNonNegative(g', q, d);
    }
  }

  lemma {:induction false} PosSumUpdate(s: seq<int>, c: int, x: int)
    requires 0 <= c < |s|
    ensures PosSum(s[c := x]) == PosSum(s) - Pos(s[c]) + Pos(x)
    decreases |s|
  {
    if c > 0 {
      assert s[c := x][1..] == s[1..][c - 1 := x];
      PosSumUpdate(s[1..], c - 1, x);
    }
  }

  /** A path that avoids row `s` leaves it alone. */
  lemma {:induction false} AugmentedAvoidsRow(g: seq<seq<int>>, p: seq<int>, d: int, s: int)
    requires IsMatrix(g) && InRange(g, p) && 0 <= s < |g|
    requires forall k :: 0 <= k < |p| ==> p[k] != s
    ensures Augmented(g, p, d)[s] == g[s]
    decreases |p|
  {
    if |p| > 1 {
      AugmentedAvoidsRow(Push(g, p[|p| - 2], p[|p| - 1], d), p[..|p| - 1], d, s);
    }
  }

  /** A path that avoids `t` leaves column `t` alone. */
  lemma {:induction false} AugmentedAvoidsColumn(g: seq<seq<int>>, p: seq<int>, d: int, t: int)
    requires IsMatrix(g) && InRange(g, p) && 0 <= t < |g|
    requires forall k :: 0 <= k < |p| ==> p[k] != t
    ensures Column(Augmented(g, p, d), t) == Column(g, t)
    decreases |p|
  {
    if |p| > 1 {
      var g' := Push(g, p[|p| - 2], p[|p| - 1], d);
      assert Column(g', t) == Column(g, t);
      AugmentedAvoidsColumn(g', p[..|p| - 1], d, t);
    }
  }

  /** Augmenting a simple path by at most its least entry takes exactly `d`
      off what may leave its first vertex. */
  lemma {:induction false} AugmentedOut(g: seq<seq<int>>, p: seq<int>, d: int)
    requires IsMatrix(g) && InRange(g, p) && Simple(p) && |p| >= 2 && d >= 0
    requires forall i :: 0 <= i < |p| - 1 ==> d <= Residual(g, p, i)
    ensures Out(Augmented(g, p, d), p[0]) == Out(g, p[0]) - d
    decreases |p|
  {
    var a, b := p[|p| - 2], p[|p| - 1];
    var g' := Push(g, a, b, d);
    if |p| == 2 {
      assert Residual(g, p, 0) == g[a][b];
      assert g'[a] == g[a][b := g[a][b] - d];
      PosSumUpdate(g[a], b, g[a][b] - d);
    } else {
      assert g'[p[0]] == g[p[0]];
      PushKeepsPrefix(g, p, d);
      var q := p[..|p| - 1];
      forall i | 0 <= i < |q| - 1
        ensures d <= Residual(g', q, i)
      {
        assert Residual(g', q, i) >= Residual(g, p, i);
      }
      AugmentedOut(g', q, d);
    }
  }

  /** ... and exactly `d` off what may enter its last vertex. */
  lemma {:induction false} AugmentedIn(g: seq<seq<int>>, p: seq<int>, d: int)
    requires IsMatrix(g) && InRange(g, p) && Simple(p) && |p| >= 2 && d >= 0
    requires forall i :: 0 <= i < |p| - 1 ==> d <= Residual(g, p, i)
    ensures In(Augmented(g, p, d), p[|p| - 1]) == In(g, p[|p| - 1]) - d
  {
    var a, t := p[|p| - 2], p[|p| - 1];
    var g' := Push(g, a, t, d);
    assert Residual(g, p, |p| - 2) == g[a][t];
    assert Column(g', t) == Column(g, t)[a := g[a][t] - d];
    PosSumUpdate(Column(g, t), a, g[a][t] - d);
    AugmentedAvoidsColumn(g', p[..|p| - 1], d, t);
  }

  /** The body of the loops of `ford_fulkerson` and `edmonds_karp` once a
      path is found: `path_flow` is the least entry on the path, and it is
      taken off every entry along the path and added to every entry along
      its reverse. */
  method Augment(g: seq<seq<int>>, parent: seq<int>, source: int, sink: int, ghost time: seq<int>)
    returns (r: seq<seq<int>>, pathFlow: int)
    requires ParentTree(g, parent, time, source) && 0 <= sink < |g| && sink != source && time[sink] >= 0
    ensures AugmentedAlong(g, parent, time, source, sink, r, pathFlow)
    ensures pathFlow > 0 && IsMatrix(r) && |r| == |g| && SamePairSums(g, r)
    ensures NonNegative(g) ==> NonNegative(r)
    ensures Out(r, source) == Out(g, source) - pathFlow
    ensures In(r, sink) == In(g, sink) - pathFlow
  {
    ghost var p := PathTo(g, parent, time, source, sink);
    pathFlow := PathFlow(g, parent, source, sink, p);
    r := PushAlong(g, parent, source, sink, p, pathFlow);
    AugmentedSums(g, p, pathFlow);
    AugmentedNonNegativeIf(g, p, pathFlow);
    AugmentedOut(g, p, pathFlow);
    AugmentedIn(g, p, pathFlow);
  }

  /** `r` is `g` after `Augment`: `f` is the least entry on the path the
      parent links trace from `source` to `sink`, and `r` is `g` with `f`
      pushed along that path. */
  ghost predicate AugmentedAlong(g: seq<seq<int>>, parent: seq<int>, time: seq<int>, source: int, sink: int,
                                 r: seq<seq<int>>, f: int)
  {
    ParentTree(g, parent, time, source) && 0 <= sink < |g| && time[sink] >= 0 &&
    var p := PathTo(g, parent, time, source, sink);
    LeastOnPath(g, p, f) && r == Augmented(g, p, f)
  }

  /** `f` is the least entry along `p`, and it is positive. */
  ghost predicate LeastOnPath(g: seq<seq<int>>, p: seq<int>, f: int)
    requires IsMatrix(g) && InRange(g, p)
  {
    f > 0 &&
    (forall i :: 0 <= i < |p| - 1 ==> f <= Residual(g, p, i)) &&
    exists i :: 0 <= i < |p| - 1 && f == Residual(g, p, i)
  }

  /** `p` runs from `source` to `sink`, each vertex after the first being
      a `parent` entry away from the one before it, and `source` only at
      its start. */
  ghost predicate Traced(g: seq<seq<int>>, parent: seq<int>, p: seq<int>, source: int, sink: int)
  {
    IsMatrix(g) && |parent| == |g| && |p| >= 1 && InRange(g, p) &&
    p[0] == source && p[|p| - 1] == sink &&
    forall i :: 0 < i < |p| ==> p[i] != source && parent[p[i]] == p[i - 1]
  }

  /** The first walk back from the sink: `path_flow` starts at infinity
      (here `None`) and becomes the least entry on the path. */
  method PathFlow(g: seq<seq<int>>, parent: seq<int>, source: int, sink: int, ghost p: seq<int>)
    returns (pathFlow: int)
    requires Traced(g, parent, p, source, sink) && sink != source
    requires forall i :: 0 <= i < |p| - 1 ==> Residual(g, p, i) > 0
    ensures LeastOnPath(g, p, pathFlow)
  {
    var best: Option<int> := None;
    ghost var m := 0;
    var v := sink;
    ghost var j := |p| - 1;
    while v != source
      invariant 0 <= j < |p| && v == p[j]
      invariant best.None? <==> j == |p| - 1
      invariant best.Some? ==>
        j <= m < |p| - 1 && best.value == Residual(g, p, m) && best.value > 0 &&
        forall i :: j <= i < |p| - 1 ==> best.value <= Residual(g, p, i)
      decreases j
    {
      var u := parent[v];
      assert j > 0 && u == p[j - 1];
      assert Residual(g, p, j - 1) == g[u][v];
      if best.None? || g[u][v] < best.value {
        best := Some(g[u][v]);
        m := j - 1;
      }
      v := u;
      j := j - 1;
    }
    pathFlow := best.value;
  }

  /** The second walk back from the sink: `graph[u][v] -= path_flow` and
      `graph[v][u] += path_flow` for every edge `(u, v)` of the path. */
  method PushAlong(g: seq<seq<int>>, parent: seq<int>, source: int, sink: int, ghost p: seq<int>, pathFlow: int)
    returns (r: seq<seq<int>>)
    requires Traced(g, parent, p, source, sink)
    ensures r == Augmented(g, p, pathFlow)
  {
    r := g;
    var v := sink;
    ghost var j := |p| - 1;
    assert p[..|p|] == p;
    while v != source
      invariant 0 <= j < |p| && v == p[j]
      invariant IsMatrix(r) && |r| == |g|
      invariant Augmented(r, p[..j + 1], pathFlow) == Augmented(g, p, pathFlow)
      decreases j
    {
      var u := parent[v];
      AugmentedStep(r, p, j, pathFlow);
      r := Push(r, u, v, pathFlow);
      v := u;
      j := j - 1;
    }
    assert p[..1] == [source];
  }

  /** Unfolding `Augmented` on the prefix of `p` that ends at `p[j]`. */
  lemma {:induction false} AugmentedStep(g: seq<seq<int>>, p: seq<int>, j: int, d: int)
    requires IsMatrix(g) && InRange(g, p) && 0 < j < |p|
    ensures Augmented(g, p[..j + 1], d) == Augmented(Push(g, p[j - 1], p[j], d), p[..j], d)
  {
    assert p[..j + 1][..j] == p[..j];
  }

  lemma {:induction false} AugmentedNonNegativeIf(g: seq<seq<int>>, p: seq<int>, d: int)
    requires IsMatrix(g) && InRange(g, p) && Simple(p) && d >= 0
    requires forall i :: 0 <= i < |p| - 1 ==> d <= Residual(g, p, i)
    ensures NonNegative(g) ==> NonNegative(Augmented(g, p, d))
  {
    if NonNegative(g) {
      AugmentedNonNegative(g, p, d);
    }
  }
}

/** push_relabel.py: the push–relabel primitives over a capacity matrix, a
    flow matrix, vertex heights and excesses, and the `max_flow` driver
    that saturates the source's edges and discharges the other vertices. */
module PushRelabel {
  import opened ResidualGraphs
  import opened PreflowSums
  import opened Extended

  function Smaller(a: int, b: int): int
  {
    if a <= b then a else b
  }

  /** `capacity[u][v] - flow[u][v]`. */
  function Spare(cap: seq<seq<int>>, flow: seq<seq<int>>, u: int, v: int): int
    requires IsMatrix(cap) && IsMatrix(flow) && |flow| == |cap| && 0 <= u < |cap| && 0 <= v < |cap|
  {
    cap[u][v] - flow[u][v]
  }

  /** The amount `push(u, v)` sends: `min(excess[u], capacity[u][v] -
      flow[u][v])`. */
  function Send(cap: seq<seq<int>>, flow: seq<seq<int>>, excess: seq<int>, u: int, v: int): (d: int)
    requires IsMatrix(cap) && IsMatrix(flow) && |flow| == |cap| && |excess| == |cap|
    requires 0 <= u < |cap| && 0 <= v < |cap|
    ensures d <= excess[u] && d <= Spare(cap, flow, u, v)
    ensures d == excess[u] || d == Spare(cap, flow, u, v)
  {
    Smaller(excess[u], Spare(cap, flow, u, v))
  }

  /** The flow after `d` more goes from `u` to `v`: `flow[u][v]` grows by
      `d` and `flow[v][u]` shrinks by `d` (nothing changes when `u == v`). */
  function Moved(flow: seq<seq<int>>, u: int, v: int, d: int): (r: seq<seq<int>>)
    requires IsMatrix(flow) && 0 <= u < |flow| && 0 <= v < |flow|
    ensures IsMatrix(r) && |r| == |flow|
    ensures forall x, y :: 0 <= x < |r| && 0 <= y < |r| ==>
      r[x][y] == flow[x][y] + (if x == u && y == v then d else 0) - (if x == v && y == u then d else 0)
  {
    var f1 := flow[u := flow[u][v := flow[u][v] + d]];
    f1[v := f1[v][u := f1[v][u] - d]]
  }

  /** The excesses after `d` moves from `u` to `v`. */
  function Shifted(excess: seq<int>, u: int, v: int, d: int): (r: seq<int>)
    requires 0 <= u < |excess| && 0 <= v < |excess|
    ensures |r| == |excess|
    ensures forall w :: 0 <= w < |r| ==>
      r[w] == excess[w] - (if w == u then d else 0) + (if w == v then d else 0)
  {
    var e1 := excess[u := excess[u] - d];
    e1[v := e1[v] + d]
  }

  /** A preflow from `s`: no flow exceeds its capacity, the flow is
      skew-symmetric, and every vertex but `s` holds exactly its inflow as
      excess, which is never negative. */
  ghost predicate Preflow(cap: seq<seq<int>>, flow: seq<seq<int>>, excess: seq<int>, s: int)
  {
    IsMatrix(cap) && Skew(flow) && |flow| == |cap| && |excess| == |cap| && 0 <= s < |cap| &&
    (forall u, v :: 0 <= u < |cap| && 0 <= v < |cap| ==> flow[u][v] <= cap[u][v]) &&
    (forall v :: 0 <= v < |cap| && v != s ==> excess[v] == InFlow(flow, v) && excess[v] >= 0)
  }

  /** What moving `d` from `u` to `v` does to the inflows. */
  lemma {:induction false} MovedInFlow(flow: seq<seq<int>>, u: int, v: int, d: int, w: int)
    requires IsMatrix(flow) && 0 <= u < |flow| && 0 <= v < |flow| && 0 <= w < |flow|
    ensures InFlow(Moved(flow, u, v, d), w) ==
      InFlow(flow, w) - (if w == u then d else 0) + (if w == v then d else 0)
  {
    var r := Moved(flow, u, v, d);
    if u == v {
      ColSumPoint(flow, r, w, |flow|, -1, 0);
    } else if w == v {
      ColSumPoint(flow, r, w, |flow|, u, d);
    } else if w == u {
      ColSumPoint(flow, r, w, |flow|, v, -d);
    } else {
      ColSumPoint(flow, r, w, |flow|, -1, 0);
    }
  }

  /** A push from an overflowing `u` other than the source along an edge
      with residual capacity sends a positive amount and keeps the
      preflow. */
  lemma {:induction false} PushKeepsPreflow(cap: seq<seq<int>>, flow: seq<seq<int>>, excess: seq<int>, s: int, u: int, v: int)
    requires Preflow(cap, flow, excess, s) && 0 <= u < |cap| && 0 <= v < |cap| && u != s
    requires excess[u] > 0 && Spare(cap, flow, u, v) > 0
    ensures Send(cap, flow, excess, u, v) > 0
    ensures Preflow(cap, Moved(flow, u, v, Send(cap, flow, excess, u, v)), Shifted(excess, u, v, Send(cap, flow, excess, u, v)), s)
  {
    var d := Send(cap, flow, excess, u, v);
    var flow', excess' := Moved(flow, u, v, d), Shifted(excess, u, v, d);
    forall w | 0 <= w < |cap| && w != s
      ensures excess'[w] == InFlow(flow', w) && excess'[w] >= 0
    {
      MovedInFlow(flow, u, v, d, w);
    }
  }

  /** One step of the saturation in `max_flow`: with `flow[s][v]` still 0,
      setting it to `capacity[s][v]`, taking that off `flow[v][s]` and
      crediting it to `excess[v]` keeps the preflow. */
  lemma {:induction false} SaturateKeepsPreflow(cap: seq<seq<int>>, flow: seq<seq<int>>, excess: seq<int>, s: int, v: int)
    requires Preflow(cap, flow, excess, s) && 0 <= v < |cap| && flow[s][v] == 0
    ensures Moved(flow, s, v, cap[s][v]) == Saturated(flow, s, v, cap[s][v])
    ensures Preflow(cap, Moved(flow, s, v, cap[s][v]), excess[v := excess[v] + cap[s][v]], s)
  {
    var c := cap[s][v];
    var flow', excess' := Moved(flow, s, v, c), excess[v := excess[v] + c];
    var f1 := flow[s := flow[s][v := c]];
    assert f1 == flow[s := flow[s][v := flow[s][v] + c]];
    forall w | 0 <= w < |cap| && w != s
      ensures excess'[w] == InFlow(flow', w) && excess'[w] >= 0
    {
      MovedInFlow(flow, s, v, c, w);
    }
  }

  /** `flow[s][v] = c; flow[v][s] -= c`. */
  function Saturated(flow: seq<seq<int>>, s: int, v: int, c: int): (r: seq<seq<int>>)
    requires IsMatrix(flow) && 0 <= s < |flow| && 0 <= v < |flow|
    ensures IsMatrix(r) && |r| == |flow| && r[s][v] == (if v == s then 0 else c)
  {
    var f1 := flow[s := flow[s][v := c]];
    f1[v := f1[v][s := f1[v][s] - c]]
  }

  /** The state of the saturation loop of `max_flow` from zero flows and
      excesses once the edges out of `s` to the vertices below `k` are
      done. */
  ghost predicate SaturatedUpTo(cap: seq<seq<int>>, flow: seq<seq<int>>, excess: seq<int>, s: int, k: int)
  {
    IsMatrix(cap) && IsMatrix(flow) && |flow| == |cap| && |excess| == |cap| &&
    0 <= s < |cap| && 0 <= k <= |cap| && flow[s][s] == 0 &&
    (forall w :: k <= w < |cap| ==> flow[s][w] == 0 && flow[w][s] == 0 && excess[w] == 0) &&
    (forall w :: 0 <= w < k && w != s ==>
      flow[s][w] == Pos(cap[s][w]) && flow[w][s] == -Pos(cap[s][w]) && excess[w] == Pos(cap[s][w]))
  }

  lemma {:induction false} ZeroSaturated(cap: seq<seq<int>>, flow: seq<seq<int>>, excess: seq<int>, s: int)
    requires IsMatrix(cap) && IsMatrix(flow) && |flow| == |cap| && |excess| == |cap| && 0 <= s < |cap|
    requires ZeroMatrix(flow) && ZeroSeq(excess)
    ensures SaturatedUpTo(cap, flow, excess, s, 0)
  {
  }

  /** Saturating the edge to `v` moves the saturation loop on. */
  lemma {:induction false} SaturateStep(cap: seq<seq<int>>, flow: seq<seq<int>>, excess: seq<int>, s: int, v: int)
    requires SaturatedUpTo(cap, flow, excess, s, v) && v < |cap| && cap[s][v] > 0
    ensures SaturatedUpTo(cap, Saturated(flow, s, v, cap[s][v]), excess[v := excess[v] + cap[s][v]], s, v + 1)
  {
    var c := cap[s][v];
    var f1 := flow[s := flow[s][v := c]];
    var f2 := f1[v := f1[v][s := f1[v][s] - c]];
    assert f2 == Saturated(flow, s, v, c);
    forall w | 0 <= w < |cap|
      ensures f2[s][w] == (if w == v && v != s then c else flow[s][w])
      ensures f2[w][s] == (if w == v && v != s then -c else flow[w][s])
    {
    }
  }

  /** An edge out of `s` without positive capacity is passed over. */
  lemma {:induction false} SaturateSkip(cap: seq<seq<int>>, flow: seq<seq<int>>, excess: seq<int>, s: int, v: int)
    requires SaturatedUpTo(cap, flow, excess, s, v) && v < |cap| && cap[s][v] <= 0
    ensures SaturatedUpTo(cap, flow, excess, s, v + 1)
  {
  }

  /** The least height among the vertices `w < k` that `u` has residual
      capacity to, or `inf` when there are none. */
  function LowestResidual(cap: seq<seq<int>>, flow: seq<seq<int>>, height: seq<Ext>, u: int, k: nat): (r: Ext)
    requires IsMatrix(cap) && IsMatrix(flow) && |flow| == |cap| && |height| == |cap|
    requires 0 <= u < |cap| && k <= |cap|
    ensures forall w :: 0 <= w < k && Spare(cap, flow, u, w) > 0 ==> AtMost(r, height[w])
    ensures (exists w :: 0 <= w < k && Spare(cap, flow, u, w) > 0 && height[w] == r) ||
            (r == Inf && forall w :: 0 <= w < k ==> Spare(cap, flow, u, w) <= 0)
  {
    if k == 0 then Inf
    else
      var m := LowestResidual(cap, flow, height, u, k - 1);
      if Spare(cap, flow, u, k - 1) > 0 then Min(m, height[k - 1]) else m
  }

  /** `[i for i in range(k) if i != s and i != t]`. */
  function Others(k: nat, s: int, t: int): (r: seq<int>)
    ensures forall i :: 0 <= i < |r| ==> 0 <= r[i] < k && r[i] != s && r[i] != t
    ensures forall x :: 0 <= x < k && x != s && x != t ==> x in r
  {
    if k == 0 then [] else Others(k - 1, s, t) + (if k - 1 != s && k - 1 != t then [k - 1] else [])
  }

  ghost predicate ZeroMatrix(m: seq<seq<int>>)
  {
    forall u, v :: 0 <= u < |m| && 0 <= v < |m[u]| ==> m[u][v] == 0
  }

  ghost predicate ZeroSeq(e: seq<int>)
  {
    forall v :: 0 <= v < |e| ==> e[v] == 0
  }

  /** `PushRelabel`: `n` vertices with their matrices and lists, and the
      number of relabels done. */
  class PushRelabel {
    var n: nat
    var capacity: seq<seq<int>>
    var flow: seq<seq<int>>
    var height: seq<Ext>
    var excess: seq<int>
    var countRelabels: nat

    ghost predicate Valid()
      reads this
    {
      |capacity| == n && IsMatrix(capacity) && |flow| == n && IsMatrix(flow) &&
      |height| == n && |excess| == n
    }

    /** `__init__(n)`: zero capacities, flows, heights and excesses. */
    constructor (vertices: nat)
      ensures Valid() && n == vertices && countRelabels == 0
      ensures ZeroMatrix(capacity) && ZeroMatrix(flow) && ZeroSeq(excess)
      ensures forall v :: 0 <= v < n ==> height[v] == Fin(0)
    {
      n := vertices;
      capacity := seq(vertices, _ => seq(vertices, _ => 0));
      flow := seq(vertices, _ => seq(vertices, _ => 0));
      height := seq(vertices, _ => Fin(0));
      excess := seq(vertices, _ => 0);
      countRelabels := 0;
    }

    /** `add_edge(u, v, cap)`: only `capacity[u][v]` changes. */
    method AddEdge(u: int, v: int, cap: int)
      requires Valid() && 0 <= u < n && 0 <= v < n
      modifies this
      ensures Valid() && n == old(n) && flow == old(flow) && height == old(height)
      ensures excess == old(excess) && countRelabels == old(countRelabels)
      ensures capacity[u][v] == cap
      ensures forall x, y :: 0 <= x < n && 0 <= y < n && (x != u || y != v) ==> capacity[x][y] == old(capacity)[x][y]
    {
      capacity := capacity[u := capacity[u][v := cap]];
    }

    /** `push(u, v)`: sends `min(excess[u], capacity[u][v] - flow[u][v])`
        from `u` to `v`, moving it between the flows and the excesses;
        `PushKeepsPreflow` says when that keeps a preflow. */
    method Push(u: int, v: int)
      requires Valid() && 0 <= u < n && 0 <= v < n
      modifies this
      ensures Valid() && n == old(n) && capacity == old(capacity) && height == old(height)
      ensures countRelabels == old(countRelabels)
      ensures flow == Moved(old(flow), u, v, Send(old(capacity), old(flow), old(excess), u, v))
      ensures excess == Shifted(old(excess), u, v, Send(old(capacity), old(flow), old(excess), u, v))
    {
      var send := Smaller(excess[u], capacity[u][v] - flow[u][v]);
      flow := flow[u := flow[u][v := flow[u][v] + send]];
      flow := flow[v := flow[v][u := flow[v][u] - send]];
      excess := excess[u := excess[u] - send];
      excess := excess[v := excess[v] + send];
    }

    /** `relabel(u)`: `height[u]` becomes one more than the least height
        of a vertex `u` has residual capacity to (`inf` when none), and
        one more relabel is counted. */
    method Relabel(u: int)
      requires Valid() && 0 <= u < n
      modifies this
      ensures Valid() && n == old(n) && capacity == old(capacity) && flow == old(flow) && excess == old(excess)
      ensures height == old(height)[u := Add(LowestResidual(capacity, flow, old(height), u, n), 1)]
      ensures countRelabels == old(countRelabels) + 1
    {
      var minHeight := Inf;
      var v := 0;
      while v < n
        invariant 0 <= v <= n && minHeight == LowestResidual(capacity, flow, height, u, v)
      {
        if capacity[u][v] - flow[u][v] > 0 {
          minHeight := Min(minHeight, height[v]);
        }
        v := v + 1;
      }
      height := height[u := Add(minHeight, 1)];
      countRelabels := countRelabels + 1;
    }

    /** `discharge(u)`: while `u` overflows, push along every edge with
        residual capacity to a vertex exactly one lower, stopping when the
        excess is gone, and relabel `u` when no push was possible. The
        source loops until the excess is gone; here at most `fuel` rounds
        run, and `rounds` says how many did: fewer than `fuel` only when
        `excess[u]` is no longer positive. Only `u`'s height changes, and
        a preflow from a source other than `u` stays a preflow. */
    method Discharge(u: int, ghost s: int, fuel: nat) returns (rounds: nat)
      requires Valid() && 0 <= u < n
      modifies this
      ensures Valid() && n == old(n) && capacity == old(capacity)
      ensures forall w :: 0 <= w < n && w != u ==> height[w] == old(height)[w]
      ensures countRelabels >= old(countRelabels)
      ensures rounds <= fuel && (rounds < fuel ==> excess[u] <= 0)
      ensures u != s && old(Preflow(capacity, flow, excess, s)) ==> Preflow(capacity, flow, excess, s)
    {
      ghost var keep := u != s && Preflow(capacity, flow, excess, s);
      rounds := 0;
      while excess[u] > 0 && rounds < fuel
        invariant Valid() && n == old(n) && capacity == old(capacity) && rounds <= fuel
        invariant forall w :: 0 <= w < n && w != u ==> height[w] == old(height)[w]
        invariant countRelabels >= old(countRelabels)
        invariant keep ==> Preflow(capacity, flow, excess, s)
        decreases fuel - rounds
      {
        var done := false;
        var v := 0;
        while v < n
          invariant 0 <= v <= n && Valid() && n == old(n) && capacity == old(capacity)
          invariant excess[u] > 0
          invariant forall w :: 0 <= w < n && w != u ==> height[w] == old(height)[w]
          invariant countRelabels >= old(countRelabels)
          invariant keep ==> Preflow(capacity, flow, excess, s)
        {
          if capacity[u][v] - flow[u][v] > 0 && height[u] == Add(height[v], 1) {
            if keep {
              PushKeepsPreflow(capacity, flow, excess, s, u, v);
            }
            Push(u, v);
            done := true;
            if excess[u] == 0 {
              break;
            }
          }
          v := v + 1;
        }
        if !done {
          Relabel(u);
        }
        rounds := rounds + 1;
      }
    }

    /** The first part of `max_flow(s, t)`: `height[s]` becomes `n`, and
        every edge out of `s` with positive capacity is saturated, its
        capacity credited to the excess of its head. From the state the
        constructor and `add_edge` leave, that is exactly the flow below,
        and with non-negative capacities it is a preflow. */
    method Saturate(s: int)
      requires Valid() && 0 <= s < n
      modifies this
      ensures Valid() && n == old(n) && capacity == old(capacity) && countRelabels == old(countRelabels)
      ensures height == old(height)[s := Fin(n)]
      ensures ZeroMatrix(old(flow)) && ZeroSeq(old(excess)) ==>
        flow[s][s] == 0 &&
        forall v :: 0 <= v < n && v != s ==>
          flow[s][v] == Pos(capacity[s][v]) && flow[v][s] == -Pos(capacity[s][v]) && excess[v] == Pos(capacity[s][v])
      ensures ZeroMatrix(old(flow)) && ZeroSeq(old(excess)) && NonNegative(capacity) ==>
        Preflow(capacity, flow, excess, s)
    {
      height := height[s := Fin(n)];
      flow, excess := SaturateEdges(capacity, flow, excess, s);
    }

    /** `max_flow(s, t)`: saturate the source's edges, then discharge the
        vertices other than `s` and `t` in list order, moving a vertex
        whose height went up to the front of the list without going back
        (so the scan does not restart). Each discharge gets at most `fuel`
        rounds and the scan at most `fuel` steps. The result is the flow
        out of `s` and the relabel count; from the constructor's state
        with non-negative capacities the flow stays a preflow, and the
        flow out of `s` is what the other vertices hold, so it is never
        negative. */
    method MaxFlow(s: int, t: int, fuel: nat) returns (maxFlow: int, relabels: int)
      requires Valid() && 0 <= s < n
      modifies this
      ensures Valid() && n == old(n) && capacity == old(capacity)
      ensures height[s] == Fin(n) && relabels == countRelabels >= old(countRelabels)
      ensures maxFlow == RowSum(flow, s, n)
      ensures ZeroMatrix(old(flow)) && ZeroSeq(old(excess)) && NonNegative(old(capacity)) ==>
        Preflow(capacity, flow, excess, s) && maxFlow == SumExcept(excess, s, n) && maxFlow >= 0
    {
      ghost var pre := ZeroMatrix(flow) && ZeroSeq(excess) && NonNegative(capacity);
      Saturate(s);
      var active := Others(n, s, t);
      var p := 0;
      var steps := 0;
      while p < |active| && steps < fuel
        invariant Valid() && n == old(n) && capacity == old(capacity)
        invariant height[s] == Fin(n) && countRelabels >= old(countRelabels)
        invariant forall i :: 0 <= i < |active| ==> 0 <= active[i] < n && active[i] != s
        invariant pre ==> Preflow(capacity, flow, excess, s)
        decreases fuel - steps
      {
        var u := active[p];
        var oldHeight := height[u];
        var _ := Discharge(u, s, fuel);
        if Less(oldHeight, height[u]) {
          active := [active[p]] + active[..p] + active[p + 1..];
        } else {
          p := p + 1;
        }
        steps := steps + 1;
      }
      maxFlow := RowSum(flow, s, n);
      relabels := countRelabels;
      if pre {
        SourceRowSum(flow, excess, s);
        SumExceptNonNegative(excess, s, n);
      }
    }
  }

  /** The saturation loop of `max_flow` on the matrices. */
  method SaturateEdges(cap: seq<seq<int>>, flow0: seq<seq<int>>, excess0: seq<int>, s: int)
      returns (flow: seq<seq<int>>, excess: seq<int>)
    requires IsMatrix(cap) && IsMatrix(flow0) && |flow0| == |cap| && |excess0| == |cap| && 0 <= s < |cap|
    ensures IsMatrix(flow) && |flow| == |cap| && |excess| == |cap|
    ensures ZeroMatrix(flow0) && ZeroSeq(excess0) ==> SaturatedUpTo(cap, flow, excess, s, |cap|)
    ensures ZeroMatrix(flow0) && ZeroSeq(excess0) && NonNegative(cap) ==> Preflow(cap, flow, excess, s)
  {
    ghost var zero := ZeroMatrix(flow0) && ZeroSeq(excess0);
    ghost var pre := zero && NonNegative(cap);
    flow, excess := flow0, excess0;
    if zero {
      ZeroSaturated(cap, flow, excess, s);
    }
    if pre {
      ZeroPreflow(cap, flow, excess, s);
    }
    var v := 0;
    while v < |cap|
      invariant 0 <= v <= |cap| && IsMatrix(flow) && |flow| == |cap| && |excess| == |cap|
      invariant zero ==> SaturatedUpTo(cap, flow, excess, s, v)
      invariant pre ==> Preflow(cap, flow, excess, s)
    {
      if cap[s][v] > 0 {
        if pre {
          SaturateKeepsPreflow(cap, flow, excess, s, v);
        }
        if zero {
          SaturateStep(cap, flow, excess, s, v);
        }
        flow := Saturated(flow, s, v, cap[s][v]);
        excess := excess[v := excess[v] + cap[s][v]];
      } else if zero {
        SaturateSkip(cap, flow, excess, s, v);
      }
      v := v + 1;
    }
  }

  /** The zero flow with zero excesses is a preflow when no capacity is
      negative. */
  lemma {:induction false} ZeroPreflow(cap: seq<seq<int>>, flow: seq<seq<int>>, excess: seq<int>, s: int)
    requires NonNegative(cap) && IsMatrix(flow) && |flow| == |cap| && |excess| == |cap| && 0 <= s < |cap|
    requires ZeroMatrix(flow) && ZeroSeq(excess)
    ensures Preflow(cap, flow, excess, s)
  {
    forall v | 0 <= v < |cap|
      ensures InFlow(flow, v) == 0
    {
      ZeroColumn(flow, v, |flow|);
    }
  }

  lemma {:induction false} ZeroColumn(m: seq<seq<int>>, v: int, r: nat)
    requires IsMatrix(m) && ZeroMatrix(m) && 0 <= v < |m| && r <= |m|
    ensures ColSum(m, v, r) == 0
  {
    if r > 0 {
      ZeroColumn(m, v, r - 1);
    }
  }
}

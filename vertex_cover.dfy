/** vertex_cover.py: the vertex-cover test, the exact search over
    combinations of the graph's vertices, and the greedy 2-approximation.
    A graph is the source's dict of adjacency lists, as its (key, list)
    entries in insertion order. */
module VertexCover {
  import opened Combinations
  import opened Wrappers

  type Graph = seq<(int, seq<int>)>


  /** `list(graph.keys())`. */
  function Nodes(g: Graph): (r: seq<int>)
    ensures |r| == |g| && forall i :: 0 <= i < |g| ==> r[i] == g[i].0
  {
    if g == [] then [] else Nodes(g[..|g| - 1]) + [g[|g| - 1].0]
  }

  /** A dict's keys are distinct. */
  ghost predicate WellFormed(g: Graph)
  {
    Distinct(Nodes(g))
  }

  function SetOf(s: seq<int>): set<int>
  {
    set x | x in s
  }

  /** `is_vertex_cover`: every adjacency `u -> v` has `u` or `v` in the cover. */
  predicate IsVertexCover(g: Graph, cover: set<int>)
  {
    forall i, k :: 0 <= i < |g| && 0 <= k < |g[i].1| ==> g[i].0 in cover || g[i].1[k] in cover
  }

  /** The loops of `is_vertex_cover`: the first uncovered adjacency answers false. */
  method CheckVertexCover(g: Graph, cover: seq<int>) returns (ok: bool)
    ensures ok <==> IsVertexCover(g, SetOf(cover))
  {
    var c := SetOf(cover);
    var i := 0;
    while i < |g|
      invariant 0 <= i <= |g|
      invariant forall i', k :: 0 <= i' < i && 0 <= k < |g[i'].1| ==> g[i'].0 in c || g[i'].1[k] in c
    {
      var (u, vs) := g[i];
      var k := 0;
      while k < |vs|
        invariant 0 <= k <= |vs|
        invariant forall k' :: 0 <= k' < k ==> u in c || vs[k'] in c
      {
        if u !in c && vs[k] !in c {
          return false;
        }
        k := k + 1;
      }
      i := i + 1;
    }
    return true;
  }

  /** Covers stay covers when vertices are added; all the keys form one. */
  lemma {:induction false} CoverMonotone(g: Graph, c: set<int>, d: set<int>)
    requires IsVertexCover(g, c) && c <= d
    ensures IsVertexCover(g, d) && IsVertexCover(g, SetOf(Nodes(g)))
  {
    forall i, k | 0 <= i < |g| && 0 <= k < |g[i].1| ensures g[i].0 in d || g[i].1[k] in d {
    }
    forall i | 0 <= i < |g| ensures g[i].0 in SetOf(Nodes(g)) {
      assert Nodes(g)[i] == g[i].0;
    }
  }

  /** The first candidate that is a cover, in the order of `cands`. */
  function FirstCover(g: Graph, cands: seq<seq<int>>): (r: Option<seq<int>>)
    ensures r.Some? ==> r.value in cands && IsVertexCover(g, SetOf(r.value))
    ensures r.None? ==> forall c :: c in cands ==> !IsVertexCover(g, SetOf(c))
  {
    if cands == [] then None
    else if IsVertexCover(g, SetOf(cands[0])) then Some(cands[0])
    else FirstCover(g, cands[1..])
  }

  /** The size loop of `brute_force_vertex_cover`, from size `r` on. */
  function CoverFrom(g: Graph, r: nat): (c: Option<set<int>>)
    ensures c.Some? ==> IsVertexCover(g, c.value) && c.value <= SetOf(Nodes(g)) && r <= |g|
    decreases |g| + 1 - r
  {
    if r > |g| then None
    else match FirstCover(g, Combinations.Combinations(Nodes(g), r))
      case Some(found) =>
        CombinationsSound(Nodes(g), r, found);
        SubsequenceMembers(found, Nodes(g));
        SetOfSubset(found, Nodes(g));
        Some(SetOf(found))
      case None => CoverFrom(g, r + 1)
  }

  /** Membership in the sequences carries over to their sets. */
  lemma SetOfSubset(a: seq<int>, b: seq<int>)
    requires forall x :: x in a ==> x in b
    ensures SetOf(a) <= SetOf(b)
  {
    forall x | x in SetOf(a) ensures x in SetOf(b) {
      assert x in a;
    }
  }

  /** `brute_force_vertex_cover`: sizes are tried from 1 up. */
  function BruteForceVertexCover(g: Graph): (c: Option<set<int>>)
    ensures c.Some? ==> IsVertexCover(g, c.value) && c.value <= SetOf(Nodes(g)) && 1 <= |g|
  {
    CoverFrom(g, 1)
  }

  /** Covers drawn from the keys, with at least `lo` vertices. */
  ghost predicate KeyCover(g: Graph, d: set<int>, lo: nat)
  {
    d <= SetOf(Nodes(g)) && |d| >= lo && IsVertexCover(g, d)
  }

  /** `c` is a key cover, and no key cover with at least `lo` vertices is smaller. */
  ghost predicate Smallest(g: Graph, c: set<int>, lo: nat)
  {
    KeyCover(g, c, lo) && forall d :: KeyCover(g, d, lo) ==> |c| <= |d|
  }

  /** When no key cover with `lo` to `r - 1` vertices exists, the search from
      `r` returns a key cover that is smallest among those with at least `lo`
      vertices, and returns none only when there are fewer than `lo` keys. */
  lemma {:induction false} CoverFromMinimal(g: Graph, r: nat, lo: nat)
    requires WellFormed(g) && lo <= r <= |g| + 1
    requires forall d :: KeyCover(g, d, lo) ==> |d| >= r
    ensures CoverFrom(g, r).None? <==> |g| < lo
    ensures CoverFrom(g, r).Some? ==> Smallest(g, CoverFrom(g, r).value, lo)
    decreases |g| + 1 - r
  {
    if r > |g| {
      AllKeysCover(g, lo);
    } else {
      var found := FirstCover(g, Combinations.Combinations(Nodes(g), r));
      if found.Some? {
        FoundIsKeyCover(g, r, lo, found.value);
        assert Smallest(g, SetOf(found.value), lo);
        assert CoverFrom(g, r) == Some(SetOf(found.value));
      } else {
        assert CoverFrom(g, r) == CoverFrom(g, r + 1);
        NoneOfSize(g, r, lo);
        CoverFromMinimal(g, r + 1, lo);
      }
    }
  }

  /** All the keys together cover, so with at least `lo` keys a key cover exists. */
  lemma {:induction false} AllKeysCover(g: Graph, lo: nat)
    requires WellFormed(g)
    ensures |g| >= lo ==> KeyCover(g, SetOf(Nodes(g)), lo)
    ensures |SetOf(Nodes(g))| == |g|
  {
    var keys := SetOf(Nodes(g));
    CoverMonotone(g, keys, keys);
    DistinctCard(Nodes(g));
  }

  /** A combination of `r` keys that covers is a key cover of size `r`. */
  lemma {:induction false} FoundIsKeyCover(g: Graph, r: nat, lo: nat, c: seq<int>)
    requires WellFormed(g) && lo <= r
    requires c in Combinations.Combinations(Nodes(g), r) && IsVertexCover(g, SetOf(c))
    ensures KeyCover(g, SetOf(c), lo) && |SetOf(c)| == r
  {
    CombinationsSound(Nodes(g), r, c);
    SubsequenceDistinct(c, Nodes(g));
    SubsequenceMembers(c, Nodes(g));
    DistinctCard(c);
  }

  /** When no combination of `r` keys covers, no key cover has `r` vertices. */
  lemma {:induction false} NoneOfSize(g: Graph, r: nat, lo: nat)
    requires WellFormed(g)
    requires FirstCover(g, Combinations.Combinations(Nodes(g), r)).None?
    ensures forall d :: KeyCover(g, d, lo) ==> |d| != r
  {
    forall d | KeyCover(g, d, lo) ensures |d| != r {
      if |d| == r {
        SubsetIsCombination(Nodes(g), d);
      }
    }
  }

  /** What `brute_force_vertex_cover` guarantees: a smallest cover among the
      non-empty sets of keys, and `None` only for a graph without vertices. */
  lemma {:induction false} BruteForceMinimal(g: Graph)
    requires WellFormed(g)
    ensures BruteForceVertexCover(g).None? <==> g == []
    ensures BruteForceVertexCover(g).Some? ==> Smallest(g, BruteForceVertexCover(g).value, 1)
  {
    CoverFromMinimal(g, 1, 1);
  }

  /** As written the search never tries the empty set: a vertex without
      edges gets a one-vertex "minimum" cover although no vertex is needed. */
  lemma {:induction false} EdgelessGraphOverCovered()
    ensures BruteForceVertexCover([(0, [])]) == Some({0})
    ensures IsVertexCover([(0, [])], {})
  {
    var g: Graph := [(0, [])];
    assert Nodes(g) == [0];
    var p := PrependAll(0, [[]]);
    assert |p| == 1 && p[0] == [0] + [] == [0];
    assert [0][1..] == [] && p == [[0]];
    assert Combinations.Combinations([0], 1) == [[0]];
    assert SetOf([0]) == {0};
  }

  /** The search with sizes tried from 0 up, as an exact minimum cover needs. */
  function BruteForceVertexCoverIntended(g: Graph): Option<set<int>>
  {
    CoverFrom(g, 0)
  }

  /** The search from size 0 always returns a smallest cover drawn from the keys. */
  lemma {:induction false} BruteForceIntendedMinimal(g: Graph)
    requires WellFormed(g)
    ensures BruteForceVertexCoverIntended(g).Some?
    ensures Smallest(g, BruteForceVertexCoverIntended(g).value, 0)
  {
    CoverFromMinimal(g, 0, 0);
  }

  /** The adjacencies `u -> v` of `u`'s list. */
  function EdgesOf(u: int, vs: seq<int>): (r: seq<(int, int)>)
    ensures |r| == |vs| && forall k :: 0 <= k < |vs| ==> r[k] == (u, vs[k])
  {
    if vs == [] then [] else EdgesOf(u, vs[..|vs| - 1]) + [(u, vs[|vs| - 1])]
  }

  /** The edge list `approx_vertex_cover` collects, key by key. */
  function EdgeList(g: Graph): seq<(int, int)>
  {
    if g == [] then [] else EdgeList(g[..|g| - 1]) + EdgesOf(g[|g| - 1].0, g[|g| - 1].1)
  }

  lemma {:induction false} EdgeListMembers(g: Graph)
    ensures forall e :: e in EdgeList(g) <==> exists i :: 0 <= i < |g| && e.0 == g[i].0 && e.1 in g[i].1
  {
    if g != [] {
      var h := g[..|g| - 1];
      EdgeListMembers(h);
      var last := g[|g| - 1];
      forall e ensures e in EdgeList(g) <==> exists i :: 0 <= i < |g| && e.0 == g[i].0 && e.1 in g[i].1 {
        if e in EdgesOf(last.0, last.1) {
          var k :| 0 <= k < |last.1| && EdgesOf(last.0, last.1)[k] == e;
          assert e.1 == last.1[k];
        }
        if exists i :: 0 <= i < |g| && e.0 == g[i].0 && e.1 in g[i].1 {
          var i :| 0 <= i < |g| && e.0 == g[i].0 && e.1 in g[i].1;
          if i == |g| - 1 {
            var k :| 0 <= k < |last.1| && last.1[k] == e.1;
            assert EdgesOf(last.0, last.1)[k] == e;
          } else {
            assert h[i] == g[i];
          }
        }
        if exists i :: 0 <= i < |h| && e.0 == h[i].0 && e.1 in h[i].1 {
          var i :| 0 <= i < |h| && e.0 == h[i].0 && e.1 in h[i].1;
          assert g[i] == h[i];
        }
      }
    }
  }

  /** A set covers the graph exactly when it covers every collected edge. */
  lemma {:induction false} CoverByEdges(g: Graph, c: set<int>)
    ensures IsVertexCover(g, c) <==> forall e :: e in EdgeList(g) ==> e.0 in c || e.1 in c
  {
    EdgeListMembers(g);
    if IsVertexCover(g, c) {
      forall e | e in EdgeList(g) ensures e.0 in c || e.1 in c {
        var i :| 0 <= i < |g| && e.0 == g[i].0 && e.1 in g[i].1;
        var k :| 0 <= k < |g[i].1| && g[i].1[k] == e.1;
      }
    }
    if forall e :: e in EdgeList(g) ==> e.0 in c || e.1 in c {
      forall i, k | 0 <= i < |g| && 0 <= k < |g[i].1| ensures g[i].0 in c || g[i].1[k] in c {
        assert (g[i].0, g[i].1[k]) in EdgeList(g);
      }
    }
  }

  /** Edges no two of which share an end point. */
  ghost predicate Matching(m: seq<(int, int)>)
  {
    forall i, j :: 0 <= i < j < |m| ==>
      m[i].0 != m[j].0 && m[i].0 != m[j].1 && m[i].1 != m[j].0 && m[i].1 != m[j].1
  }

  function Endpoints(m: seq<(int, int)>): set<int>
  {
    if m == [] then {} else Endpoints(m[..|m| - 1]) + {m[|m| - 1].0, m[|m| - 1].1}
  }

  lemma {:induction false} EndpointsBound(m: seq<(int, int)>)
    ensures |Endpoints(m)| <= 2 * |m|
  {
    if m != [] {
      EndpointsBound(m[..|m| - 1]);
      var e := m[|m| - 1];
      assert |{e.0, e.1}| <= 2;
    }
  }

  lemma {:induction false} EndpointsMembers(m: seq<(int, int)>)
    ensures forall x :: x in Endpoints(m) <==> exists e :: e in m && (x == e.0 || x == e.1)
  {
    if m != [] {
      EndpointsMembers(m[..|m| - 1]);
      assert m == m[..|m| - 1] + [m[|m| - 1]];
    }
  }

  /** Adding an edge with two fresh ends keeps a matching. */
  lemma {:induction false} MatchingExtend(m: seq<(int, int)>, u: int, v: int)
    requires Matching(m) && u !in Endpoints(m) && v !in Endpoints(m)
    ensures Matching(m + [(u, v)]) && Endpoints(m + [(u, v)]) == Endpoints(m) + {u, v}
  {
    EndpointsMembers(m);
    var m' := m + [(u, v)];
    assert m'[..|m'| - 1] == m;
    forall i, j | 0 <= i < j < |m'|
      ensures m'[i].0 != m'[j].0 && m'[i].0 != m'[j].1 && m'[i].1 != m'[j].0 && m'[i].1 != m'[j].1
    {
      if j == |m| {
        assert m'[i] == m[i] && m[i] in m;
      } else {
        assert m'[i] == m[i] && m'[j] == m[j];
      }
    }
  }

  lemma {:induction false} EdgeListStep(g: Graph, i: int)
    requires 0 <= i < |g|
    ensures EdgeList(g[..i + 1]) == EdgeList(g[..i]) + EdgesOf(g[i].0, g[i].1)
  {
    assert g[..i + 1][..i] == g[..i];
  }

  lemma {:induction false} EdgesOfStep(u: int, vs: seq<int>, k: int)
    requires 0 <= k < |vs|
    ensures EdgesOf(u, vs[..k + 1]) == EdgesOf(u, vs[..k]) + [(u, vs[k])]
  {
    assert vs[..k + 1][..k] == vs[..k];
  }

  /** Any cover needs a distinct vertex for each edge of a matching. */
  lemma {:induction false} MatchingLowerBound(m: seq<(int, int)>, c: set<int>)
    requires Matching(m) && forall e :: e in m ==> e.0 in c || e.1 in c
    ensures |m| <= |c|
  {
    if m != [] {
      var e := m[|m| - 1];
      var w := if e.0 in c then e.0 else e.1;
      var m' := m[..|m| - 1];
      forall e' | e' in m' ensures e'.0 in c - {w} || e'.1 in c - {w} {
        var i :| 0 <= i < |m'| && m'[i] == e';
        assert m[i] == e' && m[|m| - 1] == e;
      }
      MatchingLowerBound(m', c - {w});
    }
  }

  /** The first loops of `approx_vertex_cover`: every adjacency `(u, v)`,
      in the order of the keys and of their lists. */
  method CollectEdges(g: Graph) returns (edges: seq<(int, int)>)
    ensures edges == EdgeList(g)
  {
    edges := [];
    var i := 0;
    while i < |g|
      invariant 0 <= i <= |g|
      invariant edges == EdgeList(g[..i])
    {
      var (u, vs) := g[i];
      var k := 0;
      while k < |vs|
        invariant 0 <= k <= |vs|
        invariant edges == EdgeList(g[..i]) + EdgesOf(u, vs[..k])
      {
        EdgesOfStep(u, vs, k);
        edges := edges + [(u, vs[k])];
        k := k + 1;
      }
      assert vs[..k] == vs;
      EdgeListStep(g, i);
      i := i + 1;
    }
    assert g[..i] == g;
  }

  /** `approx_vertex_cover`: collect the edges, then take both ends of every
      edge whose ends are both still unvisited. The result is a cover made of
      edge ends, at most twice as large as any cover. */
  method ApproxVertexCover(g: Graph) returns (cover: set<int>)
    ensures IsVertexCover(g, cover)
    ensures forall x :: x in cover ==> exists e :: e in EdgeList(g) && (x == e.0 || x == e.1)
    ensures forall c :: IsVertexCover(g, c) ==> |cover| <= 2 * |c|
  {
    var visited: set<int> := {};
    var edges := CollectEdges(g);
    cover := {};
    ghost var m: seq<(int, int)> := [];
    var j := 0;
    while j < |edges|
      invariant 0 <= j <= |edges|
      invariant visited == cover && cover == Endpoints(m)
      invariant Matching(m) && forall e :: e in m ==> e in edges
      invariant forall k :: 0 <= k < j ==> edges[k].0 in cover || edges[k].1 in cover
    {
      var (u, v) := edges[j];
      if u !in visited && v !in visited {
        MatchingExtend(m, u, v);
        cover := cover + {u, v};
        visited := visited + {u, v};
        m := m + [(u, v)];
      }
      j := j + 1;
    }
    forall e | e in edges ensures e.0 in cover || e.1 in cover {
      var k :| 0 <= k < |edges| && edges[k] == e;
    }
    MatchingCover(g, m);
  }

  /** The ends of a matching drawn from the edges that touches every edge
      form a cover at most twice as large as any cover. */
  lemma {:induction false} MatchingCover(g: Graph, m: seq<(int, int)>)
    requires Matching(m) && forall e :: e in m ==> e in EdgeList(g)
    requires forall e :: e in EdgeList(g) ==> e.0 in Endpoints(m) || e.1 in Endpoints(m)
    ensures IsVertexCover(g, Endpoints(m))
    ensures forall x :: x in Endpoints(m) ==> exists e :: e in EdgeList(g) && (x == e.0 || x == e.1)
    ensures forall c :: IsVertexCover(g, c) ==> |Endpoints(m)| <= 2 * |c|
  {
    CoverByEdges(g, Endpoints(m));
    EndpointsMembers(m);
    forall c | IsVertexCover(g, c) ensures |Endpoints(m)| <= 2 * |c| {
      CoverByEdges(g, c);
      MatchingLowerBound(m, c);
      EndpointsBound(m);
    }
  }
}

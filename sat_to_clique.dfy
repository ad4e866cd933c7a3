/** sat_to_clique.py: the textual 3-CNF parser, the reduction of a formula
    to a graph with one vertex per literal occurrence, and the brute-force
    search for a clique with one vertex per clause. */
module SatToClique {
  import opened PythonStrings
  import Combinations
  import opened Wrappers


  /** The clause texts of a formula: spaces removed, split on ")AND(", the
      first text's opening parenthesis and the last text's closing one cut
      off (both from the same text when there is a single clause). */
  function ClauseTexts(formula: string): (r: seq<string>)
    ensures |r| == |Split(RemoveSpaces(formula), ")AND(")|
  {
    var ps := Split(RemoveSpaces(formula), ")AND(");
    var ps1 := ps[0 := DropFirst(ps[0])];
    ps1[|ps1| - 1 := DropLast(ps1[|ps1| - 1])]
  }

  /** What `parse_3sat` returns: each clause text split on "OR". */
  ghost function Parsed(formula: string): seq<seq<string>>
  {
    var ct := ClauseTexts(formula);
    seq(|ct|, i requires 0 <= i < |ct| => Split(ct[i], "OR"))
  }

  /** `parse_3sat`. */
  method ParseThreeSat(formula: string) returns (parsed: seq<seq<string>>)
    ensures parsed == Parsed(formula)
  {
    var clauses := Split(RemoveSpaces(formula), ")AND(");
    clauses := clauses[0 := DropFirst(clauses[0])];
    clauses := clauses[|clauses| - 1 := DropLast(clauses[|clauses| - 1])];
    parsed := [];
    var i := 0;
    while i < |clauses|
      invariant 0 <= i <= |clauses| && clauses == ClauseTexts(formula)
      invariant |parsed| == i && forall j :: 0 <= j < i ==> parsed[j] == Split(clauses[j], "OR")
    {
      var literals := Split(clauses[i], "OR");
      parsed := parsed + [literals];
      i := i + 1;
    }
  }

  /** Characters a literal may use for the text form to read back: no
      space, no parenthesis, and no 'O', which starts the separator "OR". */
  ghost predicate PlainLiteral(l: string)
  {
    forall i :: 0 <= i < |l| ==> l[i] != ' ' && l[i] != '(' && l[i] != ')' && l[i] != 'O'
  }

  ghost predicate WellFormedClauses(cs: seq<seq<string>>)
  {
    |cs| >= 1 && forall i :: 0 <= i < |cs| ==> |cs[i]| >= 1 && forall j :: 0 <= j < |cs[i]| ==> PlainLiteral(cs[i][j])
  }

  /** The text form `(l OR l OR l)AND(...)` of a clause list. */
  ghost function Render(cs: seq<seq<string>>): string
    requires WellFormedClauses(cs)
  {
    "(" + Join(ClauseJoins(cs), ")AND(") + ")"
  }

  ghost function ClauseJoins(cs: seq<seq<string>>): (r: seq<string>)
    requires WellFormedClauses(cs)
    ensures |r| == |cs| >= 1
  {
    seq(|cs|, i requires 0 <= i < |cs| => Join(cs[i], "OR"))
  }

  /** A clause's text has no space and no parenthesis. */
  lemma {:induction false} ClauseJoinPlain(c: seq<string>)
    requires |c| >= 1 && forall j :: 0 <= j < |c| ==> PlainLiteral(c[j])
    ensures forall i :: 0 <= i < |Join(c, "OR")| ==> Join(c, "OR")[i] !in " ()"
  {
    JoinChars(c, "OR");
    forall i | 0 <= i < |Join(c, "OR")| ensures Join(c, "OR")[i] !in " ()" {
      var ch := Join(c, "OR")[i];
      assert ch in Join(c, "OR");
      if ch !in "OR" {
        var j :| 0 <= j < |c| && ch in c[j];
        var m :| 0 <= m < |c[j]| && c[j][m] == ch;
      }
    }
  }

  /** A string whose only ')' can be its last character holds no ")AND(". */
  lemma {:induction false} NoClauseSeparator(t: string)
    requires forall j :: 0 <= j < |t| - 1 ==> t[j] != ')'
    ensures !Contains(t, ")AND(")
  {
    forall i ensures !OccursAt(t, ")AND(", i) {
      if 0 <= i && i + 5 <= |t| {
        assert t[i..i + 5][0] == t[i];
      }
    }
  }

  /** The clause texts with the opening parenthesis in front of the first
      and the closing one after the last. */
  ghost function Decorated(js: seq<string>): (r: seq<string>)
    requires |js| >= 1
    ensures |r| == |js|
  {
    var js1 := js[0 := "(" + js[0]];
    js1[|js| - 1 := js1[|js| - 1] + ")"]
  }

  /** The text form has no spaces and splits on ")AND(" into the decorated
      clause texts. */
  lemma {:induction false} RenderSplits(cs: seq<seq<string>>)
    requires WellFormedClauses(cs)
    ensures RemoveSpaces(Render(cs)) == Render(cs)
    ensures Split(Render(cs), ")AND(") == Decorated(ClauseJoins(cs))
  {
    var sep := ")AND(";
    var js := ClauseJoins(cs);
    var n := |js|;
    forall i | 0 <= i < n ensures forall m :: 0 <= m < |js[i]| ==> js[i][m] !in " ()" {
      ClauseJoinPlain(cs[i]);
    }
    var js1 := js[0 := "(" + js[0]];
    var js2 := Decorated(js);
    JoinPrefix("(", js, sep);
    JoinSuffix(js1, ")", sep);
    var text := Render(cs);
    assert text == Join(js2, sep);
    JoinChars(js, sep);
    forall i | 0 <= i < |text| ensures text[i] != ' ' {
      if 0 < i < |text| - 1 {
        var ch := text[i];
        assert ch in Join(js, sep) by { assert ch == Join(js, sep)[i - 1]; }
        if ch !in sep {
          var k :| 0 <= k < n && ch in js[k];
        }
      }
    }
    forall i | 0 <= i < n - 1 ensures sep[0] !in js2[i] {
      if i == 0 {
        assert js2[0] == "(" + js[0];
      } else {
        assert js2[i] == js[i];
      }
    }
    var final := js2[n - 1];
    forall j | 0 <= j < |final| - 1 ensures final[j] != ')' {
      if n == 1 {
        assert js2[0] == "(" + js[0] + ")";
      } else {
        assert js2[n - 1] == js[n - 1] + ")";
      }
    }
    NoClauseSeparator(final);
    SplitJoin(js2, sep);
  }

  /** Cutting the parentheses back off the decorated texts gives the texts. */
  lemma {:induction false} Undecorate(js: seq<string>)
    requires |js| >= 1
    ensures var ps := Decorated(js); var ps1 := ps[0 := DropFirst(ps[0])];
      ps1[|ps1| - 1 := DropLast(ps1[|ps1| - 1])] == js
  {
    var ps := Decorated(js);
    if |js| == 1 {
      assert ps[0] == "(" + js[0] + ")";
      assert DropFirst(ps[0]) == js[0] + ")";
    } else {
      assert DropFirst(ps[0]) == js[0];
      assert ps[|js| - 1] == js[|js| - 1] + ")";
    }
  }

  /** A clause's text splits on "OR" into its literals. */
  lemma {:induction false} LiteralsRoundTrip(c: seq<string>)
    requires |c| >= 1 && forall j :: 0 <= j < |c| ==> PlainLiteral(c[j])
    ensures Split(Join(c, "OR"), "OR") == c
  {
    var sep := "OR";
    forall j | 0 <= j < |c| - 1 ensures sep[0] !in c[j] {
      assert PlainLiteral(c[j]);
    }
    var last := c[|c| - 1];
    assert PlainLiteral(last);
    forall m ensures !OccursAt(last, sep, m) {
      if 0 <= m && m + 2 <= |last| {
        assert last[m..m + 2][0] == last[m];
      }
    }
    SplitJoin(c, sep);
  }

  /** A clause list written out in text form parses back to itself. */
  lemma {:induction false} ParseRender(cs: seq<seq<string>>)
    requires WellFormedClauses(cs)
    ensures Parsed(Render(cs)) == cs
  {
    RenderSplits(cs);
    Undecorate(ClauseJoins(cs));
    assert ClauseTexts(Render(cs)) == ClauseJoins(cs);
    forall i | 0 <= i < |cs| ensures Split(ClauseJoins(cs)[i], "OR") == cs[i] {
      LiteralsRoundTrip(cs[i]);
    }
  }

  /** `contradicts`: one literal is the other with "~" in front. */
  function Contradicts(l1: string, l2: string): (r: bool)
    ensures r <==> l1 == "~" + l2 || l2 == "~" + l1
  {
    if |l1| > 0 && l1[0] == '~' && l1[1..] == l2 then true
    else if |l2| > 0 && l2[0] == '~' && l2[1..] == l1 then true
    else false
  }

  /** The test is symmetric and no literal contradicts itself. */
  lemma {:induction false} ContradictsProperties(l1: string, l2: string)
    ensures Contradicts(l1, l2) == Contradicts(l2, l1)
    ensures !Contradicts(l1, l1)
  {
    assert |"~" + l1| != |l1|;
  }

  /** A vertex: its literal, the index of its clause, its adjacency list. */
  datatype Vertex = Vertex(literal: string, clause: int, edges: seq<int>)

  /** The dict of `build_graph`, whose keys are 0, 1, ... in order. */
  type Graph = seq<Vertex>

  /** The number of literal occurrences in the clauses before `c`: the first
      vertex number of clause `c`. */
  function Start(clauses: seq<seq<string>>, c: int): (r: int)
    requires 0 <= c <= |clauses|
    ensures r >= 0
  {
    if c == 0 then 0 else Start(clauses, c - 1) + |clauses[c - 1]|
  }

  lemma {:induction false} StartMonotone(clauses: seq<seq<string>>, c: int, d: int)
    requires 0 <= c <= d <= |clauses|
    ensures Start(clauses, c) <= Start(clauses, d)
    decreases d
  {
    if c < d {
      StartMonotone(clauses, c, d - 1);
    }
  }

  /** Vertex `x` is literal `x - Start(c)` of its clause `c`. */
  ghost predicate Numbered(g: Graph, clauses: seq<seq<string>>, x: int)
    requires 0 <= x < |g|
  {
    var c := g[x].clause;
    0 <= c < |clauses| && Start(clauses, c) <= x < Start(clauses, c) + |clauses[c]| &&
    g[x].literal == clauses[c][x - Start(clauses, c)]
  }

  /** Different clauses and literals that do not contradict. */
  ghost predicate Compatible(g: Graph, x: int, y: int)
    requires 0 <= x < |g| && 0 <= y < |g|
  {
    g[x].clause != g[y].clause && !Contradicts(g[x].literal, g[y].literal)
  }

  /** `build_graph`'s result: one vertex per literal occurrence in clause
      order, and edges exactly between compatible vertices. */
  ghost predicate Built(g: Graph, clauses: seq<seq<string>>)
  {
    |g| == Start(clauses, |clauses|) &&
    (forall x :: 0 <= x < |g| ==> Numbered(g, clauses, x)) &&
    (forall x, y :: 0 <= x < |g| && y in g[x].edges ==> 0 <= y < |g|) &&
    (forall x, y :: 0 <= x < |g| && 0 <= y < |g| ==> (y in g[x].edges <==> Compatible(g, x, y)))
  }

  predicate LexBefore(p0: int, p1: int, p2: int, p3: int, q0: int, q1: int, q2: int, q3: int)
  {
    p0 < q0 || (p0 == q0 && (p1 < q1 || (p1 == q1 && (p2 < q2 || (p2 == q2 && p3 < q3)))))
  }

  /** The pair of vertices in different clauses has been visited by the edge
      loops when they stand at clause pair `(c1, c2)` and literal positions
      `(a, b)`. */
  ghost predicate Visited(g: Graph, clauses: seq<seq<string>>, x: int, y: int, c1: int, c2: int, a: int, b: int)
    requires 0 <= x < |g| && 0 <= y < |g|
    requires Numbered(g, clauses, x) && Numbered(g, clauses, y)
  {
    var cx, cy := g[x].clause, g[y].clause;
    if cx < cy then LexBefore(cx, cy, x - Start(clauses, cx), y - Start(clauses, cy), c1, c2, a, b)
    else if cy < cx then LexBefore(cy, cx, y - Start(clauses, cy), x - Start(clauses, cx), c1, c2, a, b)
    else false
  }

  ghost predicate SameVertices(g: Graph, g0: Graph)
  {
    |g| == |g0| && forall x :: 0 <= x < |g| ==> g[x].literal == g0[x].literal && g[x].clause == g0[x].clause
  }

  /** The numbered vertex table `g0` of the first loops. */
  ghost predicate Table(g0: Graph, clauses: seq<seq<string>>)
  {
    |g0| == Start(clauses, |clauses|) && forall x :: 0 <= x < |g0| ==> Numbered(g0, clauses, x)
  }

  /** The edges of `g` are those of compatible pairs of the table `g0` that
      the edge loops have visited before position `(c1, c2, a, b)`. */
  ghost predicate EdgesUpTo(g: Graph, g0: Graph, clauses: seq<seq<string>>, c1: int, c2: int, a: int, b: int)
    requires Table(g0, clauses)
  {
    |g| == |g0| &&
    (forall x, y :: 0 <= x < |g| && y in g[x].edges ==> 0 <= y < |g|) &&
    forall x, y :: 0 <= x < |g0| && 0 <= y < |g0| ==>
      (y in g[x].edges <==> Compatible(g0, x, y) && Visited(g0, clauses, x, y, c1, c2, a, b))
  }

  /** The first loops of `build_graph`: one vertex per literal occurrence,
      numbered from 0 in clause order, and the vertex numbers of each clause. */
  method NumberLiterals(clauses: seq<seq<string>>) returns (g: Graph, groups: seq<seq<int>>)
    ensures Table(g, clauses) && forall x :: 0 <= x < |g| ==> g[x].edges == []
    ensures Groups(groups, clauses)
  {
    g := [];
    var index := 0;
    groups := [];
    var ci := 0;
    while ci < |clauses|
      invariant 0 <= ci <= |clauses| && |groups| == ci
      invariant index == |g| == Start(clauses, ci)
      invariant forall c, a :: 0 <= c < ci && 0 <= a < |groups[c]| ==> groups[c][a] == Start(clauses, c) + a
      invariant forall c :: 0 <= c < ci ==> |groups[c]| == |clauses[c]|
      invariant forall x :: 0 <= x < |g| ==> Numbered(g, clauses, x) && g[x].edges == []
    {
      var group: seq<int> := [];
      var li := 0;
      while li < |clauses[ci]|
        invariant 0 <= li <= |clauses[ci]|
        invariant index == |g| == Start(clauses, ci) + li && |group| == li
        invariant forall a :: 0 <= a < li ==> group[a] == Start(clauses, ci) + a
        invariant forall x :: 0 <= x < |g| ==> Numbered(g, clauses, x) && g[x].edges == []
      {
        g := g + [Vertex(clauses[ci][li], |groups|, [])];
        group := group + [index];
        index := index + 1;
        li := li + 1;
      }
      groups := groups + [group];
      ci := ci + 1;
    }
  }

  /** The vertex numbers of each clause, as the first loops record them. */
  ghost predicate Groups(groups: seq<seq<int>>, clauses: seq<seq<string>>)
  {
    |groups| == |clauses| && (forall c :: 0 <= c < |clauses| ==> |groups[c]| == |clauses[c]|) &&
    forall c, a :: 0 <= c < |clauses| && 0 <= a < |groups[c]| ==> groups[c][a] == Start(clauses, c) + a
  }

  /** `build_graph`: number the literal occurrences clause by clause, then
      for every pair of clauses `c1 < c2` join each literal of `c1` to each
      literal of `c2` it does not contradict, in both directions. */
  method BuildGraph(clauses: seq<seq<string>>) returns (g: Graph, k: int)
    ensures Built(g, clauses) && k == |clauses|
  {
    var groups;
    g, groups := NumberLiterals(clauses);
    ghost var g0 := g;
    NoneVisited(g, clauses);
    var m := |clauses|;
    var c1 := 0;
    while c1 < m
      invariant 0 <= c1 <= m && SameVertices(g, g0)
      invariant EdgesUpTo(g, g0, clauses, c1, c1 + 1, 0, 0)
    {
      var c2 := c1 + 1;
      while c2 < m
        invariant c1 + 1 <= c2 <= m && SameVertices(g, g0)
        invariant EdgesUpTo(g, g0, clauses, c1, c2, 0, 0)
      {
        g := LinkClauses(g, g0, clauses, groups, c1, c2);
        NextSecondClause(g, g0, clauses, c1, c2);
        c2 := c2 + 1;
      }
      NextFirstClause(g, g0, clauses, c1);
      c1 := c1 + 1;
    }
    AllVisited(g, g0, clauses);
    k := m;
  }

  /** The two middle loops of `build_graph` for clauses `c1 < c2`: each
      literal of `c1` against each literal of `c2`. */
  method LinkClauses(g: Graph, ghost g0: Graph, clauses: seq<seq<string>>, groups: seq<seq<int>>, c1: int, c2: int)
      returns (g': Graph)
    requires Table(g0, clauses) && Groups(groups, clauses) && 0 <= c1 < c2 < |clauses|
    requires SameVertices(g, g0) && EdgesUpTo(g, g0, clauses, c1, c2, 0, 0)
    ensures SameVertices(g', g0) && EdgesUpTo(g', g0, clauses, c1, c2, |clauses[c1]|, 0)
  {
    g' := g;
    var a := 0;
    while a < |groups[c1]|
      invariant 0 <= a <= |groups[c1]| && SameVertices(g', g0)
      invariant EdgesUpTo(g', g0, clauses, c1, c2, a, 0)
    {
      g' := LinkLiteral(g', g0, clauses, groups, c1, c2, a);
      NextFirstLiteral(g', g0, clauses, c1, c2, a);
      a := a + 1;
    }
  }

  /** The innermost loop of `build_graph`: literal `a` of clause `c1`
      against each literal of clause `c2`. */
  method LinkLiteral(g: Graph, ghost g0: Graph, clauses: seq<seq<string>>, groups: seq<seq<int>>, c1: int, c2: int, a: int)
      returns (g': Graph)
    requires Table(g0, clauses) && Groups(groups, clauses) && 0 <= c1 < c2 < |clauses| && 0 <= a < |clauses[c1]|
    requires SameVertices(g, g0) && EdgesUpTo(g, g0, clauses, c1, c2, a, 0)
    ensures SameVertices(g', g0) && EdgesUpTo(g', g0, clauses, c1, c2, a, |clauses[c2]|)
  {
    g' := g;
    var b := 0;
    while b < |groups[c2]|
      invariant 0 <= b <= |groups[c2]| && SameVertices(g', g0)
      invariant EdgesUpTo(g', g0, clauses, c1, c2, a, b)
    {
      var v1, v2 := groups[c1][a], groups[c2][b];
      VertexOf(g0, clauses, c1, a);
      VertexOf(g0, clauses, c2, b);
      var l1, l2 := g'[v1].literal, g'[v2].literal;
      ghost var before := g';
      if !Contradicts(l1, l2) {
        g' := g'[v1 := g'[v1].(edges := g'[v1].edges + [v2])];
        g' := g'[v2 := g'[v2].(edges := g'[v2].edges + [v1])];
      }
      LinkStep(before, g', g0, clauses, c1, c2, a, b, v1, v2);
      b := b + 1;
    }
  }

  /** Before the edge loops start no pair has been visited. */
  lemma {:induction false} NoneVisited(g: Graph, clauses: seq<seq<string>>)
    requires Table(g, clauses) && forall x :: 0 <= x < |g| ==> g[x].edges == []
    ensures EdgesUpTo(g, g, clauses, 0, 1, 0, 0)
  {
    forall x, y | 0 <= x < |g| && 0 <= y < |g| ensures !Visited(g, clauses, x, y, 0, 1, 0, 0) {
      assert Numbered(g, clauses, x) && Numbered(g, clauses, y);
    }
  }

  /** Literal `a` of clause `c` is vertex `Start(c) + a`. */
  lemma {:induction false} VertexOf(g: Graph, clauses: seq<seq<string>>, c: int, a: int)
    requires 0 <= c < |clauses| && 0 <= a < |clauses[c]| && Table(g, clauses)
    ensures 0 <= Start(clauses, c) + a < |g|
    ensures g[Start(clauses, c) + a].clause == c && g[Start(clauses, c) + a].literal == clauses[c][a]
  {
    var x := Start(clauses, c) + a;
    StartMonotone(clauses, c + 1, |clauses|);
    var d := g[x].clause;
    assert Numbered(g, clauses, x);
    if d < c {
      StartMonotone(clauses, d + 1, c);
    } else if d > c {
      StartMonotone(clauses, c + 1, d);
    }
  }

  /** Moving past position `b` visits exactly the pair `(v1, v2)`. */
  lemma {:induction false} VisitedStep(g0: Graph, clauses: seq<seq<string>>, c1: int, c2: int, a: int, b: int, v1: int, v2: int, x: int, y: int)
    requires Table(g0, clauses) && 0 <= c1 < c2 < |clauses|
    requires v1 == Start(clauses, c1) + a && v2 == Start(clauses, c2) + b
    requires 0 <= v1 < |g0| && 0 <= v2 < |g0| && g0[v1].clause == c1 && g0[v2].clause == c2
    requires 0 <= x < |g0| && 0 <= y < |g0|
    ensures Visited(g0, clauses, x, y, c1, c2, a, b + 1) <==>
      Visited(g0, clauses, x, y, c1, c2, a, b) || (x == v1 && y == v2) || (x == v2 && y == v1)
  {
    assert Numbered(g0, clauses, x) && Numbered(g0, clauses, y);
  }

  /** The innermost loop body: the pair `(v1, v2)` becomes visited, and is
      joined in both directions when compatible. */
  lemma {:induction false} LinkStep(g: Graph, g': Graph, g0: Graph, clauses: seq<seq<string>>, c1: int, c2: int, a: int, b: int, v1: int, v2: int)
    requires Table(g0, clauses) && 0 <= c1 < c2 < |clauses|
    requires v1 == Start(clauses, c1) + a && v2 == Start(clauses, c2) + b
    requires 0 <= v1 < |g0| && 0 <= v2 < |g0| && g0[v1].clause == c1 && g0[v2].clause == c2
    requires SameVertices(g, g0) && EdgesUpTo(g, g0, clauses, c1, c2, a, b)
    requires g' == if Contradicts(g[v1].literal, g[v2].literal) then g
      else g[v1 := g[v1].(edges := g[v1].edges + [v2])][v2 := g[v2].(edges := g[v2].edges + [v1])]
    ensures SameVertices(g', g0) && EdgesUpTo(g', g0, clauses, c1, c2, a, b + 1)
  {
    assert v1 != v2;
    forall x, y | 0 <= x < |g0| && 0 <= y < |g0|
      ensures y in g'[x].edges <==> Compatible(g0, x, y) && Visited(g0, clauses, x, y, c1, c2, a, b + 1)
    {
      VisitedStep(g0, clauses, c1, c2, a, b, v1, v2, x, y);
    }
  }

  /** The end of the innermost loop: every literal of clause `c2` has been
      paired with literal `a` of clause `c1`. */
  lemma {:induction false} NextFirstLiteral(g: Graph, g0: Graph, clauses: seq<seq<string>>, c1: int, c2: int, a: int)
    requires Table(g0, clauses) && 0 <= c1 < c2 < |clauses|
    requires EdgesUpTo(g, g0, clauses, c1, c2, a, |clauses[c2]|)
    ensures EdgesUpTo(g, g0, clauses, c1, c2, a + 1, 0)
  {
    forall x, y | 0 <= x < |g0| && 0 <= y < |g0|
      ensures Visited(g0, clauses, x, y, c1, c2, a, |clauses[c2]|) == Visited(g0, clauses, x, y, c1, c2, a + 1, 0)
    {
      assert Numbered(g0, clauses, x) && Numbered(g0, clauses, y);
    }
  }

  /** The end of the loop over clause `c1`'s literals. */
  lemma {:induction false} NextSecondClause(g: Graph, g0: Graph, clauses: seq<seq<string>>, c1: int, c2: int)
    requires Table(g0, clauses) && 0 <= c1 < c2 < |clauses|
    requires EdgesUpTo(g, g0, clauses, c1, c2, |clauses[c1]|, 0)
    ensures EdgesUpTo(g, g0, clauses, c1, c2 + 1, 0, 0)
  {
    forall x, y | 0 <= x < |g0| && 0 <= y < |g0|
      ensures Visited(g0, clauses, x, y, c1, c2, |clauses[c1]|, 0) == Visited(g0, clauses, x, y, c1, c2 + 1, 0, 0)
    {
      assert Numbered(g0, clauses, x) && Numbered(g0, clauses, y);
    }
  }

  /** The end of the loop over the clauses after `c1`. */
  lemma {:induction false} NextFirstClause(g: Graph, g0: Graph, clauses: seq<seq<string>>, c1: int)
    requires Table(g0, clauses) && 0 <= c1 < |clauses|
    requires EdgesUpTo(g, g0, clauses, c1, |clauses|, 0, 0)
    ensures EdgesUpTo(g, g0, clauses, c1 + 1, c1 + 2, 0, 0)
  {
    forall x, y | 0 <= x < |g0| && 0 <= y < |g0|
      ensures Visited(g0, clauses, x, y, c1, |clauses|, 0, 0) == Visited(g0, clauses, x, y, c1 + 1, c1 + 2, 0, 0)
    {
      assert Numbered(g0, clauses, x) && Numbered(g0, clauses, y);
    }
  }

  /** After the last clause every pair in different clauses has been
      visited, so the graph is the one `Built` describes. */
  lemma {:induction false} AllVisited(g: Graph, g0: Graph, clauses: seq<seq<string>>)
    requires Table(g0, clauses) && SameVertices(g, g0)
    requires EdgesUpTo(g, g0, clauses, |clauses|, |clauses| + 1, 0, 0)
    ensures Built(g, clauses)
  {
    forall x | 0 <= x < |g| ensures Numbered(g, clauses, x) {
      assert Numbered(g0, clauses, x);
    }
    forall x, y | 0 <= x < |g0| && 0 <= y < |g0|
      ensures Visited(g0, clauses, x, y, |clauses|, |clauses| + 1, 0, 0) == (g0[x].clause != g0[y].clause)
    {
      assert Numbered(g0, clauses, x) && Numbered(g0, clauses, y);
    }
  }

  /** In a built graph adjacency is symmetric and no vertex is its own neighbour. */
  lemma {:induction false} BuiltSymmetric(g: Graph, clauses: seq<seq<string>>)
    requires Built(g, clauses)
    ensures Symmetric(g) && forall x :: 0 <= x < |g| ==> x !in g[x].edges
  {
    forall x, y | 0 <= x < |g| && 0 <= y < |g| ensures y in g[x].edges <==> x in g[y].edges {
      ContradictsProperties(g[x].literal, g[y].literal);
    }
  }

  /** What `is_clique` tests: each vertex is adjacent to every later one. */
  predicate Clique(g: Graph, vs: seq<int>)
  {
    forall i, j :: 0 <= i < j < |vs| ==> Adjacent(g, vs[i], vs[j])
  }

  /** `v in graph[u]`, where `u` must be a vertex. */
  predicate Adjacent(g: Graph, u: int, v: int)
  {
    0 <= u < |g| && v in g[u].edges
  }

  /** `is_clique`: the pairs of positions in `itertools.combinations` order,
      stopping at the first non-adjacent one. */
  method IsClique(g: Graph, vs: seq<int>) returns (b: bool)
    requires forall i :: 0 <= i < |vs| - 1 ==> 0 <= vs[i] < |g|
    ensures b <==> Clique(g, vs)
  {
    var i := 0;
    while i < |vs|
      invariant 0 <= i <= |vs|
      invariant forall i', j :: 0 <= i' < i && i' < j < |vs| ==> Adjacent(g, vs[i'], vs[j])
    {
      var j := i + 1;
      while j < |vs|
        invariant i + 1 <= j <= |vs|
        invariant forall j' :: i < j' < j ==> Adjacent(g, vs[i], vs[j'])
      {
        if vs[j] !in g[vs[i]].edges {
          return false;
        }
        j := j + 1;
      }
      i := i + 1;
    }
    return true;
  }

  /** `graph.keys()`: the vertex numbers in order. */
  function Range(n: nat): (r: seq<int>)
    ensures |r| == n && forall i :: 0 <= i < n ==> r[i] == i
  {
    if n == 0 then [] else Range(n - 1) + [n - 1]
  }

  /** The first candidate that is a clique. */
  function FirstClique(g: Graph, cands: seq<seq<int>>): (r: Option<seq<int>>)
    ensures r.Some? ==> r.value in cands && Clique(g, r.value)
    ensures r.None? ==> forall c :: c in cands ==> !Clique(g, c)
  {
    if cands == [] then None
    else if Clique(g, cands[0]) then Some(cands[0])
    else FirstClique(g, cands[1..])
  }

  /** `find_k_clique`: the first `k`-combination of the vertices that is a
      clique, or `None` for the source's `(False, None)`. */
  function FindKClique(g: Graph, k: nat): (r: Option<seq<int>>)
    ensures r.Some? ==> |r.value| == k && Combinations.Distinct(r.value) && Clique(g, r.value)
    ensures r.Some? ==> forall i :: 0 <= i < k ==> 0 <= r.value[i] < |g|
    ensures r.None? ==> forall c :: c in Combinations.Combinations(Range(|g|), k) ==> !Clique(g, c)
  {
    var r := FirstClique(g, Combinations.Combinations(Range(|g|), k));
    if r.Some? then CandidateShape(|g|, k, r.value); r else r
  }

  /** `k` distinct vertices, pairwise adjacent. */
  ghost predicate CliqueSet(g: Graph, S: set<int>)
  {
    (forall u :: u in S ==> 0 <= u < |g|) &&
    forall u, v :: u in S && v in S && u != v ==> v in g[u].edges
  }

  /** Adjacency in both directions. */
  ghost predicate Symmetric(g: Graph)
  {
    forall x, y :: 0 <= x < |g| && 0 <= y < |g| ==> (y in g[x].edges <==> x in g[y].edges)
  }

  /** Every candidate of the search is `k` distinct vertex numbers. */
  lemma {:induction false} CandidateShape(n: nat, k: nat, vs: seq<int>)
    requires vs in Combinations.Combinations(Range(n), k)
    ensures |vs| == k && Combinations.Distinct(vs) && forall i :: 0 <= i < |vs| ==> 0 <= vs[i] < n
  {
    var keys := Range(n);
    Combinations.CombinationsSound(keys, k, vs);
    Combinations.SubsequenceDistinct(vs, keys);
    Combinations.SubsequenceMembers(vs, keys);
    forall i | 0 <= i < |vs| ensures 0 <= vs[i] < n {
      assert vs[i] in keys;
      var m :| 0 <= m < n && keys[m] == vs[i];
    }
  }

  /** In a symmetric graph a clique, read as a set, is pairwise adjacent. */
  lemma {:induction false} CliqueIsCliqueSet(g: Graph, vs: seq<int>)
    requires Symmetric(g) && Clique(g, vs) && forall i :: 0 <= i < |vs| ==> 0 <= vs[i] < |g|
    ensures CliqueSet(g, set x | x in vs)
  {
    var S := set x | x in vs;
    forall u, v | u in S && v in S && u != v ensures v in g[u].edges {
      var i :| 0 <= i < |vs| && vs[i] == u;
      var j :| 0 <= j < |vs| && vs[j] == v;
      if j < i {
        assert u in g[v].edges;
      }
    }
  }

  /** What the search finds is `k` distinct vertices, pairwise adjacent. */
  lemma {:induction false} FoundClique(g: Graph, k: nat)
    requires Symmetric(g) && FindKClique(g, k).Some?
    ensures var vs := FindKClique(g, k).value;
      |vs| == k && Combinations.Distinct(vs) && |set x | x in vs| == k && CliqueSet(g, set x | x in vs)
  {
    var vs := FindKClique(g, k).value;
    CandidateShape(|g|, k, vs);
    Combinations.DistinctCard(vs);
    CliqueIsCliqueSet(g, vs);
  }

  /** When some `k` vertices are pairwise adjacent the search finds a clique. */
  lemma {:induction false} CliqueSetFound(g: Graph, k: nat, S: set<int>)
    requires |S| == k && CliqueSet(g, S)
    ensures FindKClique(g, k).Some?
  {
    var keys := Range(|g|);
    var vs := Combinations.Filter(keys, S);
    assert vs in Combinations.Combinations(keys, k) by {
      assert Combinations.Distinct(keys);
      forall x | x in S ensures x in keys {
        assert keys[x] == x;
      }
      Combinations.SubsetIsCombination(keys, S);
    }
    FilterClique(g, S);
  }

  /** The vertex numbers of a pairwise adjacent set, in order, pass `is_clique`. */
  lemma {:induction false} FilterClique(g: Graph, S: set<int>)
    requires CliqueSet(g, S)
    ensures Clique(g, Combinations.Filter(Range(|g|), S))
  {
    var keys := Range(|g|);
    var vs := Combinations.Filter(keys, S);
    assert Combinations.Distinct(keys);
    Combinations.FilterProps(keys, S);
    forall i, j | 0 <= i < j < |vs| ensures Adjacent(g, vs[i], vs[j]) {
      var u, v := vs[i], vs[j];
      assert u in vs && v in vs;
      assert u != v;
      assert 0 <= u < |g| && v in g[u].edges;
    }
  }

  /** On a built graph the search finds a clique exactly when some `k`
      vertices are pairwise adjacent, and what it finds is such a set. */
  lemma {:induction false} FindKCliqueCorrect(g: Graph, clauses: seq<seq<string>>, k: nat)
    requires Built(g, clauses)
    ensures FindKClique(g, k).Some? <==> exists S :: |S| == k && CliqueSet(g, S)
    ensures FindKClique(g, k).Some? ==> var vs := FindKClique(g, k).value;
      |vs| == k && Combinations.Distinct(vs) && CliqueSet(g, set x | x in vs)
  {
    BuiltSymmetric(g, clauses);
    if FindKClique(g, k).Some? {
      FoundClique(g, k);
    }
    if exists S :: |S| == k && CliqueSet(g, S) {
      var S :| |S| == k && CliqueSet(g, S);
      CliqueSetFound(g, k, S);
    }
  }

  /** The vertices of a clique in a built graph lie in pairwise different
      clauses and carry pairwise non-contradicting literals: a clique of
      `k` vertices picks one literal from each of `k` clauses. */
  lemma {:induction false} CliqueAcrossClauses(g: Graph, clauses: seq<seq<string>>, vs: seq<int>, i: int, j: int)
    requires Built(g, clauses) && Clique(g, vs) && 0 <= i < j < |vs|
    ensures 0 <= vs[i] < |g| && 0 <= vs[j] < |g|
    ensures g[vs[i]].clause != g[vs[j]].clause && !Contradicts(g[vs[i]].literal, g[vs[j]].literal)
  {
    var u, v := vs[i], vs[j];
    assert 0 <= u < |g| && v in g[u].edges;
    assert 0 <= v < |g| && Compatible(g, u, v);
  }
}

/** The node store of the red-black tree: nodes live in a sequence indexed by
    their arena index. Index 0 is the shared BLACK sentinel (the tree's `NULL`
    node); a parent of -1 is Python's `None`. `Repr` says that the cells reached
    from an index spell out a given abstract tree. */
module RbArena {
  import opened Sequences
  import opened RbTrees

  datatype NodeRec = NodeRec(key: int, color: Color, left: nat, right: nat, parent: int)

  const NIL: nat := 0
  const NONE: int := -1

  function SetChild(r: NodeRec, d: Dir, c: nat): NodeRec
  {
    if d == Left then r.(left := c) else r.(right := c)
  }

  function ChildOf(r: NodeRec, d: Dir): nat
  {
    if d == Left then r.left else r.right
  }

  /** The cells reached from index `i` spell `t`, whose root's parent field is `parent`. */
  ghost predicate Repr(nodes: seq<NodeRec>, i: nat, t: Tree, parent: int)
    decreases t
  {
    match t
    case Leaf => i == NIL
    case Node(c, l, k, id, r) =>
      i == id && 0 < id < |nodes| &&
      nodes[id].key == k && nodes[id].color == c && nodes[id].parent == parent &&
      Repr(nodes, nodes[id].left, l, id) && Repr(nodes, nodes[id].right, r, id)
  }

  ghost predicate Agree(n1: seq<NodeRec>, n2: seq<NodeRec>, ids: set<nat>)
  {
    forall j :: j in ids ==> j < |n1| && j < |n2| && n2[j] == n1[j]
  }

  lemma {:induction false} AgreeSub(n1: seq<NodeRec>, n2: seq<NodeRec>, big: set<nat>, small: set<nat>)
    requires Agree(n1, n2, big) && small <= big
    ensures Agree(n1, n2, small)
  {
  }

  lemma {:induction false} ReprIds(nodes: seq<NodeRec>, i: nat, t: Tree, parent: int)
    requires Repr(nodes, i, t, parent)
    ensures forall j :: j in Ids(t) ==> 0 < j < |nodes|
    ensures i == RootId(t)
    decreases t
  {
    if t.Node? {
      ReprIds(nodes, nodes[t.id].left, t.left, t.id);
      ReprIds(nodes, nodes[t.id].right, t.right, t.id);
    }
  }

  /** Cells outside the tree do not matter. */
  lemma {:induction false} ReprFrame(n1: seq<NodeRec>, n2: seq<NodeRec>, i: nat, t: Tree, parent: int)
    requires Repr(n1, i, t, parent) && Agree(n1, n2, Ids(t))
    ensures Repr(n2, i, t, parent)
    decreases t
  {
    if t.Node? {
      ReprFrame(n1, n2, n1[t.id].left, t.left, t.id);
      ReprFrame(n1, n2, n1[t.id].right, t.right, t.id);
    }
  }

  /** Changing only the root's parent field moves the tree under a new parent. */
  lemma {:induction false} ReprReparent(n1: seq<NodeRec>, n2: seq<NodeRec>, i: nat, t: Tree, p1: int, p2: int)
    requires Repr(n1, i, t, p1) && UniqueIds(t)
    requires Agree(n1, n2, Ids(t) - {i})
    requires t.Node? ==> i < |n2| && n2[i] == n1[i].(parent := p2)
    ensures Repr(n2, i, t, p2)
  {
    if t.Node? {
      ReprFrame(n1, n2, n1[i].left, t.left, i);
      ReprFrame(n1, n2, n1[i].right, t.right, i);
    }
  }

  /** The cell of the node at a position, and its parent. */
  lemma {:induction false} ReprAt(nodes: seq<NodeRec>, i: nat, t: Tree, top: int, p: seq<Dir>)
    requires Repr(nodes, i, t, top) && ValidPath(t, p)
    ensures Repr(nodes, RootId(At(t, p)), At(t, p), ParentId(t, p, top))
    decreases |p|
  {
    if p != [] {
      if p[0] == Left {
        ReprAt(nodes, nodes[t.id].left, t.left, t.id, p[1..]);
      } else {
        ReprAt(nodes, nodes[t.id].right, t.right, t.id, p[1..]);
      }
      if |p| == 1 {
        assert p[1..] == [];
      }
    }
  }

  lemma {:induction false} ParentIdOuter(t: Tree, p: seq<Dir>, top: int)
    requires ValidPath(t, p) && p != []
    ensures ParentId(t, p, top) in Outer(t, p)
    ensures |p| > 1 ==> ParentId(t, p, top) in Ids(Child(t, p[0]))
    decreases |p|
  {
    if |p| > 1 {
      ParentIdOuter(Child(t, p[0]), p[1..], top);
      IdsPlug(Child(t, p[0]), p[1..], Leaf);
    }
  }

  /** Replacing the subtree at a non-root position: the new subtree hangs from
      the old parent, whose child slot is rewritten; all other outside cells
      stay as they were. */
  lemma {:induction false} ReprPlug(n1: seq<NodeRec>, n2: seq<NodeRec>, i: nat, t: Tree, top: int,
                                    p: seq<Dir>, s: Tree)
    requires Repr(n1, i, t, top) && UniqueIds(t) && ValidPath(t, p) && p != []
    requires Repr(n2, RootId(s), s, ParentId(t, p, top))
    requires Agree(n1, n2, Outer(t, p) - {ParentId(t, p, top)})
    requires var q := ParentId(t, p, top);
      0 <= q < |n1| && q < |n2| && n2[q] == SetChild(n1[q], p[|p| - 1], RootId(s))
    ensures Repr(n2, i, Plug(t, p, s), top)
    decreases |p|
  {
    var q := ParentId(t, p, top);
    ParentIdOuter(t, p, top);
    var d := p[0];
    var ch := Child(t, d);
    var o := Child(t, Flip(d));
    IdsPlug(t, p, s);
    assert Ids(o) <= Outer(t, p);
    if |p| == 1 {
      assert q == t.id;
      assert q !in Ids(o);
      AgreeSub(n1, n2, Outer(t, p) - {q}, Ids(o));
      if d == Left {
        ReprFrame(n1, n2, n1[t.id].right, o, t.id);
      } else {
        ReprFrame(n1, n2, n1[t.id].left, o, t.id);
      }
      assert p[1..] == [];
    } else {
      assert q in Ids(ch);
      assert t.id != q;
      assert q !in Ids(o);
      AgreeSub(n1, n2, Outer(t, p) - {q}, Ids(o));
      assert Outer(ch, p[1..]) <= Outer(t, p);
      assert ParentId(ch, p[1..], t.id) == q;
      AgreeSub(n1, n2, Outer(t, p) - {q}, Outer(ch, p[1..]) - {q});
      if d == Left {
        ReprFrame(n1, n2, n1[t.id].right, o, t.id);
        ReprPlug(n1, n2, n1[t.id].left, ch, t.id, p[1..], s);
      } else {
        ReprFrame(n1, n2, n1[t.id].left, o, t.id);
        ReprPlug(n1, n2, n1[t.id].right, ch, t.id, p[1..], s);
      }
      assert p[1..][|p[1..]| - 1] == p[|p| - 1];
    }
  }

  /** A node seen from side `d` is represented once its cell and both subtrees are. */
  lemma {:induction false} ReprMk(nodes: seq<NodeRec>, c: Color, d: Dir, near: Tree, k: int, id: nat, far: Tree, parent: int)
    requires 0 < id < |nodes| && nodes[id].key == k && nodes[id].color == c && nodes[id].parent == parent
    requires Repr(nodes, ChildOf(nodes[id], d), near, id) && Repr(nodes, ChildOf(nodes[id], Flip(d)), far, id)
    ensures Repr(nodes, id, Mk(c, d, near, k, id, far), parent)
  {
  }

  lemma {:induction false} ReprMkOf(nodes: seq<NodeRec>, i: nat, c: Color, d: Dir, near: Tree, k: int, id: nat, far: Tree, parent: int)
    requires Repr(nodes, i, Mk(c, d, near, k, id, far), parent)
    ensures i == id && 0 < id < |nodes| && nodes[id].key == k && nodes[id].color == c && nodes[id].parent == parent
    ensures Repr(nodes, ChildOf(nodes[id], d), near, id) && Repr(nodes, ChildOf(nodes[id], Flip(d)), far, id)
  {
  }

  /** The colour stored in the root cell is the colour of the tree (the sentinel is BLACK). */
  lemma {:induction false} ColorLink(nodes: seq<NodeRec>, i: nat, t: Tree, parent: int)
    requires Repr(nodes, i, t, parent) && |nodes| > NIL && nodes[NIL].color == Black
    ensures i < |nodes| && nodes[i].color == ColorOf(t)
  {
  }

  /** The child fields of the cell at position `p` point at the subtrees below it. */
  lemma {:induction false} ChildLink(nodes: seq<NodeRec>, i: nat, t: Tree, top: int, p: seq<Dir>, d: Dir)
    requires Repr(nodes, i, t, top) && ValidPath(t, p) && At(t, p).Node?
    ensures ValidPath(t, p + [d]) && At(t, p + [d]) == Child(At(t, p), d)
    ensures 0 < At(t, p).id < |nodes|
    ensures ChildOf(nodes[At(t, p).id], d) == RootId(At(t, p + [d]))
    ensures nodes[At(t, p).id].parent == ParentId(t, p, top)
    ensures nodes[At(t, p).id].color == At(t, p).color && nodes[At(t, p).id].key == At(t, p).key
  {
    var s := At(t, p);
    ReprAt(nodes, i, t, top, p);
    AtAppend(t, p, [d]);
    assert ValidPath(s, [d]) && At(s, [d]) == Child(s, d) by {
      assert [d][1..] == [];
    }
    ValidPathAppend(t, p, [d]);
    if d == Left {
      ReprIds(nodes, nodes[s.id].left, s.left, s.id);
    } else {
      ReprIds(nodes, nodes[s.id].right, s.right, s.id);
    }
  }

  /** A position below a node is valid once the path to the node is. */
  lemma {:induction false} ValidPathAppend(t: Tree, p: seq<Dir>, q: seq<Dir>)
    requires ValidPath(t, p) && ValidPath(At(t, p), q)
    ensures ValidPath(t, p + q)
    decreases |p|
  {
    if p == [] {
      assert p + q == q;
    } else {
      assert (p + q)[0] == p[0] && (p + q)[1..] == p[1..] + q;
      ValidPathAppend(Child(t, p[0]), p[1..], q);
    }
  }

  /** The node at a non-root position is not the root. */
  lemma {:induction false} BelowRootId(t: Tree, p: seq<Dir>)
    requires UniqueIds(t) && ValidPath(t, p) && p != [] && At(t, p).Node?
    ensures At(t, p).id != t.id && At(t, p).id in Ids(t)
  {
    IdsPlug(Child(t, p[0]), p[1..], Leaf);
    assert At(Child(t, p[0]), p[1..]) == At(t, p);
  }

  /** The two child fields of a cell never hold the same node. */
  lemma {:induction false} ChildrenDiffer(nodes: seq<NodeRec>, i: nat, t: Tree, top: int, p: seq<Dir>, d: Dir)
    requires Repr(nodes, i, t, top) && UniqueIds(t) && ValidPath(t, p) && At(t, p).Node?
    requires Child(At(t, p), d).Node?
    ensures 0 < At(t, p).id < |nodes|
    ensures ChildOf(nodes[At(t, p).id], Flip(d)) != RootId(Child(At(t, p), d))
    ensures RootId(Child(At(t, p), d)) != NIL
  {
    var s := At(t, p);
    ChildLink(nodes, i, t, top, p, d);
    ChildLink(nodes, i, t, top, p, Flip(d));
    IdsPlug(t, p, Leaf);
    var o := Child(s, Flip(d));
    if o.Node? {
      assert o.id in Ids(o);
      assert Child(s, d).id in Ids(Child(s, d));
    }
    ReprAt(nodes, i, t, top, p);
  }

  /** Recolouring one cell recolours the node at its position. */
  lemma {:induction false} ReprRecolor(nodes: seq<NodeRec>, i: nat, t: Tree, top: int, p: seq<Dir>, c: Color)
    requires Repr(nodes, i, t, top) && UniqueIds(t) && ValidPath(t, p) && At(t, p).Node?
    ensures At(t, p).id < |nodes|
    ensures var j := At(t, p).id;
      Repr(nodes[j := nodes[j].(color := c)], i, SetColorAt(t, p, c), top)
    decreases |p|
  {
    var j := At(t, p).id;
    ReprAt(nodes, i, t, top, p);
    ReprIds(nodes, i, t, top);
    var n2 := nodes[j := nodes[j].(color := c)];
    if p == [] {
      assert At(t, p) == t && j == t.id;
      assert Ids(t) == Ids(t.left) + {j} + Ids(t.right);
      assert j !in Ids(t.left) && j !in Ids(t.right);
      ReprFrame(nodes, n2, nodes[j].left, t.left, j);
      ReprFrame(nodes, n2, nodes[j].right, t.right, j);
    } else {
      var ch := Child(t, p[0]);
      var o := Child(t, Flip(p[0]));
      BelowRootId(t, p);
      IdsPlug(ch, p[1..], Leaf);
      assert At(ch, p[1..]) == At(t, p);
      assert j in Ids(ch) && j !in Ids(o);
      ReprRecolor(nodes, if p[0] == Left then nodes[t.id].left else nodes[t.id].right, ch, t.id, p[1..], c);
      if p[0] == Left {
        ReprFrame(nodes, n2, nodes[t.id].right, o, t.id);
      } else {
        ReprFrame(nodes, n2, nodes[t.id].left, o, t.id);
      }
    }
  }

  /** The cells a rotation towards `d` at position `P` rewrites: the node `x`
      there, its child `y` on the other side, `y`'s inner subtree root `b`
      (unless it is the sentinel) and `x`'s parent (unless `x` is the root). */
  ghost predicate RotatedCells(n1: seq<NodeRec>, n2: seq<NodeRec>, x: nat, y: nat, b: nat, px: int, d: Dir, side: Dir)
  {
    |n2| == |n1| && x < |n1| && y < |n1| && b < |n1| && px < |n1| &&
    n2[x] == SetChild(n1[x], Flip(d), b).(parent := y) &&
    n2[y] == SetChild(n1[y], d, x).(parent := px) &&
    (b != NIL ==> n2[b] == n1[b].(parent := x)) &&
    (px != NONE ==> 0 <= px && n2[px] == SetChild(n1[px], side, y)) &&
    forall j :: 0 <= j < |n1| && j != x && j != y && (j != b || b == NIL) && j != px ==> n2[j] == n1[j]
  }

  /** The cells below a rotation site. */
  lemma {:induction false} RotateLocal(n1: seq<NodeRec>, s: Tree, px: int, d: Dir)
    requires Repr(n1, RootId(s), s, px) && UniqueIds(s) && s.Node? && Child(s, Flip(d)).Node?
    ensures var ys := Child(s, Flip(d));
      var x := s.id;
      var y := ys.id;
      var b := RootId(Child(ys, d));
      0 < x < |n1| && 0 < y < |n1| && x != y && b < |n1| && b != x && b != y &&
      ChildOf(n1[x], Flip(d)) == y && ChildOf(n1[y], d) == b && n1[x].parent == px &&
      Ids(s) == Ids(Child(s, d)) + {x} + Ids(Child(ys, d)) + {y} + Ids(Child(ys, Flip(d))) &&
      (b != NIL ==> b in Ids(Child(ys, d))) &&
      Repr(n1, ChildOf(n1[x], d), Child(s, d), x) &&
      Repr(n1, b, Child(ys, d), y) &&
      Repr(n1, ChildOf(n1[y], Flip(d)), Child(ys, Flip(d)), y) &&
      UniqueIds(Child(s, d)) && UniqueIds(Child(ys, d)) && UniqueIds(Child(ys, Flip(d))) &&
      x !in Ids(Child(s, d)) && x !in Ids(Child(ys, d)) && x !in Ids(Child(ys, Flip(d))) &&
      y !in Ids(Child(s, d)) && y !in Ids(Child(ys, d)) && y !in Ids(Child(ys, Flip(d))) &&
      Ids(Child(s, d)) !! Ids(Child(ys, d)) && Ids(Child(s, d)) !! Ids(Child(ys, Flip(d))) &&
      Ids(Child(ys, d)) !! Ids(Child(ys, Flip(d)))
  {
    var ys := Child(s, Flip(d));
    MkOf(s, d);
    MkOf(ys, d);
    ReprMkOf(n1, s.id, s.color, d, Child(s, d), s.key, s.id, ys, px);
    ReprMkOf(n1, ChildOf(n1[s.id], Flip(d)), ys.color, d, Child(ys, d), ys.key, ys.id, Child(ys, Flip(d)), s.id);
    ReprIds(n1, ChildOf(n1[ys.id], d), Child(ys, d), ys.id);
    MkIds(s.color, d, Child(s, d), s.key, s.id, ys);
    MkIds(ys.color, d, Child(ys, d), ys.key, ys.id, Child(ys, Flip(d)));
    if Child(ys, d).Node? {
      assert Child(ys, d).id in Ids(Child(ys, d));
    }
  }

  /** The parent cell of a non-root position points at it on the side the path takes. */
  lemma {:induction false} ParentSide(n1: seq<NodeRec>, root: nat, t: Tree, P: seq<Dir>)
    requires Repr(n1, root, t, NONE) && UniqueIds(t) && ValidPath(t, P) && At(t, P).Node? && P != []
    ensures var px := ParentId(t, P, NONE);
      0 < px < |n1| && px in Outer(t, P) &&
      ChildOf(n1[px], P[|P| - 1]) == At(t, P).id && ChildOf(n1[px], Flip(P[|P| - 1])) != At(t, P).id
  {
    ParentIdOuter(t, P, NONE);
    var g := P[..|P| - 1];
    var e := P[|P| - 1];
    ValidPathPrefix(t, P, |P| - 1);
    assert g + [e] == P;
    ParentIdStep(t, g, e, NONE);
    ChildLink(n1, root, t, NONE, g, e);
    ChildrenDiffer(n1, root, t, NONE, g, e);
  }

  /** The six cell writes of a rotation, one after the other, rewrite exactly
      the cells `RotatedCells` names. */
  lemma {:induction false} RotatedCellsSteps(n1: seq<NodeRec>, a1: seq<NodeRec>, a2: seq<NodeRec>, a3: seq<NodeRec>,
                          a4: seq<NodeRec>, a5: seq<NodeRec>, n2: seq<NodeRec>,
                          x: nat, y: nat, b: nat, px: int, d: Dir, side: Dir)
    requires x < |n1| && y < |n1| && b < |n1| && px < |n1| && (px == NONE || 0 <= px)
    requires x != y && b != x && b != y && (px != NONE ==> px != x && px != y && px != b)
    requires a1 == n1[x := SetChild(n1[x], Flip(d), b)]
    requires a2 == if b != NIL then a1[b := a1[b].(parent := x)] else a1
    requires a3 == a2[y := a2[y].(parent := px)]
    requires a4 == if px == NONE then a3 else a3[px := SetChild(a3[px], side, y)]
    requires a5 == a4[y := SetChild(a4[y], d, x)]
    requires n2 == a5[x := a5[x].(parent := y)]
    ensures RotatedCells(n1, n2, x, y, b, px, d, side)
  {
  }

  /** The arena after the six writes of a rotation at position `P`. */
  lemma {:induction false} RotateArena(n1: seq<NodeRec>, a1: seq<NodeRec>, a2: seq<NodeRec>, a3: seq<NodeRec>,
                    a4: seq<NodeRec>, a5: seq<NodeRec>, n2: seq<NodeRec>,
                    root: nat, newRoot: nat, t: Tree, P: seq<Dir>, d: Dir, side: Dir)
    requires Repr(n1, root, t, NONE) && UniqueIds(t) && ValidPath(t, P) && At(t, P).Node?
    requires Child(At(t, P), Flip(d)).Node?
    requires side == if P == [] then d else P[|P| - 1]
    requires var s := At(t, P);
      var x := s.id;
      var y := Child(s, Flip(d)).id;
      var b := RootId(Child(Child(s, Flip(d)), d));
      var px := ParentId(t, P, NONE);
      newRoot == (if px == NONE then y else root) &&
      x < |n1| && y < |n1| && b < |n1| && px < |n1| && (px == NONE || 0 <= px) &&
      a1 == n1[x := SetChild(n1[x], Flip(d), b)] &&
      a2 == (if b != NIL then a1[b := a1[b].(parent := x)] else a1) &&
      a3 == a2[y := a2[y].(parent := px)] &&
      a4 == (if px == NONE then a3 else a3[px := SetChild(a3[px], side, y)]) &&
      a5 == a4[y := SetChild(a4[y], d, x)] &&
      n2 == a5[x := a5[x].(parent := y)]
    ensures Repr(n2, newRoot, RotAt(t, P, d), NONE) && UniqueIds(RotAt(t, P, d))
    ensures |n2| == |n1| && n2[NIL] == n1[NIL]
  {
    var s := At(t, P);
    RotateSite(n1, root, t, P, d);
    var x := s.id;
    var y := Child(s, Flip(d)).id;
    var b := RootId(Child(Child(s, Flip(d)), d));
    var px := ParentId(t, P, NONE);
    RotatedCellsSteps(n1, a1, a2, a3, a4, a5, n2, x, y, b, px, d, side);
    ReprRotate(n1, n2, root, t, P, d, newRoot);
    RotKeys(s, d);
    IdsPlug(t, P, Leaf);
    SamePlug(t, P, Rot(s, d));
    assert n2[NIL] == n1[NIL];
  }

  /** The facts about a rotation site that the arena code reads. */
  lemma {:induction false} RotateSite(n1: seq<NodeRec>, root: nat, t: Tree, P: seq<Dir>, d: Dir)
    requires Repr(n1, root, t, NONE) && UniqueIds(t) && ValidPath(t, P) && At(t, P).Node?
    requires Child(At(t, P), Flip(d)).Node?
    ensures var s := At(t, P);
      var ys := Child(s, Flip(d));
      var x := s.id;
      var y := ys.id;
      var b := RootId(Child(ys, d));
      var px := ParentId(t, P, NONE);
      0 < x < |n1| && 0 < y < |n1| && x != y && b < |n1| && b != x && b != y &&
      ChildOf(n1[x], Flip(d)) == y && ChildOf(n1[y], d) == b && n1[x].parent == px &&
      (px == NONE <==> P == []) &&
      (px != NONE ==>
         0 < px < |n1| && px != x && px != y && px != b &&
         ChildOf(n1[px], P[|P| - 1]) == x && ChildOf(n1[px], Flip(P[|P| - 1])) != x)
  {
    var s := At(t, P);
    ReprAt(n1, root, t, NONE, P);
    IdsPlug(t, P, Leaf);
    RotateLocal(n1, s, ParentId(t, P, NONE), d);
    if P != [] {
      ParentSide(n1, root, t, P);
      assert Ids(s) !! Outer(t, P);
    }
  }

  /** The rotated subtree is represented from the promoted child's cell. */
  lemma {:induction false} ReprRotLocal(n1: seq<NodeRec>, n2: seq<NodeRec>, s: Tree, px: int, d: Dir, side: Dir)
    requires Repr(n1, RootId(s), s, px) && UniqueIds(s) && s.Node? && Child(s, Flip(d)).Node?
    requires var ys := Child(s, Flip(d));
      RotatedCells(n1, n2, s.id, ys.id, RootId(Child(ys, d)), px, d, side)
    requires px !in Ids(s)
    ensures Repr(n2, Child(s, Flip(d)).id, Rot(s, d), px)
  {
    var ys := Child(s, Flip(d));
    var x := s.id;
    var y := ys.id;
    var bt := Child(ys, d);
    RotSubtrees(n1, n2, s, px, d, side);
    assert n2[x].key == s.key && n2[x].color == s.color && n2[y].key == ys.key && n2[y].color == ys.color by {
      ReprMkOf(n1, x, s.color, d, Child(s, d), s.key, x, ys, px);
      MkOf(s, d);
      MkOf(ys, d);
      ReprMkOf(n1, y, ys.color, d, bt, ys.key, y, Child(ys, Flip(d)), x);
    }
    ReprMk(n2, s.color, d, Child(s, d), s.key, x, bt, y);
    var inner := Mk(s.color, d, Child(s, d), s.key, x, bt);
    ReprMk(n2, ys.color, d, inner, ys.key, y, Child(ys, Flip(d)), px);
    assert Rot(s, d) == Mk(ys.color, d, inner, ys.key, y, Child(ys, Flip(d)));
  }

  /** The three subtrees a rotation moves keep their cells; the middle one
      now hangs below the demoted node. */
  lemma {:induction false} RotSubtrees(n1: seq<NodeRec>, n2: seq<NodeRec>, s: Tree, px: int, d: Dir, side: Dir)
    requires Repr(n1, RootId(s), s, px) && UniqueIds(s) && s.Node? && Child(s, Flip(d)).Node?
    requires var ys := Child(s, Flip(d));
      RotatedCells(n1, n2, s.id, ys.id, RootId(Child(ys, d)), px, d, side)
    requires px !in Ids(s)
    ensures var ys := Child(s, Flip(d));
      var x := s.id;
      var y := ys.id;
      0 < x < |n2| && 0 < y < |n2| && x != y &&
      n2[x].parent == y && n2[y].parent == px && ChildOf(n2[y], d) == x &&
      Repr(n2, ChildOf(n2[x], d), Child(s, d), x) &&
      Repr(n2, ChildOf(n2[x], Flip(d)), Child(ys, d), x) &&
      Repr(n2, ChildOf(n2[y], Flip(d)), Child(ys, Flip(d)), y)
  {
    var ys := Child(s, Flip(d));
    var x := s.id;
    var y := ys.id;
    var a := Child(s, d);
    var bt := Child(ys, d);
    var ct := Child(ys, Flip(d));
    var b := RootId(bt);
    RotateLocal(n1, s, px, d);
    assert Repr(n2, ChildOf(n1[x], d), a, x) by {
      ReprIds(n1, ChildOf(n1[x], d), a, x);
      assert Agree(n1, n2, Ids(a));
      ReprFrame(n1, n2, ChildOf(n1[x], d), a, x);
    }
    assert Repr(n2, ChildOf(n1[y], Flip(d)), ct, y) by {
      ReprIds(n1, ChildOf(n1[y], Flip(d)), ct, y);
      assert Agree(n1, n2, Ids(ct));
      ReprFrame(n1, n2, ChildOf(n1[y], Flip(d)), ct, y);
    }
    assert Repr(n2, b, bt, x) by {
      ReprIds(n1, b, bt, y);
      assert Agree(n1, n2, Ids(bt) - {b});
      ReprReparent(n1, n2, b, bt, y, x);
    }
  }

  /** The arena after a rotation represents the rotated tree. */
  lemma {:induction false} ReprRotate(n1: seq<NodeRec>, n2: seq<NodeRec>, root: nat, t: Tree, P: seq<Dir>, d: Dir, newRoot: nat)
    requires Repr(n1, root, t, NONE) && UniqueIds(t) && ValidPath(t, P) && At(t, P).Node?
    requires Child(At(t, P), Flip(d)).Node?
    requires var s := At(t, P);
      var ys := Child(s, Flip(d));
      var px := ParentId(t, P, NONE);
      RotatedCells(n1, n2, s.id, ys.id, RootId(Child(ys, d)), px, d, if P == [] then d else P[|P| - 1]) &&
      newRoot == (if px == NONE then ys.id else root)
    ensures Repr(n2, newRoot, RotAt(t, P, d), NONE)
  {
    var s := At(t, P);
    var ys := Child(s, Flip(d));
    var px := ParentId(t, P, NONE);
    ReprAt(n1, root, t, NONE, P);
    IdsPlug(t, P, Leaf);
    if P != [] {
      ParentSide(n1, root, t, P);
      assert Ids(s) !! Outer(t, P);
    }
    ReprRotLocal(n1, n2, s, px, d, if P == [] then d else P[|P| - 1]);
    if P != [] {
      RotateLocal(n1, s, px, d);
      ReprIds(n1, root, t, NONE);
      assert Agree(n1, n2, Outer(t, P) - {px});
      ReprPlug(n1, n2, root, t, NONE, P, Rot(s, d));
    }
  }

  /** The parent field of the node at `g + [d]` names the node at `g`, whose
      child field on side `d` names it back. */
  lemma {:induction false} ParentField(nodes: seq<NodeRec>, i: nat, t: Tree, top: int, g: seq<Dir>, d: Dir)
    requires Repr(nodes, i, t, top) && ValidPath(t, g + [d]) && At(t, g + [d]).Node?
    ensures ValidPath(t, g) && At(t, g).Node? && At(t, g + [d]) == Child(At(t, g), d)
    ensures 0 < At(t, g).id < |nodes| && 0 < At(t, g + [d]).id < |nodes|
    ensures nodes[At(t, g + [d]).id].parent == At(t, g).id
    ensures ChildOf(nodes[At(t, g).id], d) == At(t, g + [d]).id
  {
    ValidPathPrefix(t, g + [d], |g|);
    assert (g + [d])[..|g|] == g;
    ChildLink(nodes, i, t, top, g, d);
    ReprAt(nodes, i, t, top, g + [d]);
    ParentIdStep(t, g, d, top);
  }

  /** Where the cell of the node at position `zp` is, and what its parent field holds. */
  lemma {:induction false} CellOf(nodes: seq<NodeRec>, root: nat, t: Tree, zp: seq<Dir>)
    requires Repr(nodes, root, t, NONE) && UniqueIds(t) && ValidPath(t, zp) && At(t, zp).Node?
    ensures 0 < At(t, zp).id < |nodes|
    ensures zp == [] ==> At(t, zp).id == root && nodes[root].parent == NONE
    ensures zp != [] ==>
      var g := zp[..|zp| - 1];
      zp == g + [zp[|zp| - 1]] &&
      ValidPath(t, g) && At(t, g).Node? && nodes[At(t, zp).id].parent == At(t, g).id &&
      0 < At(t, g).id < |nodes| && At(t, zp).id != root
  {
    ReprAt(nodes, root, t, NONE, zp);
    ReprIds(nodes, root, t, NONE);
    if zp != [] {
      var g := zp[..|zp| - 1];
      assert zp == g + [zp[|zp| - 1]];
      ParentField(nodes, root, t, NONE, g, zp[|zp| - 1]);
      BelowRootId(t, zp);
    }
  }
}

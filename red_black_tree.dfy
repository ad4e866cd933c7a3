/** The red-black tree of rbt_insert.py and rbt_delete.py. Nodes are cells of
    an arena (`nodes`); index 0 is the shared BLACK sentinel `NULL` and a
    parent of -1 is `None`. The ghost field `tree` is the abstract tree the
    arena spells out from `root`. */
module RedBlack {
  import opened Sequences
  import opened RbTrees
  import opened RbArena
  import opened RbInsertProps
  import opened RbDeleteProps
  import opened RbSplice
  import opened RbDeleteArena
  import opened Wrappers

  /** What the insert fix-up loop may read once the parent of `z` (at
      position `zp`) is RED: that parent is not the root, so `z` has a
      grandparent at `gp`; the child fields say which side each link is on,
      and the uncle's cell (the sentinel when it is absent) has its colour. */
  lemma {:induction false} InsertLoopSite(nodes: seq<NodeRec>, root: nat, t: Tree, zp: seq<Dir>)
    requires |nodes| > NIL && nodes[NIL].color == Black && Repr(nodes, root, t, NONE) && UniqueIds(t)
    requires ValidPath(t, zp) && At(t, zp).Node? && At(t, zp).color == Red
    requires Balanced(t) && NoRedRedExcept(t, zp) && (zp != [] ==> ColorOf(t) == Black)
    requires var z := At(t, zp).id;
      z < |nodes| && nodes[z].parent != NONE &&
      0 <= nodes[z].parent < |nodes| && nodes[nodes[z].parent].color == Red
    ensures |zp| >= 2
    ensures var gp := zp[..|zp| - 2];
      var dp := zp[|zp| - 2];
      var dz := zp[|zp| - 1];
      var z := At(t, zp).id;
      zp == gp + [dp, dz] && FixupShape(t, gp, dp, dz) &&
      ValidPath(t, gp + [dp]) && At(t, gp + [dp]).Node? && ValidPath(t, gp) && At(t, gp).Node? &&
      var p := At(t, gp + [dp]).id;
      var g := At(t, gp).id;
      0 < p < |nodes| && 0 < g < |nodes| &&
      nodes[z].parent == p && nodes[p].parent == g &&
      (nodes[g].left == p <==> dp == Left) &&
      ChildOf(nodes[p], dz) == z && ChildOf(nodes[p], Flip(dz)) != z &&
      ValidPath(t, gp + [Flip(dp)]) &&
      ChildOf(nodes[g], Flip(dp)) == RootId(At(t, gp + [Flip(dp)])) &&
      RootId(At(t, gp + [Flip(dp)])) < |nodes| &&
      nodes[RootId(At(t, gp + [Flip(dp)]))].color == ColorOf(At(t, gp + [Flip(dp)]))
  {
    CellOf(nodes, root, t, zp);
    var p1 := zp[..|zp| - 1];
    ReprAt(nodes, root, t, NONE, p1);
    ColorLink(nodes, At(t, p1).id, At(t, p1), ParentId(t, p1, NONE));
    assert p1 != [];
    CellOf(nodes, root, t, p1);
    var gp := p1[..|p1| - 1];
    var dp := p1[|p1| - 1];
    var dz := zp[|zp| - 1];
    assert zp[..|zp| - 2] == gp && zp[|zp| - 2] == dp;
    assert zp == gp + [dp, dz];
    assert p1 == gp + [dp];
    ParentField(nodes, root, t, NONE, gp, dp);
    ParentField(nodes, root, t, NONE, p1, dz);
    ChildrenDiffer(nodes, root, t, NONE, gp, dp);
    ChildrenDiffer(nodes, root, t, NONE, p1, dz);
    ChildLink(nodes, root, t, NONE, gp, Flip(dp));
    ReprAt(nodes, root, t, NONE, gp + [Flip(dp)]);
    var u := At(t, gp + [Flip(dp)]);
    ReprIds(nodes, RootId(u), u, ParentId(t, gp + [Flip(dp)], NONE));
    ColorLink(nodes, RootId(u), u, ParentId(t, gp + [Flip(dp)], NONE));
  }

  /** Linking a fresh RED node, appended as the last cell, at the empty
      position `P`: it becomes the root when `P` is the top, and otherwise the
      child of the cell at `P`'s parent on `P`'s last side. */
  lemma {:induction false} LinkNew(n0: seq<NodeRec>, n1: seq<NodeRec>, n2: seq<NodeRec>, root: nat, newRoot: nat,
                t: Tree, P: seq<Dir>, key: int, node: nat, parent: int)
    requires Repr(n0, root, t, NONE) && UniqueIds(t) && ValidPath(t, P) && At(t, P).Leaf?
    requires |n0| > NIL && node == |n0| && |n1| == node + 1 && n1[..node] == n0
    requires n1[node] == NodeRec(key, Red, NIL, NIL, parent) && parent == ParentId(t, P, NONE)
    requires P == [] ==> n2 == n1 && newRoot == node
    requires P != [] ==>
      newRoot == root && 0 <= parent < |n1| &&
      n2 == n1[parent := SetChild(n1[parent], P[|P| - 1], node)]
    ensures Repr(n2, newRoot, Plug(t, P, Node(Red, Leaf, key, node, Leaf)), NONE)
    ensures UniqueIds(Plug(t, P, Node(Red, Leaf, key, node, Leaf)))
  {
    var s := Node(Red, Leaf, key, node, Leaf);
    ReprIds(n0, root, t, NONE);
    assert Agree(n0, n1, Ids(t)) by {
      forall j | j in Ids(t) ensures j < |n0| && j < |n1| && n1[j] == n0[j] {
        assert n1[..node][j] == n1[j];
      }
    }
    ReprFrame(n0, n1, root, t, NONE);
    IdsPlug(t, P, s);
    if P == [] {
      assert At(t, P) == t;
    } else {
      ParentIdOuter(t, P, NONE);
      assert parent < node;
      assert Repr(n2, node, s, parent);
      assert Agree(n1, n2, Outer(t, P) - {parent});
      ReprPlug(n1, n2, root, t, NONE, P, s);
    }
  }

  /** Hanging a one-key subtree at an empty position that lies after every
      key at most `k` and before every key above `k` inserts `k` after its
      equals, and the keys stay sorted. */
  lemma {:induction false} InsertKeys(t: Tree, P: seq<Dir>, s: Tree)
    requires ValidPath(t, P) && At(t, P).Leaf? && s.Node? && Keys(s) == [s.key] && Sorted(Keys(t))
    requires forall v :: v in Before(t, P) ==> v <= s.key
    requires forall v :: v in After(t, P) ==> s.key < v
    ensures Keys(Plug(t, P, s)) == InsertAfterEquals(Keys(t), s.key)
    ensures Sorted(Keys(Plug(t, P, s)))
  {
    var b := Before(t, P);
    var a := After(t, P);
    assert Keys(t) == b + a && Keys(Plug(t, P, s)) == b + [s.key] + a by {
      KeysPlug(t, P, s);
    }
    assert InsertAfterEquals(b + a, s.key) == b + [s.key] + a by {
      assert forall i :: 0 <= i < |b| ==> b[i] in b;
      assert forall i :: 0 <= i < |a| ==> a[i] in a;
      InsertAfterEqualsSplit(b, a, s.key);
    }
    InsertAfterEqualsSorted(Keys(t), s.key);
  }

  /** What removing a node with a missing child does to the abstract tree. */
  lemma {:induction false} OneRemoved(t: Tree, Pz: seq<Dir>, e: Dir, t2: Tree, yColor: Color)
    requires IsRedBlack(t) && UniqueIds(t) && ValidPath(t, Pz) && At(t, Pz).Node? && Child(At(t, Pz), e).Leaf?
    requires t2 == Plug(t, Pz, Child(At(t, Pz), Flip(e))) && yColor == At(t, Pz).color
    ensures RemovedAt(Keys(t), Keys(t2), |Before(t, Pz)| + |Keys(At(t, Pz).left)|, At(t, Pz).key)
    ensures UniqueIds(t2) && ValidPath(t2, Pz) && At(t2, Pz) == Child(At(t, Pz), Flip(e))
    ensures ParentId(t2, Pz, NONE) == ParentId(t, Pz, NONE)
    ensures yColor == Black ==> FixState(t2, Pz)
    ensures yColor == Red ==> IsRedBlack(t2)
  {
    OneChildContents(t, Pz, e);
    OneChildBalance(t, Pz, e);
  }

  /** What removing a node with two children does to the abstract tree. */
  lemma {:induction false} TwoRemoved(t: Tree, Pz: seq<Dir>, t2: Tree, xp: seq<Dir>, yColor: Color)
    requires IsRedBlack(t) && UniqueIds(t) && ValidPath(t, Pz) && At(t, Pz).Node?
    requires At(t, Pz).left.Node? && At(t, Pz).right.Node?
    requires t2 == Plug(t, Pz, Spliced(At(t, Pz))) && xp == SplicedPath(At(t, Pz), Pz)
    requires yColor == MinOf(At(t, Pz).right).color
    ensures RemovedAt(Keys(t), Keys(t2), |Before(t, Pz)| + |Keys(At(t, Pz).left)|, At(t, Pz).key)
    ensures yColor == Black ==> FixState(t2, xp)
    ensures yColor == Red ==> IsRedBlack(t2)
  {
    TwoChildrenContents(t, Pz);
    TwoChildrenBalance(t, Pz);
  }

  /** The arena after `delete` has linked `x = y.right` to `y` and put `y`,
      the right child of `z`, in `z`'s place represents the spliced tree. */
  lemma {:induction false} NearArena(a0: seq<NodeRec>, root: nat, t: Tree, Pz: seq<Dir>, n2: seq<NodeRec>, newRoot: nat)
    requires Repr(a0, root, t, NONE) && UniqueIds(t) && ValidPath(t, Pz) && At(t, Pz).Node?
    requires At(t, Pz).left.Node? && At(t, Pz).right.Node? && MinPath(At(t, Pz).right) == []
    requires var sz := At(t, Pz);
      var y := sz.right.id;
      y < |a0| && a0[y].right < |a0| &&
      var a := a0[a0[y].right := a0[a0[y].right].(parent := y)];
      sz.id < |a| && (a[sz.id].parent == NONE || 0 <= a[sz.id].parent < |a|) && a[sz.id].left < |a| &&
      n2 == Attached(a, sz.id, y) && newRoot == (if a[sz.id].parent == NONE then y else root)
    ensures var sz := At(t, Pz);
      var t' := Plug(t, Pz, Spliced(sz));
      var xp := SplicedPath(sz, Pz);
      var x := a0[sz.right.id].right;
      Repr(n2, newRoot, t', NONE) && UniqueIds(t') && |n2| == |a0| && n2[NIL].color == a0[NIL].color &&
      ValidPath(t', xp) && x == RootId(At(t', xp)) && x < |n2| && n2[x].parent == ParentId(t', xp, NONE)
  {
    var sz := At(t, Pz);
    var ys := sz.right;
    var z := sz.id;
    var y := ys.id;
    var x := a0[y].right;
    var a := a0[x := a0[x].(parent := y)];
    NearLink(a0, root, t, Pz);
    AttachArena(a0, a, n2, root, newRoot, t, Pz, y, ys.right);
    NearXParent(t, Pz);
    assert Node(sz.color, sz.left, a[y].key, y, ys.right) == Spliced(sz);
    SplicedPlug(t, Pz);
    TwoChildrenContents(t, Pz);
    assert Pz + [Right] + [] == Pz + [Right];
    assert x == RootId(ys.right) && x != sz.left.id && x != y by {
      SuccessorSite(a0, root, t, Pz);
      Site(a0, root, t, Pz);
      ReprIds(a0, x, ys.right, y);
    }
  }

  /** Linking `x = y.right` to `y` changes no cell of the nodes that stay in
      place, and `x`'s subtree still hangs below `y`. */
  lemma {:induction false} NearLink(a0: seq<NodeRec>, root: nat, t: Tree, Pz: seq<Dir>)
    requires Repr(a0, root, t, NONE) && UniqueIds(t) && ValidPath(t, Pz) && At(t, Pz).Node?
    requires At(t, Pz).left.Node? && At(t, Pz).right.Node? && MinPath(At(t, Pz).right) == []
    ensures var sz := At(t, Pz);
      var ys := sz.right;
      var y := ys.id;
      0 < y < |a0| && a0[y].right < |a0| &&
      var a := a0[a0[y].right := a0[a0[y].right].(parent := y)];
      |a| == |a0| && Agree(a0, a, Outer(t, Pz) + Ids(sz.left) + {sz.id}) &&
      y !in Outer(t, Pz) && y !in Ids(sz.left) && y != sz.id && y !in Ids(ys.right) &&
      Repr(a, RootId(ys.right), ys.right, y) && a[y].right == RootId(ys.right) &&
      Ids(ys.right) !! Outer(t, Pz) && Ids(ys.right) !! Ids(sz.left) &&
      a[y].key == ys.key
  {
    var sz := At(t, Pz);
    var ys := sz.right;
    var z := sz.id;
    var y := ys.id;
    Site(a0, root, t, Pz);
    SuccessorSite(a0, root, t, Pz);
    assert Pz + [Right] + [] == Pz + [Right];
    var x := a0[y].right;
    var a := a0[x := a0[x].(parent := y)];
    ReprIds(a0, x, ys.right, y);
    assert a0[sz.left.id].parent == z;
    if x != NIL {
      assert a == a0;
    } else {
      assert Agree(a0, a, Outer(t, Pz) + Ids(sz.left) + {z});
    }
  }

  /** What the delete fix-up loop may read while x (the sentinel when it is
      absent) sits BLACK at position `g + [dx]`: its parent field names the
      node at `g`, whose child fields tell x's side, and the sibling `w` is a
      real node whose cell and child cells carry the colours of the tree. */
  lemma {:induction false} DeleteLoopSite(nodes: seq<NodeRec>, root: nat, t: Tree, g: seq<Dir>, dx: Dir, x: nat)
    requires |nodes| > NIL && nodes[NIL].color == Black && Repr(nodes, root, t, NONE)
    requires BlackStep(t, g, dx) && RootId(At(t, g + [dx])) == x
    requires x < |nodes| && nodes[x].parent == ParentId(t, g + [dx], NONE)
    ensures ValidPath(t, g) && At(t, g).Node? && ValidPath(t, g + [Flip(dx)]) && At(t, g + [Flip(dx)]).Node?
    ensures var p := At(t, g).id;
      var w := At(t, g + [Flip(dx)]).id;
      0 < p < |nodes| && 0 < w < |nodes| && nodes[x].parent == p &&
      nodes[p].color == At(t, g).color &&
      (nodes[p].left == x <==> dx == Left) && ChildOf(nodes[p], Flip(dx)) == w &&
      nodes[w].color == At(t, g + [Flip(dx)]).color
    ensures forall e: Dir ::
      ValidPath(t, g + [Flip(dx), e]) &&
      ChildOf(nodes[At(t, g + [Flip(dx)]).id], e) == RootId(At(t, g + [Flip(dx), e])) &&
      RootId(At(t, g + [Flip(dx), e])) < |nodes| &&
      nodes[RootId(At(t, g + [Flip(dx), e]))].color == ColorOf(At(t, g + [Flip(dx), e]))
  {
    BlackStepLocal(t, g, dx);
    var fl := Flip(dx);
    ParentIdStep(t, g, dx, NONE);
    ChildLink(nodes, root, t, NONE, g, dx);
    ChildLink(nodes, root, t, NONE, g, fl);
    ChildrenDiffer(nodes, root, t, NONE, g, fl);
    assert Flip(fl) == dx;
    ReprAt(nodes, root, t, NONE, g + [fl]);
    forall e: Dir
      ensures ValidPath(t, g + [fl, e]) &&
        ChildOf(nodes[At(t, g + [fl]).id], e) == RootId(At(t, g + [fl, e])) &&
        RootId(At(t, g + [fl, e])) < |nodes| &&
        nodes[RootId(At(t, g + [fl, e]))].color == ColorOf(At(t, g + [fl, e]))
    {
      ChildLink(nodes, root, t, NONE, g + [fl], e);
      assert g + [fl] + [e] == g + [fl, e];
      ReprAt(nodes, root, t, NONE, g + [fl, e]);
      var u := At(t, g + [fl, e]);
      ReprIds(nodes, RootId(u), u, ParentId(t, g + [fl, e], NONE));
      ColorLink(nodes, RootId(u), u, ParentId(t, g + [fl, e], NONE));
    }
  }

  // ---------------------------------------------------------------------
  // The guard of the insert fix-up loop
  // ---------------------------------------------------------------------

  /** The guard `z.parent.color == "RED"` as written: the root's parent is
      `None`, and reading its colour raises. */
  function ParentIsRedAsWritten(nodes: seq<NodeRec>, z: nat): (r: Outcome<bool>)
    requires z < |nodes| && (nodes[z].parent == NONE || 0 <= nodes[z].parent < |nodes|)
    ensures r == Raised <==> nodes[z].parent == NONE
  {
    if nodes[z].parent == NONE then Raised else Value(nodes[nodes[z].parent].color == Red)
  }

  /** The guard as evidently intended: an absent parent counts as BLACK, as
      the sentinel does, so the loop stops at the root. */
  function ParentIsRed(nodes: seq<NodeRec>, z: nat): (r: bool)
    requires z < |nodes| && (nodes[z].parent == NONE || 0 <= nodes[z].parent < |nodes|)
    ensures r ==> nodes[z].parent != NONE
  {
    nodes[z].parent != NONE && nodes[nodes[z].parent].color == Red
  }

  /** Wherever the written guard does not raise, the two guards agree. */
  lemma {:induction false} GuardsAgree(nodes: seq<NodeRec>, z: nat)
    requires z < |nodes| && (nodes[z].parent == NONE || 0 <= nodes[z].parent < |nodes|)
    ensures ParentIsRedAsWritten(nodes, z) == Raised || ParentIsRedAsWritten(nodes, z) == Value(ParentIsRed(nodes, z))
    ensures ParentIsRedAsWritten(nodes, z) == Raised ==> !ParentIsRed(nodes, z)
  {
  }

  /** The first insert into an empty tree: the new RED node is the root with
      parent `None`, so the written guard raises at once, while the intended
      one stops the loop and the root is painted BLACK. */
  lemma {:induction false} FirstInsertRaises(key: int)
    ensures var nodes := [NodeRec(0, Black, NIL, NIL, NONE), NodeRec(key, Red, NIL, NIL, NONE)];
      ParentIsRedAsWritten(nodes, 1) == Raised && !ParentIsRed(nodes, 1)
  {
  }

  // ---------------------------------------------------------------------
  // In-order listing
  // ---------------------------------------------------------------------

  /** What `inorder` prints: each key with its colour, left subtree first. */
  ghost function Listing(t: Tree): seq<(int, Color)>
  {
    match t
    case Leaf => []
    case Node(c, l, k, _, r) => Listing(l) + [(k, c)] + Listing(r)
  }

  /** The keys `inorder` prints are the tree's in-order keys. */
  lemma {:induction false} ListingKeys(t: Tree)
    ensures |Listing(t)| == |Keys(t)|
    ensures forall i :: 0 <= i < |Keys(t)| ==> Listing(t)[i].0 == Keys(t)[i]
  {
    match t
    case Leaf =>
    case Node(c, l, k, _, r) =>
      ListingKeys(l);
      ListingKeys(r);
      var a := Listing(l);
      var b := Listing(r);
      assert Listing(t) == a + [(k, c)] + b;
      assert Keys(t) == Keys(l) + [k] + Keys(r);
      forall i | 0 <= i < |Keys(t)|
        ensures Listing(t)[i].0 == Keys(t)[i]
      {
        if i < |a| {
        } else if i == |a| {
        } else {
          assert Listing(t)[i] == b[i - |a| - 1];
          assert Keys(t)[i] == Keys(r)[i - |a| - 1];
        }
      }
  }

  class RedBlackTree {
    var nodes: seq<NodeRec>
    var root: nat
    ghost var tree: Tree

    /** The arena spells out `tree` from `root`, with the BLACK sentinel in cell 0. */
    ghost predicate Valid()
      reads this
    {
      |nodes| > NIL && nodes[NIL].color == Black &&
      Repr(nodes, root, tree, NONE) && UniqueIds(tree)
    }

    /** What every public operation keeps: a red-black search tree. */
    ghost predicate Invariant()
      reads this
    {
      Valid() && IsRedBlack(tree) && Sorted(Keys(tree))
    }

    /** An empty tree: only the sentinel, which is BLACK and is the root. */
    constructor ()
      ensures Invariant() && tree == Leaf && Keys(tree) == []
    {
      nodes := [NodeRec(0, Black, NIL, NIL, NONE)];
      root := NIL;
      tree := Leaf;
    }

    /** Overwrites the colour of the cell at position `p`; the sentinel may
        only be painted BLACK, which it already is. */
    method SetColor(i: nat, c: Color, ghost p: seq<Dir>)
      requires Valid() && ValidPath(tree, p) && RootId(At(tree, p)) == i
      requires At(tree, p).Leaf? ==> c == Black
      modifies this
      ensures Valid() && tree == SetColorAt(old(tree), p, c) && root == old(root)
      ensures i < |old(nodes)| && nodes == old(nodes)[i := old(nodes)[i].(color := c)]
      ensures nodes[NIL] == old(nodes[NIL])
    {
      ReprAt(nodes, root, tree, NONE, p);
      ReprIds(nodes, root, tree, NONE);
      if At(tree, p).Node? {
        ReprRecolor(nodes, root, tree, NONE, p, c);
        IdsPlug(tree, p, Leaf);
        SamePlug(tree, p, Paint(At(tree, p), c));
      } else {
        PlugAt(tree, p);
        assert i == NIL && nodes[i].(color := c) == nodes[i];
        assert nodes[i := nodes[i].(color := c)] == nodes;
      }
      nodes := nodes[i := nodes[i].(color := c)];
      tree := SetColorAt(tree, p, c);
    }

    /** Rotation at the node `x` at position `P` towards side `d`: the child on
        the other side takes `x`'s place and `x` becomes its child on side `d`. */
    method Rotate(x: nat, d: Dir, ghost P: seq<Dir>)
      requires Valid() && ValidPath(tree, P) && At(tree, P).Node? && At(tree, P).id == x
      requires Child(At(tree, P), Flip(d)).Node?
      modifies this
      ensures Valid() && tree == RotAt(old(tree), P, d)
      ensures |nodes| == |old(nodes)| && nodes[NIL] == old(nodes[NIL])
    {
      ghost var n1 := nodes;
      ghost var t := tree;
      RotateSite(nodes, root, t, P, d);
      ghost var side := if P == [] then d else P[|P| - 1];
      var y := ChildOf(nodes[x], Flip(d));
      var b := ChildOf(nodes[y], d);
      nodes := nodes[x := SetChild(nodes[x], Flip(d), b)];
      ghost var a1 := nodes;
      if b != NIL {
        nodes := nodes[b := nodes[b].(parent := x)];
      }
      ghost var a2 := nodes;
      var px := nodes[x].parent;
      nodes := nodes[y := nodes[y].(parent := px)];
      ghost var a3 := nodes;
      if px == NONE {
        root := y;
      } else if x == ChildOf(nodes[px], d) {
        assert side == d;
        nodes := nodes[px := SetChild(nodes[px], d, y)];
      } else {
        assert side == Flip(d);
        nodes := nodes[px := SetChild(nodes[px], Flip(d), y)];
      }
      ghost var a4 := nodes;
      nodes := nodes[y := SetChild(nodes[y], d, x)];
      ghost var a5 := nodes;
      nodes := nodes[x := nodes[x].(parent := y)];
      RotateArena(n1, a1, a2, a3, a4, a5, nodes, old(root), root, t, P, d, side);
      tree := RotAt(t, P, d);
    }

    /** `left_rotate`: the right child is promoted. */
    method LeftRotate(x: nat, ghost P: seq<Dir>)
      requires Valid() && ValidPath(tree, P) && At(tree, P).Node? && At(tree, P).id == x
      requires At(tree, P).right.Node?
      modifies this
      ensures Valid() && tree == RotAt(old(tree), P, Left)
      ensures |nodes| == |old(nodes)| && nodes[NIL] == old(nodes[NIL])
    {
      Rotate(x, Left, P);
    }

    /** `right_rotate`: the left child is promoted. */
    method RightRotate(x: nat, ghost P: seq<Dir>)
      requires Valid() && ValidPath(tree, P) && At(tree, P).Node? && At(tree, P).id == x
      requires At(tree, P).left.Node?
      modifies this
      ensures Valid() && tree == RotAt(old(tree), P, Right)
      ensures |nodes| == |old(nodes)| && nodes[NIL] == old(nodes[NIL])
    {
      Rotate(x, Right, P);
    }

    /** While fixing up after an insertion: `z`, at position `zp`, is RED and
        is the only node that may have a RED parent. */
    ghost predicate Fixing(z: nat, zp: seq<Dir>)
      reads this
    {
      Valid() && ValidPath(tree, zp) && At(tree, zp).Node? && At(tree, zp).id == z &&
      At(tree, zp).color == Red && Balanced(tree) && NoRedRedExcept(tree, zp) &&
      (zp != [] ==> ColorOf(tree) == Black)
    }

    /** Case 1 of `fix_insert`: parent and uncle turn BLACK, the grandparent RED. */
    method InsertRecolor(p: nat, y: nat, g: nat, ghost gp: seq<Dir>, ghost dp: Dir)
      requires Valid() && ValidPath(tree, gp + [dp]) && ValidPath(tree, gp + [Flip(dp)]) && ValidPath(tree, gp)
      requires At(tree, gp + [dp]).Node? && At(tree, gp + [dp]).id == p
      requires RootId(At(tree, gp + [Flip(dp)])) == y
      requires At(tree, gp).Node? && At(tree, gp).id == g
      modifies this
      ensures Valid() && |nodes| == |old(nodes)| && nodes[NIL] == old(nodes[NIL])
      ensures tree == SetColorAt(SetColorAt(SetColorAt(old(tree), gp + [dp], Black), gp + [Flip(dp)], Black), gp, Red)
    {
      ghost var t := tree;
      RecolorAt(t, gp + [dp], Black, gp + [Flip(dp)]);
      RecolorAt(t, gp + [dp], Black, gp);
      SetColor(p, Black, gp + [dp]);
      RecolorAt(tree, gp + [Flip(dp)], Black, gp);
      SetColor(y, Black, gp + [Flip(dp)]);
      SetColor(g, Red, gp);
    }

    /** Cases 2 and 3 of `fix_insert`: if `z` is an inner grandchild, rotate at
        its parent first; then the parent turns BLACK, the grandparent RED, and
        a rotation at the grandparent promotes the parent. Returns the new `z`. */
    method InsertRotate(z: nat, p: nat, d: Dir, ghost gp: seq<Dir>, ghost dz: Dir) returns (z': nat)
      requires Valid() && FixupShape(tree, gp, d, dz)
      requires At(tree, gp + [d]).id == p && At(tree, gp + [d, dz]).id == z
      requires p < |nodes| && ChildOf(nodes[p], dz) == z && ChildOf(nodes[p], Flip(dz)) != z
      modifies this
      ensures Valid() && |nodes| == |old(nodes)| && nodes[NIL] == old(nodes[NIL])
      ensures tree == Case23(old(tree), gp, d, dz)
      ensures z' == if dz == d then old(At(tree, gp + [d, dz]).id) else old(At(tree, gp + [d]).id)
    {
      ghost var t := tree;
      FixupShapeLocal(t, gp, d, dz);
      ChildLink(nodes, root, t, NONE, gp, d);
      z' := z;
      if z' == ChildOf(nodes[p], Flip(d)) {
        z' := p;
        Rotate(z', d, gp + [d]);
        RotPositions(t, gp + [d], d);
        assert gp + [d] + [d] == gp + [d, d];
      }
      ghost var t0 := tree;
      assert gp + [d] + [d] == gp + [d, d];
      ParentField(nodes, root, t0, NONE, gp + [d], d);
      var q := nodes[z'].parent;
      ParentField(nodes, root, t0, NONE, gp, d);
      RecolorAt(t0, gp + [d], Black, gp);
      RecolorAt(t0, gp + [d], Black, gp + [d]);
      SetColor(q, Black, gp + [d]);
      var r := nodes[q].parent;
      ghost var ta := tree;
      RecolorAt(ta, gp, Red, gp);
      RecolorAt(ta, gp, Red, gp + [d]);
      SetColor(r, Red, gp);
      ChildLink(nodes, root, tree, NONE, gp, d);
      assert Flip(Flip(d)) == d;
      Rotate(r, Flip(d), gp);
    }

    /** The parent field of `z`, at position `zp`, as the loop of `fix_insert` reads it. */
    ghost predicate ParentLink(z: nat, zp: seq<Dir>)
      reads this
      requires Fixing(z, zp)
    {
      z < |nodes| &&
      (zp == [] ==> z == root && nodes[z].parent == NONE) &&
      (zp != [] ==>
        ValidPath(tree, zp[..|zp| - 1]) && At(tree, zp[..|zp| - 1]).Node? &&
        0 < nodes[z].parent < |nodes| && nodes[z].parent == At(tree, zp[..|zp| - 1]).id)
    }

    /** One pass of the `fix_insert` loop, entered with a RED parent of `z`:
        the violation moves up (case 1) or disappears (cases 2 and 3). */
    method InsertStep(z: nat, ghost zp: seq<Dir>) returns (z': nat, ghost zp': seq<Dir>)
      requires Fixing(z, zp) && ParentLink(z, zp)
      requires nodes[z].parent != NONE && nodes[nodes[z].parent].color == Red
      modifies this
      ensures Fixing(z', zp') && ParentLink(z', zp') && |zp'| < |zp|
      ensures Keys(tree) == old(Keys(tree)) && Ids(tree) == old(Ids(tree)) && |nodes| == |old(nodes)|
    {
      ghost var t := tree;
      InsertLoopSite(nodes, root, t, zp);
      ghost var gp := zp[..|zp| - 2];
      ghost var dp := zp[|zp| - 2];
      ghost var dz := zp[|zp| - 1];
      var p: nat := nodes[z].parent;
      var g: nat := nodes[p].parent;
      var d := if p == nodes[g].left then Left else Right;
      assert d == dp;
      var y := ChildOf(nodes[g], Flip(d));
      if nodes[y].color == Red {
        InsertRecolor(p, y, g, gp, d);
        InsertCase1(t, gp, dp, dz);
        z' := g;
        zp' := gp;
      } else {
        z' := InsertRotate(z, p, d, gp, dz);
        InsertCase23(t, gp, dp, dz);
        ExceptOfNoRedRed(tree, gp + [dp]);
        zp' := gp + [dp];
      }
      CellOf(nodes, root, tree, zp');
    }

    /** `fix_insert`: restores the red-black properties after a RED node was
        hung at position `zp`; the keys and node identities do not change. */
    method InsertFixup(z0: nat, ghost zp0: seq<Dir>)
      requires Fixing(z0, zp0)
      modifies this
      ensures Valid() && IsRedBlack(tree)
      ensures Keys(tree) == old(Keys(tree)) && Ids(tree) == old(Ids(tree))
      ensures |nodes| == |old(nodes)|
    {
      var z: nat := z0;
      ghost var zp := zp0;
      CellOf(nodes, root, tree, zp);
      while ParentIsRed(nodes, z)
        invariant Fixing(z, zp) && ParentLink(z, zp)
        invariant Keys(tree) == old(Keys(tree)) && Ids(tree) == old(Ids(tree)) && |nodes| == |old(nodes)|
        decreases |zp|
      {
        z, zp := InsertStep(z, zp);
        if z == root {
          break;
        }
      }
      if zp != [] {
        ghost var q := zp[..|zp| - 1];
        ReprAt(nodes, root, tree, NONE, q);
        ColorLink(nodes, At(tree, q).id, At(tree, q), ParentId(tree, q, NONE));
      }
      ExceptDone(tree, zp);
      PaintRootBlack(tree);
      SetColor(root, Black, []);
    }

    /** The descent of `insert`: from the root, go left when `key` is smaller
        than the node's key and right otherwise, until the sentinel. Returns
        the last node passed (`None` for an empty tree) and, as a ghost, the
        empty position reached: everything before it is at most `key` and
        everything after it exceeds `key`. */
    method Descend(key: int) returns (parent: int, ghost P: seq<Dir>)
      requires Invariant()
      ensures ValidPath(tree, P) && At(tree, P).Leaf? && parent == ParentId(tree, P, NONE)
      ensures P == [] ==> parent == NONE
      ensures P != [] ==> 0 < parent < |nodes| && (P[|P| - 1] == Left <==> key < nodes[parent].key)
      ensures forall v :: v in Before(tree, P) ==> v <= key
      ensures forall v :: v in After(tree, P) ==> key < v
    {
      parent := NONE;
      var cur: nat := root;
      P := [];
      while cur != NIL
        invariant ValidPath(tree, P) && cur == RootId(At(tree, P)) && parent == ParentId(tree, P, NONE)
        invariant P == [] ==> parent == NONE
        invariant P != [] ==> 0 < parent < |nodes| && (P[|P| - 1] == Left <==> key < nodes[parent].key)
        invariant forall v :: v in Before(tree, P) ==> v <= key
        invariant forall v :: v in After(tree, P) ==> key < v
        decreases At(tree, P)
      {
        ReprAt(nodes, root, tree, NONE, P);
        SortedAround(tree, P);
        ghost var d := if key < nodes[cur].key then Left else Right;
        BeforeAfterStep(tree, P, d);
        ParentIdStep(tree, P, d, NONE);
        ChildLink(nodes, root, tree, NONE, P, d);
        ghost var sp := At(tree, P);
        if d == Left {
          forall v | v in After(tree, P + [d]) ensures key < v {
            if v != sp.key {
              assert v in Keys(sp.right) + After(tree, P);
            }
          }
        }
        parent := cur;
        if key < nodes[cur].key {
          cur := nodes[cur].left;
        } else {
          cur := nodes[cur].right;
        }
        P := P + [d];
      }
      ReprAt(nodes, root, tree, NONE, P);
    }

    /** `insert`: the BST descent (equal keys go right), the link, then
        `fix_insert`. The keys gain `key` after any equal ones. */
    method Insert(key: int)
      requires Invariant()
      modifies this
      ensures Invariant()
      ensures Keys(tree) == InsertAfterEquals(old(Keys(tree)), key)
      ensures |nodes| == |old(nodes)| + 1
    {
      var parent;
      ghost var P;
      parent, P := Descend(key);
      ghost var t := tree;
      ghost var n0 := nodes;
      var node := |nodes|;
      nodes := nodes + [NodeRec(key, Red, NIL, NIL, parent)];
      ghost var n1 := nodes;
      if parent == NONE {
        root := node;
      } else if key < nodes[parent].key {
        nodes := nodes[parent := SetChild(nodes[parent], Left, node)];
      } else {
        nodes := nodes[parent := SetChild(nodes[parent], Right, node)];
      }
      ghost var s := Node(Red, Leaf, key, node, Leaf);
      assert n1[..node] == n0;
      LinkNew(n0, n1, nodes, old(root), root, t, P, key, node, parent);
      tree := Plug(t, P, s);
      AtPlug(t, P, s);
      BalancedPlug(t, P, s);
      ExceptNew(t, P, s);
      InsertKeys(t, P, s);
      InsertFixup(node, P);
    }

    /** While fixing up after a deletion: x (the sentinel when absent) is at
        position `xp`, where the tree is one BLACK short; its parent field
        names its parent even when x is the sentinel. */
    ghost predicate DelFixing(x: nat, xp: seq<Dir>)
      reads this
    {
      Valid() && FixState(tree, xp) && RootId(At(tree, xp)) == x &&
      x < |nodes| && nodes[x].parent == ParentId(tree, xp, NONE)
    }

    /** Case 1 of `delete_fix`: a RED sibling turns BLACK, the parent RED,
        and a rotation at the parent towards x's side. */
    method DeleteRedSibling(p: nat, w: nat, dx: Dir, ghost g: seq<Dir>)
      requires Valid() && ValidPath(tree, g) && At(tree, g).Node? && At(tree, g).id == p
      requires ValidPath(tree, g + [Flip(dx)]) && At(tree, g + [Flip(dx)]).Node? && At(tree, g + [Flip(dx)]).id == w
      modifies this
      ensures Valid() && |nodes| == |old(nodes)| && nodes[NIL] == old(nodes[NIL])
      ensures tree == RotAt(SetColorAt(SetColorAt(old(tree), g + [Flip(dx)], Black), g, Red), g, dx)
      ensures ValidPath(tree, g + [dx]) && ColorOf(At(tree, g + [dx])) == Red
    {
      ghost var t := tree;
      RecolorAt(t, g + [Flip(dx)], Black, g);
      RecolorAt(t, g + [Flip(dx)], Black, g + [Flip(dx)]);
      SetColor(w, Black, g + [Flip(dx)]);
      ghost var ta := tree;
      RecolorAt(ta, g, Red, g);
      RecolorAt(ta, g, Red, g + [Flip(dx)]);
      SetColor(p, Red, g);
      AtPlug(ta, g, Paint(At(ta, g), Red));
      ChildLink(nodes, root, tree, NONE, g, Flip(dx));
      RotPositions(tree, g, dx);
      Rotate(p, dx, g);
    }

    /** Case 3 of `delete_fix`: the sibling's far child is BLACK and its near
        child RED; the near child turns BLACK, the sibling RED, and a rotation
        at the sibling away from x's side. */
    method DeleteNearNephew(w: nat, n: nat, dx: Dir, ghost g: seq<Dir>)
      requires Valid() && ValidPath(tree, g + [Flip(dx), dx])
      requires At(tree, g + [Flip(dx)]).Node? && At(tree, g + [Flip(dx)]).id == w
      requires At(tree, g + [Flip(dx), dx]).Node? && At(tree, g + [Flip(dx), dx]).id == n
      modifies this
      ensures Valid() && |nodes| == |old(nodes)| && nodes[NIL] == old(nodes[NIL])
      ensures tree == RotAt(SetColorAt(SetColorAt(old(tree), g + [Flip(dx), dx], Black), g + [Flip(dx)], Red),
                            g + [Flip(dx)], Flip(dx))
    {
      ghost var t := tree;
      var fl := Flip(dx);
      ValidPathPrefix(t, g + [fl, dx], |g| + 1);
      assert (g + [fl, dx])[..|g| + 1] == g + [fl];
      assert g + [fl] + [dx] == g + [fl, dx];
      RecolorAt(t, g + [fl, dx], Black, g + [fl]);
      RecolorAt(t, g + [fl, dx], Black, g + [fl, dx]);
      SetColor(n, Black, g + [fl, dx]);
      ghost var ta := tree;
      RecolorAt(ta, g + [fl], Red, g + [fl]);
      RecolorAt(ta, g + [fl], Red, g + [fl, dx]);
      SetColor(w, Red, g + [fl]);
      ChildLink(nodes, root, tree, NONE, g + [fl], dx);
      assert Flip(fl) == dx;
      Rotate(w, fl, g + [fl]);
    }

    /** Case 4 of `delete_fix`: the sibling takes the parent's colour, the
        parent and the sibling's far child turn BLACK, and a rotation at the
        parent towards x's side. */
    method DeleteFarNephew(p: nat, w: nat, f: nat, dx: Dir, ghost g: seq<Dir>)
      requires Valid() && ValidPath(tree, g + [Flip(dx), Flip(dx)]) && ValidPath(tree, g)
      requires At(tree, g).Node? && At(tree, g).id == p && p < |nodes| && nodes[p].color == At(tree, g).color
      requires At(tree, g + [Flip(dx)]).Node? && At(tree, g + [Flip(dx)]).id == w
      requires At(tree, g + [Flip(dx), Flip(dx)]).Node? && At(tree, g + [Flip(dx), Flip(dx)]).id == f
      modifies this
      ensures Valid() && |nodes| == |old(nodes)| && nodes[NIL] == old(nodes[NIL])
      ensures tree == Case4(old(tree), g, dx)
    {
      ghost var t := tree;
      var fl := Flip(dx);
      ValidPathPrefix(t, g + [fl, fl], |g| + 1);
      assert (g + [fl, fl])[..|g| + 1] == g + [fl];
      RecolorAt(t, g + [fl], nodes[p].color, g);
      RecolorAt(t, g + [fl], nodes[p].color, g + [fl, fl]);
      RecolorAt(t, g + [fl], nodes[p].color, g + [fl]);
      SetColor(w, nodes[p].color, g + [fl]);
      ghost var ta := tree;
      RecolorAt(ta, g, Black, g);
      RecolorAt(ta, g, Black, g + [fl, fl]);
      RecolorAt(ta, g, Black, g + [fl]);
      SetColor(p, Black, g);
      ghost var tb := tree;
      RecolorAt(tb, g + [fl, fl], Black, g);
      RecolorAt(tb, g + [fl, fl], Black, g + [fl]);
      SetColor(f, Black, g + [fl, fl]);
      ChildLink(nodes, root, tree, NONE, g, fl);
      Rotate(p, dx, g);
    }

    /** Case 1 of one pass of `delete_fix`, as the pass sees it: afterwards x
        has a BLACK sibling `w'` and a RED parent one level further down. */
    method DeleteStepRed(x: nat, p: nat, w: nat, dx: Dir, ghost g: seq<Dir>) returns (w': nat, ghost g': seq<Dir>)
      requires Valid() && BlackStep(tree, g, dx) && RootId(At(tree, g + [dx])) == x
      requires x < |nodes| && nodes[x].parent == ParentId(tree, g + [dx], NONE)
      requires ValidPath(tree, g) && At(tree, g).Node? && At(tree, g).id == p
      requires ValidPath(tree, g + [Flip(dx)]) && At(tree, g + [Flip(dx)]).Node? && At(tree, g + [Flip(dx)]).id == w
      requires ColorOf(At(tree, g + [Flip(dx)])) == Red
      modifies this
      ensures Valid() && g' == g + [dx] && BlackStep(tree, g', dx) && RootId(At(tree, g' + [dx])) == x
      ensures x < |nodes| && nodes[x].parent == ParentId(tree, g' + [dx], NONE)
      ensures ValidPath(tree, g' + [Flip(dx)]) && At(tree, g' + [Flip(dx)]).Node? && At(tree, g' + [Flip(dx)]).id == w'
      ensures ColorOf(At(tree, g' + [Flip(dx)])) == Black && ValidPath(tree, g') && ColorOf(At(tree, g')) == Red
      ensures Keys(tree) == old(Keys(tree)) && Ids(tree) == old(Ids(tree)) && |nodes| == |old(nodes)|
    {
      ghost var t := tree;
      ParentIdStep(t, g, dx, NONE);
      DeleteRedSibling(p, w, dx, g);
      DeleteCase1(t, g, dx);
      g' := g + [dx];
      assert g' + [dx] == g + [dx, dx];
      assert g' + [Flip(dx)] == g + [dx, Flip(dx)];
      ParentIdStep(tree, g', dx, NONE);
      if x != NIL {
        ReprAt(nodes, root, tree, NONE, g' + [dx]);
      }
      DeleteLoopSite(nodes, root, tree, g', dx, x);
      w' := ChildOf(nodes[nodes[x].parent], Flip(dx));
    }

    /** Cases 3 and 4 of one pass of `delete_fix`: the sibling `w` is BLACK
        with a RED child; x becomes the root. */
    method DeleteStepRotate(x: nat, w: nat, dx: Dir, ghost g: seq<Dir>) returns (x': nat)
      requires Valid() && BlackStep(tree, g, dx) && RootId(At(tree, g + [dx])) == x
      requires x < |nodes| && nodes[x].parent == ParentId(tree, g + [dx], NONE)
      requires ValidPath(tree, g + [Flip(dx)]) && At(tree, g + [Flip(dx)]).Node? && At(tree, g + [Flip(dx)]).id == w
      requires ColorOf(At(tree, g + [Flip(dx)])) == Black
      requires ColorOf(At(tree, g + [Flip(dx)]).left) == Red || ColorOf(At(tree, g + [Flip(dx)]).right) == Red
      modifies this
      ensures DelFixing(x', []) && Keys(tree) == old(Keys(tree)) && Ids(tree) == old(Ids(tree))
      ensures |nodes| == |old(nodes)|
    {
      ghost var t := tree;
      DeleteLoopSite(nodes, root, t, g, dx, x);
      var w := w;
      Step1(At(t, g + [Flip(dx)]), Left, Leaf);
      AtAppend(t, g + [Flip(dx)], [Left]);
      AtAppend(t, g + [Flip(dx)], [Right]);
      assert g + [Flip(dx)] + [Left] == g + [Flip(dx), Left];
      assert g + [Flip(dx)] + [Right] == g + [Flip(dx), Right];
      assert ColorOf(At(t, g + [Flip(dx), dx])) == Red || ColorOf(At(t, g + [Flip(dx), Flip(dx)])) == Red;
      if nodes[ChildOf(nodes[w], Flip(dx))].color == Black {
        w := DeleteStepNear(x, w, dx, g);
      }
      x' := DeleteStepFar(x, w, dx, g);
    }

    /** Case 3 of `delete_fix`: the sibling's far child is BLACK and its near
        child RED; afterwards the new sibling `w'` has a RED far child. */
    method DeleteStepNear(x: nat, w: nat, dx: Dir, ghost g: seq<Dir>) returns (w': nat)
      requires Valid() && BlackStep(tree, g, dx) && RootId(At(tree, g + [dx])) == x
      requires x < |nodes| && nodes[x].parent == ParentId(tree, g + [dx], NONE)
      requires ValidPath(tree, g + [Flip(dx)]) && At(tree, g + [Flip(dx)]).Node? && At(tree, g + [Flip(dx)]).id == w
      requires ColorOf(At(tree, g + [Flip(dx)])) == Black
      requires ValidPath(tree, g + [Flip(dx), dx]) && ColorOf(At(tree, g + [Flip(dx), dx])) == Red
      requires ValidPath(tree, g + [Flip(dx), Flip(dx)]) && ColorOf(At(tree, g + [Flip(dx), Flip(dx)])) == Black
      modifies this
      ensures Valid() && BlackStep(tree, g, dx) && RootId(At(tree, g + [dx])) == x
      ensures x < |nodes| && nodes[x].parent == ParentId(tree, g + [dx], NONE)
      ensures ValidPath(tree, g + [Flip(dx)]) && At(tree, g + [Flip(dx)]).Node? && At(tree, g + [Flip(dx)]).id == w'
      ensures ColorOf(At(tree, g + [Flip(dx)])) == Black
      ensures ValidPath(tree, g + [Flip(dx), Flip(dx)]) && ColorOf(At(tree, g + [Flip(dx), Flip(dx)])) == Red
      ensures Keys(tree) == old(Keys(tree)) && Ids(tree) == old(Ids(tree)) && |nodes| == |old(nodes)|
    {
      ghost var t := tree;
      DeleteLoopSite(nodes, root, t, g, dx, x);
      BlackStepLocal(t, g, dx);
      AtAppend(t, g + [Flip(dx)], [dx]);
      assert g + [Flip(dx)] + [dx] == g + [Flip(dx), dx];
      DeleteNearNephew(w, ChildOf(nodes[w], dx), dx, g);
      DeleteCase3(t, g, dx);
      ParentIdStep(t, g, dx, NONE);
      BlackStepLocal(tree, g, dx);
      ParentIdStep(tree, g, dx, NONE);
      if x != NIL {
        ReprAt(nodes, root, tree, NONE, g + [dx]);
      }
      DeleteLoopSite(nodes, root, tree, g, dx, x);
      w' := ChildOf(nodes[nodes[x].parent], Flip(dx));
    }

    /** Case 4 of `delete_fix`: the sibling's far child is RED; after the
        rotation the tree is red-black and x is the root. */
    method DeleteStepFar(x: nat, w: nat, dx: Dir, ghost g: seq<Dir>) returns (x': nat)
      requires Valid() && BlackStep(tree, g, dx) && RootId(At(tree, g + [dx])) == x
      requires x < |nodes| && nodes[x].parent == ParentId(tree, g + [dx], NONE)
      requires ValidPath(tree, g + [Flip(dx)]) && At(tree, g + [Flip(dx)]).Node? && At(tree, g + [Flip(dx)]).id == w
      requires ColorOf(At(tree, g + [Flip(dx)])) == Black
      requires ValidPath(tree, g + [Flip(dx), Flip(dx)]) && ColorOf(At(tree, g + [Flip(dx), Flip(dx)])) == Red
      modifies this
      ensures DelFixing(x', []) && Keys(tree) == old(Keys(tree)) && Ids(tree) == old(Ids(tree))
      ensures |nodes| == |old(nodes)|
    {
      ghost var t3 := tree;
      DeleteLoopSite(nodes, root, t3, g, dx, x);
      AtAppend(t3, g + [Flip(dx)], [Flip(dx)]);
      assert g + [Flip(dx)] + [Flip(dx)] == g + [Flip(dx), Flip(dx)];
      DeleteFarNephew(nodes[x].parent, w, ChildOf(nodes[w], Flip(dx)), dx, g);
      DeleteCase4(t3, g, dx);
      PaintRootBlack(tree);
      x' := root;
      ReprAt(nodes, root, tree, NONE, []);
    }

    /** Cases 2 to 4 of one pass of `delete_fix`, with a BLACK sibling `w`:
        either x moves up to its parent, whose colour is unchanged, or x
        becomes the root. */
    method DeleteStepBlack(x: nat, w: nat, dx: Dir, ghost g: seq<Dir>) returns (x': nat, ghost xp': seq<Dir>)
      requires Valid() && BlackStep(tree, g, dx) && RootId(At(tree, g + [dx])) == x
      requires x < |nodes| && nodes[x].parent == ParentId(tree, g + [dx], NONE)
      requires ValidPath(tree, g + [Flip(dx)]) && At(tree, g + [Flip(dx)]).Node? && At(tree, g + [Flip(dx)]).id == w
      requires ColorOf(At(tree, g + [Flip(dx)])) == Black
      modifies this
      ensures DelFixing(x', xp')
      ensures xp' == [] || (xp' == g && ColorOf(At(tree, g)) == old(ColorOf(At(tree, g))))
      ensures Keys(tree) == old(Keys(tree)) && Ids(tree) == old(Ids(tree)) && |nodes| == |old(nodes)|
    {
      ghost var t := tree;
      DeleteLoopSite(nodes, root, t, g, dx, x);
      Step1(At(t, g + [Flip(dx)]), Left, Leaf);
      AtAppend(t, g + [Flip(dx)], [Left]);
      AtAppend(t, g + [Flip(dx)], [Right]);
      assert g + [Flip(dx)] + [Left] == g + [Flip(dx), Left];
      assert g + [Flip(dx)] + [Right] == g + [Flip(dx), Right];
      if nodes[ChildOf(nodes[w], dx)].color == Black && nodes[ChildOf(nodes[w], Flip(dx))].color == Black {
        assert ColorOf(At(t, g + [Flip(dx), Left])) == Black && ColorOf(At(t, g + [Flip(dx), Right])) == Black;
        RecolorAt(t, g + [Flip(dx)], Red, g);
        SetColor(w, Red, g + [Flip(dx)]);
        DeleteCase2(t, g, dx);
        x' := nodes[x].parent;
        xp' := g;
        ReprAt(nodes, root, tree, NONE, g);
      } else {
        x' := DeleteStepRotate(x, w, dx, g);
        xp' := [];
      }
    }

    /** One pass of the `delete_fix` loop, entered with x BLACK and not the
        root: after an optional case 1, either x moves up (case 2) or the
        shortfall is made up and x becomes the root (cases 3 and 4). */
    method DeleteStep(x: nat, ghost xp: seq<Dir>) returns (x': nat, ghost xp': seq<Dir>)
      requires DelFixing(x, xp) && xp != [] && ColorOf(At(tree, xp)) == Black
      modifies this
      ensures DelFixing(x', xp')
      ensures |xp'| < |xp| || (|xp'| == |xp| && ColorOf(At(tree, xp')) == Red)
      ensures Keys(tree) == old(Keys(tree)) && Ids(tree) == old(Ids(tree)) && |nodes| == |old(nodes)|
    {
      ghost var t := tree;
      ghost var g := xp[..|xp| - 1];
      ghost var dg := xp[|xp| - 1];
      assert xp == g + [dg];
      DeleteLoopSite(nodes, root, t, g, dg, x);
      var p: nat := nodes[x].parent;
      var dx := if x == nodes[p].left then Left else Right;
      assert dx == dg;
      var w := ChildOf(nodes[p], Flip(dx));
      if nodes[w].color == Red {
        w, g := DeleteStepRed(x, p, w, dx, g);
      }
      x', xp' := DeleteStepBlack(x, w, dx, g);
    }

    /** `delete_fix`: moves the extra BLACK up until x is RED or the root, then
        paints x BLACK; the result is a red-black tree with the same keys. */
    method DeleteFixup(x0: nat, ghost xp0: seq<Dir>)
      requires DelFixing(x0, xp0)
      modifies this
      ensures Valid() && IsRedBlack(tree)
      ensures Keys(tree) == old(Keys(tree)) && Ids(tree) == old(Ids(tree)) && |nodes| == |old(nodes)|
    {
      var x: nat := x0;
      ghost var xp := xp0;
      ghost var t := tree;
      ReprAt(nodes, root, tree, NONE, xp);
      ColorLink(nodes, x, At(tree, xp), ParentId(tree, xp, NONE));
      if xp != [] && x != NIL {
        BelowRootId(tree, xp);
      }
      while x != root && nodes[x].color == Black
        invariant DelFixing(x, xp)
        invariant x != root <==> xp != []
        invariant nodes[x].color == ColorOf(At(tree, xp))
        invariant Keys(tree) == old(Keys(tree)) && Ids(tree) == old(Ids(tree)) && |nodes| == |old(nodes)|
        decreases |xp| + (if ColorOf(At(tree, xp)) == Black then 1 else 0)
      {
        x, xp := DeleteStep(x, xp);
        ReprAt(nodes, root, tree, NONE, xp);
        ColorLink(nodes, x, At(tree, xp), ParentId(tree, xp, NONE));
        if xp != [] && x != NIL {
          BelowRootId(tree, xp);
        }
      }
      FixExit(tree, xp);
      SetColor(x, Black, xp);
    }

    /** `transplant`: `v` takes `u`'s place under `u`'s parent (or as the
        root), and `v`'s parent field is set even when `v` is the sentinel. */
    method Transplant(u: nat, v: nat)
      requires u < |nodes| && v < |nodes| && (nodes[u].parent == NONE || 0 <= nodes[u].parent < |nodes|)
      modifies this
      ensures nodes == Transplanted(old(nodes), u, v) && tree == old(tree)
      ensures root == if old(nodes[u].parent) == NONE then v else old(root)
    {
      var pu := nodes[u].parent;
      if pu == NONE {
        root := v;
      } else if u == nodes[pu].left {
        nodes := nodes[pu := nodes[pu].(left := v)];
      } else {
        nodes := nodes[pu := nodes[pu].(right := v)];
      }
      nodes := nodes[v := nodes[v].(parent := pu)];
    }

    /** `minimum`: follows left links from the non-sentinel node `n`, which
        spells `s`, to its leftmost node, which holds the smallest key of `s`. */
    method Minimum(n: nat, ghost s: Tree, ghost par: int) returns (m: nat)
      requires Valid() && Repr(nodes, n, s, par) && s.Node?
      ensures m == MinOf(s).id && m < |nodes| && nodes[m].key == Keys(s)[0]
    {
      m := n;
      ghost var u := s;
      ghost var pu := par;
      while nodes[m].left != NIL
        invariant Repr(nodes, m, u, pu) && u.Node? && MinOf(u) == MinOf(s)
        decreases u
      {
        pu := m;
        m := nodes[m].left;
        u := u.left;
      }
      MinOfAt(s);
    }

    /** `search`: the BST descent for `key`; the sentinel when it is absent,
        otherwise a node holding it, at the ghost position `P`. */
    method Search(key: int) returns (z: nat, ghost P: seq<Dir>)
      requires Invariant()
      ensures ValidPath(tree, P) && z == RootId(At(tree, P))
      ensures z == NIL <==> key !in Keys(tree)
      ensures z != NIL ==> At(tree, P).Node? && At(tree, P).key == key
    {
      z := root;
      P := [];
      while z != NIL
        invariant ValidPath(tree, P) && z == RootId(At(tree, P))
        invariant forall v :: v in Before(tree, P) ==> v < key
        invariant forall v :: v in After(tree, P) ==> key < v
        decreases At(tree, P)
      {
        ReprAt(nodes, root, tree, NONE, P);
        ghost var sp := At(tree, P);
        KeysPlug(tree, P, Leaf);
        if key == nodes[z].key {
          assert key in Keys(sp);
          return;
        }
        SortedAround(tree, P);
        ghost var d := if key < nodes[z].key then Left else Right;
        BeforeAfterStep(tree, P, d);
        if d == Left {
          forall v | v in After(tree, P + [d]) ensures key < v {
            if v != sp.key {
              assert v in Keys(sp.right) + After(tree, P);
            }
          }
        }
        if key < nodes[z].key {
          z := nodes[z].left;
        } else {
          z := nodes[z].right;
        }
        P := P + [d];
      }
      ReprAt(nodes, root, tree, NONE, P);
      KeysPlug(tree, P, Leaf);
    }

    /** The boolean `search` of rbt_vs_binomial.py: the same descent,
        answering only whether `key` was met. */
    method Contains(key: int) returns (found: bool)
      requires Invariant()
      ensures found <==> key in Keys(tree)
    {
      var z;
      ghost var P;
      z, P := Search(key);
      found := z != NIL;
    }

    /** `delete` when `z` (at `Pz`) has no child on side `e`: its other
        child `x` takes its place. */
    method SpliceOne(z: nat, e: Dir, ghost Pz: seq<Dir>) returns (x: nat)
      requires Valid() && ValidPath(tree, Pz) && At(tree, Pz).Node? && At(tree, Pz).id == z
      requires Child(At(tree, Pz), e).Leaf?
      modifies this
      ensures Valid() && tree == Plug(old(tree), Pz, Child(old(At(tree, Pz)), Flip(e)))
      ensures x == RootId(Child(old(At(tree, Pz)), Flip(e))) && x < |nodes|
      ensures nodes[x].parent == ParentId(old(tree), Pz, NONE)
      ensures |nodes| == |old(nodes)| && z < |nodes| && x < |nodes|
      ensures old(nodes[z].parent) == NONE || 0 <= old(nodes[z].parent) < |nodes|
      ensures nodes == Transplanted(old(nodes), z, x)
    {
      ghost var t := tree;
      Site(nodes, root, t, Pz);
      x := ChildOf(nodes[z], Flip(e));
      ghost var n1 := nodes;
      Transplant(z, x);
      SpliceOneArena(n1, nodes, old(root), root, t, Pz, e);
      OneChildContents(t, Pz, e);
      tree := Plug(t, Pz, Child(At(t, Pz), Flip(e)));
    }

    /** The last writes of `delete`'s two-children case: `transplant(z, y)`,
        then `y` takes `z`'s left subtree and colour. */
    method Attach(z: nat, y: nat)
      requires z < |nodes| && y < |nodes| && z != y && nodes[z].left < |nodes| && nodes[z].left != z
      requires nodes[z].parent == NONE || (0 <= nodes[z].parent < |nodes| && nodes[z].parent != z)
      modifies this
      ensures nodes == Attached(old(nodes), z, y) && tree == old(tree)
      ensures root == if old(nodes[z].parent) == NONE then y else old(root)
    {
      Transplant(z, y);
      nodes := nodes[y := nodes[y].(left := nodes[z].left)];
      var zl := nodes[y].left;
      nodes := nodes[zl := nodes[zl].(parent := y)];
      nodes := nodes[y := nodes[y].(color := nodes[z].color)];
    }

    /** `delete` when `z` (at `Pz`) has two children and its successor `y`
        is its right child: `x = y.right` stays below `y`, whose parent field
        is written (also when `x` is the sentinel), and `y` takes `z`'s place. */
    method SuccessorNear(z: nat, y: nat, ghost Pz: seq<Dir>) returns (x: nat)
      requires Valid() && ValidPath(tree, Pz) && At(tree, Pz).Node? && At(tree, Pz).id == z
      requires At(tree, Pz).left.Node? && At(tree, Pz).right.Node?
      requires MinPath(At(tree, Pz).right) == [] && y == At(tree, Pz).right.id
      modifies this
      ensures Valid() && tree == Plug(old(tree), Pz, Spliced(old(At(tree, Pz))))
      ensures var xp := SplicedPath(old(At(tree, Pz)), Pz);
        ValidPath(tree, xp) && x == RootId(At(tree, xp)) && x < |nodes| &&
        nodes[x].parent == ParentId(tree, xp, NONE)
      ensures |nodes| == |old(nodes)| && nodes[NIL].color == old(nodes[NIL].color)
    {
      ghost var t := tree;
      ghost var sz := At(t, Pz);
      Site(nodes, root, t, Pz);
      SuccessorSite(nodes, root, t, Pz);
      x := nodes[y].right;
      ghost var a0 := nodes;
      ghost var r0 := root;
      nodes := nodes[x := nodes[x].(parent := y)];
      Attach(z, y);
      NearArena(a0, r0, t, Pz, nodes, root);
      tree := Plug(t, Pz, Spliced(sz));
    }

    /** The first writes of `delete` when `z` (at `Pz`) has two children and
        its successor `y` lies deeper: `transplant(y, y.right)`, then `y`
        takes `z`'s right subtree. Returns `x = y.right` and, as ghosts, the
        arena and tree right after the transplant. */
    method DeepDetach(z: nat, y: nat, ghost Pz: seq<Dir>) returns (x: nat, ghost a2: seq<NodeRec>, ghost r2: nat)
      requires Valid() && ValidPath(tree, Pz) && At(tree, Pz).Node? && At(tree, Pz).id == z
      requires At(tree, Pz).left.Node? && At(tree, Pz).right.Node?
      requires MinPath(At(tree, Pz).right) != [] && y == MinOf(At(tree, Pz).right).id
      modifies this
      ensures var sz := old(At(tree, Pz));
        var ys := MinOf(sz.right);
        var yp := Pz + [Right] + MinPath(sz.right);
        var t1 := Plug(old(tree), yp, ys.right);
        tree == t1 && Repr(a2, r2, t1, NONE) && UniqueIds(t1) && root == r2 &&
        ValidPath(t1, Pz) && At(t1, Pz) == Node(sz.color, sz.left, sz.key, z, Spliced(sz).right) &&
        x == RootId(ys.right) && x < |nodes| && nodes[x].parent == ParentId(old(tree), yp, NONE)
      ensures var s1 := At(tree, Pz);
        |nodes| == |a2| && Agree(a2, nodes, Outer(tree, Pz) + Ids(s1.left) + {z}) &&
        0 < y < |nodes| && y !in Outer(tree, Pz) && y !in Ids(s1.left) && y != z && y !in Ids(s1.right) &&
        Repr(nodes, RootId(s1.right), s1.right, y) && nodes[y].right == RootId(s1.right) &&
        Ids(s1.right) !! Outer(tree, Pz) && Ids(s1.right) !! Ids(s1.left) &&
        nodes[y].key == MinOf(old(At(tree, Pz)).right).key
      ensures x != y && x != RootId(At(tree, Pz).left) && x !in Outer(tree, Pz)
      ensures |nodes| == |old(nodes)| && nodes[NIL].color == old(nodes[NIL].color)
    {
      ghost var t := tree;
      ghost var sz := At(t, Pz);
      ghost var r := sz.right;
      ghost var pm := MinPath(r);
      ghost var ys := MinOf(r);
      ghost var yp := Pz + [Right] + pm;
      SuccessorSite(nodes, root, t, Pz);
      OneChildContents(t, yp, Left);
      x := SpliceOne(y, Left, yp);
      a2 := nodes;
      r2 := root;
      DeepX(a2, r2, t, Pz);
      ghost var t1 := tree;
      Site(a2, root, t1, Pz);
      nodes := nodes[y := nodes[y].(right := nodes[z].right)];
      var zr := nodes[y].right;
      nodes := nodes[zr := nodes[zr].(parent := y)];
      DeepAdopt(a2, nodes, r2, t1, Pz, y, zr);
    }

    /** `delete` when `z` (at `Pz`) has two children and its successor `y`
        lies deeper: `transplant(y, y.right)`, then `y` takes `z`'s right
        subtree, then `z`'s place. */
    method SuccessorDeep(z: nat, y: nat, ghost Pz: seq<Dir>) returns (x: nat)
      requires Valid() && ValidPath(tree, Pz) && At(tree, Pz).Node? && At(tree, Pz).id == z
      requires At(tree, Pz).left.Node? && At(tree, Pz).right.Node?
      requires MinPath(At(tree, Pz).right) != [] && y == MinOf(At(tree, Pz).right).id
      modifies this
      ensures Valid() && tree == Plug(old(tree), Pz, Spliced(old(At(tree, Pz))))
      ensures var xp := SplicedPath(old(At(tree, Pz)), Pz);
        ValidPath(tree, xp) && x == RootId(At(tree, xp)) && x < |nodes| &&
        nodes[x].parent == ParentId(tree, xp, NONE)
      ensures |nodes| == |old(nodes)| && nodes[NIL].color == old(nodes[NIL].color)
    {
      ghost var t := tree;
      ghost var sz := At(t, Pz);
      DeepShape(t, Pz);
      DeepXParent(t, Pz);
      SplicedPlug(t, Pz);
      TwoChildrenContents(t, Pz);
      ghost var a2, r2;
      x, a2, r2 := DeepDetach(z, y, Pz);
      ghost var t1 := tree;
      ghost var a4 := nodes;
      Site(a2, r2, t1, Pz);
      assert a4[z] == a2[z];
      Attach(z, y);
      AttachArena(a2, a4, nodes, r2, root, t1, Pz, y, At(t1, Pz).right);
      tree := Plug(t, Pz, Spliced(sz));
    }

    /** `delete` when `z` (at `Pz`) has two children: `y = minimum(z.right)`
        takes `z`'s place. Returns `x = y.right`, its position, and `y`'s
        original colour. */
    method SpliceSuccessor(z: nat, ghost Pz: seq<Dir>) returns (x: nat, ghost xp: seq<Dir>, yColor: Color)
      requires Valid() && ValidPath(tree, Pz) && At(tree, Pz).Node? && At(tree, Pz).id == z
      requires At(tree, Pz).left.Node? && At(tree, Pz).right.Node?
      modifies this
      ensures Valid() && tree == Plug(old(tree), Pz, Spliced(old(At(tree, Pz))))
      ensures xp == SplicedPath(old(At(tree, Pz)), Pz) && ValidPath(tree, xp)
      ensures x == RootId(At(tree, xp)) && x < |nodes| && nodes[x].parent == ParentId(tree, xp, NONE)
      ensures yColor == MinOf(old(At(tree, Pz)).right).color
      ensures |nodes| == |old(nodes)| && nodes[NIL].color == old(nodes[NIL].color)
    {
      ghost var t := tree;
      ghost var sz := At(t, Pz);
      Site(nodes, root, t, Pz);
      SuccessorPath(t, Pz);
      SuccessorSite(nodes, root, t, Pz);
      var y := Minimum(nodes[z].right, sz.right, z);
      yColor := nodes[y].color;
      xp := SplicedPath(sz, Pz);
      if nodes[y].parent == z {
        x := SuccessorNear(z, y, Pz);
      } else {
        x := SuccessorDeep(z, y, Pz);
      }
    }

    /** What the first half of `delete` leaves: `z` (at `Pz` in `t`) has
        left, its key has left the in-order sequence, and the fix-up may
        start at `x` (at `xp`) when the node that left the tree's shape was
        BLACK; otherwise the tree is already red-black. */
    ghost predicate Removed(t: Tree, Pz: seq<Dir>, x: nat, xp: seq<Dir>, yColor: Color)
      requires ValidPath(t, Pz) && At(t, Pz).Node?
      reads this
    {
      Valid() &&
      RemovedAt(Keys(t), Keys(tree), |Before(t, Pz)| + |Keys(At(t, Pz).left)|, At(t, Pz).key) &&
      (yColor == Black ==> DelFixing(x, xp)) &&
      (yColor == Red ==> IsRedBlack(tree))
    }

    /** `delete` when `z` has no child on side `e`. */
    method RemoveOne(z: nat, e: Dir, ghost Pz: seq<Dir>) returns (x: nat, ghost xp: seq<Dir>, yColor: Color)
      requires Invariant() && ValidPath(tree, Pz) && At(tree, Pz).Node? && At(tree, Pz).id == z
      requires Child(At(tree, Pz), e).Leaf?
      modifies this
      ensures ValidPath(old(tree), Pz) && Removed(old(tree), Pz, x, xp, yColor) && |nodes| == |old(nodes)|
    {
      ghost var t := tree;
      Site(nodes, root, t, Pz);
      yColor := nodes[z].color;
      x := SpliceOne(z, e, Pz);
      xp := Pz;
      OneRemoved(t, Pz, e, tree, yColor);
    }

    /** `delete` when `z` has two children. */
    method RemoveTwo(z: nat, ghost Pz: seq<Dir>) returns (x: nat, ghost xp: seq<Dir>, yColor: Color)
      requires Invariant() && ValidPath(tree, Pz) && At(tree, Pz).Node? && At(tree, Pz).id == z
      requires At(tree, Pz).left.Node? && At(tree, Pz).right.Node?
      modifies this
      ensures ValidPath(old(tree), Pz) && Removed(old(tree), Pz, x, xp, yColor) && |nodes| == |old(nodes)|
    {
      ghost var t := tree;
      x, xp, yColor := SpliceSuccessor(z, Pz);
      TwoRemoved(t, Pz, tree, xp, yColor);
    }

    /** The first half of `delete`: the node `z` at `Pz` leaves the tree. */
    method RemoveNode(z: nat, ghost Pz: seq<Dir>) returns (x: nat, ghost xp: seq<Dir>, yColor: Color)
      requires Invariant() && ValidPath(tree, Pz) && At(tree, Pz).Node? && At(tree, Pz).id == z
      modifies this
      ensures ValidPath(old(tree), Pz) && Removed(old(tree), Pz, x, xp, yColor) && |nodes| == |old(nodes)|
    {
      Site(nodes, root, tree, Pz);
      if nodes[z].left == NIL {
        x, xp, yColor := RemoveOne(z, Left, Pz);
      } else if nodes[z].right == NIL {
        x, xp, yColor := RemoveOne(z, Right, Pz);
      } else {
        x, xp, yColor := RemoveTwo(z, Pz);
      }
    }

    /** `delete`: when `key` is absent nothing changes (the source prints
        "Key not found!"); otherwise one node holding `key` leaves the tree,
        then `delete_fix` restores the red-black properties. */
    method Delete(key: int) returns (found: bool)
      requires Invariant()
      modifies this
      ensures Invariant()
      ensures found <==> key in old(Keys(tree))
      ensures Keys(tree) == RemoveFirst(old(Keys(tree)), key)
      ensures !found ==> nodes == old(nodes) && root == old(root) && tree == old(tree)
    {
      var z;
      ghost var Pz;
      z, Pz := Search(key);
      if z == NIL {
        RemoveFirstAbsent(Keys(tree), key);
        return false;
      }
      ghost var t := tree;
      var x, yColor;
      ghost var xp;
      x, xp, yColor := RemoveNode(z, Pz);
      RemoveFirstSorted(Keys(t), Keys(tree), |Before(t, Pz)| + |Keys(At(t, Pz).left)|, key);
      if yColor == Black {
        DeleteFixup(x, xp);
      }
      found := true;
    }

    /** `inorder(node)`: the keys and colours below the cell `n`, which spells
        `s`, in order. */
    method InOrder(n: nat, ghost s: Tree, ghost par: int) returns (out: seq<(int, Color)>)
      requires Valid() && Repr(nodes, n, s, par)
      ensures out == Listing(s)
      decreases s
    {
      if n != NIL {
        var l := InOrder(nodes[n].left, s.left, n);
        var r := InOrder(nodes[n].right, s.right, n);
        out := l + [(nodes[n].key, nodes[n].color)] + r;
      } else {
        out := [];
      }
    }
  }
}

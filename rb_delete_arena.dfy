/** The cell writes of `transplant` and `delete` (rbt_delete.py) and the
    abstract trees the arena spells after them. */
module RbDeleteArena {
  import opened Sequences
  import opened RbTrees
  import opened RbArena
  import opened RbSplice

  /** The arena after `transplant(u, v)`: `u`'s parent (or the root, when `u`
      has none) now points at `v`, and `v`'s parent field names `u`'s parent,
      even when `v` is the sentinel. */
  ghost function Transplanted(n: seq<NodeRec>, u: nat, v: nat): seq<NodeRec>
    requires u < |n| && v < |n| && (n[u].parent == NONE || 0 <= n[u].parent < |n|)
  {
    var pu := n[u].parent;
    var m := if pu == NONE then n else n[pu := SetChild(n[pu], if u == n[pu].left then Left else Right, v)];
    m[v := m[v].(parent := pu)]
  }

  /** The arena after the last writes of `delete`'s two-children case:
      `transplant(z, y)`, then `y` takes `z`'s left subtree and colour. */
  ghost function Attached(n: seq<NodeRec>, z: nat, y: nat): seq<NodeRec>
    requires z < |n| && y < |n| && (n[z].parent == NONE || 0 <= n[z].parent < |n|) && n[z].left < |n|
  {
    var b := Transplanted(n, z, y);
    var zl := n[z].left;
    var b1 := b[y := b[y].(left := zl)];
    var b2 := b1[zl := b1[zl].(parent := y)];
    b2[y := b2[y].(color := n[z].color)]
  }

  /** A subtree `s` hung where the node at `P` was: the parent's child slot
      (or the root) now names `s`'s root, and no other outside cell changed. */
  lemma {:induction false} Hang(n1: seq<NodeRec>, n2: seq<NodeRec>, root: nat, newRoot: nat, t: Tree, P: seq<Dir>, s: Tree)
    requires Repr(n1, root, t, NONE) && UniqueIds(t) && ValidPath(t, P)
    requires Repr(n2, RootId(s), s, ParentId(t, P, NONE))
    requires Agree(n1, n2, Outer(t, P) - {ParentId(t, P, NONE)})
    requires P != [] ==> var q := ParentId(t, P, NONE);
      0 <= q < |n1| && q < |n2| && n2[q] == SetChild(n1[q], P[|P| - 1], RootId(s))
    requires newRoot == if P == [] then RootId(s) else root
    ensures Repr(n2, newRoot, Plug(t, P, s), NONE)
  {
    if P != [] {
      ReprPlug(n1, n2, root, t, NONE, P, s);
    }
  }

  /** The facts about the node at a non-root position that `transplant` uses. */
  lemma {:induction false} Site(n1: seq<NodeRec>, root: nat, t: Tree, P: seq<Dir>)
    requires Repr(n1, root, t, NONE) && UniqueIds(t) && ValidPath(t, P) && At(t, P).Node?
    ensures var sz := At(t, P);
      var pu := ParentId(t, P, NONE);
      0 < sz.id < |n1| && n1[sz.id].parent == pu &&
      Repr(n1, n1[sz.id].left, sz.left, sz.id) && Repr(n1, n1[sz.id].right, sz.right, sz.id) &&
      n1[sz.id].key == sz.key && n1[sz.id].color == sz.color &&
      (forall j :: j in Ids(t) ==> 0 < j < |n1|) &&
      Outer(t, P) !! Ids(sz) && UniqueIds(sz) && Ids(t) == Outer(t, P) + Ids(sz) &&
      Ids(sz) == Ids(sz.left) + {sz.id} + Ids(sz.right) &&
      Ids(sz.left) !! Ids(sz.right) && sz.id !in Ids(sz.left) && sz.id !in Ids(sz.right) &&
      (P == [] <==> pu == NONE) &&
      (P == [] ==> root == sz.id) &&
      (P != [] ==> 0 < pu < |n1| && pu in Outer(t, P) &&
                   (sz.id == n1[pu].left <==> P[|P| - 1] == Left) &&
                   ChildOf(n1[pu], P[|P| - 1]) == sz.id)
  {
    ReprAt(n1, root, t, NONE, P);
    ReprIds(n1, root, t, NONE);
    IdsPlug(t, P, Leaf);
    var sz := At(t, P);
    assert sz.id in Ids(sz);
    if P != [] {
      ParentSide(n1, root, t, P);
    } else {
      ReprIds(n1, root, t, NONE);
    }
  }

  /** `transplant(z, c)` for a node `z` at `P` with no child on side `e`:
      its other child `c` takes its place. */
  lemma {:induction false} SpliceOneArena(n1: seq<NodeRec>, n2: seq<NodeRec>, root: nat, newRoot: nat, t: Tree, P: seq<Dir>, e: Dir)
    requires Repr(n1, root, t, NONE) && UniqueIds(t) && ValidPath(t, P) && At(t, P).Node?
    requires Child(At(t, P), e).Leaf?
    requires var u := At(t, P).id;
      var v := RootId(Child(At(t, P), Flip(e)));
      u < |n1| && v < |n1| && (n1[u].parent == NONE || 0 <= n1[u].parent < |n1|) &&
      n2 == Transplanted(n1, u, v) && newRoot == (if n1[u].parent == NONE then v else root)
    ensures var c := Child(At(t, P), Flip(e));
      Repr(n2, newRoot, Plug(t, P, c), NONE) && |n2| == |n1| && n2[NIL].color == n1[NIL].color &&
      n2[RootId(c)].parent == ParentId(t, P, NONE)
  {
    var sz := At(t, P);
    var c := Child(sz, Flip(e));
    var u := sz.id;
    var v := RootId(c);
    var pu := ParentId(t, P, NONE);
    Site(n1, root, t, P);
    assert Repr(n1, v, c, u);
    ReprIds(n1, v, c, u);
    assert pu !in Ids(c);
    ReprReparent(n1, n2, v, c, u, pu);
    Hang(n1, n2, root, newRoot, t, P, c);
  }

  /** `delete`'s last writes: `y`, a cell outside the subtree above `z` and
      outside `z`'s left subtree, already heads `Rnew`; it takes `z`'s place,
      left subtree and colour. */
  lemma {:induction false} AttachArena(a0: seq<NodeRec>, a: seq<NodeRec>, n2: seq<NodeRec>, root: nat, newRoot: nat,
                    t: Tree, P: seq<Dir>, y: nat, rnew: Tree)
    requires Repr(a0, root, t, NONE) && UniqueIds(t) && ValidPath(t, P) && At(t, P).Node?
    requires At(t, P).left.Node?
    requires var sz := At(t, P);
      |a| == |a0| && Agree(a0, a, Outer(t, P) + Ids(sz.left) + {sz.id}) &&
      0 < y < |a| && y !in Outer(t, P) && y !in Ids(sz.left) && y != sz.id && y !in Ids(rnew) &&
      Repr(a, RootId(rnew), rnew, y) && a[y].right == RootId(rnew) &&
      Ids(rnew) !! Outer(t, P) && Ids(rnew) !! Ids(sz.left)
    requires var z := At(t, P).id;
      z < |a| && (a[z].parent == NONE || 0 <= a[z].parent < |a|) && a[z].left < |a| &&
      n2 == Attached(a, z, y) && newRoot == (if a[z].parent == NONE then y else root)
    ensures var sz := At(t, P);
      Repr(n2, newRoot, Plug(t, P, Node(sz.color, sz.left, a[y].key, y, rnew)), NONE)
    ensures |n2| == |a| && n2[NIL] == a[NIL]
    ensures var zl := RootId(At(t, P).left);
      forall j :: 0 <= j < |a| && j != y && j != zl && j !in Outer(t, P) ==> n2[j] == a[j]
  {
    var sz := At(t, P);
    var z := sz.id;
    var L := sz.left;
    var pz := ParentId(t, P, NONE);
    Site(a0, root, t, P);
    assert z in Outer(t, P) + Ids(L) + {z};
    assert a[z] == a0[z];
    var zl := a[z].left;
    assert L.id in Ids(L);
    assert zl == L.id;
    var s := Node(sz.color, L, a[y].key, y, rnew);
    if pz != NONE {
      assert pz in Outer(t, P) + Ids(L) + {z};
      assert a[pz] == a0[pz];
    }
    assert forall j :: 0 <= j < |a| && j != y && j != zl && j != pz ==> n2[j] == a[j];
    assert n2[y] == a[y].(parent := pz, left := zl, color := sz.color);
    assert n2[zl] == a[zl].(parent := y);
    assert pz != NONE ==> n2[pz] == SetChild(a0[pz], P[|P| - 1], y);
    assert Repr(n2, zl, L, y) by {
      assert Agree(a0, a, Ids(L));
      ReprFrame(a0, a, zl, L, z);
      ReprReparent(a, n2, zl, L, z, y);
    }
    assert Repr(n2, RootId(rnew), rnew, y) by {
      ReprIds(a, RootId(rnew), rnew, y);
      forall j | j in Ids(rnew)
        ensures j < |a| && j < |n2| && n2[j] == a[j]
      {
        assert j !in Ids(L) && j !in Outer(t, P);
      }
      ReprFrame(a, n2, RootId(rnew), rnew, y);
    }
    assert Repr(n2, y, s, pz);
    assert Agree(a0, n2, Outer(t, P) - {pz}) by {
      forall j | j in Outer(t, P) - {pz}
        ensures j < |a0| && j < |n2| && n2[j] == a0[j]
      {
        assert j in Outer(t, P) + Ids(L) + {z};
      }
    }
    Hang(a0, n2, root, newRoot, t, P, s);
  }

  /** Where `y = minimum(z.right)` is, for a node `z` at `Pz` with a right child. */
  lemma {:induction false} SuccessorPath(t: Tree, Pz: seq<Dir>)
    requires UniqueIds(t) && ValidPath(t, Pz) && At(t, Pz).Node? && At(t, Pz).right.Node?
    ensures var sz := At(t, Pz);
      var r := sz.right;
      var ys := MinOf(r);
      var yp := Pz + [Right] + MinPath(r);
      ValidPath(t, yp) && At(t, yp) == ys && ys.id in Ids(r) &&
      (MinPath(r) == [] <==> ParentId(t, yp, NONE) == sz.id) &&
      (MinPath(r) == [] ==> ys == r) &&
      (MinPath(r) != [] ==> MinPath(r)[|MinPath(r)| - 1] == Left)
  {
    var sz := At(t, Pz);
    var r := sz.right;
    var pm := MinPath(r);
    var ys := MinOf(r);
    var q := [Right] + pm;
    var yp := Pz + q;
    assert yp == Pz + [Right] + pm;
    MinOfAt(r);
    MinPathValid(r);
    assert q[0] == Right && q[1..] == pm;
    assert ValidPath(sz, q) && At(sz, q) == ys;
    ValidPathAppend(t, Pz, q);
    AtAppend(t, Pz, q);
    IdsPlug(t, Pz, Leaf);
    IdsPlug(r, pm, Leaf);
    assert ys.id in Ids(ys);
    if pm == [] {
      assert yp == Pz + [Right];
      ParentIdStep(t, Pz, Right, NONE);
    } else {
      DeepParent(t, Pz);
    }
  }

  /** When `y` is not `z`'s right child, `y`'s parent lies inside `z`'s
      right subtree, and `y` is its left child. */
  lemma {:induction false} DeepParent(t: Tree, Pz: seq<Dir>)
    requires UniqueIds(t) && ValidPath(t, Pz) && At(t, Pz).Node? && At(t, Pz).right.Node?
    requires MinPath(At(t, Pz).right) != []
    ensures var r := At(t, Pz).right;
      var pm := MinPath(r);
      var pm' := pm[..|pm| - 1];
      ValidPath(r, pm') && At(r, pm').Node? && pm == pm' + [Left] &&
      ValidPath(t, Pz + [Right] + pm') && At(t, Pz + [Right] + pm') == At(r, pm') &&
      ParentId(t, Pz + [Right] + pm, NONE) == At(r, pm').id &&
      At(r, pm').id in Ids(r) && At(t, Pz).id !in Ids(r)
  {
    var sz := At(t, Pz);
    var r := sz.right;
    var pm := MinPath(r);
    MinPathValid(r);
    var k := |pm| - 1;
    var pm' := pm[..k];
    LeftPathAll(|pm|, k);
    ValidPathPrefix(r, pm, k);
    assert pm' + [Left] == pm;
    var q := [Right] + pm';
    assert q[0] == Right && q[1..] == pm';
    assert ValidPath(sz, q) && At(sz, q) == At(r, pm');
    ValidPathAppend(t, Pz, q);
    AtAppend(t, Pz, q);
    assert Pz + [Right] + pm' == Pz + q;
    assert Pz + [Right] + pm == (Pz + q) + [Left];
    ParentIdStep(t, Pz + q, Left, NONE);
    IdsPlug(r, pm', Leaf);
    assert At(r, pm').id in Ids(At(r, pm'));
    IdsPlug(t, Pz, Leaf);
  }

  /** The cell of `y = minimum(z.right)`. */
  lemma {:induction false} SuccessorSite(n1: seq<NodeRec>, root: nat, t: Tree, Pz: seq<Dir>)
    requires Repr(n1, root, t, NONE) && UniqueIds(t) && ValidPath(t, Pz) && At(t, Pz).Node?
    requires At(t, Pz).right.Node?
    ensures var ys := MinOf(At(t, Pz).right);
      var yp := Pz + [Right] + MinPath(At(t, Pz).right);
      ValidPath(t, yp) && At(t, yp) == ys &&
      0 < ys.id < |n1| && n1[ys.id].parent == ParentId(t, yp, NONE) &&
      n1[ys.id].left == NIL && n1[ys.id].right == RootId(ys.right) &&
      n1[ys.id].key == ys.key && n1[ys.id].color == ys.color &&
      Repr(n1, RootId(ys.right), ys.right, ys.id)
  {
    SuccessorPath(t, Pz);
    ReprAt(n1, root, t, NONE, Pz + [Right] + MinPath(At(t, Pz).right));
  }

  /** After `transplant(y, y.right)`, `z` (still in place) has the right
      subtree the spliced tree gives to `y`, and hanging the spliced subtree
      at `z`'s place gives the same tree as in the original. */
  lemma {:induction false} DeepShape(t: Tree, Pz: seq<Dir>)
    requires ValidPath(t, Pz) && At(t, Pz).Node? && At(t, Pz).right.Node?
    ensures var sz := At(t, Pz);
      var r := sz.right;
      var ys := MinOf(r);
      var t1 := Plug(t, Pz + [Right] + MinPath(r), ys.right);
      ValidPath(t1, Pz) && At(t1, Pz) == Node(sz.color, sz.left, sz.key, sz.id, Spliced(sz).right) &&
      Plug(t1, Pz, Spliced(sz)) == Plug(t, Pz, Spliced(sz))
  {
    var sz := At(t, Pz);
    var r := sz.right;
    var pm := MinPath(r);
    var ys := MinOf(r);
    MinOfAt(r);
    var q := [Right] + pm;
    assert q[0] == Right && q[1..] == pm;
    assert ValidPath(sz, q);
    var s1 := Plug(sz, q, ys.right);
    assert s1 == Node(sz.color, sz.left, sz.key, sz.id, Spliced(sz).right);
    Localize(t, Pz, sz, q, ys.right);
    PlugAt(t, Pz);
    assert Pz + [Right] + pm == Pz + q;
    AtPlug(t, Pz, s1);
    PlugPlug(t, Pz, s1, Spliced(sz));
  }

  /** The node that moves up keeps its parent when that parent is inside
      `z`'s right subtree. */
  lemma {:induction false} DeepXParent(t: Tree, Pz: seq<Dir>)
    requires UniqueIds(t) && ValidPath(t, Pz) && At(t, Pz).Node? && At(t, Pz).right.Node?
    requires MinPath(At(t, Pz).right) != []
    ensures var sz := At(t, Pz);
      var yp := Pz + [Right] + MinPath(sz.right);
      ParentId(Plug(t, Pz, Spliced(sz)), yp, NONE) == ParentId(t, yp, NONE)
  {
    var sz := At(t, Pz);
    var r := sz.right;
    var pm := MinPath(r);
    var ys := MinOf(r);
    var s := Spliced(sz);
    var t' := Plug(t, Pz, s);
    DeepParent(t, Pz);
    var k := |pm| - 1;
    var pm' := pm[..k];
    assert ValidPath(s.right, pm') && At(s.right, pm').Node? && At(s.right, pm').id == At(r, pm').id by {
      MinOfAt(r);
      PlugPrefix(r, pm, ys.right, k);
    }
    var q := [Right] + pm';
    assert ValidPath(t', Pz + q) && At(t', Pz + q) == At(s.right, pm') by {
      assert q[0] == Right && q[1..] == pm';
      assert ValidPath(s, q) && At(s, q) == At(s.right, pm');
      Localize(t, Pz, s, q, Leaf);
    }
    assert Pz + [Right] + pm == (Pz + q) + [Left] by {
      assert pm == pm' + [Left];
      PathRegroup(Pz, pm');
    }
    ParentIdStep(t', Pz + q, Left, NONE);
  }

  lemma {:induction false} PathRegroup(a: seq<Dir>, b: seq<Dir>)
    ensures a + [Right] + (b + [Left]) == (a + ([Right] + b)) + [Left]
  {
  }

  /** When `y` is `z`'s right child, the node that moves up hangs from `y`. */
  lemma {:induction false} NearXParent(t: Tree, Pz: seq<Dir>)
    requires ValidPath(t, Pz) && At(t, Pz).Node? && At(t, Pz).right.Node?
    requires MinPath(At(t, Pz).right) == []
    ensures var sz := At(t, Pz);
      var t' := Plug(t, Pz, Spliced(sz));
      Spliced(sz) == Node(sz.color, sz.left, sz.right.key, sz.right.id, sz.right.right) &&
      ParentId(t', Pz + [Right], NONE) == sz.right.id
  {
    var sz := At(t, Pz);
    AtPlug(t, Pz, Spliced(sz));
    ParentIdStep(Plug(t, Pz, Spliced(sz)), Pz, Right, NONE);
  }

  /** A node strictly inside the right subtree of the node at `Pz` is
      neither above it, nor in its left subtree, nor its right child. */
  lemma {:induction false} InsideRight(t: Tree, Pz: seq<Dir>, q: seq<Dir>)
    requires UniqueIds(t) && ValidPath(t, Pz) && At(t, Pz).Node?
    requires ValidPath(At(t, Pz).right, q) && At(At(t, Pz).right, q).Node? && q != []
    ensures var s := At(t, Pz);
      var w := At(s.right, q).id;
      ValidPath(t, Pz + [Right] + q) && At(t, Pz + [Right] + q) == At(s.right, q) &&
      w !in Outer(t, Pz) && w !in Ids(s.left) && w != s.right.id && w != s.id
  {
    var s := At(t, Pz);
    var p := [Right] + q;
    assert p[0] == Right && p[1..] == q;
    ValidPathAppend(t, Pz, p);
    AtAppend(t, Pz, p);
    assert Pz + [Right] + q == Pz + p;
    IdsPlug(t, Pz, Leaf);
    IdsPlug(s.right, q, Leaf);
    assert At(s.right, q).id in Ids(At(s.right, q));
    BelowRootId(s.right, q);
  }

  /** `y.right = z.right; y.right.parent = y` for a cell `y` that is no
      longer in the tree: `y` now heads `z`'s right subtree, and every cell
      `transplant(z, y)` and the writes after it rely on is as before. */
  lemma {:induction false} DeepAdopt(a2: seq<NodeRec>, a4: seq<NodeRec>, root: nat, t1: Tree, Pz: seq<Dir>, y: nat, zr: nat)
    requires Repr(a2, root, t1, NONE) && UniqueIds(t1) && ValidPath(t1, Pz) && At(t1, Pz).Node?
    requires At(t1, Pz).right.Node?
    requires 0 < y < |a2| && y !in Ids(t1)
    requires var z := At(t1, Pz).id;
      z < |a2| && zr == a2[z].right && zr < |a2| &&
      a4 == a2[y := a2[y].(right := zr)][zr := a2[y := a2[y].(right := zr)][zr].(parent := y)]
    ensures var s1 := At(t1, Pz);
      var z := s1.id;
      |a4| == |a2| && Agree(a2, a4, Outer(t1, Pz) + Ids(s1.left) + {z}) &&
      y !in Outer(t1, Pz) && y !in Ids(s1.left) && y != z && y !in Ids(s1.right) &&
      Repr(a4, RootId(s1.right), s1.right, y) && a4[y].right == RootId(s1.right) &&
      Ids(s1.right) !! Outer(t1, Pz) && Ids(s1.right) !! Ids(s1.left) &&
      a4[y].key == a2[y].key && zr == s1.right.id &&
      forall j :: 0 <= j < |a2| && j != y && j != zr ==> a4[j] == a2[j]
  {
    var s1 := At(t1, Pz);
    var z := s1.id;
    Site(a2, root, t1, Pz);
    assert zr == s1.right.id;
    assert s1.right.id in Ids(s1.right);
    ReprReparent(a2, a4, zr, s1.right, z, y);
    assert Agree(a2, a4, Outer(t1, Pz) + Ids(s1.left) + {z});
  }

  /** After `transplant(y, y.right)` in the deep case, `x = y.right` is
      neither `y`, nor `z`'s left child, nor above `z`. */
  lemma {:induction false} DeepX(a2: seq<NodeRec>, r2: nat, t: Tree, Pz: seq<Dir>)
    requires UniqueIds(t) && ValidPath(t, Pz) && At(t, Pz).Node?
    requires At(t, Pz).left.Node? && At(t, Pz).right.Node? && MinPath(At(t, Pz).right) != []
    requires var ys := MinOf(At(t, Pz).right);
      var t1 := Plug(t, Pz + [Right] + MinPath(At(t, Pz).right), ys.right);
      Repr(a2, r2, t1, NONE) && UniqueIds(t1) && ys.id != NIL
    ensures var sz := At(t, Pz);
      var ys := MinOf(sz.right);
      var t1 := Plug(t, Pz + [Right] + MinPath(sz.right), ys.right);
      var x := RootId(ys.right);
      ValidPath(t1, Pz) && At(t1, Pz) == Node(sz.color, sz.left, sz.key, sz.id, Spliced(sz).right) &&
      x != ys.id && x != RootId(sz.left) && x !in Outer(t1, Pz) && x != RootId(Spliced(sz).right)
  {
    var sz := At(t, Pz);
    var r := sz.right;
    var pm := MinPath(r);
    var ys := MinOf(r);
    var yp := Pz + [Right] + pm;
    var t1 := Plug(t, yp, ys.right);
    DeepShape(t, Pz);
    SuccessorPath(t, Pz);
    IdsPlug(t, Pz, Leaf);
    ReprIds(a2, r2, t1, NONE);
    IdsPlug(t1, Pz, Leaf);
    assert sz.left.id in Ids(sz.left);
    assert Spliced(sz).right.Node? && Spliced(sz).right.id in Ids(At(t1, Pz));
    assert sz.left.id in Ids(At(t1, Pz));
    if ys.right.Node? {
      IdsPlug(t, yp, Leaf);
      assert ys.right.id in Ids(ys.right);
      MinOfAt(r);
      AtPlug(r, pm, ys.right);
      InsideRight(t1, Pz, pm);
    }
  }

  lemma {:induction false} LeftPathAll(n: nat, k: nat)
    ensures |LeftPath(n)| == n
    ensures k < n ==> LeftPath(n)[k] == Left
  {
    if n > 0 {
      LeftPathAll(n - 1, if k > 0 then k - 1 else 0);
    }
  }
}

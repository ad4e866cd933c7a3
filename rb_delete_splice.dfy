/** What the first half of `delete` (rbt_delete.py) does to the abstract tree:
    the node `z` holding the key leaves the tree, replaced by its only child
    or by its in-order successor `y`, and the tree is left either red-black or
    one BLACK short at the position of `x`, the node that moved up. */
module RbSplice {
  import opened Sequences
  import opened RbTrees
  import opened RbArena
  import opened RbDeleteProps

  // ---------------------------------------------------------------------
  // Removing one key from the in-order sequence
  // ---------------------------------------------------------------------

  lemma {:induction false} RemovedMiddle(x: seq<int>, k: int, z: seq<int>)
    ensures RemovedAt(x + [k] + z, x + z, |x|, k)
  {
    var a := x + [k] + z;
    assert a[..|x|] == x;
    assert a[|x| + 1..] == z;
  }

  /** Replacing a subtree whose keys are `a + [k] + b` by one whose keys are
      `a + b` removes that `k` from the tree's keys. */
  lemma {:induction false} RemovedPlug(t: Tree, P: seq<Dir>, s: Tree, a: seq<int>, k: int, b: seq<int>)
    requires ValidPath(t, P) && Keys(At(t, P)) == a + [k] + b && Keys(s) == a + b
    ensures RemovedAt(Keys(t), Keys(Plug(t, P, s)), |Before(t, P)| + |a|, k)
  {
    var bf := Before(t, P);
    var af := After(t, P);
    assert Keys(t) == bf + (a + [k] + b) + af && Keys(Plug(t, P, s)) == bf + (a + b) + af by {
      KeysPlug(t, P, s);
    }
    RemovedInside(bf, a, k, b, af);
  }

  lemma {:induction false} RemovedInside(bf: seq<int>, a: seq<int>, k: int, b: seq<int>, af: seq<int>)
    ensures RemovedAt(bf + (a + [k] + b) + af, bf + (a + b) + af, |bf| + |a|, k)
  {
    assert bf + (a + [k] + b) + af == (bf + a) + [k] + (b + af);
    assert bf + (a + b) + af == (bf + a) + (b + af);
    RemovedMiddle(bf + a, k, b + af);
  }

  /** The root colour survives a plug below the root. */
  lemma {:induction false} PlugRootColor(t: Tree, P: seq<Dir>, s: Tree)
    requires ValidPath(t, P) && P != []
    ensures ColorOf(Plug(t, P, s)) == ColorOf(t)
  {
    PlugPrefix(t, P, s, 0);
    assert P[..0] == [];
  }

  // ---------------------------------------------------------------------
  // z has at most one child
  // ---------------------------------------------------------------------

  /** `z` at `Pz` has no child on side `e`: its other child takes its place.
      The keys lose `z`'s key and the nodes lose `z`. */
  lemma {:induction false} OneChildContents(t: Tree, Pz: seq<Dir>, e: Dir)
    requires UniqueIds(t) && ValidPath(t, Pz) && At(t, Pz).Node? && Child(At(t, Pz), e).Leaf?
    ensures var sz := At(t, Pz);
      var t' := Plug(t, Pz, Child(sz, Flip(e)));
      RemovedAt(Keys(t), Keys(t'), |Before(t, Pz)| + |Keys(sz.left)|, sz.key) &&
      Ids(t') == Ids(t) - {sz.id} && UniqueIds(t') &&
      ValidPath(t', Pz) && At(t', Pz) == Child(sz, Flip(e)) &&
      ParentId(t', Pz, NONE) == ParentId(t, Pz, NONE)
  {
    var sz := At(t, Pz);
    var c := Child(sz, Flip(e));
    OneChildKeys(t, Pz, e);
    OneChildIds(t, Pz, e);
    AtPlug(t, Pz, c);
    ParentIdPlug(t, Pz, c, NONE);
  }

  lemma {:induction false} OneChildKeys(t: Tree, Pz: seq<Dir>, e: Dir)
    requires ValidPath(t, Pz) && At(t, Pz).Node? && Child(At(t, Pz), e).Leaf?
    ensures var sz := At(t, Pz);
      RemovedAt(Keys(t), Keys(Plug(t, Pz, Child(sz, Flip(e)))), |Before(t, Pz)| + |Keys(sz.left)|, sz.key)
  {
    var sz := At(t, Pz);
    var c := Child(sz, Flip(e));
    assert Keys(sz) == Keys(sz.left) + [sz.key] + Keys(sz.right);
    if e == Left {
      assert Keys(c) == Keys(sz.left) + Keys(sz.right) by { assert Keys(sz.left) == []; }
    } else {
      assert Keys(c) == Keys(sz.left) + Keys(sz.right) by { assert Keys(sz.right) == []; }
    }
    RemovedPlug(t, Pz, c, Keys(sz.left), sz.key, Keys(sz.right));
  }

  lemma {:induction false} OneChildIds(t: Tree, Pz: seq<Dir>, e: Dir)
    requires UniqueIds(t) && ValidPath(t, Pz) && At(t, Pz).Node? && Child(At(t, Pz), e).Leaf?
    ensures var sz := At(t, Pz);
      var t' := Plug(t, Pz, Child(sz, Flip(e)));
      Ids(t') == Ids(t) - {sz.id} && UniqueIds(t')
  {
    var sz := At(t, Pz);
    var c := Child(sz, Flip(e));
    IdsPlug(t, Pz, c);
    assert Ids(c) == Ids(sz) - {sz.id} && UniqueIds(c);
  }

  /** ... and the tree is red-black again when `z` was RED, and otherwise one
      BLACK short where the child now is. */
  lemma {:induction false} OneChildBalance(t: Tree, Pz: seq<Dir>, e: Dir)
    requires IsRedBlack(t) && ValidPath(t, Pz) && At(t, Pz).Node? && Child(At(t, Pz), e).Leaf?
    requires UniqueIds(Plug(t, Pz, Child(At(t, Pz), Flip(e))))
    ensures var sz := At(t, Pz);
      var t' := Plug(t, Pz, Child(sz, Flip(e)));
      (sz.color == Black ==> FixState(t', Pz)) &&
      (sz.color == Red ==> IsRedBlack(t'))
  {
    var sz := At(t, Pz);
    var c := Child(sz, Flip(e));
    BalancedAt(t, Pz);
    NoRedRedAt(t, Pz);
    if Pz != [] {
      PlugRootColor(t, Pz, c);
    }
    AtPlug(t, Pz, c);
    if sz.color == Black {
      assert Balanced(c) && BH(c) + 1 == BH(sz);
      assert NoRedRed(Paint(c, Black));
      DeficientPlug(t, Pz, c);
      PaintAt(t, Pz, Black, c);
      NoRedRedPlugBlack(t, Pz, Paint(c, Black));
    } else {
      assert c == Leaf;
      BalancedPlug(t, Pz, c);
      NoRedRedPlugBlack(t, Pz, c);
    }
  }

  // ---------------------------------------------------------------------
  // z has two children: its successor y takes its place
  // ---------------------------------------------------------------------

  /** The leftmost node of a non-empty tree: `minimum`. */
  ghost function MinOf(t: Tree): (m: Tree)
    requires t.Node?
    ensures m.Node? && m.left.Leaf?
  {
    if t.left.Leaf? then t else MinOf(t.left)
  }

  lemma {:induction false} MinOfAt(t: Tree)
    requires t.Node?
    ensures ValidPath(t, MinPath(t)) && At(t, MinPath(t)) == MinOf(t)
    ensures Before(t, MinPath(t)) == [] && Keys(t)[0] == MinOf(t).key
  {
    if t.left.Node? {
      MinOfAt(t.left);
    }
  }

  /** The subtree that replaces `z`: `z`'s colour and left subtree, `y`'s key
      and identity, and `z`'s right subtree with `y` replaced by its right child. */
  ghost function Spliced(sz: Tree): Tree
    requires sz.Node? && sz.right.Node?
  {
    var ys := MinOf(sz.right);
    Node(sz.color, sz.left, ys.key, ys.id, Plug(sz.right, MinPath(sz.right), ys.right))
  }

  /** Where `x` (the successor's right child) ends up. */
  ghost function SplicedPath(sz: Tree, Pz: seq<Dir>): seq<Dir>
    requires sz.Node? && sz.right.Node?
  {
    Pz + [Right] + MinPath(sz.right)
  }

  lemma {:induction false} SplicedKeys(sz: Tree)
    requires sz.Node? && sz.right.Node?
    ensures Keys(sz.right) == [MinOf(sz.right).key] + Keys(Spliced(sz).right)
  {
    var r := sz.right;
    var pm := MinPath(r);
    var ys := MinOf(r);
    var af := After(r, pm);
    assert Keys(r) == Keys(ys) + af && Keys(Spliced(sz).right) == Keys(ys.right) + af by {
      MinOfAt(r);
      KeysPlug(r, pm, ys.right);
      assert Before(r, pm) == [];
    }
    assert Keys(ys) == [ys.key] + Keys(ys.right) by { assert Keys(ys.left) == []; }
  }

  lemma {:induction false} SplicedIds(sz: Tree)
    requires sz.Node? && sz.right.Node? && UniqueIds(sz)
    ensures Ids(Spliced(sz)) == Ids(sz) - {sz.id} && UniqueIds(Spliced(sz))
  {
    var r := sz.right;
    var pm := MinPath(r);
    var ys := MinOf(r);
    MinOfAt(r);
    IdsPlug(r, pm, ys.right);
    assert Ids(ys) == {ys.id} + Ids(ys.right);
  }

  /** `z` relabelled with `y`'s key and identity, with `x` then put in `y`'s
      place: the tree after the splice, seen as one plug at `x`'s position. */
  lemma {:induction false} SplicedPlug(t: Tree, Pz: seq<Dir>)
    requires ValidPath(t, Pz) && At(t, Pz).Node? && At(t, Pz).right.Node?
    ensures var sz := At(t, Pz);
      var ys := MinOf(sz.right);
      var tr := Plug(t, Pz, Node(sz.color, sz.left, ys.key, ys.id, sz.right));
      var xp := SplicedPath(sz, Pz);
      ValidPath(tr, xp) && At(tr, xp) == ys && Plug(tr, xp, ys.right) == Plug(t, Pz, Spliced(sz)) &&
      ValidPath(Plug(t, Pz, Spliced(sz)), xp) && At(Plug(t, Pz, Spliced(sz)), xp) == ys.right
  {
    var sz := At(t, Pz);
    var r := sz.right;
    var pm := MinPath(r);
    var ys := MinOf(r);
    var s0 := Node(sz.color, sz.left, ys.key, ys.id, r);
    MinOfAt(r);
    var q := [Right] + pm;
    assert q[0] == Right && q[1..] == pm;
    assert ValidPath(s0, q) && At(s0, q) == ys;
    assert Plug(s0, q, ys.right) == Spliced(sz);
    assert Pz + q == SplicedPath(sz, Pz);
    Localize(t, Pz, s0, q, ys.right);
    AtPlug(Plug(t, Pz, s0), SplicedPath(sz, Pz), ys.right);
  }

  /** `z` at `Pz` has two children; its in-order successor `y` takes its
      place: the keys lose `z`'s key and the nodes lose `z`. */
  lemma {:induction false} TwoChildrenContents(t: Tree, Pz: seq<Dir>)
    requires UniqueIds(t) && ValidPath(t, Pz) && At(t, Pz).Node? && At(t, Pz).right.Node?
    ensures var sz := At(t, Pz);
      var t' := Plug(t, Pz, Spliced(sz));
      RemovedAt(Keys(t), Keys(t'), |Before(t, Pz)| + |Keys(sz.left)|, sz.key) &&
      Ids(t') == Ids(t) - {sz.id} && UniqueIds(t')
  {
    var sz := At(t, Pz);
    var s := Spliced(sz);
    SplicedKeys(sz);
    assert Keys(sz) == Keys(sz.left) + [sz.key] + ([s.key] + Keys(s.right));
    RemovedPlug(t, Pz, s, Keys(sz.left), sz.key, [s.key] + Keys(s.right));
    IdsPlug(t, Pz, Leaf);
    SplicedIds(sz);
    IdsPlug(t, Pz, s);
  }

  /** ... and the tree is red-black again when `y` was RED, and otherwise one
      BLACK short where `x` now is. */
  lemma {:induction false} TwoChildrenBalance(t: Tree, Pz: seq<Dir>)
    requires IsRedBlack(t) && ValidPath(t, Pz) && At(t, Pz).Node? && At(t, Pz).right.Node?
    requires UniqueIds(Plug(t, Pz, Spliced(At(t, Pz))))
    ensures var sz := At(t, Pz);
      var t' := Plug(t, Pz, Spliced(sz));
      var xp := SplicedPath(sz, Pz);
      (MinOf(sz.right).color == Black ==> FixState(t', xp)) &&
      (MinOf(sz.right).color == Red ==> IsRedBlack(t'))
  {
    var sz := At(t, Pz);
    var ys := MinOf(sz.right);
    var s0 := Node(sz.color, sz.left, ys.key, ys.id, sz.right);
    var tr := Plug(t, Pz, s0);
    var xp := SplicedPath(sz, Pz);
    SplicedPlug(t, Pz);
    BalancedAt(t, Pz);
    NoRedRedAt(t, Pz);
    BalancedPlug(t, Pz, s0);
    NoRedRedPlugSame(t, Pz, s0);
    if Pz != [] {
      PlugRootColor(t, Pz, s0);
      PlugRootColor(t, Pz, Spliced(sz));
    }
    SplicedFix(tr, xp, ys);
  }

  /** Removing a node with no left child from a red-black tree (with a BLACK
      root or a root above it): its right child moves up. */
  lemma {:induction false} SplicedFix(tr: Tree, xp: seq<Dir>, ys: Tree)
    requires NoRedRed(tr) && Balanced(tr) && ValidPath(tr, xp) && At(tr, xp) == ys
    requires ys.Node? && ys.left.Leaf? && xp != []
    requires UniqueIds(Plug(tr, xp, ys.right)) && ColorOf(Plug(tr, xp, ys.right)) == ColorOf(tr)
    requires ColorOf(tr) == Black
    ensures ys.color == Black ==> FixState(Plug(tr, xp, ys.right), xp)
    ensures ys.color == Red ==> IsRedBlack(Plug(tr, xp, ys.right))
  {
    BalancedAt(tr, xp);
    NoRedRedAt(tr, xp);
    AtPlug(tr, xp, ys.right);
    if ys.color == Black {
      assert Balanced(ys.right) && BH(ys.right) + 1 == BH(ys);
      assert NoRedRed(Paint(ys.right, Black));
      DeficientPlug(tr, xp, ys.right);
      PaintAt(tr, xp, Black, ys.right);
      NoRedRedPlugBlack(tr, xp, Paint(ys.right, Black));
    } else {
      assert ys.right == Leaf;
      BalancedPlug(tr, xp, Leaf);
      NoRedRedPlugBlack(tr, xp, Leaf);
    }
  }
}

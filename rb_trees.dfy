/** Abstract red-black trees: the ghost view that the arena of RedBlackTree
    represents. Every node carries the arena index (`id`) of the cell that
    stores it, so that the arena and the abstract tree can be related node by
    node. Positions in a tree are paths of directions from the root. */
module RbTrees {
  import opened Sequences

  datatype Color = Red | Black
  datatype Dir = Left | Right

  datatype Tree = Leaf | Node(color: Color, left: Tree, key: int, id: nat, right: Tree)

  function Flip(d: Dir): Dir { if d == Left then Right else Left }

  function Child(t: Tree, d: Dir): Tree
    requires t.Node?
  {
    if d == Left then t.left else t.right
  }

  /** The node whose child on side `d` is `near` and whose other child is `far`. */
  function Mk(c: Color, d: Dir, near: Tree, k: int, id: nat, far: Tree): Tree
  {
    if d == Left then Node(c, near, k, id, far) else Node(c, far, k, id, near)
  }

  /** The sentinel counts as BLACK. */
  function ColorOf(t: Tree): Color { if t.Leaf? then Black else t.color }

  /** Arena index of the root of `t`; a leaf is the sentinel, index 0. */
  function RootId(t: Tree): nat { if t.Leaf? then 0 else t.id }

  function Paint(t: Tree, c: Color): Tree { if t.Leaf? then t else t.(color := c) }

  // ---------------------------------------------------------------------
  // Contents
  // ---------------------------------------------------------------------

  /** The in-order key sequence. */
  ghost function Keys(t: Tree): seq<int>
  {
    match t
    case Leaf => []
    case Node(_, l, k, _, r) => Keys(l) + [k] + Keys(r)
  }

  ghost function Ids(t: Tree): set<nat>
  {
    match t
    case Leaf => {}
    case Node(_, l, _, id, r) => Ids(l) + {id} + Ids(r)
  }

  /** No arena cell is used twice. */
  ghost predicate UniqueIds(t: Tree)
  {
    match t
    case Leaf => true
    case Node(_, l, _, id, r) =>
      UniqueIds(l) && UniqueIds(r) && id !in Ids(l) && id !in Ids(r) && Ids(l) !! Ids(r)
  }

  // ---------------------------------------------------------------------
  // Red-black properties
  // ---------------------------------------------------------------------

  /** Black nodes below the root on the leftmost path; the sentinel counts 0. */
  ghost function BH(t: Tree): nat
  {
    match t
    case Leaf => 0
    case Node(c, l, _, _, _) => BH(l) + (if c == Black then 1 else 0)
  }

  /** Every path from a node down to the sentinel meets the same number of BLACK nodes. */
  ghost predicate Balanced(t: Tree)
  {
    match t
    case Leaf => true
    case Node(_, l, _, _, r) => Balanced(l) && Balanced(r) && BH(l) == BH(r)
  }

  /** No RED node has a RED child. */
  ghost predicate NoRedRed(t: Tree)
  {
    match t
    case Leaf => true
    case Node(c, l, _, _, r) =>
      (c == Red ==> ColorOf(l) == Black && ColorOf(r) == Black) && NoRedRed(l) && NoRedRed(r)
  }

  ghost predicate IsRedBlack(t: Tree)
  {
    ColorOf(t) == Black && NoRedRed(t) && Balanced(t)
  }

  // ---------------------------------------------------------------------
  // Positions
  // ---------------------------------------------------------------------

  ghost predicate ValidPath(t: Tree, p: seq<Dir>)
    decreases |p|
  {
    p == [] || (t.Node? && ValidPath(Child(t, p[0]), p[1..]))
  }

  /** The subtree at position `p`. */
  ghost function At(t: Tree, p: seq<Dir>): Tree
    decreases |p|
  {
    if p == [] || t.Leaf? then t else At(Child(t, p[0]), p[1..])
  }

  /** `t` with the subtree at position `p` replaced by `s`. */
  ghost function Plug(t: Tree, p: seq<Dir>, s: Tree): Tree
    decreases |p|
  {
    if p == [] then s
    else if t.Leaf? then t
    else if p[0] == Left then t.(left := Plug(t.left, p[1..], s))
    else t.(right := Plug(t.right, p[1..], s))
  }

  ghost function SetColorAt(t: Tree, p: seq<Dir>, c: Color): Tree
  {
    Plug(t, p, Paint(At(t, p), c))
  }

  /** Rotation towards side `d`: the child on the other side is promoted
      (`d == Left` is a left rotation). Shapes without that child are left alone. */
  ghost function Rot(t: Tree, d: Dir): Tree
  {
    if t.Leaf? || Child(t, Flip(d)).Leaf? then t
    else
      var y := Child(t, Flip(d));
      Mk(y.color, d, Mk(t.color, d, Child(t, d), t.key, t.id, Child(y, d)), y.key, y.id, Child(y, Flip(d)))
  }

  ghost function RotAt(t: Tree, p: seq<Dir>, d: Dir): Tree
  {
    Plug(t, p, Rot(At(t, p), d))
  }

  /** Keys in order before, and after, the subtree at position `p`. */
  ghost function Before(t: Tree, p: seq<Dir>): seq<int>
    decreases |p|
  {
    if p == [] || t.Leaf? then []
    else if p[0] == Left then Before(t.left, p[1..])
    else Keys(t.left) + [t.key] + Before(t.right, p[1..])
  }

  ghost function After(t: Tree, p: seq<Dir>): seq<int>
    decreases |p|
  {
    if p == [] || t.Leaf? then []
    else if p[0] == Left then After(t.left, p[1..]) + [t.key] + Keys(t.right)
    else After(t.right, p[1..])
  }

  /** Ids of the nodes that are not inside the subtree at position `p`. */
  ghost function Outer(t: Tree, p: seq<Dir>): set<nat>
    decreases |p|
  {
    if p == [] || t.Leaf? then {}
    else Outer(Child(t, p[0]), p[1..]) + {t.id} + Ids(Child(t, Flip(p[0])))
  }

  /** Arena index of the parent of the node at position `p`, `top` for the root. */
  ghost function ParentId(t: Tree, p: seq<Dir>, top: int): int
    decreases |p|
  {
    if p == [] || t.Leaf? then top
    else if |p| == 1 then t.id
    else ParentId(Child(t, p[0]), p[1..], t.id)
  }

  ghost function LeftPath(n: nat): seq<Dir>
  {
    if n == 0 then [] else [Left] + LeftPath(n - 1)
  }

  /** Position of the leftmost node of a non-empty tree. */
  ghost function MinPath(t: Tree): seq<Dir>
    requires t.Node?
  {
    if t.left.Leaf? then [] else [Left] + MinPath(t.left)
  }

  // ---------------------------------------------------------------------
  // Path algebra
  // ---------------------------------------------------------------------

  lemma {:induction false} AtAppend(t: Tree, p: seq<Dir>, q: seq<Dir>)
    requires ValidPath(t, p)
    ensures At(t, p + q) == At(At(t, p), q)
    ensures ValidPath(t, p + q) <==> ValidPath(At(t, p), q)
    decreases |p|
  {
    if p == [] {
      assert p + q == q;
    } else {
      assert (p + q)[0] == p[0] && (p + q)[1..] == p[1..] + q;
      AtAppend(Child(t, p[0]), p[1..], q);
    }
  }

  lemma {:induction false} PlugAppend(t: Tree, p: seq<Dir>, q: seq<Dir>, s: Tree)
    requires ValidPath(t, p)
    ensures Plug(t, p + q, s) == Plug(t, p, Plug(At(t, p), q, s))
    decreases |p|
  {
    if p == [] {
      assert p + q == q;
    } else {
      assert (p + q)[0] == p[0] && (p + q)[1..] == p[1..] + q;
      PlugAppend(Child(t, p[0]), p[1..], q, s);
    }
  }

  lemma {:induction false} AtPlug(t: Tree, p: seq<Dir>, s: Tree)
    requires ValidPath(t, p)
    ensures ValidPath(Plug(t, p, s), p) && At(Plug(t, p, s), p) == s
    decreases |p|
  {
    if p != [] {
      AtPlug(Child(t, p[0]), p[1..], s);
    }
  }

  lemma {:induction false} PlugPlug(t: Tree, p: seq<Dir>, s1: Tree, s2: Tree)
    requires ValidPath(t, p)
    ensures Plug(Plug(t, p, s1), p, s2) == Plug(t, p, s2)
    decreases |p|
  {
    if p != [] {
      PlugPlug(Child(t, p[0]), p[1..], s1, s2);
    }
  }

  lemma {:induction false} PlugAt(t: Tree, p: seq<Dir>)
    requires ValidPath(t, p)
    ensures Plug(t, p, At(t, p)) == t
    decreases |p|
  {
    if p != [] {
      PlugAt(Child(t, p[0]), p[1..]);
    }
  }

  /** An operation at position `g + q` of `Plug(t, g, s)` is an operation at `q` inside `s`. */
  lemma {:induction false} Localize(t: Tree, g: seq<Dir>, s: Tree, q: seq<Dir>, x: Tree)
    requires ValidPath(t, g) && ValidPath(s, q)
    ensures ValidPath(Plug(t, g, s), g + q)
    ensures At(Plug(t, g, s), g + q) == At(s, q)
    ensures Plug(Plug(t, g, s), g + q, x) == Plug(t, g, Plug(s, q, x))
  {
    AtPlug(t, g, s);
    AtAppend(Plug(t, g, s), g, q);
    PlugAppend(Plug(t, g, s), g, q, x);
    PlugPlug(t, g, s, Plug(s, q, x));
  }

  /** Positions above `p` still exist after plugging at `p`, with the same colours. */
  lemma {:induction false} PlugPrefix(t: Tree, p: seq<Dir>, s: Tree, k: nat)
    requires ValidPath(t, p) && k < |p|
    ensures ValidPath(Plug(t, p, s), p[..k])
    ensures At(Plug(t, p, s), p[..k]).Node? && At(t, p[..k]).Node?
    ensures At(Plug(t, p, s), p[..k]).color == At(t, p[..k]).color
    ensures At(Plug(t, p, s), p[..k]).id == At(t, p[..k]).id
    decreases |p|
  {
    if k > 0 {
      assert p[..k][0] == p[0] && p[..k][1..] == p[1..][..k - 1];
      PlugPrefix(Child(t, p[0]), p[1..], s, k - 1);
    }
  }

  lemma {:induction false} ValidPathPrefix(t: Tree, p: seq<Dir>, k: nat)
    requires ValidPath(t, p) && k <= |p|
    ensures ValidPath(t, p[..k])
    ensures k < |p| ==> At(t, p[..k]).Node?
    decreases |p|
  {
    if k > 0 {
      assert p[..k][0] == p[0] && p[..k][1..] == p[1..][..k - 1];
      ValidPathPrefix(Child(t, p[0]), p[1..], k - 1);
    }
  }

  /** The parent of position `p + [d]` is the node at `p`. */
  lemma {:induction false} ParentIdStep(t: Tree, p: seq<Dir>, d: Dir, top: int)
    requires ValidPath(t, p) && At(t, p).Node?
    ensures ParentId(t, p + [d], top) == At(t, p).id
    decreases |p|
  {
    if p == [] {
    } else {
      assert (p + [d])[0] == p[0] && (p + [d])[1..] == p[1..] + [d];
      ParentIdStep(Child(t, p[0]), p[1..], d, top);
    }
  }

  lemma {:induction false} ParentIdPlug(t: Tree, p: seq<Dir>, s: Tree, top: int)
    requires ValidPath(t, p)
    ensures ParentId(Plug(t, p, s), p, top) == ParentId(t, p, top)
    decreases |p|
  {
    if |p| > 1 {
      ParentIdPlug(Child(t, p[0]), p[1..], s, top);
    }
  }

  lemma {:induction false} MinPathValid(t: Tree)
    requires t.Node?
    ensures ValidPath(t, MinPath(t)) && At(t, MinPath(t)).Node?
    ensures At(t, MinPath(t)).left.Leaf?
    ensures MinPath(t) == LeftPath(|MinPath(t)|)
    ensures Before(t, MinPath(t)) == []
  {
    if !t.left.Leaf? {
      MinPathValid(t.left);
    }
  }

  // ---------------------------------------------------------------------
  // What plugging does to keys, ids and colours
  // ---------------------------------------------------------------------

  lemma {:induction false} KeysPlug(t: Tree, p: seq<Dir>, s: Tree)
    requires ValidPath(t, p)
    ensures Keys(Plug(t, p, s)) == Before(t, p) + Keys(s) + After(t, p)
    ensures Keys(t) == Before(t, p) + Keys(At(t, p)) + After(t, p)
  {
    KeysPlugOne(t, p, s);
    KeysPlugOne(t, p, At(t, p));
    PlugAt(t, p);
  }

  lemma {:induction false} KeysPlugOne(t: Tree, p: seq<Dir>, s: Tree)
    requires ValidPath(t, p)
    ensures Keys(Plug(t, p, s)) == Before(t, p) + Keys(s) + After(t, p)
    decreases |p|
  {
    if p != [] {
      KeysPlugOne(Child(t, p[0]), p[1..], s);
      var m := Keys(Plug(Child(t, p[0]), p[1..], s));
      if p[0] == Left {
        calc {
          Keys(Plug(t, p, s));
          m + [t.key] + Keys(t.right);
          Before(t.left, p[1..]) + Keys(s) + (After(t.left, p[1..]) + [t.key] + Keys(t.right));
        }
      } else {
        calc {
          Keys(Plug(t, p, s));
          Keys(t.left) + [t.key] + m;
          (Keys(t.left) + [t.key] + Before(t.right, p[1..])) + Keys(s) + After(t.right, p[1..]);
        }
      }
    }
  }

  lemma {:induction false} IdsPlug(t: Tree, p: seq<Dir>, s: Tree)
    requires ValidPath(t, p)
    ensures Ids(Plug(t, p, s)) == Outer(t, p) + Ids(s)
    ensures Ids(t) == Outer(t, p) + Ids(At(t, p))
    ensures UniqueIds(t) ==> Outer(t, p) !! Ids(At(t, p)) && UniqueIds(At(t, p))
    ensures UniqueIds(t) && UniqueIds(s) && Outer(t, p) !! Ids(s) ==> UniqueIds(Plug(t, p, s))
    decreases |p|
  {
    if p != [] {
      IdsPlug(Child(t, p[0]), p[1..], s);
    }
  }

  /** Plugging a subtree with the same keys and the same ids keeps both. */
  lemma {:induction false} SamePlug(t: Tree, p: seq<Dir>, s: Tree)
    requires ValidPath(t, p) && UniqueIds(t) && UniqueIds(s)
    requires Ids(s) == Ids(At(t, p)) && Keys(s) == Keys(At(t, p))
    ensures Keys(Plug(t, p, s)) == Keys(t)
    ensures Ids(Plug(t, p, s)) == Ids(t) && UniqueIds(Plug(t, p, s))
  {
    KeysPlug(t, p, s);
    IdsPlug(t, p, s);
  }

  lemma {:induction false} BalancedPlug(t: Tree, p: seq<Dir>, s: Tree)
    requires ValidPath(t, p) && Balanced(t)
    requires Balanced(s) && BH(s) == BH(At(t, p))
    ensures Balanced(Plug(t, p, s)) && BH(Plug(t, p, s)) == BH(t)
    decreases |p|
  {
    if p != [] {
      BalancedPlug(Child(t, p[0]), p[1..], s);
    }
  }

  lemma {:induction false} BalancedAt(t: Tree, p: seq<Dir>)
    requires ValidPath(t, p) && Balanced(t)
    ensures Balanced(At(t, p))
    decreases |p|
  {
    if p != [] {
      BalancedAt(Child(t, p[0]), p[1..]);
    }
  }

  lemma {:induction false} NoRedRedAt(t: Tree, p: seq<Dir>)
    requires ValidPath(t, p) && NoRedRed(t)
    ensures NoRedRed(At(t, p))
    decreases |p|
  {
    if p != [] {
      NoRedRedAt(Child(t, p[0]), p[1..]);
    }
  }

  /** A black-rooted subtree without red-red pairs can go anywhere. */
  lemma {:induction false} NoRedRedPlugBlack(t: Tree, p: seq<Dir>, s: Tree)
    requires ValidPath(t, p) && NoRedRed(t)
    requires NoRedRed(s) && ColorOf(s) == Black
    ensures NoRedRed(Plug(t, p, s))
    decreases |p|
  {
    if p != [] {
      NoRedRedPlugBlack(Child(t, p[0]), p[1..], s);
    }
  }

  lemma {:induction false} PaintAt(t: Tree, p: seq<Dir>, c: Color, s: Tree)
    requires ValidPath(t, p)
    ensures SetColorAt(Plug(t, p, s), p, c) == Plug(t, p, Paint(s, c))
  {
    AtPlug(t, p, s);
    PlugPlug(t, p, s, Paint(s, c));
  }

  /** A rotation keeps the in-order keys and the set of nodes. */
  lemma {:induction false} RotKeys(t: Tree, d: Dir)
    ensures Keys(Rot(t, d)) == Keys(t) && Ids(Rot(t, d)) == Ids(t)
    ensures UniqueIds(t) ==> UniqueIds(Rot(t, d))
  {
    if t.Node? && Child(t, Flip(d)).Node? {
      var y := Child(t, Flip(d));
      if d == Left {
        assert Rot(t, d) == Node(y.color, Node(t.color, t.left, t.key, t.id, y.left), y.key, y.id, y.right);
        ShiftRoot(Keys(t.left), t.key, Keys(y.left), y.key, Keys(y.right));
      } else {
        assert Rot(t, d) == Node(y.color, y.left, y.key, y.id, Node(t.color, y.right, t.key, t.id, t.right));
        ShiftRoot(Keys(y.left), y.key, Keys(y.right), t.key, Keys(t.right));
      }
      RotIds(t, d);
    }
  }

  lemma {:induction false} RotIds(t: Tree, d: Dir)
    requires t.Node? && Child(t, Flip(d)).Node?
    ensures Ids(Rot(t, d)) == Ids(t)
    ensures UniqueIds(t) ==> UniqueIds(Rot(t, d))
  {
    var y := Child(t, Flip(d));
    if d == Left {
      var inner := Node(t.color, t.left, t.key, t.id, y.left);
      assert Rot(t, d) == Node(y.color, inner, y.key, y.id, y.right);
      if UniqueIds(t) {
        assert UniqueIds(y) && Ids(y) == Ids(y.left) + {y.id} + Ids(y.right);
        assert UniqueIds(inner) && Ids(inner) == Ids(t.left) + {t.id} + Ids(y.left);
      }
    } else {
      var inner := Node(t.color, y.right, t.key, t.id, t.right);
      assert Rot(t, d) == Node(y.color, y.left, y.key, y.id, inner);
      if UniqueIds(t) {
        assert UniqueIds(y) && Ids(y) == Ids(y.left) + {y.id} + Ids(y.right);
        assert UniqueIds(inner) && Ids(inner) == Ids(y.right) + {t.id} + Ids(t.right);
      }
    }
  }

  /** Moving the root of three pieces does not change their in-order sequence. */
  lemma {:induction false} ShiftRoot(x: seq<int>, k: int, y: seq<int>, j: int, z: seq<int>)
    ensures x + [k] + (y + [j] + z) == (x + [k] + y) + [j] + z
  {
  }

  /** What `Mk` builds, seen from side `d`. */
  lemma {:induction false} MkFacts(c: Color, d: Dir, near: Tree, k: int, id: nat, far: Tree)
    ensures var m := Mk(c, d, near, k, id, far);
      m.Node? && m.color == c && m.key == k && m.id == id &&
      Child(m, d) == near && Child(m, Flip(d)) == far &&
      ColorOf(m) == c &&
      Ids(m) == Ids(near) + {id} + Ids(far) &&
      Keys(m) == (if d == Left then Keys(near) + [k] + Keys(far) else Keys(far) + [k] + Keys(near)) &&
      (UniqueIds(m) <==> UniqueIds(near) && UniqueIds(far) && id !in Ids(near) && id !in Ids(far) && Ids(near) !! Ids(far)) &&
      (Balanced(m) <==> Balanced(near) && Balanced(far) && BH(near) == BH(far)) &&
      (BH(near) == BH(far) ==> BH(m) == BH(near) + (if c == Black then 1 else 0)) &&
      (NoRedRed(m) <==> (c == Red ==> ColorOf(near) == Black && ColorOf(far) == Black) && NoRedRed(near) && NoRedRed(far))
  {
  }

  lemma {:induction false} MkIds(c: Color, d: Dir, near: Tree, k: int, id: nat, far: Tree)
    ensures var m := Mk(c, d, near, k, id, far);
      Ids(m) == Ids(near) + {id} + Ids(far) &&
      (UniqueIds(m) <==> UniqueIds(near) && UniqueIds(far) && id !in Ids(near) && id !in Ids(far) && Ids(near) !! Ids(far))
  {
  }

  lemma {:induction false} MkOf(t: Tree, d: Dir)
    requires t.Node?
    ensures t == Mk(t.color, d, Child(t, d), t.key, t.id, Child(t, Flip(d)))
  {
  }

  /** Recolouring the node at `q` keeps every position, every cell id and
      every other node's colour. */
  lemma {:induction false} RecolorAt(t: Tree, q: seq<Dir>, c: Color, r: seq<Dir>)
    requires ValidPath(t, q) && ValidPath(t, r)
    ensures var t' := SetColorAt(t, q, c);
      ValidPath(t', r) && RootId(At(t', r)) == RootId(At(t, r)) &&
      At(t', r).Node? == At(t, r).Node? &&
      (At(t, r).Node? ==> At(t', r).key == At(t, r).key) &&
      (r != q ==> ColorOf(At(t', r)) == ColorOf(At(t, r)))
    decreases |r|
  {
    var t' := SetColorAt(t, q, c);
    if q == [] {
      assert t' == Paint(t, c);
      if r != [] {
        assert At(t', r) == At(t, r);
      }
    } else if r != [] {
      var ch := Child(t, q[0]);
      assert At(t, q) == At(ch, q[1..]);
      assert Child(t', q[0]) == SetColorAt(ch, q[1..], c);
      assert Child(t', Flip(q[0])) == Child(t, Flip(q[0]));
      if r[0] == q[0] {
        RecolorAt(ch, q[1..], c, r[1..]);
        assert r != q ==> r[1..] != q[1..] by {
          if r[1..] == q[1..] {
            assert r == [r[0]] + r[1..] && q == [q[0]] + q[1..];
          }
        }
      }
    }
  }

  /** One step down. */
  lemma {:induction false} Step1(t: Tree, d: Dir, x: Tree)
    requires t.Node?
    ensures ValidPath(t, [d]) && At(t, [d]) == Child(t, d)
    ensures Plug(t, [d], x) == (if d == Left then t.(left := x) else t.(right := x))
  {
    assert [d][1..] == [];
  }

  lemma {:induction false} Step2(t: Tree, d: Dir, e: Dir)
    requires t.Node? && Child(t, d).Node?
    ensures ValidPath(t, [d, e]) && At(t, [d, e]) == Child(Child(t, d), e)
  {
    Step1(t, d, Leaf);
    Step1(Child(t, d), e, Leaf);
    AtAppend(t, [d], [e]);
    assert [d] + [e] == [d, e];
  }

  /** Where the nodes of a rotation end up. */
  lemma {:induction false} RotPositions(t: Tree, p: seq<Dir>, d: Dir)
    requires ValidPath(t, p) && At(t, p).Node? && Child(At(t, p), Flip(d)).Node?
    ensures var s := At(t, p);
      var ys := Child(s, Flip(d));
      var t' := RotAt(t, p, d);
      ValidPath(t', p) && At(t', p).Node? && At(t', p).id == ys.id && At(t', p).color == ys.color &&
      ValidPath(t', p + [d]) && At(t', p + [d]).Node? &&
      At(t', p + [d]).id == s.id && At(t', p + [d]).color == s.color &&
      ValidPath(t', p + [d, d]) && At(t', p + [d, d]) == Child(s, d) &&
      ValidPath(t', p + [d, Flip(d)]) && At(t', p + [d, Flip(d)]) == Child(ys, d) &&
      ValidPath(t', p + [Flip(d)]) && At(t', p + [Flip(d)]) == Child(ys, Flip(d))
  {
    var s := At(t, p);
    var ys := Child(s, Flip(d));
    var inner := Mk(s.color, d, Child(s, d), s.key, s.id, Child(ys, d));
    var r := Mk(ys.color, d, inner, ys.key, ys.id, Child(ys, Flip(d)));
    assert Rot(s, d) == r;
    MkFacts(ys.color, d, inner, ys.key, ys.id, Child(ys, Flip(d)));
    MkFacts(s.color, d, Child(s, d), s.key, s.id, Child(ys, d));
    var nowhere: seq<Dir> := [];
    assert ValidPath(r, nowhere) && At(r, nowhere) == r;
    Step1(r, d, Leaf);
    Step1(r, Flip(d), Leaf);
    Step2(r, d, d);
    Step2(r, d, Flip(d));
    assert p + nowhere == p;
    Localize(t, p, r, nowhere, Leaf);
    Localize(t, p, r, [d], Leaf);
    Localize(t, p, r, [Flip(d)], Leaf);
    Localize(t, p, r, [d, d], Leaf);
    Localize(t, p, r, [d, Flip(d)], Leaf);
  }

  /** Where a search step goes: keys before and after the new position. */
  lemma {:induction false} BeforeAfterStep(t: Tree, p: seq<Dir>, d: Dir)
    requires ValidPath(t, p) && At(t, p).Node?
    ensures ValidPath(t, p + [d]) && At(t, p + [d]) == Child(At(t, p), d)
    ensures var s := At(t, p);
      (d == Left ==> Before(t, p + [d]) == Before(t, p) &&
                     After(t, p + [d]) == [s.key] + Keys(s.right) + After(t, p)) &&
      (d == Right ==> Before(t, p + [d]) == Before(t, p) + Keys(s.left) + [s.key] &&
                      After(t, p + [d]) == After(t, p))
  {
    BeforeStep(t, p, d);
    AfterStep(t, p, d);
  }

  lemma {:induction false} BeforeStep(t: Tree, p: seq<Dir>, d: Dir)
    requires ValidPath(t, p) && At(t, p).Node?
    ensures ValidPath(t, p + [d]) && At(t, p + [d]) == Child(At(t, p), d)
    ensures Before(t, p + [d]) == Before(t, p) + (if d == Left then [] else Keys(At(t, p).left) + [At(t, p).key])
    decreases |p|
  {
    if p == [] {
      assert p + [d] == [d] && [d][1..] == [];
    } else {
      assert (p + [d])[0] == p[0] && (p + [d])[1..] == p[1..] + [d];
      BeforeStep(Child(t, p[0]), p[1..], d);
    }
  }

  lemma {:induction false} AfterStep(t: Tree, p: seq<Dir>, d: Dir)
    requires ValidPath(t, p) && At(t, p).Node?
    ensures After(t, p + [d]) == (if d == Left then [At(t, p).key] + Keys(At(t, p).right) else []) + After(t, p)
    decreases |p|
  {
    if p == [] {
      assert p + [d] == [d] && [d][1..] == [];
    } else {
      assert (p + [d])[0] == p[0] && (p + [d])[1..] == p[1..] + [d];
      AfterStep(Child(t, p[0]), p[1..], d);
    }
  }

  lemma {:induction false} SortedSplit(a: seq<int>, k: int, b: seq<int>)
    requires Sorted(a + [k] + b)
    ensures forall v :: v in a ==> v <= k
    ensures forall v :: v in b ==> k <= v
  {
    var s := a + [k] + b;
    assert s[|a|] == k;
    forall v | v in a
      ensures v <= k
    {
      var j :| 0 <= j < |a| && a[j] == v;
      assert s[j] == v;
    }
    forall v | v in b
      ensures k <= v
    {
      var j :| 0 <= j < |b| && b[j] == v;
      assert s[|a| + 1 + j] == v;
    }
  }

  /** In a search tree, keys on the left of a node are no larger than its key
      and keys on its right no smaller. */
  lemma {:induction false} SortedAround(t: Tree, p: seq<Dir>)
    requires Sorted(Keys(t)) && ValidPath(t, p) && At(t, p).Node?
    ensures var s := At(t, p);
      (forall v :: v in Before(t, p) + Keys(s.left) ==> v <= s.key) &&
      (forall v :: v in Keys(s.right) + After(t, p) ==> s.key <= v)
  {
    var s := At(t, p);
    var a, b := Before(t, p) + Keys(s.left), Keys(s.right) + After(t, p);
    assert Keys(t) == a + [s.key] + b by {
      KeysPlug(t, p, s);
      assert Keys(s) == Keys(s.left) + [s.key] + Keys(s.right);
    }
    SortedSplit(a, s.key, b);
  }

  /** Painting the root BLACK keeps the tree balanced and free of red-red pairs. */
  lemma {:induction false} PaintRootBlack(t: Tree)
    requires NoRedRed(t) && Balanced(t)
    ensures IsRedBlack(Paint(t, Black))
    ensures Keys(Paint(t, Black)) == Keys(t) && Ids(Paint(t, Black)) == Ids(t)
    ensures UniqueIds(Paint(t, Black)) == UniqueIds(t)
  {
  }
}

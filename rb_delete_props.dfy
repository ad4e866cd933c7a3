/** Facts behind deletion from a red-black tree: the invariant of the delete
    fix-up loop (the node x carries one extra BLACK) and what each of its four
    cases does to the abstract tree. */
module RbDeleteProps {
  import opened Sequences
  import opened RbTrees
  import opened RbInsertProps

  /** Black height measured along position `p` and then down the subtree there. */
  ghost function DH(t: Tree, p: seq<Dir>): nat
    decreases |p|
  {
    if p == [] || t.Leaf? then BH(t)
    else DH(Child(t, p[0]), p[1..]) + (if t.color == Black then 1 else 0)
  }

  /** Balanced, except that the subtree at `p` is one BLACK short: every path
      through position `p` meets one BLACK node fewer than every other path. */
  ghost predicate DeficientAt(t: Tree, p: seq<Dir>)
    decreases |p|
  {
    if p == [] then Balanced(t)
    else
      t.Node? &&
      var ch := Child(t, p[0]);
      var o := Child(t, Flip(p[0]));
      DeficientAt(ch, p[1..]) && Balanced(o) && DH(ch, p[1..]) + 1 == BH(o)
  }

  lemma {:induction false} DeficientValid(t: Tree, p: seq<Dir>)
    requires DeficientAt(t, p)
    ensures ValidPath(t, p)
    decreases |p|
  {
    if p != [] {
      DeficientValid(Child(t, p[0]), p[1..]);
    }
  }

  /** A subtree one BLACK short, put in place of a balanced one. */
  lemma {:induction false} DeficientPlug(t: Tree, p: seq<Dir>, s: Tree)
    requires ValidPath(t, p) && Balanced(t) && Balanced(s) && BH(s) + 1 == BH(At(t, p))
    ensures DeficientAt(Plug(t, p, s), p) && DH(Plug(t, p, s), p) + 1 == BH(t)
    decreases |p|
  {
    if p != [] {
      DeficientPlug(Child(t, p[0]), p[1..], s);
    }
  }

  lemma {:induction false} DeficientSplit(t: Tree, g: seq<Dir>, q: seq<Dir>)
    requires ValidPath(t, g) && DeficientAt(t, g + q)
    ensures DeficientAt(At(t, g), q)
    decreases |g|
  {
    if g == [] {
      assert g + q == q;
    } else {
      assert (g + q)[0] == g[0] && (g + q)[1..] == g[1..] + q;
      DeficientSplit(Child(t, g[0]), g[1..], q);
    }
  }

  /** Rearranging the subtree at `g` so that the shortfall sits elsewhere (or,
      with `q2 == []`, so that the whole subtree is one BLACK short). */
  lemma {:induction false} DeficientReplace(t: Tree, g: seq<Dir>, q: seq<Dir>, s: Tree, q2: seq<Dir>)
    requires ValidPath(t, g) && DeficientAt(t, g + q)
    requires DeficientAt(s, q2) && DH(s, q2) == DH(At(t, g), q)
    ensures DeficientAt(Plug(t, g, s), g + q2) && DH(Plug(t, g, s), g + q2) == DH(t, g + q)
    decreases |g|
  {
    if g == [] {
      assert g + q == q && g + q2 == q2;
    } else {
      assert (g + q)[0] == g[0] && (g + q)[1..] == g[1..] + q;
      assert (g + q2)[0] == g[0] && (g + q2)[1..] == g[1..] + q2;
      DeficientReplace(Child(t, g[0]), g[1..], q, s, q2);
    }
  }

  /** Making up the shortfall at `g` balances the whole tree. */
  lemma {:induction false} DeficientResolve(t: Tree, g: seq<Dir>, q: seq<Dir>, s: Tree)
    requires ValidPath(t, g) && DeficientAt(t, g + q)
    requires Balanced(s) && BH(s) == DH(At(t, g), q) + 1
    ensures Balanced(Plug(t, g, s)) && BH(Plug(t, g, s)) == DH(t, g + q) + 1
    decreases |g|
  {
    if g == [] {
      assert g + q == q;
    } else {
      assert (g + q)[0] == g[0] && (g + q)[1..] == g[1..] + q;
      DeficientResolve(Child(t, g[0]), g[1..], q, s);
    }
  }

  /** A subtree with the same root colour and no red-red pair can replace another. */
  lemma {:induction false} NoRedRedPlugSame(t: Tree, p: seq<Dir>, s: Tree)
    requires ValidPath(t, p) && NoRedRed(t)
    requires NoRedRed(s) && ColorOf(s) == ColorOf(At(t, p))
    ensures NoRedRed(Plug(t, p, s))
    decreases |p|
  {
    if p != [] {
      NoRedRedPlugSame(Child(t, p[0]), p[1..], s);
      if |p| > 1 {
        PlugPrefix(Child(t, p[0]), p[1..], s, 0);
        assert p[1..][..0] == [];
      } else {
        assert p[1..] == [];
      }
    }
  }

  lemma {:induction false} PaintBlackSame(t: Tree, p: seq<Dir>)
    requires ValidPath(t, p) && ColorOf(At(t, p)) == Black
    ensures SetColorAt(t, p, Black) == t
  {
    assert Paint(At(t, p), Black) == At(t, p);
    PlugAt(t, p);
  }

  // ---------------------------------------------------------------------
  // The loop state of the delete fix-up
  // ---------------------------------------------------------------------

  /** x is at position `xp`; the tree is one BLACK short there; painting x
      BLACK would leave no red-red pair; the root is BLACK unless x is the root. */
  ghost predicate FixState(t: Tree, xp: seq<Dir>)
  {
    ValidPath(t, xp) && DeficientAt(t, xp) && NoRedRed(SetColorAt(t, xp, Black)) &&
    UniqueIds(t) && (xp == [] || ColorOf(t) == Black)
  }

  /** The state at the top of a loop iteration: x is BLACK and not the root. */
  ghost predicate BlackStep(t: Tree, g: seq<Dir>, dx: Dir)
  {
    FixState(t, g + [dx]) && ColorOf(At(t, g + [dx])) == Black
  }

  lemma {:induction false} BlackStepLocal(t: Tree, g: seq<Dir>, dx: Dir)
    requires BlackStep(t, g, dx)
    ensures NoRedRed(t)
    ensures ValidPath(t, g) && At(t, g).Node? && ValidPath(t, g + [Flip(dx)])
    ensures var s := At(t, g);
      At(t, g + [dx]) == Child(s, dx) && At(t, g + [Flip(dx)]) == Child(s, Flip(dx)) &&
      Child(s, Flip(dx)).Node? &&
      Balanced(Child(s, dx)) && Balanced(Child(s, Flip(dx))) &&
      BH(Child(s, dx)) + 1 == BH(Child(s, Flip(dx))) &&
      DH(s, [dx]) == BH(Child(s, dx)) + (if s.color == Black then 1 else 0) &&
      NoRedRed(s) && UniqueIds(s) && DeficientAt(s, [dx])
  {
    var xp := g + [dx];
    PaintBlackSame(t, xp);
    ValidPathPrefix(t, xp, |g|);
    assert xp[..|g|] == g;
    AtAppend(t, g, [dx]);
    var s := At(t, g);
    Step1(s, dx, Leaf);
    Step1(s, Flip(dx), Leaf);
    AtAppend(t, g, [Flip(dx)]);
    DeficientSplit(t, g, [dx]);
    assert [dx][1..] == [];
    NoRedRedAt(t, g);
    IdsPlug(t, g, Leaf);
  }

  /** Position facts about a node seen from side `d`. */
  lemma {:induction false} MkPaths(c: Color, d: Dir, near: Tree, k: int, id: nat, far: Tree)
    ensures var m := Mk(c, d, near, k, id, far);
      ValidPath(m, [d]) && At(m, [d]) == near && ValidPath(m, [Flip(d)]) && At(m, [Flip(d)]) == far
  {
    MkFacts(c, d, near, k, id, far);
    Step1(Mk(c, d, near, k, id, far), d, Leaf);
    Step1(Mk(c, d, near, k, id, far), Flip(d), Leaf);
  }

  lemma {:induction false} DeficientOne(c: Color, d: Dir, near: Tree, k: int, id: nat, far: Tree)
    requires Balanced(near) && Balanced(far) && BH(near) + 1 == BH(far)
    ensures var m := Mk(c, d, near, k, id, far);
      DeficientAt(m, [d]) && DH(m, [d]) == BH(near) + (if c == Black then 1 else 0)
  {
    MkFacts(c, d, near, k, id, far);
    assert [d][1..] == [];
  }

  /** A rotation seen from side `d` moves no key and no id, whatever the colours. */
  lemma {:induction false} RotMkKeys(c1: Color, c2: Color, c3: Color, c4: Color, d: Dir,
                  a: Tree, k1: int, i1: nat, b: Tree, k2: int, i2: nat, c: Tree)
    requires UniqueIds(Mk(c1, d, a, k1, i1, Mk(c2, d, b, k2, i2, c)))
    ensures var low := Mk(c1, d, a, k1, i1, Mk(c2, d, b, k2, i2, c));
      var high := Mk(c3, d, Mk(c4, d, a, k1, i1, b), k2, i2, c);
      Keys(high) == Keys(low) && Ids(high) == Ids(low) && UniqueIds(high)
  {
    RotMkSameKeys(c1, c2, c3, c4, d, a, k1, i1, b, k2, i2, c);
    RotMkSameIds(c1, c2, c3, c4, d, a, k1, i1, b, k2, i2, c);
  }

  lemma {:induction false} RotMkSameKeys(c1: Color, c2: Color, c3: Color, c4: Color, d: Dir,
                      a: Tree, k1: int, i1: nat, b: Tree, k2: int, i2: nat, c: Tree)
    ensures Keys(Mk(c3, d, Mk(c4, d, a, k1, i1, b), k2, i2, c)) == Keys(Mk(c1, d, a, k1, i1, Mk(c2, d, b, k2, i2, c)))
  {
    if d == Left {
      ShiftRoot(Keys(a), k1, Keys(b), k2, Keys(c));
    } else {
      ShiftRoot(Keys(c), k2, Keys(b), k1, Keys(a));
    }
  }

  lemma {:induction false} RotMkSameIds(c1: Color, c2: Color, c3: Color, c4: Color, d: Dir,
                     a: Tree, k1: int, i1: nat, b: Tree, k2: int, i2: nat, c: Tree)
    requires UniqueIds(Mk(c1, d, a, k1, i1, Mk(c2, d, b, k2, i2, c)))
    ensures var low := Mk(c1, d, a, k1, i1, Mk(c2, d, b, k2, i2, c));
      var high := Mk(c3, d, Mk(c4, d, a, k1, i1, b), k2, i2, c);
      Ids(high) == Ids(low) && UniqueIds(high)
  {
    var upper := Mk(c2, d, b, k2, i2, c);
    var inner := Mk(c4, d, a, k1, i1, b);
    MkIds(c1, d, a, k1, i1, upper);
    MkIds(c2, d, b, k2, i2, c);
    MkIds(c4, d, a, k1, i1, b);
    MkIds(c3, d, inner, k2, i2, c);
  }

  // ----- case 1 -----

  lemma {:induction false} Case1Shape(s: Tree, dx: Dir)
    requires s.Node? && Child(s, Flip(dx)).Node?
    ensures var w := Child(s, Flip(dx));
      RotAt(SetColorAt(SetColorAt(s, [Flip(dx)], Black), [], Red), [], dx) ==
      Mk(Black, dx, Mk(Red, dx, Child(s, dx), s.key, s.id, Child(w, dx)), w.key, w.id, Child(w, Flip(dx)))
  {
    var fl := Flip(dx);
    var w := Child(s, fl);
    MkOf(s, dx);
    MkOf(w, dx);
    Step1(s, fl, Paint(w, Black));
    assert SetColorAt(s, [fl], Black) == Mk(s.color, dx, Child(s, dx), s.key, s.id, Paint(w, Black));
  }

  lemma {:induction false} Case1Balance(cs: Color, dx: Dir, x: Tree, ks: int, sid: nat, wn: Tree, kw: int, wid: nat, wf: Tree)
    requires var s := Mk(cs, dx, x, ks, sid, Mk(Red, dx, wn, kw, wid, wf));
      NoRedRed(s) && Balanced(x) && Balanced(Mk(Red, dx, wn, kw, wid, wf)) &&
      BH(x) + 1 == BH(Mk(Red, dx, wn, kw, wid, wf)) && ColorOf(x) == Black
    ensures var s1 := Mk(Black, dx, Mk(Red, dx, x, ks, sid, wn), kw, wid, wf);
      cs == Black &&
      DeficientAt(s1, [dx, dx]) && DH(s1, [dx, dx]) == BH(x) + 1 &&
      NoRedRed(s1) && ColorOf(s1) == Black && ColorOf(wn) == Black
  {
    var w := Mk(Red, dx, wn, kw, wid, wf);
    var inner := Mk(Red, dx, x, ks, sid, wn);
    var s1 := Mk(Black, dx, inner, kw, wid, wf);
    MkFacts(cs, dx, x, ks, sid, w);
    MkFacts(Red, dx, wn, kw, wid, wf);
    MkFacts(Black, dx, inner, kw, wid, wf);
    DeficientOne(Red, dx, x, ks, sid, wn);
    assert NoRedRed(inner) by { MkFacts(Red, dx, x, ks, sid, wn); }
    assert [dx, dx][0] == dx && [dx, dx][1..] == [dx];
  }

  /** The parent's subtree after case 1: the old sibling, BLACK, on top, and
      the parent, RED, below it on x's side. */
  ghost function Case1S(s: Tree, dx: Dir): Tree
    requires s.Node? && Child(s, Flip(dx)).Node?
  {
    var w := Child(s, Flip(dx));
    Mk(Black, dx, Mk(Red, dx, Child(s, dx), s.key, s.id, Child(w, dx)), w.key, w.id, Child(w, Flip(dx)))
  }

  /** Case 1 inside the parent's subtree: x moves one level down, still one
      BLACK short, and gets a BLACK sibling. */
  lemma {:induction false} Case1Local(s: Tree, dx: Dir)
    requires s.Node? && Child(s, Flip(dx)).Node? && Child(s, Flip(dx)).color == Red
    requires NoRedRed(s) && UniqueIds(s) && ColorOf(Child(s, dx)) == Black
    requires Balanced(Child(s, dx)) && Balanced(Child(s, Flip(dx)))
    requires BH(Child(s, dx)) + 1 == BH(Child(s, Flip(dx)))
    ensures var fl := Flip(dx);
      var s1 := Case1S(s, dx);
      s.color == Black && DeficientAt(s1, [dx, dx]) && DH(s1, [dx, dx]) == BH(Child(s, dx)) + 1 &&
      NoRedRed(s1) && ColorOf(s1) == Black &&
      ValidPath(s1, [dx, dx]) && At(s1, [dx, dx]) == Child(s, dx) &&
      ValidPath(s1, [dx, fl]) && ColorOf(At(s1, [dx, fl])) == Black &&
      ValidPath(s1, [dx]) && At(s1, [dx]).Node? && At(s1, [dx]).id == s.id &&
      Keys(s1) == Keys(s) && Ids(s1) == Ids(s) && UniqueIds(s1)
  {
    var fl := Flip(dx);
    var x := Child(s, dx);
    var w := Child(s, fl);
    var wn := Child(w, dx);
    var wf := Child(w, fl);
    MkOf(s, dx);
    MkOf(w, dx);
    MkFacts(s.color, dx, x, s.key, s.id, w);
    MkFacts(Red, dx, wn, w.key, w.id, wf);
    Case1Balance(s.color, dx, x, s.key, s.id, wn, w.key, w.id, wf);
    RotMkKeys(s.color, Red, Black, Red, dx, x, s.key, s.id, wn, w.key, w.id, wf);
    var inner := Mk(Red, dx, x, s.key, s.id, wn);
    var s1 := Mk(Black, dx, inner, w.key, w.id, wf);
    MkFacts(Black, dx, inner, w.key, w.id, wf);
    MkPaths(Black, dx, inner, w.key, w.id, wf);
    MkPaths(Red, dx, x, s.key, s.id, wn);
    AtAppend(s1, [dx], [dx]);
    AtAppend(s1, [dx], [fl]);
    assert [dx] + [dx] == [dx, dx] && [dx] + [fl] == [dx, fl];
  }

  /** Recolouring and rotating at the parent's position `g` puts the
      parent's new subtree there. */
  lemma {:induction false} Case1Plug(t: Tree, g: seq<Dir>, dx: Dir)
    requires ValidPath(t, g) && At(t, g).Node? && Child(At(t, g), Flip(dx)).Node?
    ensures RotAt(SetColorAt(SetColorAt(t, g + [Flip(dx)], Black), g, Red), g, dx) == Plug(t, g, Case1S(At(t, g), dx))
  {
    var fl := Flip(dx);
    var s := At(t, g);
    Case1Shape(s, dx);
    var sa := SetColorAt(s, [fl], Black);
    var sb := SetColorAt(sa, [], Red);
    PlugAt(t, g);
    assert g + [] == g;
    Step1(s, fl, Leaf);
    LocalColor(t, g, s, [fl], Black);
    LocalColor(t, g, sa, [], Red);
    LocalRot(t, g, sb, [], dx);
  }

  /** Red sibling: recolour and rotate at the parent; x stays, one level deeper,
      and now has a BLACK sibling. */
  lemma {:induction false} DeleteCase1(t: Tree, g: seq<Dir>, dx: Dir)
    requires BlackStep(t, g, dx) && ColorOf(At(t, g + [Flip(dx)])) == Red
    ensures ValidPath(t, g) && At(t, g).Node?
    ensures var t1 := RotAt(SetColorAt(SetColorAt(t, g + [Flip(dx)], Black), g, Red), g, dx);
      BlackStep(t1, g + [dx], dx) && At(t1, g + [dx, dx]) == At(t, g + [dx]) &&
      ValidPath(t1, g + [dx, Flip(dx)]) && ColorOf(At(t1, g + [dx, Flip(dx)])) == Black &&
      At(t1, g + [dx]).Node? && At(t1, g + [dx]).id == At(t, g).id &&
      Keys(t1) == Keys(t) && Ids(t1) == Ids(t)
  {
    BlackStepLocal(t, g, dx);
    var fl := Flip(dx);
    var s := At(t, g);
    Case1Local(s, dx);
    Case1Plug(t, g, dx);
    var s1 := Case1S(s, dx);
    var t1 := Plug(t, g, s1);
    Localize(t, g, s1, [dx, dx], Leaf);
    Localize(t, g, s1, [dx, fl], Leaf);
    Localize(t, g, s1, [dx], Leaf);
    assert g + [dx] + [dx] == g + [dx, dx];
    DeficientReplace(t, g, [dx], s1, [dx, dx]);
    NoRedRedPlugBlack(t, g, s1);
    SamePlug(t, g, s1);
    PaintBlackSame(t1, g + [dx, dx]);
    if g != [] {
      PlugPrefix(t, g, s1, 0);
      assert g[..0] == [];
    }
  }

  // ----- case 2 -----

  /** Black sibling with two BLACK children: paint the sibling RED; the
      shortfall moves up to the parent, which becomes the new x. */
  lemma {:induction false} DeleteCase2(t: Tree, g: seq<Dir>, dx: Dir)
    requires BlackStep(t, g, dx) && ColorOf(At(t, g + [Flip(dx)])) == Black
    requires ValidPath(t, g + [Flip(dx)]) && At(t, g + [Flip(dx)]).Node?
    requires ColorOf(At(t, g + [Flip(dx)]).left) == Black && ColorOf(At(t, g + [Flip(dx)]).right) == Black
    ensures ValidPath(t, g) && At(t, g).Node?
    ensures var t2 := SetColorAt(t, g + [Flip(dx)], Red);
      FixState(t2, g) && At(t2, g).Node? && At(t2, g).id == At(t, g).id &&
      At(t2, g).color == At(t, g).color &&
      Keys(t2) == Keys(t) && Ids(t2) == Ids(t)
  {
    BlackStepLocal(t, g, dx);
    var fl := Flip(dx);
    var s := At(t, g);
    var x := Child(s, dx);
    var w := Child(s, fl);
    MkOf(s, dx);
    MkFacts(s.color, dx, x, s.key, s.id, w);
    var w2 := Paint(w, Red);
    var s2 := Mk(s.color, dx, x, s.key, s.id, w2);
    MkFacts(s.color, dx, x, s.key, s.id, w2);
    MkFacts(Black, dx, x, s.key, s.id, w2);
    Step1(s, fl, w2);
    assert SetColorAt(s, [fl], Red) == s2;
    assert Balanced(s2) && BH(s2) == DH(s, [dx]);
    assert NoRedRed(Paint(s2, Black));
    LocalColor(t, g, s, [fl], Red);
    PlugAt(t, g);
    var t2 := Plug(t, g, s2);
    assert g + [] == g;
    DeficientReplace(t, g, [dx], s2, []);
    AtPlug(t, g, s2);
    PaintAt(t, g, Black, s2);
    NoRedRedPlugBlack(t, g, Paint(s2, Black));
    SamePlug(t, g, s2);
    if g != [] {
      PlugPrefix(t, g, s2, 0);
      assert g[..0] == [];
    }
  }

  // ----- case 3 -----

  lemma {:induction false} Case3Shape(w: Tree, dx: Dir)
    requires w.Node? && Child(w, dx).Node?
    ensures var fl := Flip(dx);
      var n := Child(w, dx);
      RotAt(SetColorAt(SetColorAt(w, [dx], Black), [], Red), [], fl) ==
      Mk(Black, dx, Child(n, dx), n.key, n.id, Mk(Red, dx, Child(n, fl), w.key, w.id, Child(w, fl)))
  {
    var n := Child(w, dx);
    MkOf(w, dx);
    MkOf(n, dx);
    Step1(w, dx, Paint(n, Black));
    assert SetColorAt(w, [dx], Black) == Mk(w.color, dx, Paint(n, Black), w.key, w.id, Child(w, Flip(dx)));
  }

  lemma {:induction false} Case3Balance(dx: Dir, n1: Tree, kn: int, nid: nat, n2: Tree, kw: int, wid: nat, f: Tree)
    requires var w := Mk(Black, dx, Mk(Red, dx, n1, kn, nid, n2), kw, wid, f);
      Balanced(w) && NoRedRed(w) && ColorOf(f) == Black
    ensures var w := Mk(Black, dx, Mk(Red, dx, n1, kn, nid, n2), kw, wid, f);
      var w3 := Mk(Black, dx, n1, kn, nid, Mk(Red, dx, n2, kw, wid, f));
      Balanced(w3) && BH(w3) == BH(w) && NoRedRed(w3)
  {
    var n := Mk(Red, dx, n1, kn, nid, n2);
    var lower := Mk(Red, dx, n2, kw, wid, f);
    MkFacts(Black, dx, n, kw, wid, f);
    MkFacts(Red, dx, n1, kn, nid, n2);
    MkFacts(Red, dx, n2, kw, wid, f);
    MkFacts(Black, dx, n1, kn, nid, lower);
  }

  /** The sibling after case 3: its near child on top, BLACK, with the old
      sibling, now RED, below it on the far side. */
  ghost function Case3W(w: Tree, dx: Dir): Tree
    requires w.Node? && Child(w, dx).Node?
  {
    var n := Child(w, dx);
    Mk(Black, dx, Child(n, dx), n.key, n.id, Mk(Red, dx, Child(n, Flip(dx)), w.key, w.id, Child(w, Flip(dx))))
  }

  /** The new sibling is a balanced, red-red free rearrangement of the old
      one, with a RED far child. */
  lemma {:induction false} Case3WFacts(w: Tree, dx: Dir)
    requires w.Node? && Child(w, dx).Node? && w.color == Black && Child(w, dx).color == Red
    requires ColorOf(Child(w, Flip(dx))) == Black && Balanced(w) && NoRedRed(w) && UniqueIds(w)
    ensures var fl := Flip(dx);
      var w3 := Case3W(w, dx);
      Balanced(w3) && BH(w3) == BH(w) && NoRedRed(w3) && ColorOf(w3) == Black &&
      Keys(w3) == Keys(w) && Ids(w3) == Ids(w) && UniqueIds(w3) &&
      ValidPath(w3, [fl]) && ColorOf(At(w3, [fl])) == Red
  {
    var fl := Flip(dx);
    var n := Child(w, dx);
    var f := Child(w, fl);
    MkOf(w, dx);
    MkOf(n, dx);
    Case3Balance(dx, Child(n, dx), n.key, n.id, Child(n, fl), w.key, w.id, f);
    Case23KeysMk(Black, dx, Child(n, dx), Child(n, fl), f, Red, n.key, n.id, w.key, w.id);
    var lower := Mk(Red, dx, Child(n, fl), w.key, w.id, f);
    MkPaths(Black, dx, Child(n, dx), n.key, n.id, lower);
    MkFacts(Red, dx, Child(n, fl), w.key, w.id, f);
  }

  /** Case 3 at the sibling's own position. */
  lemma {:induction false} Case3Sibling(t: Tree, g: seq<Dir>, dx: Dir)
    requires BlackStep(t, g, dx) && ColorOf(At(t, g + [Flip(dx)])) == Black
    requires ValidPath(t, g + [Flip(dx), dx]) && ColorOf(At(t, g + [Flip(dx), dx])) == Red
    requires ValidPath(t, g + [Flip(dx), Flip(dx)]) && ColorOf(At(t, g + [Flip(dx), Flip(dx)])) == Black
    ensures ValidPath(t, g + [Flip(dx)]) && At(t, g + [Flip(dx)]).Node? && Child(At(t, g + [Flip(dx)]), dx).Node?
    ensures var fl := Flip(dx);
      var w := At(t, g + [fl]);
      var w3 := Case3W(w, dx);
      RotAt(SetColorAt(SetColorAt(t, g + [fl, dx], Black), g + [fl], Red), g + [fl], fl) == Plug(t, g + [fl], w3) &&
      Balanced(w3) && BH(w3) == BH(w) && NoRedRed(w3) && ColorOf(w3) == Black &&
      Keys(w3) == Keys(w) && Ids(w3) == Ids(w) && UniqueIds(w3) &&
      ValidPath(w3, [fl]) && ColorOf(At(w3, [fl])) == Red
  {
    BlackStepLocal(t, g, dx);
    var fl := Flip(dx);
    var gw := g + [fl];
    var w := At(t, gw);
    assert gw + [dx] == g + [fl, dx] && gw + [fl] == g + [fl, fl];
    AtAppend(t, gw, [dx]);
    AtAppend(t, gw, [fl]);
    Step1(w, dx, Leaf);
    Step1(w, fl, Leaf);
    NoRedRedAt(t, gw);
    IdsPlug(t, gw, Leaf);
    Case3WFacts(w, dx);
    Case3Plug(t, gw, dx);
  }

  /** Recolouring and rotating at the sibling's position `gw` puts the new
      sibling there. */
  lemma {:induction false} Case3Plug(t: Tree, gw: seq<Dir>, dx: Dir)
    requires ValidPath(t, gw) && At(t, gw).Node? && Child(At(t, gw), dx).Node?
    ensures var fl := Flip(dx);
      RotAt(SetColorAt(SetColorAt(t, gw + [dx], Black), gw, Red), gw, fl) == Plug(t, gw, Case3W(At(t, gw), dx))
  {
    var fl := Flip(dx);
    var w := At(t, gw);
    Case3Shape(w, dx);
    Step1(w, dx, Leaf);
    var wa := SetColorAt(w, [dx], Black);
    var wb := SetColorAt(wa, [], Red);
    PlugAt(t, gw);
    assert gw + [] == gw;
    LocalColor(t, gw, w, [dx], Black);
    LocalColor(t, gw, wa, [], Red);
    LocalRot(t, gw, wb, [], fl);
  }

  /** Black sibling whose far child is BLACK and near child RED: recolour and
      rotate at the sibling, so that the far child becomes RED. */
  lemma {:induction false} DeleteCase3(t: Tree, g: seq<Dir>, dx: Dir)
    requires BlackStep(t, g, dx) && ColorOf(At(t, g + [Flip(dx)])) == Black
    requires ValidPath(t, g + [Flip(dx), dx]) && ColorOf(At(t, g + [Flip(dx), dx])) == Red
    requires ValidPath(t, g + [Flip(dx), Flip(dx)]) && ColorOf(At(t, g + [Flip(dx), Flip(dx)])) == Black
    ensures ValidPath(t, g) && At(t, g).Node?
    ensures var fl := Flip(dx);
      var t3 := RotAt(SetColorAt(SetColorAt(t, g + [fl, dx], Black), g + [fl], Red), g + [fl], fl);
      BlackStep(t3, g, dx) && At(t3, g + [dx]) == At(t, g + [dx]) &&
      At(t3, g).Node? && At(t3, g).id == At(t, g).id && At(t3, g).color == At(t, g).color &&
      ValidPath(t3, g + [fl, fl]) && ColorOf(At(t3, g + [fl])) == Black &&
      ColorOf(At(t3, g + [fl, fl])) == Red &&
      Keys(t3) == Keys(t) && Ids(t3) == Ids(t)
  {
    BlackStepLocal(t, g, dx);
    Case3Sibling(t, g, dx);
    var fl := Flip(dx);
    var s := At(t, g);
    var x := Child(s, dx);
    var w := Child(s, fl);
    var w3 := Case3W(w, dx);
    var t3 := Plug(t, g + [fl], w3);
    // the same tree seen from the parent
    var s3 := Mk(s.color, dx, x, s.key, s.id, w3);
    MkOf(s, dx);
    MkFacts(s.color, dx, x, s.key, s.id, w);
    MkFacts(s.color, dx, x, s.key, s.id, w3);
    Step1(s, fl, w3);
    PlugAppend(t, g, [fl], w3);
    assert t3 == Plug(t, g, s3);
    MkPaths(s.color, dx, x, s.key, s.id, w3);
    AtAppend(s3, [fl], [fl]);
    assert [fl] + [fl] == [fl, fl];
    Localize(t, g, s3, [dx], Leaf);
    Localize(t, g, s3, [fl], Leaf);
    Localize(t, g, s3, [fl, fl], Leaf);
    DeficientOne(s.color, dx, x, s.key, s.id, w3);
    DeficientReplace(t, g, [dx], s3, [dx]);
    NoRedRedPlugSame(t, g, s3);
    SamePlug(t, g, s3);
    AtPlug(t, g, s3);
    PaintBlackSame(t3, g + [dx]);
    if g != [] {
      PlugPrefix(t, g, s3, 0);
      assert g[..0] == [];
    }
  }

  // ----- case 4 -----

  /** Black sibling whose far child is RED: recolour and rotate at the parent.
      The shortfall is made up and the tree is a red-black tree again. */
  ghost function Case4(t: Tree, g: seq<Dir>, dx: Dir): Tree
  {
    var fl := Flip(dx);
    var ta := SetColorAt(t, g + [fl], ColorOf(At(t, g)));
    RotAt(SetColorAt(SetColorAt(ta, g, Black), g + [fl, fl], Black), g, dx)
  }

  lemma {:induction false} Case4Shape(s: Tree, dx: Dir)
    requires s.Node? && Child(s, Flip(dx)).Node?
    ensures var fl := Flip(dx);
      var w := Child(s, fl);
      var sa := SetColorAt(s, [fl], s.color);
      var sc := SetColorAt(SetColorAt(sa, [], Black), [fl, fl], Black);
      ValidPath(s, [fl]) && ValidPath(sa, [fl, fl]) &&
      RotAt(sc, [], dx) ==
      Mk(s.color, dx, Mk(Black, dx, Child(s, dx), s.key, s.id, Child(w, dx)), w.key, w.id, Paint(Child(w, fl), Black))
  {
    var fl := Flip(dx);
    var w := Child(s, fl);
    var x := Child(s, dx);
    var n := Child(w, dx);
    var f := Child(w, fl);
    MkOf(s, dx);
    MkOf(w, dx);
    var wa := Paint(w, s.color);
    Step1(s, fl, wa);
    var sa := SetColorAt(s, [fl], s.color);
    assert sa == Mk(s.color, dx, x, s.key, s.id, wa);
    var sb := SetColorAt(sa, [], Black);
    assert sb == Mk(Black, dx, x, s.key, s.id, wa);
    MkFacts(Black, dx, x, s.key, s.id, wa);
    MkFacts(s.color, dx, x, s.key, s.id, wa);
    Step1(sb, fl, Leaf);
    Step1(sa, fl, Leaf);
    Step2(sa, fl, fl);
    Step2(sb, fl, fl);
    Step1(wa, fl, Paint(f, Black));
    var wc := Mk(s.color, dx, n, w.key, w.id, Paint(f, Black));
    assert Plug(wa, [fl], Paint(f, Black)) == wc;
    PlugAppend(sb, [fl], [fl], Paint(f, Black));
    assert [fl] + [fl] == [fl, fl];
    AtAppend(sb, [fl], [fl]);
    Step1(sb, fl, wc);
    assert SetColorAt(sb, [fl, fl], Black) == Mk(Black, dx, x, s.key, s.id, wc);
  }

  lemma {:induction false} Case4Balance(cs: Color, dx: Dir, x: Tree, ks: int, sid: nat, n: Tree, kw: int, wid: nat, f: Tree)
    requires var s := Mk(cs, dx, x, ks, sid, Mk(Black, dx, n, kw, wid, f));
      NoRedRed(s) && Balanced(x) && Balanced(Mk(Black, dx, n, kw, wid, f)) &&
      BH(x) + 1 == BH(Mk(Black, dx, n, kw, wid, f)) && ColorOf(f) == Red
    ensures var s4 := Mk(cs, dx, Mk(Black, dx, x, ks, sid, n), kw, wid, Paint(f, Black));
      Balanced(s4) && BH(s4) == BH(x) + 1 + (if cs == Black then 1 else 0) &&
      NoRedRed(s4) && ColorOf(s4) == cs
  {
    var w := Mk(Black, dx, n, kw, wid, f);
    var lower := Mk(Black, dx, x, ks, sid, n);
    MkFacts(cs, dx, x, ks, sid, w);
    MkFacts(Black, dx, n, kw, wid, f);
    MkFacts(Black, dx, x, ks, sid, n);
    MkFacts(cs, dx, lower, kw, wid, Paint(f, Black));
  }

  lemma {:induction false} DeleteCase4(t: Tree, g: seq<Dir>, dx: Dir)
    requires BlackStep(t, g, dx) && ColorOf(At(t, g + [Flip(dx)])) == Black
    requires ValidPath(t, g + [Flip(dx), Flip(dx)]) && ColorOf(At(t, g + [Flip(dx), Flip(dx)])) == Red
    ensures var t4 := Case4(t, g, dx);
      IsRedBlack(t4) && Keys(t4) == Keys(t) && Ids(t4) == Ids(t) && UniqueIds(t4)
  {
    BlackStepLocal(t, g, dx);
    var fl := Flip(dx);
    var s := At(t, g);
    var x := Child(s, dx);
    var w := Child(s, fl);
    AtAppend(t, g + [fl], [fl]);
    assert g + [fl] + [fl] == g + [fl, fl];
    Step1(w, fl, Leaf);
    var n := Child(w, dx);
    var f := Child(w, fl);
    MkOf(s, dx);
    MkOf(w, dx);
    Case4Shape(s, dx);
    Case4Balance(s.color, dx, x, s.key, s.id, n, w.key, w.id, f);
    RotMkKeys(s.color, Black, s.color, Black, dx, x, s.key, s.id, n, w.key, w.id, f);
    MkFacts(s.color, dx, Mk(Black, dx, x, s.key, s.id, n), w.key, w.id, f);
    MkFacts(s.color, dx, Mk(Black, dx, x, s.key, s.id, n), w.key, w.id, Paint(f, Black));
    var s4 := Mk(s.color, dx, Mk(Black, dx, x, s.key, s.id, n), w.key, w.id, Paint(f, Black));
    DeficientOne(s.color, dx, x, s.key, s.id, w);
    // lift to the whole tree
    var sa := SetColorAt(s, [fl], s.color);
    var sb := SetColorAt(sa, [], Black);
    var sc := SetColorAt(sb, [fl, fl], Black);
    PlugAt(t, g);
    assert g + [] == g;
    LocalColor(t, g, s, [fl], s.color);
    LocalColor(t, g, sa, [], Black);
    MkFacts(Black, dx, x, s.key, s.id, Paint(w, s.color));
    Step1(s, fl, Paint(w, s.color));
    Step2(sb, fl, fl);
    LocalColor(t, g, sb, [fl, fl], Black);
    LocalRot(t, g, sc, [], dx);
    assert Case4(t, g, dx) == Plug(t, g, s4);
    DeficientResolve(t, g, [dx], s4);
    NoRedRedPlugSame(t, g, s4);
    SamePlug(t, g, s4);
    if g != [] {
      PlugPrefix(t, g, s4, 0);
      assert g[..0] == [];
    }
  }

  /** Leaving the loop (x RED, or x the root) and painting x BLACK restores every property. */
  lemma {:induction false} FixExit(t: Tree, xp: seq<Dir>)
    requires FixState(t, xp) && (xp == [] || ColorOf(At(t, xp)) == Red)
    ensures IsRedBlack(SetColorAt(t, xp, Black))
    ensures Keys(SetColorAt(t, xp, Black)) == Keys(t) && Ids(SetColorAt(t, xp, Black)) == Ids(t)
    ensures UniqueIds(SetColorAt(t, xp, Black))
  {
    var x := At(t, xp);
    var t1 := SetColorAt(t, xp, Black);
    IdsPlug(t, xp, Leaf);
    SamePlug(t, xp, Paint(x, Black));
    if xp == [] {
      assert t1 == Paint(t, Black);
    } else {
      assert xp + [] == xp;
      DeficientSplit(t, xp, []);
      DeficientResolve(t, xp, [], Paint(x, Black));
      PlugPrefix(t, xp, Paint(x, Black), 0);
      assert xp[..0] == [];
    }
  }
}

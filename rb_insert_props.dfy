/** Facts behind insertion into a red-black tree: where a new key lands in the
    in-order sequence, the invariant of the insert fix-up loop, and what each of
    its cases does to the abstract tree. */
module RbInsertProps {
  import opened Sequences
  import opened RbTrees

  // ---------------------------------------------------------------------
  // The fix-up invariant: no red node has a red child, except that the node
  // at position p may be a red child of a red parent.
  // ---------------------------------------------------------------------

  ghost predicate NoRedRedExcept(t: Tree, p: seq<Dir>)
    decreases |p|
  {
    if p == [] then NoRedRed(t)
    else
      t.Node? &&
      var ch := Child(t, p[0]);
      var o := Child(t, Flip(p[0]));
      NoRedRedExcept(ch, p[1..]) && NoRedRed(o) &&
      (t.color == Red ==> ColorOf(o) == Black && (ColorOf(ch) == Black || |p| == 1))
  }

  lemma {:induction false} ExceptOfNoRedRed(t: Tree, p: seq<Dir>)
    requires ValidPath(t, p) && NoRedRed(t)
    ensures NoRedRedExcept(t, p)
    decreases |p|
  {
    if p != [] {
      ExceptOfNoRedRed(Child(t, p[0]), p[1..]);
    }
  }

  lemma {:induction false} ExceptAt(t: Tree, g: seq<Dir>, q: seq<Dir>)
    requires ValidPath(t, g) && NoRedRedExcept(t, g + q)
    ensures NoRedRedExcept(At(t, g), q)
    decreases |g|
  {
    if g == [] {
      assert g + q == q;
    } else {
      assert (g + q)[0] == g[0] && (g + q)[1..] == g[1..] + q;
      ExceptAt(Child(t, g[0]), g[1..], q);
    }
  }

  /** Replacing the subtree at `g`, above the exception, by one without red-red
      pairs moves the exception up to `g`. */
  lemma {:induction false} ExceptPlug(t: Tree, g: seq<Dir>, q: seq<Dir>, s: Tree)
    requires ValidPath(t, g) && NoRedRedExcept(t, g + q) && NoRedRed(s)
    ensures NoRedRedExcept(Plug(t, g, s), g)
    decreases |g|
  {
    if g != [] {
      assert (g + q)[0] == g[0] && (g + q)[1..] == g[1..] + q;
      var ch := Child(t, g[0]);
      ExceptPlug(ch, g[1..], q, s);
      if |g| > 1 {
        PlugPrefix(ch, g[1..], s, 0);
        assert g[1..][..0] == [];
      }
    }
  }

  /** A new subtree with no red-red pair hung below a tree with none: only
      the new subtree's root may be a red child of a red parent. */
  lemma {:induction false} ExceptNew(t: Tree, p: seq<Dir>, s: Tree)
    requires ValidPath(t, p) && NoRedRed(t) && NoRedRed(s)
    ensures NoRedRedExcept(Plug(t, p, s), p)
    decreases |p|
  {
    if p != [] {
      var ch := Child(t, p[0]);
      ExceptNew(ch, p[1..], s);
      if |p| > 1 {
        assert ColorOf(Plug(ch, p[1..], s)) == ColorOf(ch);
      }
    }
  }

  /** The loop may stop once the excepted node's parent is BLACK (or it is the root). */
  lemma {:induction false} ExceptDone(t: Tree, p: seq<Dir>)
    requires ValidPath(t, p) && NoRedRedExcept(t, p)
    requires p == [] || ColorOf(At(t, p[..|p| - 1])) == Black
    ensures NoRedRed(t)
    decreases |p|
  {
    if p != [] {
      var ch := Child(t, p[0]);
      if |p| == 1 {
        assert p[..0] == [];
        assert NoRedRedExcept(ch, []);
      } else {
        var r := p[1..];
        assert p[..|p| - 1][0] == p[0] && p[..|p| - 1][1..] == r[..|r| - 1];
        ExceptDone(ch, r);
      }
    }
  }

  /** Colour change at position `q` inside the subtree at `g`. */
  lemma {:induction false} LocalColor(t: Tree, g: seq<Dir>, s: Tree, q: seq<Dir>, c: Color)
    requires ValidPath(t, g) && ValidPath(s, q)
    ensures ValidPath(Plug(t, g, s), g + q)
    ensures SetColorAt(Plug(t, g, s), g + q, c) == Plug(t, g, SetColorAt(s, q, c))
  {
    Localize(t, g, s, q, Paint(At(s, q), c));
  }

  /** Rotation at position `q` inside the subtree at `g`. */
  lemma {:induction false} LocalRot(t: Tree, g: seq<Dir>, s: Tree, q: seq<Dir>, d: Dir)
    requires ValidPath(t, g) && ValidPath(s, q)
    ensures ValidPath(Plug(t, g, s), g + q)
    ensures RotAt(Plug(t, g, s), g + q, d) == Plug(t, g, RotAt(s, q, d))
  {
    Localize(t, g, s, q, Rot(At(s, q), d));
  }

  /** What the exception at `[dp, dz]` says about a grandparent's subtree. */
  lemma {:induction false} ExceptUnfold2(s: Tree, dp: Dir, dz: Dir)
    requires NoRedRedExcept(s, [dp, dz])
    ensures s.Node? && Child(s, dp).Node?
    ensures var p := Child(s, dp);
      NoRedRed(Child(s, Flip(dp))) && NoRedRed(Child(p, Flip(dz))) && NoRedRed(Child(p, dz)) &&
      (s.color == Red ==> ColorOf(Child(s, Flip(dp))) == Black && ColorOf(p) == Black) &&
      (p.color == Red ==> ColorOf(Child(p, Flip(dz))) == Black)
  {
    assert [dp, dz][1..] == [dz] && [dz][1..] == [];
    assert NoRedRedExcept(Child(s, dp), [dz]);
    assert NoRedRedExcept(Child(Child(s, dp), dz), []);
  }

  /** The exception is harmless when the excepted node is BLACK. */
  lemma {:induction false} ExceptBlack(t: Tree, p: seq<Dir>)
    requires ValidPath(t, p) && NoRedRedExcept(t, p) && ColorOf(At(t, p)) == Black
    ensures NoRedRed(t)
    decreases |p|
  {
    if p != [] {
      ExceptBlack(Child(t, p[0]), p[1..]);
      if |p| == 1 {
        assert p[1..] == [];
      }
    }
  }

  /** The shape every insert fix-up iteration starts from: z is red at `g + [dp, dz]`
      and its parent is red. */
  ghost predicate FixupShape(t: Tree, g: seq<Dir>, dp: Dir, dz: Dir)
  {
    ValidPath(t, g + [dp, dz]) && At(t, g + [dp, dz]).Node? &&
    ColorOf(At(t, g + [dp, dz])) == Red && ColorOf(At(t, g + [dp])) == Red &&
    NoRedRedExcept(t, g + [dp, dz]) && Balanced(t) && UniqueIds(t)
  }

  lemma {:induction false} FixupShapeLocal(t: Tree, g: seq<Dir>, dp: Dir, dz: Dir)
    requires FixupShape(t, g, dp, dz)
    ensures ValidPath(t, g) && At(t, g).Node?
    ensures var s := At(t, g);
      Child(s, dp).Node? && Child(Child(s, dp), dz).Node? &&
      Child(s, dp) == At(t, g + [dp]) && Child(Child(s, dp), dz) == At(t, g + [dp, dz]) &&
      ValidPath(s, [dp, dz]) && NoRedRedExcept(s, [dp, dz]) && Balanced(s) && UniqueIds(s) &&
      s.color == Black
  {
    ValidPathPrefix(t, g + [dp, dz], |g|);
    assert (g + [dp, dz])[..|g|] == g;
    AtAppend(t, g, [dp, dz]);
    AtAppend(t, g, [dp]);
    ValidPathPrefix(t, g + [dp, dz], |g| + 1);
    assert (g + [dp, dz])[..|g| + 1] == g + [dp];
    ExceptAt(t, g, [dp, dz]);
    BalancedAt(t, g);
    IdsPlug(t, g, Leaf);
    var s := At(t, g);
    Step1(s, dp, Leaf);
    Step2(s, dp, dz);
  }

  /** The grandparent's subtree after case 1: RED, with both children BLACK. */
  ghost function Recolored(s: Tree, dp: Dir): Tree
    requires s.Node?
  {
    Mk(Red, dp, Paint(Child(s, dp), Black), s.key, s.id, Paint(Child(s, Flip(dp)), Black))
  }

  /** Recolouring keeps the grandparent's subtree balanced, with the same
      keys and ids, and removes the red-red pair below it. */
  lemma {:induction false} RecoloredFacts(s: Tree, dp: Dir, dz: Dir)
    requires s.Node? && NoRedRedExcept(s, [dp, dz]) && Balanced(s) && UniqueIds(s)
    requires ColorOf(Child(s, dp)) == Red && ColorOf(Child(s, Flip(dp))) == Red
    ensures var sc := Recolored(s, dp);
      NoRedRed(sc) && Balanced(sc) && BH(sc) == BH(s) &&
      Keys(sc) == Keys(s) && Ids(sc) == Ids(s) && UniqueIds(sc) && sc.Node? && sc.id == s.id
  {
    var fl := Flip(dp);
    ExceptUnfold2(s, dp, dz);
    assert NoRedRed(Paint(Child(s, dp), Black));
    MkOf(s, dp);
    MkFacts(s.color, dp, Child(s, dp), s.key, s.id, Child(s, fl));
    MkFacts(Red, dp, Paint(Child(s, dp), Black), s.key, s.id, Paint(Child(s, fl), Black));
  }

  /** The three recolourings of case 1 act on the grandparent's subtree only. */
  lemma {:induction false} Case1Recolor(t: Tree, g: seq<Dir>, dp: Dir)
    requires ValidPath(t, g) && At(t, g).Node?
    ensures SetColorAt(SetColorAt(SetColorAt(t, g + [dp], Black), g + [Flip(dp)], Black), g, Red) ==
      Plug(t, g, Recolored(At(t, g), dp))
  {
    var s := At(t, g);
    var fl := Flip(dp);
    var sa := SetColorAt(s, [dp], Black);
    Step1(s, dp, Paint(Child(s, dp), Black));
    var sb := SetColorAt(sa, [fl], Black);
    Step1(sa, fl, Paint(Child(s, fl), Black));
    MkOf(s, dp);
    PlugAt(t, g);
    LocalColor(t, g, s, [dp], Black);
    LocalColor(t, g, sa, [fl], Black);
    assert g + [] == g;
    LocalColor(t, g, sb, [], Red);
  }

  /** Uncle RED: recolour parent and uncle BLACK and the grandparent RED; the
      exception moves up to the grandparent. */
  lemma {:induction false} InsertCase1(t: Tree, g: seq<Dir>, dp: Dir, dz: Dir)
    requires FixupShape(t, g, dp, dz)
    requires ValidPath(t, g + [Flip(dp)]) && ColorOf(At(t, g + [Flip(dp)])) == Red
    ensures var t1 := SetColorAt(SetColorAt(SetColorAt(t, g + [dp], Black), g + [Flip(dp)], Black), g, Red);
      ValidPath(t, g) && At(t, g).Node? &&
      ValidPath(t1, g) && At(t1, g).Node? && At(t1, g).color == Red && At(t1, g).id == At(t, g).id &&
      NoRedRedExcept(t1, g) && Balanced(t1) && BH(t1) == BH(t) &&
      Keys(t1) == Keys(t) && Ids(t1) == Ids(t) && UniqueIds(t1) &&
      (g != [] ==> ColorOf(t1) == ColorOf(t))
  {
    FixupShapeLocal(t, g, dp, dz);
    var s := At(t, g);
    var fl := Flip(dp);
    AtAppend(t, g, [fl]);
    var sc := Recolored(s, dp);
    RecoloredFacts(s, dp, dz);
    Case1Recolor(t, g, dp);
    var t1 := Plug(t, g, sc);
    AtPlug(t, g, sc);
    ExceptPlug(t, g, [dp, dz], sc);
    BalancedPlug(t, g, sc);
    SamePlug(t, g, sc);
    if g != [] {
      PlugPrefix(t, g, sc, 0);
      assert g[..0] == [];
    }
  }

  /** Uncle BLACK: at most one rotation to line z up with its parent, then a
      recolouring and a rotation at the grandparent. Every red-red pair is gone. */
  ghost function Case23(t: Tree, g: seq<Dir>, dp: Dir, dz: Dir): Tree
  {
    var t0 := if dz == dp then t else RotAt(t, g + [dp], dp);
    RotAt(SetColorAt(SetColorAt(t0, g + [dp], Black), g, Red), g, Flip(dp))
  }

  /** The parent after the optional first rotation: z and its parent lined up. */
  ghost function Lined(s: Tree, dp: Dir, dz: Dir): Tree
    requires s.Node?
  {
    if dz == dp then Child(s, dp) else Rot(Child(s, dp), dp)
  }

  lemma {:induction false} Case23Shape(s: Tree, dp: Dir, dz: Dir)
    requires s.Node? && Child(s, dp).Node? && Child(Child(s, dp), dz).Node?
    ensures var pz := Lined(s, dp, dz);
      pz.Node? &&
      Case23(s, [], dp, dz) ==
        Mk(Black, dp, Child(pz, dp), pz.key, pz.id, Mk(Red, dp, Child(pz, Flip(dp)), s.key, s.id, Child(s, Flip(dp))))
  {
    var fl := Flip(dp);
    var u := Child(s, fl);
    var p := Child(s, dp);
    var s0 := if dz == dp then s else RotAt(s, [dp], dp);
    var pz := Lined(s, dp, dz);
    Step1(s, dp, pz);
    assert s0 == Mk(s.color, dp, pz, s.key, s.id, u);
    var sa := SetColorAt(s0, [dp], Black);
    Step1(s0, dp, Paint(pz, Black));
    assert sa == Mk(s.color, dp, Paint(pz, Black), s.key, s.id, u);
    var sb := SetColorAt(sa, [], Red);
    var sc := RotAt(sb, [], fl);
    var nowhere: seq<Dir> := [];
    assert nowhere + [dp] == [dp];
    assert sc == Case23(s, [], dp, dz);
  }

  ghost predicate Case23Pre(s: Tree, dp: Dir, dz: Dir)
  {
    s.Node? && s.color == Black && Child(s, dp).Node? && Child(Child(s, dp), dz).Node? &&
    Child(s, dp).color == Red && Child(Child(s, dp), dz).color == Red &&
    ColorOf(Child(s, Flip(dp))) == Black &&
    NoRedRedExcept(s, [dp, dz]) && Balanced(s) && UniqueIds(s)
  }

  lemma {:induction false} Case23Colors(s: Tree, dp: Dir, dz: Dir)
    requires Case23Pre(s, dp, dz)
    ensures var sc := Case23(s, [], dp, dz);
      sc.Node? && sc.color == Black && Child(sc, dp).Node? && Child(sc, dp).color == Red &&
      Child(sc, dp).id == (if dz == dp then Child(Child(s, dp), dz).id else Child(s, dp).id) &&
      NoRedRed(sc) && Balanced(sc) && BH(sc) == BH(s)
  {
    var fl := Flip(dp);
    var u := Child(s, fl);
    var p := Child(s, dp);
    var z := Child(p, dz);
    ExceptUnfold2(s, dp, dz);
    Case23Shape(s, dp, dz);
    var pz := Lined(s, dp, dz);
    var lo := Child(pz, dp);
    var hi := Child(pz, fl);
    MkOf(s, dp);
    MkFacts(s.color, dp, p, s.key, s.id, u);
    MkOf(p, dp);
    MkFacts(p.color, dp, Child(p, dp), p.key, p.id, Child(p, fl));
    if dz != dp {
      MkOf(z, dp);
      MkFacts(z.color, dp, Child(z, dp), z.key, z.id, Child(z, fl));
      var a := Child(p, dp);
      var inner := Mk(p.color, dp, a, p.key, p.id, Child(z, dp));
      assert pz == Mk(z.color, dp, inner, z.key, z.id, Child(z, fl));
      MkFacts(p.color, dp, a, p.key, p.id, Child(z, dp));
      MkFacts(z.color, dp, inner, z.key, z.id, Child(z, fl));
    }
    assert Balanced(lo) && Balanced(hi) && BH(lo) == BH(hi) == BH(u);
    assert NoRedRed(lo) && NoRedRed(hi) && ColorOf(hi) == Black;
    var right := Mk(Red, dp, hi, s.key, s.id, u);
    MkFacts(Red, dp, hi, s.key, s.id, u);
    MkFacts(Black, dp, lo, pz.key, pz.id, right);
  }

  lemma {:induction false} Case23Keys(s: Tree, dp: Dir, dz: Dir)
    requires Case23Pre(s, dp, dz)
    ensures var sc := Case23(s, [], dp, dz);
      Keys(sc) == Keys(s) && Ids(sc) == Ids(s) && UniqueIds(sc)
  {
    var fl := Flip(dp);
    var u := Child(s, fl);
    var p := Child(s, dp);
    Case23Shape(s, dp, dz);
    var pz := Lined(s, dp, dz);
    var lo := Child(pz, dp);
    var hi := Child(pz, fl);
    RotKeys(p, dp);
    MkOf(s, dp);
    MkOf(pz, dp);
    var right := Mk(Red, dp, hi, s.key, s.id, u);
    Case23KeysMk(s.color, dp, lo, hi, u, pz.color, pz.key, pz.id, s.key, s.id);
  }

  lemma {:induction false} Case23KeysMk(cs: Color, dp: Dir, lo: Tree, hi: Tree, u: Tree, cp: Color, kp: int, ip: nat, ks: int, sid: nat)
    requires UniqueIds(Mk(cs, dp, Mk(cp, dp, lo, kp, ip, hi), ks, sid, u))
    ensures var before := Mk(cs, dp, Mk(cp, dp, lo, kp, ip, hi), ks, sid, u);
      var after := Mk(Black, dp, lo, kp, ip, Mk(Red, dp, hi, ks, sid, u));
      Keys(after) == Keys(before) && Ids(after) == Ids(before) && UniqueIds(after)
  {
    var inner := Mk(cp, dp, lo, kp, ip, hi);
    var right := Mk(Red, dp, hi, ks, sid, u);
    Case23SameKeys(cs, dp, lo, hi, u, cp, kp, ip, ks, sid);
    MkIds(cs, dp, inner, ks, sid, u);
    MkIds(cp, dp, lo, kp, ip, hi);
    MkIds(Red, dp, hi, ks, sid, u);
    MkIds(Black, dp, lo, kp, ip, right);
  }

  lemma {:induction false} Case23SameKeys(cs: Color, dp: Dir, lo: Tree, hi: Tree, u: Tree, cp: Color, kp: int, ip: nat, ks: int, sid: nat)
    ensures Keys(Mk(Black, dp, lo, kp, ip, Mk(Red, dp, hi, ks, sid, u))) == Keys(Mk(cs, dp, Mk(cp, dp, lo, kp, ip, hi), ks, sid, u))
  {
    if dp == Left {
      ShiftRoot(Keys(lo), kp, Keys(hi), ks, Keys(u));
    } else {
      ShiftRoot(Keys(u), ks, Keys(hi), kp, Keys(lo));
    }
  }

  lemma {:induction false} InsertCase23(t: Tree, g: seq<Dir>, dp: Dir, dz: Dir)
    requires FixupShape(t, g, dp, dz)
    requires ValidPath(t, g + [Flip(dp)]) && ColorOf(At(t, g + [Flip(dp)])) == Black
    ensures ValidPath(t, g) && At(t, g).Node? && At(t, g + [dp]).Node? && At(t, g + [dp, dz]).Node?
    ensures var t1 := Case23(t, g, dp, dz);
      ValidPath(t1, g + [dp]) && At(t1, g + [dp]).Node? && At(t1, g + [dp]).color == Red &&
      At(t1, g + [dp]).id == (if dz == dp then At(t, g + [dp, dz]).id else At(t, g + [dp]).id) &&
      At(t1, g).Node? && At(t1, g).color == Black &&
      NoRedRed(t1) && Balanced(t1) && BH(t1) == BH(t) &&
      Keys(t1) == Keys(t) && Ids(t1) == Ids(t) && UniqueIds(t1) &&
      (g != [] ==> ColorOf(t1) == ColorOf(t)) && (g == [] ==> ColorOf(t1) == Black)
  {
    FixupShapeLocal(t, g, dp, dz);
    var s := At(t, g);
    var fl := Flip(dp);
    AtAppend(t, g, [fl]);
    Step1(s, fl, Leaf);
    Case23Colors(s, dp, dz);
    Case23Keys(s, dp, dz);
    var sc := Case23(s, [], dp, dz);
    var s0 := if dz == dp then s else RotAt(s, [dp], dp);
    var sa := SetColorAt(s0, [dp], Black);
    var sb := SetColorAt(sa, [], Red);
    Step1(s, dp, Leaf);
    PlugAt(t, g);
    assert g + [] == g;
    assert [dp] + [] == [dp];
    if dz != dp {
      LocalRot(t, g, s, [dp], dp);
    }
    Step1(s0, dp, Leaf);
    LocalColor(t, g, s0, [dp], Black);
    LocalColor(t, g, sa, [], Red);
    LocalRot(t, g, sb, [], fl);
    var nowhere: seq<Dir> := [];
    assert nowhere + [dp] == [dp];
    assert sc == RotAt(sb, [], fl);
    var t0 := if dz == dp then t else RotAt(t, g + [dp], dp);
    assert t0 == Plug(t, g, s0);
    assert SetColorAt(t0, g + [dp], Black) == Plug(t, g, sa);
    assert SetColorAt(SetColorAt(t0, g + [dp], Black), g, Red) == Plug(t, g, sb);
    assert Case23(t, g, dp, dz) == Plug(t, g, sc);
    AtPlug(t, g, sc);
    Step1(sc, dp, Leaf);
    Localize(t, g, sc, [dp], Leaf);
    ExceptPlug(t, g, [dp, dz], sc);
    ExceptBlack(Plug(t, g, sc), g);
    BalancedPlug(t, g, sc);
    SamePlug(t, g, sc);
    if g != [] {
      PlugPrefix(t, g, sc, 0);
      assert g[..0] == [];
    }
  }
}

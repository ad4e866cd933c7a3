/** The parts of Python's `str` that the 3-SAT parser relies on:
    `replace(" ", "")`, `split(sep)` with a non-empty separator, the slices
    `s[1:]` and `s[:-1]`, and `sep.join` as the inverse of `split`. */
module PythonStrings {
  /** `sep` occurs in `s` at position `i`. */
  ghost predicate OccursAt(s: string, sep: string, i: int)
  {
    0 <= i && i + |sep| <= |s| && s[i..i + |sep|] == sep
  }

  ghost predicate Contains(s: string, sep: string)
  {
    exists i :: OccursAt(s, sep, i)
  }

  /** `s[1:]`: empty for the empty string. */
  function DropFirst(s: string): (r: string)
    ensures |s| > 0 ==> [s[0]] + r == s
    ensures |s| == 0 ==> r == s
  {
    if |s| == 0 then s else s[1..]
  }

  /** `s[:-1]`: empty for the empty string. */
  function DropLast(s: string): (r: string)
    ensures |s| > 0 ==> r + [s[|s| - 1]] == s
    ensures |s| == 0 ==> r == s
  {
    if |s| == 0 then s else s[..|s| - 1]
  }

  /** `s.replace(" ", "")`. */
  function RemoveSpaces(s: string): (r: string)
    ensures forall i :: 0 <= i < |r| ==> r[i] != ' ' && r[i] in s
    ensures (forall i :: 0 <= i < |s| ==> s[i] != ' ') ==> r == s
  {
    if s == [] then []
    else if s[0] == ' ' then RemoveSpaces(s[1..])
    else [s[0]] + RemoveSpaces(s[1..])
  }

  /** `s.split(sep)`: the occurrences of `sep` are found from the left and
      do not overlap; there is always at least one piece. */
  function Split(s: string, sep: string): (r: seq<string>)
    requires |sep| > 0
    ensures |r| >= 1
    decreases |s|
  {
    if |s| < |sep| then [s]
    else if s[..|sep|] == sep then [[]] + Split(s[|sep|..], sep)
    else var rest := Split(s[1..], sep); [[s[0]] + rest[0]] + rest[1..]
  }

  /** `sep.join(ps)`. */
  function Join(ps: seq<string>, sep: string): string
    requires |ps| >= 1
  {
    if |ps| == 1 then ps[0] else ps[0] + sep + Join(ps[1..], sep)
  }

  /** Joining the pieces of a split gives back the string. */
  lemma {:induction false} JoinSplit(s: string, sep: string)
    requires |sep| > 0
    ensures Join(Split(s, sep), sep) == s
    decreases |s|
  {
    if |s| >= |sep| {
      if s[..|sep|] == sep {
        JoinSplit(s[|sep|..], sep);
        JoinSplitAtSep(s, sep);
      } else {
        JoinSplit(s[1..], sep);
        JoinSplitAtChar(s, sep);
      }
    }
  }

  /** The step of `JoinSplit` where `s` starts with the separator. */
  lemma {:induction false} JoinSplitAtSep(s: string, sep: string)
    requires |sep| > 0 && |s| >= |sep| && s[..|sep|] == sep
    requires Join(Split(s[|sep|..], sep), sep) == s[|sep|..]
    ensures Join(Split(s, sep), sep) == s
  {
    var rest := Split(s[|sep|..], sep);
    calc {
      Join(Split(s, sep), sep);
      Join([[]] + rest, sep);
      { JoinCons([], rest, sep); assert [] + sep == sep; }
      sep + Join(rest, sep);
      sep + s[|sep|..];
      { assert s == s[..|sep|] + s[|sep|..]; }
      s;
    }
  }

  /** The step of `JoinSplit` where `s` does not start with the separator. */
  lemma {:induction false} JoinSplitAtChar(s: string, sep: string)
    requires |sep| > 0 && |s| >= |sep| && s[..|sep|] != sep
    requires Join(Split(s[1..], sep), sep) == s[1..]
    ensures Join(Split(s, sep), sep) == s
  {
    var rest := Split(s[1..], sep);
    assert Split(s, sep) == [[s[0]] + rest[0]] + rest[1..];
    JoinGrow(s[0], rest, sep);
    assert s == [s[0]] + s[1..];
  }

  lemma {:induction false} JoinCons(p: string, rest: seq<string>, sep: string)
    requires |rest| >= 1
    ensures Join([p] + rest, sep) == p + sep + Join(rest, sep)
  {
    assert ([p] + rest)[1..] == rest;
  }

  /** A character put in front of the first piece is put in front of the join. */
  lemma {:induction false} JoinGrow(c: char, rest: seq<string>, sep: string)
    requires |rest| >= 1
    ensures Join([[c] + rest[0]] + rest[1..], sep) == [c] + Join(rest, sep)
  {
    var r := [[c] + rest[0]] + rest[1..];
    if |rest| > 1 {
      assert r[1..] == rest[1..];
    }
  }

  /** No piece of a split contains the separator. */
  lemma {:induction false} SplitPiecesFree(s: string, sep: string)
    requires |sep| > 0
    ensures forall p :: p in Split(s, sep) ==> !Contains(p, sep)
    decreases |s|
  {
    if |s| < |sep| {
      assert forall i :: !OccursAt(s, sep, i);
    } else if s[..|sep|] == sep {
      SplitPiecesFree(s[|sep|..], sep);
      assert forall i :: !OccursAt([], sep, i);
    } else {
      SplitPiecesFree(s[1..], sep);
      var rest := Split(s[1..], sep);
      var p := [s[0]] + rest[0];
      JoinSplit(s[1..], sep);
      FirstPieceIsPrefix(rest, sep);
      assert rest[0] == s[1..][..|rest[0]|];
      assert |p| >= |sep| ==> p[..|sep|] == s[..|sep|];
      assert !Contains(rest[0], sep) by { assert rest[0] in rest; }
      assert !OccursAt(p, sep, 0);
      assert forall i :: 1 <= i ==> !OccursAt(p, sep, i) by {
        forall i | 1 <= i ensures !OccursAt(p, sep, i) {
          assert !OccursAt(rest[0], sep, i - 1);
          if i + |sep| <= |p| {
            assert p[i..i + |sep|] == rest[0][i - 1..i - 1 + |sep|];
          }
        }
      }
    }
  }

  lemma {:induction false} FirstPieceIsPrefix(ps: seq<string>, sep: string)
    requires |ps| >= 1
    ensures |ps[0]| <= |Join(ps, sep)| && ps[0] == Join(ps, sep)[..|ps[0]|]
  {
  }

  /** A string without the separator is its own single piece. */
  lemma {:induction false} SplitWithout(s: string, sep: string)
    requires |sep| > 0 && !Contains(s, sep)
    ensures Split(s, sep) == [s]
    decreases |s|
  {
    if |s| >= |sep| {
      assert !OccursAt(s, sep, 0);
      forall i | OccursAt(s[1..], sep, i) ensures false {
        assert s[1..][i..i + |sep|] == s[i + 1..i + 1 + |sep|];
        assert OccursAt(s, sep, i + 1);
      }
      SplitWithout(s[1..], sep);
      assert [s[0]] + s[1..] == s;
    }
  }

  /** A first piece free of the separator's first character is split off
      exactly at the separator that follows it. */
  lemma {:induction false} SplitAfterPiece(p: string, sep: string, t: string)
    requires |sep| > 0 && sep[0] !in p
    ensures Split(p + sep + t, sep) == [p] + Split(t, sep)
    decreases |p|
  {
    var s := p + sep + t;
    if p == [] {
      assert s == sep + t && s[..|sep|] == sep && s[|sep|..] == t;
    } else {
      assert s[0] == p[0] && s[0] != sep[0];
      assert s[..|sep|] != sep;
      assert s[1..] == p[1..] + sep + t;
      SplitAfterPiece(p[1..], sep, t);
      assert [p[0]] + p[1..] == p;
    }
  }

  /** `split` undoes `join` when no piece but the last holds the separator's
      first character and the last does not hold the separator. */
  lemma {:induction false} SplitJoin(ps: seq<string>, sep: string)
    requires |sep| > 0 && |ps| >= 1
    requires forall i :: 0 <= i < |ps| - 1 ==> sep[0] !in ps[i]
    requires !Contains(ps[|ps| - 1], sep)
    ensures Split(Join(ps, sep), sep) == ps
  {
    if |ps| == 1 {
      SplitWithout(ps[0], sep);
    } else {
      SplitJoin(ps[1..], sep);
      SplitAfterPiece(ps[0], sep, Join(ps[1..], sep));
      assert [ps[0]] + ps[1..] == ps;
    }
  }

  /** Text in front of a join lands in its first piece. */
  lemma {:induction false} JoinPrefix(x: string, ps: seq<string>, sep: string)
    requires |ps| >= 1
    ensures x + Join(ps, sep) == Join(ps[0 := x + ps[0]], sep)
  {
    if |ps| > 1 {
      assert ps[0 := x + ps[0]][1..] == ps[1..];
    }
  }

  /** Text after a join lands in its last piece. */
  lemma {:induction false} JoinSuffix(ps: seq<string>, y: string, sep: string)
    requires |ps| >= 1
    ensures Join(ps, sep) + y == Join(ps[|ps| - 1 := ps[|ps| - 1] + y], sep)
  {
    if |ps| > 1 {
      var qs := ps[|ps| - 1 := ps[|ps| - 1] + y];
      assert Join(ps[1..], sep) + y == Join(qs[1..], sep) by {
        JoinSuffix(ps[1..], y, sep);
        assert qs[1..] == ps[1..][|ps| - 2 := ps[|ps| - 1] + y];
      }
      assert Join(qs, sep) == qs[0] + sep + Join(qs[1..], sep) && qs[0] == ps[0];
      assert Join(ps, sep) + y == ps[0] + sep + (Join(ps[1..], sep) + y);
    }
  }

  /** Every character of a join comes from a piece or from the separator. */
  lemma {:induction false} JoinChars(ps: seq<string>, sep: string)
    requires |ps| >= 1
    ensures forall c :: c in Join(ps, sep) ==> c in sep || exists i :: 0 <= i < |ps| && c in ps[i]
  {
    if |ps| > 1 {
      JoinChars(ps[1..], sep);
      forall c | c in Join(ps, sep) ensures c in sep || exists i :: 0 <= i < |ps| && c in ps[i] {
        if c in Join(ps[1..], sep) && c !in sep {
          var i :| 0 <= i < |ps| - 1 && c in ps[1..][i];
          assert ps[i + 1] == ps[1..][i];
        }
      }
    }
  }
}

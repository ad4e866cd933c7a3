/** montecarlo_vs_lasvegas.py: the Fermat primality test (a Monte Carlo
    algorithm: a `False` answer is always right) and randomized quick sort
    (a Las Vegas algorithm: the answer is always right). */
module MontecarloVsLasvegas {
  import opened Sequences
  import opened Wrappers
  import QuicksortComparison

  // ---------------------------------------------------------------------
  // Numbers
  // ---------------------------------------------------------------------

  function Pow(a: int, e: nat): int
  {
    if e == 0 then 1 else a * Pow(a, e - 1)
  }

  /** `n` has no divisor strictly between 1 and itself. */
  ghost predicate Prime(n: int)
  {
    n >= 2 && forall d :: 2 <= d < n ==> n % d != 0
  }

  /** Binomial coefficients by Pascal's rule. */
  function Binom(n: nat, k: nat): nat
  {
    if k == 0 then 1 else if n == 0 then 0 else Binom(n - 1, k - 1) + Binom(n - 1, k)
  }

  /** The first `m + 1` terms of the expansion of `(a + 1)^n`:
      the sum of `Binom(n, j) * a^j` for `j` from 0 to `m`. */
  function Expansion(n: nat, m: nat, a: int): int
  {
    if m == 0 then 1 else Expansion(n, m - 1, a) + Binom(n, m) * Pow(a, m)
  }

  lemma {:induction false} BinomAbove(n: nat, k: nat)
    requires k > n
    ensures Binom(n, k) == 0
    decreases n
  {
    if n > 0 {
      BinomAbove(n - 1, k - 1);
      BinomAbove(n - 1, k);
    }
  }

  lemma {:induction false} BinomOne(n: nat)
    ensures Binom(n, 1) == n
    decreases n
  {
    if n > 0 {
      BinomOne(n - 1);
    }
  }

  /** The absorption identity `k * C(n, k) == n * C(n - 1, k - 1)`. */
  lemma {:induction false} Absorption(n: nat, k: nat)
    requires n >= 1 && k >= 1
    ensures k * Binom(n, k) == n * Binom(n - 1, k - 1)
    decreases n
  {
    if k == 1 {
      BinomOne(n);
    } else if n == 1 {
      assert Binom(0, k) == 0 && Binom(0, k - 1) == 0;
    } else {
      Absorption(n - 1, k);
      Absorption(n - 1, k - 1);
      AbsorptionStep(n, k, Binom(n, k), Binom(n - 1, k - 1), Binom(n - 1, k), Binom(n - 2, k - 2), Binom(n - 2, k - 1));
    }
  }

  /** The arithmetic of one step of `Absorption`, with the coefficients
      `C(n, k) = b + c`, `b = C(n-1, k-1) = b1 + b2`, `c = C(n-1, k)`. */
  lemma {:induction false} AbsorptionStep(n: int, k: int, nk: int, b: int, c: int, b1: int, b2: int)
    requires nk == b + c && b == b1 + b2
    requires (k - 1) * b == (n - 1) * b1 && k * c == (n - 1) * b2
    ensures k * nk == n * b
  {
    calc {
      k * nk;
      k * b + k * c;
      b + (k - 1) * b + k * c;
      b + (n - 1) * b1 + (n - 1) * b2;
      { assert (n - 1) * (b1 + b2) == (n - 1) * b1 + (n - 1) * b2; }
      b + (n - 1) * b;
      n * b;
    }
  }

  /** Pascal's rule carried over to the partial expansions. */
  lemma {:induction false} ExpansionStep(n: nat, m: nat, a: int)
    requires m >= 1
    ensures Expansion(n + 1, m, a) == Expansion(n, m, a) + a * Expansion(n, m - 1, a)
    decreases m
  {
    if m == 1 {
      BinomOne(n);
      BinomOne(n + 1);
      assert Pow(a, 1) == a;
      assert (n + 1) * a == n * a + a;
    } else {
      ExpansionStep(n, m - 1, a);
      PascalArith(Expansion(n + 1, m, a), Expansion(n, m - 1, a), Expansion(n, m - 2, a), a,
        Binom(n, m - 1), Binom(n, m), Pow(a, m), Pow(a, m - 1));
    }
  }

  /** The arithmetic of one step of `ExpansionStep`. */
  lemma {:induction false} PascalArith(l: int, e1: int, e2: int, a: int, x: int, y: int, p: int, q: int)
    requires l == e1 + a * e2 + (x + y) * p && p == a * q
    ensures l == (e1 + y * p) + a * (e2 + x * q)
  {
    assert (x + y) * p == x * p + y * p;
    assert x * p == a * (x * q);
    assert a * (e2 + x * q) == a * e2 + a * (x * q);
  }

  /** Terms past `n` are zero. */
  lemma {:induction false} ExpansionFull(n: nat, m: nat, a: int)
    requires m >= n
    ensures Expansion(n, m, a) == Expansion(n, n, a)
    decreases m - n
  {
    if m > n {
      BinomAbove(n, m);
      ExpansionFull(n, m - 1, a);
    }
  }

  /** The binomial theorem for `(a + 1)^n`. */
  lemma {:induction false} BinomialTheorem(n: nat, a: int)
    ensures Pow(a + 1, n) == Expansion(n, n, a)
    decreases n
  {
    if n > 0 {
      BinomialTheorem(n - 1, a);
      ExpansionStep(n - 1, n, a);
      ExpansionFull(n - 1, n, a);
      var e := Expansion(n - 1, n - 1, a);
      calc {
        Pow(a + 1, n);
        (a + 1) * e;
        e + a * e;
      }
    }
  }

  /** Euclid's lemma: a prime dividing `a * b`, and not `a`, divides `b`. */
  lemma {:induction false} Euclid(p: int, a: int, b: int, c: int)
    requires Prime(p) && 0 < a < p && a * b == p * c
    ensures b % p == 0
    decreases a
  {
    if a == 1 {
      assert b == p * c;
      MultipleMod(p, c);
    } else {
      var q, r := p / a, p % a;
      assert r != 0 && 0 < r < a;
      assert p == q * a + r;
      calc {
        r * b;
        (p - q * a) * b;
        p * b - q * (a * b);
        p * b - q * (p * c);
        p * (b - q * c);
      }
      Euclid(p, r, b, b - q * c);
    }
  }

  lemma {:induction false} MultipleMod(p: int, c: int)
    requires p > 0
    ensures (p * c) % p == 0
  {
    var m := p * c;
    assert m == p * c + 0;
    assert m / p == c && m % p == 0 by {
      DivModUnique(m, p, c, 0);
    }
  }

  /** Quotient and remainder are unique. */
  lemma {:induction false} DivModUnique(m: int, p: int, q: int, r: int)
    requires p > 0 && 0 <= r < p && m == p * q + r
    ensures m / p == q && m % p == r
  {
    var q', r' := m / p, m % p;
    assert m == p * q' + r';
    assert p * (q - q') == r' - r by {
      assert p * (q - q') == p * q - p * q';
    }
    if q > q' {
      MulAtLeast(p, q - q');
    } else if q < q' {
      MulAtLeast(p, q' - q);
    }
  }

  lemma {:induction false} MulAtLeast(p: int, d: int)
    requires p > 0 && d >= 1
    ensures p * d >= p
  {
    assert p * d == p + p * (d - 1);
    assert p * (d - 1) >= 0;
  }

  /** A prime divides every binomial coefficient `C(p, k)` with `0 < k < p`. */
  lemma {:induction false} PrimeDividesBinom(p: nat, k: nat) returns (t: int)
    requires Prime(p) && 0 < k < p
    ensures Binom(p, k) == p * t
  {
    Absorption(p, k);
    Euclid(p, k, Binom(p, k), Binom(p - 1, k - 1));
    t := Binom(p, k) / p;
  }

  /** Modulo a prime `p`, the first `m + 1` terms of `(a + 1)^p` leave 1
      when `m < p`: the middle coefficients all vanish. */
  lemma {:induction false} ExpansionMod(p: nat, m: nat, a: int) returns (t: int)
    requires Prime(p) && m < p
    ensures Expansion(p, m, a) == 1 + p * t
    decreases m
  {
    if m == 0 {
      t := 0;
    } else {
      var t0 := ExpansionMod(p, m - 1, a);
      var u := PrimeDividesBinom(p, m);
      t := t0 + u * Pow(a, m);
      MultipleStep(Expansion(p, m, a), Expansion(p, m - 1, a), Binom(p, m), Pow(a, m), p, t0, u);
    }
  }

  /** Adding a multiple of `p` times anything keeps `1 + p * _`. */
  lemma {:induction false} MultipleStep(e: int, e0: int, b: int, w: int, p: int, t0: int, u: int)
    requires e == e0 + b * w && e0 == 1 + p * t0 && b == p * u
    ensures e == 1 + p * (t0 + u * w)
  {
    assert (p * u) * w == p * (u * w);
    assert p * (t0 + u * w) == p * t0 + p * (u * w);
  }

  /** Fermat's little theorem, first form: `a^p - a` is a multiple of `p`. */
  lemma {:induction false} FermatPower(p: nat, a: nat) returns (s: int)
    requires Prime(p)
    ensures Pow(a, p) == a + p * s
    decreases a
  {
    if a == 0 {
      ZeroPow(p);
      s := 0;
    } else {
      var s0 := FermatPower(p, a - 1);
      BinomialTheorem(p, a - 1);
      var t := ExpansionMod(p, p - 1, a - 1);
      assert Expansion(p, p, a - 1) == 1 + p * t + Binom(p, p) * Pow(a - 1, p);
      BinomDiagonal(p);
      s := s0 + t;
    }
  }

  lemma {:induction false} ZeroPow(e: nat)
    requires e >= 1
    ensures Pow(0, e) == 0
  {
  }

  lemma {:induction false} BinomDiagonal(n: nat)
    ensures Binom(n, n) == 1
    decreases n
  {
    if n > 0 {
      BinomDiagonal(n - 1);
      BinomAbove(n - 1, n);
    }
  }

  /** Fermat's little theorem: `a^(p-1) mod p == 1` for a prime `p` and
      `0 < a < p`. */
  lemma {:induction false} FermatLittle(p: nat, a: nat)
    requires Prime(p) && 0 < a < p
    ensures Pow(a, p - 1) % p == 1
  {
    var s := FermatPower(p, a);
    var q := Pow(a, p - 1);
    assert a * (q - 1) == p * s;
    Euclid(p, a, q - 1, s);
    var m := (q - 1) / p;
    assert q - 1 == p * m;
    DivModUnique(q, p, m, 1);
  }

  /** A witness drawn from `randint(2, n - 2)` that `n` fails Fermat's test on. */
  predicate Witness(n: int, a: int)
  {
    n > 2 && 2 <= a <= n - 2 && PowMod(a, n - 1, n) != 1
  }

  /** A witness `a` with `a^(n-1) mod n != 1` shows that `n` is not prime. */
  lemma {:induction false} FermatWitness(n: int, a: int)
    requires 0 < a < n
    ensures Prime(n) ==> PowMod(a, n - 1, n) == 1
  {
    if Prime(n) {
      FermatLittle(n, a);
    }
  }

  // ---------------------------------------------------------------------
  // The Monte Carlo test
  // ---------------------------------------------------------------------

  /** Python's `pow(a, e, n)` for a positive modulus. */
  function PowMod(a: int, e: nat, n: int): (r: int)
    requires n > 0
    ensures 0 <= r < n
  {
    Pow(a, e) % n
  }

  /** `fermat_test(n, k)`: `k` rounds, each drawing a witness `a` with
      `random.randint(2, n - 2)`. The range is empty when `n == 3`, and
      `randint` raises. A `False` answer for `n > 2` proves `n` composite;
      a prime other than 3 always gets `True`. */
  method FermatTest(n: int, k: int) returns (r: Outcome<bool>)
    ensures n <= 1 ==> r == Value(false)
    ensures n == 2 ==> r == Value(true)
    ensures r == Raised <==> n == 3 && k > 0
    ensures r == Value(false) && n > 2 ==> !Prime(n)
    ensures r == Value(false) && n > 2 ==> exists a :: Witness(n, a)
    ensures Prime(n) && n != 3 ==> r == Value(true)
  {
    if n <= 1 {
      return Value(false);
    }
    if n == 2 {
      return Value(true);
    }
    var i := 0;
    while i < k
      invariant n == 3 ==> i == 0
    {
      if n - 2 < 2 {
        return Raised;
      }
      var a :| 2 <= a <= n - 2;
      if PowMod(a, n - 1, n) != 1 {
        FermatWitness(n, a);
        assert Witness(n, a);
        return Value(false);
      }
      i := i + 1;
    }
    return Value(true);
  }

  // ---------------------------------------------------------------------
  // The Las Vegas sort
  // ---------------------------------------------------------------------

  /** `las_vegas_sort`: the same randomized quick sort as `quicksort_rand`
      in quicksort_comparison.py, so it is that method; whatever pivots are
      drawn, the result is the sorted permutation of the input. */
  method LasVegasSort(arr: seq<int>) returns (r: seq<int>)
    ensures Sorted(r) && multiset(r) == multiset(arr)
  {
    r := QuicksortComparison.QuicksortRand(arr);
  }
}

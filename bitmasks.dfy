/** Python's bit operations on non-negative integers used as sets of
    vertices: `1 << k`, `mask & (1 << k)` and `mask ^ (1 << k)` on a set
    bit. */
module Bitmasks {
  /** `1 << k`. */
  function Pow2(k: nat): (r: nat)
    ensures r >= 1
  {
    if k == 0 then 1 else 2 * Pow2(k - 1)
  }

  /** `mask & (1 << k) != 0`. */
  predicate Bit(m: nat, k: nat)
  {
    if k == 0 then m % 2 == 1 else Bit(m / 2, k - 1)
  }

  lemma {:induction false} ZeroBits(k: nat)
    ensures !Bit(0, k)
  {
    if k > 0 {
      ZeroBits(k - 1);
    }
  }

  /** `1 << j` has bit `j` and no other. */
  lemma {:induction false} PowerBits(j: nat, k: nat)
    ensures Bit(Pow2(j), k) <==> k == j
  {
    if j == 0 {
      if k > 0 {
        ZeroBits(k - 1);
      }
    } else if k > 0 {
      PowerBits(j - 1, k - 1);
    }
  }

  /** On a set bit `j`, `mask ^ (1 << j)` is `mask - (1 << j)`, and it
      clears bit `j` and keeps every other. */
  lemma {:induction false} ClearBit(m: nat, j: nat, k: nat)
    requires Bit(m, j)
    ensures m >= Pow2(j)
    ensures Bit(m - Pow2(j), k) <==> Bit(m, k) && k != j
  {
    if j == 0 {
      if k > 0 {
        assert (m - 1) / 2 == m / 2;
      }
    } else {
      var p := Pow2(j - 1);
      if k > 0 {
        ClearBit(m / 2, j - 1, k - 1);
      } else {
        ClearBit(m / 2, j - 1, 0);
      }
      assert (m - 2 * p) / 2 == m / 2 - p;
      assert (m - 2 * p) % 2 == m % 2;
    }
  }

  /** A non-zero mask below `1 << n` has a set bit below `n`. */
  lemma {:induction false} SomeBit(m: nat, n: nat) returns (k: nat)
    requires 0 < m < Pow2(n)
    ensures k < n && Bit(m, k)
  {
    if m % 2 == 1 {
      k := 0;
      assert n > 0;
    } else {
      var k' := SomeBit(m / 2, n - 1);
      k := k' + 1;
    }
  }

  /** `(1 << m) - 1` has exactly the bits below `m`. */
  lemma {:induction false} LowBits(m: nat, k: nat)
    ensures Bit(Pow2(m) - 1, k) <==> k < m
  {
    if m == 0 {
      ZeroBits(k);
    } else if k > 0 {
      assert (Pow2(m) - 1) / 2 == Pow2(m - 1) - 1;
      LowBits(m - 1, k - 1);
    }
  }

  /** `full_mask - 1 == (1 << n) - 2` has exactly the bits `1 .. n - 1`. */
  lemma {:induction false} AllButZero(n: nat, k: nat)
    requires n >= 1
    ensures Pow2(n) >= 2
    ensures Bit(Pow2(n) - 2, k) <==> 1 <= k < n
  {
    if k > 0 {
      assert (Pow2(n) - 2) / 2 == Pow2(n - 1) - 1;
      LowBits(n - 1, k - 1);
    }
  }
}

/** proof_techniques.py: factorial and Fibonacci by recursion (its binary
    search is the one of time_complexity_basic.py, TimeComplexityBasic.BinarySearch). */
module ProofTechniques {
  /** `factorial`; a negative `n` never reaches the base case in the source,
      so it is excluded. */
  function Factorial(n: int): (r: int)
    requires n >= 0
    ensures r >= 1 && r >= n
  {
    if n == 0 then 1 else n * Factorial(n - 1)
  }

  /** Every number from 1 to `n` divides `n!`. */
  lemma {:induction false} FactorialDivisible(n: int, k: int)
    requires 1 <= k <= n
    ensures Factorial(n) % k == 0
  {
    var m := Cofactor(n, k);
    MultipleMod(k, m);
  }

  /** `n! / k`, built along the recursion. */
  lemma {:induction false} Cofactor(n: int, k: int) returns (m: int)
    requires 1 <= k <= n
    ensures Factorial(n) == k * m
  {
    if k == n {
      m := Factorial(n - 1);
    } else {
      var m' := Cofactor(n - 1, k);
      m := n * m';
      calc {
        Factorial(n);
        n * Factorial(n - 1);
        n * (k * m');
        { MulCommutes(n, k, m'); }
        k * (n * m');
      }
    }
  }

  lemma {:induction false} MulCommutes(a: int, b: int, c: int)
    ensures a * (b * c) == b * (a * c)
  {
  }

  lemma {:induction false} MultipleMod(k: int, m: int)
    requires k >= 1
    ensures (k * m) % k == 0
  {
    var q, r := (k * m) / k, (k * m) % k;
    assert k * m == k * q + r && 0 <= r < k;
    var d := m - q;
    assert k * d == r;
  }

  /** `fibonacci`: `n` itself for every `n <= 1` (negative ones included),
      otherwise the sum of the two before. */
  function Fibonacci(n: int): (r: int)
    ensures n >= 0 ==> r >= 0
    ensures n >= 1 ==> r >= 1
    decreases if n < 0 then 0 else n
  {
    if n <= 1 then n else Fibonacci(n - 1) + Fibonacci(n - 2)
  }

  /** F(0) + F(1) + ... + F(n). */
  function FibonacciSum(n: nat): int
  {
    if n == 0 then 0 else FibonacciSum(n - 1) + Fibonacci(n)
  }

  /** The classic identity proved by induction: the first `n + 1` Fibonacci
      numbers add up to F(n + 2) - 1. */
  lemma {:induction false} FibonacciSumIdentity(n: nat)
    ensures FibonacciSum(n) == Fibonacci(n + 2) - 1
  {
    if n > 0 {
      FibonacciSumIdentity(n - 1);
    }
  }

  /** The sequence never decreases from F(1) on. */
  lemma {:induction false} FibonacciMonotone(m: int, n: int)
    requires 1 <= m <= n
    ensures Fibonacci(m) <= Fibonacci(n)
    decreases n - m
  {
    if m < n {
      FibonacciMonotone(m, n - 1);
    }
  }
}

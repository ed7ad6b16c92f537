/** Numbers used throughout: powers of two, and rounded quotients. */
module Numbers {
  function Pow2(n: nat): (r: nat)
    ensures r >= 1
  {
    if n == 0 then 1 else 2 * Pow2(n - 1)
  }

  ghost predicate IsPow2(n: nat) {
    exists e: nat :: Pow2(e) == n
  }

  lemma {:induction false} Pow2Add(a: nat, b: nat)
    ensures Pow2(a + b) == Pow2(a) * Pow2(b)
  {
    if a > 0 {
      Pow2Add(a - 1, b);
    }
  }

  lemma {:induction false} Pow2OfTwo()
    ensures Pow2(2) == 4
  {
  }

  lemma {:induction false} Pow2Monotone(a: nat, b: nat)
    requires a < b
    ensures Pow2(b) >= 2 * Pow2(a)
  {
    if a + 1 < b {
      Pow2Monotone(a, b - 1);
    }
  }

  lemma {:induction false} ScaleUp(a: int, b: int, f: int)
    requires a <= b && f >= 0
    ensures a * f <= b * f
  {
  }

  lemma {:induction false} FloorBetween(n: nat, d: nat)
    requires d > 0
    ensures (n / d) * d <= n < (n / d + 1) * d
  {
  }

  /** A rounded-down quotient is the largest q with q * d <= n. */
  lemma {:induction false} FloorAtLeast(n: nat, d: nat, q: nat)
    requires d > 0
    ensures q <= n / d <==> q * d <= n
  {
    FloorBetween(n, d);
    if q <= n / d {
      ScaleUp(q, n / d, d);
    } else {
      ScaleUp(n / d + 1, q, d);
    }
  }

  /** A rounded-up quotient is the smallest q with n <= q * d. */
  lemma {:induction false} CeilAtMost(n: nat, d: nat, q: nat)
    requires d > 0
    ensures (n + (d - 1)) / d <= q <==> n <= q * d
  {
    FloorAtLeast(n + (d - 1), d, q + 1);
    assert (q + 1) * d == q * d + d;
  }
}

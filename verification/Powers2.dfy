/** Powers of two as the source uses them: `is_power_of_two`, `next_power_of_two` and their logarithm. */
module Powers2 {
  function Pow2(k: nat): (r: nat)
    ensures r > 0
  {
    if k == 0 then 1 else 2 * Pow2(k - 1)
  }

  predicate IsPow2(n: int) {
    n == 1 || (n > 1 && n % 2 == 0 && IsPow2(n / 2))
  }

  /** The smallest power of two that is at least n; 1 for 0. */
  function NextPow2(n: nat): nat {
    if n <= 1 then 1 else 2 * NextPow2((n + 1) / 2)
  }

  function Log2(n: nat): nat
    requires IsPow2(n)
  {
    if n == 1 then 0 else 1 + Log2(n / 2)
  }

  lemma {:induction false} NextPow2IsLeast(n: nat)
    ensures IsPow2(NextPow2(n)) && NextPow2(n) >= n
    ensures n > 1 ==> NextPow2(n) < 2 * n - 1
    ensures forall m :: IsPow2(m) && m >= n ==> NextPow2(n) <= m
  {
    if n > 1 {
      NextPow2IsLeast((n + 1) / 2);
    }
  }

  lemma {:induction false} NextPow2OfPow2(n: nat)
    requires IsPow2(n)
    ensures NextPow2(n) == n
  {
    if n > 1 {
      NextPow2OfPow2(n / 2);
    }
  }

  lemma {:induction false} Log2IsInverse(n: nat)
    requires IsPow2(n)
    ensures Pow2(Log2(n)) == n
  {
    if n > 1 {
      Log2IsInverse(n / 2);
    }
  }
}

/** The scalar field of BLS12-381: the integers modulo the 255-bit prime P, always kept as the canonical
    representative. Elements are what `ArkScalar` denotes; every operation below is the one the erasure code uses. */
module Field {
  import opened Results

  const P: int := 0x73eda753299d7d483339d80809a1d80553bda402fffe5bfeffffffff00000001

  type Scalar = x: int | 0 <= x < P

  /** The canonical representative of an integer. */
  function Mod(x: int): Scalar { x % P }

  function Add(a: Scalar, b: Scalar): Scalar { Mod(a + b) }

  function Sub(a: Scalar, b: Scalar): Scalar { Mod(a - b) }

  /** The integer product by its recurrence, so that no proof has to multiply numbers of the size of P. */
  function Times(x: int, y: nat): int {
    if y == 0 then 0 else x + Times(x, y - 1)
  }

  function Mul(a: Scalar, b: Scalar): Scalar { Mod(Times(a, b)) }

  function Pow(a: Scalar, n: nat): Scalar {
    if n == 0 then 1 else Mul(a, Pow(a, n - 1))
  }

  /** P has no divisor other than 1 and itself. `Primality.ModulusIsPrime` proves it; the lemmas that divide come before
      that proof and require it. */
  ghost predicate PrimeModulus() {
    forall d: int {:trigger P % d} :: 1 < d < P ==> P % d != 0
  }

  // ---------- Reduction modulo P ----------

  lemma ModAddMultiple(x: int, k: int)
    ensures Mod(x + k * P) == Mod(x)
  {}

  lemma ModOfScalar(a: Scalar)
    ensures Mod(a) == a
  {}

  lemma ModSum(x: int, y: int)
    ensures Mod(Mod(x) + Mod(y)) == Mod(x + y)
    ensures Mod(Mod(x) - Mod(y)) == Mod(x - y)
  {
    ModAddMultiple(Mod(x) + Mod(y), x / P + y / P);
    ModAddMultiple(Mod(x) - Mod(y), x / P - y / P);
  }

  // ---------- Integer products ----------

  lemma {:induction false} TimesIsProduct(x: int, y: nat)
    ensures Times(x, y) == x * y
  {
    if y > 0 {
      TimesIsProduct(x, y - 1);
      assert x * y == x + x * (y - 1);
    }
  }

  lemma TimesComm(x: nat, y: nat)
    ensures Times(x, y) == Times(y, x)
  {
    TimesIsProduct(x, y);
    TimesIsProduct(y, x);
  }

  lemma ProductRotate(x: int, y: int, z: int)
    ensures x * y * z == y * z * x
  {}

  lemma TimesRotate(x: nat, y: nat, z: nat)
    ensures Times(Times(x, y), z) == Times(Times(y, z), x)
  {
    hide Times;
    TimesIsProduct(x, y);
    TimesIsProduct(y, z);
    TimesIsProduct(x * y, z);
    TimesIsProduct(y * z, x);
    ProductRotate(x, y, z);
  }

  lemma {:induction false} TimesAdd(x: int, y: int, z: nat)
    ensures Times(x + y, z) == Times(x, z) + Times(y, z)
    ensures Times(x - y, z) == Times(x, z) - Times(y, z)
  {
    if z > 0 {
      TimesAdd(x, y, z - 1);
    }
  }

  /** A factor may be reduced before multiplying. */
  lemma {:induction false} ModTimes(x: int, y: nat)
    ensures Mod(Times(Mod(x), y)) == Mod(Times(x, y))
  {
    hide Mod;
    if y > 0 {
      ModTimes(x, y - 1);
      ModSum(Mod(x), Times(Mod(x), y - 1));
      ModSum(x, Times(x, y - 1));
      ModTwice(x);
    }
  }

  lemma ModTwice(x: int)
    ensures Mod(Mod(x)) == Mod(x)
  {}

  /** The field multiplies integers and reduces. */
  lemma MulIsProduct(a: Scalar, b: Scalar)
    ensures Mul(a, b) == a * b % P
  {
    TimesIsProduct(a, b);
  }

  // ---------- Ring laws ----------

  lemma AddSwap(a: Scalar, b: Scalar, c: Scalar, d: Scalar)
    ensures Add(Add(a, b), Add(c, d)) == Add(Add(a, c), Add(b, d))
  {
    hide Mod;
    ModSum(a + b, c + d);
    ModSum(a + c, b + d);
  }

  lemma MulComm(a: Scalar, b: Scalar)
    ensures Mul(a, b) == Mul(b, a)
  {
    hide Mod;
    TimesComm(a, b);
  }

  lemma MulUnits(a: Scalar)
    ensures Mul(1, a) == Mul(a, 1) == a && Mul(0, a) == Mul(a, 0) == 0
    ensures Add(0, a) == Add(a, 0) == a
  {
    MulComm(1, a);
    MulComm(0, a);
  }

  lemma SubIsZero(a: Scalar, b: Scalar)
    ensures Sub(a, b) == 0 <==> a == b
  {}

  /** A factor that is a reduced integer. */
  lemma MulOfMod(x: int, a: Scalar)
    ensures Mul(Mod(x), a) == Mul(a, Mod(x)) == Mod(Times(x, a))
  {
    hide Mod;
    ModTimes(x, a);
    MulComm(a, Mod(x));
  }

  lemma MulAssoc(a: Scalar, b: Scalar, c: Scalar)
    ensures Mul(Mul(a, b), c) == Mul(a, Mul(b, c))
  {
    hide Mod;
    MulOfMod(Times(a, b), c);
    MulOfMod(Times(b, c), a);
    TimesRotate(a, b, c);
  }

  lemma MulAdd(a: Scalar, b: Scalar, c: Scalar)
    ensures Mul(a, Add(b, c)) == Add(Mul(a, b), Mul(a, c))
  {
    hide Mod;
    MulOfMod(b + c, a);
    TimesAdd(b, c, a);
    ModSum(Times(b, a), Times(c, a));
    TimesComm(a, b);
    TimesComm(a, c);
  }

  lemma MulSub(a: Scalar, b: Scalar, c: Scalar)
    ensures Mul(a, Sub(b, c)) == Sub(Mul(a, b), Mul(a, c))
  {
    hide Mod;
    MulOfMod(b - c, a);
    TimesAdd(b, c, a);
    ModSum(Times(b, a), Times(c, a));
    TimesComm(a, b);
    TimesComm(a, c);
  }

  /** The rearrangement (a b)(c d) = (a c)(b d). */
  lemma MulSwap(a: Scalar, b: Scalar, c: Scalar, d: Scalar)
    ensures Mul(Mul(a, b), Mul(c, d)) == Mul(Mul(a, c), Mul(b, d))
  {
    hide Mul;
    MulAssoc(a, b, Mul(c, d));
    MulAssoc(b, c, d);
    MulComm(b, c);
    MulAssoc(c, b, d);
    MulAssoc(a, c, Mul(b, d));
  }

  lemma MulLeftComm(a: Scalar, b: Scalar, c: Scalar)
    ensures Mul(a, Mul(b, c)) == Mul(b, Mul(a, c))
  {
    hide Mul;
    MulAssoc(a, b, c);
    MulComm(a, b);
    MulAssoc(b, a, c);
  }

  // ---------- Inverses ----------

  /** The inverse of a non-zero element by the Euclidean recurrence P = (P / a) a + P % a. */
  function Inv(a: Scalar): Scalar
    decreases a
  {
    if a <= 1 then a else Mod(0 - Times(P / a, Inv(P % a)))
  }

  /** `inverse()` of the field: none exactly on zero. */
  function Inverse(a: Scalar): (r: Option<Scalar>) {
    if a == 0 then None else Some(Inv(a))
  }

  lemma {:induction false} InvIsInverse(a: Scalar)
    requires PrimeModulus() && a != 0
    ensures Mul(a, Inv(a)) == 1
    decreases a
  {
    if a > 1 {
      InvIsInverse(P % a);
      InvStep(a, Inv(P % a));
    }
  }

  /** If r b = 1 and p = q a + r then a (-q b) = 1 modulo p. */
  lemma TimesOfQuotient(p: nat, q: nat, r: nat, a: nat, b: nat)
    requires p == q * a + r
    ensures Times(0 - Times(q, b), a) == Times(r, b) + (0 - b) * p
  {
    TimesIsProduct(q, b);
    TimesIsProduct(r, b);
    TimesIsProduct(0 - q * b, a);
    assert (0 - q * b) * a == (0 - b) * (q * a);
    assert (0 - b) * (q * a) == (0 - b) * p + b * r by {
      assert q * a == p - r;
    }
  }

  lemma InvStep(a: Scalar, b: Scalar)
    requires a > 1 && Mul(P % a, b) == 1
    ensures Mul(a, Mod(0 - Times(P / a, b))) == 1
  {
    hide Mod;
    var q, r := P / a, P % a;
    TimesOfQuotient(P, q, r, a, b);
    MulOfMod(0 - Times(q, b), a);
    ModAddMultiple(Times(r, b), 0 - b);
  }

  lemma NoZeroDivisors(a: Scalar, b: Scalar)
    requires PrimeModulus() && a != 0 && b != 0
    ensures Mul(a, b) != 0
  {
    hide Mul;
    InvIsInverse(a);
    MulAssoc(Inv(a), a, b);
    MulComm(a, Inv(a));
    MulUnits(b);
    MulUnits(Inv(a));
  }

  lemma CancelLeft(a: Scalar, b: Scalar, c: Scalar)
    requires PrimeModulus() && a != 0 && Mul(a, b) == Mul(a, c)
    ensures b == c
  {
    if b != c {
      hide Mul, Sub;
      NoZeroDivisors(a, Sub(b, c));
      MulSub(a, b, c);
      SubIsZero(b, c);
      SubIsZero(Mul(a, b), Mul(a, c));
    }
  }

  // ---------- Powers ----------

  lemma {:induction false} PowAdd(a: Scalar, m: nat, n: nat)
    ensures Pow(a, m + n) == Mul(Pow(a, m), Pow(a, n))
  {
    hide Mul;
    if m == 0 {
      MulUnits(Pow(a, n));
    } else {
      PowAdd(a, m - 1, n);
      MulAssoc(a, Pow(a, m - 1), Pow(a, n));
    }
  }

  lemma {:induction false} PowMul(a: Scalar, m: nat, n: nat)
    ensures Pow(a, m * n) == Pow(Pow(a, m), n)
  {
    hide Mul;
    if n == 0 {
      assert m * n == 0;
    } else {
      PowMul(a, m, n - 1);
      assert m * n == m + m * (n - 1);
      PowAdd(a, m, m * (n - 1));
    }
  }

  lemma {:induction false} PowOfMul(a: Scalar, b: Scalar, n: nat)
    ensures Pow(Mul(a, b), n) == Mul(Pow(a, n), Pow(b, n))
  {
    hide Mul;
    if n == 0 {
      MulUnits(1);
    } else {
      PowOfMul(a, b, n - 1);
      MulSwap(a, b, Pow(a, n - 1), Pow(b, n - 1));
    }
  }

  lemma {:induction false} PowOne(n: nat)
    ensures Pow(1, n) == 1
  {
    hide Mul;
    if n > 0 {
      PowOne(n - 1);
      MulUnits(1);
    }
  }

  lemma {:induction false} PowNonZero(a: Scalar, n: nat)
    requires PrimeModulus() && a != 0
    ensures Pow(a, n) != 0
  {
    hide Mul;
    if n > 0 {
      PowNonZero(a, n - 1);
      NoZeroDivisors(a, Pow(a, n - 1));
    }
  }
}

/** The modulus is prime. A power of 7 has, modulo every divisor of P above 1, an order F with F * F > P; a divisor has
    at least as many residues as that, so that P is not the product of two. */
module Primality {
  import opened Field
  import opened Domain
  import opened Powers2
  import opened Division
  import opened Generators

  // ---------- Remainders ----------

  lemma RestOf(n: int, d: nat, q: int, r: nat)
    requires n == d * q + r && r < d
    ensures n % d == r
  {
    var k := n / d - q;
    assert d * k == d * (n / d) - d * q;
    assert d * k == r - n % d;
    assert d * k == k * d;
    if k >= 1 {
      MulLe(1, k, d);
    }
    if k <= -1 {
      MulLe(k, -1, d);
    }
    assert k == 0;
  }

  lemma MultipleMod(k: int, d: nat, y: int)
    requires d > 0
    ensures (d * k + y) % d == y % d
  {
    assert d * (k + y / d) == d * k + d * (y / d);
    RestOf(d * k + y, d, k + y / d, y % d);
  }

  lemma ModOfMod(x: int, p: nat, d: nat)
    requires d > 0 && p > 0 && p % d == 0
    ensures (x % p) % d == x % d
  {
    var c, q := p / d, x / p;
    assert p == d * c && x == p * q + x % p;
    assert p * q == d * (c * q);
    MultipleMod(c * q, d, x % p);
  }

  lemma OneTimes(a: int, b: int, d: nat)
    requires d > 1 && a % d == 1
    ensures (a * b) % d == b % d && (b * a) % d == b % d
  {
    var k := a / d;
    assert a == d * k + 1;
    assert (d * k + 1) * b == d * (k * b) + b;
    assert a * b == b * a;
    MultipleMod(k * b, d, b);
  }

  lemma ModTimesMod(a: int, b: int, c: int, d: nat)
    requires d > 0 && a % d == b % d
    ensures (a * c) % d == (b * c) % d
  {
    var k := a / d - b / d;
    assert d * k == d * (a / d) - d * (b / d);
    assert a == b + d * k;
    assert (b + d * k) * c == d * (k * c) + b * c;
    MultipleMod(k * c, d, b * c);
  }

  // ---------- Primes ----------

  ghost predicate IsPrime(r: nat) {
    r > 1 && forall d: nat {:trigger r % d} :: 1 < d < r ==> r % d != 0
  }

  /** A prime that divides a product divides one of the factors. */
  lemma {:induction false} PrimeDivides(r: nat, a: nat, b: nat, k: int)
    requires IsPrime(r) && a * b == r * k && 0 < a < r
    ensures b % r == 0
    decreases a
  {
    if a == 1 {
      MultipleMod(k, r, 0);
    } else {
      var q, s := r / a, r % a;
      assert r == a * q + s;
      RestTimes(r, a, b, k, q, s);
      PrimeDivides(r, s, b, b - q * k);
    }
  }

  lemma RestTimes(r: nat, a: nat, b: nat, k: int, q: nat, s: nat)
    requires r == a * q + s && a * b == r * k
    ensures s * b == r * (b - q * k)
  {
    assert (a * q + s) * b == q * (a * b) + s * b;
    assert r * (b - q * k) == r * b - q * (r * k);
  }

  lemma PrimeDividesOne(r: nat, a: nat, b: nat)
    requires IsPrime(r) && (a * b) % r == 0 && a % r != 0
    ensures b % r == 0
  {
    var k, t, s := (a * b) / r, a / r, a % r;
    assert a * b == r * k && a == r * t + s;
    assert (r * t + s) * b == r * (t * b) + s * b;
    assert r * (k - t * b) == r * k - r * (t * b);
    PrimeDivides(r, s, b, k - t * b);
  }

  // ---------- Products of primes ----------

  function Product(rs: seq<nat>): nat {
    if rs == [] then 1 else rs[0] * Product(rs[1..])
  }

  /** A number above 1 that divides a product of primes is divisible by one of them. */
  lemma {:induction false} SomePrime(rs: seq<nat>, m: nat, g: nat) returns (r: nat)
    requires (forall i :: 0 <= i < |rs| ==> IsPrime(rs[i])) && m > 1 && m * g == Product(rs)
    ensures r in rs && r > 0 && m % r == 0
  {
    if rs == [] {
      NotOne(m, g);
    } else if IsPrime(rs[0]) && m % rs[0] == 0 {
      r := rs[0];
    } else {
      r := rs[0];
      var rest := Product(rs[1..]);
      assert IsPrime(r);
      MultipleMod(rest, r, 0);
      PrimeDividesOne(r, m, g);
      var h := g / r;
      assert g == r * h;
      assert m * (r * h) == r * (m * h);
      CancelFactor(r, m * h, rest);
      r := SomePrime(rs[1..], m, h);
    }
  }

  lemma NotOne(m: nat, g: nat)
    requires m > 1
    ensures m * g != 1
  {
    if g > 0 {
      MulLe(1, g, m);
      assert m * g == g * m;
    }
  }

  lemma CancelFactor(r: nat, a: int, b: int)
    requires r > 0 && r * a == r * b
    ensures a == b
  {
    assert r * (a - b) == 0;
    assert (a - b) * r == r * (a - b);
    if a > b {
      MulLe(1, a - b, r);
    }
    if a < b {
      MulLe(a - b, -1, r);
    }
  }

  // ---------- Powers modulo a divisor ----------

  ghost predicate Divisor(d: nat) {
    1 < d && P % d == 0
  }

  lemma MulMod(a: Scalar, b: Scalar, d: nat)
    requires Divisor(d)
    ensures Mul(a, b) % d == (a * b) % d
  {
    var p := P;
    MulIsProduct(a, b);
    hide Mul;
    ModOfMod(a * b, p, d);
  }

  lemma {:induction false} PowMod(x: Scalar, k: nat, d: nat)
    requires Divisor(d) && x % d == 1
    ensures Pow(x, k) % d == 1
  {
    hide Mul, Divisor;
    if k > 0 {
      PowMod(x, k - 1, d);
      MulMod(x, Pow(x, k - 1), d);
      OneTimesDivisor(x, Pow(x, k - 1), d);
    } else {
      DivisorAboveOne(d);
    }
  }

  lemma DivisorAboveOne(d: nat)
    requires Divisor(d)
    ensures d > 1
  {}

  lemma OneTimesDivisor(a: int, b: int, d: nat)
    requires Divisor(d) && a % d == 1
    ensures (a * b) % d == b % d && (b * a) % d == b % d
  {
    OneTimes(a, b, d);
  }

  lemma OnePowTimes(h: Scalar, d: nat, t: nat, s: nat)
    requires Divisor(d) && d > 1 && Pow(h, t) % d == 1 && Pow(h, t + s) == Mul(Pow(h, t), Pow(h, s))
    ensures Pow(h, s) % d == Pow(h, t + s) % d
  {
    hide Mul, Pow, Divisor;
    DivisorAboveOne(d);
    MulMod(Pow(h, t), Pow(h, s), d);
    OneTimesDivisor(Pow(h, t), Pow(h, s), d);
  }

  /** If the powers at n and at f are 1, so is the one at f % n. */
  lemma RestIsOne(h: Scalar, d: nat, f: nat, n: nat)
    requires Divisor(d) && d > 1 && 0 < n && Pow(h, f) % d == 1 && Pow(h, n) % d == 1
    ensures Pow(h, f % n) % d == 1
  {
    var q, t := Divided(f, n);
    hide Pow, Divisor;
    RestOfPower(h, d, n, q, t, f % n);
  }

  lemma Divided(f: nat, n: nat) returns (q: nat, t: nat)
    requires n > 0
    ensures t == n * q && f == t + f % n
  {
    QuotientBounds(f, n);
    q := f / n;
    t := f - f % n;
  }

  lemma RestOfPower(h: Scalar, d: nat, n: nat, q: nat, t: nat, s: nat)
    requires Divisor(d) && d > 1 && t == n * q && Pow(h, t + s) % d == 1 && Pow(h, n) % d == 1
    ensures Pow(h, s) % d == 1
  {
    hide Mul, Pow, Divisor;
    PowAdd(h, t, s);
    PowMul(h, n, q);
    PowMod(Pow(h, n), q, d);
    OnePowTimes(h, d, t, s);
  }

  /** Then there is such an n that divides f. */
  lemma {:induction false} SmallestOne(h: Scalar, d: nat, f: nat, n: nat) returns (g: nat)
    requires Divisor(d) && d > 1 && 0 < n < f && Pow(h, f) % d == 1 && Pow(h, n) % d == 1
    ensures 0 < g < f && f % g == 0 && Pow(h, g) % d == 1
    decreases n
  {
    hide Pow, Divisor;
    if f % n == 0 {
      g := n;
    } else {
      RestIsOne(h, d, f, n);
      g := SmallestOne(h, d, f, f % n);
    }
  }

  /** Where the quotient of f by each of its primes does not give 1 modulo any divisor: no n below f gives 1. */
  ghost predicate IsWitness(h: Scalar, d: nat, rs: seq<nat>) {
    && d > 1 && (forall i :: 0 <= i < |rs| ==> IsPrime(rs[i]))
    && Pow(h, Product(rs)) % d == 1
    && forall r :: r in rs ==> NotOneAt(h, d, Product(rs), r)
  }

  ghost predicate NotOneAt(h: Scalar, d: nat, f: nat, r: nat) {
    d > 0 && r > 0 && 0 <= f / r && Pow(h, f / r) % d != 1
  }

  lemma NoSmallerOne(h: Scalar, d: nat, rs: seq<nat>, n: nat)
    requires Divisor(d) && IsWitness(h, d, rs) && 0 < n < Product(rs)
    ensures Pow(h, n) % d != 1
  {
    hide Pow, Divisor, Product, IsPrime;
    if Pow(h, n) % d == 1 {
      var f := Product(rs);
      var g := SmallestOne(h, d, f, n);
      var m := f / g;
      CofactorAboveOne(f, g);
      var r := SomePrime(rs, m, g);
      assert NotOneAt(h, d, f, r);
      PowerAtQuotient(h, d, f, g, r);
      assert false;
    }
  }

  lemma CofactorAboveOne(f: nat, g: nat)
    requires 0 < g < f && f % g == 0
    ensures f / g > 1 && f / g * g == f
  {
    assert f == g * (f / g) && g * (f / g) == f / g * g;
    QuotientBelow(f, g, 1);
  }

  lemma PowerAtQuotient(h: Scalar, d: nat, f: nat, g: nat, r: nat)
    requires Divisor(d) && d > 1 && 0 < g < f && f % g == 0 && r > 0 && (f / g) % r == 0 && Pow(h, g) % d == 1
    ensures 0 <= f / r && Pow(h, f / r) % d == 1
  {
    var m := f / g;
    var t := m / r;
    QuotientBounds(m, r);
    assert m == r * t && f == g * m;
    QuotientOfThree(f, g, r, t);
    hide Pow, Divisor, Mul;
    PowMul(h, g, t);
    PowMod(Pow(h, g), t, d);
  }

  lemma QuotientOfThree(f: nat, g: nat, r: nat, t: nat)
    requires r > 0 && f == g * (r * t)
    ensures f / r == g * t >= 0
  {
    assert g * (r * t) == (g * t) * r;
    QuotientOf(f, r, g * t);
  }

  /** The powers below f are all different modulo d. */
  lemma PowersDiffer(h: Scalar, d: nat, rs: seq<nat>, i: nat, j: nat)
    requires Divisor(d) && IsWitness(h, d, rs) && i < j < Product(rs)
    ensures Pow(h, i) % d != Pow(h, j) % d
  {
    var f := Product(rs);
    hide Pow, Divisor, Product, Mul;
    if Pow(h, i) % d == Pow(h, j) % d {
      var c := Pow(h, f - i);
      PowAdd(h, i, f - i);
      PowAdd(h, j, f - i);
      PowAdd(h, f, j - i);
      assert i + (f - i) == f && j + (f - i) == f + (j - i);
      MulMod(Pow(h, i), c, d);
      MulMod(Pow(h, j), c, d);
      ModTimesMod(Pow(h, i), Pow(h, j), c, d);
      OnePowTimes(h, d, f, j - i);
      NoSmallerOne(h, d, rs, j - i);
    }
  }

  // ---------- Counting residues ----------

  ghost function Below(d: nat): set<int> {
    if d == 0 then {} else Below(d - 1) + {d - 1}
  }

  lemma {:induction false} BelowSize(d: nat)
    ensures |Below(d)| == d && forall x :: x in Below(d) <==> 0 <= x < d
  {
    if d > 0 {
      BelowSize(d - 1);
    }
  }

  lemma SubsetSize(a: set<int>, b: set<int>)
    requires a <= b
    ensures |a| <= |b|
  {
    assert b == a + (b - a);
  }

  ghost function Residues(h: Scalar, d: nat, k: nat): set<int>
    requires d > 0
  {
    if k == 0 then {} else Residues(h, d, k - 1) + {Pow(h, k - 1) % d}
  }

  lemma {:induction false} ResiduesAre(h: Scalar, d: nat, k: nat, x: int)
    requires d > 0 && x in Residues(h, d, k)
    ensures 0 <= x < d && exists i :: 0 <= i < k && x == Pow(h, i) % d
  {
    hide Pow;
    if x in Residues(h, d, k - 1) {
      ResiduesAre(h, d, k - 1, x);
    }
  }

  lemma {:induction false} ResidueCount(h: Scalar, d: nat, rs: seq<nat>, k: nat)
    requires d > 0 && Divisor(d) && IsWitness(h, d, rs) && k <= Product(rs)
    ensures |Residues(h, d, k)| == k
  {
    DivisorAboveOne(d);
    hide Pow, Divisor, Product, IsWitness;
    if k > 0 {
      ResidueCount(h, d, rs, k - 1);
      var x := Pow(h, k - 1) % d;
      if x in Residues(h, d, k - 1) {
        ResiduesAre(h, d, k - 1, x);
        var i :| 0 <= i < k - 1 && x == Pow(h, i) % d;
        PowersDiffer(h, d, rs, i, k - 1);
      }
    }
  }

  /** So a divisor is at least f. */
  lemma DivisorIsLarge(h: Scalar, d: nat, rs: seq<nat>)
    requires Divisor(d) && IsWitness(h, d, rs)
    ensures Product(rs) <= d
  {
    var f := Product(rs);
    DivisorAboveOne(d);
    hide Pow, Divisor, Product, IsWitness;
    ResidueCount(h, d, rs, f);
    BelowSize(d);
    forall x | x in Residues(h, d, f)
      ensures x in Below(d)
    {
      ResiduesAre(h, d, f, x);
    }
    SubsetSize(Residues(h, d, f), Below(d));
  }

  // ---------- The two prime factors ----------

  lemma NoAFrom2(n: nat, d: nat) requires n == FACTOR_A && 2 <= d < 400 ensures n % d != 0 {}

  lemma NoAFrom400(n: nat, d: nat) requires n == FACTOR_A && 400 <= d < 800 ensures n % d != 0 {}

  lemma NoAFrom800(n: nat, d: nat) requires n == FACTOR_A && 800 <= d < 953 ensures n % d != 0 {}

  lemma TrialA(n: nat, d: nat)
    requires n == FACTOR_A && 1 < d < 953
    ensures n % d != 0
  {
    if 2 <= d < 400 { NoAFrom2(n, d); }
    if 400 <= d < 800 { NoAFrom400(n, d); }
    if 800 <= d < 953 { NoAFrom800(n, d); }
  }

  lemma NoBFrom2(n: nat, d: nat) requires n == FACTOR_B && 2 <= d < 400 ensures n % d != 0 {}

  lemma NoBFrom400(n: nat, d: nat) requires n == FACTOR_B && 400 <= d < 800 ensures n % d != 0 {}

  lemma NoBFrom800(n: nat, d: nat) requires n == FACTOR_B && 800 <= d < 1200 ensures n % d != 0 {}

  lemma NoBFrom1200(n: nat, d: nat) requires n == FACTOR_B && 1200 <= d < 1600 ensures n % d != 0 {}

  lemma NoBFrom1600(n: nat, d: nat) requires n == FACTOR_B && 1600 <= d < 2000 ensures n % d != 0 {}

  lemma NoBFrom2000(n: nat, d: nat) requires n == FACTOR_B && 2000 <= d < 2400 ensures n % d != 0 {}

  lemma NoBFrom2400(n: nat, d: nat) requires n == FACTOR_B && 2400 <= d < 2800 ensures n % d != 0 {}

  lemma NoBFrom2800(n: nat, d: nat) requires n == FACTOR_B && 2800 <= d < 3200 ensures n % d != 0 {}

  lemma NoBFrom3200(n: nat, d: nat) requires n == FACTOR_B && 3200 <= d < 3600 ensures n % d != 0 {}

  lemma NoBFrom3600(n: nat, d: nat) requires n == FACTOR_B && 3600 <= d < 4000 ensures n % d != 0 {}

  lemma NoBFrom4000(n: nat, d: nat) requires n == FACTOR_B && 4000 <= d < 4400 ensures n % d != 0 {}

  lemma NoBFrom4400(n: nat, d: nat) requires n == FACTOR_B && 4400 <= d < 4800 ensures n % d != 0 {}

  lemma NoBFrom4800(n: nat, d: nat) requires n == FACTOR_B && 4800 <= d < 5200 ensures n % d != 0 {}

  lemma NoBFrom5200(n: nat, d: nat) requires n == FACTOR_B && 5200 <= d < 5600 ensures n % d != 0 {}

  lemma NoBFrom5600(n: nat, d: nat) requires n == FACTOR_B && 5600 <= d < 6000 ensures n % d != 0 {}

  lemma NoBFrom6000(n: nat, d: nat) requires n == FACTOR_B && 6000 <= d < 6400 ensures n % d != 0 {}

  lemma NoBFrom6400(n: nat, d: nat) requires n == FACTOR_B && 6400 <= d < 6800 ensures n % d != 0 {}

  lemma NoBFrom6800(n: nat, d: nat) requires n == FACTOR_B && 6800 <= d < 7200 ensures n % d != 0 {}

  lemma NoBFrom7200(n: nat, d: nat) requires n == FACTOR_B && 7200 <= d < 7600 ensures n % d != 0 {}

  lemma NoBFrom7600(n: nat, d: nat) requires n == FACTOR_B && 7600 <= d < 8000 ensures n % d != 0 {}

  lemma NoBFrom8000(n: nat, d: nat) requires n == FACTOR_B && 8000 <= d < 8400 ensures n % d != 0 {}

  lemma NoBFrom8400(n: nat, d: nat) requires n == FACTOR_B && 8400 <= d < 8800 ensures n % d != 0 {}

  lemma NoBFrom8800(n: nat, d: nat) requires n == FACTOR_B && 8800 <= d < 9200 ensures n % d != 0 {}

  lemma NoBFrom9200(n: nat, d: nat) requires n == FACTOR_B && 9200 <= d < 9600 ensures n % d != 0 {}

  lemma NoBFrom9600(n: nat, d: nat) requires n == FACTOR_B && 9600 <= d < 10000 ensures n % d != 0 {}

  lemma NoBFrom10000(n: nat, d: nat) requires n == FACTOR_B && 10000 <= d < 10400 ensures n % d != 0 {}

  lemma NoBFrom10400(n: nat, d: nat) requires n == FACTOR_B && 10400 <= d < 10800 ensures n % d != 0 {}

  lemma NoBFrom10800(n: nat, d: nat) requires n == FACTOR_B && 10800 <= d < 11200 ensures n % d != 0 {}

  lemma NoBFrom11200(n: nat, d: nat) requires n == FACTOR_B && 11200 <= d < 11600 ensures n % d != 0 {}

  lemma NoBFrom11600(n: nat, d: nat) requires n == FACTOR_B && 11600 <= d < 12000 ensures n % d != 0 {}

  lemma NoBFrom12000(n: nat, d: nat) requires n == FACTOR_B && 12000 <= d < 12400 ensures n % d != 0 {}

  lemma NoBFrom12400(n: nat, d: nat) requires n == FACTOR_B && 12400 <= d < 12800 ensures n % d != 0 {}

  lemma NoBFrom12800(n: nat, d: nat) requires n == FACTOR_B && 12800 <= d < 13200 ensures n % d != 0 {}

  lemma NoBFrom13200(n: nat, d: nat) requires n == FACTOR_B && 13200 <= d < 13600 ensures n % d != 0 {}

  lemma NoBFrom13600(n: nat, d: nat) requires n == FACTOR_B && 13600 <= d < 14000 ensures n % d != 0 {}

  lemma NoBFrom14000(n: nat, d: nat) requires n == FACTOR_B && 14000 <= d < 14400 ensures n % d != 0 {}

  lemma NoBFrom14400(n: nat, d: nat) requires n == FACTOR_B && 14400 <= d < 14800 ensures n % d != 0 {}

  lemma NoBFrom14800(n: nat, d: nat) requires n == FACTOR_B && 14800 <= d < 15200 ensures n % d != 0 {}

  lemma NoBFrom15200(n: nat, d: nat) requires n == FACTOR_B && 15200 <= d < 15600 ensures n % d != 0 {}

  lemma NoBFrom15600(n: nat, d: nat) requires n == FACTOR_B && 15600 <= d < 15962 ensures n % d != 0 {}

  lemma TrialB(n: nat, d: nat)
    requires n == FACTOR_B && 1 < d < 15962
    ensures n % d != 0
  {
    if 2 <= d < 400 { NoBFrom2(n, d); }
    if 400 <= d < 800 { NoBFrom400(n, d); }
    if 800 <= d < 1200 { NoBFrom800(n, d); }
    if 1200 <= d < 1600 { NoBFrom1200(n, d); }
    if 1600 <= d < 2000 { NoBFrom1600(n, d); }
    if 2000 <= d < 2400 { NoBFrom2000(n, d); }
    if 2400 <= d < 2800 { NoBFrom2400(n, d); }
    if 2800 <= d < 3200 { NoBFrom2800(n, d); }
    if 3200 <= d < 3600 { NoBFrom3200(n, d); }
    if 3600 <= d < 4000 { NoBFrom3600(n, d); }
    if 4000 <= d < 4400 { NoBFrom4000(n, d); }
    if 4400 <= d < 4800 { NoBFrom4400(n, d); }
    if 4800 <= d < 5200 { NoBFrom4800(n, d); }
    if 5200 <= d < 5600 { NoBFrom5200(n, d); }
    if 5600 <= d < 6000 { NoBFrom5600(n, d); }
    if 6000 <= d < 6400 { NoBFrom6000(n, d); }
    if 6400 <= d < 6800 { NoBFrom6400(n, d); }
    if 6800 <= d < 7200 { NoBFrom6800(n, d); }
    if 7200 <= d < 7600 { NoBFrom7200(n, d); }
    if 7600 <= d < 8000 { NoBFrom7600(n, d); }
    if 8000 <= d < 8400 { NoBFrom8000(n, d); }
    if 8400 <= d < 8800 { NoBFrom8400(n, d); }
    if 8800 <= d < 9200 { NoBFrom8800(n, d); }
    if 9200 <= d < 9600 { NoBFrom9200(n, d); }
    if 9600 <= d < 10000 { NoBFrom9600(n, d); }
    if 10000 <= d < 10400 { NoBFrom10000(n, d); }
    if 10400 <= d < 10800 { NoBFrom10400(n, d); }
    if 10800 <= d < 11200 { NoBFrom10800(n, d); }
    if 11200 <= d < 11600 { NoBFrom11200(n, d); }
    if 11600 <= d < 12000 { NoBFrom11600(n, d); }
    if 12000 <= d < 12400 { NoBFrom12000(n, d); }
    if 12400 <= d < 12800 { NoBFrom12400(n, d); }
    if 12800 <= d < 13200 { NoBFrom12800(n, d); }
    if 13200 <= d < 13600 { NoBFrom13200(n, d); }
    if 13600 <= d < 14000 { NoBFrom13600(n, d); }
    if 14000 <= d < 14400 { NoBFrom14000(n, d); }
    if 14400 <= d < 14800 { NoBFrom14400(n, d); }
    if 14800 <= d < 15200 { NoBFrom14800(n, d); }
    if 15200 <= d < 15600 { NoBFrom15200(n, d); }
    if 15600 <= d < 15962 { NoBFrom15600(n, d); }
  }

  lemma LargeProduct(d: nat, c: nat, limit: nat)
    requires d >= limit && c >= limit
    ensures d * c >= limit * limit
  {
    assert limit * c == c * limit;
    MulLe(limit, d, c);
    MulLe(limit, c, limit);
  }

  lemma SmallCofactor(n: nat, d: nat, limit: nat) returns (c: nat)
    requires limit <= d < n < limit * limit && d > 0 && n % d == 0
    ensures 1 < c < limit && n % c == 0
  {
    c := n / d;
    assert n == d * c == c * d;
    if c >= limit {
      LargeProduct(d, c, limit);
    }
    if c > 1 {
      RestOf(n, c, d, 0);
    }
  }

  ghost predicate NoDivisorBelow(n: nat, limit: nat) {
    forall d: nat {:trigger n % d} :: 1 < d < limit ==> n % d != 0
  }

  lemma PrimeByTrial(n: nat, limit: nat)
    requires 1 < n < limit * limit && NoDivisorBelow(n, limit)
    ensures IsPrime(n)
  {
    forall d: nat {:trigger n % d} | 1 < d < n
      ensures n % d != 0
    {
      if d >= limit && n % d == 0 {
        var c := SmallCofactor(n, d, limit);
      }
    }
  }

  lemma FactorsArePrime()
    ensures IsPrime(2) && IsPrime(FACTOR_A) && IsPrime(FACTOR_B)
  {
    forall d: nat {:trigger FACTOR_A % d} | 1 < d < 953
      ensures FACTOR_A % d != 0
    {
      TrialA(FACTOR_A, d);
    }
    PrimeByTrial(FACTOR_A, 953);
    forall d: nat {:trigger FACTOR_B % d} | 1 < d < 15962
      ensures FACTOR_B % d != 0
    {
      TrialB(FACTOR_B, d);
    }
    PrimeByTrial(FACTOR_B, 15962);
  }

  // ---------- The witness ----------

  lemma SquaresOfA1()
    ensures SquareTimes(WITHOUT_A, 32)
      == SquareTimes(0x1a17e5fdace2cb00ba4a825988071e80c1d8f3e17659f46a4fac7ad43381e7c3, 16)
  {
    hide SquareTimes;
    SquareOnce(0x259c648ab6427a7267f5ba9a418c0247f9c26ddbec063665b45a146e7753d490,
      0x32738d864785b645c10280c1d311048f75c25beb6f9c6838a5c76b83809b2662, 31);
    SquareOnce(0x32738d864785b645c10280c1d311048f75c25beb6f9c6838a5c76b83809b2662,
      0x506dfb26500900079de6d4ed1f10ade80200c28277e1e8372a50958b81985762, 30);
    SquareOnce(0x506dfb26500900079de6d4ed1f10ade80200c28277e1e8372a50958b81985762,
      0x15b6ff4b1faa28ce147a86934f43330a8f497f3446f482a486061578f69db618, 29);
    SquareOnce(0x15b6ff4b1faa28ce147a86934f43330a8f497f3446f482a486061578f69db618,
      0x3bb35725b5df4fc2829c0d66c3689a7fd14f7237d3ae528dcee07be794def5d0, 28);
    SquareOnce(0x3bb35725b5df4fc2829c0d66c3689a7fd14f7237d3ae528dcee07be794def5d0,
      0x61433964cccf97330bc6c15ac9bb262f19acdbdfb477154a8624b045ab31a4f, 27);
    SquareOnce(0x61433964cccf97330bc6c15ac9bb262f19acdbdfb477154a8624b045ab31a4f,
      0x4a0c5f8d468b51a3d8d3642ac669631b6137e95026f0615e7144ccc6df6783e3, 26);
    SquareOnce(0x4a0c5f8d468b51a3d8d3642ac669631b6137e95026f0615e7144ccc6df6783e3,
      0x14920c86362a877c64dc8b07644d5524e638deba0fe2959dcc2c8ff65a4da486, 25);
    SquareOnce(0x14920c86362a877c64dc8b07644d5524e638deba0fe2959dcc2c8ff65a4da486,
      0x2206775b0e0914143e965951723192013b00eaf40213caf6bf9a13d5a2e7ec13, 24);
    SquareOnce(0x2206775b0e0914143e965951723192013b00eaf40213caf6bf9a13d5a2e7ec13,
      0x38b3d85059f9fe951b2f14c1e1c5ac9d19f14bf8d19887a05315a96ab46c0728, 23);
    SquareOnce(0x38b3d85059f9fe951b2f14c1e1c5ac9d19f14bf8d19887a05315a96ab46c0728,
      0x5c1feac4ba181b35c559f899cf192db86da748e7d7962c60236e70e0179ebd7a, 22);
    SquareOnce(0x5c1feac4ba181b35c559f899cf192db86da748e7d7962c60236e70e0179ebd7a,
      0x24ab19c50546de1ba11740005e60dbaa1d6524d5984366039de354a6464824bf, 21);
    SquareOnce(0x24ab19c50546de1ba11740005e60dbaa1d6524d5984366039de354a6464824bf,
      0x11aea3d5854062254a2e980d3a383e66fa8c8c97b96e0b33cbfc39b0f70aef4a, 20);
    SquareOnce(0x11aea3d5854062254a2e980d3a383e66fa8c8c97b96e0b33cbfc39b0f70aef4a,
      0x4be188ab9562ec0d165b27abdb2c3d343b6f1b985980bcb7c7b961ec082e4176, 19);
    SquareOnce(0x4be188ab9562ec0d165b27abdb2c3d343b6f1b985980bcb7c7b961ec082e4176,
      0x5a1841ebec855ff18f1dc5862514db3619e203f710cd9835966db631559a1dd7, 18);
    SquareOnce(0x5a1841ebec855ff18f1dc5862514db3619e203f710cd9835966db631559a1dd7,
      0x3308a09991d30f78631a2a481ef7a30e1b4fbaf5b67fc42d00ce92cd9468a538, 17);
    SquareOnce(0x3308a09991d30f78631a2a481ef7a30e1b4fbaf5b67fc42d00ce92cd9468a538,
      0x1a17e5fdace2cb00ba4a825988071e80c1d8f3e17659f46a4fac7ad43381e7c3, 16);
  }

  lemma SquaresOfA2()
    ensures SquareTimes(0x1a17e5fdace2cb00ba4a825988071e80c1d8f3e17659f46a4fac7ad43381e7c3, 16)
      == 0x67ee5d1f3b069511cd89744d5897256537cb1d8475a21d7924a57ba2b69a4d76
  {
    hide SquareTimes;
    SquareOnce(0x1a17e5fdace2cb00ba4a825988071e80c1d8f3e17659f46a4fac7ad43381e7c3,
      0x1c46de282a7201695114a92f4c24ecb85e609bf583aa8d9aa6c40f8ccbc76e83, 15);
    SquareOnce(0x1c46de282a7201695114a92f4c24ecb85e609bf583aa8d9aa6c40f8ccbc76e83,
      0x3ad37fc68c4440b15046957e1311460f33c91cd194285a6d95888d561ed9a79d, 14);
    SquareOnce(0x3ad37fc68c4440b15046957e1311460f33c91cd194285a6d95888d561ed9a79d,
      0x211537c98a4b1784ea930238e4529c33293d6161b4e3f39aeacbba3871193921, 13);
    SquareOnce(0x211537c98a4b1784ea930238e4529c33293d6161b4e3f39aeacbba3871193921,
      0x80506a96220fe29bc3f68a4e53aa57446d981cba12989083df4a5902a5b79f9, 12);
    SquareOnce(0x80506a96220fe29bc3f68a4e53aa57446d981cba12989083df4a5902a5b79f9,
      0x470bee32d0985e06bd016b659ba300ec79595938707005dfdc9b94b388338ab4, 11);
    SquareOnce(0x470bee32d0985e06bd016b659ba300ec79595938707005dfdc9b94b388338ab4,
      0x1b6897ae4509c22ecb467a1c5ea66a04df2525d5d7360221ee2bddeb741c071, 10);
    SquareOnce(0x1b6897ae4509c22ecb467a1c5ea66a04df2525d5d7360221ee2bddeb741c071,
      0x24cf83ef154e0a3c22c962d5b8b712437dff05f8e938e493802224532c385d4, 9);
    SquareOnce(0x24cf83ef154e0a3c22c962d5b8b712437dff05f8e938e493802224532c385d4,
      0x14bf2cdae0d682e0b00be7a69a6a44014d7c1478608b124719b265f408a3ce80, 8);
    SquareOnce(0x14bf2cdae0d682e0b00be7a69a6a44014d7c1478608b124719b265f408a3ce80,
      0xc50ad1906d2b1c1f169172fa969ac3f36200e559f9e757f50e39e7bffc5a25e, 7);
    SquareOnce(0xc50ad1906d2b1c1f169172fa969ac3f36200e559f9e757f50e39e7bffc5a25e,
      0x6937c2d3cc25d2d52e1419ba764efb23c64849cd1174aa0216ffb7702bf6ad4e, 6);
    SquareOnce(0x6937c2d3cc25d2d52e1419ba764efb23c64849cd1174aa0216ffb7702bf6ad4e,
      0x16338ce205f669c1608ea064001deb6e116cda10633a8736370b2debdb8619b5, 5);
    SquareOnce(0x16338ce205f669c1608ea064001deb6e116cda10633a8736370b2debdb8619b5,
      0x439889e67e08990e10f20b248fe0f0e18ffabf7961fcd26803a5244b7e4d43a6, 4);
    SquareOnce(0x439889e67e08990e10f20b248fe0f0e18ffabf7961fcd26803a5244b7e4d43a6,
      0x6f314eb5e8e1f4fcbd4f2dbd4e72568fc128dc4b4ad4deac06d02fc3bd3bae85, 3);
    SquareOnce(0x6f314eb5e8e1f4fcbd4f2dbd4e72568fc128dc4b4ad4deac06d02fc3bd3bae85,
      0x2c7228bb5e7d31438bceb84962943ed9b27d3b05fd3b3efa952bafabd1958cfd, 2);
    SquareOnce(0x2c7228bb5e7d31438bceb84962943ed9b27d3b05fd3b3efa952bafabd1958cfd,
      0x3f9686d1551dd05c69a9fb8146ab07a8f48a87e3f25d8a3c15e3a8f2b97905de, 1);
    SquareOnce(0x3f9686d1551dd05c69a9fb8146ab07a8f48a87e3f25d8a3c15e3a8f2b97905de,
      0x67ee5d1f3b069511cd89744d5897256537cb1d8475a21d7924a57ba2b69a4d76, 0);
  }

  lemma SquaresOfB1()
    ensures SquareTimes(WITHOUT_B, 32)
      == SquareTimes(0x54fac575ee20a61816b92750c8c5c5f30c99053f6bee14e88ba58ba7ff1e68f2, 16)
  {
    hide SquareTimes;
    SquareOnce(0xb6cb2577cbc81b092384d6e946845089f0fb3f21c8c0684df5dd55a2d4431,
      0x5b25c8276e60041160ff610912dd5730430c489c4c554394f112fbcf3d174b45, 31);
    SquareOnce(0x5b25c8276e60041160ff610912dd5730430c489c4c554394f112fbcf3d174b45,
      0x46f6accf17e750fde2d9ba3bd07cf57514fd437119978ad3ce1d4e4ab8e7c2b5, 30);
    SquareOnce(0x46f6accf17e750fde2d9ba3bd07cf57514fd437119978ad3ce1d4e4ab8e7c2b5,
      0x5d3ca310bfe4851161ad3388813d53699ee0b3a446b45df523cbd2adf6696a03, 29);
    SquareOnce(0x5d3ca310bfe4851161ad3388813d53699ee0b3a446b45df523cbd2adf6696a03,
      0x4a615a5c5ea4f9f9e28be78e4f5832864bdee1d72d4d03af38182dc915f2be7e, 28);
    SquareOnce(0x4a615a5c5ea4f9f9e28be78e4f5832864bdee1d72d4d03af38182dc915f2be7e,
      0x4d3d473d0da82ececf80f3a62c855c3e58205e85c9532456107aa90444ba411c, 27);
    SquareOnce(0x4d3d473d0da82ececf80f3a62c855c3e58205e85c9532456107aa90444ba411c,
      0x6e0af8ba41d97a174eb602946317d75284147e3de479adff8b3ed778ecf6fa4d, 26);
    SquareOnce(0x6e0af8ba41d97a174eb602946317d75284147e3de479adff8b3ed778ecf6fa4d,
      0x363ba419e0614432aef2749ad82f62d50cd612c3dcd3b17988dbe14aa11d8642, 25);
    SquareOnce(0x363ba419e0614432aef2749ad82f62d50cd612c3dcd3b17988dbe14aa11d8642,
      0x4e4e16be4f18be9693b6033d68534628bf6ff386957c10c8fc8867765bb9afb1, 24);
    SquareOnce(0x4e4e16be4f18be9693b6033d68534628bf6ff386957c10c8fc8867765bb9afb1,
      0x37aea03e031f968343216afdb08679d20de5d82397a8612374daf7a5501f1d37, 23);
    SquareOnce(0x37aea03e031f968343216afdb08679d20de5d82397a8612374daf7a5501f1d37,
      0x69fa18cee6c2ba1b117927ff942cba7147b292b345af28fd77333be1ad9a7a95, 22);
    SquareOnce(0x69fa18cee6c2ba1b117927ff942cba7147b292b345af28fd77333be1ad9a7a95,
      0x542c20ce13a368114f44005252766ce4030f0fc615d81238f85dec9dbe773220, 21);
    SquareOnce(0x542c20ce13a368114f44005252766ce4030f0fc615d81238f85dec9dbe773220,
      0x5eae02e0bff315b9b687603d04af478909e71672873cc8ac8f786151d02b8bb2, 20);
    SquareOnce(0x5eae02e0bff315b9b687603d04af478909e71672873cc8ac8f786151d02b8bb2,
      0x2e11aa2a2a08eadac24b365f39cbb99fe823f46d8e271b564c1945ea5ff857d8, 19);
    SquareOnce(0x2e11aa2a2a08eadac24b365f39cbb99fe823f46d8e271b564c1945ea5ff857d8,
      0x1b1e851ef7c6274b6764c5c372986f896c51d16cdd6c357ef31a9bf08308f177, 18);
    SquareOnce(0x1b1e851ef7c6274b6764c5c372986f896c51d16cdd6c357ef31a9bf08308f177,
      0x6027be0e1d4124083e2516d54c18bc16c8bb7cdc0210b5d52fe31f55f06bd47b, 17);
    SquareOnce(0x6027be0e1d4124083e2516d54c18bc16c8bb7cdc0210b5d52fe31f55f06bd47b,
      0x54fac575ee20a61816b92750c8c5c5f30c99053f6bee14e88ba58ba7ff1e68f2, 16);
  }

  lemma SquaresOfB2()
    ensures SquareTimes(0x54fac575ee20a61816b92750c8c5c5f30c99053f6bee14e88ba58ba7ff1e68f2, 16)
      == 0x4a7a5acf5dc0e762414782ae22b4119ca76fee9d4c748ed263a7435fa7fde54f
  {
    hide SquareTimes;
    SquareOnce(0x54fac575ee20a61816b92750c8c5c5f30c99053f6bee14e88ba58ba7ff1e68f2,
      0x1ed37c4b0946e4c7339e487065df0eb2242abf452938f831502285270a587fa5, 15);
    SquareOnce(0x1ed37c4b0946e4c7339e487065df0eb2242abf452938f831502285270a587fa5,
      0x3a78b3db1a09d7cc12b1d63819aa6ce39e4d5ea0c8718d1582356d7bc3cf702d, 14);
    SquareOnce(0x3a78b3db1a09d7cc12b1d63819aa6ce39e4d5ea0c8718d1582356d7bc3cf702d,
      0x44d4489897d08037f8e006b02887dbf547a50e4e47cbc1898e141ebbb090ac2f, 13);
    SquareOnce(0x44d4489897d08037f8e006b02887dbf547a50e4e47cbc1898e141ebbb090ac2f,
      0x18f2da35779f14b7c50e71b75078151107fe038b56e35bca44af9871ef1c6440, 12);
    SquareOnce(0x18f2da35779f14b7c50e71b75078151107fe038b56e35bca44af9871ef1c6440,
      0x580f8fd004bdd734ff6baf1ccd3d878ee00f2c2681fe479917513bd71b4f140b, 11);
    SquareOnce(0x580f8fd004bdd734ff6baf1ccd3d878ee00f2c2681fe479917513bd71b4f140b,
      0x1edb59174448b231aab4c16baadb707dfff07f3efd57d16b5e54d6a000e85ca8, 10);
    SquareOnce(0x1edb59174448b231aab4c16baadb707dfff07f3efd57d16b5e54d6a000e85ca8,
      0x47c9186dfc5cbf68ab6226d8fbbd4de6400c6979a15de03d8c58cd7ea6072739, 9);
    SquareOnce(0x47c9186dfc5cbf68ab6226d8fbbd4de6400c6979a15de03d8c58cd7ea6072739,
      0x43ea67031284242b23e6261d7ed7e30368ccf2631575eb09cfab2d1395020827, 8);
    SquareOnce(0x43ea67031284242b23e6261d7ed7e30368ccf2631575eb09cfab2d1395020827,
      0x371a4058e0729407a14fe044e6572c95a8191eefad3eed27379d5b47db4a0256, 7);
    SquareOnce(0x371a4058e0729407a14fe044e6572c95a8191eefad3eed27379d5b47db4a0256,
      0x37bf9d07352e8db230d8bf77c3bdacf5b6f634b4169430dd7edc51f204934033, 6);
    SquareOnce(0x37bf9d07352e8db230d8bf77c3bdacf5b6f634b4169430dd7edc51f204934033,
      0x5e23cd3aa28a1d6301b6c2b83976a8ea3fca22dbbced7048f6da50d51b5c1713, 5);
    SquareOnce(0x5e23cd3aa28a1d6301b6c2b83976a8ea3fca22dbbced7048f6da50d51b5c1713,
      0x10192b5291407e41bde570c4544f5a9eba62844d856b7134efb6d8df9b3c6098, 4);
    SquareOnce(0x10192b5291407e41bde570c4544f5a9eba62844d856b7134efb6d8df9b3c6098,
      0x3576618491c84030c47b7788d84590c58e3eec53ea95f5194decb3573cf0a7eb, 3);
    SquareOnce(0x3576618491c84030c47b7788d84590c58e3eec53ea95f5194decb3573cf0a7eb,
      0x4d21cda9025d02e227433300496e22e5d00567d484c8c8d429663c30b4787289, 2);
    SquareOnce(0x4d21cda9025d02e227433300496e22e5d00567d484c8c8d429663c30b4787289,
      0x528429a99038cdf678c3785e999cdd9dcd0f0135907f3896fd8b3c36e93f6ca, 1);
    SquareOnce(0x528429a99038cdf678c3785e999cdd9dcd0f0135907f3896fd8b3c36e93f6ca,
      0x4a7a5acf5dc0e762414782ae22b4119ca76fee9d4c748ed263a7435fa7fde54f, 0);
  }

  /** The order: 2^32 and the squares of the two factors. */
  function PrimesOfOrder(k: nat): seq<nat> {
    if k == 0 then [FACTOR_A, FACTOR_A, FACTOR_B, FACTOR_B] else [2] + PrimesOfOrder(k - 1)
  }

  const ORDER: nat := 0x1_0000_0000 * (FACTOR_A * FACTOR_A * FACTOR_B * FACTOR_B)
  const COFACTOR: nat := 0xac45a4010001a40200000000ffffffff

  lemma OrderIsLarge()
    ensures P - 1 == COFACTOR * ORDER && ORDER * ORDER > P
  {}

  lemma {:induction false} ProductOfOrder(k: nat)
    ensures Product(PrimesOfOrder(k)) == Pow2(k) * (FACTOR_A * FACTOR_A * FACTOR_B * FACTOR_B)
    ensures forall r :: r in PrimesOfOrder(k) ==> r == 2 || r == FACTOR_A || r == FACTOR_B
  {
    if k > 0 {
      ProductOfOrder(k - 1);
      assert PrimesOfOrder(k)[1..] == PrimesOfOrder(k - 1);
      MulTwice(Pow2(k - 1), FACTOR_A * FACTOR_A * FACTOR_B * FACTOR_B);
    } else {
      var rs := PrimesOfOrder(0);
      assert rs[1..] == [FACTOR_A, FACTOR_B, FACTOR_B] && rs[1..][1..] == [FACTOR_B, FACTOR_B];
      assert Product([FACTOR_B, FACTOR_B]) == FACTOR_B * FACTOR_B by {
        assert [FACTOR_B, FACTOR_B][1..] == [FACTOR_B] && [FACTOR_B][1..] == [];
        assert Product([FACTOR_B]) == FACTOR_B * Product([]);
      }
      assert Product(rs[1..]) == FACTOR_A * Product(rs[1..][1..]);
    }
  }

  lemma ExponentAtTwo()
    ensures COFACTOR * (ORDER / 2) == ODD_PART * 0x8000_0000
  {}

  lemma ExponentAtA()
    ensures COFACTOR * (ORDER / FACTOR_A) == REDUCED * FACTOR_B * 0x1_0000_0000
  {}

  lemma ExponentAtB()
    ensures COFACTOR * (ORDER / FACTOR_B) == REDUCED * FACTOR_A * 0x1_0000_0000
  {}

  /** 7 to (P - 1) / r, for the primes r of the order. */
  lemma PowerAtTwo()
    ensures Pow(7, COFACTOR * (ORDER / 2)) == P - 1
  {
    var root := TWO_ADIC_ROOT;
    RootSquaredIsMinusOne();
    SquareTimesIsPow(root, 31);
    RootIsPowerOfSeven();
    Pow2Of31();
    ExponentAtTwo();
    hide SquareTimes, Pow, Mul, TWO_ADIC_ROOT, ODD_PART, COFACTOR, ORDER;
    PowMul(7, ODD_PART, 0x8000_0000);
  }

  lemma Pow2Of31()
    ensures Pow2(31) == 0x8000_0000
  {
    Pow2Of32();
    assert Pow2(32) == 2 * Pow2(31);
  }

  lemma PowerAtA()
    ensures Pow(7, COFACTOR * (ORDER / FACTOR_A)) == 0x67ee5d1f3b069511cd89744d5897256537cb1d8475a21d7924a57ba2b69a4d76
  {
    SquaresOfA1();
    SquaresOfA2();
    SquareTimesIsPow(WITHOUT_A, 32);
    Pow2Of32();
    SeventhIsPower();
    FactorsOfRoot();
    ExponentAtA();
    hide SquareTimes, Pow, Mul, COFACTOR, ORDER, REDUCED, FACTOR_A, FACTOR_B, WITHOUT_A, WITHOUT_B, SEVENTH;
    PowMul(7, REDUCED, FACTOR_B);
    PowMul(7, REDUCED * FACTOR_B, 0x1_0000_0000);
  }

  lemma PowerAtB()
    ensures Pow(7, COFACTOR * (ORDER / FACTOR_B)) == 0x4a7a5acf5dc0e762414782ae22b4119ca76fee9d4c748ed263a7435fa7fde54f
  {
    SquaresOfB1();
    SquaresOfB2();
    SquareTimesIsPow(WITHOUT_B, 32);
    Pow2Of32();
    SeventhIsPower();
    FactorsOfRoot();
    ExponentAtB();
    hide SquareTimes, Pow, Mul, COFACTOR, ORDER, REDUCED, FACTOR_A, FACTOR_B, WITHOUT_A, WITHOUT_B, SEVENTH;
    PowMul(7, REDUCED, FACTOR_A);
    PowMul(7, REDUCED * FACTOR_A, 0x1_0000_0000);
  }

  lemma OneLessTimes(x: nat, u: nat, d: nat)
    requires d > 1 && x % d == 1
    ensures ((x - 1) * u) % d == 0
  {
    var k := x / d;
    assert x - 1 == d * k;
    assert (d * k) * u == d * (k * u);
    MultipleMod(k * u, d, 0);
  }

  /** If (x - 1) u is 1 modulo P then x is not 1 modulo any divisor of P. */
  lemma UnitIsNotZero(x: Scalar, u: Scalar, d: nat)
    requires Divisor(d) && x > 0 && (x - 1) * u % P == 1
    ensures d > 1 && x % d != 1
  {
    var p := P;
    ModOfMod((x - 1) * u, p, d);
    OneModDivisor(d);
    if x % d == 1 {
      OneLessTimes(x, u, d);
    }
  }

  const WITNESS: Scalar := Pow(7, COFACTOR)

  lemma WitnessPowers()
    ensures Pow(WITNESS, ORDER) == 1
    ensures Pow(WITNESS, ORDER / 2) == P - 1
    ensures Pow(WITNESS, ORDER / FACTOR_A) == 0x67ee5d1f3b069511cd89744d5897256537cb1d8475a21d7924a57ba2b69a4d76
    ensures Pow(WITNESS, ORDER / FACTOR_B) == 0x4a7a5acf5dc0e762414782ae22b4119ca76fee9d4c748ed263a7435fa7fde54f
  {
    PowerAtTwo();
    PowerAtA();
    PowerAtB();
    MinusOneSquared();
    hide Pow, Mul, COFACTOR, ORDER;
    PowMul(7, COFACTOR, ORDER / 2);
    PowMul(7, COFACTOR, ORDER / FACTOR_A);
    PowMul(7, COFACTOR, ORDER / FACTOR_B);
    TwiceHalf();
    PowAdd(WITNESS, ORDER / 2, ORDER / 2);
  }

  lemma TwiceHalf()
    ensures ORDER == ORDER / 2 + ORDER / 2
  {}

  lemma NotOneAtPrimes(d: nat)
    requires Divisor(d)
    ensures NotOneAt(WITNESS, d, ORDER, 2)
    ensures NotOneAt(WITNESS, d, ORDER, FACTOR_A) && NotOneAt(WITNESS, d, ORDER, FACTOR_B)
  {
    WitnessPowers();
    hide Pow, Mul, WITNESS, NotOneAt, Divisor;
    NotOneFor(d, 2, P - 1, 0x39f6d3a994cebea4199cec0404d0ec02a9ded2017fff2dff7fffffff80000000);
    NotOneFor(d, FACTOR_A, 0x67ee5d1f3b069511cd89744d5897256537cb1d8475a21d7924a57ba2b69a4d76,
      0x4073079c76e730aa62741bebe6d9531e37410dc18dff928c35a724b5ba8ff759);
    NotOneFor(d, FACTOR_B, 0x4a7a5acf5dc0e762414782ae22b4119ca76fee9d4c748ed263a7435fa7fde54f,
      0x368dbd074ff9836a930809af157cff63da1b0c0f6060dce04e64605cfdc0b16a);
  }

  lemma WitnessAtOrder()
    ensures Pow(WITNESS, ORDER) == 1
  {
    WitnessPowers();
  }

  lemma WitnessFor(d: nat)
    requires Divisor(d)
    ensures IsWitness(WITNESS, d, PrimesOfOrder(32)) && Product(PrimesOfOrder(32)) == ORDER
  {
    var rs := PrimesOfOrder(32);
    hide *;
    OrderIsProduct();
    WitnessAtOrder();
    ProductOfOrder(32);
    FactorsArePrime();
    NotOneAtPrimes(d);
    IsWitnessFrom(WITNESS, d, rs, ORDER);
  }

  lemma IsWitnessFrom(h: Scalar, d: nat, rs: seq<nat>, f: nat)
    requires Divisor(d) && f == Product(rs) && Pow(h, f) == 1
    requires forall r :: r in rs ==> r == 2 || r == FACTOR_A || r == FACTOR_B
    requires IsPrime(2) && IsPrime(FACTOR_A) && IsPrime(FACTOR_B)
    requires NotOneAt(h, d, f, 2) && NotOneAt(h, d, f, FACTOR_A) && NotOneAt(h, d, f, FACTOR_B)
    ensures IsWitness(h, d, rs)
  {
    DivisorAboveOne(d);
    OneModDivisor(d);
    hide Pow, Product, IsPrime, NotOneAt, Divisor, FACTOR_A, FACTOR_B;
    forall i | 0 <= i < |rs|
      ensures IsPrime(rs[i])
    {
      assert rs[i] in rs;
    }
  }

  lemma OrderIsProduct()
    ensures Product(PrimesOfOrder(32)) == ORDER
  {
    ProductOfOrder(32);
    Pow2Of32();
    hide Product, PrimesOfOrder, Pow2;
  }

  lemma OneModDivisor(d: nat)
    requires d > 1
    ensures 1 % d == 1
  {}

  lemma NotOneFor(d: nat, r: nat, x: Scalar, u: Scalar)
    requires Divisor(d) && r > 0 && 0 <= ORDER / r && Pow(WITNESS, ORDER / r) == x && x > 0 && (x - 1) * u % P == 1
    ensures NotOneAt(WITNESS, d, ORDER, r)
  {
    UnitIsNotZero(x, u, d);
    hide Pow, Mul, WITNESS, ORDER;
  }

  /** P has no divisor but 1 and itself. */
  lemma ModulusIsPrime()
    ensures PrimeModulus()
  {
    forall d: int {:trigger P % d} | 1 < d < P
      ensures P % d != 0
    {
      if P % d == 0 {
        TwoDivisors(d);
      }
    }
  }

  lemma TwoDivisors(d: nat)
    requires 1 < d < P
    ensures P % d != 0
  {
    if P % d == 0 {
      var c := OtherDivisor(P, d);
      var rs := PrimesOfOrder(32);
      WitnessFor(d);
      WitnessFor(c);
      hide IsWitness, Product, PrimesOfOrder, WITNESS, Divisor, ORDER;
      DivisorIsLarge(WITNESS, d, rs);
      DivisorIsLarge(WITNESS, c, rs);
      LargeProduct(d, c, ORDER);
      OrderIsLarge();
      assert false;
    }
  }

  lemma OtherDivisor(p: nat, d: nat) returns (c: nat)
    requires 1 < d < p && p % d == 0
    ensures p == d * c && 1 < c && p % c == 0
  {
    c := p / d;
    assert p == d * c == c * d;
    if c > 0 {
      RestOf(p, c, d, 0);
    }
  }
}

/** Polynomials over the scalar field as coefficient sequences (constant term first), and the discrete Fourier
    transform between coefficients and values at the powers of a root of unity. */
module Poly {
  import opened Field

  function Eval(c: seq<Scalar>, x: Scalar): Scalar {
    if c == [] then 0 else Add(c[0], Mul(x, Eval(c[1..], x)))
  }

  function Fill(n: nat, v: Scalar): (s: seq<Scalar>)
    ensures |s| == n
  {
    seq(n, _ => v)
  }

  function Plus(a: seq<Scalar>, b: seq<Scalar>): (s: seq<Scalar>)
    requires |a| == |b|
    ensures |s| == |a|
  {
    seq(|a|, i requires 0 <= i < |a| => Add(a[i], b[i]))
  }

  function Scale(a: seq<Scalar>, k: Scalar): (s: seq<Scalar>)
    ensures |s| == |a|
  {
    seq(|a|, i requires 0 <= i < |a| => Mul(k, a[i]))
  }

  /** Coefficient k multiplied by f s^k: the substitution x -> s x, times f. */
  function Twist(c: seq<Scalar>, f: Scalar, s: Scalar): (r: seq<Scalar>)
    ensures |r| == |c|
  {
    if c == [] then [] else [Mul(c[0], f)] + Twist(c[1..], Mul(f, s), s)
  }

  /** The coefficients of (x - r) c(x). */
  function MulLinear(c: seq<Scalar>, r: Scalar): (s: seq<Scalar>)
    ensures |s| == |c| + 1
  {
    Plus(Scale(c, Sub(0, r)) + [0], [0] + c)
  }

  /** The monic polynomial with the given roots, times c. */
  function MulRoots(c: seq<Scalar>, roots: seq<Scalar>): (s: seq<Scalar>)
    ensures |s| == |c| + |roots|
  {
    if roots == [] then c else MulLinear(MulRoots(c, roots[..|roots| - 1]), roots[|roots| - 1])
  }

  function Dft(c: seq<Scalar>, w: Scalar, n: nat): (e: seq<Scalar>)
    ensures |e| == n
  {
    seq(n, i requires 0 <= i < n => Eval(c, Pow(w, i)))
  }

  /** Coefficient k is (1/n) times the sum of e[i] w^(-i k). */
  function InverseDft(e: seq<Scalar>, w: Scalar): (c: seq<Scalar>)
    ensures |c| == |e|
  {
    Scale(Dft(e, Inv(w), |e|), Inv(Mod(|e|)))
  }

  ghost predicate HasOrder(w: Scalar, n: nat) {
    n > 0 && Pow(w, n) == 1 && forall k {:trigger Pow(w, k)} :: 0 < k < n ==> Pow(w, k) != 1
  }

  // ---------- Evaluation is a ring homomorphism ----------

  lemma {:induction false} EvalPlus(a: seq<Scalar>, b: seq<Scalar>, x: Scalar)
    requires |a| == |b|
    ensures Eval(Plus(a, b), x) == Add(Eval(a, x), Eval(b, x))
  {
    hide Add, Mul;
    if a == [] {
      MulUnits(0);
    } else {
      assert Plus(a, b)[1..] == Plus(a[1..], b[1..]);
      EvalPlus(a[1..], b[1..], x);
      MulAdd(x, Eval(a[1..], x), Eval(b[1..], x));
      AddSwap(a[0], b[0], Mul(x, Eval(a[1..], x)), Mul(x, Eval(b[1..], x)));
    }
  }

  lemma {:induction false} EvalScale(a: seq<Scalar>, k: Scalar, x: Scalar)
    ensures Eval(Scale(a, k), x) == Mul(k, Eval(a, x))
  {
    hide Add, Mul;
    if a == [] {
      MulUnits(k);
    } else {
      assert Scale(a, k)[1..] == Scale(a[1..], k);
      EvalScale(a[1..], k, x);
      MulLeftComm(x, k, Eval(a[1..], x));
      MulAdd(k, a[0], Mul(x, Eval(a[1..], x)));
    }
  }

  lemma {:induction false} EvalPad(a: seq<Scalar>, n: nat, x: Scalar)
    ensures Eval(a + Fill(n, 0), x) == Eval(a, x)
  {
    hide Add, Mul;
    MulUnits(0);
    MulUnits(x);
    if a != [] {
      assert (a + Fill(n, 0))[1..] == a[1..] + Fill(n, 0);
      EvalPad(a[1..], n, x);
    } else if n > 0 {
      assert (a + Fill(n, 0))[1..] == a + Fill(n - 1, 0);
      EvalPad(a, n - 1, x);
    }
  }

  lemma {:induction false} EvalTwist(c: seq<Scalar>, f: Scalar, s: Scalar, x: Scalar)
    ensures Eval(Twist(c, f, s), x) == Mul(f, Eval(c, Mul(s, x)))
  {
    hide Add, Mul;
    if c == [] {
      MulUnits(f);
    } else {
      var v := Eval(c[1..], Mul(s, x));
      EvalTwist(c[1..], Mul(f, s), s, x);
      // x ((f s) v) = f ((s x) v)
      MulAssoc(x, Mul(f, s), v);
      MulLeftComm(x, f, s);
      MulComm(x, s);
      MulAssoc(f, Mul(s, x), v);
      MulComm(c[0], f);
      MulAdd(f, c[0], Mul(Mul(s, x), v));
    }
  }

  lemma EvalMulLinear(c: seq<Scalar>, r: Scalar, x: Scalar)
    ensures Eval(MulLinear(c, r), x) == Mul(Sub(x, r), Eval(c, x))
  {
    var v := Eval(c, x);
    EvalPlus(Scale(c, Sub(0, r)) + [0], [0] + c, x);
    assert Scale(c, Sub(0, r)) + [0] == Scale(c, Sub(0, r)) + Fill(1, 0);
    EvalPad(Scale(c, Sub(0, r)), 1, x);
    EvalScale(c, Sub(0, r), x);
    assert ([0] + c)[1..] == c;
    MulUnits(Mul(x, v));
    LinearFactor(x, r, v);
  }

  lemma LinearFactor(x: Scalar, r: Scalar, v: Scalar)
    ensures Add(Mul(Sub(0, r), v), Mul(x, v)) == Mul(Sub(x, r), v)
  {
    var n := Sub(0, r);
    assert Add(n, x) == Sub(x, r) by {
      ModOfScalar(x);
      ModSum(0 - r, x);
    }
    hide Add, Mul, Sub;
    MulComm(n, v);
    MulComm(x, v);
    MulAdd(v, n, x);
    MulComm(Sub(x, r), v);
  }

  lemma {:induction false} EvalMulRoots(c: seq<Scalar>, roots: seq<Scalar>, x: Scalar)
    ensures Eval(MulRoots(c, roots), x) == Mul(Eval(MulRoots([1], roots), x), Eval(c, x))
  {
    hide Add, Mul, Sub;
    if roots == [] {
      assert Eval([1], x) == 1 by { EvalConst(x); }
      MulUnits(Eval(c, x));
    } else {
      var front, r := roots[..|roots| - 1], roots[|roots| - 1];
      EvalMulRoots(c, front, x);
      EvalMulLinear(MulRoots(c, front), r, x);
      EvalMulLinear(MulRoots([1], front), r, x);
      MulAssoc(Sub(x, r), Eval(MulRoots([1], front), x), Eval(c, x));
    }
  }

  lemma EvalConst(x: Scalar)
    ensures Eval([1], x) == 1
  {
    MulUnits(x);
  }

  /** The polynomial with the given roots vanishes exactly on them. */
  lemma {:induction false} RootsAreExactlyTheZeros(roots: seq<Scalar>, x: Scalar)
    requires PrimeModulus()
    ensures Eval(MulRoots([1], roots), x) == 0 <==> x in roots
  {
    hide Mul, Sub, Add;
    if roots == [] {
      EvalConst(x);
    } else {
      var front, r := roots[..|roots| - 1], roots[|roots| - 1];
      SubIsZero(x, r);
      assert roots == front + [r];
      RootsAreExactlyTheZeros(front, x);
      EvalMulLinear(MulRoots([1], front), r, x);
      MulUnits(Eval(MulRoots([1], front), x));
      MulUnits(Sub(x, r));
      if x !in roots {
        NoZeroDivisors(Sub(x, r), Eval(MulRoots([1], front), x));
      }
    }
  }

  // ---------- The transform and its inverse ----------

  lemma {:induction false} TwistAt(c: seq<Scalar>, f: Scalar, s: Scalar, k: nat)
    requires k < |c|
    ensures Twist(c, f, s)[k] == Mul(c[k], Mul(f, Pow(s, k)))
  {
    hide Mul;
    if k == 0 {
      MulUnits(f);
    } else {
      TwistAt(c[1..], Mul(f, s), s, k - 1);
      MulAssoc(f, s, Pow(s, k - 1));
    }
  }

  /** Splitting off the constant term: the values of c are c[0] everywhere plus w^i times the values of the rest. */
  lemma DftStep(c: seq<Scalar>, w: Scalar, n: nat)
    requires c != []
    ensures Dft(c, w, n) == Plus(Scale(Fill(n, 1), c[0]), Twist(Dft(c[1..], w, n), 1, w))
  {
    hide Add, Mul;
    MulUnits(c[0]);
    forall i | 0 <= i < n
      ensures Dft(c, w, n)[i] == Plus(Scale(Fill(n, 1), c[0]), Twist(Dft(c[1..], w, n), 1, w))[i]
    {
      var v := Eval(c[1..], Pow(w, i));
      TwistAt(Dft(c[1..], w, n), 1, w, i);
      MulUnits(Pow(w, i));
      MulComm(Pow(w, i), v);
    }
  }

  lemma {:induction false} GeometricSum(y: Scalar, n: nat)
    ensures Mul(Sub(y, 1), Eval(Fill(n, 1), y)) == Sub(Pow(y, n), 1)
  {
    if n == 0 {
      MulUnits(Sub(y, 1));
    } else {
      var g := Eval(Fill(n - 1, 1), y);
      assert Fill(n, 1)[1..] == Fill(n - 1, 1);
      GeometricSum(y, n - 1);
      GeometricStep(y, g, Pow(y, n - 1));
    }
  }

  lemma GeometricStep(y: Scalar, g: Scalar, q: Scalar)
    requires Mul(Sub(y, 1), g) == Sub(q, 1)
    ensures Mul(Sub(y, 1), Add(1, Mul(y, g))) == Sub(Mul(y, q), 1)
  {
    hide Mul, Add, Sub;
    var d, yq := Sub(y, 1), Mul(y, q);
    MulLeftComm(d, y, g);
    MulSub(y, q, 1);
    MulAdd(d, 1, Mul(y, g));
    MulUnits(d);
    MulUnits(y);
    Telescope(y, yq);
  }

  lemma Telescope(y: Scalar, z: Scalar)
    ensures Add(Sub(y, 1), Sub(z, y)) == Sub(z, 1)
  {
    hide Mod;
    ModSum(y - 1, z - y);
  }

  lemma {:induction false} OnesAtOne(n: nat)
    ensures Eval(Fill(n, 1), 1) == Mod(n)
  {
    hide Mul;
    if n > 0 {
      assert Fill(n, 1)[1..] == Fill(n - 1, 1);
      OnesAtOne(n - 1);
      MulUnits(Mod(n - 1));
      ModOfScalar(1);
      ModSum(1, n - 1);
    }
  }

  lemma OnesAtPower(w: Scalar, n: nat, t: nat)
    requires PrimeModulus() && HasOrder(w, n) && 1 <= t <= n
    ensures Eval(Fill(n, 1), Pow(w, t)) == if t == n then Mod(n) else 0
  {
    hide Mul, Sub, Add;
    if t == n {
      OnesAtOne(n);
    } else {
      var y := Pow(w, t);
      SubIsZero(y, 1);
      SubIsZero(Pow(y, n), 1);
      PowMul(w, t, n);
      PowMul(w, n, t);
      assert t * n == n * t;
      PowOne(t);
      GeometricSum(y, n);
      if Eval(Fill(n, 1), y) != 0 {
        NoZeroDivisors(Sub(y, 1), Eval(Fill(n, 1), y));
      }
    }
  }

  /** Transforming twice, one coefficient at a time. */
  lemma DftTwiceStep(c: seq<Scalar>, w: Scalar, n: nat, t: nat)
    requires PrimeModulus() && HasOrder(w, n) && c != [] && 1 <= t <= n
    ensures Eval(Dft(c, w, n), Pow(w, t))
      == Add(Mul(c[0], if t == n then Mod(n) else 0), Eval(Dft(c[1..], w, n), Pow(w, t + 1)))
  {
    var y, rest := Pow(w, t), Dft(c[1..], w, n);
    assert Pow(w, t + 1) == Mul(w, y);
    hide *;
    DftStep(c, w, n);
    EvalPlus(Scale(Fill(n, 1), c[0]), Twist(rest, 1, w), y);
    EvalScale(Fill(n, 1), c[0], y);
    EvalTwist(rest, 1, w, y);
    MulUnits(Eval(rest, Mul(w, y)));
    OnesAtPower(w, n, t);
  }

  lemma DftOfNothing(w: Scalar, n: nat, y: Scalar)
    ensures Eval(Dft([], w, n), y) == 0
  {
    assert Dft([], w, n) == [] + Fill(n, 0);
    EvalPad([], n, y);
  }

  lemma OrderUnfolds(w: Scalar, n: nat)
    requires HasOrder(w, n)
    ensures n > 0 && Pow(w, n + 1) == Pow(w, 1)
  {
    hide Mul;
    assert Pow(w, n + 1) == Mul(w, Pow(w, n)) && Pow(w, 1) == Mul(w, Pow(w, 0));
  }

  /** Transforming twice picks out one coefficient, scaled by n. */
  lemma {:induction false} DftTwice(c: seq<Scalar>, w: Scalar, n: nat, t: nat)
    requires PrimeModulus() && HasOrder(w, n) && |c| <= n && 1 <= t <= n
    ensures Eval(Dft(c, w, n), Pow(w, t)) == if n - t < |c| then Mul(Mod(n), c[n - t]) else 0
  {
    hide *;
    if c == [] {
      DftOfNothing(w, n, Pow(w, t));
    } else {
      DftTwiceStep(c, w, n, t);
      MulUnits(c[0]);
      if t == n {
        DftTwice(c[1..], w, n, 1);
        OrderUnfolds(w, n);
        MulComm(c[0], Mod(n));
        MulUnits(Mul(Mod(n), c[0]));
      } else {
        DftTwice(c[1..], w, n, t + 1);
        MulUnits(Eval(Dft(c[1..], w, n), Pow(w, t + 1)));
      }
    }
  }

  lemma InversePowers(w: Scalar, n: nat, k: nat)
    requires PrimeModulus() && HasOrder(w, n) && k <= n
    ensures w != 0 && Pow(Inv(w), k) == Pow(w, n - k)
  {
    if w == 0 {
      MulUnits(Pow(w, n - 1));
      assert false;
    }
    InvIsInverse(w);
    PowOfMul(w, Inv(w), k);
    PowOne(k);
    PowAdd(w, k, n - k);
    PowNonZero(w, k);
    CancelLeft(Pow(w, k), Pow(Inv(w), k), Pow(w, n - k));
  }

  lemma InverseHasOrder(w: Scalar, n: nat)
    requires PrimeModulus() && HasOrder(w, n)
    ensures HasOrder(Inv(w), n)
  {
    InversePowers(w, n, n);
    forall k {:trigger Pow(Inv(w), k)} | 0 < k < n
      ensures Pow(Inv(w), k) != 1
    {
      InversePowers(w, n, k);
    }
  }

  lemma SizeInverse(n: nat, a: Scalar)
    requires PrimeModulus() && 0 < n < P
    ensures Mul(Inv(Mod(n)), Mul(Mod(n), a)) == a
  {
    ModOfScalar(n);
    InvIsInverse(Mod(n));
    hide Mul;
    MulComm(Mod(n), Inv(Mod(n)));
    MulAssoc(Inv(Mod(n)), Mod(n), a);
    MulUnits(a);
  }

  lemma InverseDftOfDft(c: seq<Scalar>, w: Scalar)
    requires PrimeModulus() && HasOrder(w, |c|) && |c| < P
    ensures InverseDft(Dft(c, w, |c|), w) == c
  {
    var n, e := |c|, Dft(c, w, |c|);
    hide Mul;
    forall k | 0 <= k < n
      ensures InverseDft(e, w)[k] == c[k]
    {
      InversePowers(w, n, k);
      DftTwice(c, w, n, n - k);
      SizeInverse(n, c[k]);
    }
  }

  lemma DftOfInverseDft(e: seq<Scalar>, w: Scalar)
    requires PrimeModulus() && HasOrder(w, |e|) && |e| < P
    ensures Dft(InverseDft(e, w), w, |e|) == e
  {
    hide Mul, Eval;
    forall k | 0 <= k < |e|
      ensures Dft(InverseDft(e, w), w, |e|)[k] == e[k]
    {
      InverseValueAt(e, w, k);
    }
  }

  lemma InverseDftUnfolds(e: seq<Scalar>, w: Scalar)
    ensures InverseDft(e, w) == Scale(Dft(e, Inv(w), |e|), Inv(Mod(|e|)))
  {
    hide Dft, Scale, Inv, Mod;
  }

  lemma InverseValueAt(e: seq<Scalar>, w: Scalar, k: nat)
    requires PrimeModulus() && HasOrder(w, |e|) && |e| < P && k < |e|
    ensures Eval(InverseDft(e, w), Pow(w, k)) == e[k]
  {
    var n, v := |e|, Inv(w);
    hide *;
    InverseDftUnfolds(e, w);
    InverseHasOrder(w, n);
    InversePowers(w, n, n - k);
    DftTwice(e, v, n, n - k);
    EvalScale(Dft(e, v, n), Inv(Mod(n)), Pow(w, k));
    SizeInverse(n, e[k]);
  }
}

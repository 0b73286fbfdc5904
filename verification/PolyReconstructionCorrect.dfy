/** `reconstruct_poly` recovers every polynomial of degree below half the domain from any half of its values, and it
    fails exactly when it is given no value at all. */
module PolyReconstructionCorrect {
  import opened Results
  import opened Field
  import opened Poly
  import opened Domain
  import opened Powers2
  import opened Division
  import opened PolyReconstruction

  /** Every present entry is the value of the polynomial c at its own domain point. */
  ghost predicate SamplesOf(subset: seq<Option<Scalar>>, c: seq<Scalar>, w: Scalar) {
    forall i :: 0 <= i < |subset| && subset[i].Some? ==> subset[i].value == Eval(c, Pow(w, i))
  }

  lemma PowersAreDistinct(w: Scalar, n: nat, i: nat, j: nat)
    requires PrimeModulus() && HasOrder(w, n) && i < n && j < n && Pow(w, i) == Pow(w, j)
    ensures i == j
  {
    hide Mul;
    var lo, hi := if i <= j then i else j, if i <= j then j else i;
    InversePowers(w, n, 0);
    PowNonZero(w, lo);
    PowAdd(w, lo, hi - lo);
    MulUnits(Pow(w, lo));
    CancelLeft(Pow(w, lo), Pow(w, hi - lo), 1);
  }

  /** The place in the domain of position m of a list of the given length: every `size / length`-th point. */
  function Place(d: Domain, length: nat, m: nat): nat
    requires length > 0
  {
    QuotientBounds(d.size, length);
    MulLe(0, m, d.size / length);
    m * (d.size / length)
  }

  lemma PlaceInDomain(d: Domain, length: nat, m: nat)
    requires m < length <= d.size
    ensures Place(d, length, m) < d.size
  {
    QuotientBounds(d.size, length);
    MulLe(m + 1, length, d.size / length);
    assert (m + 1) * (d.size / length) == m * (d.size / length) + d.size / length;
    assert d.size / length * length == length * (d.size / length);
    QuotientBelow(d.size, length, 1);
  }

  ghost predicate PlaceIsMissing(d: Domain, subset: seq<Option<Scalar>>, i: nat)
    requires |subset| > 0
  {
    exists m :: m in Missing(subset, |subset|) && Place(d, |subset|, m) == i
  }

  lemma MissingRootAt(d: Domain, missing: seq<nat>, length: nat, k: nat)
    requires length > 0 && k < |missing|
    ensures MissingRoots(d, missing, length)[k] == Pow(d.gen, Place(d, length, missing[k]))
  {
    hide Pow;
  }

  /** The zero polynomial of a list that fits its domain vanishes on the domain exactly at the places of the missing
      positions. */
  lemma ZeroPolyOnDomain(d: Domain, subset: seq<Option<Scalar>>, i: nat)
    requires PrimeModulus() && HasOrder(d.gen, d.size) && 0 < |subset| <= d.size && i < d.size
    ensures Eval(ZeroPoly(d, Missing(subset, |subset|), |subset|), Pow(d.gen, i)) == 0 <==>
      PlaceIsMissing(d, subset, i)
  {
    var missing := Missing(subset, |subset|);
    var roots := MissingRoots(d, missing, |subset|);
    assert ZeroPoly(d, missing, |subset|) == MulRoots([1], roots);
    hide Mul, Eval, Pow, HasOrder, Place, MulRoots, MissingRoots, Missing, ZeroPoly;
    RootsAreExactlyTheZeros(roots, Pow(d.gen, i));
    if PlaceIsMissing(d, subset, i) {
      var m :| m in missing && Place(d, |subset|, m) == i;
      var k :| 0 <= k < |missing| && missing[k] == m;
      MissingRootAt(d, missing, |subset|, k);
    }
    if Pow(d.gen, i) in roots {
      var k :| 0 <= k < |roots| && roots[k] == Pow(d.gen, i);
      MissingRootAt(d, missing, |subset|, k);
      assert missing[k] in missing;
      PlaceInDomain(d, |subset|, missing[k]);
      PowersAreDistinct(d.gen, d.size, Place(d, |subset|, missing[k]), i);
    }
  }

  /** A list longer than half of its domain has stride 1: its positions are their own places. */
  lemma ZeroPolyOnList(d: Domain, subset: seq<Option<Scalar>>, i: nat)
    requires PrimeModulus() && HasOrder(d.gen, d.size) && i < |subset| <= d.size < 2 * |subset|
    ensures Eval(ZeroPoly(d, Missing(subset, |subset|), |subset|), Pow(d.gen, i)) == 0 <==> subset[i].None?
  {
    hide Mul, Eval, Pow, HasOrder, MulRoots, MissingRoots, ZeroPoly, PlaceIsMissing;
    ZeroPolyOnDomain(d, subset, i);
    PlaceOnList(d, subset, i);
  }

  lemma PlaceOnList(d: Domain, subset: seq<Option<Scalar>>, i: nat)
    requires i < |subset| <= d.size < 2 * |subset|
    ensures PlaceIsMissing(d, subset, i) <==> subset[i].None?
  {
    assert d.size / |subset| == 1;
    assert Place(d, |subset|, i) == i;
    assert i in Missing(subset, |subset|) <==> subset[i].None?;
    hide Missing;
  }

  /** No point of the coset by 1/5 is a root, because 5 is not a root of unity of the domain. */
  lemma ZeroPolyOnCoset(d: Domain, missing: seq<nat>, i: nat)
    requires PrimeModulus() && ValidDomain(d)
    ensures Eval(ZeroPoly(d, missing, d.size), Mul(Inv(SHIFT_FACTOR), Pow(d.gen, i))) != 0
  {
    hide Mul, Eval;
    var roots := MissingRoots(d, missing, d.size);
    var s, x := Inv(SHIFT_FACTOR), Pow(d.gen, i);
    RootsAreExactlyTheZeros(roots, Mul(s, x));
    if Mul(s, x) in roots {
      var k :| 0 <= k < |roots| && roots[k] == Mul(s, x);
      var y := Pow(d.gen, missing[k]);
      assert d.size / d.size == 1;
      assert y == Mul(s, x);
      // raise 5 y = x to the domain size: 5^N = 1
      InvIsInverse(5);
      MulAssoc(5, s, x);
      MulUnits(x);
      PowOfMul(5, y, d.size);
      PowerIsRootOfUnity(d, missing[k]);
      PowerIsRootOfUnity(d, i);
      MulUnits(Pow(5, d.size));
      assert false;
    }
  }

  lemma PowerIsRootOfUnity(d: Domain, k: nat)
    requires HasOrder(d.gen, d.size)
    ensures Pow(Pow(d.gen, k), d.size) == 1
  {
    PowMul(d.gen, k, d.size);
    PowMul(d.gen, d.size, k);
    assert k * d.size == d.size * k;
    PowOne(k);
  }

  lemma EvalResize(c: seq<Scalar>, n: nat, x: Scalar)
    requires |c| <= n
    ensures Eval(Resize(c, n), x) == Eval(c, x)
  {
    EvalPad(c, n - |c|, x);
    assert |c| == n ==> Resize(c, n) == c;
  }

  lemma FftAt(d: Domain, c: seq<Scalar>, i: nat)
    requires |c| <= d.size && i < d.size
    ensures Fft(d, c)[i] == Eval(c, Pow(d.gen, i))
  {
    EvalResize(c, d.size, Pow(d.gen, i));
  }

  lemma FftOfTwistAt(d: Domain, c: seq<Scalar>, s: Scalar, i: nat)
    requires |c| <= d.size && i < d.size
    ensures Fft(d, Twist(c, 1, s))[i] == Eval(c, Mul(s, Pow(d.gen, i)))
  {
    hide Mul, Fft;
    FftAt(d, Twist(c, 1, s), i);
    EvalTwist(c, 1, s, Pow(d.gen, i));
    MulUnits(Eval(c, Mul(s, Pow(d.gen, i))));
  }

  // ---------- The steps of the computation ----------

  /** The evaluations times the zero polynomial are the values of c * zero on the whole domain. */
  lemma ProductOnDomain(d: Domain, subset: seq<Option<Scalar>>, c: seq<Scalar>)
    requires PrimeModulus() && ValidDomain(d) && |subset| == d.size
    requires SamplesOf(subset, c, d.gen)
    requires |c| + |Missing(subset, |subset|)| <= d.size
    ensures var missing := Missing(subset, |subset|);
      Ifft(d, TimesZero(subset, Fft(d, ZeroPoly(d, missing, |subset|))))
      == Resize(MulRoots(c, MissingRoots(d, missing, |subset|)), d.size)
  {
    hide Mul, Eval, Ifft, Fft;
    var missing := Missing(subset, |subset|);
    var roots := MissingRoots(d, missing, |subset|);
    var zero := ZeroPoly(d, missing, |subset|);
    var zeroEval, product := Fft(d, zero), Resize(MulRoots(c, roots), d.size);
    var v := TimesZero(subset, zeroEval);
    forall i | 0 <= i < d.size
      ensures v[i] == Fft(d, product)[i]
    {
      var x := Pow(d.gen, i);
      FftAt(d, product, i);
      EvalResize(MulRoots(c, roots), d.size, x);
      EvalMulRoots(c, roots, x);
      ZeroPolyOnList(d, subset, i);
      MulUnits(Eval(c, x));
      if subset[i].Some? {
        MissingIsShort(subset, |subset|, i);
        FftAt(d, zero, i);
        MulComm(Eval(c, x), Eval(zero, x));
      }
    }
    assert v == Fft(d, product);
    IfftOfFft(d, product);
  }

  /** Dividing on the coset leaves the values of c there. */
  lemma QuotientOnCoset(d: Domain, missing: seq<nat>, c: seq<Scalar>)
    requires PrimeModulus() && ValidDomain(d)
    requires |c| + |missing| <= d.size && |missing| < d.size
    ensures var roots := MissingRoots(d, missing, d.size);
      var s := Inv(SHIFT_FACTOR);
      var denominator := Fft(d, Twist(ZeroPoly(d, missing, d.size), 1, s));
      && 0 !in denominator
      && DivideEach(Fft(d, Twist(Resize(MulRoots(c, roots), d.size), 1, s)), denominator) == Fft(d, Twist(c, 1, s))
  {
    hide Mul, Eval, Fft, Inv, Twist, Resize, ZeroPoly, MulRoots, ValidDomain;
    var roots, s := MissingRoots(d, missing, d.size), Inv(SHIFT_FACTOR);
    var denominator := Fft(d, Twist(ZeroPoly(d, missing, d.size), 1, s));
    var numerator := Fft(d, Twist(Resize(MulRoots(c, roots), d.size), 1, s));
    forall i | 0 <= i < d.size
      ensures denominator[i] != 0
      ensures DivideEach(numerator, denominator)[i] == Fft(d, Twist(c, 1, s))[i]
    {
      QuotientAt(d, missing, c, i);
    }
  }

  lemma QuotientAt(d: Domain, missing: seq<nat>, c: seq<Scalar>, i: nat)
    requires PrimeModulus() && ValidDomain(d)
    requires |c| + |missing| <= d.size && |missing| < d.size && i < d.size
    ensures var roots := MissingRoots(d, missing, d.size);
      var s := Inv(SHIFT_FACTOR);
      var denominator := Fft(d, Twist(ZeroPoly(d, missing, d.size), 1, s))[i];
      && denominator != 0
      && Mul(Fft(d, Twist(Resize(MulRoots(c, roots), d.size), 1, s))[i], Inv(denominator)) == Fft(d, Twist(c, 1, s))[i]
  {
    var roots, s := MissingRoots(d, missing, d.size), Inv(SHIFT_FACTOR);
    var zero := ZeroPoly(d, missing, d.size);
    assert zero == MulRoots([1], roots);
    hide Mul, Eval, Fft, Inv, ZeroPoly, MulRoots, Twist;
    var x := Mul(s, Pow(d.gen, i));
    FftOfTwistAt(d, zero, s, i);
    FftOfTwistAt(d, Resize(MulRoots(c, roots), d.size), s, i);
    FftOfTwistAt(d, c, s, i);
    hide Resize;
    ZeroPolyOnCoset(d, missing, i);
    EvalResize(MulRoots(c, roots), d.size, x);
    EvalMulRoots(c, roots, x);
    DivideOut(Eval(zero, x), Eval(c, x));
  }

  lemma DivideOut(a: Scalar, b: Scalar)
    requires PrimeModulus() && a != 0
    ensures Mul(Mul(a, b), Inv(a)) == b
  {
    hide Mul, Inv;
    InvIsInverse(a);
    MulComm(a, b);
    MulAssoc(b, a, Inv(a));
    MulUnits(b);
  }

  /** Moving to the coset and back is the identity on coefficients, padding included. */
  lemma UnshiftUndoesShift(c: seq<Scalar>, n: nat)
    requires PrimeModulus() && |c| <= n
    ensures Twist(Resize(Twist(c, 1, Inv(SHIFT_FACTOR)), n), 1, SHIFT_FACTOR) == Resize(c, n)
  {
    assert SHIFT_FACTOR != 0;
    hide Twist, Resize, Inv, PrimeModulus;
    InvIsInverse(SHIFT_FACTOR);
    MulComm(Inv(SHIFT_FACTOR), SHIFT_FACTOR);
    hide Mul;
    TwistBack(c, n, Inv(SHIFT_FACTOR), SHIFT_FACTOR);
  }

  lemma TwistBack(c: seq<Scalar>, n: nat, down: Scalar, up: Scalar)
    requires Mul(down, up) == 1 && |c| <= n
    ensures Twist(Resize(Twist(c, 1, down), n), 1, up) == Resize(c, n)
  {
    hide *;
    var back := Twist(Resize(Twist(c, 1, down), n), 1, up);
    forall i | 0 <= i < n
      ensures back[i] == Resize(c, n)[i]
    {
      TwistBackAt(c, n, down, up, i);
    }
  }

  lemma ResizeAt(c: seq<Scalar>, n: nat, i: nat)
    requires i < n
    ensures Resize(c, n)[i] == if i < |c| then c[i] else 0
  {}

  lemma TwistBackAt(c: seq<Scalar>, n: nat, down: Scalar, up: Scalar, i: nat)
    requires Mul(down, up) == 1 && i < n && |c| <= n
    ensures Twist(Resize(Twist(c, 1, down), n), 1, up)[i] == Resize(c, n)[i]
  {
    hide *;
    ResizeAt(Twist(c, 1, down), n, i);
    ResizeAt(c, n, i);
    TwistAt(Resize(Twist(c, 1, down), n), 1, up, i);
    MulUnits(Pow(up, i));
    if i < |c| {
      TwistAt(c, 1, down, i);
      MulUnits(Pow(down, i));
      MulAssoc(c[i], Pow(down, i), Pow(up, i));
      PowOfMul(down, up, i);
      PowOne(i);
      MulUnits(c[i]);
    }
  }

  // ---------- Main results ----------

  /** A polynomial with at most n/2 coefficients is recovered from any values of it, at least one and at least as many
      as it has coefficients: the answer is its values at the even points. */
  lemma ReconstructCorrect(d: Domain, subset: seq<Option<Scalar>>, c: seq<Scalar>)
    requires PrimeModulus() && NewDomain(|subset|) == Some(d) && IsPow2(|subset|) && |subset| >= 2
    requires 2 * |c| <= |subset|
    requires |c| + |Missing(subset, |subset|)| <= |subset| && |Missing(subset, |subset|)| < |subset|
    requires SamplesOf(subset, c, d.gen)
    ensures d.size == |subset| <= 0x1_0000_0000
    ensures Reconstruct(d, subset) == Ok(seq(d.size / 2, i requires 0 <= i => Eval(c, Pow(d.gen, 2 * i))))
  {
    DomainOfPow2(|subset|);
    NewDomainIsValid(|subset|);
    HalfDomain(|subset|);
    EvenPointsByShortFft(d, c);
    var s, missing := Inv(SHIFT_FACTOR), Missing(subset, |subset|);
    hide Mul, Inv, Eval, Fft, Ifft, ZeroPoly, Twist, Resize, NewDomain, MulRoots, DivideEach, TimesZero, Missing,
      HasOrder;
    ZeroEvalVanishes(d, subset);
    ProductOnDomain(d, subset, c);
    QuotientOnCoset(d, missing, c);
    FftIgnoresResize(d, Twist(c, 1, s));
    IfftOfFft(d, Resize(Twist(c, 1, s), d.size));
    UnshiftUndoesShift(c, d.size);
    FftOfResize(NewDomain(d.size / 2).value, c, d.size);
  }

  /** The half-size transform gives the values at the even points of the domain. */
  lemma EvenPointsByShortFft(d: Domain, c: seq<Scalar>)
    requires d.size > 1 && NewDomain(d.size / 2) == Some(Domain(d.size / 2, Mul(d.gen, d.gen)))
    requires 2 * |c| <= d.size
    ensures Fft(NewDomain(d.size / 2).value, c) == seq(d.size / 2, i requires 0 <= i => Eval(c, Pow(d.gen, 2 * i)))
  {
    hide Mul, Eval, Fft;
    var short := NewDomain(d.size / 2).value;
    forall i | 0 <= i < d.size / 2
      ensures Fft(short, c)[i] == Eval(c, Pow(d.gen, 2 * i))
    {
      FftAt(short, c, i);
      PowMul(d.gen, 2, i);
      MulUnits(d.gen);
      assert Pow(d.gen, 2) == Mul(d.gen, Pow(d.gen, 1)) && Pow(d.gen, 1) == Mul(d.gen, Pow(d.gen, 0));
    }
  }

  lemma ZeroEvalVanishes(d: Domain, subset: seq<Option<Scalar>>)
    requires PrimeModulus() && ValidDomain(d) && |subset| <= d.size < 2 * |subset|
    requires |Missing(subset, |subset|)| < d.size
    ensures forall i :: 0 <= i < |subset| && subset[i].None? ==>
      Fft(d, ZeroPoly(d, Missing(subset, |subset|), |subset|))[i] == 0
  {
    hide Mul, Eval, Fft;
    var zero := ZeroPoly(d, Missing(subset, |subset|), |subset|);
    forall i | 0 <= i < |subset| && subset[i].None?
      ensures Fft(d, zero)[i] == 0
    {
      FftAt(d, zero, i);
      ZeroPolyOnList(d, subset, i);
    }
  }

  lemma DomainOfPow2(n: nat)
    requires IsPow2(n) && NewDomain(n).Some?
    ensures NewDomain(n).value.size == n <= 0x1_0000_0000
  {
    NextPow2OfPow2(n);
    NextPow2IsLeast(n);
    Log2IsInverse(n);
    Pow2Of32();
    Pow2Monotone(Log2(n), 32);
  }

  lemma FftIgnoresResize(d: Domain, c: seq<Scalar>)
    ensures Fft(d, c) == Fft(d, Resize(c, d.size))
  {
    assert Resize(Resize(c, d.size), d.size) == Resize(c, d.size);
  }

  /** Padding to a longer size first and cutting it back changes nothing. */
  lemma FftOfResize(d: Domain, c: seq<Scalar>, n: nat)
    requires |c| <= d.size <= n
    ensures Fft(d, Resize(c, n)) == Fft(d, c)
  {
    assert Resize(Resize(c, n), d.size) == Resize(c, d.size);
  }

  lemma AnswersWithOneEntry(d: Domain, subset: seq<Option<Scalar>>, i: nat)
    requires PrimeModulus() && ValidDomain(d) && |subset| == d.size <= 0x1_0000_0000
    requires i < |subset| && subset[i].Some?
    ensures Reconstruct(d, subset).Ok?
  {
    MissingIsShort(subset, |subset|, i);
    hide Mul, Inv, Eval, Fft, Ifft, ZeroPoly, Twist, Resize, NewDomain, MulRoots, DivideEach, TimesZero, Missing,
      HasOrder;
    ZeroEvalVanishes(d, subset);
    QuotientOnCoset(d, Missing(subset, |subset|), []);
  }

  lemma FailsOnNothing(d: Domain, subset: seq<Option<Scalar>>)
    requires PrimeModulus() && ValidDomain(d) && |subset| == d.size <= 0x1_0000_0000
    requires forall i :: 0 <= i < |subset| ==> subset[i].None?
    ensures Reconstruct(d, subset) == Err(BadZeroPoly)
  {
    MissingIsAll(subset, |subset|);
    hide Mul, Inv, Eval, Fft, Ifft, ZeroPoly, Twist, Resize, NewDomain, MulRoots, DivideEach, TimesZero, Missing,
      HasOrder;
    AllMissingEval(d, Missing(subset, |subset|), 0);
  }

  // ---------- Lists shorter than their domain ----------

  /** When the list is more than half as long as the domain, the stride is 1 and the missing points are the same. */
  lemma ShortZeroPoly(d: Domain, missing: seq<nat>, length: nat)
    requires length < d.size < 2 * length
    ensures ZeroPoly(d, missing, length) == ZeroPoly(d, missing, d.size)
  {
    hide MulRoots;
    assert d.size / length == 1 && d.size / d.size == 1;
    assert MissingRoots(d, missing, length) == MissingRoots(d, missing, d.size);
  }

  /** A list that does not fill its domain is always answered, even one without any entry. */
  lemma AnswersOnShortList(d: Domain, subset: seq<Option<Scalar>>)
    requires PrimeModulus() && ValidDomain(d) && |subset| < d.size < 2 * |subset| && d.size <= 0x1_0000_0000
    ensures Reconstruct(d, subset).Ok?
  {
    hide Mul, Inv, Eval, Fft, Ifft, ZeroPoly, Twist, Resize, NewDomain, MulRoots, DivideEach, TimesZero, Missing,
      HasOrder;
    var missing := Missing(subset, |subset|);
    ZeroEvalVanishes(d, subset);
    ShortZeroPoly(d, missing, |subset|);
    QuotientOnCoset(d, missing, []);
  }

  lemma SizeOfDomain(n: nat)
    requires 0 < n && NewDomain(n).Some?
    ensures var size := NewDomain(n).value.size;
      && n <= size <= 0x1_0000_0000 && (size == n <==> IsPow2(n)) && (size != n ==> size < 2 * n)
  {
    NextPow2IsLeast(n);
    if IsPow2(n) {
      NextPow2OfPow2(n);
    }
    Log2IsInverse(NextPow2(n));
    Pow2Of32();
    Pow2Monotone(Log2(NextPow2(n)), 32);
  }

  /** The computation fails exactly on a list that fills its domain and has no entry at all. */
  lemma FailsExactlyOnNothing(d: Domain, subset: seq<Option<Scalar>>)
    requires PrimeModulus() && |subset| > 0 && NewDomain(|subset|) == Some(d)
    ensures |subset| <= d.size <= 0x1_0000_0000
    ensures Reconstruct(d, subset).Ok? <==> !IsPow2(|subset|) || exists i :: 0 <= i < |subset| && subset[i].Some?
  {
    SizeOfDomain(|subset|);
    NewDomainIsValid(|subset|);
    hide Reconstruct, NewDomain, HasOrder, IsPow2;
    if d.size != |subset| {
      AnswersOnShortList(d, subset);
    } else if i :| 0 <= i < |subset| && subset[i].Some? {
      AnswersWithOneEntry(d, subset, i);
    } else {
      FailsOnNothing(d, subset);
    }
  }

  lemma {:induction false} MissingIsShort(subset: seq<Option<Scalar>>, n: nat, i: nat)
    requires i < n <= |subset| && subset[i].Some?
    ensures |Missing(subset, n)| < n
  {
    if i < n - 1 {
      MissingIsShort(subset, n - 1, i);
    }
  }

  lemma {:induction false} MissingIsAll(subset: seq<Option<Scalar>>, n: nat)
    requires n <= |subset| && forall i :: 0 <= i < n ==> subset[i].None?
    ensures |Missing(subset, n)| == n
    ensures forall i :: 0 <= i < n ==> Missing(subset, n)[i] == i
  {
    if n > 0 {
      MissingIsAll(subset, n - 1);
    }
  }

  /** With every position missing the transform drops the leading coefficient, so -1 appears where 0 should. */
  lemma AllMissingEval(d: Domain, missing: seq<nat>, i: nat)
    requires PrimeModulus() && ValidDomain(d) && |missing| == d.size && i < d.size
    requires forall k :: 0 <= k < d.size ==> missing[k] == k
    ensures Fft(d, ZeroPoly(d, missing, d.size))[i] != 0
  {
    hide Mul, Eval;
    var x, roots := Pow(d.gen, i), MissingRoots(d, missing, d.size);
    var full := MulRoots([1], roots);
    var cut := full[..d.size];
    LeadingCoefficient(roots);
    assert full == cut + [1];
    assert d.size / d.size == 1;
    assert roots[i] == x;
    RootsAreExactlyTheZeros(roots, x);
    EvalAppendOne(cut, x);
    PowerIsRootOfUnity(d, i);
    if Eval(cut, x) == 0 {
      MulUnits(1);
      assert false;
    }
  }

  lemma {:induction false} LeadingCoefficient(roots: seq<Scalar>)
    ensures MulRoots([1], roots)[|roots|] == 1
  {
    hide Mul;
    if roots != [] {
      var front, r := roots[..|roots| - 1], roots[|roots| - 1];
      LeadingCoefficient(front);
      MulUnits(1);
    }
  }

  lemma {:induction false} EvalAppendOne(c: seq<Scalar>, x: Scalar)
    ensures Eval(c + [1], x) == Add(Eval(c, x), Pow(x, |c|))
  {
    hide Mul, Add;
    if c == [] {
      assert c + [1] == [1];
      EvalConst(x);
      MulUnits(1);
    } else {
      var v, q := Eval(c[1..], x), Pow(x, |c| - 1);
      assert (c + [1])[1..] == c[1..] + [1];
      EvalAppendOne(c[1..], x);
      MulAdd(x, v, q);
      AddSwap(c[0], 0, Mul(x, v), Mul(x, q));
      MulUnits(c[0]);
      MulUnits(Mul(x, q));
    }
  }
}

/** Recovering a low-degree polynomial's values from at least half of its evaluations
    (kate/recovery/src/com.rs, `reconstruct_poly` and its helpers). */
module PolyReconstruction {
  import opened Results
  import opened Field
  import opened Poly
  import opened Domain
  import opened Powers2
  import opened Division

  datatype PolyError = BadZeroPoly

  const SHIFT_FACTOR: Scalar := 5

  /** The positions below n that hold nothing, in ascending order. */
  function Missing(subset: seq<Option<Scalar>>, n: nat): (m: seq<nat>)
    requires n <= |subset|
    ensures |m| <= n
    ensures forall i :: i in m <==> 0 <= i < n && subset[i].None?
  {
    if n == 0 then []
    else if subset[n - 1].None? then Missing(subset, n - 1) + [n - 1]
    else Missing(subset, n - 1)
  }

  /** The domain points that belong to the missing positions of a list of the given length. */
  function MissingRoots(d: Domain, missing: seq<nat>, length: nat): (r: seq<Scalar>)
    requires length > 0
    ensures |r| == |missing|
  {
    QuotientBounds(d.size, length);
    seq(|missing|, i requires 0 <= i < |missing| =>
      MulLe(0, missing[i], d.size / length);
      Pow(d.gen, missing[i] * (d.size / length)))
  }

  function ZeroPoly(d: Domain, missing: seq<nat>, length: nat): (z: seq<Scalar>)
    requires length > 0
    ensures |z| == |missing| + 1
  {
    MulRoots([1], MissingRoots(d, missing, length))
  }

  function DivideEach(a: seq<Scalar>, b: seq<Scalar>): (q: seq<Scalar>)
    requires |a| == |b|
    ensures |q| == |a|
  {
    seq(|a|, i requires 0 <= i < |a| => Mul(a[i], Inv(b[i])))
  }

  function TimesZero(subset: seq<Option<Scalar>>, zeroEval: seq<Scalar>): (s: seq<Scalar>)
    requires |subset| <= |zeroEval|
    ensures |s| == |subset|
  {
    seq(|subset|, i requires 0 <= i < |subset| => if subset[i].Some? then Mul(subset[i].value, zeroEval[i]) else 0)
  }

  /** The whole computation as one expression, with both ways it can fail. */
  function Reconstruct(d: Domain, subset: seq<Option<Scalar>>): Result<seq<Scalar>, PolyError>
    requires 0 < |subset| <= d.size && d.size <= 0x1_0000_0000
  {
    var zeroPoly := ZeroPoly(d, Missing(subset, |subset|), |subset|);
    var zeroEval := Fft(d, zeroPoly);
    if exists i :: 0 <= i < |subset| && subset[i].None? && zeroEval[i] != 0 then Err(BadZeroPoly) else
    var numerator := Fft(d, Twist(Ifft(d, TimesZero(subset, zeroEval)), 1, Inv(SHIFT_FACTOR)));
    var denominator := Fft(d, Twist(zeroPoly, 1, Inv(SHIFT_FACTOR)));
    if 0 in denominator then Err(BadZeroPoly) else
    var shifted := Ifft(d, DivideEach(numerator, denominator));
    DomainExists(d.size / 2);
    Ok(Fft(NewDomain(d.size / 2).value, Twist(shifted, 1, SHIFT_FACTOR)))
  }

  lemma AnswerLength(d: Domain, subset: seq<Option<Scalar>>)
    requires 0 < |subset| <= d.size <= 0x1_0000_0000 && Reconstruct(d, subset).Ok?
    ensures |Reconstruct(d, subset).value| == NextPow2(d.size / 2)
  {
    hide Mul, Inv, Fft, Ifft, ZeroPoly, Missing, TimesZero, Twist, DivideEach, NewDomain, NextPow2;
    DomainExists(d.size / 2);
    NewDomainIsValid(d.size / 2);
  }

  // ---------- The in-place helpers ----------

  method ExpandRootOfUnity(d: Domain) returns (roots: seq<Scalar>)
    requires HasOrder(d.gen, d.size)
    ensures |roots| == d.size + 1
    ensures forall i :: 0 <= i < |roots| ==> roots[i] == Pow(d.gen, i)
  {
    assert Pow(d.gen, 1) == d.gen by {
      assert Pow(d.gen, 1) == Mul(d.gen, Pow(d.gen, 0));
      MulUnits(d.gen);
    }
    hide Mul;
    roots := [1, d.gen];
    var i := 1;
    while roots[i] != 1
      invariant 1 <= i <= d.size && |roots| == i + 1
      invariant forall k :: 0 <= k <= i ==> roots[k] == Pow(d.gen, k)
      decreases d.size - i
    {
      MulComm(roots[i], d.gen);
      roots := roots + [Mul(roots[i], d.gen)];
      i := i + 1;
    }
  }

  /** One step of the in-place product: multiplying z + x^i by (x - r), leading coefficient left out. */
  lemma MulLinearMonic(z: seq<Scalar>, r: Scalar, out: seq<Scalar>)
    requires |out| == |z| + 1
    requires out[0] == if z == [] then Sub(0, r) else Mul(z[0], Sub(0, r))
    requires forall j :: 0 < j < |z| ==> out[j] == Add(Mul(z[j], Sub(0, r)), z[j - 1])
    requires z != [] ==> out[|z|] == Add(Sub(0, r), z[|z| - 1])
    ensures MulLinear(z + [1], r) == out + [1]
  {
    var n := Sub(0, r);
    hide Mul, Add, Sub;
    MulUnits(n);
    MulUnits(1);
    MulUnits(out[0]);
    forall j | 0 <= j < |z|
      ensures Mul(n, z[j]) == Mul(z[j], n)
    {
      MulComm(n, z[j]);
    }
    var p := MulLinear(z + [1], r);
    forall j | 0 <= j < |p|
      ensures p[j] == (out + [1])[j]
    {
      assert p[j] == Add((Scale(z + [1], n) + [0])[j], ([0] + (z + [1]))[j]);
    }
  }

  /** The body of the outer loop of `zero_poly_fn`: multiplies the polynomial by (x - r) in place. */
  method MultiplyIn(z: seq<Scalar>, r: Scalar) returns (zeroPoly: seq<Scalar>)
    ensures |zeroPoly| == |z| + 1
    ensures zeroPoly + [1] == MulLinear(z + [1], r)
  {
    hide Mul, Add, Sub;
    var i, sub := |z|, Sub(0, r);
    zeroPoly := z + [sub];
    if i > 0 {
      zeroPoly := zeroPoly[i := Add(zeroPoly[i], zeroPoly[i - 1])];
      for j := i downto 1
        invariant |zeroPoly| == i + 1
        invariant zeroPoly[i] == Add(sub, z[i - 1])
        invariant forall k :: 0 <= k < j ==> zeroPoly[k] == z[k]
        invariant forall k :: j <= k < i ==> zeroPoly[k] == Add(Mul(z[k], sub), z[k - 1])
      {
        zeroPoly := zeroPoly[j := Mul(zeroPoly[j], sub)];
        zeroPoly := zeroPoly[j := Add(zeroPoly[j], zeroPoly[j - 1])];
      }
      zeroPoly := zeroPoly[0 := Mul(zeroPoly[0], sub)];
    }
    MulLinearMonic(z, r, zeroPoly);
  }

  /** The closing loop of `zero_poly_fn`: zeros up to the capacity. A vector reserves at least the `length` asked
      for, and at least what it holds; how much more is unspecified. */
  method PadToCapacity(z: seq<Scalar>, length: nat) returns (padded: seq<Scalar>)
    ensures |padded| >= |z| && |padded| >= length
    ensures padded == Resize(z, |padded|)
  {
    padded := z;
    var extra :| 0 <= extra;
    var capacity := (if |z| <= length then length else |z|) + extra;
    for k := |z| to capacity
      invariant |padded| == k && padded == Resize(z, k)
    {
      padded := padded + [0];
    }
  }

  /** `zero_poly_fn`: the coefficients of the monic polynomial that vanishes on the missing positions, padded with
      zeros to at least `length`, and its values on the domain. */
  method ZeroPolyFn(d: Domain, missing: seq<nat>, length: nat) returns (zeroPoly: seq<Scalar>, zeroEval: seq<Scalar>)
    requires HasOrder(d.gen, d.size) && 0 < length <= d.size
    requires forall i :: 0 <= i < |missing| ==> missing[i] < length
    ensures |zeroPoly| > |missing|
    ensures |zeroPoly| >= length
    ensures zeroPoly == Resize(ZeroPoly(d, missing, length), |zeroPoly|)
    ensures zeroEval == Fft(d, zeroPoly)
  {
    hide Mul, Add, Sub, Fft, MulLinear, Resize;
    var expanded := ExpandRootOfUnity(d);
    var stride := d.size / length;
    ghost var roots := MissingRoots(d, missing, length);
    zeroPoly := [];
    for i := 0 to |missing|
      invariant |zeroPoly| == i
      invariant zeroPoly + [1] == MulRoots([1], roots[..i])
    {
      StrideInRange(missing[i], length, d.size);
      zeroPoly := MultiplyIn(zeroPoly, expanded[missing[i] * stride]);
      assert roots[..i + 1][..i] == roots[..i];
    }
    assert roots[..|missing|] == roots;
    zeroPoly := PadToCapacity(zeroPoly + [1], length);
    zeroEval := Fft(d, zeroPoly);
  }

  lemma StrideInRange(v: nat, length: nat, size: nat)
    requires v < length <= size
    ensures 0 <= v * (size / length) < size
  {
    var stride := size / length;
    QuotientBounds(size, length);
    QuotientBelow(size, length, 1);
    MulLe(v + 1, length, stride);
    assert stride * length == length * stride && (v + 1) * stride == v * stride + stride;
  }

  /** The loop of `shift_poly` and of `unshift_poly`: each coefficient is multiplied by the next power of s. */
  method TwistInPlace(poly: array<Scalar>, s: Scalar)
    modifies poly
    ensures poly[..] == Twist(old(poly[..]), 1, s)
  {
    hide Mul;
    MulUnits(1);
    var factor: Scalar := 1;
    ghost var was := poly[..];
    for k := 0 to poly.Length
      invariant factor == Pow(s, k)
      invariant forall j :: 0 <= j < k ==> poly[j] == Mul(was[j], Pow(s, j))
      invariant forall j :: k <= j < poly.Length ==> poly[j] == was[j]
    {
      poly[k] := Mul(poly[k], factor);
      MulComm(factor, s);
      factor := Mul(factor, s);
    }
    forall j | 0 <= j < poly.Length
      ensures poly[j] == Twist(was, 1, s)[j]
    {
      TwistAt(was, 1, s, j);
      MulUnits(Pow(s, j));
    }
  }

  lemma TwistIsPower(c: seq<Scalar>, s: Scalar)
    ensures forall k :: 0 <= k < |c| ==> Twist(c, 1, s)[k] == Mul(c[k], Pow(s, k))
  {
    hide Mul;
    forall k | 0 <= k < |c|
      ensures Twist(c, 1, s)[k] == Mul(c[k], Pow(s, k))
    {
      TwistAt(c, 1, s, k);
      MulUnits(Pow(s, k));
    }
  }

  /** `shift_poly`: moves the polynomial to the coset, x -> x / 5. */
  method ShiftPoly(poly: array<Scalar>)
    modifies poly
    ensures poly[..] == Twist(old(poly[..]), 1, Inv(SHIFT_FACTOR))
    ensures forall k :: 0 <= k < poly.Length ==> poly[k] == Mul(old(poly[k]), Pow(Inv(5), k))
  {
    ghost var was := poly[..];
    TwistInPlace(poly, Inv(SHIFT_FACTOR));
    TwistIsPower(was, Inv(SHIFT_FACTOR));
  }

  /** `unshift_poly`: moves it back, x -> 5 x. */
  method UnshiftPoly(poly: array<Scalar>)
    modifies poly
    ensures poly[..] == Twist(old(poly[..]), 1, SHIFT_FACTOR)
    ensures forall k :: 0 <= k < poly.Length ==> poly[k] == Mul(old(poly[k]), Pow(5, k))
  {
    ghost var was := poly[..];
    TwistInPlace(poly, SHIFT_FACTOR);
    TwistIsPower(was, SHIFT_FACTOR);
  }

  // ---------- The computation itself ----------

  lemma {:induction false} TwistResize(c: seq<Scalar>, k: nat, n: nat, s: Scalar)
    requires k >= |c|
    ensures Resize(Resize(c, k), n) == Resize(c, n)
    ensures Resize(Twist(Resize(c, k), 1, s), n) == Resize(Twist(c, 1, s), n)
  {
    hide Mul;
    var a, b := Twist(Resize(c, k), 1, s), Twist(c, 1, s);
    forall i | 0 <= i < n
      ensures Resize(a, n)[i] == Resize(b, n)[i]
    {
      if i < k {
        TwistAt(Resize(c, k), 1, s, i);
        if i < |c| {
          TwistAt(c, 1, s, i);
        } else {
          MulUnits(Mul(1, Pow(s, i)));
        }
      }
    }
  }

  method CopyOf(s: seq<Scalar>) returns (a: array<Scalar>)
    ensures fresh(a) && a[..] == s
  {
    a := new Scalar[|s|](i requires 0 <= i < |s| => s[i]);
  }

  /** The loop that multiplies every present entry by the zero polynomial's value and puts zero for the others. */
  method WeighByZero(subset: seq<Option<Scalar>>, zeroEval: seq<Scalar>) returns (s: seq<Scalar>)
    requires |subset| <= |zeroEval|
    ensures s == TimesZero(subset, zeroEval)
  {
    hide Mul;
    s := [];
    for i := 0 to |subset|
      invariant |s| == i
      invariant forall k :: 0 <= k < i ==> s[k] == TimesZero(subset, zeroEval)[k]
    {
      s := s + [if subset[i].Some? then Mul(subset[i].value, zeroEval[i]) else 0];
    }
  }

  /** The loop that divides by the shifted zero polynomial's values, stopping at the first that has no inverse. */
  method DivideInPlace(a: array<Scalar>, b: seq<Scalar>) returns (divided: bool)
    requires a.Length == |b|
    modifies a
    ensures divided <==> 0 !in b
    ensures divided ==> a[..] == DivideEach(old(a[..]), b)
  {
    hide Mul, Inv;
    ghost var was := a[..];
    for i := 0 to a.Length
      invariant forall k :: 0 <= k < i ==> b[k] != 0 && a[k] == DivideEach(was, b)[k]
      invariant forall k :: i <= k < a.Length ==> a[k] == was[k]
    {
      match Inverse(b[i])
      case None =>
        return false;
      case Some(inv) =>
        a[i] := Mul(a[i], inv);
    }
    return true;
  }

  /** `reconstruct_poly`. */
  method ReconstructPoly(d: Domain, subset: seq<Option<Scalar>>) returns (r: Result<seq<Scalar>, PolyError>)
    requires HasOrder(d.gen, d.size) && 0 < |subset| <= d.size && d.size <= 0x1_0000_0000
    ensures r == Reconstruct(d, subset)
  {
    hide Mul, Add, Sub, Inv, Fft, Ifft, Twist, Resize, ZeroPoly;
    var missing := MissingIndices(subset);
    ghost var exact := ZeroPoly(d, missing, |subset|);
    assert forall i :: 0 <= i < |missing| ==> missing[i] in missing;
    var zeroVec, zeroEval := ZeroPolyFn(d, missing, |subset|);
    PaddingIsHarmless(d, exact, zeroVec);
    for i := 0 to |subset|
      invariant forall k :: 0 <= k < i && subset[k].None? ==> zeroEval[k] == 0
    {
      if subset[i].None? && zeroEval[i] != 0 {
        return Err(BadZeroPoly);
      }
    }
    var weighed := WeighByZero(subset, zeroEval);
    var polyWithZero := CopyOf(Ifft(d, weighed));
    var zeroPoly := CopyOf(zeroVec);
    ShiftPoly(polyWithZero);
    ShiftPoly(zeroPoly);
    var evalShifted := CopyOf(Fft(d, polyWithZero[..]));
    var divided := DivideInPlace(evalShifted, Fft(d, zeroPoly[..]));
    if !divided {
      return Err(BadZeroPoly);
    }
    var shifted := CopyOf(Ifft(d, evalShifted[..]));
    UnshiftPoly(shifted);
    DomainExists(d.size / 2);
    r := Ok(Fft(NewDomain(d.size / 2).value, shifted[..]));
  }

  method MissingIndices(subset: seq<Option<Scalar>>) returns (missing: seq<nat>)
    ensures missing == Missing(subset, |subset|)
  {
    missing := [];
    for i := 0 to |subset|
      invariant missing == Missing(subset, i)
    {
      if subset[i].None? {
        missing := missing + [i];
      }
    }
  }

  lemma PaddingIsHarmless(d: Domain, exact: seq<Scalar>, padded: seq<Scalar>)
    requires |padded| >= |exact| && padded == Resize(exact, |padded|)
    ensures Fft(d, padded) == Fft(d, exact)
    ensures Fft(d, Twist(padded, 1, Inv(SHIFT_FACTOR))) == Fft(d, Twist(exact, 1, Inv(SHIFT_FACTOR)))
  {
    hide Mul, Inv, Dft;
    TwistResize(exact, |padded|, d.size, Inv(SHIFT_FACTOR));
  }
}

/** Quotients of natural numbers, characterised by products. */
module Division {
  lemma MulTwice(a: int, b: int)
    ensures (2 * a) * b == 2 * (a * b) == b * (2 * a) && a * b == b * a
  {}

  lemma MulLe(a: int, b: int, c: nat)
    requires a <= b
    ensures a * c <= b * c
  {}

  lemma QuotientBounds(a: nat, b: nat)
    requires b > 0
    ensures a / b * b <= a < a / b * b + b
    ensures 0 <= a / b <= a
  {
    assert a == a / b * b + a % b;
    MulLe(1, b, a / b);
  }

  /** A quotient is below q exactly when the dividend is below q multiples. */
  lemma QuotientBelow(a: nat, b: nat, q: nat)
    requires b > 0
    ensures a / b < q <==> a < q * b
  {
    QuotientBounds(a, b);
    if a / b < q {
      MulLe(a / b + 1, q, b);
    } else {
      MulLe(q, a / b, b);
    }
  }

  lemma QuotientOf(a: nat, b: nat, q: nat)
    requires b > 0 && q * b <= a < q * b + b
    ensures a / b == q
  {
    QuotientBelow(a, b, q);
    QuotientBelow(a, b, q + 1);
    assert (q + 1) * b == q * b + b;
  }

  lemma QuotientOfProduct(q: nat, b: nat)
    requires b > 0
    ensures (b * q) / b == q
  {
    assert b * q == q * b;
    QuotientOf(b * q, b, q);
  }

  function CeilDiv(n: nat, w: nat): nat
    requires w > 0
  {
    (n + w - 1) / w
  }

  /** The rounded-up quotient is the least number of multiples that covers n. */
  lemma CeilDivIsLeast(n: nat, w: nat, h: nat)
    requires w > 0
    ensures CeilDiv(n, w) <= h <==> n <= h * w
  {
    QuotientBelow(n + w - 1, w, h + 1);
    assert (h + 1) * w == h * w + w;
  }

  lemma HalveQuotient(x: nat, w: nat)
    requires w > 0
    ensures (2 * x) / (2 * w) == x / w && (2 * x + 1) / (2 * w) == x / w
  {
    var q := x / w;
    QuotientBounds(x, w);
    assert q * (2 * w) == 2 * (q * w);
    QuotientOf(2 * x, 2 * w, q);
    QuotientOf(2 * x + 1, 2 * w, q);
  }

  lemma CeilDivHalves(n: nat, w: nat)
    requires w > 0 && w % 2 == 0
    ensures CeilDiv(n, w) == CeilDiv((n + 1) / 2, w / 2)
  {
    var h, m := w / 2, (n + 1) / 2;
    HalveQuotient(m + h - 1, h);
    if n % 2 == 0 {
      assert n + w - 1 == 2 * (m + h - 1) + 1;
    } else {
      assert n + w - 1 == 2 * (m + h - 1);
    }
  }
}

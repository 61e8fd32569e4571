/** Facts about products and quotients that the solver needs spelled out. */
module Division {

  lemma MulNonNegative(a: int, d: int)
    requires a >= 0 && d >= 0
    ensures a * d >= 0
  {
  }

  lemma MulMinus(a: int, b: int, d: int)
    ensures (b - a) * d == b * d - a * d
  {
  }

  lemma MulMonotone(a: int, b: int, d: int)
    requires a <= b && d >= 0
    ensures a * d <= b * d
  {
    MulNonNegative(b - a, d);
    MulMinus(a, b, d);
  }

  lemma MulOrder(a: int, b: int, d: int)
    requires d > 0
    ensures a < b ==> (a + 1) * d <= b * d
    ensures a <= b ==> a * d <= b * d
  {
    if a < b {
      MulMonotone(a + 1, b, d);
    }
    if a <= b {
      MulMonotone(a, b, d);
    }
  }

  lemma MulAssoc(a: int, b: int, c: int)
    ensures a * (b * c) == (a * b) * c
  {
  }

  lemma MulPositive(a: int, b: int)
    requires a > 0 && b > 0
    ensures a * b > 0
  {
  }

  lemma Quotient(x: nat, d: nat)
    requires d > 0
    ensures (x / d) * d <= x < (x / d + 1) * d
  {
    assert x == (x / d) * d + x % d;
  }

  lemma UniqueQuotient(x: nat, d: nat, m: int)
    requires d > 0 && m * d <= x < (m + 1) * d
    ensures x / d == m
  {
    Quotient(x, d);
    MulOrder(x / d, m, d);
    MulOrder(m, x / d, d);
  }

  lemma DivMonotone(x: nat, y: nat, d: nat)
    requires d > 0 && x <= y
    ensures x / d <= y / d
  {
    Quotient(x, d);
    Quotient(y, d);
    MulOrder(y / d, x / d, d);
  }

  lemma NestedBounds(x: int, d: int, k: int, q: int, m: int)
    requires d > 0 && k > 0
    requires q * d <= x < (q + 1) * d && m * k <= q < (m + 1) * k
    ensures m * (k * d) <= x < (m + 1) * (k * d)
  {
    MulMonotone(m * k, q, d);
    MulMonotone(q + 1, (m + 1) * k, d);
    MulAssoc(m, k, d);
    MulAssoc(m + 1, k, d);
  }

  /** Dividing twice divides by the product. */
  lemma DivNested(x: nat, d: nat, k: nat, product: nat)
    requires d > 0 && k > 0 && product == k * d
    ensures product > 0
    ensures x / product == (x / d) / k
  {
    MulPositive(k, d);
    var q := QuotientOf(x, d);
    var m := QuotientOf(q, k);
    NestedBounds(x, d, k, q, m);
    UniqueQuotient(x, product, m);
  }

  lemma QuotientOf(x: nat, d: nat) returns (q: nat)
    requires d > 0
    ensures q == x / d
    ensures q * d <= x < (q + 1) * d
  {
    Quotient(x, d);
    DivMonotone(0, x, d);
    q := x / d;
  }
}

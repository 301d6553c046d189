/** Multiplication and division of natural numbers. */
module Arithmetic {
  lemma MulMonotone(x: nat, y: nat, d: nat)
    requires x <= y
    ensures x * d <= y * d
  {
  }

  // Quotient and remainder are determined by what they must satisfy.
  lemma DivUnique(a: nat, d: nat, q: nat, r: nat)
    requires a == q * d + r && r < d
    ensures a / d == q && a % d == r
  {
    var p := a / d;
    assert a == p * d + a % d;
    if p < q {
      MulMonotone(p + 1, q, d);
    } else if p > q {
      MulMonotone(q + 1, p, d);
    }
  }

  lemma QuotientBounds(x: nat, d: nat)
    requires d > 0
    ensures 0 <= x / d <= x
    ensures x / d * d <= x < (x / d + 1) * d
  {
    var q := x / d;
    assert x == q * d + x % d;
    MulMonotone(1, d, q);
  }

  lemma Cancel(x: nat, y: nat, m: nat)
    requires m > 0 && x * m <= y * m
    ensures x <= y
  {
    if x > y {
      MulMonotone(y + 1, x, m);
    }
  }

  function Pow10(n: nat): (p: nat)
    ensures p > 0
  {
    if n == 0 then 1 else 10 * Pow10(n - 1)
  }

  lemma Regroup(q: nat, m: nat, r: nat, d: nat, e: nat)
    ensures (q * m + r) * d + e == q * (d * m) + (r * d + e)
  {
    assert q * m * d == q * (d * m);
  }

  // Division in two steps.
  lemma DivDiv(v: nat, d: nat, m: nat)
    requires d > 0 && m > 0
    ensures d * m > 0 && v / d / m == v / (d * m) && v % (d * m) == v / d % m * d + v % d
  {
    var x := v / d;
    QuotientBounds(v, d);
    TwoSteps(v, d, m, x / m, x % m, v % d);
  }

  lemma TwoSteps(v: nat, d: nat, m: nat, q: nat, r: nat, e: nat)
    requires d > 0 && m > 0 && r < m && e < d && v == (q * m + r) * d + e
    ensures d * m > 0 && v / (d * m) == q && v % (d * m) == r * d + e
  {
    Regroup(q, m, r, d, e);
    MulMonotone(r + 1, m, d);
    MulMonotone(1, m, d);
    DivUnique(v, d * m, q, r * d + e);
  }
}

/** Nonlinear steps that the solver should take one at a time. */
module Arithmetic {

  /** A product is at least as far from zero as its factor. */
  lemma MulBound(g: int, k: int)
    requires g >= 0
    ensures k >= 1 ==> g * k >= g
    ensures k <= 0 ==> g * k <= 0
    ensures k <= -1 ==> g * k <= -g
  {
    if k >= 1 {
      assert g * (k - 1) >= 0;
    } else if k <= -1 {
      assert g * (-k - 1) >= 0;
    }
  }

  lemma MulMonotone(a: int, b: int, p: nat)
    requires a <= b
    ensures a * p <= b * p
  {
    assert (b - a) * p >= 0;
  }

  lemma MulStrict(a: int, b: int, p: int)
    requires a < b && p > 0
    ensures a * p < b * p
  {
    MulMonotone(a + 1, b, p);
    assert (a + 1) * p == a * p + p;
  }

  lemma MulAssoc(a: int, b: int, c: int)
    ensures (a * b) * c == a * (b * c)
  {
  }

  lemma DivideShifted(q: int, base: nat, r: nat)
    requires r < base
    ensures (q * base + r) / base == q && (q * base + r) % base == r
  {
    var n := q * base + r;
    assert n == (n / base) * base + n % base;
    MulBound(base, n / base - q);
    assert base * (n / base - q) == (n / base) * base - q * base;
  }

  lemma Distribute(q: int, b: int, r: int, a: int)
    ensures (q * b + r) * a == q * (a * b) + r * a
  {
    MulAssoc(q, b, a);
    assert b * a == a * b;
  }

  lemma DivideTwice(v: nat, a: nat, b: nat)
    requires a > 0 && b > 0
    ensures a * b > 0 && v / (a * b) == v / a / b
  {
    var x, d := v / a, v % a;
    var q, r, m := x / b, x % b, a * b;
    assert m > 0 by { MulStrict(0, a, b); }
    assert r * a + d < m by { AppendDigitBound(r, b, a, d); }
    assert v == q * m + (r * a + d) by { Distribute(q, b, r, a); }
    DivideShifted(q, m, r * a + d);
  }

  lemma QuotientBelow(v: nat, p: nat, m: nat)
    requires p > 0 && v < m * p
    ensures v / p < m
  {
    assert v == (v / p) * p + v % p;
    if v / p >= m {
      MulMonotone(m, v / p, p);
    }
  }

  /** Appending a digit to a numeral below p keeps it below base * p. */
  lemma AppendDigitBound(x: nat, p: nat, base: nat, d: nat)
    requires x < p && d < base
    ensures x * base + d < base * p
  {
    MulMonotone(x + 1, p, base);
    assert (x + 1) * base == x * base + base;
  }
}

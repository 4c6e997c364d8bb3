/** Exact rationals: the arithmetic of boost::rational over unbounded integers.
    Compound assignments avoid a final renormalisation; comparison expands both
    operands as continued fractions. */
module RationalArithmetic {
  import opened Arithmetic
  import opened Numbers

  // ----- the sum: what the comment in operator+= argues -----

  /** With g = gcd(b, d), the numerator t = a*d1 + c*b1 shares no factor with b1 or d1. */
  lemma SumCoprimeToQuotients(a: int, b: int, c: int, d: int, b1: int, d1: int)
    requires b > 0 && d > 0 && Coprime(a, b) && Coprime(c, d)
    requires b == Gcd(b, d) * b1 && d == Gcd(b, d) * d1
    ensures Coprime(a * d1 + c * b1, b1) && Coprime(a * d1 + c * b1, d1)
  {
    CoprimeQuotients(b, d, b1, d1);
    PartialSumCoprime(a, b, Gcd(b, d), b1, d1, c);
    CoprimeSym(b1, d1);
    PartialSumCoprime(c, d, Gcd(b, d), d1, b1, a);
    assert a * d1 + c * b1 == c * b1 + a * d1;
  }

  lemma PartialSumCoprime(a: int, b: int, g: int, b1: int, d1: int, c: int)
    requires Coprime(a, b) && b == g * b1 && Coprime(b1, d1)
    ensures Coprime(a * d1 + c * b1, b1)
  {
    CoprimeSym(a, b);
    assert b == b1 * g;
    CoprimeFactor(b1, g, a);
    CoprimeSym(b1, a);
    CoprimeSym(b1, d1);
    CoprimeProduct(a, d1, b1);
    CoprimeShift(a * d1, c, b1);
  }

  /** Dividing numerator and denominator by gcd(t, g) alone already normalises the sum. */
  lemma SumIsNormalised(a: int, b: int, c: int, d: int, b1: int, d1: int, h: int, n: int, e: int)
    requires b > 0 && d > 0 && Coprime(a, b) && Coprime(c, d)
    requires b == Gcd(b, d) * b1 && d == Gcd(b, d) * d1
    requires h == Gcd(a * d1 + c * b1, Gcd(b, d)) && a * d1 + c * b1 == h * n && Gcd(b, d) == h * e
    ensures b1 * (d1 * e) > 0 && Coprime(n, b1 * (d1 * e))
    ensures n * (b * d) == (a * d + c * b) * (b1 * (d1 * e))
  {
    var g, t := Gcd(b, d), a * d1 + c * b1;
    GcdPositive(b, d);
    GcdPositive(t, g);
    SumCoprimeToQuotients(a, b, c, d, b1, d1);
    CoprimeQuotients(t, g, n, e);
    assert t == n * h;
    CoprimeFactor(n, h, b1);
    CoprimeFactor(n, h, d1);
    CoprimeSym(n, b1); CoprimeSym(n, d1); CoprimeSym(n, e);
    CoprimeProduct(d1, e, n);
    CoprimeProduct(b1, d1 * e, n);
    CoprimeSym(b1 * (d1 * e), n);
    SumValue(a, b, c, d, g, b1, d1, h, n, e);
    MulBound(g, b1); MulBound(g, d1); MulBound(h, e);
    assert d1 * e > 0;
  }

  lemma SumValue(a: int, b: int, c: int, d: int, g: int, b1: int, d1: int, h: int, n: int, e: int)
    requires b == g * b1 && d == g * d1 && a * d1 + c * b1 == h * n && g == h * e
    ensures n * (b * d) == (a * d + c * b) * (b1 * (d1 * e))
  {
    var w := b1 * (d1 * e);
    assert b * d == (g * h) * w by {
      Regroup(g, b1, g, d1);
      MulAssoc(g, h, e);
      MulAssoc(g * h, e, b1 * d1);
      MulAssoc(b1, d1, e);
    }
    assert a * d + c * b == g * (h * n) by {
      assert a * d == g * (a * d1);
      assert c * b == g * (c * b1);
      assert g * (a * d1 + c * b1) == g * (a * d1) + g * (c * b1);
    }
    assert g * (h * n) == n * (g * h);
    assert (n * (g * h)) * w == n * ((g * h) * w);
  }

  // ----- the product -----

  /** Cancelling crosswise first leaves a normalised product. */
  lemma ProductIsNormalised(a: int, b: int, c: int, d: int, a1: int, b1: int, c1: int, d1: int)
    requires b != 0 && d != 0 && Coprime(a, b) && Coprime(c, d)
    requires a == Gcd(a, d) * a1 && d == Gcd(a, d) * d1 && c == Gcd(c, b) * c1 && b == Gcd(c, b) * b1
    ensures Coprime(a1 * c1, b1 * d1)
    ensures (a1 * c1) * (b * d) == (a * c) * (b1 * d1)
  {
    CoprimeQuotients(a, d, a1, d1);
    CoprimeQuotients(c, b, c1, b1);
    CoprimeParts(a, b, Gcd(a, d), a1, Gcd(c, b), b1);
    CoprimeParts(c, d, Gcd(c, b), c1, Gcd(a, d), d1);
    CoprimeProduct(a1, c1, b1);
    CoprimeProduct(a1, c1, d1);
    CoprimeSym(a1 * c1, b1);
    CoprimeSym(a1 * c1, d1);
    CoprimeProduct(b1, d1, a1 * c1);
    CoprimeSym(b1 * d1, a1 * c1);
    ProductValue(a, b, c, d, Gcd(a, d), Gcd(c, b), a1, b1, c1, d1);
  }

  lemma CoprimeParts(a: int, b: int, g: int, a1: int, h: int, b1: int)
    requires Coprime(a, b) && a == g * a1 && b == h * b1
    ensures Coprime(a1, b1)
  {
    assert a == a1 * g && b == b1 * h;
    CoprimeFactor(a1, g, b);
    CoprimeSym(a1, b);
    CoprimeFactor(b1, h, a1);
    CoprimeSym(b1, a1);
  }

  lemma ProductValue(a: int, b: int, c: int, d: int, g: int, h: int, a1: int, b1: int, c1: int, d1: int)
    requires a == g * a1 && d == g * d1 && c == h * c1 && b == h * b1
    ensures (a1 * c1) * (b * d) == (a * c) * (b1 * d1)
  {
    Regroup(h, b1, g, d1);
    Regroup(g, a1, h, c1);
    var m, p, q := h * g, b1 * d1, a1 * c1;
    assert q * (m * p) == (m * q) * p;
    assert h * g == g * h;
  }

  /** What the two crosswise gcds leave of a product of fractions in lowest terms. */
  lemma CrosswiseQuotients(a: int, b: int, c: int, d: int)
    requires b > 0 && d != 0 && Coprime(a, b) && Coprime(c, d)
    ensures Gcd(a, d) > 0 && Gcd(c, b) > 0
    ensures var n := Quot(a, Gcd(a, d)) * Quot(c, Gcd(c, b));
            var m := Quot(b, Gcd(c, b)) * Quot(d, Gcd(a, d));
            Coprime(n, m) && n * (b * d) == (a * c) * m && (m > 0 <==> d > 0) && m != 0
  {
    GcdPositive(a, d);
    GcdPositive(c, b);
    var a1, d1 := GcdCofactors(a, d);
    var c1, b1 := GcdCofactors(c, b);
    QuotExact(a, Gcd(a, d), a1); QuotExact(d, Gcd(a, d), d1);
    QuotExact(c, Gcd(c, b), c1); QuotExact(b, Gcd(c, b), b1);
    ProductIsNormalised(a, b, c, d, a1, b1, c1, d1);
    MulBound(Gcd(a, d), d1);
    MulBound(Gcd(c, b), b1);
    MulBound(b1, d1);
  }

  /** Two normalised fractions denote the same number only if they are the same pair. */
  lemma NormalFormUnique(a: int, b: int, c: int, d: int)
    requires b > 0 && d > 0 && Coprime(a, b) && Coprime(c, d)
    ensures a * d == c * b <==> a == c && b == d
  {
    if a * d == c * b {
      CoprimeSym(a, b);
      CoprimeSym(c, d);
      var m := Gauss(b, a, d, c);
      var k := Gauss(d, c, b, a);
      MulBound(b, m);
      assert b * (m * k) == (b * m) * k == b * 1;
      MulCancel(b, m * k, 1);
      UnitFactor(m, k);
      assert b == d;
      MulCancel(d, a, c);
    }
  }

  // ----- the class -----

  class Rational {
    var num: int
    var den: int

    /** Normalised: positive denominator, no common factor. */
    ghost predicate Valid()
      reads this
    {
      den > 0 && Coprime(num, den)
    }

    constructor (n: int, d: int)
      requires d != 0
      ensures Valid() && num * d == n * den
    {
      num, den := n, d;
      new;
      var ok := Normalize();
    }

    /** Brings any numerator and denominator to normal form; a zero denominator is rejected. */
    method Normalize() returns (ok: bool)
      modifies this
      ensures ok <==> old(den) != 0
      ensures ok ==> Valid() && num * old(den) == old(num) * den
      ensures !ok ==> num == old(num) && den == old(den)
    {
      if den == 0 {
        return false;
      }
      if num == 0 {
        den := 1;
        CoprimeFromBezout(0, 1, 0, 1);
        return true;
      }
      hide Gcd, Quot;
      var g := Gcd(num, den);
      ghost var p, q := GcdCofactors(num, den);
      GcdPositive(num, den);
      CoprimeQuotients(num, den, p, q);
      QuotExact(num, g, p);
      QuotExact(den, g, q);
      CrossCofactors(num, den, g, p, q);
      num := Quot(num, g);
      den := Quot(den, g);
      if den < 0 {
        FlipSigns(num, den, old(den), old(num));
        num := -num;
        den := -den;
      }
      return true;
    }

    method AddAssign(r: Rational)
      requires Valid() && r.Valid()
      modifies this
      ensures Valid()
      ensures num * (old(den) * old(r.den)) == (old(num) * old(r.den) + old(r.num) * old(den)) * den
    {
      var rNum, rDen := r.num, r.den;
      Accumulate(rNum, rDen);
    }

    method SubAssign(r: Rational)
      requires Valid() && r.Valid()
      modifies this
      ensures Valid()
      ensures num * (old(den) * old(r.den)) == (old(num) * old(r.den) - old(r.num) * old(den)) * den
    {
      var rNum, rDen := r.num, r.den;
      CoprimeNegate(rNum, rDen);
      Accumulate(-rNum, rDen);
    }

    /** The body shared by += and -=: adds rNum/rDen. */
    method Accumulate(rNum: int, rDen: int)
      requires Valid() && rDen > 0 && Coprime(rNum, rDen)
      modifies this
      ensures Valid()
      ensures num * (old(den) * rDen) == (old(num) * rDen + rNum * old(den)) * den
    {
      var g := Gcd(den, rDen);
      GcdPositive(den, rDen);
      ghost var b1, d1 := GcdCofactors(den, rDen);
      QuotExact(den, g, b1);
      QuotExact(rDen, g, d1);
      den := Quot(den, g);
      num := num * Quot(rDen, g) + rNum * den;
      ghost var n, e := GcdCofactors(num, g);
      var h := Gcd(num, g);
      GcdPositive(num, g);
      SumIsNormalised(old(num), old(den), rNum, rDen, b1, d1, h, n, e);
      QuotExact(num, h, n);
      assert rDen == h * (d1 * e);
      QuotExact(rDen, h, d1 * e);
      num := Quot(num, h);
      den := den * Quot(rDen, h);
    }

    method MulAssign(r: Rational)
      requires Valid() && r.Valid()
      modifies this
      ensures Valid()
      ensures num * (old(den) * old(r.den)) == (old(num) * old(r.num)) * den
    {
      var rNum, rDen := r.num, r.den;
      var gcd1, gcd2 := Gcd(num, rDen), Gcd(rNum, den);
      CrosswiseQuotients(num, den, rNum, rDen);
      num := Quot(num, gcd1) * Quot(rNum, gcd2);
      den := Quot(den, gcd2) * Quot(rDen, gcd1);
    }

    /** Rejects a zero divisor and then changes nothing. */
    method DivAssign(r: Rational) returns (ok: bool)
      requires Valid() && r.Valid()
      modifies this
      ensures Valid()
      ensures ok <==> old(r.num) != 0
      ensures ok ==> num * (old(den) * old(r.num)) == (old(num) * old(r.den)) * den
      ensures !ok ==> num == old(num) && den == old(den)
    {
      var rNum, rDen := r.num, r.den;
      if rNum == 0 {
        return false;
      }
      if num == 0 {
        return true;
      }
      hide Gcd, Quot;
      var gcd1, gcd2 := Gcd(num, rNum), Gcd(rDen, den);
      CoprimeSym(rNum, rDen);
      CrosswiseQuotients(num, den, rDen, rNum);
      num := Quot(num, gcd1) * Quot(rDen, gcd2);
      den := Quot(den, gcd2) * Quot(rNum, gcd1);
      assert num * (old(den) * rNum) == (old(num) * rDen) * den;
      if den < 0 {
        FlipSigns(num, den, old(den) * rNum, old(num) * rDen);
        num := -num;
        den := -den;
      }
      return true;
    }

    /** The order of two rationals by their continued-fraction expansions. */
    method Less(r: Rational) returns (less: bool)
      requires den > 0 && r.den > 0
      ensures less <==> num * r.den < r.num * den
    {
      less := CompareExpansions(num, den, r.num, r.den);
    }

    method LessThanInt(i: int) returns (less: bool)
      requires den > 0
      ensures less <==> num < i * den
    {
      var q, _ := FloorDivide(num, den);
      FloorOrder(num, den, q, i);
      less := q < i;
    }

    method GreaterThanInt(i: int) returns (greater: bool)
      requires Valid()
      ensures greater <==> num > i * den
    {
      if EqualsInt(i) {
        greater := false;
      } else {
        var less := LessThanInt(i);
        greater := !less;
      }
      CoprimeFromBezout(i, 1, 0, 1);
      NormalFormUnique(num, den, i, 1);
    }

    predicate EqualsInt(i: int)
      reads this
    {
      den == 1 && num == i
    }

    predicate Equals(r: Rational)
      reads this, r
    {
      num == r.num && den == r.den
    }
  }

  lemma CrossCofactors(n: int, d: int, g: int, p: int, q: int)
    requires n == g * p && d == g * q
    ensures p * d == n * q
  {
    MulAssoc(g, p, q);
    MulAssoc(g, q, p);
  }

  /** Moving the sign to the numerator keeps lowest terms and the number denoted. */
  lemma FlipSigns(n: int, d: int, x: int, y: int)
    requires Coprime(n, d) && n * x == y * d
    ensures Coprime(-n, -d) && (-n) * x == y * (-d)
  {
    CoprimeNegate(n, d);
    CoprimeSym(-n, d);
    CoprimeNegate(d, -n);
    CoprimeSym(-d, -n);
  }

  /** The memberwise comparison of operator== decides equality of the numbers denoted. */
  lemma EqualsIsNumericEquality(x: Rational, y: Rational)
    requires x.Valid() && y.Valid()
    ensures x.Equals(y) <==> x.num * y.den == y.num * x.den
  {
    NormalFormUnique(x.num, x.den, y.num, y.den);
  }

  // ----- continued fractions -----

  /** One expansion step: truncated division, then the loop that makes the remainder non-negative. */
  method FloorDivide(n: int, d: int) returns (q: int, r: int)
    requires d > 0
    ensures n == q * d + r && 0 <= r < d
  {
    QuotRem(n, d);
    q, r := Quot(n, d), Rem(n, d);
    while r < 0
      invariant n == q * d + r && r < d && -d < r
      decreases -r
    {
      assert (q - 1) * d == q * d - d;
      r, q := r + d, q - 1;
    }
  }

  lemma FloorOrder(n: int, d: int, q: int, i: int)
    requires d > 0 && n - q * d >= 0 && n - q * d < d
    ensures q < i <==> n < i * d
  {
    MulBound(d, i - q);
    assert d * (i - q) == i * d - q * d;
  }

  /** Comparing two fractions whose integer parts differ is comparing those integer parts. */
  lemma DifferentQuotients(n: int, d: int, q: int, r: int, n': int, d': int, q': int, r': int)
    requires n == q * d + r && 0 <= r < d && n' == q' * d' + r' && 0 <= r' < d'
    requires q < q'
    ensures n * d' < n' * d
  {
    // n < (q + 1) * d <= q' * d, and q' * d' <= n'
    assert n <= q * d + d - 1;
    MulBound(d, q' - q);
    assert d * (q' - q) == q' * d - q * d;
    CrossBound(n, d, n', d', q');
  }

  lemma CrossBound(n: int, d: int, n': int, d': int, q: int)
    requires d > 0 && d' > 0 && n < q * d && q * d' <= n'
    ensures n * d' < n' * d
  {
    MulBound(d', q * d - n);
    assert d' * (q * d - n) == (q * d) * d' - n * d';
    MulBound(d, n' - q * d');
    assert d * (n' - q * d') == n' * d - (q * d') * d;
    assert (q * d) * d' == (q * d') * d;
  }

  /** With equal integer parts the order is that of the remainders. */
  lemma EqualQuotients(n: int, d: int, r: int, n': int, d': int, r': int, q: int)
    requires n == q * d + r && n' == q * d' + r'
    ensures n * d' - n' * d == r * d' - r' * d
  {
    assert (q * d) * d' == (q * d') * d;
    assert n * d' == (q * d) * d' + r * d' && n' * d == (q * d') * d + r' * d;
  }

  /** Expands both fractions in step; every reciprocal turns the order round. */
  method CompareExpansions(n1: int, d1: int, n2: int, d2: int) returns (less: bool)
    requires d1 > 0 && d2 > 0
    ensures less <==> n1 * d2 < n2 * d1
  {
    var tn, td, rn, rd := n1, d1, n2, d2;
    var tq, tr := FloorDivide(tn, td);
    var rq, rr := FloorDivide(rn, rd);
    var reverse := false;
    while true
      invariant td > 0 && rd > 0
      invariant tn == tq * td + tr && 0 <= tr < td
      invariant rn == rq * rd + rr && 0 <= rr < rd
      invariant n1 * d2 < n2 * d1 <==> if reverse then rn * td < tn * rd else tn * rd < rn * td
      decreases tr
    {
      if tq != rq {
        if tq < rq {
          DifferentQuotients(tn, td, tq, tr, rn, rd, rq, rr);
        } else {
          DifferentQuotients(rn, rd, rq, rr, tn, td, tq, tr);
        }
        return if reverse then tq > rq else tq < rq;
      }
      EqualQuotients(tn, td, tr, rn, rd, rr, tq);
      reverse := !reverse;
      if tr == 0 || rr == 0 {
        break;
      }
      tn, td := td, tr;
      rn, rd := rd, rr;
      tq, tr := FloorDivide(tn, td);
      rq, rr := FloorDivide(rn, rd);
    }
    if tr == rr {
      return false;
    }
    MulBound(rd, tr);
    MulBound(td, rr);
    return (tr != 0) != reverse;
  }

  // ----- the constant-expression test for normal form -----

  function InnerGcd(a: int, b: int): int
    decreases Abs(b)
  {
    if b == 0 then a else InnerGcd(b, Rem(a, b))
  }

  predicate IsNormalized(n: int, d: int) {
    d > 0 && (n != 0 || d == 1) && Abs(InnerGcd(n, d)) == 1
  }

  lemma {:induction false} InnerGcdIsGcd(a: int, b: int)
    ensures Abs(InnerGcd(a, b)) == Gcd(a, b)
    decreases Abs(b)
  {
    if b != 0 {
      InnerGcdIsGcd(b, Rem(a, b));
    }
  }

  /** The recursive test on signed remainders accepts exactly the normal forms. */
  lemma IsNormalizedExactly(n: int, d: int)
    ensures IsNormalized(n, d) <==> d > 0 && Coprime(n, d)
  {
    InnerGcdIsGcd(n, d);
    if n == 0 && d > 0 {
      GcdZero(d);
    }
  }

  lemma GcdZero(d: nat)
    requires d > 0
    ensures Gcd(0, d) == d
  {
    assert 0 % d == 0;
    assert GcdNat(0, d) == GcdNat(d, 0);
  }
}

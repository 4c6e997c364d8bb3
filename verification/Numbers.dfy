/** Greatest common divisors over the integers, with the divisibility facts that
    exact rational arithmetic needs. Divisibility is always carried by explicit
    cofactors, so that every proof is a rearrangement of products. */
module Numbers {
  import opened Arithmetic

  function Abs(a: int): nat {
    if a < 0 then -a else a
  }

  function GcdNat(a: nat, b: nat): nat
    decreases b
  {
    if b == 0 then a else GcdNat(b, a % b)
  }

  /** The non-negative greatest common divisor of any two integers. */
  function Gcd(a: int, b: int): nat {
    GcdNat(Abs(a), Abs(b))
  }

  ghost predicate Coprime(a: int, b: int) {
    Gcd(a, b) == 1
  }

  lemma {:induction false} GcdNatCofactors(a: nat, b: nat) returns (p: nat, q: nat)
    ensures a == GcdNat(a, b) * p && b == GcdNat(a, b) * q
    decreases b
  {
    if b == 0 {
      p, q := 1, 0;
    } else {
      var p', q' := GcdNatCofactors(b, a % b);
      var g := GcdNat(a, b);
      p, q := (a / b) * p' + q', p';
      DivideCofactor(a, b, g, p', q');
    }
  }

  lemma DivideCofactor(a: nat, b: nat, g: nat, p: nat, q: nat)
    requires b > 0 && b == g * p && a % b == g * q
    ensures a == g * ((a / b) * p + q)
  {
    var d := a / b;
    assert a == d * b + g * q;
    assert d * (g * p) == g * (d * p);
  }

  lemma {:induction false} GcdNatBezout(a: nat, b: nat) returns (x: int, y: int)
    ensures a * x + b * y == GcdNat(a, b)
    decreases b
  {
    if b == 0 {
      x, y := 1, 0;
    } else {
      var x', y' := GcdNatBezout(b, a % b);
      x, y := y', x' - (a / b) * y';
      assert a == (a / b) * b + a % b;
      assert a * y' == ((a / b) * b + a % b) * y' == b * ((a / b) * y') + (a % b) * y';
      assert b * y == b * x' - b * ((a / b) * y');
    }
  }

  /** The gcd divides both arguments. */
  lemma GcdCofactors(a: int, b: int) returns (p: int, q: int)
    ensures a == Gcd(a, b) * p && b == Gcd(a, b) * q
  {
    p, q := GcdNatCofactors(Abs(a), Abs(b));
    p := if a < 0 then -p else p;
    q := if b < 0 then -q else q;
  }

  /** Bezout: the gcd is an integer combination of its arguments. */
  lemma Bezout(a: int, b: int) returns (x: int, y: int)
    ensures a * x + b * y == Gcd(a, b)
  {
    x, y := GcdNatBezout(Abs(a), Abs(b));
    x := if a < 0 then -x else x;
    y := if b < 0 then -y else y;
  }

  lemma GcdPositive(a: int, b: int)
    requires a != 0 || b != 0
    ensures Gcd(a, b) > 0
  {
    var p, q := GcdCofactors(a, b);
  }

  lemma UnitFactor(g: nat, k: int)
    requires g * k == 1
    ensures g == 1
  {
    MulBound(g, k);
  }

  lemma CoprimeFromBezout(a: int, b: int, x: int, y: int)
    requires a * x + b * y == 1
    ensures Coprime(a, b)
  {
    var p, q := GcdCofactors(a, b);
    var g := Gcd(a, b);
    assert (g * p) * x == g * (p * x);
    assert (g * q) * y == g * (q * y);
    assert g * (p * x + q * y) == g * (p * x) + g * (q * y);
    UnitFactor(g, p * x + q * y);
  }

  lemma CoprimeSym(a: int, b: int)
    requires Coprime(a, b)
    ensures Coprime(b, a)
  {
    var x, y := Bezout(a, b);
    CoprimeFromBezout(b, a, y, x);
  }

  /** Any divisor of a number coprime to b is coprime to b. */
  lemma CoprimeFactor(a: int, k: int, b: int)
    requires Coprime(a * k, b)
    ensures Coprime(a, b)
  {
    var x, y := Bezout(a * k, b);
    assert (a * k) * x == a * (k * x);
    CoprimeFromBezout(a, b, k * x, y);
  }

  lemma Regroup(a: int, x: int, b: int, u: int)
    ensures (a * x) * (b * u) == (a * b) * (x * u)
  {
    assert (a * x) * (b * u) == a * (x * (b * u));
    assert x * (b * u) == b * (x * u);
    assert a * (b * (x * u)) == (a * b) * (x * u);
  }

  lemma CombineUnits(s: int, t: int, c: int, y: int, v: int)
    requires s + c * y == 1 && t + c * v == 1
    ensures s * t + c * (y + s * v) == 1
  {
    assert s * (t + c * v) == s * t + s * (c * v);
    assert s * (c * v) == c * (s * v);
    assert c * (y + s * v) == c * y + c * (s * v);
  }

  lemma CoprimeProduct(a: int, b: int, c: int)
    requires Coprime(a, c) && Coprime(b, c)
    ensures Coprime(a * b, c)
  {
    var x, y := Bezout(a, c);
    var u, v := Bezout(b, c);
    CombineUnits(a * x, b * u, c, y, v);
    Regroup(a, x, b, u);
    CoprimeFromBezout(a * b, c, x * u, y + (a * x) * v);
  }

  /** Adding a multiple of the other argument keeps coprimality. */
  lemma CoprimeShift(a: int, k: int, c: int)
    requires Coprime(a, c)
    ensures Coprime(a + k * c, c)
  {
    var x, y := Bezout(a, c);
    assert (a + k * c) * x + c * (y - k * x) == a * x + c * y by {
      assert (k * c) * x == c * (k * x);
    }
    CoprimeFromBezout(a + k * c, c, x, y - k * x);
  }

  /** Dividing both arguments by their gcd leaves a coprime pair. */
  lemma CoprimeQuotients(a: int, b: int, p: int, q: int)
    requires a != 0 || b != 0
    requires a == Gcd(a, b) * p && b == Gcd(a, b) * q
    ensures Coprime(p, q)
  {
    var x, y := Bezout(a, b);
    GcdPositive(a, b);
    var g := Gcd(a, b);
    assert (g * p) * x == g * (p * x);
    assert (g * q) * y == g * (q * y);
    assert g * (p * x + q * y) == g * 1;
    MulCancel(g, p * x + q * y, 1);
    CoprimeFromBezout(p, q, x, y);
  }

  lemma MulCancel(g: int, a: int, b: int)
    requires g != 0 && g * a == g * b
    ensures a == b
  {
    assert g * (a - b) == 0;
    var h, k := if g > 0 then g else -g, a - b;
    assert h * k == 0;
    MulBound(h, k);
  }

  lemma ExactQuotient(a: int, g: int, p: int)
    requires g > 0 && a == g * p
    ensures a / g == p && a % g == 0
  {
    var r := a - g * (a / g);
    assert 0 <= r < g;
    assert r == g * (p - a / g);
    MulBound(g, p - a / g);
  }

  /** Gauss: a number dividing a product and coprime to one factor divides the other. */
  lemma Gauss(a: int, b: int, c: int, k: int) returns (m: int)
    requires Coprime(a, b) && b * c == a * k
    ensures c == a * m
  {
    var x, y := Bezout(a, b);
    m := x * c + y * k;
    calc {
      c;
      (a * x + b * y) * c;
      a * (x * c) + y * (b * c);
      { assert y * (a * k) == a * (y * k); }
      a * (x * c) + a * (y * k);
      a * m;
    }
  }

  lemma CoprimeNegate(a: int, b: int)
    requires Coprime(a, b)
    ensures Coprime(-a, b)
  {
    var x, y := Bezout(a, b);
    CoprimeFromBezout(-a, b, -x, y);
  }

  /** C++ integer division and remainder: the quotient is truncated toward zero. */
  function Quot(a: int, b: int): int
    requires b != 0
  {
    var q := Abs(a) / Abs(b);
    if (a < 0) == (b < 0) then q else -q
  }

  function Rem(a: int, b: int): int
    requires b != 0
  {
    if a < 0 then -(Abs(a) % Abs(b)) else Abs(a) % Abs(b)
  }

  lemma QuotRem(a: int, b: int)
    requires b != 0
    ensures a == b * Quot(a, b) + Rem(a, b)
    ensures Abs(Rem(a, b)) < Abs(b)
  {
    assert Abs(a) == Abs(b) * (Abs(a) / Abs(b)) + Abs(a) % Abs(b);
  }

  lemma QuotExact(a: int, g: int, p: int)
    requires g > 0 && a == g * p
    ensures Quot(a, g) == p
  {
    assert Abs(a) == g * Abs(p);
    ExactQuotient(Abs(a), g, Abs(p));
  }
}

/**
 * Exact rational numbers, as the solver of absorbing Markov chains uses them
 * through Python's `Fraction`.  A fraction is a numerator and a positive
 * denominator; every operation normalises its result by the greatest common
 * divisor, so results are in lowest terms.  What a fraction means is its
 * `Value`, a Dafny `real`, and every operation is specified by what it does
 * to values.
 */
module Fractions {

  function Abs(x: int): (r: nat)
    ensures r == x || r == -x
  {
    if x < 0 then -x else x
  }

  /** `d` divides `a`. */
  ghost predicate Divides(d: int, a: int) {
    exists q :: a == d * q
  }

  /** Euclid's algorithm, the `gcd` the solver imports. */
  function Gcd(a: nat, b: nat): nat
    decreases b
  {
    if b == 0 then a else Gcd(b, a % b)
  }

  lemma MulAtLeast(g: int, t: int)
    requires g > 0 && t > 0
    ensures g * t >= g
  {
  }

  lemma MulCancel(g: int, x: int, y: int)
    requires g > 0 && g * x == g * y
    ensures x == y
  {
  }

  /** Division by an exact divisor gives the cofactor. */
  lemma DivExact(a: int, g: int, q: int)
    requires g > 0 && a == g * q
    ensures a / g == q && a % g == 0
  {
    var t := q - a / g;
    assert a == g * (a / g) + a % g;
    assert g * t == g * q - g * (a / g);
    if t > 0 { MulAtLeast(g, t); }
    else if t < 0 { MulAtLeast(g, -t); }
  }

  lemma {:induction false} GcdPositive(a: nat, b: nat)
    requires a > 0 || b > 0
    ensures Gcd(a, b) > 0
    decreases b
  {
    if b != 0 {
      GcdPositive(b, a % b);
    }
  }

  /** The gcd is a common divisor. */
  lemma {:induction false} GcdDivides(a: nat, b: nat)
    ensures Divides(Gcd(a, b), a) && Divides(Gcd(a, b), b)
    decreases b
  {
    var g := Gcd(a, b);
    if b == 0 {
      assert a == g * 1 && b == g * 0;
    } else {
      GcdDivides(b, a % b);
      var x :| b == g * x;
      var y :| a % b == g * y;
      var k := a / b;
      assert a == k * b + a % b;
      assert k * b == g * (k * x) by { assert k * (g * x) == g * (k * x); }
      assert a == g * (k * x + y);
    }
  }

  /** Every common divisor divides the gcd. */
  lemma {:induction false} GcdGreatest(a: nat, b: nat, c: int)
    requires Divides(c, a) && Divides(c, b)
    ensures Divides(c, Gcd(a, b))
    decreases b
  {
    if b != 0 {
      var qa :| a == c * qa;
      var qb :| b == c * qb;
      var k := a / b;
      assert a % b == a - k * b;
      assert k * b == c * (k * qb) by { assert k * (c * qb) == c * (k * qb); }
      assert a % b == c * (qa - k * qb);
      GcdGreatest(b, a % b, c);
    }
  }

  /** A positive number's positive divisor has a positive cofactor. */
  lemma CofactorPositive(b: int, g: int, q: int)
    requires b > 0 && g > 0 && b == g * q
    ensures q > 0
  {
    if q <= 0 { MulAtLeast(g, 1 - q); }
  }

  /** Dividing two numbers by their gcd leaves numbers whose gcd is 1. */
  lemma CoprimeAfterDivision(a: nat, b: nat)
    requires b > 0
    ensures Gcd(a, b) > 0 && a % Gcd(a, b) == 0 && b % Gcd(a, b) == 0
    ensures b / Gcd(a, b) > 0 && Gcd(a / Gcd(a, b), b / Gcd(a, b)) == 1
  {
    GcdPositive(a, b);
    var g := Gcd(a, b);
    GcdDivides(a, b);
    var qa := Cofactor(a, g);
    var qb := Cofactor(b, g);
    CofactorPositive(b, g, qb);
    CoprimeCofactors(a, b, g, qa, qb);
  }

  /** The exact quotient of a non-negative number by a positive divisor. */
  lemma Cofactor(a: nat, g: nat) returns (q: nat)
    requires g > 0 && Divides(g, a)
    ensures a == g * q && a / g == q && a % g == 0
  {
    var x :| a == g * x;
    if x < 0 { MulAtLeast(g, -x); }
    DivExact(a, g, x);
    q := x;
  }

  lemma CoprimeCofactors(a: nat, b: nat, g: nat, qa: nat, qb: nat)
    requires g == Gcd(a, b) && g > 0 && qb > 0
    requires a == g * qa && b == g * qb
    ensures Gcd(qa, qb) == 1
  {
    GcdPositive(qa, qb);
    var h := Gcd(qa, qb);
    GcdDivides(qa, qb);
    ScaledDivides(a, g, qa, h);
    ScaledDivides(b, g, qb, h);
    GcdGreatest(a, b, g * h);
    UnitDivisor(g, h);
  }

  /** If h divides q then g*h divides g*q. */
  lemma ScaledDivides(a: int, g: int, q: int, h: int)
    requires a == g * q && Divides(h, q)
    ensures Divides(g * h, a)
  {
    var x :| q == h * x;
    ScaleDivisor(a, g, h, x);
  }

  lemma ScaleDivisor(a: int, g: int, h: int, x: int)
    requires a == g * (h * x)
    ensures a == (g * h) * x
  {
  }

  /** g*h divides g, with g and h positive, only when h is 1. */
  lemma UnitDivisor(g: int, h: int)
    requires g > 0 && h > 0 && Divides(g * h, g)
    ensures h == 1
  {
    var z :| g == (g * h) * z;
    UnitFactor(g, h, z);
  }

  /** g == g*h*z with g, h positive forces h == 1. */
  lemma UnitFactor(g: int, h: int, z: int)
    requires g > 0 && h > 0 && g == (g * h) * z
    ensures h == 1
  {
    assert g * (h * z) == g * 1;
    MulCancel(g, h * z, 1);
    if h > 1 {
      if z >= 1 { MulAtLeast(h, z); } else { MulAtLeast(h, 1 - z); }
    }
  }

  datatype Frac = Frac(num: int, den: int)

  /** A fraction with a positive denominator, the only kind the solver builds. */
  type Fraction = f: Frac | f.den > 0 witness Frac(0, 1)

  /** The rational number a fraction denotes. */
  function Value(f: Fraction): real {
    f.num as real / f.den as real
  }

  /** A fraction is in lowest terms. */
  predicate LowestTerms(f: Fraction) {
    Gcd(Abs(f.num), f.den) == 1
  }

  /**
   * `Fraction(n, d)`: divides both parts by their gcd and puts the sign on the
   * numerator; `d == 0` is a division by zero.
   */
  function Make(n: int, d: int): (r: Fraction)
    requires d != 0
    ensures Value(r) == n as real / d as real
    ensures LowestTerms(r)
  {
    var an, ad := Abs(n), Abs(d);
    CoprimeAfterDivision(an, ad);
    var g := Gcd(an, ad);
    var r := Frac(if (n < 0) != (d < 0) then -(an / g) else an / g, ad / g);
    MakeValue(n, d, g, r);
    r
  }

  lemma MakeValue(n: int, d: int, g: int, r: Fraction)
    requires d != 0 && g > 0 && Abs(n) % g == 0 && Abs(d) % g == 0
    requires r.num == (if (n < 0) != (d < 0) then -(Abs(n) / g) else Abs(n) / g)
    requires r.den == Abs(d) / g
    ensures Value(r) == n as real / d as real
  {
    var an, ad := Abs(n), Abs(d);
    var qn, qd := an / g, ad / g;
    assert (an as real) == (g as real) * (qn as real);
    assert (ad as real) == (g as real) * (qd as real);
    assert (an as real) / (ad as real) == (qn as real) / (qd as real);
  }

  /** The integer k as a fraction (Python mixes ints and fractions freely). */
  function FromInt(k: int): (r: Fraction)
    ensures Value(r) == k as real && LowestTerms(r)
  {
    Frac(k, 1)
  }

  const Zero: Fraction := Frac(0, 1)
  const One: Fraction := Frac(1, 1)

  lemma ZeroIffNumeratorZero(f: Fraction)
    ensures Value(f) == 0.0 <==> f.num == 0
  {
    if f.num != 0 {
      assert f.num as real == Value(f) * f.den as real;
    }
  }

  lemma RealAdd(an: real, ad: real, bn: real, bd: real)
    requires ad != 0.0 && bd != 0.0
    ensures (an * bd + bn * ad) / (ad * bd) == an / ad + bn / bd
  {
  }

  lemma RealSub(an: real, ad: real, bn: real, bd: real)
    requires ad != 0.0 && bd != 0.0
    ensures (an * bd - bn * ad) / (ad * bd) == an / ad - bn / bd
  {
  }

  lemma RealMul(an: real, ad: real, bn: real, bd: real)
    requires ad != 0.0 && bd != 0.0
    ensures (an * bn) / (ad * bd) == (an / ad) * (bn / bd)
  {
  }

  lemma RealDiv(an: real, ad: real, bn: real, bd: real)
    requires ad != 0.0 && bd != 0.0 && bn != 0.0
    ensures (an * bd) / (ad * bn) == (an / ad) / (bn / bd)
  {
  }

  lemma ProductNonZero(x: int, y: int)
    requires x != 0 && y != 0
    ensures x * y != 0
  {
  }

  function Add(a: Fraction, b: Fraction): (r: Fraction)
    ensures Value(r) == Value(a) + Value(b)
    ensures LowestTerms(r)
  {
    RealAdd(a.num as real, a.den as real, b.num as real, b.den as real);
    Make(a.num * b.den + b.num * a.den, a.den * b.den)
  }

  function Sub(a: Fraction, b: Fraction): (r: Fraction)
    ensures Value(r) == Value(a) - Value(b)
    ensures LowestTerms(r)
  {
    RealSub(a.num as real, a.den as real, b.num as real, b.den as real);
    Make(a.num * b.den - b.num * a.den, a.den * b.den)
  }

  function Mul(a: Fraction, b: Fraction): (r: Fraction)
    ensures Value(r) == Value(a) * Value(b)
    ensures LowestTerms(r)
  {
    RealMul(a.num as real, a.den as real, b.num as real, b.den as real);
    Make(a.num * b.num, a.den * b.den)
  }

  /** `a / b`; Python raises ZeroDivisionError when b is zero, so callers check first. */
  function Div(a: Fraction, b: Fraction): (r: Fraction)
    requires b.num != 0
    ensures Value(b) != 0.0 && Value(r) == Value(a) / Value(b)
    ensures LowestTerms(r)
  {
    ZeroIffNumeratorZero(b);
    ProductNonZero(a.den, b.num);
    var r := Make(a.num * b.den, a.den * b.num);
    DivValue(a, b, r);
    r
  }

  lemma DivValue(a: Fraction, b: Fraction, r: Fraction)
    requires b.num != 0 && a.den * b.num != 0
    requires Value(r) == (a.num * b.den) as real / (a.den * b.num) as real
    ensures Value(b) != 0.0 && Value(r) == Value(a) / Value(b)
  {
    ZeroIffNumeratorZero(b);
    var an, ad, bn, bd := a.num as real, a.den as real, b.num as real, b.den as real;
    assert (a.num * b.den) as real == an * bd;
    assert (a.den * b.num) as real == ad * bn;
    RealDiv(an, ad, bn, bd);
  }
}

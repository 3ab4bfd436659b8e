/**
 Pairs of integers as fractions: their exact value, and the normal form that
 gives every value one representation.
 */
module Fractions {
  import opened Integers

  datatype Fraction = Fraction(num: int, den: int)

  /** gcd(num, den) = 1 and den > 0. */
  ghost predicate Normal(q: Fraction) {
    q.den > 0 && Coprime(q.num, q.den)
  }

  /** The number a fraction stands for. */
  ghost function Value(q: Fraction): real
    requires q.den != 0
  {
    q.num as real / q.den as real
  }

  // ----- integers inside the reals -----

  lemma {:induction false} RealProduct(a: int, b: int)
    ensures (a * b) as real == a as real * b as real
  {
  }

  lemma {:induction false} QuotientLaw(x: real, y: real, z: real)
    requires y != 0.0
    ensures x / y == z <==> x == z * y
  {
  }

  /** Equality and order of values, by cross-multiplication. */
  lemma {:induction false} ValueIs(q: Fraction, n: int, d: int)
    requires q.den != 0 && d != 0
    ensures Value(q) == n as real / d as real <==> q.num * d == n * q.den
  {
  }

  lemma {:induction false} ValueLess(a: Fraction, b: Fraction)
    requires a.den > 0 && b.den > 0
    ensures Value(a) < Value(b) <==> a.num * b.den < b.num * a.den
  {
  }

  /** A value has only one normal representation. */
  lemma {:induction false} NormalUnique(a: Fraction, b: Fraction)
    requires Normal(a) && Normal(b) && Value(a) == Value(b)
    ensures a == b
  {
    ValueIs(a, b.num, b.den);
    assert a.num * b.den == b.num * a.den;
    CoprimeSymmetric(a.num, a.den);
    CoprimeSymmetric(b.num, b.den);
    assert IsProduct(a.num * b.den, b.num, a.den) && IsProduct(b.num * a.den, a.num, b.den);
    EuclidsLemma(a.den, a.num, b.den);
    EuclidsLemma(b.den, b.num, a.den);
    DividesMutually(a.den, b.den);
    CancelFactor(a.num, b.num, a.den);
  }

  /** Every value has one: both parts over their gcd, the sign moved to the numerator. */
  lemma {:induction false} Reduced(n: int, d: int, k: int, l: int)
    requires d != 0 && n == k * Gcd(n, d) && d == l * Gcd(n, d) && Coprime(k, l)
    ensures var q := if l < 0 then Fraction(-k, -l) else Fraction(k, l);
            Normal(q) && Value(q) == n as real / d as real
  {
    var g := Gcd(n, d);
    var q := if l < 0 then Fraction(-k, -l) else Fraction(k, l);
    if l < 0 { CoprimeNegated(k, l); }
    Regroup(k, l, g);
    Regroup(k, g, l);
    assert k * d == n * l;
    SignsOut(k, d);
    SignsOut(n, l);
    ValueIs(q, n, d);
  }

  lemma {:induction false} CoprimeNegated(a: int, b: int)
    requires Coprime(a, b)
    ensures Coprime(-a, -b) && Coprime(-a, b)
  {
    var x, y := Bezout(a, b);
    SignsOut(a, x);
    SignsOut(b, y);
    CoprimeBy(-a, -b, -x, -y);
    CoprimeBy(-a, b, -x, y);
  }

  // ----- sums -----

  /** Dividing by the gcd of the numerator with the gcd of the denominators is enough. */
  lemma {:induction false} SumInLowestTerms(a: int, c: int, g: int, b1: int, d1: int, h: int, n: int, k: int)
    requires g > 0 && Coprime(a, b1 * g) && Coprime(c, d1 * g) && Coprime(b1, d1)
    requires h == Gcd(a * d1 + c * b1, g) && h > 0
    requires a * d1 + c * b1 == n * h && g == k * h && Coprime(n, k)
    ensures Coprime(n, b1 * (d1 * k))
  {
    DividesBy(b1, g);
    DividesBy(d1, g);
    CoprimeParts(a, b1 * g, a, b1) by { DividesBy(a, 1); }
    CoprimeParts(c, d1 * g, c, d1) by { DividesBy(c, 1); }
    NumeratorCoprime(a, c, b1, d1);
    CoprimeSymmetric(b1, d1);
    NumeratorCoprime(c, a, d1, b1);
    assert c * b1 + a * d1 == n * h;
    DividesBy(n, h);
    CoprimePart(n * h, b1, n);
    CoprimePart(n * h, d1, n);
    CoprimeProduct(n, d1, k);
    CoprimeProduct(n, b1, d1 * k);
  }

  lemma {:induction false} NumeratorCoprime(a: int, c: int, b1: int, d1: int)
    requires Coprime(a, b1) && Coprime(b1, d1)
    ensures Coprime(a * d1 + c * b1, b1)
  {
    CoprimeSymmetric(a, b1);
    CoprimeProduct(b1, a, d1);
    CoprimeSymmetric(b1, a * d1);
    CoprimeShift(a * d1, b1, c);
  }

  lemma {:induction false} ValueOfSum(p: Fraction, q: Fraction)
    requires p.den != 0 && q.den != 0
    ensures p.den * q.den != 0
    ensures Value(p) + Value(q) == (p.num * q.den + q.num * p.den) as real / (p.den * q.den) as real
  {
  }

  lemma {:induction false} SumCrossProduct(a: int, c: int, g: int, b1: int, d1: int, h: int, n: int, k: int)
    requires a * d1 + c * b1 == n * h && g == k * h
    ensures n * ((b1 * g) * (d1 * g)) == (a * (d1 * g) + c * (b1 * g)) * (b1 * (d1 * k))
  {
  }

  /** The fraction that `operator+=` leaves is the exact sum, and normal. */
  lemma {:induction false} SumIsExact(p: Fraction, q: Fraction, b1: int, d1: int, n: int, k: int)
    requires Normal(p) && Normal(q)
    requires var g := Gcd(p.den, q.den);
             && p.den == b1 * g && q.den == d1 * g && Coprime(b1, d1)
             && var h := Gcd(p.num * d1 + q.num * b1, g);
             && p.num * d1 + q.num * b1 == n * h && g == k * h && Coprime(n, k)
    ensures var s := Fraction(n, b1 * (d1 * k));
            Normal(s) && Value(s) == Value(p) + Value(q)
  {
    var g := Gcd(p.den, q.den);
    var h := Gcd(p.num * d1 + q.num * b1, g);
    GcdPositive(p.den, q.den);
    GcdPositive(p.num * d1 + q.num * b1, g);
    SumInLowestTerms(p.num, q.num, g, b1, d1, h, n, k);
    SumCrossProduct(p.num, q.num, g, b1, d1, h, n, k);
    PositiveFactor(b1, g);
    PositiveFactor(d1, g);
    PositiveFactor(k, h);
    PositiveProduct(d1, k);
    PositiveProduct(b1, d1 * k);
    ValueOfSum(p, q);
    ValueIs(Fraction(n, b1 * (d1 * k)), p.num * q.den + q.num * p.den, p.den * q.den);
  }

  lemma {:induction false} PositiveProduct(x: int, y: int)
    requires x > 0 && y > 0
    ensures x * y > 0
  {
  }

  lemma {:induction false} PositiveFactor(x: int, y: int)
    requires x * y > 0 && y > 0
    ensures x > 0
  {
  }

  // ----- products -----

  lemma {:induction false} ValueOfProduct(p: Fraction, q: Fraction)
    requires p.den != 0 && q.den != 0
    ensures p.den * q.den != 0
    ensures Value(p) * Value(q) == (p.num * q.num) as real / (p.den * q.den) as real
  {
  }

  /** Crosswise reduced factors give a reduced product. */
  lemma {:induction false} ProductInLowestTerms(a1: int, c1: int, b1: int, d1: int)
    requires Coprime(a1, b1) && Coprime(a1, d1) && Coprime(c1, b1) && Coprime(c1, d1)
    ensures Coprime(a1 * c1, b1 * d1)
  {
    CoprimeProduct(a1, b1, d1);
    CoprimeProduct(c1, b1, d1);
    CoprimeSymmetric(a1, b1 * d1);
    CoprimeSymmetric(c1, b1 * d1);
    CoprimeProduct(b1 * d1, a1, c1);
    CoprimeSymmetric(b1 * d1, a1 * c1);
  }

  /** (a1 g) (c1 h) / ((b1 h) (d1 g)) with the factors g and h cancelled. */
  lemma {:induction false} CrossCancel(a1: int, c1: int, b1: int, d1: int, g: int, h: int)
    ensures (a1 * c1) * ((b1 * h) * (d1 * g)) == ((a1 * g) * (c1 * h)) * (b1 * d1)
  {
  }

  lemma {:induction false} PairUp(x: int, g: int, y: int, h: int)
    ensures (x * g) * (y * h) == (x * y) * (g * h)
  {
  }

  /** The pair that `operator*=` leaves is the exact product, and normal. */
  lemma {:induction false} ProductIsExact(p: Fraction, q: Fraction, a1: int, c1: int, b1: int, d1: int, g: int, h: int)
    requires Normal(p) && Normal(q) && g > 0 && h > 0
    requires p.num == a1 * g && q.den == d1 * g && Coprime(a1, d1)
    requires q.num == c1 * h && p.den == b1 * h && Coprime(c1, b1)
    ensures var s := Fraction(a1 * c1, b1 * d1);
            Normal(s) && Value(s) == Value(p) * Value(q)
  {
    DividesBy(g, a1);
    DividesBy(a1, g);
    DividesBy(b1, h);
    DividesBy(c1, h);
    DividesBy(d1, g);
    CoprimeParts(p.num, p.den, a1, b1);
    CoprimeParts(q.num, q.den, c1, d1);
    ProductInLowestTerms(a1, c1, b1, d1);
    PositiveFactor(b1, h);
    PositiveFactor(d1, g);
    PositiveProduct(b1, d1);
    CrossCancel(a1, c1, b1, d1, g, h);
    ValueOfProduct(p, q);
    ValueIs(Fraction(a1 * c1, b1 * d1), p.num * q.num, p.den * q.den);
  }

  /** The reciprocal of a fraction in normal form, with the sign in the numerator. */
  function Reciprocal(q: Fraction): Fraction {
    if q.num < 0 then Fraction(-q.den, -q.num) else Fraction(q.den, q.num)
  }

  lemma {:induction false} RealReciprocal(n: real, d: real)
    requires n != 0.0 && d != 0.0
    ensures n / d != 0.0 && d / n == 1.0 / (n / d)
  {
  }

  lemma {:induction false} SignCancels(n: int, d: int)
    requires d != 0
    ensures (-n) as real / (-d) as real == n as real / d as real
  {
  }

  lemma {:induction false} ReciprocalIsExact(q: Fraction)
    requires Normal(q) && q.num != 0
    ensures Normal(Reciprocal(q)) && Value(q) != 0.0 && Value(Reciprocal(q)) == 1.0 / Value(q)
  {
    CoprimeSymmetric(q.num, q.den);
    CoprimeNegated(q.den, q.num);
    RealReciprocal(q.num as real, q.den as real);
    SignCancels(q.den, q.num);
  }
}

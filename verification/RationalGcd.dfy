/**
 The greatest common divisor and least common multiple of rationals.
 */
module RationalGcd {
  import opened Integers
  import opened Fractions
  import opened Rationals

  // ----- divisibility of fractions -----

  ghost predicate IsMultiple(n: Fraction, k: int, d: Fraction)
    requires n.den != 0 && d.den != 0
  {
    Value(n) == k as real * Value(d)
  }

  /** n is an integer times d. */
  ghost predicate FractionDivides(d: Fraction, n: Fraction)
    requires n.den != 0 && d.den != 0
  {
    exists k: int :: IsMultiple(n, k, d)
  }

  lemma {:induction false} MultipleByProducts(n: Fraction, k: int, d: Fraction)
    requires n.den > 0 && d.den > 0
    ensures IsMultiple(n, k, d) <==> n.num * d.den == k * d.num * n.den
  {
  }

  /** For normal fractions: numerators divide one way, denominators the other. */
  lemma {:induction false} FractionDividesExactly(d: Fraction, n: Fraction)
    requires Normal(d) && Normal(n)
    ensures FractionDivides(d, n) <==> Divides(d.num, n.num) && Divides(n.den, d.den)
  {
    if FractionDivides(d, n) {
      var k: int :| IsMultiple(n, k, d);
      MultipleByProducts(n, k, d);
      Reassociate(k, d.num, n.den);
      Regroup(k, d.num, n.den);
      assert IsProduct(n.num * d.den, k * d.num, n.den);
      assert IsProduct(n.num * d.den, k * n.den, d.num) by {
        Regroup(k, n.den, d.num);
        Regroup(k, d.num, n.den);
      }
      CoprimeSymmetric(n.num, n.den);
      EuclidsLemma(n.den, n.num, d.den);
      assert n.num * d.den == d.den * n.num;
      EuclidsLemma(d.num, d.den, n.num);
    }
    if Divides(d.num, n.num) && Divides(n.den, d.den) {
      var s :| IsProduct(n.num, s, d.num);
      var t :| IsProduct(d.den, t, n.den);
      PairUp(s, d.num, t, n.den);
      Reassociate(s * t, d.num, n.den);
      MultipleByProducts(n, s * t, d);
    }
  }

  // ----- the evaluators -----

  /** Coprime across both ways makes the gcd of one side coprime to the lcm of the other. */
  lemma {:induction false} GcdCoprimeToLcm(a: int, c: int, b: int, d: int)
    requires b > 0 && d > 0 && Coprime(a, b) && Coprime(c, d)
    ensures Coprime(Gcd(a, c), Lcm(b, d)) && Coprime(Lcm(a, c), Gcd(b, d))
  {
    GcdDivides(a, c);
    CoprimePart(a, b, Gcd(a, c));
    CoprimePart(c, d, Gcd(a, c));
    CoprimeProduct(Gcd(a, c), b, d);
    LcmDividesProduct(b, d);
    CoprimeSymmetric(Gcd(a, c), b * d);
    CoprimePart(b * d, Gcd(a, c), Lcm(b, d));
    CoprimeSymmetric(Lcm(b, d), Gcd(a, c));

    GcdDivides(b, d);
    CoprimeSymmetric(a, b);
    CoprimeSymmetric(c, d);
    CoprimePart(b, a, Gcd(b, d));
    CoprimePart(d, c, Gcd(b, d));
    CoprimeProduct(Gcd(b, d), a, c);
    LcmDividesProduct(a, c);
    CoprimeSymmetric(Gcd(b, d), a * c);
    CoprimePart(a * c, Gcd(b, d), Lcm(a, c));
  }

  lemma {:induction false} LcmDividesProduct(a: int, b: int)
    ensures Divides(Lcm(a, b), a * b)
  {
    DividesBy(a, b);
    DividesBy(b, a);
    LcmLeast(a, b, a * b);
  }

  /** The pair that `gcd_evaluator` builds: in lowest terms already. */
  function GcdPair(a: Fraction, b: Fraction): (g: Fraction)
    requires Normal(a) && Normal(b)
    ensures Normal(g) && g.num >= 0
  {
    GcdCoprimeToLcm(a.num, b.num, a.den, b.den);
    LcmMultiple(a.den, b.den);
    Fraction(Gcd(a.num, b.num), Lcm(a.den, b.den))
  }

  /** The pair that `lcm_evaluator` builds: in lowest terms already. */
  function LcmPair(a: Fraction, b: Fraction): (l: Fraction)
    requires Normal(a) && Normal(b)
    ensures Normal(l) && l.num >= 0
  {
    GcdCoprimeToLcm(a.num, b.num, a.den, b.den);
    GcdPositive(a.den, b.den);
    Fraction(Lcm(a.num, b.num), Gcd(a.den, b.den))
  }

  /** The rational gcd is the greatest lower bound in the divisibility order. */
  lemma {:induction false} GcdIsGreatest(a: Fraction, b: Fraction, e: Fraction)
    requires Normal(a) && Normal(b) && Normal(e)
    ensures FractionDivides(e, a) && FractionDivides(e, b) <==> FractionDivides(e, GcdPair(a, b))
  {
    hide Gcd, Lcm, FractionDivides, Divides, Coprime;
    var g := GcdPair(a, b);
    FractionDividesExactly(e, a);
    FractionDividesExactly(e, b);
    FractionDividesExactly(e, g);
    GcdDivides(a.num, b.num);
    LcmMultiple(a.den, b.den);
    if Divides(e.num, a.num) && Divides(e.num, b.num) { GcdGreatest(a.num, b.num, e.num); }
    if Divides(a.den, e.den) && Divides(b.den, e.den) { LcmLeast(a.den, b.den, e.den); }
    if Divides(e.num, g.num) {
      DividesTransitive(e.num, g.num, a.num);
      DividesTransitive(e.num, g.num, b.num);
    }
    if Divides(g.den, e.den) {
      DividesTransitive(a.den, g.den, e.den);
      DividesTransitive(b.den, g.den, e.den);
    }
  }

  /** The rational lcm is the least upper bound. */
  lemma {:induction false} LcmIsLeast(a: Fraction, b: Fraction, m: Fraction)
    requires Normal(a) && Normal(b) && Normal(m)
    ensures FractionDivides(a, m) && FractionDivides(b, m) <==> FractionDivides(LcmPair(a, b), m)
  {
    hide Gcd, Lcm, FractionDivides, Divides, Coprime;
    var l := LcmPair(a, b);
    FractionDividesExactly(a, m);
    FractionDividesExactly(b, m);
    FractionDividesExactly(l, m);
    LcmMultiple(a.num, b.num);
    GcdDivides(a.den, b.den);
    if Divides(a.num, m.num) && Divides(b.num, m.num) { LcmLeast(a.num, b.num, m.num); }
    if Divides(m.den, a.den) && Divides(m.den, b.den) { GcdGreatest(a.den, b.den, m.den); }
    if Divides(l.num, m.num) {
      DividesTransitive(a.num, l.num, m.num);
      DividesTransitive(b.num, l.num, m.num);
    }
    if Divides(m.den, l.den) {
      DividesTransitive(m.den, l.den, a.den);
      DividesTransitive(m.den, l.den, b.den);
    }
  }

  lemma {:induction false} DenominatorsMultiply(b: int, d: int)
    requires b > 0 && d > 0
    ensures Lcm(b, d) * Gcd(b, d) == b * d
  {
    LcmMultiple(b, d);
    PositiveProduct(b, d);
  }

  lemma {:induction false} DividesItself(q: Fraction)
    requires Normal(q)
    ensures FractionDivides(q, q)
  {
    assert IsMultiple(q, 1, q);
  }

  /** Fractions that divide each other are equal, if they are not negative. */
  lemma {:induction false} FractionsDivideMutually(p: Fraction, q: Fraction)
    requires Normal(p) && Normal(q) && p.num >= 0 && q.num >= 0
    requires FractionDivides(p, q) && FractionDivides(q, p)
    ensures p == q
  {
    FractionDividesExactly(p, q);
    FractionDividesExactly(q, p);
    DividesMutually(p.num, q.num);
    DividesMutually(p.den, q.den);
  }

  /** Only the rational gcd is a common divisor, not negative, that every common divisor divides. */
  lemma {:induction false} GcdPairCharacterised(a: Fraction, b: Fraction, g: Fraction)
    requires Normal(a) && Normal(b) && Normal(g) && g.num >= 0
    ensures g == GcdPair(a, b)
       <==> && FractionDivides(g, a) && FractionDivides(g, b)
            && forall e: Fraction :: Normal(e) && FractionDivides(e, a) && FractionDivides(e, b) ==>
                 FractionDivides(e, g)
  {
    hide FractionDivides, Gcd, Lcm, Coprime;
    var h := GcdPair(a, b);
    DividesItself(h);
    GcdIsGreatest(a, b, h);
    GcdIsGreatest(a, b, g);
    if g == h {
      forall e: Fraction | Normal(e) && FractionDivides(e, a) && FractionDivides(e, b)
        ensures FractionDivides(e, g)
      {
        GcdIsGreatest(a, b, e);
      }
    }
    if FractionDivides(g, h) && FractionDivides(h, g) {
      FractionsDivideMutually(g, h);
    }
  }

  /** Only the rational lcm is a common multiple, not negative, that divides every common multiple. */
  lemma {:induction false} LcmPairCharacterised(a: Fraction, b: Fraction, l: Fraction)
    requires Normal(a) && Normal(b) && Normal(l) && l.num >= 0
    ensures l == LcmPair(a, b)
       <==> && FractionDivides(a, l) && FractionDivides(b, l)
            && forall m: Fraction :: Normal(m) && FractionDivides(a, m) && FractionDivides(b, m) ==>
                 FractionDivides(l, m)
  {
    hide FractionDivides, Gcd, Lcm, Coprime;
    var h := LcmPair(a, b);
    DividesItself(h);
    LcmIsLeast(a, b, h);
    LcmIsLeast(a, b, l);
    if l == h {
      forall m: Fraction | Normal(m) && FractionDivides(a, m) && FractionDivides(b, m)
        ensures FractionDivides(l, m)
      {
        LcmIsLeast(a, b, m);
      }
    }
    if FractionDivides(l, h) && FractionDivides(h, l) {
      FractionsDivideMutually(l, h);
    }
  }

  ghost function RealAbs(x: real): (a: real)
    ensures a >= 0.0
  {
    if x < 0.0 then -x else x
  }

  /** gcd times lcm is the absolute value of the product. */
  lemma {:induction false} GcdTimesLcm(a: Fraction, b: Fraction)
    requires Normal(a) && Normal(b)
    ensures Value(GcdPair(a, b)) * Value(LcmPair(a, b)) == RealAbs(Value(a) * Value(b))
  {
    hide Gcd, Lcm, Value, Coprime;
    var g, l := GcdPair(a, b), LcmPair(a, b);
    LcmMultiple(a.num, b.num);
    PositiveProduct(a.den, b.den);
    DenominatorsMultiply(a.den, b.den);
    ValueOfProduct(g, l);
    ValueOfProduct(a, b);
    AbsoluteQuotient(a.num * b.num, a.den * b.den);
  }

  lemma {:induction false} AbsoluteQuotient(n: int, d: int)
    requires d > 0
    ensures Abs(n) as real / d as real == RealAbs(n as real / d as real)
  {
  }

  /** `gcd_evaluator`: the constructor has nothing left to reduce. */
  method EvaluateGcd(a: Rational, b: Rational) returns (g: Rational)
    requires a.Valid() && b.Valid()
    ensures fresh(g) && g.Valid() && g.num >= 0 && g.Pair() == GcdPair(a.Pair(), b.Pair())
  {
    var r := Rational.Create(Gcd(a.num, b.num), Lcm(a.den, b.den));
    assert r.Success? by { assert GcdPair(a.Pair(), b.Pair()).den > 0; }
    g := r.value;
    NormalUnique(g.Pair(), GcdPair(a.Pair(), b.Pair()));
  }

  /** `lcm_evaluator`. */
  method EvaluateLcm(a: Rational, b: Rational) returns (l: Rational)
    requires a.Valid() && b.Valid()
    ensures fresh(l) && l.Valid() && l.num >= 0 && l.Pair() == LcmPair(a.Pair(), b.Pair())
  {
    var r := Rational.Create(Lcm(a.num, b.num), Gcd(a.den, b.den));
    assert r.Success? by { assert LcmPair(a.Pair(), b.Pair()).den > 0; }
    l := r.value;
    NormalUnique(l.Pair(), LcmPair(a.Pair(), b.Pair()));
  }

  // ----- the check on converted pairs -----

  /** `inner_gcd`: Euclid's algorithm with truncating remainders, so the sign is open. */
  function InnerGcd(a: int, b: int): int
    decreases Abs(b)
  {
    if b == 0 then a else TruncatedRemainder(a, b); InnerGcd(b, Rem(a, b))
  }

  lemma {:induction false} InnerGcdIsGcd(a: int, b: int)
    ensures Abs(InnerGcd(a, b)) == Gcd(a, b)
    decreases Abs(b)
  {
    if b != 0 {
      TruncatedRemainder(a, b);
      InnerGcdIsGcd(b, Rem(a, b));
      GcdOfRemainder(a, b);
    }
  }

  lemma {:induction false} GcdOfRemainder(a: int, b: int)
    requires b != 0
    ensures Gcd(b, Rem(a, b)) == Gcd(a, b)
  {
    var q, r := Quot(a, b), Rem(a, b);
    GcdDivides(a, b);
    GcdDivides(b, r);
    DividesSum(Gcd(b, r), b, r, q, 1);
    assert b * q + r * 1 == a;
    DividesSum(Gcd(a, b), a, b, 1, -q);
    SignsOut(b, q);
    assert a * 1 + b * -q == r;
    GcdGreatest(a, b, Gcd(b, r));
    GcdGreatest(b, r, Gcd(a, b));
    DividesMutually(Gcd(a, b), Gcd(b, r));
  }

  /** `is_normalized`, with its separate treatment of zero. */
  predicate IsNormalized(n: int, d: int) {
    d > 0 && (n != 0 || d == 1) && Abs(InnerGcd(n, d)) == 1
  }

  lemma {:induction false} IsNormalizedExactly(n: int, d: int)
    ensures IsNormalized(n, d) <==> Normal(Fraction(n, d))
  {
    InnerGcdIsGcd(n, d);
    if n == 0 && d > 0 { ZeroGcd(d); }
  }

  lemma {:induction false} ZeroGcd(d: int)
    requires d > 0
    ensures Gcd(0, d) == d
  {
  }
}

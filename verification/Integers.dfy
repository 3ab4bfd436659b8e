/**
 Integer arithmetic as the program uses it: division that truncates toward
 zero, the greatest common divisor and the least common multiple, with the
 facts about coprime numbers that reducing fractions rests on.
 */
module Integers {

  function Abs(x: int): (a: int)
    ensures a >= 0
  {
    if x < 0 then -x else x
  }

  /** The `/` of C++. */
  function Quot(a: int, b: int): int
    requires b != 0
  {
    if a >= 0 then a / b else -(-a / b)
  }

  /** The `%` of C++: the remainder has the sign of the dividend. */
  function Rem(a: int, b: int): int
    requires b != 0
  {
    a - Quot(a, b) * b
  }

  // ----- products -----

  lemma {:induction false} Distribute(a: int, x: int, y: int)
    ensures a * (x + y) == a * x + a * y
  {
  }

  lemma {:induction false} Reassociate(a: int, b: int, c: int)
    ensures a * (b * c) == a * b * c
  {
  }

  /** The factor in front may go behind the next one. */
  lemma {:induction false} Regroup(a: int, b: int, c: int)
    ensures a * (b * c) == b * (a * c) && a * b * c == b * (a * c)
  {
  }

  // ----- divisibility -----

  predicate IsProduct(n: int, k: int, d: int) {
    n == k * d
  }

  ghost predicate Divides(d: int, n: int) {
    exists k :: IsProduct(n, k, d)
  }

  lemma {:induction false} DividesBy(d: int, k: int)
    ensures Divides(d, k * d) && Divides(d, d * k)
  {
    assert IsProduct(k * d, k, d);
  }

  lemma {:induction false} DividesSum(d: int, a: int, b: int, x: int, y: int)
    requires Divides(d, a) && Divides(d, b)
    ensures Divides(d, a * x + b * y)
  {
    var k :| IsProduct(a, k, d);
    var l :| IsProduct(b, l, d);
    calc {
      a * x + b * y;
      (k * d) * x + (l * d) * y;
      (k * x + l * y) * d;
    }
    assert IsProduct(a * x + b * y, k * x + l * y, d);
  }

  lemma {:induction false} DividesTransitive(d: int, e: int, n: int)
    requires Divides(d, e) && Divides(e, n)
    ensures Divides(d, n)
  {
    var k :| IsProduct(e, k, d);
    var l :| IsProduct(n, l, e);
    assert n == l * (k * d) == (l * k) * d;
    assert IsProduct(n, l * k, d);
  }

  lemma {:induction false} DividesMutually(d: int, e: int)
    requires d >= 0 && e >= 0 && Divides(d, e) && Divides(e, d)
    ensures d == e
  {
  }

  lemma {:induction false} CancelFactor(x: int, y: int, d: int)
    requires d != 0 && x * d == y * d
    ensures x == y
  {
  }

  lemma {:induction false} ProductMonotonic(x: int, y: int, d: int)
    requires x <= y && d >= 0
    ensures x * d <= y * d
  {
  }

  lemma {:induction false} SignsOut(x: int, d: int)
    ensures x * -d == -(x * d) && -x * d == -(x * d) && -x * -d == x * d
  {
  }

  /** A non-zero factor does not shrink a product. */
  lemma {:induction false} ProductGrows(x: int, d: int)
    requires x != 0
    ensures Abs(x * d) >= Abs(d)
  {
  }

  /** Dividing exactly: both languages' division agree and the product restores the dividend. */
  lemma {:induction false} ExactQuotient(n: int, d: int, k: int)
    requires d != 0 && n == k * d
    ensures Quot(n, d) == k && Rem(n, d) == 0
  {
    if n >= 0 {
      QuotientIs(n, d, k);
    } else {
      assert -n == (-k) * d;
      QuotientIs(-n, d, -k);
    }
  }

  lemma {:induction false} QuotientIs(n: int, d: int, k: int)
    requires d != 0 && n == k * d
    ensures n / d == k
  {
    var q, r := n / d, n % d;
    assert n == q * d + r && 0 <= r < Abs(d);
    assert (k - q) * d == r;
    if k != q {
      ProductGrows(k - q, d);
    }
  }

  /** The quotient truncates: the remainder is short of the divisor and never opposite in sign to the dividend. */
  lemma {:induction false} TruncationExactly(a: int, b: int, q: int, r: int)
    requires b != 0
    ensures q == Quot(a, b) && r == Rem(a, b)
       <==> a == q * b + r && Abs(r) < Abs(b) && (a >= 0 ==> r >= 0) && (a <= 0 ==> r <= 0)
  {
    TruncatedRemainder(a, b);
    var k := Quot(a, b) - q;
    if k != 0 { ProductGrows(k, b); }
    assert k * b == Quot(a, b) * b - q * b;
  }

  lemma {:induction false} TruncatedRemainder(a: int, b: int)
    requires b != 0
    ensures Abs(Rem(a, b)) < Abs(b) && (a >= 0 ==> Rem(a, b) >= 0) && (a <= 0 ==> Rem(a, b) <= 0)
  {
    var m := Abs(a);
    assert m == m / b * b + m % b;
    SignsOut(m / b, b);
  }

  // ----- greatest common divisor -----

  /** The non-negative gcd; gcd(0, x) is |x|. */
  function Gcd(a: int, b: int): (g: int)
    ensures g >= 0
    decreases Abs(b)
  {
    if b == 0 then Abs(a) else Gcd(b, a % b)
  }

  lemma {:induction false} EuclidStep(b: int, q: int, r: int, u: int, v: int)
    ensures (b * q + r) * v + b * (u - q * v) == b * u + r * v
  {
  }

  /** Bezout's identity: the gcd is a combination of its arguments. */
  lemma {:induction false} Bezout(a: int, b: int) returns (x: int, y: int)
    ensures a * x + b * y == Gcd(a, b)
    decreases Abs(b)
  {
    if b == 0 {
      x, y := if a < 0 then -1 else 1, 0;
    } else {
      var q, r := a / b, a % b;
      var u, v := Bezout(b, r);
      x, y := v, u - q * v;
      EuclidStep(b, q, r, u, v);
    }
  }

  lemma {:induction false} GcdDivides(a: int, b: int)
    ensures Divides(Gcd(a, b), a) && Divides(Gcd(a, b), b)
    decreases Abs(b)
  {
    if b == 0 {
      assert IsProduct(a, if a < 0 then -1 else 1, Abs(a));
      assert IsProduct(0, 0, Abs(a));
    } else {
      var q, r := a / b, a % b;
      GcdDivides(b, r);
      DividesSum(Gcd(b, r), b, r, q, 1);
      assert b * q + r * 1 == a;
    }
  }

  lemma {:induction false} GcdGreatest(a: int, b: int, d: int)
    requires Divides(d, a) && Divides(d, b)
    ensures Divides(d, Gcd(a, b))
  {
    var x, y := Bezout(a, b);
    DividesSum(d, a, b, x, y);
  }

  lemma {:induction false} GcdCharacterised(a: int, b: int, g: int)
    requires g >= 0 && Divides(g, a) && Divides(g, b)
    requires forall d :: Divides(d, a) && Divides(d, b) ==> Divides(d, g)
    ensures g == Gcd(a, b)
  {
    GcdDivides(a, b);
    GcdGreatest(a, b, g);
    DividesMutually(g, Gcd(a, b));
  }

  lemma {:induction false} GcdSymmetric(a: int, b: int)
    ensures Gcd(a, b) == Gcd(b, a)
  {
    GcdDivides(a, b);
    GcdDivides(b, a);
    GcdGreatest(a, b, Gcd(b, a));
    GcdGreatest(b, a, Gcd(a, b));
    DividesMutually(Gcd(a, b), Gcd(b, a));
  }

  lemma {:induction false} GcdPositive(a: int, b: int)
    requires a != 0 || b != 0
    ensures Gcd(a, b) > 0
  {
    GcdDivides(a, b);
    var k :| IsProduct(a, k, Gcd(a, b));
    var l :| IsProduct(b, l, Gcd(a, b));
  }

  // ----- coprime numbers -----

  ghost predicate Coprime(a: int, b: int) {
    Gcd(a, b) == 1
  }

  lemma {:induction false} CoprimeBy(a: int, b: int, x: int, y: int)
    requires a * x + b * y == 1
    ensures Coprime(a, b)
  {
    GcdDivides(a, b);
    DividesSum(Gcd(a, b), a, b, x, y);
    assert IsProduct(Gcd(a, b), Gcd(a, b), 1);
    DividesMutually(Gcd(a, b), 1);
  }

  lemma {:induction false} CoprimeSymmetric(a: int, b: int)
    requires Coprime(a, b)
    ensures Coprime(b, a)
  {
    GcdSymmetric(a, b);
  }

  /** A divisor of one side stays coprime to the other. */
  lemma {:induction false} CoprimePart(a: int, b: int, d: int)
    requires Coprime(a, b) && Divides(d, a)
    ensures Coprime(d, b)
  {
    var x, y := Bezout(a, b);
    var k :| IsProduct(a, k, d);
    assert d * (k * x) == a * x;
    CoprimeBy(d, b, k * x, y);
  }

  lemma {:induction false} CoprimeParts(a: int, b: int, d: int, e: int)
    requires Coprime(a, b) && Divides(d, a) && Divides(e, b)
    ensures Coprime(d, e)
  {
    CoprimePart(a, b, d);
    CoprimeSymmetric(d, b);
    CoprimePart(b, d, e);
    CoprimeSymmetric(e, d);
  }

  lemma {:induction false} CoprimeProduct(a: int, b: int, c: int)
    requires Coprime(a, b) && Coprime(a, c)
    ensures Coprime(a, b * c)
  {
    var x, y := Bezout(a, b);
    var u, v := Bezout(a, c);
    var t := b * y;
    calc {
      1;
      a * x + t * (a * u + c * v);
      { Distribute(t, a * u, c * v); Regroup(t, a, u); Regroup(t, c, v); }
      a * x + a * (t * u) + c * (t * v);
      { Distribute(a, x, t * u); Regroup(b, y, v); Regroup(c, b, y * v); }
      a * (x + t * u) + b * (c * (y * v));
      { Reassociate(b, c, y * v); }
      a * (x + t * u) + b * c * (y * v);
    }
    CoprimeBy(a, b * c, x + t * u, y * v);
  }

  /** Adding a multiple of b does not matter. */
  lemma {:induction false} CoprimeShift(a: int, b: int, k: int)
    requires Coprime(a, b)
    ensures Coprime(a + k * b, b)
  {
    var x, y := Bezout(a, b);
    calc {
      (a + k * b) * x + b * (y - k * x);
      a * x + k * b * x + b * y - b * (k * x);
      { assert k * b * x == b * (k * x); }
      a * x + b * y;
    }
    CoprimeBy(a + k * b, b, x, y - k * x);
  }

  /** Euclid's lemma. */
  lemma {:induction false} EuclidsLemma(d: int, a: int, b: int)
    requires Coprime(d, a) && Divides(d, a * b)
    ensures Divides(d, b)
  {
    var x, y := Bezout(d, a);
    var k :| IsProduct(a * b, k, d);
    calc {
      b;
      b * (d * x + a * y);
      { Distribute(b, d * x, a * y); Regroup(b, d, x); Regroup(b, a, y); Reassociate(a, b, y); }
      d * (b * x) + a * b * y;
      { Regroup(k, d, y); }
      d * (b * x) + d * (k * y);
      { Distribute(d, b * x, k * y); }
      d * (b * x + k * y);
    }
    assert IsProduct(b, b * x + k * y, d);
  }

  /** Dividing out the gcd leaves coprime numbers. */
  lemma {:induction false} CoprimeCofactors(a: int, b: int, g: int, k: int, l: int)
    requires g == Gcd(a, b) && g > 0 && a == k * g && b == l * g
    ensures Coprime(k, l)
  {
    var x, y := Bezout(a, b);
    calc {
      (k * x + l * y) * g;
      k * g * x + l * g * y;
      a * x + b * y;
      1 * g;
    }
    CancelFactor(k * x + l * y, 1, g);
    CoprimeBy(k, l, x, y);
  }

  /** The cofactors of the gcd. */
  lemma {:induction false} Cofactors(a: int, b: int) returns (k: int, l: int)
    requires a != 0 || b != 0
    ensures Gcd(a, b) > 0 && a == k * Gcd(a, b) && b == l * Gcd(a, b) && Coprime(k, l)
    ensures Quot(a, Gcd(a, b)) == k && Quot(b, Gcd(a, b)) == l
  {
    GcdPositive(a, b);
    GcdDivides(a, b);
    k :| IsProduct(a, k, Gcd(a, b));
    l :| IsProduct(b, l, Gcd(a, b));
    CoprimeCofactors(a, b, Gcd(a, b), k, l);
    ExactQuotient(a, Gcd(a, b), k);
    ExactQuotient(b, Gcd(a, b), l);
  }

  // ----- least common multiple -----

  /** The non-negative lcm; lcm(0, x) is 0. */
  function Lcm(a: int, b: int): (l: int)
    ensures l >= 0
  {
    if a == 0 || b == 0 then 0 else (GcdPositive(a, b); Abs(Quot(a, Gcd(a, b)) * b))
  }

  /** With a = k g and b = l g the lcm is |k b| = |l a|. */
  lemma {:induction false} LcmByCofactors(a: int, b: int) returns (k: int, l: int, s: int)
    requires a != 0 && b != 0
    ensures a == k * Gcd(a, b) && b == l * Gcd(a, b) && Coprime(k, l)
    ensures (s == 1 || s == -1) && Lcm(a, b) == s * (k * b) == s * (l * a) && Lcm(a, b) > 0
  {
    k, l := Cofactors(a, b);
    s := if k * b < 0 then -1 else 1;
    Regroup(k, l, Gcd(a, b));
    ProductGrows(k, b);
  }

  lemma {:induction false} LcmMultiple(a: int, b: int)
    ensures Divides(a, Lcm(a, b)) && Divides(b, Lcm(a, b))
    ensures Gcd(a, b) * Lcm(a, b) == Abs(a * b)
    ensures a != 0 && b != 0 ==> Lcm(a, b) > 0
  {
    if a == 0 || b == 0 {
      assert IsProduct(0, 0, a) && IsProduct(0, 0, b);
    } else {
      var k, l, s := LcmByCofactors(a, b);
      var g := Gcd(a, b);
      Reassociate(s, k, b);
      Reassociate(s, l, a);
      assert IsProduct(Lcm(a, b), s * k, b) && IsProduct(Lcm(a, b), s * l, a);
      Regroup(k, g, b);
      assert a * b == g * (k * b);
      Regroup(g, s, k * b);
      assert g * Lcm(a, b) == s * (a * b);
      assert g * Lcm(a, b) > 0;
    }
  }

  lemma {:induction false} LcmLeast(a: int, b: int, m: int)
    requires Divides(a, m) && Divides(b, m)
    ensures Divides(Lcm(a, b), m)
  {
    var x :| IsProduct(m, x, a);
    var y :| IsProduct(m, y, b);
    if a == 0 || b == 0 {
      assert IsProduct(m, 0, 0);
    } else {
      var k, l, s := LcmByCofactors(a, b);
      var g := Gcd(a, b);
      Reassociate(x, k, g);
      Reassociate(y, l, g);
      CancelFactor(x * k, y * l, g);
      CoprimeSymmetric(k, l);
      assert IsProduct(k * x, y, l);
      EuclidsLemma(l, k, x);
      var z :| IsProduct(x, z, l);
      Reassociate(z, l, a);
      SignTwice(z, s, l * a);
      assert IsProduct(m, z * s, Lcm(a, b));
    }
  }

  lemma {:induction false} SignTwice(z: int, s: int, n: int)
    requires s == 1 || s == -1
    ensures z * n == (z * s) * (s * n)
  {
  }
}

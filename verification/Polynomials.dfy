/**
 Polynomials over GF(2) and what it means to be the remainder of a division.
 Index i of a polynomial holds the coefficient of x^i; indices past the end
 hold 0, so polynomials are compared coefficient by coefficient.
 */
module Polynomials {
  import opened Words
  import opened Division

  type Poly = seq<bool>

  function Coeff(a: Poly, k: int): bool {
    0 <= k < |a| && a[k]
  }

  /** The sum over i < n of a_i * b_(k-i), modulo 2. */
  ghost function PartialProduct(a: Poly, b: Poly, k: nat, n: nat): bool {
    if n == 0 then false
    else PartialProduct(a, b, k, n - 1) != (Coeff(a, n - 1) && Coeff(b, k - (n - 1)))
  }

  /** The coefficient of x^k in the product a * b: the convolution of both, modulo 2. */
  ghost function ProductCoeff(a: Poly, b: Poly, k: nat): bool {
    PartialProduct(a, b, k, k + 1)
  }

  /** dividend = quotient * divisor + remainder. */
  ghost predicate DividesWith(dividend: Poly, divisor: Poly, quotient: Poly, remainder: Poly) {
    forall k: nat :: Coeff(dividend, k) == (ProductCoeff(quotient, divisor, k) != Coeff(remainder, k))
  }

  /** r is a remainder of the dividend, and of lower degree than the monic x^W + p. */
  ghost predicate IsRemainder(dividend: Poly, p: Word, r: Word) {
    |r| == |p| && exists q: Poly :: DividesWith(dividend, Monic(p), q, r)
  }

  /** The divisor: the truncated polynomial with its implied leading term. */
  function Monic(p: Word): Poly {
    p + [true]
  }

  /** r * x^n + m * x^at, for n bits of m, of which the first is its highest coefficient. */
  function DividendAt(r: Word, m: Stream, at: nat): (d: Poly)
    requires at <= |r|
    ensures |d| == |m| + |r|
  {
    Xor(Zeros(|m|) + r, Zeros(at) + Reverse(m) + Zeros(|r| - at))
  }

  /** What the altered division divides: r * x^n + m * x^W. */
  function Dividend(r: Word, m: Stream): (d: Poly)
    ensures |d| == |m| + |r|
  {
    DividendAt(r, m, |r|)
  }

  /** What the plain division divides: r * x^n + m. */
  function PlainDividend(r: Word, m: Stream): (d: Poly)
    ensures |d| == |m| + |r|
  {
    DividendAt(r, m, 0)
  }

  // ----- arithmetic of products -----

  lemma {:induction false} PartialProductShifts(q: bool, a: Poly, b: Poly, k: nat, n: nat)
    ensures PartialProduct([q] + a, b, k + 1, n + 1)
         == (PartialProduct(a, b, k, n) != (q && Coeff(b, k + 1)))
  {
    if n > 0 {
      PartialProductShifts(q, a, b, k, n - 1);
    }
  }

  /** (x * a + q) * b = x * (a * b) + q * b. */
  lemma {:induction false} ProductExtends(q: bool, a: Poly, b: Poly, k: nat)
    ensures ProductCoeff([q] + a, b, k)
         == ((k > 0 && ProductCoeff(a, b, k - 1)) != (q && Coeff(b, k)))
  {
    if k == 0 {
      assert PartialProduct([q] + a, b, 0, 0) == false;
    } else {
      PartialProductShifts(q, a, b, k - 1, k);
    }
  }

  lemma {:induction false} PartialProductAdds(a: Poly, c: Poly, s: Poly, b: Poly, k: nat, n: nat)
    requires forall i: nat :: Coeff(s, i) == (Coeff(a, i) != Coeff(c, i))
    ensures PartialProduct(s, b, k, n) == (PartialProduct(a, b, k, n) != PartialProduct(c, b, k, n))
  {
    if n > 0 {
      PartialProductAdds(a, c, s, b, k, n - 1);
      var i: nat := n - 1;
    }
  }

  // ----- the division algorithm is division -----

  /** One more bit: everything moves up a place, and the bit comes in at x^at. */
  lemma {:induction false} DividendStep(r: Word, m: Stream, at: nat, k: nat)
    requires m != [] && at <= |r|
    ensures Coeff(DividendAt(r, m, at), k)
         == (Coeff(DividendAt(r, m[..|m| - 1], at), k - 1) != (k == at && m[|m| - 1]))
  {
  }

  /**
   A division extended by one place: if x * s + bit * x^at = q * divisor + t
   then t and the quotient with q behind it belong to the longer dividend.
   */
  lemma {:induction false} DivisionExtends(r: Word, m: Stream, at: nat, p: Word, q: bool, quotient: Poly,
                                           s: Word, t: Word)
    requires m != [] && at <= |r|
    requires DividesWith(DividendAt(r, m[..|m| - 1], at), Monic(p), quotient, s)
    requires forall k: nat :: (Coeff(s, k - 1) != (k == at && m[|m| - 1]))
                           == ((q && Coeff(Monic(p), k)) != Coeff(t, k))
    ensures DividesWith(DividendAt(r, m, at), Monic(p), [q] + quotient, t)
  {
    forall k: nat
      ensures Coeff(DividendAt(r, m, at), k) == (ProductCoeff([q] + quotient, Monic(p), k) != Coeff(t, k))
    {
      DividendStep(r, m, at, k);
      ProductExtends(q, quotient, Monic(p), k);
    }
  }

  lemma {:induction false} EmptyDivision(d: Poly, p: Word)
    ensures DividesWith(d, Monic(p), [], d)
  {
    forall k: nat
      ensures ProductCoeff([], Monic(p), k) == false
    {
      EmptyProduct(Monic(p), k, k + 1);
    }
  }

  /** The quotient the altered division throws away, lowest coefficient first. */
  ghost function Quotient(r: Word, m: Stream, p: Word): Poly
    requires |r| == |p| >= 1
  {
    if m == [] then []
    else
      var last := |m| - 1;
      [Run(r, m[..last], p)[|p| - 1] != m[last]] + Quotient(r, m[..last], p)
  }

  lemma {:induction false} StepCoefficient(s: Word, bit: bool, p: Word, k: nat)
    requires |s| == |p| >= 1
    ensures (Coeff(s, k - 1) != (k == |p| && bit))
         == (((s[|p| - 1] != bit) && Coeff(Monic(p), k)) != Coeff(Step(s, bit, p), k))
    ensures (Coeff(s, k - 1) != (k == 0 && bit))
         == ((s[|p| - 1] && Coeff(Monic(p), k)) != Coeff(AugStep(s, bit, p), k))
  {
  }

  lemma {:induction false} RunDivides(r: Word, m: Stream, p: Word)
    requires |r| == |p| >= 1
    ensures DividesWith(Dividend(r, m), Monic(p), Quotient(r, m, p), Run(r, m, p))
  {
    if m == [] {
      EmptyDivision(r, p);
    } else {
      var last := |m| - 1;
      var s := Run(r, m[..last], p);
      RunDivides(r, m[..last], p);
      forall k: nat
        ensures (Coeff(s, k - 1) != (k == |r| && m[last]))
             == (((s[|p| - 1] != m[last]) && Coeff(Monic(p), k)) != Coeff(Step(s, m[last], p), k))
      {
      }
      DivisionExtends(r, m, |r|, p, s[|p| - 1] != m[last], Quotient(r, m[..last], p), s, Run(r, m, p));
    }
  }

  /** The quotient the plain division throws away. */
  ghost function PlainQuotient(r: Word, m: Stream, p: Word): Poly
    requires |r| == |p| >= 1
  {
    if m == [] then []
    else
      var last := |m| - 1;
      [AugRun(r, m[..last], p)[|p| - 1]] + PlainQuotient(r, m[..last], p)
  }

  lemma {:induction false} AugRunDivides(r: Word, m: Stream, p: Word)
    requires |r| == |p| >= 1
    ensures DividesWith(PlainDividend(r, m), Monic(p), PlainQuotient(r, m, p), AugRun(r, m, p))
  {
    if m == [] {
      EmptyDivision(r, p);
    } else {
      var last := |m| - 1;
      var s := AugRun(r, m[..last], p);
      AugRunDivides(r, m[..last], p);
      forall k: nat
        ensures (Coeff(s, k - 1) != (k == 0 && m[last]))
             == ((s[|p| - 1] && Coeff(Monic(p), k)) != Coeff(AugStep(s, m[last], p), k))
      {
        StepCoefficient(s, m[last], p, k);
      }
      DivisionExtends(r, m, 0, p, s[|p| - 1], PlainQuotient(r, m[..last], p), s, AugRun(r, m, p));
    }
  }

  lemma {:induction false} EmptyProduct(b: Poly, k: nat, n: nat)
    ensures PartialProduct([], b, k, n) == false
  {
    if n > 0 {
      EmptyProduct(b, k, n - 1);
    }
  }

  // ----- remainders are unique -----

  /** All coefficients of a above d are 0. */
  ghost predicate DegreeAtMost(a: Poly, d: int) {
    forall i :: i > d ==> !Coeff(a, i)
  }

  lemma {:induction false} LeadingPartialProduct(a: Poly, p: Word, d: nat, n: nat)
    requires DegreeAtMost(a, d) && Coeff(a, d)
    ensures PartialProduct(a, Monic(p), d + |p|, n) == (n > d)
  {
    if n > 0 {
      LeadingPartialProduct(a, p, d, n - 1);
    }
  }

  lemma {:induction false} LeadingCoefficient(a: Poly) returns (d: nat)
    requires exists k :: Coeff(a, k)
    ensures DegreeAtMost(a, d) && Coeff(a, d)
  {
    if a[|a| - 1] {
      d := |a| - 1;
    } else {
      var b := a[..|a| - 1];
      var k :| Coeff(a, k);
      assert Coeff(b, k);
      d := LeadingCoefficient(b);
      forall i | i > d
        ensures !Coeff(a, i)
      {
        assert !Coeff(b, i);
      }
    }
  }

  /** The sum of two polynomials. */
  function Sum(a: Poly, b: Poly): Poly {
    seq(if |a| > |b| then |a| else |b|, i requires i >= 0 => Coeff(a, i) != Coeff(b, i))
  }

  /** A dividend has only one remainder below the degree of a monic divisor. */
  lemma {:induction false} RemainderUnique(dividend: Poly, p: Word, r: Word, s: Word)
    requires IsRemainder(dividend, p, r) && IsRemainder(dividend, p, s)
    ensures r == s
  {
    var q :| DividesWith(dividend, Monic(p), q, r);
    var t :| DividesWith(dividend, Monic(p), t, s);
    var u := Sum(q, t);
    forall k: nat
      ensures ProductCoeff(u, Monic(p), k) == (Coeff(r, k) != Coeff(s, k))
    {
      PartialProductAdds(q, t, u, Monic(p), k, k + 1);
      assert Coeff(dividend, k) == (ProductCoeff(q, Monic(p), k) != Coeff(r, k));
      assert Coeff(dividend, k) == (ProductCoeff(t, Monic(p), k) != Coeff(s, k));
    }
    if exists k :: Coeff(u, k) {
      var d := LeadingCoefficient(u);
      LeadingPartialProduct(u, p, d, d + |p| + 1);
      assert ProductCoeff(u, Monic(p), d + |p|);
      assert false;
    }
    forall k: nat | k < |p|
      ensures r[k] == s[k]
    {
      ZeroProduct(u, Monic(p), k, k + 1);
      assert ProductCoeff(u, Monic(p), k) == (Coeff(r, k) != Coeff(s, k));
    }
  }

  lemma {:induction false} ZeroProduct(a: Poly, b: Poly, k: nat, n: nat)
    requires forall i :: !Coeff(a, i)
    ensures PartialProduct(a, b, k, n) == false
  {
    if n > 0 {
      ZeroProduct(a, b, k, n - 1);
    }
  }

  /**
   The bit-serial update computes the remainder of r * x^n + m * x^W by the
   divisor, and nothing else is one.
   */
  lemma {:induction false} RunIsTheRemainder(r: Word, m: Stream, p: Word, s: Word)
    requires |r| == |p| >= 1
    ensures s == Run(r, m, p) <==> IsRemainder(Dividend(r, m), p, s)
  {
    RunDivides(r, m, p);
    if IsRemainder(Dividend(r, m), p, s) {
      RemainderUnique(Dividend(r, m), p, s, Run(r, m, p));
    }
  }

  /** Likewise the plain division computes the remainder of r * x^n + m. */
  lemma {:induction false} AugRunIsTheRemainder(r: Word, m: Stream, p: Word, s: Word)
    requires |r| == |p| >= 1
    ensures s == AugRun(r, m, p) <==> IsRemainder(PlainDividend(r, m), p, s)
  {
    AugRunDivides(r, m, p);
    if IsRemainder(PlainDividend(r, m), p, s) {
      RemainderUnique(PlainDividend(r, m), p, s, AugRun(r, m, p));
    }
  }
}

/**
 The mutable class `rational`: exact arithmetic that never leaves lowest terms.
 Every operation is specified by the value of its result and by the normal
 form, which together leave only one representation.
 */
module Rationals {
  import opened Integers
  import opened Fractions
  import opened ContinuedFractions

  /** The outcome of an operation that may throw `bad_rational`. */
  datatype Outcome = Done | BadRational

  datatype Result<+T> = Success(value: T) | Failure

  /** An integer as a fraction. */
  function Whole(i: int): Fraction {
    Fraction(i, 1)
  }

  lemma {:induction false} WholeIsNormal(i: int)
    ensures Normal(Whole(i)) && Value(Whole(i)) == i as real
  {
  }

  class Rational {
    var num: int
    var den: int

    ghost function Pair(): Fraction
      reads this
    {
      Fraction(num, den)
    }

    /** The class invariant: gcd(num, den) = 1 and den > 0. */
    ghost predicate Valid()
      reads this
    {
      Normal(Pair())
    }

    /** The exact value. */
    ghost function Val(): real
      reads this
      requires den != 0
    {
      Value(Pair())
    }

    /** The members set as given, before `normalize` has run. */
    constructor Unnormalized(n: int, d: int)
      ensures num == n && den == d
    {
      num, den := n, d;
    }

    /** The default value is zero. */
    constructor ()
      ensures Valid() && num == 0 && den == 1
    {
      num, den := 0, 1;
      WholeIsNormal(0);
    }

    constructor FromInt(n: int)
      ensures Valid() && num == n && den == 1 && Val() == n as real
    {
      num, den := n, 1;
      WholeIsNormal(n);
    }

    /** `normalize`: fails, changing nothing, exactly for a zero denominator. */
    method Normalize() returns (outcome: Outcome)
      modifies this
      ensures outcome.BadRational? <==> old(den) == 0
      ensures outcome.BadRational? ==> Pair() == old(Pair())
      ensures outcome.Done? ==> Valid() && Val() == old(num) as real / old(den) as real
    {
      if den == 0 {
        return BadRational;
      }
      if num == 0 {
        den := 1;
        WholeIsNormal(0);
        return Done;
      }
      ghost var k, l := Cofactors(num, den);
      Reduced(num, den, k, l);
      var g := Gcd(num, den);
      num := Quot(num, g);
      den := Quot(den, g);
      if den < 0 {
        num, den := -num, -den;
      }
      return Done;
    }

    /** The constructor `rational(n, d)`. */
    static method Create(n: int, d: int) returns (r: Result<Rational>)
      ensures r.Failure? <==> d == 0
      ensures r.Success? ==> fresh(r.value) && r.value.Valid() && r.value.Val() == n as real / d as real
    {
      var q := new Rational.Unnormalized(n, d);
      var outcome := q.Normalize();
      r := if outcome.Done? then Success(q) else Failure;
    }

    /** `assign`: builds the new value first, so a failure leaves the old one. */
    method Assign(n: int, d: int) returns (outcome: Outcome)
      requires Valid()
      modifies this
      ensures Valid() && (outcome.BadRational? <==> d == 0)
      ensures Val() == if d == 0 then old(Val()) else n as real / d as real
    {
      var r := Create(n, d);
      if r.Failure? {
        return BadRational;
      }
      num, den := r.value.num, r.value.den;
      return Done;
    }

    // ----- arithmetic with another rational, which may be this one -----

    method AddAssign(r: Rational)
      requires Valid() && r.Valid()
      modifies this
      ensures Valid() && Val() == old(Val()) + old(r.Val())
    {
      hide Quot, Gcd;
      var rNum, rDen := r.num, r.den;
      ghost var p, q := Fraction(num, den), Fraction(rNum, rDen);
      ghost var b1, d1 := Cofactors(den, rDen);
      var g := Gcd(den, rDen);
      den := Quot(den, g);
      num := num * Quot(rDen, g) + rNum * den;
      ghost var n, k := Cofactors(num, g);
      SumIsExact(p, q, b1, d1, n, k);
      DenominatorQuotient(d1, k, Gcd(num, g));
      g := Gcd(num, g);
      num := Quot(num, g);
      den := den * Quot(rDen, g);
    }

    method SubAssign(r: Rational)
      requires Valid() && r.Valid()
      modifies this
      ensures Valid() && Val() == old(Val()) - old(r.Val())
    {
      hide Quot, Gcd;
      var rNum, rDen := r.num, r.den;
      ghost var p, q := Fraction(num, den), Fraction(-rNum, rDen);
      ghost var b1, d1 := Cofactors(den, rDen);
      NegatedValue(Fraction(rNum, rDen));
      SignsOut(rNum, b1);
      var g := Gcd(den, rDen);
      den := Quot(den, g);
      num := num * Quot(rDen, g) - rNum * den;
      ghost var n, k := Cofactors(num, g);
      SumIsExact(p, q, b1, d1, n, k);
      DenominatorQuotient(d1, k, Gcd(num, g));
      g := Gcd(num, g);
      num := Quot(num, g);
      den := den * Quot(rDen, g);
    }

    method MulAssign(r: Rational)
      requires Valid() && r.Valid()
      modifies this
      ensures Valid() && Val() == old(Val()) * old(r.Val())
    {
      hide Quot, Gcd;
      var rNum, rDen := r.num, r.den;
      ghost var p, q := Fraction(num, den), Fraction(rNum, rDen);
      ghost var a1, d1 := Cofactors(num, rDen);
      ghost var c1, b1 := Cofactors(rNum, den);
      var gcd1 := Gcd(num, rDen);
      var gcd2 := Gcd(rNum, den);
      ProductIsExact(p, q, a1, c1, b1, d1, gcd1, gcd2);
      num := Quot(num, gcd1) * Quot(rNum, gcd2);
      den := Quot(den, gcd2) * Quot(rDen, gcd1);
    }

    method DivAssign(r: Rational) returns (outcome: Outcome)
      requires Valid() && r.Valid()
      modifies this
      ensures old(r.Val()) == 0.0 <==> old(r.num) == 0
      ensures Valid() && (outcome.BadRational? <==> old(r.num) == 0)
      ensures Val() == if old(r.Val()) == 0.0 then old(Val()) else old(Val()) / old(r.Val())
    {
      hide Quot, Gcd;
      var rNum, rDen := r.num, r.den;
      ghost var p, q := Fraction(num, den), Fraction(rNum, rDen);
      ZeroValue(p);
      ZeroValue(q);
      if rNum == 0 {
        return BadRational;
      }
      if num == 0 {
        return Done;
      }
      ghost var a1, c1 := Cofactors(num, rNum);
      ghost var d1, b1 := Cofactors(rDen, den);
      var gcd1 := Gcd(num, rNum);
      var gcd2 := Gcd(rDen, den);
      QuotientIsExact(p, q, a1, c1, b1, d1, gcd1, gcd2);
      num := Quot(num, gcd1) * Quot(rDen, gcd2);
      den := Quot(den, gcd2) * Quot(rNum, gcd1);
      if den < 0 {
        num, den := -num, -den;
      }
      return Done;
    }

    // ----- arithmetic with an integer -----

    method AddInt(i: int)
      requires Valid()
      modifies this
      ensures Valid() && Val() == old(Val()) + i as real
    {
      IntSumIsExact(Pair(), i);
      num := num + i * den;
    }

    method SubInt(i: int)
      requires Valid()
      modifies this
      ensures Valid() && Val() == old(Val()) - i as real
    {
      IntSumIsExact(Pair(), -i);
      SignsOut(i, den);
      num := num - i * den;
    }

    method MulInt(i: int)
      requires Valid()
      modifies this
      ensures Valid() && Val() == old(Val()) * i as real
    {
      hide Quot, Gcd;
      ghost var k, l := Cofactors(i, den);
      IntProductIsExact(Pair(), i, k, l);
      var gcd := Gcd(i, den);
      num := num * Quot(i, gcd);
      den := Quot(den, gcd);
    }

    method DivInt(i: int) returns (outcome: Outcome)
      requires Valid()
      modifies this
      ensures Valid() && (outcome.BadRational? <==> i == 0)
      ensures Val() == if i == 0 then old(Val()) else old(Val()) / i as real
    {
      hide Quot, Gcd;
      if i == 0 {
        return BadRational;
      }
      if num == 0 {
        return Done;
      }
      ghost var k, l := Cofactors(num, i);
      IntQuotientIsExact(Pair(), i, k, l);
      var gcd := Gcd(num, i);
      num := Quot(num, gcd);
      den := den * Quot(i, gcd);
      if den < 0 {
        num, den := -num, -den;
      }
      return Done;
    }

    method Increment()
      requires Valid()
      modifies this
      ensures Valid() && Val() == old(Val()) + 1.0
    {
      IntSumIsExact(Pair(), 1);
      num := num + den;
    }

    method Decrement()
      requires Valid()
      modifies this
      ensures Valid() && Val() == old(Val()) - 1.0
    {
      IntSumIsExact(Pair(), -1);
      num := num - den;
    }

    // ----- equality -----

    /** Comparing components is comparing values. */
    method Equals(r: Rational) returns (same: bool)
      requires Valid() && r.Valid()
      ensures same <==> Val() == r.Val()
    {
      if Val() == r.Val() { NormalUnique(Pair(), r.Pair()); }
      same := num == r.num && den == r.den;
    }

    method EqualsInt(i: int) returns (same: bool)
      requires Valid()
      ensures same <==> Val() == i as real
    {
      WholeIsNormal(i);
      if Val() == i as real { NormalUnique(Pair(), Whole(i)); }
      same := den == 1 && num == i;
    }

    // ----- order -----

    /** The machine's first division, with the remainder made non-negative by the loop. */
    method FirstPlace(ghost max: nat) returns (e: Expansion)
      requires Valid() && Fits(max, num) && Fits(max, den)
      ensures e.n == num && e.d == den && Floored(e) && AllFit(max, e)
    {
      DivisionFits(max, num, den);
      e := Expansion(num, den, MachineQuot(max, num, den), MachineRem(max, num, den));
      while e.r < 0
        invariant e.n == num && e.d == den && Truncated(e) && AllFit(max, e)
        invariant e.r >= 0 ==> Floored(e)
        decreases -e.r
      {
        FlooringFits(max, e);
        e := e.(r := MachineAdd(max, e.r, e.d), q := MachineAdd(max, e.q, -1));
      }
    }

    /**
     `operator<`, which compares continued-fraction expansions place by place.
     No product is ever formed, and every number it computes fits in any
     integer type that holds the four inputs.
     */
    method Less(r: Rational, ghost max: nat) returns (less: bool)
      requires Valid() && r.Valid()
      requires Fits(max, num) && Fits(max, den) && Fits(max, r.num) && Fits(max, r.den)
      ensures less <==> num * r.den < r.num * den
      ensures less <==> Val() < r.Val()
    {
      ValueLess(Pair(), r.Pair());
      var ts := FirstPlace(max);
      var rs := r.FirstPlace(max);
      var reverse := false;
      while true
        invariant Floored(ts) && Floored(rs) && AllFit(max, ts) && AllFit(max, rs)
        invariant num * r.den < r.num * den <==> if reverse then Before(rs, ts) else Before(ts, rs)
        decreases ts.d
      {
        if ts.q != rs.q {
          if ts.q < rs.q { QuotientsDecide(ts, rs); } else { QuotientsDecide(rs, ts); }
          return if reverse then ts.q > rs.q else ts.q < rs.q;
        }
        reverse := !reverse;
        if ts.r == 0 || rs.r == 0 {
          EndDecides(ts, rs);
          break;
        }
        ghost var t, s := ts, rs;
        DivisionFits(max, ts.d, ts.r);
        DivisionFits(max, rs.d, rs.r);
        ts := NextPlace(ts, max);
        rs := NextPlace(rs, max);
        NextPlaceReverses(t, s, ts, rs);
      }
      if ts.r == rs.r {
        return false;
      } else {
        return (ts.r != 0) != reverse;
      }
    }

    /** `operator>`. */
    method Greater(r: Rational, ghost max: nat) returns (greater: bool)
      requires Valid() && r.Valid()
      requires Fits(max, num) && Fits(max, den) && Fits(max, r.num) && Fits(max, r.den)
      ensures greater <==> Val() > r.Val()
    {
      greater := r.Less(this, max);
    }

    /** `operator<` against an integer: the floor of the value alone decides. */
    method LessInt(i: int, ghost max: nat) returns (less: bool)
      requires Valid() && Fits(max, num) && Fits(max, den)
      ensures less <==> Val() < i as real
    {
      var e := FirstPlace(max);
      WholeIsNormal(i);
      ValueLess(Pair(), Whole(i));
      FloorDecides(e, i);
      less := e.q < i;
    }

    /** `operator>` against an integer: neither equal nor less. */
    method GreaterInt(i: int, ghost max: nat) returns (greater: bool)
      requires Valid() && Fits(max, num) && Fits(max, den)
      ensures greater <==> Val() > i as real
    {
      var same := EqualsInt(i);
      if same {
        greater := false;
      } else {
        var less := LessInt(i, max);
        greater := !less;
      }
    }
  }

  /** The next term of an expansion that has not ended. */
  function NextPlace(e: Expansion, ghost max: nat): (next: Expansion)
    requires Floored(e) && AllFit(max, e) && e.r != 0
    requires Fits(max, Quot(e.d, e.r)) && Fits(max, Rem(e.d, e.r))
    ensures Follows(e, next) && next.d < e.d
  {
    Expansion(e.d, e.r, MachineQuot(max, e.d, e.r), MachineRem(max, e.d, e.r))
  }

  lemma {:induction false} FloorDecides(e: Expansion, i: int)
    requires Floored(e)
    ensures e.q < i <==> e.n < i * e.d
  {
    if e.q < i {
      ProductMonotonic(e.q + 1, i, e.d);
      Distribute(e.d, e.q, 1);
    } else {
      ProductMonotonic(i, e.q, e.d);
    }
  }

  // ----- lemmas of the operations -----

  lemma {:induction false} DenominatorQuotient(d1: int, k: int, h: int)
    requires h > 0
    ensures Quot(d1 * (k * h), h) == d1 * k
  {
    Reassociate(d1, k, h);
    ExactQuotient(d1 * k * h, h, d1 * k);
  }

  lemma {:induction false} NegatedValue(q: Fraction)
    requires Normal(q)
    ensures Normal(Fraction(-q.num, q.den)) && Value(Fraction(-q.num, q.den)) == -Value(q)
  {
    CoprimeNegated(q.num, q.den);
    SignOut(q.num as real, q.den as real);
  }

  lemma {:induction false} SignOut(n: real, d: real)
    requires d != 0.0
    ensures -n / d == -(n / d)
  {
  }

  lemma {:induction false} ZeroValue(q: Fraction)
    requires q.den != 0
    ensures Value(q) == 0.0 <==> q.num == 0
  {
  }

  /** Division is multiplication by the reciprocal, sign and all. */
  lemma {:induction false} QuotientIsExact(p: Fraction, q: Fraction, a1: int, c1: int, b1: int, d1: int, g: int, h: int)
    requires Normal(p) && Normal(q) && q.num != 0 && g > 0 && h > 0
    requires p.num == a1 * g && q.num == c1 * g && Coprime(a1, c1)
    requires q.den == d1 * h && p.den == b1 * h && Coprime(d1, b1)
    ensures var s := if b1 * c1 < 0 then Fraction(-(a1 * d1), -(b1 * c1)) else Fraction(a1 * d1, b1 * c1);
            Normal(s) && Value(q) != 0.0 && Value(s) == Value(p) / Value(q)
  {
    ReciprocalIsExact(q);
    var r := Reciprocal(q);
    PositiveFactor(b1, h);
    SignsOut(c1, g);
    SignsOut(d1, h);
    SignsOut(a1, d1);
    SignsOut(b1, c1);
    SignOfProduct(b1, c1);
    SignOfProduct(g, c1);
    if q.num < 0 {
      CoprimeNegated(d1, b1);
      CoprimeSymmetric(a1, c1);
      CoprimeNegated(c1, a1);
      CoprimeSymmetric(-c1, a1);
      ProductIsExact(p, r, a1, -d1, b1, -c1, g, h);
    } else {
      ProductIsExact(p, r, a1, d1, b1, c1, g, h);
    }
    DivideByReal(Value(p), Value(q));
  }

  lemma {:induction false} DivideByReal(x: real, y: real)
    requires y != 0.0
    ensures x * (1.0 / y) == x / y
  {
  }

  lemma {:induction false} SignOfProduct(x: int, y: int)
    requires x > 0
    ensures x * y < 0 <==> y < 0
  {
  }

  lemma {:induction false} IntSumIsExact(p: Fraction, i: int)
    requires Normal(p)
    ensures var s := Fraction(p.num + i * p.den, p.den);
            Normal(s) && Value(s) == Value(p) + i as real
  {
    CoprimeShift(p.num, p.den, i);
    RealProduct(i, p.den);
    var m := p.den as real;
    assert Value(p) * m == p.num as real;
    assert (Value(p) + i as real) * m == Value(p) * m + i as real * m;
    QuotientLaw((p.num + i * p.den) as real, m, Value(p) + i as real);
  }

  lemma {:induction false} IntProductIsExact(p: Fraction, i: int, k: int, l: int)
    requires Normal(p) && i == k * Gcd(i, p.den) && p.den == l * Gcd(i, p.den) && Coprime(k, l)
    ensures var s := Fraction(p.num * k, l);
            Normal(s) && Value(s) == Value(p) * i as real
  {
    WholeIsNormal(i);
    CoprimeBy(p.num, 1, 0, 1);
    GcdPositive(i, p.den);
    ProductIsExact(p, Whole(i), p.num, k, l, 1, 1, Gcd(i, p.den));
  }

  lemma {:induction false} IntQuotientIsExact(p: Fraction, i: int, k: int, l: int)
    requires Normal(p) && i != 0 && p.num == k * Gcd(p.num, i) && i == l * Gcd(p.num, i) && Coprime(k, l)
    ensures var s := if p.den * l < 0 then Fraction(-k, -(p.den * l)) else Fraction(k, p.den * l);
            Normal(s) && Value(s) == Value(p) / i as real
  {
    WholeIsNormal(i);
    CoprimeBy(1, p.den, 1, 0);
    GcdPositive(p.num, i);
    QuotientIsExact(p, Whole(i), k, l, p.den, 1, Gcd(p.num, i), 1);
  }
}

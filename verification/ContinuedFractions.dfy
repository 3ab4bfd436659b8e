/**
 One value being expanded into a continued fraction, and how the order of two
 values shows in their expansions.  The arithmetic is that of a two's-complement
 type: every operation demands that its result fits.
 */
module ContinuedFractions {
  import opened Integers

  /** x is a value of the integer type whose greatest value is max. */
  ghost predicate Fits(max: nat, x: int) {
    -1 - max <= x <= max
  }

  // ----- machine arithmetic -----

  function MachineQuot(ghost max: nat, a: int, b: int): int
    requires b != 0 && Fits(max, a) && Fits(max, b) && Fits(max, Quot(a, b))
  {
    Quot(a, b)
  }

  function MachineRem(ghost max: nat, a: int, b: int): int
    requires b != 0 && Fits(max, a) && Fits(max, b) && Fits(max, Quot(a, b)) && Fits(max, Rem(a, b))
  {
    Rem(a, b)
  }

  function MachineAdd(ghost max: nat, a: int, b: int): int
    requires Fits(max, a) && Fits(max, b) && Fits(max, a + b)
  {
    a + b
  }

  // ----- expansions -----

  /** The fraction n/d at the current place of its expansion: quotient and remainder. */
  datatype Expansion = Expansion(n: int, d: int, q: int, r: int)

  /** q is the floor of n/d. */
  ghost predicate Floored(e: Expansion) {
    e.d > 0 && e.n == e.q * e.d + e.r && 0 <= e.r < e.d
  }

  /** As computed by truncating division: the remainder may be negative. */
  ghost predicate Truncated(e: Expansion) {
    e.d > 0 && e.n == e.q * e.d + e.r && -e.d < e.r < e.d && (e.r < 0 ==> e.n < 0)
  }

  ghost predicate AllFit(max: nat, e: Expansion) {
    Fits(max, e.n) && Fits(max, e.d) && Fits(max, e.q) && Fits(max, e.r)
  }

  lemma {:induction false} QuotientBound(m: nat, d: int)
    requires d > 0
    ensures 0 <= m / d <= m && m == (m / d) * d + m % d
  {
    var q := m / d;
    if q < 0 { ProductMonotonic(q, -1, d); }
    if q > 0 { ProductMonotonic(1, d, q); }
  }

  /** Truncating division stays in the range of its operands. */
  lemma {:induction false} DivisionFits(max: nat, n: int, d: int)
    requires d > 0 && Fits(max, n) && Fits(max, d)
    ensures Fits(max, Quot(n, d)) && Fits(max, Rem(n, d))
    ensures Truncated(Expansion(n, d, Quot(n, d), Rem(n, d)))
    ensures n >= 0 ==> Floored(Expansion(n, d, Quot(n, d), Rem(n, d)))
  {
    QuotientBound(Abs(n), d);
    SignsOut(Abs(n) / d, d);
  }

  /** One round of `r += d, --q` on a negative remainder floors the quotient, in range. */
  lemma {:induction false} FlooringFits(max: nat, e: Expansion)
    requires Truncated(e) && AllFit(max, e) && e.r < 0
    ensures Fits(max, e.r + e.d) && Fits(max, e.q - 1)
    ensures Floored(e.(r := e.r + e.d, q := e.q - 1))
  {
  }

  // ----- the order of two expansions -----

  ghost predicate Before(a: Expansion, b: Expansion) {
    a.n * b.d < b.n * a.d
  }

  /** Different quotients decide the order. */
  lemma {:induction false} QuotientsDecide(a: Expansion, b: Expansion)
    requires Floored(a) && Floored(b) && a.q < b.q
    ensures Before(a, b) && !Before(b, a)
  {
    var ad, bd := a.d, b.d;
    ProductMonotonic(a.q + 1, b.q, ad);
    Distribute(ad, a.q, 1);
    assert a.n < b.q * ad;
    StrictlyScaled(a.n, b.q * ad, bd);
    assert b.n >= b.q * bd;
    ProductMonotonic(b.q * bd, b.n, ad);
    Regroup(b.q, bd, ad);
    Reassociate(b.q, bd, ad);
    Reassociate(b.q, ad, bd);
  }

  lemma {:induction false} StrictlyScaled(x: int, y: int, d: int)
    requires x < y && d > 0
    ensures x * d < y * d
  {
  }

  /** The next place expands the reciprocals of the fractional parts: the order turns round. */
  ghost predicate Follows(e: Expansion, next: Expansion) {
    next.n == e.d && next.d == e.r
  }

  lemma {:induction false} NextPlaceReverses(a: Expansion, b: Expansion, a': Expansion, b': Expansion)
    requires Floored(a) && Floored(b) && a.q == b.q && Follows(a, a') && Follows(b, b')
    ensures Before(a, b) <==> Before(b', a')
    ensures Before(b, a) <==> Before(a', b')
  {
  }

  /** When one expansion has ended, the other one has the part that is left. */
  lemma {:induction false} EndDecides(a: Expansion, b: Expansion)
    requires Floored(a) && Floored(b) && a.q == b.q && (a.r == 0 || b.r == 0)
    ensures Before(a, b) <==> b.r != 0
    ensures Before(b, a) <==> a.r != 0
  {
  }
}

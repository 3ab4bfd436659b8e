/**
 Whole runs of the rational class, and what exactness gives its users.
 */
module RationalRuns {
  import opened Integers
  import opened Fractions
  import opened Rationals

  /** The right-hand side of an operation: a new number n/d, or the object itself. */
  datatype Operand = Number(n: int, d: int) | Itself

  datatype Operator = Plus | Minus | Times | Over

  datatype Command =
    | Assign(n: int, d: int)
    | Combine(op: Operator, x: Operand)
    | AddInt(i: int) | SubInt(i: int) | MulInt(i: int) | DivInt(i: int)
    | Increment | Decrement

  /** The value after a command; a command that throws leaves the value as it was. */
  ghost function Effect(v: real, c: Command): real {
    match c
    case Assign(n, d) => if d == 0 then v else n as real / d as real
    case Combine(op, x) => if Throws(x) then v else Combined(op, v, OperandValue(v, x))
    case AddInt(i) => v + i as real
    case SubInt(i) => v - i as real
    case MulInt(i) => v * i as real
    case DivInt(i) => if i == 0 then v else v / i as real
    case Increment => v + 1.0
    case Decrement => v - 1.0
  }

  ghost function Combined(op: Operator, v: real, w: real): real {
    match op
    case Plus => v + w
    case Minus => v - w
    case Times => v * w
    case Over => if w == 0.0 then v else v / w
  }

  predicate Throws(x: Operand) {
    x.Number? && x.d == 0
  }

  ghost function OperandValue(v: real, x: Operand): real
    requires !Throws(x)
  {
    match x
    case Number(n, d) => n as real / d as real
    case Itself => v
  }

  ghost function ExactResult(commands: seq<Command>): real {
    if commands == [] then 0.0
    else Effect(ExactResult(commands[..|commands| - 1]), commands[|commands| - 1])
  }

  /** A run ends in this fraction: the exact result, in normal form. */
  ghost predicate EndsIn(commands: seq<Command>, q: Fraction) {
    Normal(q) && Value(q) == ExactResult(commands)
  }

  /**
   Any run of operations from a default-constructed rational gives the exact
   real result, in its only normal representation.
   */
  method RunCommands(commands: seq<Command>) returns (result: Fraction)
    ensures EndsIn(commands, result)
    ensures commands == [] ==> result == Fraction(0, 1)
  {
    var r := new Rational();
    ZeroValue(r.Pair());
    var i := 0;
    while i < |commands|
      invariant 0 <= i <= |commands|
      invariant fresh(r) && r.Valid() && r.Val() == ExactResult(commands[..i])
      invariant i == 0 ==> r.num == 0 && r.den == 1
    {
      assert commands[..i + 1][..i] == commands[..i];
      Execute(r, commands[i]);
      i := i + 1;
    }
    assert commands[..|commands|] == commands;
    result := Fraction(r.num, r.den);
  }

  method Execute(r: Rational, c: Command)
    requires r.Valid()
    modifies r
    ensures r.Valid() && r.Val() == Effect(old(r.Val()), c)
  {
    hide Value, Normal, Combined;
    match c
    case Assign(n, d) => var _ := r.Assign(n, d);
    case AddInt(i) => r.AddInt(i);
    case SubInt(i) => r.SubInt(i);
    case MulInt(i) => r.MulInt(i);
    case DivInt(i) => var _ := r.DivInt(i);
    case Increment => r.Increment();
    case Decrement => r.Decrement();
    case Combine(op, x) =>
      var y := Operate(r, x);
      if y.Success? { ExecuteWith(r, op, y.value); }
  }

  method ExecuteWith(r: Rational, op: Operator, y: Rational)
    requires r.Valid() && y.Valid()
    modifies r
    ensures r.Valid() && r.Val() == Combined(op, old(r.Val()), old(y.Val()))
  {
    hide Value, Normal;
    match op
    case Plus => r.AddAssign(y);
    case Minus => r.SubAssign(y);
    case Times => r.MulAssign(y);
    case Over => var _ := r.DivAssign(y);
  }

  /** The object that an operand denotes. */
  method Operate(r: Rational, x: Operand) returns (y: Result<Rational>)
    requires r.Valid()
    ensures y.Failure? <==> Throws(x)
    ensures y.Success? ==> y.value.Valid() && y.value.Val() == OperandValue(r.Val(), x)
  {
    match x
    case Number(n, d) => y := Rational.Create(n, d);
    case Itself => y := Success(r);
  }

  /** Adding and taking away again restores the very representation. */
  method AddThenSubtract(a: Rational, b: Rational)
    requires a.Valid() && b.Valid() && a != b
    modifies a
    ensures a.Pair() == old(a.Pair())
  {
    a.AddAssign(b);
    a.SubAssign(b);
    NormalUnique(a.Pair(), old(a.Pair()));
  }

  /** So does dividing and multiplying again, unless the division throws. */
  method DivideThenMultiply(a: Rational, b: Rational) returns (outcome: Outcome)
    requires a.Valid() && b.Valid() && a != b
    modifies a
    ensures outcome.BadRational? <==> b.num == 0
    ensures a.Pair() == old(a.Pair())
  {
    outcome := a.DivAssign(b);
    if outcome.Done? {
      a.MulAssign(b);
      DivideBack(old(a.Val()), b.Val());
    }
    NormalUnique(a.Pair(), old(a.Pair()));
  }

  lemma {:induction false} DivideBack(x: real, y: real)
    requires y != 0.0
    ensures (x / y) * y == x
  {
  }

  /** A run decides a fraction: equal results are equal representations. */
  lemma {:induction false} EqualResults(a: Fraction, b: Fraction)
    requires Normal(a) && Normal(b)
    ensures a == b <==> Value(a) == Value(b)
    ensures a == b <==> a.num * b.den == b.num * a.den
  {
    ValueIs(a, b.num, b.den);
    if Value(a) == Value(b) { NormalUnique(a, b); }
  }

  // ----- the integer shortcuts -----

  /** The rational operation on i/1 that an integer shortcut stands for. */
  function Lifted(c: Command): Command {
    match c
    case AddInt(i) => Combine(Plus, Number(i, 1))
    case SubInt(i) => Combine(Minus, Number(i, 1))
    case MulInt(i) => Combine(Times, Number(i, 1))
    case DivInt(i) => Combine(Over, Number(i, 1))
    case Increment => Combine(Plus, Number(1, 1))
    case Decrement => Combine(Minus, Number(1, 1))
    case _ => c
  }

  function LiftedRun(commands: seq<Command>): (lifted: seq<Command>)
    ensures |lifted| == |commands|
  {
    seq(|commands|, i requires 0 <= i < |commands| => Lifted(commands[i]))
  }

  /**
   In any run the integer shortcuts may be replaced by the rational operations:
   the two results are the same, representation and all.
   */
  lemma {:induction false} LiftingChangesNothing(commands: seq<Command>, short: Fraction, lifted: Fraction)
    requires EndsIn(commands, short) && EndsIn(LiftedRun(commands), lifted)
    ensures short == lifted
  {
    LiftedResult(commands);
    NormalUnique(short, lifted);
  }

  lemma {:induction false} LiftedResult(commands: seq<Command>)
    ensures ExactResult(LiftedRun(commands)) == ExactResult(commands)
  {
    if commands != [] {
      var last := |commands| - 1;
      LiftedResult(commands[..last]);
      assert LiftedRun(commands)[..last] == LiftedRun(commands[..last]);
      LiftedEffect(ExactResult(commands[..last]), commands[last]);
    }
  }

  /** Command by command, on any value. */
  lemma {:induction false} ShortcutEffects(v: real, i: int)
    ensures Effect(v, AddInt(i)) == Effect(v, Combine(Plus, Number(i, 1)))
    ensures Effect(v, SubInt(i)) == Effect(v, Combine(Minus, Number(i, 1)))
    ensures Effect(v, MulInt(i)) == Effect(v, Combine(Times, Number(i, 1)))
    ensures Effect(v, DivInt(i)) == Effect(v, Combine(Over, Number(i, 1)))
    ensures Effect(v, Increment) == Effect(v, Combine(Plus, Number(1, 1)))
    ensures Effect(v, Decrement) == Effect(v, Combine(Minus, Number(1, 1)))
  {
    assert i as real / 1.0 == i as real;
  }

  lemma {:induction false} LiftedEffect(v: real, c: Command)
    ensures Effect(v, Lifted(c)) == Effect(v, c)
  {
    forall i: int
      ensures OperandValue(v, Number(i, 1)) == i as real
    {
    }
  }

  // ----- what each command leaves, in integers -----

  /** From p the run goes on with c to q. */
  ghost predicate Leads(commands: seq<Command>, p: Fraction, c: Command, q: Fraction) {
    EndsIn(commands, p) && EndsIn(commands + [c], q)
  }

  lemma {:induction false} OneMore(commands: seq<Command>, p: Fraction, c: Command, q: Fraction)
    requires Leads(commands, p, c, q)
    ensures Normal(p) && Normal(q) && Value(q) == Effect(Value(p), c)
    ensures Value(q) == Value(p) ==> q == p
  {
    assert (commands + [c])[..|commands|] == commands;
    if Value(q) == Value(p) { NormalUnique(p, q); }
  }

  /** The run of no commands ends in 0/1, and k increments end in k/1. */
  lemma {:induction false} CountingRun(k: nat, q: Fraction)
    requires EndsIn(seq(k, _ => Increment), q)
    ensures q == Fraction(k, 1)
  {
    CountedResult(k);
    WholeResult(q, k);
  }

  lemma {:induction false} CountedResult(k: nat)
    ensures ExactResult(seq(k, _ => Increment)) == k as real
  {
    if k > 0 {
      CountedResult(k - 1);
      assert seq(k, _ => Increment)[..k - 1] == seq(k - 1, _ => Increment);
    }
  }

  lemma {:induction false} RunAfterAssign(commands: seq<Command>, p: Fraction, n: int, d: int, q: Fraction)
    requires Leads(commands, p, Assign(n, d), q)
    ensures d == 0 ==> q == p
    ensures d != 0 ==> q.num * d == n * q.den
  {
    OneMore(commands, p, Assign(n, d), q);
    if d != 0 { ValueIs(q, n, d); }
  }

  // Values that are equal, as equations between integers.

  lemma {:induction false} SumEquation(p: Fraction, n: int, d: int, q: Fraction)
    requires p.den != 0 && d != 0 && q.den != 0 && Value(q) == Value(p) + n as real / d as real
    ensures q.num * (p.den * d) == (p.num * d + n * p.den) * q.den
  {
    ValueOfSum(p, Fraction(n, d));
    ValueIs(q, p.num * d + n * p.den, p.den * d);
  }

  lemma {:induction false} DifferenceEquation(p: Fraction, n: int, d: int, q: Fraction)
    requires p.den != 0 && d != 0 && q.den != 0 && Value(q) == Value(p) - n as real / d as real
    ensures q.num * (p.den * d) == (p.num * d - n * p.den) * q.den
  {
    SignOut(n as real, d as real);
    SumEquation(p, -n, d, q);
    SignsOut(n, p.den);
  }

  lemma {:induction false} ProductEquation(p: Fraction, n: int, d: int, q: Fraction)
    requires p.den != 0 && d != 0 && q.den != 0 && Value(q) == Value(p) * (n as real / d as real)
    ensures q.num * (p.den * d) == p.num * n * q.den
  {
    ValueOfProduct(p, Fraction(n, d));
    ValueIs(q, p.num * n, p.den * d);
  }

  lemma {:induction false} QuotientEquation(p: Fraction, n: int, d: int, q: Fraction)
    requires p.den != 0 && d != 0 && n != 0 && q.den != 0
    requires n as real / d as real != 0.0 && Value(q) == Value(p) / (n as real / d as real)
    ensures q.num * (p.den * n) == p.num * d * q.den
  {
    RealReciprocal(n as real, d as real);
    DivideByReal(Value(p), n as real / d as real);
    ProductEquation(p, d, n, q);
  }

  /** Operating with n/d, whatever signs and common factors n and d have. */
  lemma {:induction false} RunWithNumber(commands: seq<Command>, p: Fraction, op: Operator, n: int, d: int, q: Fraction)
    requires Leads(commands, p, Combine(op, Number(n, d)), q)
    ensures d == 0 ==> q == p
    ensures d != 0 && op.Plus? ==> q.num * (p.den * d) == (p.num * d + n * p.den) * q.den
    ensures d != 0 && op.Minus? ==> q.num * (p.den * d) == (p.num * d - n * p.den) * q.den
    ensures d != 0 && op.Times? ==> q.num * (p.den * d) == p.num * n * q.den
    ensures d != 0 && op.Over? && n != 0 ==> q.num * (p.den * n) == p.num * d * q.den
    ensures d != 0 && op.Over? && n == 0 ==> q == p
  {
    hide Value, Leads;
    OneMore(commands, p, Combine(op, Number(n, d)), q);
    if d != 0 {
      match op
      case Plus => SumEquation(p, n, d, q);
      case Minus => DifferenceEquation(p, n, d, q);
      case Times => ProductEquation(p, n, d, q);
      case Over =>
        ZeroQuotient(n, d);
        if n != 0 { QuotientEquation(p, n, d, q); }
    }
  }

  lemma {:induction false} ZeroQuotient(n: int, d: int)
    requires d != 0
    ensures n as real / d as real == 0.0 <==> n == 0
  {
    ZeroValue(Fraction(n, d));
  }

  /** Operating with the object itself reads the value it had. */
  lemma {:induction false} RunWithItself(commands: seq<Command>, p: Fraction, op: Operator, q: Fraction)
    requires Leads(commands, p, Combine(op, Itself), q)
    ensures op.Plus? ==> q.num * p.den == 2 * p.num * q.den
    ensures op.Minus? ==> q == Fraction(0, 1)
    ensures op.Times? ==> q == Fraction(p.num * p.num, p.den * p.den)
    ensures op.Over? ==> q == if p.num == 0 then p else Fraction(1, 1)
  {
    hide Leads, Coprime;
    OneMore(commands, p, Combine(op, Itself), q);
    match op
    case Plus => DoubledValue(p, q);
    case Minus => WholeResult(q, 0);
    case Times => SquaredValue(p, q);
    case Over =>
      ZeroValue(p);
      if p.num != 0 {
        QuotientByItself(Value(p));
        WholeResult(q, 1);
      }
  }

  lemma {:induction false} QuotientByItself(x: real)
    requires x != 0.0
    ensures x / x == 1.0
  {
  }

  lemma {:induction false} WholeResult(q: Fraction, i: int)
    requires Normal(q) && Value(q) == i as real
    ensures q == Fraction(i, 1)
  {
    WholeIsNormal(i);
    NormalUnique(q, Whole(i));
  }

  lemma {:induction false} DoubledValue(p: Fraction, q: Fraction)
    requires p.den != 0 && q.den != 0 && Value(q) == Value(p) + Value(p)
    ensures q.num * p.den == 2 * p.num * q.den
  {
    assert Value(p) + Value(p) == (2 * p.num) as real / p.den as real;
    ValueIs(q, 2 * p.num, p.den);
  }

  lemma {:induction false} SquaredValue(p: Fraction, q: Fraction)
    requires Normal(p) && Normal(q) && Value(q) == Value(p) * Value(p)
    ensures q == Fraction(p.num * p.num, p.den * p.den)
  {
    ProductInLowestTerms(p.num, p.num, p.den, p.den);
    PositiveProduct(p.den, p.den);
    ValueOfProduct(p, p);
    NormalUnique(q, Fraction(p.num * p.num, p.den * p.den));
  }

  /** Adding an integer leaves the very numerator and denominator that the source computes. */
  lemma {:induction false} RunAfterIntSum(commands: seq<Command>, p: Fraction, i: int, c: Command, q: Fraction)
    requires Leads(commands, p, c, q)
    ensures c == AddInt(i) ==> q == Fraction(p.num + i * p.den, p.den)
    ensures c == SubInt(i) ==> q == Fraction(p.num - i * p.den, p.den)
    ensures c == Increment ==> q == Fraction(p.num + p.den, p.den)
    ensures c == Decrement ==> q == Fraction(p.num - p.den, p.den)
  {
    hide Value, Leads, Coprime, Combined;
    OneMore(commands, p, c, q);
    if c == AddInt(i) { IntSumResult(p, i, q); }
    if c == SubInt(i) {
      SignsOut(i, p.den);
      IntSumResult(p, -i, q);
    }
    if c == Increment { IntSumResult(p, 1, q); }
    if c == Decrement { IntSumResult(p, -1, q); }
  }

  lemma {:induction false} RunAfterMulInt(commands: seq<Command>, p: Fraction, i: int, q: Fraction)
    requires Leads(commands, p, MulInt(i), q)
    ensures q.num * p.den == p.num * i * q.den
  {
    OneMore(commands, p, MulInt(i), q);
    IntProductResult(p, i, q);
  }

  lemma {:induction false} RunAfterDivInt(commands: seq<Command>, p: Fraction, i: int, q: Fraction)
    requires Leads(commands, p, DivInt(i), q)
    ensures i == 0 ==> q == p
    ensures i != 0 ==> q.num * (p.den * i) == p.num * q.den
  {
    OneMore(commands, p, DivInt(i), q);
    if i != 0 { IntQuotientResult(p, i, q); }
  }

  lemma {:induction false} IntSumResult(p: Fraction, i: int, q: Fraction)
    requires Normal(p) && Normal(q) && Value(q) == Value(p) + i as real
    ensures q == Fraction(p.num + i * p.den, p.den)
  {
    IntSumIsExact(p, i);
    NormalUnique(q, Fraction(p.num + i * p.den, p.den));
  }

  lemma {:induction false} IntProductResult(p: Fraction, i: int, q: Fraction)
    requires p.den != 0 && q.den != 0 && Value(q) == Value(p) * i as real
    ensures q.num * p.den == p.num * i * q.den
  {
    ProductEquation(p, i, 1, q);
  }

  lemma {:induction false} IntQuotientResult(p: Fraction, i: int, q: Fraction)
    requires p.den != 0 && q.den != 0 && i != 0 && Value(q) == Value(p) / i as real
    ensures q.num * (p.den * i) == p.num * q.den
  {
    QuotientEquation(p, i, 1, q);
  }
}

/**
 The table of composite XOR masks, and which division routine may fill it.
 */
module Tables {
  import opened Words
  import opened Division
  import opened Reflection
  import opened SerialUpdate

  /**
   The mask that the table must hold for the unit v.  In a reflected table both
   the index and the entry are mirrored.
   */
  function Mask(v: Word, p: Word, reflect: bool): (m: Word)
    requires |p| >= 1
    ensures |m| == |p|
  {
    ReverseIf(reflect, Run(Zeros(|p|), InputBits(v, reflect), p))
  }

  /** A full table of masks for units of n bits, in registers of the given digits. */
  ghost predicate IsTable(table: seq<Word>, digits: nat, p: Word, n: nat, reflect: bool)
    requires 1 <= |p| <= digits
  {
    && |table| == Pow2(n)
    && forall v: Word :: |v| == n ==> table[ToNat(v)] == Extend(Mask(v, p, reflect), digits)
  }

  /** The cell of a unit is the one that its mirror image counts. */
  lemma {:induction false} MirroredIndex(v: Word, unit: Word, reflect: bool)
    requires |v| == |unit|
    ensures var index := ReverseIf(reflect, unit);
            && (ToNat(v) == ToNat(index) ==> v == index)
            && (ToNat(ReverseIf(reflect, v)) == ToNat(unit) ==> v == index)
  {
    ReverseInvolution(v);
    if ToNat(v) == ToNat(ReverseIf(reflect, unit)) {
      ToNatInjective(v, ReverseIf(reflect, unit));
    }
    if ToNat(ReverseIf(reflect, v)) == ToNat(unit) {
      ToNatInjective(ReverseIf(reflect, v), unit);
    }
  }

  /** The masks of the first `count` dividends are in place. */
  ghost predicate Filled(table: seq<Word>, digits: nat, p: Word, n: nat, reflect: bool, count: nat)
    requires 1 <= |p| <= digits && |table| == Pow2(n)
  {
    forall v: Word :: |v| == n && ToNat(ReverseIf(reflect, v)) < count ==>
      table[ToNat(v)] == Extend(Mask(v, p, reflect), digits)
  }

  lemma {:induction false} FillCell(table: seq<Word>, digits: nat, p: Word, unit: Word, reflect: bool)
    requires 1 <= |p| <= digits && |table| == Pow2(|unit|)
    requires Filled(table, digits, p, |unit|, reflect, ToNat(unit))
    ensures var index := ReverseIf(reflect, unit);
            Filled(table[ToNat(index) := Extend(Mask(index, p, reflect), digits)], digits, p, |unit|, reflect,
                   ToNat(unit) + 1)
  {
    hide Mask, ReverseIf, ToNat, Extend, Pow2;
    var n := |unit|;
    var index := ReverseIf(reflect, unit);
    var entry := Extend(Mask(index, p, reflect), digits);
    forall v: Word | |v| == n && ToNat(ReverseIf(reflect, v)) < ToNat(unit) + 1
      ensures table[ToNat(index) := entry][ToNat(v)] == Extend(Mask(v, p, reflect), digits)
    {
      MirroredIndex(v, unit, reflect);
      if v != index {
        assert table[ToNat(v)] == Extend(Mask(v, p, reflect), digits);
      }
    }
  }

  lemma {:induction false} NothingFilled(table: seq<Word>, digits: nat, p: Word, n: nat, reflect: bool)
    requires 1 <= |p| <= digits && |table| == Pow2(n)
    ensures Filled(table, digits, p, n, reflect, 0)
  {
  }

  lemma {:induction false} FilledIsTable(table: seq<Word>, digits: nat, p: Word, n: nat, reflect: bool)
    requires 1 <= |p| <= digits && |table| == Pow2(n)
    requires Filled(table, digits, p, n, reflect, Pow2(n))
    ensures IsTable(table, digits, p, n, reflect)
  {
  }

  /** `make_partial_xor_products_table`: the dividends are counted, the cells filled in mirrored order. */
  method MakePartialXorProductsTable(subOrder: nat, registerLength: nat, truncatedDivisor: Word, reflect: bool)
    returns (table: array<Word>)
    requires 1 <= subOrder <= registerLength <= |truncatedDivisor|
    ensures fresh(table)
    ensures IsTable(table[..], |truncatedDivisor|, truncatedDivisor[..registerLength], subOrder, reflect)
  {
    hide Filled, IsTable, Mask, ReverseIf, ToNat, FromNat, Extend, Pow2;
    var digits := |truncatedDivisor|;
    ghost var p := truncatedDivisor[..registerLength];
    table := new Word[Pow2(subOrder)](_ => Zeros(digits));
    var dividend := 0;
    NothingFilled(table[..], digits, p, subOrder, reflect);
    while dividend < table.Length
      invariant 0 <= dividend <= table.Length
      invariant Filled(table[..], digits, p, subOrder, reflect, dividend)
    {
      var unit := FromNat(dividend, subOrder);
      ToNatFromNat(dividend, subOrder);
      FillCell(table[..], digits, p, unit, reflect);
      StoreMask(table, unit, registerLength, truncatedDivisor, reflect);
      dividend := dividend + 1;
    }
    FilledIsTable(table[..], digits, p, subOrder, reflect);
  }

  /** One turn of the table loop: divide the unit, mirror index and mask, store. */
  method StoreMask(table: array<Word>, unit: Word, registerLength: nat, truncatedDivisor: Word, reflect: bool)
    requires 1 <= |unit| <= registerLength <= |truncatedDivisor|
    requires table.Length == Pow2(|unit|)
    modifies table
    ensures var index := ReverseIf(reflect, unit);
            table[..] == old(table[..])[ToNat(index) :=
              Extend(Mask(index, truncatedDivisor[..registerLength], reflect), |truncatedDivisor|)]
  {
    var digits := |truncatedDivisor|;
    var remainder := Zeros(digits);
    remainder := CrcModuloWordUpdate(registerLength, remainder, unit, truncatedDivisor, |unit|, false);
    assert unit[..|unit|] == unit && Zeros(digits)[..registerLength] == Zeros(registerLength);
    var index := ReflectOptionally(unit, reflect, |unit|);
    assert index == ReverseIf(reflect, unit);
    var mask := ReflectOptionally(remainder, reflect, registerLength);
    table[ToNat(index)] := mask;
  }

  // ----- which division may fill the table -----

  /**
   Plain (augmented) division gives the same masks as the altered one when the
   unit is first placed at the high end of the register and then pushed out by
   as many zero bits.
   */
  lemma {:induction false} AugmentedDivisionGivesSameMasks(v: Stream, p: Word)
    requires |p| >= 1 && |v| <= |p|
    ensures AugRun(AtTop(v, |p|), Zeros(|v|), p) == Run(Zeros(|p|), v, p)
  {
    BlockFoldsIn(Zeros(|p|), v, p);
    assert Xor(Zeros(|p|), AtTop(v, |p|)) == AtTop(v, |p|);
    ZeroRunsAgree(AtTop(v, |p|), |v|, p);
  }

  /** The table that results from just calling the augmented routine instead agrees in every entry. */
  ghost predicate SwappedRoutineGivesSameTable(p: Word, n: nat)
    requires |p| >= 1
  {
    forall v: Stream :: |v| == n ==> AugRun(Zeros(|p|), v, p) == Run(Zeros(|p|), v, p)
  }

  /**
   Calling the augmented routine in place of the altered one, on the same zero
   remainder, gives the same table only for the divisor x^W + 1.
   */
  lemma {:induction false} SwappedRoutineExactly(p: Word, n: nat)
    requires 1 <= n <= |p|
    ensures SwappedRoutineGivesSameTable(p, n) <==> p == OneHot(|p|, 0)
  {
    var w := |p|;
    if SwappedRoutineGivesSameTable(p, n) {
      var one := Zeros(n - 1) + [true];
      AugRunStores(one, p);
      ZeroRunOfZero(n - 1, p);
      assert Step(Zeros(w), true, p) == p;
    }
    if p == OneHot(w, 0) {
      forall v: Stream | |v| == n
        ensures AugRun(Zeros(w), v, p) == Run(Zeros(w), v, p)
      {
        AugRunStores(v, p);
        RotationStores(v, p);
      }
    }
  }

  /** Dividing by x^W + 1 leaves a short message as it is. */
  lemma {:induction false} RotationStores(v: Stream, p: Word)
    requires |p| >= 1 && |v| <= |p| && p == OneHot(|p|, 0)
    ensures Run(Zeros(|p|), v, p) == AtBottom(v, |p|)
  {
    if v != [] {
      var last := |v| - 1;
      RotationStores(v[..last], p);
    }
  }
}

/**
 The bit-serial updates.  A register has |remainder| digits, of which the low
 `registerLength` are significant.
 */
module SerialUpdate {
  import opened Words
  import opened Division
  import opened Reflection

  /** The bits of a word in the order they are read: highest first unless reflected. */
  function InputBits(x: Word, reflect: bool): (m: Stream)
    ensures |m| == |x|
  {
    ReverseIf(!reflect, x)
  }

  /** Reading the lowest remaining bit and shifting walks along the stream. */
  lemma {:induction false} ReadNextBit(bits: Word, m: Stream, i: nat)
    requires 1 <= i <= |m| && i <= |bits| && bits[..i] == m[|m| - i..]
    ensures bits[0] == m[|m| - i]
    ensures Shr(bits, 1)[..i - 1] == m[|m| - i + 1..]
  {
  }

  /** One turn of the unaugmented loop, seen on the low w digits. */
  lemma {:induction false} WordStep(r: Word, bit: bool, poly: Word, w: nat)
    requires 1 <= w <= |r| == |poly|
    ensures var x := Xor(r, Gate(OneHot(|r|, w - 1), bit));
            Xor(Shl(x, 1), Gate(poly, x[w - 1]))[..w] == Step(r[..w], bit, poly[..w])
  {
  }

  /** One turn of the augmented loop, seen on the low w digits. */
  lemma {:induction false} AugWordStep(r: Word, bit: bool, poly: Word, w: nat)
    requires 1 <= w <= |r| == |poly|
    ensures Xor(Or(Shl(r, 1), Gate(OneHot(|r|, 0), bit)), Gate(poly, r[w - 1]))[..w]
         == AugStep(r[..w], bit, poly[..w])
  {
  }

  /** `crc_modulo_word_update`. */
  method CrcModuloWordUpdate(registerLength: nat, remainder: Word, newDividendBits: Word,
                             truncatedDivisor: Word, wordLength: nat, reflect: bool)
    returns (r: Word)
    requires 1 <= registerLength <= |remainder| == |truncatedDivisor|
    requires 1 <= wordLength <= |newDividendBits|
    ensures r == Extend(Run(remainder[..registerLength], InputBits(newDividendBits[..wordLength], reflect),
                            truncatedDivisor[..registerLength]), |remainder|)
  {
    hide Run, AugRun, Step, AugStep, Xor, Or, And, Shl, Shr, Gate, OneHot;
    var digits := |remainder|;
    ghost var p := truncatedDivisor[..registerLength];
    ghost var m := InputBits(newDividendBits[..wordLength], reflect);
    var highBitMask := OneHot(digits, registerLength - 1);
    var bits := ReflectOptionally(newDividendBits, !reflect, wordLength);
    r := remainder;
    RunNothing(remainder[..registerLength], p);
    var i := wordLength;
    while i != 0
      invariant 0 <= i <= wordLength
      invariant |r| == digits && |bits| == |newDividendBits|
      invariant bits[..i] == m[wordLength - i..]
      invariant r[..registerLength] == Run(remainder[..registerLength], m[..wordLength - i], p)
    {
      ReadNextBit(bits, m, i);
      RunExtend(remainder[..registerLength], m, wordLength - i, p);
      WordStep(r, bits[0], truncatedDivisor, registerLength);
      r := Xor(r, Gate(highBitMask, bits[0]));
      MaskTest(r, registerLength - 1);
      var quotient := And(r, highBitMask) != Zeros(digits);
      r := Shl(r, 1);
      r := Xor(r, Gate(truncatedDivisor, quotient));
      i, bits := i - 1, Shr(bits, 1);
    }
    assert m[..wordLength] == m;
    ClearOverflow(r, registerLength);
    r := And(r, Shr(Ones(digits), digits - registerLength));
  }

  lemma {:induction false} ClearOverflow(r: Word, w: nat)
    requires w <= |r|
    ensures And(r, Shr(Ones(|r|), |r| - w)) == Extend(r[..w], |r|)
  {
  }

  /** `crc_modulo_update`: one bit. */
  method CrcModuloUpdate(registerLength: nat, remainder: Word, newDividendBit: bool, truncatedDivisor: Word)
    returns (r: Word)
    requires 1 <= registerLength <= |remainder| == |truncatedDivisor|
    ensures r == Extend(Step(remainder[..registerLength], newDividendBit, truncatedDivisor[..registerLength]),
                        |remainder|)
  {
    r := CrcModuloWordUpdate(registerLength, remainder, [newDividendBit], truncatedDivisor, 1, false);
  }

  /** `augmented_crc_modulo_word_update`: nothing clears the bits that overflow the register. */
  method AugmentedCrcModuloWordUpdate(registerLength: nat, remainder: Word, newDividendBits: Word,
                                      truncatedDivisor: Word, wordLength: nat, reflect: bool)
    returns (r: Word)
    requires 1 <= registerLength <= |remainder| == |truncatedDivisor|
    requires 1 <= wordLength <= |newDividendBits|
    ensures |r| == |remainder|
    ensures r[..registerLength]
         == AugRun(remainder[..registerLength], InputBits(newDividendBits[..wordLength], reflect),
                   truncatedDivisor[..registerLength])
  {
    hide Run, AugRun, Step, AugStep, Xor, Or, And, Shl, Shr, Gate, OneHot;
    var digits := |remainder|;
    ghost var p := truncatedDivisor[..registerLength];
    ghost var m := InputBits(newDividendBits[..wordLength], reflect);
    var highBitMask := OneHot(digits, registerLength - 1);
    var bits := ReflectOptionally(newDividendBits, !reflect, wordLength);
    r := remainder;
    RunNothing(remainder[..registerLength], p);
    var i := wordLength;
    while i != 0
      invariant 0 <= i <= wordLength
      invariant |r| == digits && |bits| == |newDividendBits|
      invariant bits[..i] == m[wordLength - i..]
      invariant r[..registerLength] == AugRun(remainder[..registerLength], m[..wordLength - i], p)
    {
      ReadNextBit(bits, m, i);
      RunExtend(remainder[..registerLength], m, wordLength - i, p);
      AugWordStep(r, bits[0], truncatedDivisor, registerLength);
      MaskTest(r, registerLength - 1);
      var quotient := And(r, highBitMask) != Zeros(digits);
      r := Shl(r, 1);
      r := Or(r, Gate(OneHot(digits, 0), bits[0]));
      r := Xor(r, Gate(truncatedDivisor, quotient));
      i, bits := i - 1, Shr(bits, 1);
    }
    assert m[..wordLength] == m;
  }
}

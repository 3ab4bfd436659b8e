/**
 The augmented-message computation and its relation to the unaugmented one.
 */
module Augmented {
  import opened Words
  import opened Division
  import opened SerialUpdate
  import opened Tables
  import opened TableUpdate
  import opened Computers

  // ----- appending W zero bits -----

  /** A register of the plain division, once W zero bits have followed the message. */
  function Conclude(a: Word, p: Word): (r: Word)
    requires |a| == |p| >= 1
    ensures |r| == |p|
  {
    AugRun(a, Zeros(|p|), p)
  }

  lemma {:induction false} ZeroStepCommutes(a: Word, n: nat, p: Word)
    requires |a| == |p| >= 1
    ensures AugRun(AugStep(a, false, p), Zeros(n), p) == AugStep(AugRun(a, Zeros(n), p), false, p)
  {
    hide AugStep;
    if n > 0 {
      ZeroStepCommutes(a, n - 1, p);
      assert Zeros(n)[..n - 1] == Zeros(n - 1);
    }
  }

  /** x^W leaves the truncated divisor. */
  lemma {:induction false} OneConcludes(p: Word)
    requires |p| >= 1
    ensures Conclude(OneHot(|p|, 0), p) == p
  {
    var w := |p|;
    var one := OneHot(w, 0);
    ZeroRunsAgree(one, w, p);
    ZeroRunShifts(one, w - 1, p);
    assert Zeros(w)[..w] == Zeros(w) && Zeros(w)[..w - 1] == Zeros(w - 1);
  }

  lemma {:induction false} ConcludeGate(bit: bool, p: Word)
    requires |p| >= 1
    ensures Conclude(Gate(OneHot(|p|, 0), bit), p) == Gate(p, bit)
  {
    if bit {
      assert Gate(OneHot(|p|, 0), bit) == OneHot(|p|, 0) && Gate(p, bit) == p;
      OneConcludes(p);
    } else {
      assert Gate(OneHot(|p|, 0), bit) == Zeros(|p|) == Gate(p, bit);
      ZeroRunsAgree(Zeros(|p|), |p|, p);
      ZeroRunOfZero(|p|, p);
    }
  }

  lemma {:induction false} StepSplitsOffBit(a: Word, bit: bool, p: Word)
    requires |a| == |p| >= 1
    ensures AugStep(a, bit, p) == Xor(AugStep(a, false, p), Gate(OneHot(|p|, 0), bit))
    ensures Step(a, bit, p) == Xor(AugStep(a, false, p), Gate(p, bit))
  {
  }

  lemma {:induction false} ConcludeStep(a: Word, bit: bool, p: Word)
    requires |a| == |p| >= 1
    ensures Conclude(AugStep(a, bit, p), p) == Step(Conclude(a, p), bit, p)
  {
    StepSplitsOffBit(a, bit, p);
    ConcludeGate(bit, p);
    ZeroStepCommutes(a, |p|, p);
    AugRunLinear(AugStep(a, false, p), Gate(OneHot(|p|, 0), bit), Zeros(|p|), Zeros(|p|), p);
    assert Xor(Zeros(|p|), Zeros(|p|)) == Zeros(|p|);
  }

  /**
   Dividing a message with W zero bits behind it, from any register a, is
   dividing it without them from the register that a concludes in.
   */
  lemma {:induction false} AugmentedIsUnaugmented(a: Word, m: Stream, p: Word)
    requires |a| == |p| >= 1
    ensures AugRun(a, m + Zeros(|p|), p) == Run(Conclude(a, p), m, p)
  {
    AugRunSplit(a, m, Zeros(|p|), p);
    RunConcludes(a, m, p);
  }

  lemma {:induction false} RunConcludes(a: Word, m: Stream, p: Word)
    requires |a| == |p| >= 1
    ensures Conclude(AugRun(a, m, p), p) == Run(Conclude(a, p), m, p)
  {
    if m != [] {
      var last := |m| - 1;
      RunConcludes(a, m[..last], p);
      ConcludeStep(AugRun(a, m[..last], p), m[last], p);
    }
  }

  /** From a zero remainder both give the same checksum. */
  lemma {:induction false} ZeroStartsAgree(m: Stream, p: Word)
    requires |p| >= 1
    ensures Run(Zeros(|p|), m, p) == AugRun(Zeros(|p|), m + Zeros(|p|), p)
  {
    AugmentedIsUnaugmented(Zeros(|p|), m, p);
    ZeroRunsAgree(Zeros(|p|), |p|, p);
    ZeroRunOfZero(|p|, p);
  }

  // ----- converting an unaugmented initial remainder -----

  /** The register that one zero bit turns into s, when the divisor is odd. */
  function StepBack(s: Word, p: Word): (r: Word)
    requires |s| == |p| >= 1
    ensures |r| == |p|
  {
    var w := |p|;
    seq(w, i requires 0 <= i < w => if i == w - 1 then s[0] else s[i + 1] != (s[0] && p[i + 1]))
  }

  function RunBack(s: Word, n: nat, p: Word): (r: Word)
    requires |s| == |p| >= 1
    ensures |r| == |p|
    decreases n
  {
    if n == 0 then s else RunBack(StepBack(s, p), n - 1, p)
  }

  /** The register from which the augmented division acts as the unaugmented one does from r. */
  function ConvertInitial(r: Word, p: Word): (a: Word)
    requires |r| == |p| >= 1
    ensures |a| == |p|
  {
    RunBack(r, |p|, p)
  }

  lemma {:induction false} StepBackUndoes(s: Word, p: Word)
    requires |s| == |p| >= 1 && p[0]
    ensures Step(StepBack(s, p), false, p) == s
    ensures StepBack(Step(s, false, p), p) == s
  {
  }

  lemma {:induction false} RunBackUndoes(s: Word, n: nat, p: Word)
    requires |s| == |p| >= 1 && p[0]
    ensures Run(RunBack(s, n, p), Zeros(n), p) == s
    decreases n
  {
    if n > 0 {
      RunBackUndoes(StepBack(s, p), n - 1, p);
      assert Zeros(n)[..n] == Zeros(n) && Zeros(n)[..n - 1] == Zeros(n - 1);
    }
  }

  lemma {:induction false} ZeroRunUndone(r: Word, n: nat, p: Word)
    requires |r| == |p| >= 1 && p[0]
    ensures RunBack(Run(r, Zeros(n), p), n, p) == r
    decreases n
  {
    if n > 0 {
      var s := Run(r, Zeros(n - 1), p);
      assert Zeros(n)[..n] == Zeros(n) && Zeros(n)[..n - 1] == Zeros(n - 1);
      StepBackUndoes(s, p);
      ZeroRunUndone(r, n - 1, p);
    }
  }

  /** Every unaugmented initial remainder has an augmented counterpart. */
  ghost predicate Convertible(p: Word)
    requires |p| >= 1
  {
    forall r: Word :: |r| == |p| ==> exists a: Word :: |a| == |p| && Conclude(a, p) == r
  }

  /** For an odd divisor `ConvertInitial` is the conversion, and the only one. */
  lemma {:induction false} ConversionUnique(a: Word, r: Word, p: Word)
    requires |a| == |r| == |p| >= 1 && p[0]
    ensures Conclude(a, p) == r <==> a == ConvertInitial(r, p)
  {
    ZeroRunsAgree(a, |p|, p);
    RunBackUndoes(r, |p|, p);
    ZeroRunUndone(a, |p|, p);
  }

  lemma {:induction false} EvenDivisorMissesOne(a: Word, p: Word)
    requires |a| == |p| >= 1 && !p[0]
    ensures Conclude(a, p) != OneHot(|p|, 0)
  {
    var w := |p|;
    assert !AugStep(AugRun(a, Zeros(w)[..w - 1], p), false, p)[0];
  }

  /**
   The conversion of initial remainders that the header does not provide exists
   for all of them exactly when the divisor has a constant term.
   */
  lemma {:induction false} ConversionExactly(p: Word)
    requires |p| >= 1
    ensures Convertible(p) <==> p[0]
  {
    hide Conclude, ConvertInitial, OneHot;
    var w := |p|;
    if p[0] {
      forall r: Word | |r| == w
        ensures exists a: Word :: |a| == w && Conclude(a, p) == r
      {
        ConversionUnique(ConvertInitial(r, p), r, p);
      }
    } else {
      var one := OneHot(w, 0);
      forall a: Word | |a| == w
        ensures Conclude(a, p) != one
      {
        EvenDivisorMissesOne(a, p);
      }
    }
  }

  // ----- the function augmented_crc -----

  /**
   `augmented_crc`.  It always takes the byte-table update, whose shift by
   W - CHAR_BIT is defined only for registers of at least a byte.
   */
  method AugmentedCrc(w: nat, truncPoly: Word, bytes: seq<Byte>, initialRemainder: Word) returns (s: Word)
    requires BYTE_BITS <= w <= |truncPoly| == |initialRemainder|
    ensures s == Extend(AugRun(initialRemainder[..w], ByteStream(bytes, false), truncPoly[..w]), |truncPoly|)
  {
    var table := MakePartialXorProductsTable(BYTE_BITS, w, truncPoly, false);
    var r := DirectAugmentedCrcUpdate(w, initialRemainder, bytes, table, truncPoly[..w]);
    s := And(r, Shr(Ones(|r|), |r| - w));
  }

  /** The bytes of a word, highest first. */
  function BigEndian(c: Word): (bytes: seq<Byte>)
    requires |c| % BYTE_BITS == 0
    ensures |bytes| == |c| / BYTE_BITS
  {
    if c == [] then [] else BigEndian(c[BYTE_BITS..]) + [c[..BYTE_BITS]]
  }

  lemma {:induction false} BigEndianStream(c: Word)
    requires |c| % BYTE_BITS == 0
    ensures ByteStream(BigEndian(c), false) == Reverse(c)
  {
    if c != [] {
      BigEndianStream(c[BYTE_BITS..]);
    }
  }

  lemma {:induction false} AppendStores(a: Word, m: Stream, c: Word, p: Word)
    requires |a| == |c| == |p| >= 1
    ensures AugRun(a, m + Reverse(c), p) == Xor(AugRun(a, m + Zeros(|p|), p), c)
  {
    AugRunSplit(a, m, Reverse(c), p);
    AugRunSplit(a, m, Zeros(|p|), p);
    AugRunSuperposition(AugRun(a, m, p), Reverse(c), p);
    AugRunStores(Reverse(c), p);
    assert AtBottom(Reverse(c), |p|) == c;
  }

  /**
   A checksum appended in big-endian order: the augmented division then gives
   the zero-extended result XOR the checksum, so it gives zero exactly when the
   checksum is the right one.
   */
  lemma {:induction false} AppendedChecksum(a: Word, message: seq<Byte>, c: Word, p: Word)
    requires |a| == |c| == |p| >= 1 && |p| % BYTE_BITS == 0
    ensures var right := AugRun(a, ByteStream(message + BigEndian(Zeros(|p|)), false), p);
            var check := AugRun(a, ByteStream(message + BigEndian(c), false), p);
            && check == Xor(right, c)
            && (check == Zeros(|p|) <==> c == right)
            && right == Run(Conclude(a, p), ByteStream(message, false), p)
  {
    var m := ByteStream(message, false);
    var right := AugRun(a, ByteStream(message + BigEndian(Zeros(|p|)), false), p);
    ByteStreamSplit(message, BigEndian(c), false);
    ByteStreamSplit(message, BigEndian(Zeros(|p|)), false);
    BigEndianStream(c);
    BigEndianStream(Zeros(|p|));
    assert Reverse(Zeros(|p|)) == Zeros(|p|);
    AppendStores(a, m, c, p);
    AugmentedIsUnaugmented(a, m, p);
    XorVanishes(right, c);
  }

  lemma {:induction false} XorVanishes(a: Word, b: Word)
    requires |a| == |b|
    ensures Xor(a, b) == Zeros(|a|) <==> a == b
  {
    if Xor(a, b) == Zeros(|a|) {
      assert forall i :: 0 <= i < |a| ==> Xor(a, b)[i] == (a[i] != b[i]);
    }
  }
}

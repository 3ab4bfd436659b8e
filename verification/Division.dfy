/**
 The two modulo-2 division steps, as functions on registers of exactly W bits,
 and the algebra they obey.  A stream is a sequence of message bits in the
 order in which they are processed.

 `Run` is the altered division for unaugmented messages, in which a message bit
 meets the high end of the register; `AugRun` is the plain division, in which
 it enters at the low end.  The divisor p is truncated: its x^W term is implied.
 */
module Division {
  import opened Words

  type Stream = seq<bool>

  function Step(r: Word, bit: bool, p: Word): (s: Word)
    requires |r| == |p| >= 1
    ensures |s| == |p|
  {
    Xor(Shl(r, 1), Gate(p, r[|r| - 1] != bit))
  }

  function Run(r: Word, m: Stream, p: Word): (s: Word)
    requires |r| == |p| >= 1
    ensures |s| == |p|
  {
    if m == [] then r else Step(Run(r, m[..|m| - 1], p), m[|m| - 1], p)
  }

  function AugStep(r: Word, bit: bool, p: Word): (s: Word)
    requires |r| == |p| >= 1
    ensures |s| == |p|
  {
    Xor(Shl(r, 1)[0 := bit], Gate(p, r[|r| - 1]))
  }

  function AugRun(r: Word, m: Stream, p: Word): (s: Word)
    requires |r| == |p| >= 1
    ensures |s| == |p|
  {
    if m == [] then r else AugStep(AugRun(r, m[..|m| - 1], p), m[|m| - 1], p)
  }

  // ----- placing stream bits in a register -----

  /** The stream v laid down from the high end of a w-bit register. */
  function AtTop(v: Stream, w: nat): (a: Word)
    ensures |a| == w
  {
    seq(w, i requires 0 <= i < w => w - 1 - i < |v| && v[w - 1 - i])
  }

  /** The stream v shifted in at the low end of a zero w-bit register. */
  function AtBottom(v: Stream, w: nat): (a: Word)
    ensures |a| == w
  {
    seq(w, i requires 0 <= i < w => i < |v| && v[|v| - 1 - i])
  }

  /** The n high-order bits of r, highest first. */
  function TopBits(r: Word, n: nat): (v: Stream)
    requires n <= |r|
    ensures |v| == n
  {
    seq(n, i requires 0 <= i < n => r[|r| - 1 - i])
  }

  // ----- splitting a run -----

  lemma {:induction false} RunNothing(r: Word, p: Word)
    requires |r| == |p| >= 1
    ensures Run(r, [], p) == r == AugRun(r, [], p)
  {
  }

  lemma {:induction false} RunSplit(r: Word, a: Stream, b: Stream, p: Word)
    requires |r| == |p| >= 1
    ensures Run(r, a + b, p) == Run(Run(r, a, p), b, p)
  {
    if b == [] {
      assert a + b == a;
    } else {
      var last := |b| - 1;
      RunSplit(r, a, b[..last], p);
      assert (a + b)[..|a + b| - 1] == a + b[..last];
    }
  }

  lemma {:induction false} AugRunSplit(r: Word, a: Stream, b: Stream, p: Word)
    requires |r| == |p| >= 1
    ensures AugRun(r, a + b, p) == AugRun(AugRun(r, a, p), b, p)
  {
    if b == [] {
      assert a + b == a;
    } else {
      var last := |b| - 1;
      AugRunSplit(r, a, b[..last], p);
      assert (a + b)[..|a + b| - 1] == a + b[..last];
    }
  }

  lemma {:induction false} RunExtend(r: Word, m: Stream, i: nat, p: Word)
    requires |r| == |p| >= 1 && i < |m|
    ensures Run(r, m[..i + 1], p) == Step(Run(r, m[..i], p), m[i], p)
    ensures AugRun(r, m[..i + 1], p) == AugStep(AugRun(r, m[..i], p), m[i], p)
  {
    assert m[..i + 1][..i] == m[..i];
  }

  lemma {:induction false} RunFirst(r: Word, m: Stream, p: Word)
    requires |r| == |p| >= 1 && m != []
    ensures Run(r, m, p) == Run(Step(r, m[0], p), m[1..], p)
  {
    RunSplit(r, m[..1], m[1..], p);
    assert m == m[..1] + m[1..];
  }

  // ----- linearity over XOR -----

  lemma {:induction false} StepLinear(r: Word, s: Word, a: bool, b: bool, p: Word)
    requires |r| == |s| == |p| >= 1
    ensures Step(Xor(r, s), a != b, p) == Xor(Step(r, a, p), Step(s, b, p))
  {
  }

  lemma {:induction false} RunLinear(r: Word, s: Word, m: Stream, n: Stream, p: Word)
    requires |r| == |s| == |p| >= 1 && |m| == |n|
    ensures Run(Xor(r, s), Xor(m, n), p) == Xor(Run(r, m, p), Run(s, n, p))
  {
    if m != [] {
      var last := |m| - 1;
      RunLinear(r, s, m[..last], n[..last], p);
      assert Xor(m, n)[..last] == Xor(m[..last], n[..last]);
      StepLinear(Run(r, m[..last], p), Run(s, n[..last], p), m[last], n[last], p);
    }
  }

  lemma {:induction false} AugStepLinear(r: Word, s: Word, a: bool, b: bool, p: Word)
    requires |r| == |s| == |p| >= 1
    ensures AugStep(Xor(r, s), a != b, p) == Xor(AugStep(r, a, p), AugStep(s, b, p))
  {
  }

  lemma {:induction false} AugRunLinear(r: Word, s: Word, m: Stream, n: Stream, p: Word)
    requires |r| == |s| == |p| >= 1 && |m| == |n|
    ensures AugRun(Xor(r, s), Xor(m, n), p) == Xor(AugRun(r, m, p), AugRun(s, n, p))
  {
    if m != [] {
      var last := |m| - 1;
      AugRunLinear(r, s, m[..last], n[..last], p);
      assert Xor(m, n)[..last] == Xor(m[..last], n[..last]);
      AugStepLinear(AugRun(r, m[..last], p), AugRun(s, n[..last], p), m[last], n[last], p);
    }
  }

  lemma {:induction false} AugRunSuperposition(r: Word, m: Stream, p: Word)
    requires |r| == |p| >= 1
    ensures AugRun(r, m, p) == Xor(AugRun(r, Zeros(|m|), p), AugRun(Zeros(|p|), m, p))
  {
    AugRunLinear(r, Zeros(|p|), Zeros(|m|), m, p);
    assert Xor(r, Zeros(|p|)) == r;
    assert Xor(Zeros(|m|), m) == m;
  }

  // ----- runs over zero bits -----

  /** With no message to add, the two divisions are the same. */
  lemma {:induction false} ZeroRunsAgree(r: Word, n: nat, p: Word)
    requires |r| == |p| >= 1
    ensures AugRun(r, Zeros(n), p) == Run(r, Zeros(n), p)
  {
    if n > 0 {
      ZeroRunsAgree(r, n - 1, p);
      assert Zeros(n)[..n - 1] == Zeros(n - 1);
    }
  }

  lemma {:induction false} ZeroRunOfZero(n: nat, p: Word)
    requires |p| >= 1
    ensures Run(Zeros(|p|), Zeros(n), p) == Zeros(|p|)
  {
    if n > 0 {
      ZeroRunOfZero(n - 1, p);
      assert Zeros(n)[..n - 1] == Zeros(n - 1);
    }
  }

  /** When the n high-order bits are clear, n zero bits only shift. */
  lemma {:induction false} ZeroRunShifts(r: Word, n: nat, p: Word)
    requires |r| == |p| >= 1 && n <= |p|
    requires forall i :: |r| - n <= i < |r| ==> !r[i]
    ensures Run(r, Zeros(n), p) == Shl(r, n)
  {
    if n == 0 {
      assert Shl(r, 0) == r;
    } else {
      ZeroRunShifts(r, n - 1, p);
      assert Zeros(n)[..n - 1] == Zeros(n - 1);
      ShiftOnce(r, n - 1, p);
    }
  }

  lemma {:induction false} ShiftOnce(r: Word, n: nat, p: Word)
    requires |r| == |p| > n && !r[|r| - 1 - n]
    ensures Step(Shl(r, n), false, p) == Shl(r, n + 1)
  {
  }

  // ----- the message folded into the register -----

  lemma {:induction false} FoldStep(r: Word, v: Stream, p: Word)
    requires |r| == |p| >= 1 && 1 <= |v| <= |p|
    ensures Step(Xor(r, AtTop(v, |p|)), false, p) == Xor(Step(r, v[0], p), AtTop(v[1..], |p|))
  {
  }

  /**
   A block of at most W bits may be XORed into the high end of the register
   beforehand: this is what lets the altered division read a message that has
   no zero bits appended.
   */
  lemma {:induction false} BlockFoldsIn(r: Word, v: Stream, p: Word)
    requires |r| == |p| >= 1 && |v| <= |p|
    ensures Run(r, v, p) == Run(Xor(r, AtTop(v, |p|)), Zeros(|v|), p)
    decreases |v|
  {
    hide Step;
    var x := Xor(r, AtTop(v, |p|));
    if v != [] {
      FoldStep(r, v, p);
      BlockFoldsIn(Step(r, v[0], p), v[1..], p);
      RunFirst(r, v, p);
      RunFirst(x, Zeros(|v|), p);
      assert Zeros(|v|)[1..] == Zeros(|v| - 1);
    }
  }

  /** A run of zero bits treats the n high-order bits and the rest separately. */
  lemma {:induction false} ZeroBlockStep(r: Word, n: nat, p: Word)
    requires |r| == |p| >= 1 && n <= |p|
    ensures Run(r, Zeros(n), p) == Xor(Shl(r, n), Run(Zeros(|p|), TopBits(r, n), p))
  {
    var high := AtTop(TopBits(r, n), |p|);
    var low := Xor(r, high);
    BlockFoldsIn(Zeros(|p|), TopBits(r, n), p);
    assert Xor(Zeros(|p|), high) == high;
    assert Xor(low, high) == r;
    assert Xor(Zeros(n), Zeros(n)) == Zeros(n);
    RunLinear(low, high, Zeros(n), Zeros(n), p);
    ZeroRunShifts(low, n, p);
  }

  lemma {:induction false} TopBitsOfFold(r: Word, v: Stream)
    requires |v| <= |r|
    ensures TopBits(Xor(r, AtTop(v, |r|)), |v|) == Xor(TopBits(r, |v|), v)
    ensures Shl(Xor(r, AtTop(v, |r|)), |v|) == Shl(r, |v|)
  {
  }

  /**
   One block step: n bits of the message and the n high-order register bits
   act together, through the remainder that their XOR leaves from zero.
   */
  lemma {:induction false} BlockStep(r: Word, v: Stream, p: Word)
    requires |r| == |p| >= 1 && |v| <= |p|
    ensures Run(r, v, p)
         == Xor(Shl(r, |v|), Run(Zeros(|p|), Xor(TopBits(r, |v|), v), p))
  {
    BlockFoldsIn(r, v, p);
    ZeroBlockStep(Xor(r, AtTop(v, |p|)), |v|, p);
    TopBitsOfFold(r, v);
  }

  /** Starting from zero, the plain division of at most W bits just stores them. */
  lemma {:induction false} AugRunStores(v: Stream, p: Word)
    requires |p| >= 1 && |v| <= |p|
    ensures AugRun(Zeros(|p|), v, p) == AtBottom(v, |p|)
  {
    hide AugStep;
    if v == [] {
      assert Zeros(|p|) == AtBottom(v, |p|);
    } else {
      var last := |v| - 1;
      AugRunStores(v[..last], p);
      StoreBit(v, p);
    }
  }

  lemma {:induction false} StoreBit(v: Stream, p: Word)
    requires 1 <= |v| <= |p|
    ensures AugStep(AtBottom(v[..|v| - 1], |p|), v[|v| - 1], p) == AtBottom(v, |p|)
  {
  }

  /** The block step of the plain division uses the same masks. */
  lemma {:induction false} AugBlockStep(r: Word, v: Stream, p: Word)
    requires |r| == |p| >= 1 && |v| <= |p|
    ensures AugRun(r, v, p)
         == Xor(Xor(Shl(r, |v|), AtBottom(v, |p|)), Run(Zeros(|p|), TopBits(r, |v|), p))
  {
    var n := |v|;
    AugRunSuperposition(r, v, p);
    ZeroRunsAgree(r, n, p);
    AugRunStores(v, p);
    ZeroBlockStep(r, n, p);
    var mask := Run(Zeros(|p|), TopBits(r, n), p);
    assert Xor(Xor(Shl(r, n), mask), AtBottom(v, |p|))
        == Xor(Xor(Shl(r, n), AtBottom(v, |p|)), mask);
  }
}

/**
 Which changes of a message the division is sure to notice.
 */
module ErrorDetection {
  import opened Words
  import opened Division
  import opened Polynomials
  import opened TableUpdate
  import opened Computers
  import opened Augmented

  /** Two runs differ by the run of the difference. */
  lemma {:induction false} DifferenceRun(r: Word, m: Stream, n: Stream, p: Word)
    requires |r| == |p| >= 1 && |m| == |n|
    ensures Run(r, m, p) == Run(r, n, p) <==> Run(Zeros(|p|), Xor(m, n), p) == Zeros(|p|)
  {
    RunLinear(r, r, m, n, p);
    assert Xor(r, r) == Zeros(|p|);
    XorVanishes(Run(r, m, p), Run(r, n, p));
  }

  /**
   A change goes unnoticed exactly when its polynomial, times x^W, is a
   multiple of the divisor.
   */
  lemma {:induction false} UnnoticedExactly(r: Word, m: Stream, n: Stream, p: Word)
    requires |r| == |p| >= 1 && |m| == |n|
    ensures Run(r, m, p) == Run(r, n, p)
       <==> IsRemainder(Dividend(Zeros(|p|), Xor(m, n)), p, Zeros(|p|))
  {
    DifferenceRun(r, m, n, p);
    RunIsTheRemainder(Zeros(|p|), Xor(m, n), p, Zeros(|p|));
  }

  // ----- bursts -----

  /** The streams differ, and only at positions from s up to s + w. */
  ghost predicate IsBurst(m: Stream, n: Stream, s: nat, w: nat) {
    && |m| == |n| && m != n
    && forall i :: 0 <= i < |m| && m[i] != n[i] ==> s <= i < s + w
  }

  ghost predicate DetectsBursts(p: Word)
    requires |p| >= 1
  {
    forall r: Word, m: Stream, n: Stream, s: nat {:trigger Run(r, m, p), IsBurst(m, n, s, |p|)} ::
      |r| == |p| && IsBurst(m, n, s, |p|) ==> Run(r, m, p) != Run(r, n, p)
  }

  lemma {:induction false} ZeroRunKeepsNonzero(r: Word, n: nat, p: Word)
    requires |r| == |p| >= 1 && p[0] && r != Zeros(|p|)
    ensures Run(r, Zeros(n), p) != Zeros(|p|)
  {
    ZeroRunUndone(r, n, p);
    ZeroRunUndone(Zeros(|p|), n, p);
    ZeroRunOfZero(n, p);
  }

  /** A block of at most W bits that are not all zero leaves a remainder. */
  lemma {:induction false} BlockLeavesRemainder(v: Stream, p: Word)
    requires |p| >= 1 && |v| <= |p| && p[0] && v != Zeros(|v|)
    ensures Run(Zeros(|p|), v, p) != Zeros(|p|)
  {
    var i: nat :| i < |v| && v[i];
    var x := AtTop(v, |p|);
    BlockFoldsIn(Zeros(|p|), v, p);
    assert Xor(Zeros(|p|), x) == x;
    assert x[|p| - 1 - i];
    ZeroRunKeepsNonzero(x, |v|, p);
  }

  /** A stream that is zero outside one non-zero block of at most W bits leaves a remainder. */
  lemma {:induction false} PaddedBlock(s: nat, v: Stream, t: nat, p: Word)
    requires |p| >= 1 && |v| <= |p| && p[0] && v != Zeros(|v|)
    ensures Run(Zeros(|p|), Zeros(s) + v + Zeros(t), p) != Zeros(|p|)
  {
    RunSplit(Zeros(|p|), Zeros(s) + v, Zeros(t), p);
    RunSplit(Zeros(|p|), Zeros(s), v, p);
    ZeroRunOfZero(s, p);
    BlockLeavesRemainder(v, p);
    ZeroRunKeepsNonzero(Run(Zeros(|p|), v, p), t, p);
  }

  lemma {:induction false} ClearOutside(m: Stream, n: Stream, s: nat, end: nat)
    requires s <= end <= |m| == |n|
    requires forall i :: 0 <= i < |m| && m[i] != n[i] ==> s <= i < end
    ensures Xor(m, n) == Zeros(s) + Xor(m, n)[s..end] + Zeros(|m| - end)
  {
  }

  lemma {:induction false} DifferenceSeen(m: Stream, n: Stream, s: nat, end: nat, i: nat)
    requires s <= i < end <= |m| == |n| && m[i] != n[i]
    ensures Xor(m, n)[s..end] != Zeros(end - s)
  {
    assert Xor(m, n)[s..end][i - s];
  }

  /** The difference of a burst is such a stream. */
  lemma {:induction false} BurstDifference(m: Stream, n: Stream, s: nat, w: nat) returns (v: Stream, t: nat)
    requires IsBurst(m, n, s, w)
    ensures |v| <= w && v != Zeros(|v|) && Xor(m, n) == Zeros(s) + v + Zeros(t)
  {
    hide Xor, Zeros;
    var i: nat :| i < |m| && m[i] != n[i];
    var end := if s + w <= |m| then s + w else |m|;
    ClearOutside(m, n, s, end);
    DifferenceSeen(m, n, s, end, i);
    v, t := Xor(m, n)[s..end], |m| - end;
  }

  lemma {:induction false} BurstLeavesRemainder(r: Word, m: Stream, n: Stream, s: nat, p: Word)
    requires |r| == |p| >= 1 && p[0] && IsBurst(m, n, s, |p|)
    ensures Run(r, m, p) != Run(r, n, p)
  {
    var v, t := BurstDifference(m, n, s, |p|);
    PaddedBlock(s, v, t, p);
    DifferenceRun(r, m, n, p);
  }

  /** The error pattern of an even divisor: the divisor over x. */
  function EvenPattern(p: Word): (v: Stream)
    requires |p| >= 1
    ensures |v| == |p|
  {
    [true] + Reverse(p[1..])
  }

  lemma {:induction false} EvenPatternVanishes(p: Word)
    requires |p| >= 1 && !p[0]
    ensures Run(Zeros(|p|), EvenPattern(p), p) == Zeros(|p|)
  {
    var w, v := |p|, EvenPattern(p);
    var x := AtTop(v, w);
    BlockFoldsIn(Zeros(w), v, p);
    assert Xor(Zeros(w), x) == x;
    RunFirst(x, Zeros(w), p);
    assert Zeros(w)[1..] == Zeros(w - 1);
    assert Step(x, false, p) == Zeros(w);
    ZeroRunOfZero(w - 1, p);
  }

  /**
   Every burst of at most W bits is detected exactly when the truncated divisor
   is odd.
   */
  lemma {:induction false} BurstDetectionExactly(p: Word)
    requires |p| >= 1
    ensures DetectsBursts(p) <==> p[0]
  {
    if p[0] {
      forall r: Word, m: Stream, n: Stream, s: nat | |r| == |p| && IsBurst(m, n, s, |p|)
        ensures Run(r, m, p) != Run(r, n, p)
      {
        BurstLeavesRemainder(r, m, n, s, p);
      }
    } else {
      var w := |p|;
      var m, n := EvenPattern(p), Zeros(w);
      EvenPatternVanishes(p);
      ZeroRunOfZero(w, p);
      assert m[0] != n[0];
      assert IsBurst(m, n, 0, w);
    }
  }

  // ----- odd numbers of errors -----

  /** Whether the number of bits set is odd. */
  function Parity(a: Word): bool {
    if a == [] then false else Parity(a[..|a| - 1]) != a[|a| - 1]
  }

  lemma {:induction false} ParityXor(a: Word, b: Word)
    requires |a| == |b|
    ensures Parity(Xor(a, b)) == (Parity(a) != Parity(b))
  {
    if a != [] {
      var last := |a| - 1;
      ParityXor(a[..last], b[..last]);
      assert Xor(a, b)[..last] == Xor(a[..last], b[..last]);
    }
  }

  lemma {:induction false} ParityZeros(n: nat)
    ensures !Parity(Zeros(n))
  {
    if n > 0 {
      ParityZeros(n - 1);
      assert Zeros(n)[..n - 1] == Zeros(n - 1);
    }
  }

  lemma {:induction false} ParityPrepend(bit: bool, a: Word)
    ensures Parity([bit] + a) == (bit != Parity(a))
  {
    if a != [] {
      var last := |a| - 1;
      ParityPrepend(bit, a[..last]);
      assert ([bit] + a)[..|a|] == [bit] + a[..last];
    }
  }

  lemma {:induction false} ParityReverse(a: Word)
    ensures Parity(Reverse(a)) == Parity(a)
  {
    if a != [] {
      var last := |a| - 1;
      ParityReverse(a[..last]);
      assert Reverse(a) == [a[last]] + Reverse(a[..last]);
      ParityPrepend(a[last], Reverse(a[..last]));
    }
  }

  /** With x + 1 a factor of the divisor, a step carries the parity of the message along. */
  lemma {:induction false} ParityStep(r: Word, bit: bool, p: Word)
    requires |r| == |p| >= 1 && Parity(p)
    ensures Parity(Step(r, bit, p)) == (Parity(r) != bit)
  {
    var w := |p|;
    var q := r[w - 1] != bit;
    ParityXor(Shl(r, 1), Gate(p, q));
    assert Shl(r, 1) == [false] + r[..w - 1];
    ParityPrepend(false, r[..w - 1]);
    if q {
      assert Gate(p, q) == p;
    } else {
      assert Gate(p, q) == Zeros(w);
      ParityZeros(w);
    }
  }

  lemma {:induction false} ParityRun(r: Word, m: Stream, p: Word)
    requires |r| == |p| >= 1 && Parity(p)
    ensures Parity(Run(r, m, p)) == (Parity(r) != Parity(m))
  {
    if m != [] {
      var last := |m| - 1;
      ParityRun(r, m[..last], p);
      ParityStep(Run(r, m[..last], p), m[last], p);
    }
  }

  ghost predicate DetectsOddErrors(p: Word)
    requires |p| >= 1
  {
    forall r: Word, m: Stream, n: Stream {:trigger Run(r, m, p), Run(r, n, p)} ::
      |r| == |p| && |m| == |n| && Parity(Xor(m, n)) ==> Run(r, m, p) != Run(r, n, p)
  }

  /** The divisor itself, as an error pattern, is not noticed. */
  lemma {:induction false} DivisorVanishes(p: Word)
    requires |p| >= 1
    ensures Run(Zeros(|p|), [true] + Reverse(p), p) == Zeros(|p|)
  {
    var w := |p|;
    var v := Reverse(p);
    RunFirst(Zeros(w), [true] + v, p);
    assert Step(Zeros(w), true, p) == p;
    BlockFoldsIn(p, v, p);
    assert Xor(p, AtTop(v, w)) == Zeros(w);
    ZeroRunOfZero(w, p);
  }

  /**
   Every odd number of flipped bits is detected exactly when the full divisor
   has an even number of terms.
   */
  lemma {:induction false} OddErrorDetectionExactly(p: Word)
    requires |p| >= 1
    ensures DetectsOddErrors(p) <==> Parity(p)
  {
    if Parity(p) {
      forall r: Word, m: Stream, n: Stream | |r| == |p| && |m| == |n| && Parity(Xor(m, n))
        ensures Run(r, m, p) != Run(r, n, p)
      {
        ParityRun(Zeros(|p|), Xor(m, n), p);
        DifferenceRun(r, m, n, p);
      }
    } else {
      var w := |p|;
      var m, n := [true] + Reverse(p), Zeros(w + 1);
      DivisorVanishes(p);
      ZeroRunOfZero(w + 1, p);
      assert Xor(m, n) == m;
      ParityReverse(p);
      ParityPrepend(true, Reverse(p));
    }
  }

  // ----- checksums -----

  lemma {:induction false} XorCancels(a: Word, b: Word, x: Word)
    requires |a| == |b| == |x| && Xor(a, x) == Xor(b, x)
    ensures a == b
  {
    forall i | 0 <= i < |a|
      ensures a[i] == b[i]
    {
      assert Xor(a, x)[i] == Xor(b, x)[i];
    }
  }

  /** Output processing hides no difference. */
  lemma {:induction false} FinishInjective(cfg: Config, r: Word, s: Word)
    requires cfg.Valid() && |r| == |s| == cfg.width && Finish(cfg, r) == Finish(cfg, s)
    ensures r == s
  {
    var w, x := cfg.width, cfg.xorOut[..cfg.width];
    var a, b := ReverseIf(cfg.refRem, r), ReverseIf(cfg.refRem, s);
    assert Finish(cfg, r)[..w] == Xor(a, x) && Finish(cfg, s)[..w] == Xor(b, x);
    XorCancels(a, b, x);
    ReverseInvolution(r);
  }

  lemma {:induction false} ChecksumsDiffer(cfg: Config, a: seq<Byte>, b: seq<Byte>)
    requires cfg.Valid()
    ensures var r := cfg.init[..cfg.width];
            Checksum(cfg, a) == Checksum(cfg, b) <==> Divide(cfg, r, a) == Divide(cfg, r, b)
  {
    var r := cfg.init[..cfg.width];
    if Checksum(cfg, a) == Checksum(cfg, b) {
      FinishInjective(cfg, Divide(cfg, r, a), Divide(cfg, r, b));
    }
  }

  lemma {:induction false} RunsDiffer(cfg: Config, a: seq<Byte>, b: seq<Byte>)
    requires cfg.Valid()
    requires var r, p := cfg.init[..cfg.width], cfg.Divisor();
             Run(r, ByteStream(a, cfg.refIn), p) != Run(r, ByteStream(b, cfg.refIn), p)
    ensures Checksum(cfg, a) != Checksum(cfg, b)
  {
    ChecksumsDiffer(cfg, a, b);
  }

  /** Two messages of one length share a checksum exactly when their difference is a multiple of the divisor. */
  lemma {:induction false} CollisionExactly(cfg: Config, a: seq<Byte>, b: seq<Byte>)
    requires cfg.Valid() && |a| == |b|
    ensures Checksum(cfg, a) == Checksum(cfg, b)
       <==> IsRemainder(Dividend(Zeros(cfg.width), Xor(ByteStream(a, cfg.refIn), ByteStream(b, cfg.refIn))),
                        cfg.Divisor(), Zeros(cfg.width))
  {
    ChecksumsDiffer(cfg, a, b);
    UnnoticedExactly(cfg.init[..cfg.width], ByteStream(a, cfg.refIn), ByteStream(b, cfg.refIn), cfg.Divisor());
  }

  /** The bytes that are read as the given bits. */
  function PackBytes(m: Stream, reflect: bool): (bytes: seq<Byte>)
    requires |m| % BYTE_BITS == 0
    ensures BYTE_BITS * |bytes| == |m|
  {
    if m == [] then []
    else
      var last := |m| - BYTE_BITS;
      PackBytes(m[..last], reflect) + [ReverseIf(!reflect, m[last..])]
  }

  lemma {:induction false} PackedStream(m: Stream, reflect: bool)
    requires |m| % BYTE_BITS == 0
    ensures ByteStream(PackBytes(m, reflect), reflect) == m
  {
    if m != [] {
      var last := |m| - BYTE_BITS;
      PackedStream(m[..last], reflect);
    }
  }

  /** An error pattern that leaves no remainder, padded to whole bytes: two messages with one checksum. */
  lemma {:induction false} PatternCollides(cfg: Config, v: Stream) returns (a: seq<Byte>, b: seq<Byte>)
    requires cfg.Valid() && Run(Zeros(cfg.width), v, cfg.Divisor()) == Zeros(cfg.width)
    ensures ByteStream(a, cfg.refIn) == v + Zeros(7 * |v|) && ByteStream(b, cfg.refIn) == Zeros(8 * |v|)
    ensures Checksum(cfg, a) == Checksum(cfg, b)
  {
    hide Run, Checksum, ByteStream, PackBytes;
    var w, p := cfg.width, cfg.Divisor();
    var m, n := v + Zeros(7 * |v|), Zeros(8 * |v|);
    a, b := PackBytes(m, cfg.refIn), PackBytes(n, cfg.refIn);
    PackedStream(m, cfg.refIn);
    PackedStream(n, cfg.refIn);
    RunSplit(Zeros(w), v, Zeros(7 * |v|), p);
    ZeroRunOfZero(7 * |v|, p);
    assert Xor(m, n) == m;
    DifferenceRun(cfg.init[..w], m, n, p);
    ChecksumsDiffer(cfg, a, b);
  }

  ghost predicate ChecksumDetectsBursts(cfg: Config)
    requires cfg.Valid()
  {
    forall a: seq<Byte>, b: seq<Byte>, s: nat ::
      IsBurst(ByteStream(a, cfg.refIn), ByteStream(b, cfg.refIn), s, cfg.width) ==>
        Checksum(cfg, a) != Checksum(cfg, b)
  }

  /**
   Every burst of at most W bits, in processing order, changes the checksum,
   whatever the start value and the output processing, exactly when the
   truncated divisor is odd.
   */
  lemma {:induction false} ChecksumBurstsExactly(cfg: Config)
    requires cfg.Valid()
    ensures ChecksumDetectsBursts(cfg) <==> cfg.Divisor()[0]
  {
    hide Run, Checksum;
    var r, p := cfg.init[..cfg.width], cfg.Divisor();
    if p[0] {
      forall a: seq<Byte>, b: seq<Byte>, s: nat
        | IsBurst(ByteStream(a, cfg.refIn), ByteStream(b, cfg.refIn), s, cfg.width)
        ensures Checksum(cfg, a) != Checksum(cfg, b)
      {
        BurstLeavesRemainder(r, ByteStream(a, cfg.refIn), ByteStream(b, cfg.refIn), s, p);
        RunsDiffer(cfg, a, b);
      }
    } else {
      var v := EvenPattern(p);
      EvenPatternVanishes(p);
      var a, b := PatternCollides(cfg, v);
      assert ByteStream(a, cfg.refIn)[0] != ByteStream(b, cfg.refIn)[0];
      assert IsBurst(ByteStream(a, cfg.refIn), ByteStream(b, cfg.refIn), 0, cfg.width);
    }
  }

  ghost predicate ChecksumDetectsOddErrors(cfg: Config)
    requires cfg.Valid()
  {
    forall a: seq<Byte>, b: seq<Byte> ::
      |a| == |b| && Parity(Xor(ByteStream(a, cfg.refIn), ByteStream(b, cfg.refIn))) ==>
        Checksum(cfg, a) != Checksum(cfg, b)
  }

  lemma {:induction false} ParityPadded(v: Stream, n: nat)
    ensures Parity(v + Zeros(n)) == Parity(v)
  {
    if n == 0 {
      assert v + Zeros(0) == v;
    } else {
      ParityPadded(v, n - 1);
      assert (v + Zeros(n))[..|v| + n - 1] == v + Zeros(n - 1);
    }
  }

  /**
   Every odd number of flipped message bits changes the checksum exactly when
   the full divisor has an even number of terms.
   */
  lemma {:induction false} ChecksumOddErrorsExactly(cfg: Config)
    requires cfg.Valid()
    ensures ChecksumDetectsOddErrors(cfg) <==> Parity(cfg.Divisor())
  {
    hide Run, Checksum, Divide, IsBurst;
    var p := cfg.Divisor();
    if Parity(p) {
      OddErrorDetectionExactly(p);
      forall a: seq<Byte>, b: seq<Byte>
        | |a| == |b| && Parity(Xor(ByteStream(a, cfg.refIn), ByteStream(b, cfg.refIn)))
        ensures Checksum(cfg, a) != Checksum(cfg, b)
      {
        RunsDiffer(cfg, a, b);
      }
    } else {
      var v := [true] + Reverse(p);
      DivisorVanishes(p);
      var a, b := PatternCollides(cfg, v);
      assert Xor(v + Zeros(7 * |v|), Zeros(8 * |v|)) == v + Zeros(7 * |v|);
      ParityPadded(v, 7 * |v|);
      ParityPrepend(true, Reverse(p));
      ParityReverse(p);
    }
  }
}

/**
 The two CRC computers: `crc_basic`, which feeds single bits to the serial
 division, and `crc_optimal`, which feeds bytes to the table-driven update.
 */
module Computers {
  import opened Words
  import opened Division
  import opened Reflection
  import opened SerialUpdate
  import opened Tables
  import opened TableUpdate

  /**
   The parameters of a CRC formula, with the number of digits of the register
   type.  Up to a byte wide that type is a byte; wider ones have room to spare
   unless the width is that of a built-in type.
   */
  datatype Config = Config(width: nat, digits: nat, poly: Word, init: Word, xorOut: Word,
                           refIn: bool, refRem: bool)
  {
    ghost predicate Valid() {
      && 1 <= width <= digits
      && (width <= BYTE_BITS ==> digits == BYTE_BITS)
      && |poly| == |init| == |xorOut| == digits
    }

    /** The truncated divisor; bits above the width are ignored. */
    ghost function Divisor(): (p: Word)
      requires Valid()
      ensures |p| == width
    {
      poly[..width]
    }
  }

  // ----- reference definitions -----

  /** The remainder, not mirrored, after the bytes. */
  ghost function Divide(cfg: Config, r: Word, bytes: seq<Byte>): (s: Word)
    requires cfg.Valid() && |r| == cfg.width
    ensures |s| == cfg.width
  {
    Run(r, ByteStream(bytes, cfg.refIn), cfg.Divisor())
  }

  /** The output processing of a remainder that is not mirrored. */
  ghost function Finish(cfg: Config, r: Word): (s: Word)
    requires cfg.Valid() && |r| == cfg.width
    ensures |s| == cfg.digits
  {
    Extend(Xor(ReverseIf(cfg.refRem, r), cfg.xorOut[..cfg.width]), cfg.digits)
  }

  /** The checksum the formula defines for a message. */
  ghost function Checksum(cfg: Config, bytes: seq<Byte>): (s: Word)
    requires cfg.Valid()
    ensures |s| == cfg.digits
  {
    Finish(cfg, Divide(cfg, cfg.init[..cfg.width], bytes))
  }

  /** Bit by bit: mirrored on request, XORed with the mask, and nothing above the width. */
  lemma {:induction false} FinishBits(cfg: Config, r: Word)
    requires cfg.Valid() && |r| == cfg.width
    ensures forall i :: 0 <= i < cfg.width ==>
      Finish(cfg, r)[i] == (r[if cfg.refRem then cfg.width - 1 - i else i] != cfg.xorOut[i])
    ensures forall i :: cfg.width <= i < cfg.digits ==> !Finish(cfg, r)[i]
  {
  }

  /** Flipping a bit of the XOR mask flips that bit of every checksum, and no other. */
  lemma {:induction false} MaskBitFlips(cfg: Config, j: nat, bytes: seq<Byte>)
    requires cfg.Valid() && j < cfg.width
    ensures var flipped := cfg.(xorOut := cfg.xorOut[j := !cfg.xorOut[j]]);
            flipped.Valid() && Checksum(flipped, bytes) == Checksum(cfg, bytes)[j := !Checksum(cfg, bytes)[j]]
  {
    hide Divide, Finish;
    var flipped := cfg.(xorOut := cfg.xorOut[j := !cfg.xorOut[j]]);
    var r := Divide(cfg, cfg.init[..cfg.width], bytes);
    SameDivision(cfg, flipped, bytes);
    FinishBits(cfg, r);
    FinishBits(flipped, r);
  }

  /** With a zero mask, switching the output reflection mirrors every checksum. */
  lemma {:induction false} OutputReflectionMirrors(cfg: Config, bytes: seq<Byte>)
    requires cfg.Valid() && cfg.xorOut == Zeros(cfg.digits)
    ensures var switched := cfg.(refRem := !cfg.refRem);
            switched.Valid() && Checksum(switched, bytes) == ReflectLow(Checksum(cfg, bytes), cfg.width)
  {
    hide Divide, Finish;
    var switched := cfg.(refRem := !cfg.refRem);
    var r := Divide(cfg, cfg.init[..cfg.width], bytes);
    SameDivision(cfg, switched, bytes);
    FinishBits(cfg, r);
    FinishBits(switched, r);
    ReflectLowSwaps(Finish(cfg, r), cfg.width);
    forall i | 0 <= i < cfg.digits
      ensures Finish(switched, r)[i] == ReflectLow(Finish(cfg, r), cfg.width)[i]
    {
      if i < cfg.width {
        assert ReflectLow(Finish(cfg, r), cfg.width)[i] == Finish(cfg, r)[cfg.width - 1 - i];
      }
    }
  }

  /** The division does not depend on the output processing. */
  lemma {:induction false} SameDivision(cfg: Config, other: Config, bytes: seq<Byte>)
    requires cfg.Valid() && other.Valid()
    requires other == cfg.(xorOut := other.xorOut, refRem := other.refRem)
    ensures Checksum(other, bytes) == Finish(other, Divide(cfg, cfg.init[..cfg.width], bytes))
  {
  }

  /** Both computers clear the bits above the width when they give a result. */
  lemma {:induction false} MaskResult(x: Word, y: Word, w: nat)
    requires w <= |x| == |y|
    ensures And(Xor(x, y), Shr(Ones(|x|), |x| - w)) == Extend(Xor(x[..w], y[..w]), |x|)
    ensures And(x, Shr(Ones(|x|), |x| - w)) == Extend(x[..w], |x|)
  {
  }

  /** The highest bit of the shifted byte is the next one to read. */
  lemma {:induction false} NextHighBit(bits: Byte, n: nat, i: nat)
    requires 1 <= i <= n <= BYTE_BITS
    ensures Shl(bits, BYTE_BITS - i)[BYTE_BITS - 1] == InputBits(bits[..n], false)[n - i]
    ensures Shl(Shl(bits, BYTE_BITS - i), 1) == Shl(bits, BYTE_BITS - (i - 1))
  {
  }

  // ----- crc_basic -----

  class CrcBasic {
    const width: nat
    const digits: nat
    var rem: Word
    var poly: Word
    var init: Word
    var final: Word
    var rftIn: bool
    var rftOut: bool

    ghost function Cfg(): Config
      reads this
    {
      Config(width, digits, poly, init, final, rftIn, rftOut)
    }

    ghost predicate Valid()
      reads this
    {
      Cfg().Valid() && |rem| == digits
    }

    ghost function Remainder(): (r: Word)
      reads this
      requires Valid()
      ensures |r| == width
    {
      rem[..width]
    }

    constructor (cfg: Config)
      requires cfg.Valid()
      ensures Valid() && Cfg() == cfg && rem == cfg.init
    {
      width, digits := cfg.width, cfg.digits;
      rem, poly, init, final := cfg.init, cfg.poly, cfg.init, cfg.xorOut;
      rftIn, rftOut := cfg.refIn, cfg.refRem;
    }

    method GetInterimRemainder() returns (r: Word)
      requires Valid()
      ensures r == Extend(Remainder(), digits)
    {
      r := And(rem, Shr(Ones(digits), digits - width));
    }

    method Reset(newRem: Word)
      requires Valid() && |newRem| == digits
      modifies this`rem
      ensures Valid() && rem == newRem
    {
      rem := newRem;
    }

    method ResetToInitial()
      requires Valid()
      modifies this`rem
      ensures Valid() && rem == init
    {
      Reset(init);
    }

    method ProcessBit(bit: bool)
      requires Valid()
      modifies this`rem
      ensures Valid() && Remainder() == Step(old(Remainder()), bit, poly[..width])
    {
      rem := CrcModuloUpdate(width, rem, bit, poly);
    }

    /** The low bits of a byte, highest first, whatever the input reflection. */
    method ProcessBits(bits: Byte, bitLength: nat)
      requires Valid() && 1 <= bitLength <= BYTE_BITS
      modifies this`rem
      ensures Valid() && Remainder() == Run(old(Remainder()), InputBits(bits[..bitLength], false), poly[..width])
    {
      hide Run, Shl, InputBits, And, OneHot, Step;
      ghost var start, m := Remainder(), InputBits(bits[..bitLength], false);
      var byte := Shl(bits, BYTE_BITS - bitLength);
      var highBitMask := OneHot(BYTE_BITS, BYTE_BITS - 1);
      var i := bitLength;
      RunNothing(start, poly[..width]);
      while i > 0
        invariant 0 <= i <= bitLength && |byte| == BYTE_BITS && Valid()
        invariant byte == Shl(bits, BYTE_BITS - i)
        invariant Remainder() == Run(start, m[..bitLength - i], poly[..width])
      {
        MaskTest(byte, BYTE_BITS - 1);
        NextHighBit(bits, bitLength, i);
        RunExtend(start, m, bitLength - i, poly[..width]);
        ProcessBit(And(byte, highBitMask) != Zeros(BYTE_BITS));
        byte := Shl(byte, 1);
        i := i - 1;
      }
      assert m[..bitLength] == m;
    }

    method ProcessByte(byte: Byte)
      requires Valid()
      modifies this`rem
      ensures Valid() && Remainder() == Run(old(Remainder()), InputBits(byte, rftIn), poly[..width])
    {
      var b := byte;
      if rftIn {
        b := ReflectByte(byte);
        ReverseInvolution(byte);
      }
      assert b[..BYTE_BITS] == b;
      ProcessBits(b, BYTE_BITS);
    }

    /** The bytes of a buffer from one position up to another. */
    method ProcessBlock(buffer: seq<Byte>, begin: nat, end: nat)
      requires Valid() && begin <= end <= |buffer|
      modifies this`rem
      ensures Valid() && Remainder() == Divide(Cfg(), old(Remainder()), buffer[begin..end])
    {
      hide Run, InputBits;
      ghost var start, block, d := Remainder(), buffer[begin..end], poly[..width];
      var p := begin;
      RunNothing(start, d);
      while p < end
        invariant begin <= p <= end && Valid()
        invariant Remainder() == Run(start, ByteStream(block[..p - begin], rftIn), d)
      {
        ByteStreamExtend(block, p - begin, rftIn);
        RunSplit(start, ByteStream(block[..p - begin], rftIn), InputBits(buffer[p], rftIn), d);
        ProcessByte(buffer[p]);
        p := p + 1;
      }
      assert block[..end - begin] == block;
    }

    method ProcessBytes(bytes: seq<Byte>)
      requires Valid()
      modifies this`rem
      ensures Valid() && Remainder() == Divide(Cfg(), old(Remainder()), bytes)
    {
      ProcessBlock(bytes, 0, |bytes|);
      assert bytes[0..|bytes|] == bytes;
    }

    method Checksum() returns (s: Word)
      requires Valid()
      ensures |s| == digits
      ensures forall i :: 0 <= i < width ==>
        s[i] == (Remainder()[if rftOut then width - 1 - i else i] != final[i])
      ensures forall i :: width <= i < digits ==> !s[i]
      ensures s == Finish(Cfg(), Remainder())
    {
      FinishBits(Cfg(), Remainder());
      var x := rem;
      if rftOut {
        x := ReflectUnsigned(rem, width);
      }
      s := And(Xor(x, final), Shr(Ones(digits), digits - width));
    }
  }

  // ----- crc_optimal -----

  /** Whether bits above the width of a start remainder stay in the register and move down into it. */
  predicate KeepsHighBits(cfg: Config) {
    cfg.refIn && cfg.width > BYTE_BITS
  }

  /** Bits above the width of a start remainder are absent, or of no effect. */
  ghost predicate SafeStart(cfg: Config, start: Word)
    requires cfg.Valid() && |start| == cfg.digits
  {
    KeepsHighBits(cfg) ==> start[cfg.width..] == Zeros(cfg.digits - cfg.width)
  }

  /** The register `crc_optimal` sets up for a start remainder. */
  ghost function StartRegister(cfg: Config, start: Word): (rem: Word)
    requires cfg.Valid() && |start| == cfg.digits
    ensures |rem| == cfg.digits
  {
    ReverseIf(cfg.refIn, start[..cfg.width])
      + if cfg.refIn && !KeepsHighBits(cfg) then Zeros(cfg.digits - cfg.width) else start[cfg.width..]
  }

  lemma {:induction false} StartRemainder(cfg: Config, start: Word)
    requires cfg.Valid() && |start| == cfg.digits
    ensures var rem := StartRegister(cfg, start);
            && ReverseIf(cfg.refIn, rem[..cfg.width]) == start[..cfg.width]
            && (SafeStart(cfg, rem) <==> SafeStart(cfg, start))
  {
  }

  /** The remainder that `crc_optimal` reaches from any register content. */
  ghost function DivideFast(cfg: Config, rem: Word, bytes: seq<Byte>): (s: Word)
    requires cfg.Valid() && |rem| == cfg.digits
    ensures |s| == cfg.width
  {
    var exact := Divide(cfg, ReverseIf(cfg.refIn, rem[..cfg.width]), bytes);
    if KeepsHighBits(cfg) then
      Xor(exact, Leak(rem, cfg.width, BYTE_BITS * |bytes|, cfg.Divisor()))
    else exact
  }

  lemma {:induction false} LeakFree(rem: Word, w: nat, n: nat, p: Word, r: Word)
    requires 1 <= w == |p| == |r| && w <= |rem| && rem[w..] == Zeros(|rem| - w)
    ensures Leak(rem, w, n, p) == Zeros(w) && Xor(r, Leak(rem, w, n, p)) == r
    ensures Shr(rem, n)[w..] == Zeros(|rem| - w)
  {
    assert BitsAbove(rem, w, n) == Zeros(n);
    ZeroRunsAgree(Zeros(w), n, p);
    ZeroRunOfZero(n, p);
  }

  /** From a safe start the fast division is the division. */
  lemma {:induction false} SafeStartDivides(cfg: Config, rem: Word, bytes: seq<Byte>)
    requires cfg.Valid() && |rem| == cfg.digits && SafeStart(cfg, rem)
    ensures DivideFast(cfg, rem, bytes) == Divide(cfg, ReverseIf(cfg.refIn, rem[..cfg.width]), bytes)
  {
    if KeepsHighBits(cfg) {
      LeakFree(rem, cfg.width, BYTE_BITS * |bytes|, cfg.Divisor(),
               Divide(cfg, ReverseIf(cfg.refIn, rem[..cfg.width]), bytes));
    }
  }

  lemma {:induction false} NarrowRegister(p: Word, r: Word, n: nat, u: Word)
    requires |p| == |r| == |u| == BYTE_BITS
    ensures Xor(u, Leak(r, BYTE_BITS, n, p)) == u
  {
    LeakFree(r, BYTE_BITS, n, p, u);
  }

  /** `crc_driver::crc_update`: the update that the width and the reflection select. */
  method CrcUpdate(cfg: Config, remainder: Word, bytes: seq<Byte>, table: array<Word>) returns (r: Word)
    requires cfg.Valid() && |remainder| == cfg.digits
    requires cfg.width >= BYTE_BITS ==> IsTable(table[..], cfg.digits, cfg.Divisor(), BYTE_BITS, cfg.refIn)
    ensures |r| == cfg.digits
    ensures ReverseIf(cfg.refIn, r[..cfg.width]) == DivideFast(cfg, remainder, bytes)
    ensures KeepsHighBits(cfg) ==> r[cfg.width..] == Shr(remainder, BYTE_BITS * |bytes|)[cfg.width..]
  {
    hide Run, IsTable, ByteStream, Leak, Xor, Shr, Reverse;
    if cfg.width < BYTE_BITS {
      if cfg.refIn {
        r := ReflectedSubByteCrcUpdate(cfg.width, remainder, bytes, cfg.poly);
        ghost var u := Divide(cfg, Reverse(remainder[..cfg.width]), bytes);
        ReverseInvolution(u);
      } else {
        r := DirectSubByteCrcUpdate(cfg.width, remainder, bytes, cfg.poly);
      }
    } else if cfg.refIn {
      r := ReflectedCrcUpdate(cfg.width, remainder, bytes, table, cfg.Divisor());
      if cfg.width == BYTE_BITS {
        NarrowRegister(cfg.Divisor(), remainder, BYTE_BITS * |bytes|,
                       Divide(cfg, Reverse(remainder[..cfg.width]), bytes));
      }
    } else {
      r := DirectCrcUpdate(cfg.width, remainder, bytes, table, cfg.Divisor());
    }
  }

  class CrcOptimal {
    const cfg: Config
    const table: array<Word>
    var rem: Word

    ghost predicate Valid()
      reads this, table
    {
      && cfg.Valid() && |rem| == cfg.digits
      && (cfg.width >= BYTE_BITS ==> IsTable(table[..], cfg.digits, cfg.Divisor(), BYTE_BITS, cfg.refIn))
    }

    /** The remainder, un-mirrored. */
    ghost function Remainder(): (r: Word)
      reads this, table
      requires Valid()
      ensures |r| == cfg.width
    {
      ReverseIf(cfg.refIn, rem[..cfg.width])
    }

    /** The register holds nothing that would move down into the remainder. */
    ghost predicate Clean()
      reads this, table
      requires Valid()
    {
      SafeStart(cfg, rem)
    }

    constructor (cfg: Config, initRem: Word)
      requires cfg.Valid() && |initRem| == cfg.digits
      ensures Valid() && this.cfg == cfg && fresh(table)
      ensures rem == StartRegister(cfg, initRem)
      ensures Remainder() == initRem[..cfg.width] && (Clean() <==> SafeStart(cfg, initRem))
    {
      hide IsTable, Reverse;
      this.cfg := cfg;
      if cfg.width >= BYTE_BITS {
        var t := MakePartialXorProductsTable(BYTE_BITS, cfg.width, cfg.poly, cfg.refIn);
        table := t;
      } else {
        table := new Word[0];
      }
      var r := ReflectQ(cfg.width, cfg.refIn, initRem);
      rem := r;
      StartRemainder(cfg, initRem);
    }

    method GetInterimRemainder() returns (r: Word)
      requires Valid()
      ensures r == Extend(Remainder(), cfg.digits)
    {
      var x := ReflectQ(cfg.width, cfg.refIn, rem);
      r := And(x, Shr(Ones(cfg.digits), cfg.digits - cfg.width));
    }

    method Reset(newRem: Word)
      requires Valid() && |newRem| == cfg.digits
      modifies this`rem
      ensures Valid() && rem == StartRegister(cfg, newRem)
      ensures Remainder() == newRem[..cfg.width] && (Clean() <==> SafeStart(cfg, newRem))
    {
      hide IsTable, Reverse;
      rem := ReflectQ(cfg.width, cfg.refIn, newRem);
      StartRemainder(cfg, newRem);
    }

    /** `reset` without an argument: the initial remainder of the formula. */
    method ResetToInitial()
      requires Valid()
      modifies this`rem
      ensures Valid() && rem == StartRegister(cfg, cfg.init)
      ensures Remainder() == cfg.init[..cfg.width] && (Clean() <==> SafeStart(cfg, cfg.init))
    {
      Reset(cfg.init);
    }

    method ProcessByte(byte: Byte)
      requires Valid()
      modifies this`rem
      ensures Valid() && Remainder() == DivideFast(cfg, old(rem), [byte])
      ensures KeepsHighBits(cfg) ==> rem[cfg.width..] == Shr(old(rem), BYTE_BITS)[cfg.width..]
      ensures old(Clean()) ==> Clean() && Remainder() == Divide(cfg, old(Remainder()), [byte])
    {
      ProcessBytes([byte]);
    }

    method ProcessBlock(buffer: seq<Byte>, begin: nat, end: nat)
      requires Valid() && begin <= end <= |buffer|
      modifies this`rem
      ensures Valid() && Remainder() == DivideFast(cfg, old(rem), buffer[begin..end])
      ensures KeepsHighBits(cfg) ==>
        rem[cfg.width..] == Shr(old(rem), BYTE_BITS * (end - begin))[cfg.width..]
      ensures old(Clean()) ==> Clean() && Remainder() == Divide(cfg, old(Remainder()), buffer[begin..end])
    {
      ProcessBytes(buffer[begin..end]);
    }

    method ProcessBytes(bytes: seq<Byte>)
      requires Valid()
      modifies this`rem
      ensures Valid() && Remainder() == DivideFast(cfg, old(rem), bytes)
      ensures KeepsHighBits(cfg) ==>
        rem[cfg.width..] == Shr(old(rem), BYTE_BITS * |bytes|)[cfg.width..]
      ensures old(Clean()) ==> Clean() && Remainder() == Divide(cfg, old(Remainder()), bytes)
    {
      hide DivideFast, Divide, IsTable, Shr;
      ghost var before := rem;
      rem := CrcUpdate(cfg, rem, bytes, table);
      if SafeStart(cfg, before) {
        SafeStartDivides(cfg, before, bytes);
        if KeepsHighBits(cfg) {
          LeakFree(before, cfg.width, BYTE_BITS * |bytes|, cfg.Divisor(), before[..cfg.width]);
        }
      }
    }

    method Checksum() returns (s: Word)
      requires Valid()
      ensures |s| == cfg.digits
      ensures forall i :: 0 <= i < cfg.width ==>
        s[i] == (Remainder()[if cfg.refRem then cfg.width - 1 - i else i] != cfg.xorOut[i])
      ensures forall i :: cfg.width <= i < cfg.digits ==> !s[i]
      ensures s == Finish(cfg, Remainder())
    {
      FinishBits(cfg, Remainder());
      var x := ReflectQ(cfg.width, cfg.refRem != cfg.refIn, rem);
      MaskResult(x, cfg.xorOut, cfg.width);
      s := And(Xor(x, cfg.xorOut), Shr(Ones(cfg.digits), cfg.digits - cfg.width));
    }
  }
}

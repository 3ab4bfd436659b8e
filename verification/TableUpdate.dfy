/**
 The byte-fed updates of `crc_driver`: table-driven in direct and in mirrored
 registers, and bit-serial when the register is narrower than a byte.
 */
module TableUpdate {
  import opened Words
  import opened Division
  import opened Reflection
  import opened SerialUpdate
  import opened Tables

  /** The message bits of a byte sequence, in processing order. */
  function ByteStream(bytes: seq<Byte>, reflect: bool): (m: Stream)
    ensures |m| == BYTE_BITS * |bytes|
  {
    if bytes == [] then []
    else ByteStream(bytes[..|bytes| - 1], reflect) + InputBits(bytes[|bytes| - 1], reflect)
  }

  lemma {:induction false} ByteStreamSplit(a: seq<Byte>, b: seq<Byte>, reflect: bool)
    ensures ByteStream(a + b, reflect) == ByteStream(a, reflect) + ByteStream(b, reflect)
  {
    if b == [] {
      assert a + b == a;
    } else {
      var last := |b| - 1;
      ByteStreamSplit(a, b[..last], reflect);
      assert (a + b)[..|a + b| - 1] == a + b[..last];
    }
  }

  lemma {:induction false} ByteStreamExtend(bytes: seq<Byte>, i: nat, reflect: bool)
    requires i < |bytes|
    ensures ByteStream(bytes[..i + 1], reflect) == ByteStream(bytes[..i], reflect) + InputBits(bytes[i], reflect)
  {
    assert bytes[..i + 1][..i] == bytes[..i];
  }

  /** Bytes in order, and within a byte the highest bit first unless reflected. */
  lemma {:induction false} ByteStreamOrder(bytes: seq<Byte>, reflect: bool, i: nat, j: nat)
    requires i < |bytes| && j < BYTE_BITS
    ensures ByteStream(bytes, reflect)[BYTE_BITS * i + j] == bytes[i][if reflect then j else BYTE_BITS - 1 - j]
  {
    if i < |bytes| - 1 {
      ByteStreamOrder(bytes[..|bytes| - 1], reflect, i, j);
    }
  }

  // ----- direct registers -----

  lemma {:induction false} DirectIndex(r: Word, w: nat, byte: Byte)
    requires BYTE_BITS <= w <= |r|
    ensures Reverse(Xor(Shr(r, w - BYTE_BITS)[..BYTE_BITS], byte)) == Xor(TopBits(r[..w], BYTE_BITS), Reverse(byte))
    ensures Shl(r, BYTE_BITS)[..w] == Shl(r[..w], BYTE_BITS)
  {
  }

  /** Reading the table of a direct register. */
  lemma {:induction false} DirectEntry(table: seq<Word>, digits: nat, p: Word, index: Byte)
    requires 1 <= |p| <= digits && IsTable(table, digits, p, BYTE_BITS, false)
    ensures ToNat(index) < |table| && |table[ToNat(index)]| == digits
    ensures table[ToNat(index)][..|p|] == Run(Zeros(|p|), Reverse(index), p)
  {
  }

  lemma {:induction false} DirectByteStep(r: Word, w: nat, byte: Byte, entry: Word, p: Word)
    requires BYTE_BITS <= w <= |r| == |entry| && |p| == w
    requires entry[..w] == Run(Zeros(w), Reverse(Xor(Shr(r, w - BYTE_BITS)[..BYTE_BITS], byte)), p)
    ensures Xor(Shl(r, BYTE_BITS), entry)[..w] == Run(r[..w], Reverse(byte), p)
  {
    BlockStep(r[..w], Reverse(byte), p);
    DirectIndex(r, w, byte);
  }

  lemma {:induction false} DirectLoopStep(start: Word, bytes: seq<Byte>, i: nat, r: Word, w: nat,
                                          table: seq<Word>, p: Word)
    requires BYTE_BITS <= w == |p| == |start| && w <= |r| && i < |bytes|
    requires IsTable(table, |r|, p, BYTE_BITS, false)
    requires r[..w] == Run(start, ByteStream(bytes[..i], false), p)
    ensures var index := Xor(Shr(r, w - BYTE_BITS)[..BYTE_BITS], bytes[i]);
            && ToNat(index) < |table| && |table[ToNat(index)]| == |r|
            && Xor(Shl(r, BYTE_BITS), table[ToNat(index)])[..w] == Run(start, ByteStream(bytes[..i + 1], false), p)
  {
    hide Run, AugRun, Xor, Or, Shl, Shr, Reverse, ToNat, IsTable;
    var index := Xor(Shr(r, w - BYTE_BITS)[..BYTE_BITS], bytes[i]);
    DirectEntry(table, |r|, p, index);
    DirectByteStep(r, w, bytes[i], table[ToNat(index)], p);
    ByteStreamExtend(bytes, i, false);
    RunSplit(start, ByteStream(bytes[..i], false), Reverse(bytes[i]), p);
  }

  /** `direct_byte_table_driven_crcs::crc_update`. */
  method DirectCrcUpdate(w: nat, remainder: Word, bytes: seq<Byte>, table: array<Word>, ghost p: Word)
    returns (r: Word)
    requires BYTE_BITS <= w <= |remainder| && |p| == w
    requires IsTable(table[..], |remainder|, p, BYTE_BITS, false)
    ensures |r| == |remainder|
    ensures r[..w] == Run(remainder[..w], ByteStream(bytes, false), p)
  {
    hide Run, AugRun, Xor, Or, Shl, Shr, Reverse, ToNat, IsTable;
    r := remainder;
    RunNothing(remainder[..w], p);
    var i := 0;
    while i < |bytes|
      invariant 0 <= i <= |bytes| && |r| == |remainder|
      invariant r[..w] == Run(remainder[..w], ByteStream(bytes[..i], false), p)
    {
      DirectLoopStep(remainder[..w], bytes, i, r, w, table[..], p);
      var index := Xor(Shr(r, w - BYTE_BITS)[..BYTE_BITS], bytes[i]);
      r := Shl(r, BYTE_BITS);
      r := Xor(r, table[ToNat(index)]);
      i := i + 1;
    }
    assert bytes[..|bytes|] == bytes;
  }

  lemma {:induction false} ShiftInByte(r: Word, w: nat, byte: Byte)
    requires BYTE_BITS <= w <= |r|
    ensures Or(Shl(r, BYTE_BITS), Extend(byte, |r|))[..w]
         == Xor(Shl(r[..w], BYTE_BITS), AtBottom(Reverse(byte), w))
    ensures Reverse(Shr(r, w - BYTE_BITS)[..BYTE_BITS]) == TopBits(r[..w], BYTE_BITS)
  {
  }

  lemma {:induction false} DirectAugmentedByteStep(r: Word, w: nat, byte: Byte, entry: Word, p: Word)
    requires BYTE_BITS <= w <= |r| == |entry| && |p| == w
    requires entry[..w] == Run(Zeros(w), Reverse(Shr(r, w - BYTE_BITS)[..BYTE_BITS]), p)
    ensures Xor(Or(Shl(r, BYTE_BITS), Extend(byte, |r|)), entry)[..w] == AugRun(r[..w], Reverse(byte), p)
  {
    ShiftInByte(r, w, byte);
    AugBlockStep(r[..w], Reverse(byte), p);
  }

  lemma {:induction false} DirectAugmentedLoopStep(start: Word, bytes: seq<Byte>, i: nat, r: Word, w: nat,
                                                   table: seq<Word>, p: Word)
    requires BYTE_BITS <= w == |p| == |start| && w <= |r| && i < |bytes|
    requires IsTable(table, |r|, p, BYTE_BITS, false)
    requires r[..w] == AugRun(start, ByteStream(bytes[..i], false), p)
    ensures var index := Shr(r, w - BYTE_BITS)[..BYTE_BITS];
            && ToNat(index) < |table| && |table[ToNat(index)]| == |r|
            && Xor(Or(Shl(r, BYTE_BITS), Extend(bytes[i], |r|)), table[ToNat(index)])[..w]
                 == AugRun(start, ByteStream(bytes[..i + 1], false), p)
  {
    hide Run, AugRun, Xor, Or, Shl, Shr, Reverse, ToNat, IsTable;
    var index := Shr(r, w - BYTE_BITS)[..BYTE_BITS];
    DirectEntry(table, |r|, p, index);
    DirectAugmentedByteStep(r, w, bytes[i], table[ToNat(index)], p);
    ByteStreamExtend(bytes, i, false);
    AugRunSplit(start, ByteStream(bytes[..i], false), Reverse(bytes[i]), p);
  }

  /** `direct_byte_table_driven_crcs::augmented_crc_update`. */
  method DirectAugmentedCrcUpdate(w: nat, remainder: Word, bytes: seq<Byte>, table: array<Word>, ghost p: Word)
    returns (r: Word)
    requires BYTE_BITS <= w <= |remainder| && |p| == w
    requires IsTable(table[..], |remainder|, p, BYTE_BITS, false)
    ensures |r| == |remainder|
    ensures r[..w] == AugRun(remainder[..w], ByteStream(bytes, false), p)
  {
    hide Run, AugRun, Xor, Or, Shl, Shr, Reverse, ToNat, IsTable;
    r := remainder;
    RunNothing(remainder[..w], p);
    var i := 0;
    while i < |bytes|
      invariant 0 <= i <= |bytes| && |r| == |remainder|
      invariant r[..w] == AugRun(remainder[..w], ByteStream(bytes[..i], false), p)
    {
      DirectAugmentedLoopStep(remainder[..w], bytes, i, r, w, table[..], p);
      var index := Shr(r, w - BYTE_BITS)[..BYTE_BITS];
      r := Shl(r, BYTE_BITS);
      r := Or(r, Extend(bytes[i], |r|));
      r := Xor(r, table[ToNat(index)]);
      i := i + 1;
    }
    assert bytes[..|bytes|] == bytes;
  }

  // ----- mirrored registers -----

  /** The n bits just above the low w digits, which a mirrored register shifts in. */
  function BitsAbove(r: Word, w: nat, n: nat): (v: Stream)
    ensures |v| == n
  {
    seq(n, i requires i >= 0 => w + i < |r| && r[w + i])
  }

  /** What the bits above position w add to the remainder while n message bits are read. */
  function Leak(r: Word, w: nat, n: nat, p: Word): (l: Word)
    requires |p| == w >= 1
    ensures |l| == w
  {
    AugRun(Zeros(w), BitsAbove(r, w, n), p)
  }

  /** The bits above position w move down as the register r was shifted to s. */
  lemma {:induction false} BitsAboveExtend(r: Word, s: Word, w: nat, n: nat)
    requires |r| == |s| >= w && s[w..] == Shr(r, n)[w..]
    ensures BitsAbove(r, w, n + BYTE_BITS) == BitsAbove(r, w, n) + BitsAbove(s, w, BYTE_BITS)
    ensures Shr(s, BYTE_BITS)[w..] == Shr(r, n + BYTE_BITS)[w..]
  {
    assert forall i :: w <= i < |r| ==> s[i] == s[w..][i - w] == Shr(r, n)[w..][i - w] == Shr(r, n)[i];
  }

  lemma {:induction false} LeakExtends(r: Word, s: Word, w: nat, n: nat, p: Word)
    requires |r| == |s| >= w && s[w..] == Shr(r, n)[w..] && |p| == w >= BYTE_BITS
    ensures Xor(Run(Leak(r, w, n, p), Zeros(BYTE_BITS), p), AtBottom(BitsAbove(s, w, BYTE_BITS), w))
         == Leak(r, w, n + BYTE_BITS, p)
  {
    var junk := BitsAbove(s, w, BYTE_BITS);
    ZeroRunsAgree(Leak(r, w, n, p), BYTE_BITS, p);
    AugRunSuperposition(Leak(r, w, n, p), junk, p);
    AugRunStores(junk, p);
    BitsAboveExtend(r, s, w, n);
    AugRunSplit(Zeros(w), BitsAbove(r, w, n), junk, p);
  }

  lemma {:induction false} XorRegroups(a: Word, b: Word, c: Word)
    requires |a| == |b| == |c|
    ensures Xor(Xor(a, b), c) == Xor(a, Xor(b, c))
    ensures Xor(Xor(a, b), c) == Xor(Xor(a, c), b)
  {
  }

  /** Mirroring turns a right shift into a left shift that takes in the bits from above. */
  lemma {:induction false} MirroredShift(r: Word, w: nat, entry: Word)
    requires BYTE_BITS <= w <= |r| == |entry|
    ensures Reverse(Xor(Shr(r, BYTE_BITS), entry)[..w])
         == Xor(Xor(Shl(Reverse(r[..w]), BYTE_BITS), AtBottom(BitsAbove(r, w, BYTE_BITS), w)), Reverse(entry[..w]))
  {
  }

  lemma {:induction false} MirroredIndexBits(r: Word, w: nat)
    requires BYTE_BITS <= w <= |r|
    ensures TopBits(Reverse(r[..w]), BYTE_BITS) == r[..BYTE_BITS]
  {
  }

  /** Reading the table of a mirrored register. */
  lemma {:induction false} MirroredEntry(table: seq<Word>, digits: nat, p: Word, index: Byte)
    requires 1 <= |p| <= digits && IsTable(table, digits, p, BYTE_BITS, true)
    ensures ToNat(index) < |table| && |table[ToNat(index)]| == digits
    ensures Reverse(table[ToNat(index)][..|p|]) == Run(Zeros(|p|), index, p)
    ensures table[ToNat(index)][|p|..] == Zeros(digits - |p|)
  {
  }

  lemma {:induction false} HighXor(a: Word, b: Word, w: nat)
    requires w <= |a| == |b| && b[w..] == Zeros(|a| - w)
    ensures Xor(a, b)[w..] == a[w..]
  {
  }

  lemma {:induction false} MirroredByteStep(r: Word, w: nat, byte: Byte, entry: Word, p: Word)
    requires BYTE_BITS <= w <= |r| == |entry| && |p| == w
    requires Reverse(entry[..w]) == Run(Zeros(w), Xor(r[..BYTE_BITS], byte), p)
    ensures Reverse(Xor(Shr(r, BYTE_BITS), entry)[..w])
         == Xor(Run(Reverse(r[..w]), byte, p), AtBottom(BitsAbove(r, w, BYTE_BITS), w))
  {
    var u := Reverse(r[..w]);
    BlockStep(u, byte, p);
    MirroredIndexBits(r, w);
    MirroredShift(r, w, entry);
  }

  lemma {:induction false} MirroredLoopStep(start: Word, bytes: seq<Byte>, i: nat, r: Word, w: nat,
                                            table: seq<Word>, p: Word)
    requires BYTE_BITS <= w == |p| && w <= |r| == |start| && i < |bytes|
    requires IsTable(table, |r|, p, BYTE_BITS, true)
    requires Reverse(r[..w]) == Xor(Run(Reverse(start[..w]), ByteStream(bytes[..i], true), p),
                                    Leak(start, w, BYTE_BITS * i, p))
    requires r[w..] == Shr(start, BYTE_BITS * i)[w..]
    ensures var index := Xor(r[..BYTE_BITS], bytes[i]);
            && ToNat(index) < |table| && |table[ToNat(index)]| == |r|
            && var next := Xor(Shr(r, BYTE_BITS), table[ToNat(index)]);
            && Reverse(next[..w]) == Xor(Run(Reverse(start[..w]), ByteStream(bytes[..i + 1], true), p),
                                         Leak(start, w, BYTE_BITS * (i + 1), p))
            && next[w..] == Shr(start, BYTE_BITS * (i + 1))[w..]
  {
    hide Run, AugRun, Xor, Or, Shl, Shr, Reverse, ToNat, IsTable;
    var u, n, byte := Reverse(start[..w]), BYTE_BITS * i, bytes[i];
    var index := Xor(r[..BYTE_BITS], byte);
    MirroredEntry(table, |r|, p, index);
    var entry := table[ToNat(index)];
    MirroredByteStep(r, w, byte, entry, p);
    ByteStreamExtend(bytes, i, true);
    RunSplit(u, ByteStream(bytes[..i], true), byte, p);
    SplitByte(Run(u, ByteStream(bytes[..i], true), p), Leak(start, w, n, p), byte, p);
    LeakExtends(start, r, w, n, p);
    XorRegroups(Run(u, ByteStream(bytes[..i + 1], true), p), Run(Leak(start, w, n, p), Zeros(BYTE_BITS), p),
                AtBottom(BitsAbove(r, w, BYTE_BITS), w));
    BitsAboveExtend(start, r, w, n);
    HighXor(Shr(r, BYTE_BITS), entry, w);
  }

  lemma {:induction false} SplitByte(a: Word, b: Word, byte: Byte, p: Word)
    requires |a| == |b| == |p| >= 1
    ensures Run(Xor(a, b), byte, p) == Xor(Run(a, byte, p), Run(b, Zeros(BYTE_BITS), p))
  {
    RunLinear(a, b, byte, Zeros(BYTE_BITS), p);
    assert Xor(byte, Zeros(BYTE_BITS)) == byte;
  }

  lemma {:induction false} NoLeakYet(r: Word, w: nat, p: Word)
    requires 1 <= w == |p| <= |r|
    ensures Reverse(r[..w]) == Xor(Reverse(r[..w]), Leak(r, w, 0, p))
    ensures Shr(r, 0) == r
    ensures Or([], BitsAbove(r, w, 0)) == []
  {
  }

  /**
   `reflected_byte_table_driven_crcs::crc_update`, for every start register:
   bits above position w enter the remainder as if they were fed, one by one,
   to the augmented division beside the message.
   */
  method ReflectedCrcUpdate(w: nat, remainder: Word, bytes: seq<Byte>, table: array<Word>, ghost p: Word)
    returns (r: Word)
    requires BYTE_BITS <= w <= |remainder| && |p| == w
    requires IsTable(table[..], |remainder|, p, BYTE_BITS, true)
    ensures |r| == |remainder|
    ensures Reverse(r[..w]) == Xor(Run(Reverse(remainder[..w]), ByteStream(bytes, true), p),
                                   Leak(remainder, w, BYTE_BITS * |bytes|, p))
    ensures r[w..] == Shr(remainder, BYTE_BITS * |bytes|)[w..]
  {
    hide Run, AugRun, Xor, Or, Shl, Shr, Reverse, ToNat, IsTable;
    r := remainder;
    var i := 0;
    RunNothing(Reverse(remainder[..w]), p);
    NoLeakYet(remainder, w, p);
    while i < |bytes|
      invariant 0 <= i <= |bytes| && |r| == |remainder|
      invariant Reverse(r[..w]) == Xor(Run(Reverse(remainder[..w]), ByteStream(bytes[..i], true), p),
                                       Leak(remainder, w, BYTE_BITS * i, p))
      invariant r[w..] == Shr(remainder, BYTE_BITS * i)[w..]
    {
      MirroredLoopStep(remainder, bytes, i, r, w, table[..], p);
      var index := Xor(r[..BYTE_BITS], bytes[i]);
      r := Shr(r, BYTE_BITS);
      r := Xor(r, table[ToNat(index)]);
      i := i + 1;
    }
    assert bytes[..|bytes|] == bytes;
  }

  /** ORing a byte in at the high end of a mirrored register. */
  lemma {:induction false} MirroredShiftIn(r: Word, w: nat, byte: Byte, entry: Word)
    requires BYTE_BITS <= w <= |r| == |entry|
    ensures var shifted := Or(Shr(r, BYTE_BITS), Shl(Extend(byte, |r|), w - BYTE_BITS));
            && Reverse(Xor(shifted, entry)[..w])
                 == Xor(Xor(Shl(Reverse(r[..w]), BYTE_BITS), AtBottom(Or(byte, BitsAbove(r, w, BYTE_BITS)), w)),
                        Reverse(entry[..w]))
            && shifted[w..] == Shr(r, BYTE_BITS)[w..]
  {
  }

  lemma {:induction false} MirroredAugmentedLoopStep(start: Word, bytes: seq<Byte>, i: nat, r: Word, w: nat,
                                                     table: seq<Word>, p: Word)
    requires BYTE_BITS <= w == |p| && w <= |r| == |start| && i < |bytes|
    requires IsTable(table, |r|, p, BYTE_BITS, true)
    requires Reverse(r[..w])
          == AugRun(Reverse(start[..w]), Or(ByteStream(bytes[..i], true), BitsAbove(start, w, BYTE_BITS * i)), p)
    requires r[w..] == Shr(start, BYTE_BITS * i)[w..]
    ensures var index := r[..BYTE_BITS];
            && ToNat(index) < |table| && |table[ToNat(index)]| == |r|
            && var next := Xor(Or(Shr(r, BYTE_BITS), Shl(Extend(bytes[i], |r|), w - BYTE_BITS)), table[ToNat(index)]);
            && Reverse(next[..w])
                 == AugRun(Reverse(start[..w]),
                           Or(ByteStream(bytes[..i + 1], true), BitsAbove(start, w, BYTE_BITS * (i + 1))), p)
            && next[w..] == Shr(start, BYTE_BITS * (i + 1))[w..]
  {
    hide Run, AugRun, Xor, Or, Shl, Shr, Reverse, ToNat, IsTable;
    var u, n, byte := Reverse(start[..w]), BYTE_BITS * i, bytes[i];
    MirroredEntry(table, |r|, p, r[..BYTE_BITS]);
    var entry := table[ToNat(r[..BYTE_BITS])];
    MirroredIndexBits(r, w);
    MirroredShiftIn(r, w, byte, entry);
    HighXor(Or(Shr(r, BYTE_BITS), Shl(Extend(byte, |r|), w - BYTE_BITS)), entry, w);
    BitsAboveExtend(start, r, w, n);
    ByteStreamExtend(bytes, i, true);
    OrSplit(ByteStream(bytes[..i], true), byte, BitsAbove(start, w, n), BitsAbove(r, w, BYTE_BITS));
    var fed := Or(byte, BitsAbove(r, w, BYTE_BITS));
    AugBlockStep(Reverse(r[..w]), fed, p);
    AugRunSplit(u, Or(ByteStream(bytes[..i], true), BitsAbove(start, w, n)), fed, p);
  }

  lemma {:induction false} OrSplit(a: Word, b: Word, c: Word, d: Word)
    requires |a| == |c| && |b| == |d|
    ensures Or(a + b, c + d) == Or(a, c) + Or(b, d)
  {
  }

  /**
   `reflected_byte_table_driven_crcs::augmented_crc_update`, for every start
   register: bits above position w are ORed into the message.
   */
  method ReflectedAugmentedCrcUpdate(w: nat, remainder: Word, bytes: seq<Byte>, table: array<Word>, ghost p: Word)
    returns (r: Word)
    requires BYTE_BITS <= w <= |remainder| && |p| == w
    requires IsTable(table[..], |remainder|, p, BYTE_BITS, true)
    ensures |r| == |remainder|
    ensures Reverse(r[..w])
         == AugRun(Reverse(remainder[..w]),
                   Or(ByteStream(bytes, true), BitsAbove(remainder, w, BYTE_BITS * |bytes|)), p)
    ensures r[w..] == Shr(remainder, BYTE_BITS * |bytes|)[w..]
  {
    hide Run, AugRun, Xor, Or, Shl, Shr, Reverse, ToNat, IsTable;
    r := remainder;
    var i := 0;
    RunNothing(Reverse(remainder[..w]), p);
    NoLeakYet(remainder, w, p);
    while i < |bytes|
      invariant 0 <= i <= |bytes| && |r| == |remainder|
      invariant Reverse(r[..w])
             == AugRun(Reverse(remainder[..w]),
                       Or(ByteStream(bytes[..i], true), BitsAbove(remainder, w, BYTE_BITS * i)), p)
      invariant r[w..] == Shr(remainder, BYTE_BITS * i)[w..]
    {
      MirroredAugmentedLoopStep(remainder, bytes, i, r, w, table[..], p);
      var index := r[..BYTE_BITS];
      r := Shr(r, BYTE_BITS);
      r := Or(r, Shl(Extend(bytes[i], |r|), w - BYTE_BITS));
      r := Xor(r, table[ToNat(index)]);
      i := i + 1;
    }
    assert bytes[..|bytes|] == bytes;
  }

  // ----- registers narrower than a byte -----

  /** `direct_sub_byte_crcs::crc_update`. */
  method DirectSubByteCrcUpdate(w: nat, remainder: Byte, bytes: seq<Byte>, poly: Byte) returns (r: Byte)
    requires 1 <= w < BYTE_BITS
    ensures r[..w] == Run(remainder[..w], ByteStream(bytes, false), poly[..w])
  {
    r := SubByteLoop(w, remainder, bytes, poly, false);
  }

  /** The loop both sub-byte updates share. */
  method SubByteLoop(w: nat, remainder: Byte, bytes: seq<Byte>, poly: Byte, reflect: bool) returns (r: Byte)
    requires 1 <= w < BYTE_BITS
    ensures r[..w] == Run(remainder[..w], ByteStream(bytes, reflect), poly[..w])
  {
    hide Run, AugRun, Reverse, ReverseIf, InputBits;
    RunNothing(remainder[..w], poly[..w]);
    r := remainder;
    var i := 0;
    while i < |bytes|
      invariant 0 <= i <= |bytes|
      invariant r[..w] == Run(remainder[..w], ByteStream(bytes[..i], reflect), poly[..w])
    {
      ByteStreamExtend(bytes, i, reflect);
      RunSplit(remainder[..w], ByteStream(bytes[..i], reflect), InputBits(bytes[i], reflect), poly[..w]);
      assert bytes[i][..BYTE_BITS] == bytes[i];
      r := CrcModuloWordUpdate(w, r, bytes[i], poly, BYTE_BITS, reflect);
      i := i + 1;
    }
    assert bytes[..|bytes|] == bytes;
  }

  /** `reflected_sub_byte_crcs::crc_update`: un-mirror, divide, mirror again. */
  method ReflectedSubByteCrcUpdate(w: nat, remainder: Byte, bytes: seq<Byte>, poly: Byte) returns (r: Byte)
    requires 1 <= w < BYTE_BITS
    ensures r == Extend(Reverse(Run(Reverse(remainder[..w]), ByteStream(bytes, true), poly[..w])), BYTE_BITS)
  {
    r := ReflectSubByte(remainder, w);
    r := SubByteLoop(w, r, bytes, poly, true);
    r := ReflectSubByte(r, w);
  }

  /** `direct_sub_byte_crcs::augmented_crc_update`. */
  method DirectSubByteAugmentedCrcUpdate(w: nat, remainder: Byte, bytes: seq<Byte>, poly: Byte) returns (r: Byte)
    requires 1 <= w < BYTE_BITS
    ensures r[..w] == AugRun(remainder[..w], ByteStream(bytes, false), poly[..w])
  {
    r := SubByteAugmentedLoop(w, remainder, bytes, poly, false);
  }

  method SubByteAugmentedLoop(w: nat, remainder: Byte, bytes: seq<Byte>, poly: Byte, reflect: bool)
    returns (r: Byte)
    requires 1 <= w < BYTE_BITS
    ensures r[..w] == AugRun(remainder[..w], ByteStream(bytes, reflect), poly[..w])
  {
    hide Run, AugRun, Reverse, ReverseIf, InputBits;
    RunNothing(remainder[..w], poly[..w]);
    r := remainder;
    var i := 0;
    while i < |bytes|
      invariant 0 <= i <= |bytes|
      invariant r[..w] == AugRun(remainder[..w], ByteStream(bytes[..i], reflect), poly[..w])
    {
      ByteStreamExtend(bytes, i, reflect);
      AugRunSplit(remainder[..w], ByteStream(bytes[..i], reflect), InputBits(bytes[i], reflect), poly[..w]);
      assert bytes[i][..BYTE_BITS] == bytes[i];
      r := AugmentedCrcModuloWordUpdate(w, r, bytes[i], poly, BYTE_BITS, reflect);
      i := i + 1;
    }
    assert bytes[..|bytes|] == bytes;
  }

  /** `reflected_sub_byte_crcs::augmented_crc_update`. */
  method ReflectedSubByteAugmentedCrcUpdate(w: nat, remainder: Byte, bytes: seq<Byte>, poly: Byte) returns (r: Byte)
    requires 1 <= w < BYTE_BITS
    ensures r == Extend(Reverse(AugRun(Reverse(remainder[..w]), ByteStream(bytes, true), poly[..w])), BYTE_BITS)
  {
    r := ReflectSubByte(remainder, w);
    r := SubByteAugmentedLoop(w, r, bytes, poly, true);
    r := ReflectSubByte(r, w);
  }
}

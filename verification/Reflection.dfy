/**
 Bit reflection: the two-ended swap loop, the cached byte table, and the
 partial reflections built on them.
 */
module Reflection {
  import opened Words

  /** x with its n low-order bits in reverse order and the others in place. */
  function ReflectLow(x: Word, n: nat): (r: Word)
    requires n <= |x|
    ensures |r| == |x|
  {
    Reverse(x[..n]) + x[n..]
  }

  /** The word after i rounds of exchanging the outermost of its n low-order bits. */
  ghost predicate OuterSwapped(x: Word, r: Word, n: nat, i: nat)
    requires i <= n <= |x|
  {
    && |r| == |x|
    && (forall k :: 0 <= k < i || n - i <= k < n ==> r[k] == x[n - 1 - k])
    && (forall k :: i <= k < n - i || n <= k < |x| ==> r[k] == x[k])
  }

  lemma {:induction false} AllSwapped(x: Word, r: Word, n: nat, i: nat)
    requires n <= |x| && i <= n && n - 1 - i <= i && 2 * i <= n && OuterSwapped(x, r, n, i)
    ensures r == ReflectLow(x, n)
  {
  }

  /**
   The masked word equals one of the two masks exactly when the masked bits
   differ; flipping both then exchanges them.
   */
  lemma {:induction false} MaskedSwap(r: Word, i: nat, j: nat)
    requires i < |r| && j < |r| && i != j
    ensures var h, l := OneHot(|r|, i), OneHot(|r|, j);
            var t := And(r, Or(h, l));
            (if t == h || t == l then Xor(r, Or(h, l)) else r) == r[i := r[j]][j := r[i]]
  {
    var h, l := OneHot(|r|, i), OneHot(|r|, j);
    var t := And(r, Or(h, l));
    assert t[i] == r[i] && t[j] == r[j];
    if r[i] && !r[j] { assert t == h; }
    if r[j] && !r[i] { assert t == l; }
  }

  lemma {:induction false} SwapRound(x: Word, r: Word, n: nat, i: nat)
    requires n <= |x| && i < n - 1 - i && OuterSwapped(x, r, n, i)
    ensures var m := Or(OneHot(|x|, n - 1 - i), OneHot(|x|, i));
            var t := And(r, m);
            OuterSwapped(x, if t == OneHot(|x|, n - 1 - i) || t == OneHot(|x|, i) then Xor(r, m) else r, n, i + 1)
  {
    MaskedSwap(r, n - 1 - i, i);
  }

  /** `reflect_unsigned`: swap the bits under two masks that walk towards each other. */
  method ReflectUnsigned(x: Word, wordLength: nat) returns (r: Word)
    requires 1 <= wordLength <= |x|
    ensures r == ReflectLow(x, wordLength)
  {
    hide ToNat, And, Or, Xor, Shr;
    var n := |x|;
    r := x;
    var l := OneHot(n, 0);
    var h := Shl(l, wordLength - 1);
    ghost var i := 0;
    while ToNat(h) > ToNat(l)
      invariant 0 <= i < wordLength && 2 * i <= wordLength
      invariant l == OneHot(n, i) && h == OneHot(n, wordLength - 1 - i)
      invariant OuterSwapped(x, r, wordLength, i)
      decreases wordLength - 2 * i
    {
      MaskOrder(n, wordLength - 1 - i, i);
      SwapRound(x, r, wordLength, i);
      var m := Or(h, l);
      var t := And(r, m);
      if t == h || t == l {
        r := Xor(r, m);
      }
      MaskWalk(n, wordLength - 1 - i, i);
      h, l := Shr(h, 1), Shl(l, 1);
      i := i + 1;
    }
    MaskOrder(n, wordLength - 1 - i, i);
    AllSwapped(x, r, wordLength, i);
  }

  /** Masks compare as their positions do. */
  lemma {:induction false} MaskOrder(n: nat, i: nat, j: nat)
    requires i < n && j < n
    ensures ToNat(OneHot(n, i)) > ToNat(OneHot(n, j)) <==> i > j
  {
    ToNatOneHot(n, i);
    ToNatOneHot(n, j);
    if i > j { Pow2Monotonic(j, i); }
    if j > i { Pow2Monotonic(i, j); }
  }

  lemma {:induction false} MaskWalk(n: nat, i: nat, j: nat)
    requires 1 <= i < n && j + 1 < n
    ensures Shr(OneHot(n, i), 1) == OneHot(n, i - 1)
    ensures Shl(OneHot(n, j), 1) == OneHot(n, j + 1)
  {
  }

  /**
   Partial reflection sends bit i to n-1-i, leaves the bits from n up alone
   and undoes itself.
   */
  lemma {:induction false} ReflectLowSwaps(x: Word, n: nat)
    requires n <= |x|
    ensures forall i :: 0 <= i < n ==> ReflectLow(x, n)[n - 1 - i] == x[i]
    ensures ReflectLow(x, n)[n..] == x[n..]
    ensures ReflectLow(ReflectLow(x, n), n) == x
  {
  }

  /** `make_byte_reflection_table`: a byte counter runs until it wraps round to 0. */
  method MakeByteReflectionTable() returns (table: array<Byte>)
    ensures table.Length == Pow2(BYTE_BITS)
    ensures forall x: Byte :: table[ToNat(x)] == Reverse(x)
  {
    hide ToNat, FromNat;
    table := new Byte[256](_ => Zeros(BYTE_BITS));
    var i := 0;
    while true
      invariant 0 <= i < 256
      invariant forall x: Byte :: ToNat(x) < i ==> table[ToNat(x)] == Reverse(x)
      decreases 256 - i
    {
      var x := FromNat(i, BYTE_BITS);
      ToNatFromNat(i, BYTE_BITS);
      var y := ReflectUnsigned(x, BYTE_BITS);
      table[i] := y;
      forall z: Byte | ToNat(z) == i
        ensures z == x
      {
        ToNatInjective(z, x);
      }
      i := (i + 1) % 256;
      if i == 0 { break; }
    }
  }

  /** `reflect_byte`. */
  method ReflectByte(x: Byte) returns (r: Byte)
    ensures r == Reverse(x)
  {
    var table := MakeByteReflectionTable();
    r := table[ToNat(x)];
  }

  /** `reflect_sub_byte`: unlike a partial reflection it clears the bits above. */
  method ReflectSubByte(x: Byte, wordLength: nat) returns (r: Byte)
    requires 1 <= wordLength <= BYTE_BITS
    ensures r == Extend(Reverse(x[..wordLength]), BYTE_BITS)
  {
    var y := ReflectByte(x);
    r := Shr(y, BYTE_BITS - wordLength);
  }

  /** `reflect_sub_byte` is `reflect_unsigned` with the higher bits cleared. */
  lemma {:induction false} SubByteClearsHighBits(x: Byte, n: nat)
    requires n <= BYTE_BITS
    ensures Extend(Reverse(x[..n]), BYTE_BITS) == And(ReflectLow(x, n), Shr(Ones(BYTE_BITS), BYTE_BITS - n))
    ensures Extend(Reverse(x[..n]), BYTE_BITS) == ReflectLow(x, n) <==> x[n..] == Zeros(BYTE_BITS - n)
  {
    var r := Extend(Reverse(x[..n]), BYTE_BITS);
    assert r[n..] == Zeros(BYTE_BITS - n);
  }

  /** `reflect_optionally`. */
  method ReflectOptionally(x: Word, reflect: bool, wordLength: nat) returns (r: Word)
    requires 1 <= wordLength <= |x|
    ensures r == if reflect then ReflectLow(x, wordLength) else x
  {
    if reflect {
      r := ReflectUnsigned(x, wordLength);
    } else {
      r := x;
    }
  }

  /**
   `possible_reflector<W, reflect>::reflect_q` on a register of any width:
   up to a byte wide it goes through the byte table, above that through the loop.
   */
  method ReflectQ(w: nat, reflect: bool, x: Word) returns (r: Word)
    requires 1 <= w <= |x| && BYTE_BITS <= |x|
    ensures |r| == |x|
    ensures r[..w] == ReverseIf(reflect, x[..w])
    ensures r[w..] == if reflect && w <= BYTE_BITS then Zeros(|x| - w) else x[w..]
  {
    if !reflect {
      r := x;
    } else if w > BYTE_BITS {
      r := ReflectUnsigned(x, w);
    } else {
      var low := ReflectSubByte(x[..BYTE_BITS], w);
      r := Extend(low, |x|);
    }
  }
}

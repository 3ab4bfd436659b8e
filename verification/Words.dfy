/**
 Unsigned machine words of any number of digits.  Index i of a word holds the
 bit of place value 2^i, so `w[..n]` are its n low-order bits, and a shift
 drops what leaves the word, as it does for a built-in unsigned type.
 */
module Words {
  type Word = seq<bool>

  /** CHAR_BIT. */
  const BYTE_BITS: nat := 8

  type Byte = b: Word | |b| == 8
    witness [false, false, false, false, false, false, false, false]

  function Zeros(n: nat): (w: Word)
    ensures |w| == n
  {
    seq(n, _ => false)
  }

  function Ones(n: nat): (w: Word)
    ensures |w| == n
  {
    seq(n, _ => true)
  }

  /** The mask 1 << i. */
  function OneHot(n: nat, i: nat): (w: Word)
    requires i < n
    ensures |w| == n
  {
    seq(n, j => j == i)
  }

  function Xor(a: Word, b: Word): (w: Word)
    requires |a| == |b|
    ensures |w| == |a|
  {
    seq(|a|, i requires 0 <= i < |a| => a[i] != b[i])
  }

  function And(a: Word, b: Word): (w: Word)
    requires |a| == |b|
    ensures |w| == |a|
  {
    seq(|a|, i requires 0 <= i < |a| => a[i] && b[i])
  }

  function Or(a: Word, b: Word): (w: Word)
    requires |a| == |b|
    ensures |w| == |a|
  {
    seq(|a|, i requires 0 <= i < |a| => a[i] || b[i])
  }

  /** The word itself when the condition holds, zero otherwise. */
  function Gate(a: Word, on: bool): (w: Word)
    ensures |w| == |a|
  {
    seq(|a|, i requires 0 <= i < |a| => on && a[i])
  }

  function Shl(a: Word, k: nat): (w: Word)
    ensures |w| == |a|
  {
    seq(|a|, i requires 0 <= i < |a| => i >= k && a[i - k])
  }

  function Shr(a: Word, k: nat): (w: Word)
    ensures |w| == |a|
  {
    seq(|a|, i requires 0 <= i < |a| => i + k < |a| && a[i + k])
  }

  /** Conversion to a wider unsigned type. */
  function Extend(a: Word, n: nat): (w: Word)
    requires |a| <= n
    ensures |w| == n
  {
    a + Zeros(n - |a|)
  }

  function Reverse(a: Word): (w: Word)
    ensures |w| == |a|
  {
    seq(|a|, i requires 0 <= i < |a| => a[|a| - 1 - i])
  }

  function ReverseIf(reflect: bool, a: Word): (w: Word)
    ensures |w| == |a|
  {
    if reflect then Reverse(a) else a
  }

  function Pow2(n: nat): (p: nat)
    ensures p >= 1
  {
    if n == 0 then 1 else 2 * Pow2(n - 1)
  }

  function ToNat(a: Word): (v: nat)
    ensures v < Pow2(|a|)
  {
    if a == [] then 0 else (if a[0] then 1 else 0) + 2 * ToNat(a[1..])
  }

  function FromNat(v: nat, n: nat): (w: Word)
    ensures |w| == n
  {
    if n == 0 then [] else [v % 2 == 1] + FromNat(v / 2, n - 1)
  }

  lemma {:induction false} ToNatFromNat(v: nat, n: nat)
    requires v < Pow2(n)
    ensures ToNat(FromNat(v, n)) == v
  {
    if n > 0 {
      ToNatFromNat(v / 2, n - 1);
    }
  }

  lemma {:induction false} ToNatInjective(a: Word, b: Word)
    requires |a| == |b| && ToNat(a) == ToNat(b)
    ensures a == b
  {
    if a != [] {
      ToNatInjective(a[1..], b[1..]);
    }
  }

  lemma {:induction false} Pow2Monotonic(i: nat, j: nat)
    requires i < j
    ensures Pow2(i) < Pow2(j)
  {
    if i + 1 < j {
      Pow2Monotonic(i, j - 1);
    }
  }

  lemma {:induction false} ToNatZeros(n: nat)
    ensures ToNat(Zeros(n)) == 0
  {
    if n > 0 {
      ToNatZeros(n - 1);
      assert Zeros(n)[1..] == Zeros(n - 1);
    }
  }

  lemma {:induction false} ToNatOneHot(n: nat, i: nat)
    requires i < n
    ensures ToNat(OneHot(n, i)) == Pow2(i)
  {
    if i == 0 {
      ToNatZeros(n - 1);
      assert OneHot(n, i)[1..] == Zeros(n - 1);
    } else {
      ToNatOneHot(n - 1, i - 1);
      assert OneHot(n, i)[1..] == OneHot(n - 1, i - 1);
    }
  }

  lemma ReverseInvolution(a: Word)
    ensures Reverse(Reverse(a)) == a
  {
  }

  lemma MaskTest(a: Word, i: nat)
    requires i < |a|
    ensures And(a, OneHot(|a|, i)) != Zeros(|a|) <==> a[i]
  {
    if a[i] {
      assert And(a, OneHot(|a|, i))[i];
    }
  }
}

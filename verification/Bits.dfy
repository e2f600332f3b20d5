/** Machine words as sequences of bits.

    A word is written least significant bit first, so `w[i]` is bit `i`.  The CRC code only ever
    xors, shifts and masks its words, and those operations are all defined here bit by bit; no
    arithmetic is done on words.
 */
module Bits {

  type Bits = seq<bool>

  function Zeros(n: nat): (r: Bits)
    ensures |r| == n && forall i :: 0 <= i < n ==> !r[i]
  {
    seq(n, _ => false)
  }

  function Ones(n: nat): (r: Bits)
    ensures |r| == n && forall i :: 0 <= i < n ==> r[i]
  {
    seq(n, _ => true)
  }

  /** The word of width `n` whose only set bit is bit `k`. */
  function Unit(n: nat, k: nat): (r: Bits)
    ensures |r| == n && forall i :: 0 <= i < n ==> r[i] == (i == k)
  {
    seq(n, i => i == k)
  }

  function Xor(a: Bits, b: Bits): (r: Bits)
    requires |a| == |b|
    ensures |r| == |a| && forall i :: 0 <= i < |a| ==> r[i] == (a[i] != b[i])
  {
    seq(|a|, i requires 0 <= i < |a| => a[i] != b[i])
  }

  function And(a: Bits, b: Bits): (r: Bits)
    requires |a| == |b|
    ensures |r| == |a| && forall i :: 0 <= i < |a| ==> r[i] == (a[i] && b[i])
  {
    seq(|a|, i requires 0 <= i < |a| => a[i] && b[i])
  }

  function Or(a: Bits, b: Bits): (r: Bits)
    requires |a| == |b|
    ensures |r| == |a| && forall i :: 0 <= i < |a| ==> r[i] == (a[i] || b[i])
  {
    seq(|a|, i requires 0 <= i < |a| => a[i] || b[i])
  }

  /** `a >> k` on a word of fixed width. */
  function Shr(a: Bits, k: nat): (r: Bits)
    requires k <= |a|
    ensures |r| == |a|
  {
    a[k..] + Zeros(k)
  }

  /** `a << k` on a word of fixed width: the top `k` bits are lost. */
  function Shl(a: Bits, k: nat): (r: Bits)
    requires k <= |a|
    ensures |r| == |a|
  {
    Zeros(k) + a[..|a| - k]
  }

  /** Zero extension to width `n`. */
  function Widen(a: Bits, n: nat): (r: Bits)
    requires |a| <= n
    ensures |r| == n
  {
    a + Zeros(n - |a|)
  }

  /** `a` if the bit is set, else zero. */
  function When(hit: bool, a: Bits): (r: Bits)
    ensures |r| == |a| && forall i :: 0 <= i < |a| ==> r[i] == (hit && a[i])
  {
    seq(|a|, i requires 0 <= i < |a| => hit && a[i])
  }

  lemma WhenMeans(hit: bool, a: Bits)
    ensures When(hit, a) == if hit then a else Zeros(|a|)
  {
  }

  lemma XorCommutes(a: Bits, b: Bits)
    requires |a| == |b|
    ensures Xor(a, b) == Xor(b, a)
  {
  }

  lemma XorAssociates(a: Bits, b: Bits, c: Bits)
    requires |a| == |b| == |c|
    ensures Xor(Xor(a, b), c) == Xor(a, Xor(b, c))
  {
  }

  lemma XorSwapsMiddle(a: Bits, b: Bits, c: Bits, d: Bits)
    requires |a| == |b| == |c| == |d|
    ensures Xor(Xor(a, b), Xor(c, d)) == Xor(Xor(a, c), Xor(b, d))
  {
  }

  lemma XorZero(a: Bits)
    ensures Xor(a, Zeros(|a|)) == a
    ensures Xor(Zeros(|a|), a) == a
  {
  }

  lemma XorCancels(a: Bits, b: Bits)
    requires |a| == |b|
    ensures Xor(a, a) == Zeros(|a|)
    ensures Xor(Xor(a, b), b) == a
    ensures Xor(b, Xor(b, a)) == a
  {
  }

  lemma XorWiden(a: Bits, b: Bits, n: nat)
    requires |a| == |b| <= n
    ensures Xor(Widen(a, n), Widen(b, n)) == Widen(Xor(a, b), n)
  {
  }

  // ----- words as numbers -----

  function Pow2(n: nat): (r: nat)
    ensures r > 0
  {
    if n == 0 then 1 else 2 * Pow2(n - 1)
  }

  function ToNat(a: Bits): (r: nat)
    ensures r < Pow2(|a|)
  {
    if a == [] then 0 else (if a[0] then 1 else 0) + 2 * ToNat(a[1..])
  }

  /** The low `width` bits of `n`. */
  function FromNat(n: nat, width: nat): (r: Bits)
    ensures |r| == width
  {
    if width == 0 then [] else [n % 2 == 1] + FromNat(n / 2, width - 1)
  }

  lemma {:induction false} FromToNat(a: Bits)
    ensures FromNat(ToNat(a), |a|) == a
  {
    if a != [] {
      FromToNat(a[1..]);
    }
  }

  lemma {:induction false} ToFromNat(n: nat, width: nat)
    requires n < Pow2(width)
    ensures ToNat(FromNat(n, width)) == n
  {
    if width != 0 {
      ToFromNat(n / 2, width - 1);
      assert FromNat(n, width)[1..] == FromNat(n / 2, width - 1);
    }
  }

  lemma {:induction false} FromNatOfZero(width: nat)
    ensures FromNat(0, width) == Zeros(width)
  {
    if width != 0 {
      FromNatOfZero(width - 1);
    }
  }

  lemma {:induction false} FromNatOfPow2(k: nat, width: nat)
    requires k < width
    ensures FromNat(Pow2(k), width) == Unit(width, k)
  {
    if k == 0 {
      FromNatOfZero(width - 1);
    } else {
      FromNatOfPow2(k - 1, width - 1);
    }
  }

  /** Adding a bit that is above all of `n` is the same as xoring it in. */
  lemma {:induction false} FromNatOfSum(k: nat, n: nat, width: nat)
    requires k < width && n < Pow2(k)
    ensures FromNat(Pow2(k) + n, width) == Xor(Unit(width, k), FromNat(n, width))
  {
    if k == 0 {
      FromNatOfPow2(0, width);
      FromNatOfZero(width);
    } else {
      FromNatOfSum(k - 1, n / 2, width - 1);
      var sum := Pow2(k) + n;
      assert sum / 2 == Pow2(k - 1) + n / 2 && sum % 2 == n % 2;
      assert FromNat(sum, width) == [n % 2 == 1] + FromNat(sum / 2, width - 1);
    }
  }
}

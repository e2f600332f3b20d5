/** Multiplication of polynomials modulo the generator.

    Appending zero bytes multiplies a register by a power of `x`.  The engine therefore reaches any
    number of zero bytes with a few multiplications by precomputed powers.  The product is defined
    the way `PolyMultiply` computes it, and everything known about it is derived from that.
 */
module CrcPolynomial {
  import opened Bits
  import opened CrcSpec

  /** The contribution of the low `i` bits of `l`: bit `i - 1` counts once, bit `i - 2` counts `x`
      times, and so on down to bit 0. */
  function MulLow(g: Bits, l: Bits, m: Bits, i: nat): (r: Bits)
    requires |g| == |m| > 0 && i <= |l|
    ensures |r| == |g|
    decreases i
  {
    if i == 0 then Zeros(|g|)
    else
      var rest := MulLow(g, l, Step(g, m), i - 1);
      if l[i - 1] then Xor(m, rest) else rest
  }

  /** The product of two registers. */
  function Mul(g: Bits, l: Bits, m: Bits): (r: Bits)
    requires |g| == |l| == |m| > 0
    ensures |r| == |g|
  {
    MulLow(g, l, m, |l|)
  }

  /** The register standing for the polynomial 1. */
  function One(g: Bits): (r: Bits)
    requires |g| > 0
    ensures |r| == |g|
  {
    Unit(|g|, |g| - 1)
  }

  /** The register standing for `x^n`. */
  function XPower(g: Bits, n: nat): (r: Bits)
    requires |g| > 0
    ensures |r| == |g|
  {
    Steps(g, One(g), n)
  }

  lemma {:induction false} MulLowLinear(g: Bits, l: Bits, a: Bits, b: Bits, i: nat)
    requires |g| == |a| == |b| > 0 && i <= |l|
    ensures MulLow(g, l, Xor(a, b), i) == Xor(MulLow(g, l, a, i), MulLow(g, l, b, i))
    decreases i
  {
    if i == 0 {
      XorZero(Zeros(|g|));
    } else {
      StepLinear(g, a, b);
      MulLowLinear(g, l, Step(g, a), Step(g, b), i - 1);
      if l[i - 1] {
        XorSwapsMiddle(a, b, MulLow(g, l, Step(g, a), i - 1), MulLow(g, l, Step(g, b), i - 1));
      }
    }
  }

  lemma {:induction false} MulLowOfZero(g: Bits, l: Bits, i: nat)
    requires |g| > 0 && i <= |l|
    ensures MulLow(g, l, Zeros(|g|), i) == Zeros(|g|)
    decreases i
  {
    if i > 0 {
      assert Step(g, Zeros(|g|)) == Zeros(|g|);
      MulLowOfZero(g, l, i - 1);
      XorZero(Zeros(|g|));
    }
  }

  lemma {:induction false} MulLowStep(g: Bits, l: Bits, m: Bits, i: nat)
    requires |g| == |m| > 0 && i <= |l|
    ensures MulLow(g, l, Step(g, m), i) == Step(g, MulLow(g, l, m, i))
    decreases i
  {
    if i == 0 {
      assert Step(g, Zeros(|g|)) == Zeros(|g|);
    } else {
      MulLowStep(g, l, Step(g, m), i - 1);
      StepLinear(g, m, MulLow(g, l, Step(g, m), i - 1));
    }
  }

  lemma {:induction false} MulLowSteps(g: Bits, l: Bits, m: Bits, i: nat, n: nat)
    requires |g| == |m| > 0 && i <= |l|
    ensures MulLow(g, l, Steps(g, m, n), i) == Steps(g, MulLow(g, l, m, i), n)
    decreases n
  {
    if n > 0 {
      var m' := Step(g, m);
      assert Steps(g, m, n) == Steps(g, m', n - 1);
      MulLowSteps(g, l, m', i, n - 1);
      MulLowStep(g, l, m, i);
    }
  }

  /** The powers of `x` below the degree are the single bits, so multiplying one rebuilds `l`. */
  lemma {:induction false} MulLowOfUnit(g: Bits, l: Bits, i: nat)
    requires |g| == |l| > 0 && 0 < i <= |l|
    ensures MulLow(g, l, Unit(|l|, i - 1), i) == l[..i] + Zeros(|l| - i)
    decreases i
  {
    var n := |l|;
    var u := Unit(n, i - 1);
    if i == 1 {
      assert MulLow(g, l, Step(g, u), 0) == Zeros(n);
    } else {
      assert Step(g, u) == Unit(n, i - 2);
      MulLowOfUnit(g, l, i - 1);
    }
  }

  lemma MulOne(g: Bits, l: Bits)
    requires |g| == |l| > 0
    ensures Mul(g, l, One(g)) == l
  {
    MulLowOfUnit(g, l, |l|);
    assert l[..|l|] == l;
  }

  /** Multiplication by `l` is applied term by term to any other product. */
  lemma {:induction false} MulOfMulLow(g: Bits, l: Bits, m: Bits, z: Bits, i: nat)
    requires |g| == |l| == |m| == |z| > 0 && i <= |m|
    ensures Mul(g, l, MulLow(g, m, z, i)) == MulLow(g, m, Mul(g, l, z), i)
    decreases i
  {
    if i == 0 {
      MulLowOfZero(g, l, |l|);
    } else {
      var y, rest := Mul(g, l, z), MulLow(g, m, Step(g, z), i - 1);
      assert Mul(g, l, rest) == MulLow(g, m, Step(g, y), i - 1) by {
        MulOfMulLow(g, l, m, Step(g, z), i - 1);
        MulLowStep(g, l, z, |l|);
      }
      MulOfSum(g, l, z, rest, y, MulLow(g, m, Step(g, y), i - 1));
    }
  }

  lemma MulOfSum(g: Bits, l: Bits, a: Bits, b: Bits, x: Bits, y: Bits)
    requires |g| == |l| == |a| == |b| > 0 && Mul(g, l, a) == x && Mul(g, l, b) == y
    ensures Mul(g, l, Xor(a, b)) == Xor(x, y)
  {
    MulLowLinear(g, l, a, b, |l|);
  }

  lemma MulCommutes(g: Bits, l: Bits, m: Bits)
    requires |g| == |l| == |m| > 0
    ensures Mul(g, l, m) == Mul(g, m, l)
  {
    MulOne(g, m);
    MulOfMulLow(g, l, m, One(g), |m|);
    MulOne(g, l);
  }

  lemma MulAssociates(g: Bits, a: Bits, b: Bits, c: Bits)
    requires |g| == |a| == |b| == |c| > 0
    ensures Mul(g, Mul(g, a, b), c) == Mul(g, a, Mul(g, b, c))
  {
    MulCommutes(g, Mul(g, a, b), c);
    MulOfMulLow(g, c, a, b, |a|);
    MulCommutes(g, c, b);
  }

  /** Multiplying by `x^n` is appending `n` zero bits. */
  lemma MulByPower(g: Bits, n: nat, m: Bits)
    requires |g| == |m| > 0
    ensures Mul(g, XPower(g, n), m) == Steps(g, m, n)
    ensures Mul(g, m, XPower(g, n)) == Steps(g, m, n)
  {
    MulCommutes(g, XPower(g, n), m);
    MulLowSteps(g, m, One(g), |m|, n);
    MulOne(g, m);
  }

  lemma PowersMultiply(g: Bits, a: nat, b: nat)
    requires |g| > 0
    ensures Mul(g, XPower(g, a), XPower(g, b)) == XPower(g, a + b)
  {
    MulByPower(g, a, XPower(g, b));
    StepsAdd(g, One(g), b, a);
  }

  /** The register standing for `x^(8k)`, which appends `k` zero bytes. */
  function BytePower(g: Bits, k: nat): (r: Bits)
    requires |g| > 0
    ensures |r| == |g|
  {
    XPower(g, 8 * k)
  }

  lemma BytePowersMultiply(g: Bits, a: nat, b: nat)
    requires |g| > 0
    ensures Mul(g, BytePower(g, a), BytePower(g, b)) == BytePower(g, a + b)
  {
    PowersMultiply(g, 8 * a, 8 * b);
  }

  lemma MulByBytePower(g: Bits, k: nat, m: Bits)
    requires |g| == |m| > 0
    ensures Mul(g, m, BytePower(g, k)) == Advance(g, m, k)
  {
    MulByPower(g, 8 * k, m);
  }
}

/** Multiplication one byte at a time: a carry-less product in 64 bits, reduced through the byte
    table after every byte. */
module CrcCarryless {
  import opened Bits
  import opened CrcSpec
  import opened CrcPolynomial
  import opened Crc32c
  import opened CrcTables

  /** The unreduced product of the low `k` bits of `l` with `w`, shifted up by one. */
  function Carryless(l: Bits, w: Bits, k: nat): (r: Bits)
    requires k <= |l| && k <= |w|
    ensures |r| == |w|
  {
    if k == 0 then Zeros(|w|)
    else Xor(Carryless(l, w, k - 1), When(l[k - 1], Shl(w, k)))
  }

  // ----- reduced and unreduced products agree -----

  lemma MulLowUnfold(g: Bits, l: Bits, m: Bits, i: nat)
    requires |g| == |m| > 0 && 0 < i <= |l|
    ensures MulLow(g, l, m, i) == Xor(Step(g, MulLow(g, l, m, i - 1)), When(l[i - 1], m))
  {
    MulLowStep(g, l, m, i - 1);
    var rest := Step(g, MulLow(g, l, m, i - 1));
    if l[i - 1] {
      XorCommutes(m, rest);
    } else {
      XorZero(rest);
    }
  }

  lemma {:induction false} MulLowPrefix(g: Bits, l: Bits, l': Bits, m: Bits, i: nat)
    requires |g| == |m| > 0 && i <= |l| && i <= |l'|
    requires l[..i] == l'[..i]
    ensures MulLow(g, l, m, i) == MulLow(g, l', m, i)
    decreases i
  {
    if i > 0 {
      assert l[..i][i - 1] == l'[..i][i - 1];
      assert l[..i][..i - 1] == l[..i - 1] && l'[..i][..i - 1] == l'[..i - 1];
      MulLowPrefix(g, l, l', Step(g, m), i - 1);
    }
  }

  lemma XorRotates(a: Bits, b: Bits, c: Bits)
    requires |a| == |b| == |c|
    ensures Xor(a, Xor(b, c)) == Xor(b, Xor(a, c))
  {
  }

  /** Horner's rule: `k` more bits of `l` step what is there `k` times and add their own part. */
  lemma {:induction false} MulLowSplit(g: Bits, l: Bits, m: Bits, x: nat, k: nat)
    requires |g| == |m| > 0 && x + k <= |l|
    ensures MulLow(g, l, m, x + k) == Xor(Steps(g, MulLow(g, l, m, x), k), MulLow(g, l[x..], m, k))
    decreases k
  {
    if k == 0 {
      XorZero(MulLow(g, l, m, x));
    } else {
      var m' := Step(g, m);
      var a, b := Steps(g, MulLow(g, l, m, x), k), MulLow(g, l[x..], m', k - 1);
      assert MulLow(g, l, m', x + k - 1) == Xor(a, b) by {
        MulLowSplit(g, l, m', x, k - 1);
        MulLowStep(g, l, m, x);
      }
      XorRotates(m, a, b);
    }
  }

  lemma StepOfWidened(g: Bits, c: Bits, n: nat)
    requires 0 < |g| == |c| <= n
    ensures Step(Widen(g, n), Widen(c, n)) == Widen(Step(g, c), n)
  {
    assert Shr(Widen(c, n), 1) == Widen(Shr(c, 1), n);
    XorWiden(Shr(c, 1), g, n);
  }

  lemma {:induction false} StepsOfWidened(g: Bits, c: Bits, n: nat, k: nat)
    requires 0 < |g| == |c| <= n
    ensures Steps(Widen(g, n), Widen(c, n), k) == Widen(Steps(g, c, k), n)
    decreases k
  {
    if k > 0 {
      StepOfWidened(g, c, n);
      StepsOfWidened(g, Step(g, c), n, k - 1);
    }
  }

  lemma StepsUndoShl(g: Bits, w: Bits, k: nat)
    requires |g| == |w| > 0 && k <= |w|
    requires w[|w| - k..] == Zeros(k)
    ensures Steps(g, Shl(w, k), k) == w
  {
    var s := Shl(w, k);
    assert s[..k] == Zeros(k);
    StepsOfShifted(g, s, k);
    assert s[k..] == w[..|w| - k];
    assert w == w[..|w| - k] + w[|w| - k..];
  }

  lemma ReduceTop(g: Bits, w: Bits, hit: bool, k: nat)
    requires |g| == |w| > 0 && k <= |w| && w[|w| - k..] == Zeros(k)
    ensures Steps(g, When(hit, Shl(w, k)), k) == When(hit, w)
  {
    WhenMeans(hit, Shl(w, k));
    WhenMeans(hit, w);
    if hit {
      StepsUndoShl(g, w, k);
    } else {
      StepsOfZero(g, k);
    }
  }

  lemma ReduceRest(poly: Word, c: Bits, low: Word, k: nat)
    requires |c| == 64 && k > 0 && Steps(Widen(poly, 64), c, k - 1) == Widen(low, 64)
    ensures Steps(Widen(poly, 64), c, k) == Widen(Step(poly, low), 64)
  {
    StepsOnce(Widen(poly, 64), c, k - 1);
    StepOfWidened(poly, low, 64);
  }

  /** Reducing the unreduced product of `k` bits by `k` steps gives the product. */
  lemma {:induction false} CarrylessReduces(poly: Word, l: Word, m: Word, k: nat)
    requires k <= 32
    ensures Steps(Widen(poly, 64), Carryless(l, Widen(m, 64), k), k) == Widen(MulLow(poly, l, m, k), 64)
    decreases k
  {
    var g, w := Widen(poly, 64), Widen(m, 64);
    if k == 0 {
      assert Zeros(64) == Widen(Zeros(32), 64);
    } else {
      var c, low, hit := Carryless(l, w, k - 1), MulLow(poly, l, m, k - 1), l[k - 1];
      assert Steps(g, c, k) == Widen(Step(poly, low), 64) by {
        CarrylessReduces(poly, l, m, k - 1);
        ReduceRest(poly, c, low, k);
      }
      assert Steps(g, When(hit, Shl(w, k)), k) == Widen(When(hit, m), 64) by {
        assert w[64 - k..] == Zeros(k);
        ReduceTop(g, w, hit, k);
        assert When(hit, w) == Widen(When(hit, m), 64);
      }
      StepsLinear(g, c, When(hit, Shl(w, k)), k);
      XorWiden(Step(poly, low), When(hit, m), 64);
      MulLowUnfold(poly, l, m, k);
    }
  }

  // ----- two bits at a time -----

  function PairTable(w: Bits): (r: seq<Bits>)
    requires |w| == 64
    ensures |r| == 4 && forall i :: 0 <= i < 4 ==> |r[i]| == 64
  {
    var m := Shl(w, 1);
    var m2 := Shl(m, 1);
    [Zeros(64), m, m2, Xor(m2, m)]
  }

  lemma PairIndex(a: bool, b: bool)
    ensures ToNat([a, b]) == (if a then 1 else 0) + (if b then 2 else 0)
  {
    assert [a, b][1..] == [b];
    assert [b][1..] == [];
  }

  lemma ShlAdds(w: Bits, i: nat, j: nat)
    requires i + j <= |w|
    ensures Shl(Shl(w, i), j) == Shl(w, i + j)
  {
  }

  lemma ShlOfXor(a: Bits, b: Bits, k: nat)
    requires |a| == |b| && k <= |a|
    ensures Shl(Xor(a, b), k) == Xor(Shl(a, k), Shl(b, k))
  {
  }

  /** An entry of the pair table, shifted to the place of its two bits. */
  lemma PairEntry(w: Bits, a: bool, b: bool, i: nat)
    requires |w| == 64 && i <= 62
    ensures ToNat([a, b]) < 4
    ensures Shl(PairTable(w)[ToNat([a, b])], i) == Xor(When(a, Shl(w, i + 1)), When(b, Shl(w, i + 2)))
  {
    PairIndex(a, b);
    var m := Shl(w, 1);
    var m2 := Shl(m, 1);
    ShlAdds(w, 1, i);
    ShlAdds(w, 1, 1);
    ShlAdds(w, 2, i);
    ShlOfXor(m2, m, i);
    XorCommutes(Shl(m2, i), Shl(m, i));
    assert Shl(Zeros(64), i) == Zeros(64);
    XorZero(Shl(w, i + 1));
    XorZero(Shl(w, i + 2));
    XorZero(Zeros(64));
  }

  /** The four lookups for one byte. */
  function ByteProduct(l: Word, w: Bits): (r: Bits)
    requires |w| == 64
    ensures |r| == 64
  {
    var t := PairTable(w);
    PairIndex(l[0], l[1]); PairIndex(l[2], l[3]); PairIndex(l[4], l[5]); PairIndex(l[6], l[7]);
    Xor(Xor(Xor(t[ToNat([l[0], l[1]])],
                Shl(t[ToNat([l[2], l[3]])], 2)),
            Shl(t[ToNat([l[4], l[5]])], 4)),
        Shl(t[ToNat([l[6], l[7]])], 6))
  }

  /** Two more bits of `l`, by one lookup. */
  lemma CarrylessPair(l: Bits, w: Bits, i: nat)
    requires |w| == 64 && i + 2 <= |l| && i <= 62
    ensures ToNat([l[i], l[i + 1]]) < 4
    ensures Carryless(l, w, i + 2) == Xor(Carryless(l, w, i), Shl(PairTable(w)[ToNat([l[i], l[i + 1]])], i))
  {
    PairEntry(w, l[i], l[i + 1], i);
    XorAssociates(Carryless(l, w, i), When(l[i], Shl(w, i + 1)), When(l[i + 1], Shl(w, i + 2)));
  }

  /** The lookup for the pair of bits at `i`, shifted to its place. */
  function PairAt(l: Bits, w: Bits, i: nat): (r: Bits)
    requires |w| == 64 && i + 2 <= |l| && i <= 62
    ensures |r| == 64
  {
    PairIndex(l[i], l[i + 1]);
    Shl(PairTable(w)[ToNat([l[i], l[i + 1]])], i)
  }

  /** The lookups for the first `n` pairs. */
  function PairProduct(l: Bits, w: Bits, n: nat): (r: Bits)
    requires |w| == 64 && 2 * n <= |l| && n <= 31
    ensures |r| == 64
  {
    if n == 0 then Zeros(64) else Xor(PairProduct(l, w, n - 1), PairAt(l, w, 2 * (n - 1)))
  }

  lemma {:induction false} PairsAreCarryless(l: Bits, w: Bits, n: nat)
    requires |w| == 64 && 2 * n <= |l| && n <= 31
    ensures PairProduct(l, w, n) == Carryless(l, w, 2 * n)
  {
    if n > 0 {
      PairsAreCarryless(l, w, n - 1);
      CarrylessPair(l, w, 2 * (n - 1));
    }
  }

  lemma FirstPair(l: Bits, w: Bits)
    requires |w| == 64 && |l| >= 2
    ensures ToNat([l[0], l[1]]) < 4 && Xor(Zeros(64), PairAt(l, w, 0)) == PairTable(w)[ToNat([l[0], l[1]])]
  {
    PairIndex(l[0], l[1]);
    var first := PairTable(w)[ToNat([l[0], l[1]])];
    assert Shl(first, 0) == first;
    XorZero(first);
  }

  lemma ByteProductIsPairs(l: Word, w: Bits, n: nat)
    requires |w| == 64 && n == 4
    ensures ByteProduct(l, w) == PairProduct(l, w, n)
  {
    FirstPair(l, w);
    var a := Xor(Zeros(64), PairAt(l, w, 0));
    assert PairProduct(l, w, 1) == a;
    assert PairProduct(l, w, 2) == Xor(a, PairAt(l, w, 2));
    assert PairProduct(l, w, 3) == Xor(PairProduct(l, w, 2), PairAt(l, w, 4));
  }

  lemma ByteProductIsCarryless(l: Word, w: Bits)
    requires |w| == 64
    ensures ByteProduct(l, w) == Carryless(l, w, 8)
  {
    ByteProductIsPairs(l, w, 4);
    PairsAreCarryless(l, w, 4);
  }
}

/** Running the register backwards by running the mirrored register forwards. */
module CrcReverse {
  import opened Bits
  import opened CrcSpec
  import opened Crc32c

  /** A word made of four copies of one byte. */
  function RepeatByte(b: Byte): Word {
    FromNat(b, 8) + FromNat(b, 8) + FromNat(b, 8) + FromNat(b, 8)
  }

  /** Byte order reversal. */
  function ByteSwap(w: Word): Word {
    w[24..] + w[16..24] + w[8..16] + w[..8]
  }

  /** Exchanges neighbouring groups of `k` bits, given the masks of the upper and lower groups. */
  function SwapGroups(w: Word, upper: Word, lower: Word, k: nat): Word
    requires k <= 32
  {
    Or(Shr(And(w, upper), k), Shl(And(w, lower), k))
  }

  function ReverseBits(w: Word): Word {
    var w1: Word := SwapGroups(w, RepeatByte(0xaa), RepeatByte(0x55), 1);
    var w2: Word := SwapGroups(w1, RepeatByte(0xcc), RepeatByte(0x33), 2);
    var w4: Word := SwapGroups(w2, RepeatByte(0xf0), RepeatByte(0x0f), 4);
    ByteSwap(w4)
  }

  function Mirror(w: Word): Word {
    seq(32, i requires 0 <= i < 32 => w[31 - i])
  }

  // ----- the masks -----

  function NatBit(n: nat, i: nat): bool
    decreases i
  {
    if i == 0 then n % 2 == 1 else NatBit(n / 2, i - 1)
  }

  lemma {:induction false} BitOfNat(n: nat, width: nat, i: nat)
    requires i < width
    ensures FromNat(n, width)[i] == NatBit(n, i)
    decreases i
  {
    if i > 0 {
      BitOfNat(n / 2, width - 1, i - 1);
    }
  }

  lemma RepeatedBit(b: Byte, i: nat)
    requires i < 32
    ensures RepeatByte(b)[i] == NatBit(b, i % 8)
  {
    BitOfNat(b, 8, i % 8);
    var f := FromNat(b, 8);
    assert RepeatByte(b)[i] == f[i % 8] by {
      assert i < 8 ==> i % 8 == i;
      assert 8 <= i < 16 ==> i % 8 == i - 8;
      assert 16 <= i < 24 ==> i % 8 == i - 16;
      assert 24 <= i ==> i % 8 == i - 24;
    }
  }

  /** The masks of the upper and lower groups of `k` bits. */
  predicate GroupMasks(upper: Word, lower: Word, k: nat)
    requires k > 0
  {
    forall i :: 0 <= i < 32 ==> upper[i] == (i / k % 2 == 1) && lower[i] == (i / k % 2 == 0)
  }

  lemma GroupOfByte(i: nat, k: nat)
    requires i < 32 && (k == 1 || k == 2 || k == 4)
    ensures i % 8 / k % 2 == i / k % 2
  {
    GroupInByte(i / 8, i % 8, k);
    assert i == 8 * (i / 8) + i % 8;
  }

  lemma RepeatedMasks(u: Byte, l: Byte, k: nat)
    requires k == 1 || k == 2 || k == 4
    requires forall j :: 0 <= j < 8 ==> NatBit(u, j) == (j / k % 2 == 1) && NatBit(l, j) == (j / k % 2 == 0)
    ensures GroupMasks(RepeatByte(u), RepeatByte(l), k)
  {
    var upper, lower := RepeatByte(u), RepeatByte(l);
    forall i | 0 <= i < 32
      ensures upper[i] == (i / k % 2 == 1) && lower[i] == (i / k % 2 == 0)
    {
      var j := i % 8;
      assert upper[i] == NatBit(u, j) by { RepeatedBit(u, i); }
      assert lower[i] == NatBit(l, j) by { RepeatedBit(l, i); }
      GroupOfByte(i, k);
    }
  }

  lemma Masks1()
    ensures GroupMasks(RepeatByte(0xaa), RepeatByte(0x55), 1)
  {
    assert !NatBit(0xaa, 0) && NatBit(0xaa, 1) && !NatBit(0xaa, 2) && NatBit(0xaa, 3) && !NatBit(0xaa, 4) && NatBit(0xaa, 5) && !NatBit(0xaa, 6) && NatBit(0xaa, 7);
    assert NatBit(0x55, 0) && !NatBit(0x55, 1) && NatBit(0x55, 2) && !NatBit(0x55, 3) && NatBit(0x55, 4) && !NatBit(0x55, 5) && NatBit(0x55, 6) && !NatBit(0x55, 7);
    RepeatedMasks(0xaa, 0x55, 1);
  }

  lemma Masks2()
    ensures GroupMasks(RepeatByte(0xcc), RepeatByte(0x33), 2)
  {
    assert !NatBit(0xcc, 0) && !NatBit(0xcc, 1) && NatBit(0xcc, 2) && NatBit(0xcc, 3) && !NatBit(0xcc, 4) && !NatBit(0xcc, 5) && NatBit(0xcc, 6) && NatBit(0xcc, 7);
    assert NatBit(0x33, 0) && NatBit(0x33, 1) && !NatBit(0x33, 2) && !NatBit(0x33, 3) && NatBit(0x33, 4) && NatBit(0x33, 5) && !NatBit(0x33, 6) && !NatBit(0x33, 7);
    RepeatedMasks(0xcc, 0x33, 2);
  }

  lemma Masks4()
    ensures GroupMasks(RepeatByte(0xf0), RepeatByte(0x0f), 4)
  {
    assert !NatBit(0xf0, 0) && !NatBit(0xf0, 1) && !NatBit(0xf0, 2) && !NatBit(0xf0, 3) && NatBit(0xf0, 4) && NatBit(0xf0, 5) && NatBit(0xf0, 6) && NatBit(0xf0, 7);
    assert NatBit(0x0f, 0) && NatBit(0x0f, 1) && NatBit(0x0f, 2) && NatBit(0x0f, 3) && !NatBit(0x0f, 4) && !NatBit(0x0f, 5) && !NatBit(0x0f, 6) && !NatBit(0x0f, 7);
    RepeatedMasks(0xf0, 0x0f, 4);
  }

  // ----- the reversal -----

  /** Where the bit that ends up at `i` comes from when groups of `k` bits are exchanged. */
  function Partner(i: nat, k: nat): int
    requires k > 0
  {
    if i / k % 2 == 0 then i + k else i - k
  }

  /** `w'` is `w` with neighbouring groups of `k` bits exchanged. */
  predicate Swapped(w: Word, w': Word, k: nat)
    requires k > 0
  {
    forall i :: 0 <= i < 32 ==> 0 <= Partner(i, k) < 32 && w'[i] == w[Partner(i, k)]
  }

  lemma SwapGroupsSwaps(w: Word, upper: Word, lower: Word, k: nat)
    requires (k == 1 || k == 2 || k == 4) && GroupMasks(upper, lower, k)
    ensures Swapped(w, SwapGroups(w, upper, lower, k), k)
  {
    var w' := SwapGroups(w, upper, lower, k);
    forall i | 0 <= i < 32
      ensures 0 <= Partner(i, k) < 32 && w'[i] == w[Partner(i, k)]
    {
      SwapGroupsMoves(w, upper, lower, k, i);
    }
  }

  lemma SwapGroupsMoves(w: Word, upper: Word, lower: Word, k: nat, i: nat)
    requires i < 32 && (k == 1 || k == 2 || k == 4) && GroupMasks(upper, lower, k)
    ensures 0 <= Partner(i, k) < 32
    ensures SwapGroups(w, upper, lower, k)[i] == w[Partner(i, k)]
  {
    UpMoves(w, upper, lower, k, i);
    DownMoves(w, upper, lower, k, i);
  }

  lemma UpMoves(w: Word, upper: Word, lower: Word, k: nat, i: nat)
    requires i < 32 && (k == 1 || k == 2 || k == 4) && GroupMasks(upper, lower, k)
    ensures Shr(And(w, upper), k)[i] == (i + k < 32 && w[i + k] && i / k % 2 == 0)
  {
    assert (i + k) / k == i / k + 1;
  }

  lemma DownMoves(w: Word, upper: Word, lower: Word, k: nat, i: nat)
    requires i < 32 && (k == 1 || k == 2 || k == 4) && GroupMasks(upper, lower, k)
    ensures Shl(And(w, lower), k)[i] == (i >= k && w[i - k] && i / k % 2 == 1)
  {
    if i >= k {
      GroupBefore(i, k);
    }
  }

  lemma GroupBefore(i: nat, k: nat)
    requires k <= i && (k == 1 || k == 2 || k == 4)
    ensures (i - k) / k == i / k - 1
  {
    assert k == 1 ==> (i - 1) / 1 == i / 1 - 1;
    assert k == 2 ==> (i - 2) / 2 == i / 2 - 1;
    assert k == 4 ==> (i - 4) / 4 == i / 4 - 1;
  }

  lemma ByteSwapMoves(w: Word, q: nat, r: nat)
    requires q < 4 && r < 8
    ensures ByteSwap(w)[8 * q + r] == w[8 * (3 - q) + r]
  {
  }

  lemma PartnerInByte(q: nat, r: nat, k: nat)
    requires r < 8 && (k == 1 || k == 2 || k == 4)
    ensures Partner(8 * q + r, k) == 8 * q + Partner(r, k)
    ensures 0 <= Partner(r, k) < 8
  {
    GroupInByte(q, r, k);
    assert r / 4 <= 1 && r / 2 <= 3;
  }

  /** Whole bytes below a bit do not change which kind of group it is in. */
  lemma GroupInByte(q: nat, r: nat, k: nat)
    requires k == 1 || k == 2 || k == 4
    ensures (8 * q + r) / k % 2 == r / k % 2
  {
    var h := if k == 1 then 4 * q else if k == 2 then 2 * q else q;
    assert (8 * q + r) / k == 2 * h + r / k;
    EvenPart(h, r / k);
  }

  lemma EvenPart(h: nat, n: nat)
    ensures (2 * h + n) % 2 == n % 2
  {
  }

  lemma PartnersMirror(r: nat)
    requires r < 8
    ensures 0 <= Partner(r, 4) && 0 <= Partner(Partner(r, 4), 2)
    ensures Partner(Partner(Partner(r, 4), 2), 1) == 7 - r
  {
  }

  /** Exchanging bits, pairs and nibbles mirrors every byte. */
  lemma SwapsMirrorBytes(w: Word, w1: Word, w2: Word, w4: Word, q: nat, r: nat)
    requires Swapped(w, w1, 1) && Swapped(w1, w2, 2) && Swapped(w2, w4, 4)
    requires q < 4 && r < 8
    ensures w4[8 * q + r] == w[8 * q + 7 - r]
  {
    PartnersMirror(r);
    var r4 := Partner(r, 4);
    PartnerInByte(q, r, 4);
    assert w4[8 * q + r] == w2[8 * q + r4];
    var r2 := Partner(r4, 2);
    PartnerInByte(q, r4, 2);
    assert w2[8 * q + r4] == w1[8 * q + r2];
    PartnerInByte(q, r2, 1);
  }

  /** Exchanging the bytes as well mirrors the word. */
  lemma SwapsMirror(w: Word, w1: Word, w2: Word, w4: Word)
    requires Swapped(w, w1, 1) && Swapped(w1, w2, 2) && Swapped(w2, w4, 4)
    ensures ByteSwap(w4) == Mirror(w)
  {
    var swapped := ByteSwap(w4);
    forall i | 0 <= i < 32
      ensures swapped[i] == w[31 - i]
    {
      var q, r := i / 8, i % 8;
      assert swapped[i] == w4[8 * (3 - q) + r] by { ByteSwapMoves(w4, q, r); }
      SwapsMirrorBytes(w, w1, w2, w4, 3 - q, r);
    }
  }

  lemma ReverseBitsMirrors(w: Word)
    ensures ReverseBits(w) == Mirror(w)
  {
    Masks1();
    Masks2();
    Masks4();
    var w1: Word := SwapGroups(w, RepeatByte(0xaa), RepeatByte(0x55), 1);
    var w2: Word := SwapGroups(w1, RepeatByte(0xcc), RepeatByte(0x33), 2);
    var w4: Word := SwapGroups(w2, RepeatByte(0xf0), RepeatByte(0x0f), 4);
    SwapGroupsSwaps(w, RepeatByte(0xaa), RepeatByte(0x55), 1);
    SwapGroupsSwaps(w1, RepeatByte(0xcc), RepeatByte(0x33), 2);
    SwapGroupsSwaps(w2, RepeatByte(0xf0), RepeatByte(0x0f), 4);
    SwapsMirror(w, w1, w2, w4);
  }

  // ----- the mirrored register -----

  /** The generator of the register that runs backwards. */
  function UnextendPoly(poly: Word): Word {
    ReverseBits(Xor(Shl(poly, 1), Unit(32, 0)))
  }

  lemma MirrorTwice(w: Word)
    ensures Mirror(Mirror(w)) == w
  {
  }

  lemma MirrorOfXor(a: Word, b: Word)
    ensures Mirror(Xor(a, b)) == Xor(Mirror(a), Mirror(b))
  {
  }

  lemma MirrorOfShl(c: Word)
    ensures Shr(Mirror(c), 1) == Mirror(Shl(c, 1))
  {
  }

  lemma UnstepAsShift(poly: Word, c: Word)
    ensures Unstep(poly, c) == if c[31] then Xor(Shl(c, 1), Xor(Shl(poly, 1), Unit(32, 0))) else Shl(c, 1)
  {
    assert Shl(c, 1) == [false] + c[..31];
    assert Shl(poly, 1) == [false] + poly[..31];
  }

  /** A forward step of the mirrored register is a backward step of the register. */
  lemma MirroredStep(poly: Word, c: Word)
    ensures Step(UnextendPoly(poly), Mirror(c)) == Mirror(Unstep(poly, c))
  {
    var p: Word := Xor(Shl(poly, 1), Unit(32, 0));
    ReverseBitsMirrors(p);
    UnstepAsShift(poly, c);
    StepMirrored(p, c);
  }

  lemma StepMirrored(p: Word, c: Word)
    ensures Step(Mirror(p), Mirror(c)) == Mirror(if c[31] then Xor(Shl(c, 1), p) else Shl(c, 1))
  {
    MirrorOfShl(c);
    MirrorOfXor(Shl(c, 1), p);
  }

  /** `q` is the generator of the register that runs `poly` backwards. */
  ghost predicate Mirrors(q: Word, poly: Word) {
    forall c: Word :: Step(q, Mirror(c)) == Mirror(Unstep(poly, c))
  }

  lemma {:induction false} StepsOfMirrored(q: Word, poly: Word, c: Word, n: nat)
    requires Mirrors(q, poly)
    ensures Steps(q, Mirror(c), n) == Mirror(Unsteps(poly, c, n))
    decreases n
  {
    if n > 0 {
      var d: Word := Unstep(poly, c);
      assert Step(q, Mirror(c)) == Mirror(d);
      StepsOfMirrored(q, poly, d, n - 1);
    }
  }

  lemma MirroredSteps(poly: Word, c: Word, n: nat)
    ensures Steps(UnextendPoly(poly), Mirror(c), n) == Mirror(Unsteps(poly, c, n))
  {
    var q := UnextendPoly(poly);
    forall d: Word
      ensures Step(q, Mirror(d)) == Mirror(Unstep(poly, d))
    {
      MirroredStep(poly, d);
    }
    StepsOfMirrored(q, poly, c, n);
  }
}

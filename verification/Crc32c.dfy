/** Checksums without the data: the functions of crc32c.cc, over the CRC32C register.

    The engine behind them is described here by what it computes; module `CrcEngine` shows that
    the table-driven engine computes it.
 */
module Crc32c {
  import opened Bits
  import opened CrcSpec

  type Word = w: Bits | |w| == 32 witness Zeros(32)
  type Byte = b: nat | b < 256

  /** The four bits of a hexadecimal digit. */
  function Digit(n: nat): (r: Bits)
    requires n < 16
    ensures |r| == 4
  {
    [n % 2 == 1, n / 2 % 2 == 1, n / 4 % 2 == 1, n / 8 % 2 == 1]
  }

  /** The generator of section 12.1 of RFC 3720, 0x11EDC6F41, with its bits reflected: 0x82F63B78, low
      digit first. */
  const POLY: Word :=
    Digit(0x8) + Digit(0x7) + Digit(0xB) + Digit(0x3) + Digit(0x6) + Digit(0xF) + Digit(0x2) + Digit(0x8)

  /** The generator has a constant term, which is what makes the register reversible. */
  lemma PolyHasConstantTerm()
    ensures POLY[31]
  {
  }

  // ----- messages -----

  /** The bits of a message in the order in which they are divided: low bit of each byte first. */
  function MessageBits(data: seq<Byte>): (r: Bits)
    ensures |r| == 8 * |data|
  {
    if data == [] then [] else FromNat(data[0], 8) + MessageBits(data[1..])
  }

  lemma {:induction false} MessageBitsAppend(a: seq<Byte>, b: seq<Byte>)
    ensures MessageBits(a + b) == MessageBits(a) + MessageBits(b)
  {
    if a == [] {
      assert a + b == b;
    } else {
      assert (a + b)[1..] == a[1..] + b;
      MessageBitsAppend(a[1..], b);
    }
  }

  lemma {:induction false} MessageBitsOfZeroes(n: nat)
    ensures MessageBits(seq(n, _ => 0)) == Zeros(8 * n)
  {
    if n > 0 {
      var z := seq(n, _ => 0);
      assert z[1..] == seq(n - 1, _ => 0);
      MessageBitsOfZeroes(n - 1);
      FromNatOfZero(8);
      assert MessageBits(z) == Zeros(8) + Zeros(8 * (n - 1));
    }
  }

  /** Different messages of one length have different bits. */
  lemma {:induction false} MessageBitsDiffer(a: seq<Byte>, b: seq<Byte>)
    requires |a| == |b| && a != b
    ensures MessageBits(a) != MessageBits(b)
  {
    var x, y := MessageBits(a), MessageBits(b);
    assert x[..8] == FromNat(a[0], 8) && x[8..] == MessageBits(a[1..]);
    assert y[..8] == FromNat(b[0], 8) && y[8..] == MessageBits(b[1..]);
    if a[0] != b[0] {
      ByteFits(a[0]);
      ByteFits(b[0]);
    } else {
      assert a[1..] != b[1..] by {
        assert a == [a[0]] + a[1..] && b == [b[0]] + b[1..];
      }
      MessageBitsDiffer(a[1..], b[1..]);
    }
  }

  lemma ByteFits(b: Byte)
    ensures ToNat(FromNat(b, 8)) == b
  {
    assert Pow2(4) == 16 && Pow2(8) == 16 * Pow2(4);
    ToFromNat(b, 8);
  }

  // ----- what the engine computes -----

  function Extend(crc: Word, data: seq<Byte>): Word {
    FeedAll(POLY, crc, MessageBits(data))
  }

  function ExtendByZeroes(crc: Word, length: nat): Word {
    Advance(POLY, crc, length)
  }

  function UnextendByZeroes(crc: Word, length: nat): Word {
    Unsteps(POLY, crc, 8 * length)
  }

  // ----- crc32c.cc -----

  const XOR_MASK: Word := Ones(32)

  function ExtendCrc32c(initial: Word, data: seq<Byte>): Word {
    Xor(Extend(Xor(initial, XOR_MASK), data), XOR_MASK)
  }

  function ComputeCrc32c(data: seq<Byte>): Word {
    ExtendCrc32c(Zeros(32), data)
  }

  function ExtendCrc32cByZeroes(initial: Word, length: nat): Word {
    Xor(ExtendByZeroes(Xor(initial, XOR_MASK), length), XOR_MASK)
  }

  function UnextendCrc32cByZeroes(initial: Word, length: nat): Word {
    Xor(UnextendByZeroes(Xor(initial, XOR_MASK), length), XOR_MASK)
  }

  function ConcatCrc32c(lhs: Word, rhs: Word, rhsLength: nat): Word {
    Xor(ExtendByZeroes(lhs, rhsLength), rhs)
  }

  function RemoveCrc32cPrefix(crcA: Word, crcAB: Word, lengthB: nat): Word {
    ConcatCrc32c(crcA, crcAB, lengthB)
  }

  function RemoveCrc32cSuffix(full: Word, suffix: Word, suffixLength: nat): Word {
    UnextendByZeroes(Xor(full, suffix), suffixLength)
  }

  // ----- what those functions promise -----

  /** The checksum is a remainder: the message, with its first 32 bits complemented and 32 zero
      bits appended, is divided by the generator and the remainder is complemented. */
  lemma ChecksumIsRemainder(data: seq<Byte>)
    ensures ComputeCrc32c(data)
         == Xor(Remainder(POLY, Xor(Ones(32) + Zeros(8 * |data|), MessageBits(data) + Zeros(32))), Ones(32))
  {
    XorZero(XOR_MASK);
    FeedAllIsRemainder(POLY, XOR_MASK, MessageBits(data));
  }

  /** No set bit is put before the message: a register of zeros stays so over any zero bytes, whereas a
      prefix would leave the generator already for the empty message.  The complements of the checksum
      functions do not amount to a prefix either. */
  lemma NoPrefixBit(n: nat)
    ensures Extend(Zeros(32), seq(n, _ => 0)) == Zeros(32)
    ensures var prefixed := Remainder(POLY, [true] + MessageBits([]) + Zeros(32));
      && Extend(Zeros(32), []) != prefixed
      && ComputeCrc32c([]) != prefixed && ComputeCrc32c([]) != Xor(prefixed, XOR_MASK)
  {
    MessageBitsOfZeroes(n);
    FeedAllZeros(POLY, Zeros(32), 8 * n);
    StepsOfZero(POLY, 8 * n);
    assert Remainder(POLY, [true] + MessageBits([]) + Zeros(32)) == POLY by {
      var p := [true] + MessageBits([]) + Zeros(32);
      assert p[1..] == Zeros(32) && |p| == 33;
      XorZero(POLY);
      assert Xor(p[1..], POLY + Zeros(0)) == POLY;
    }
    assert POLY[31] && !POLY[0];
    XorZero(XOR_MASK);
    XorCancels(XOR_MASK, XOR_MASK);
    assert ComputeCrc32c([]) == Zeros(32);
  }

  lemma ExtendAppend(crc: Word, a: seq<Byte>, b: seq<Byte>)
    ensures Extend(crc, a + b) == Extend(Extend(crc, a), b)
  {
    MessageBitsAppend(a, b);
    FeedAllAppend(POLY, crc, MessageBits(a), MessageBits(b));
  }

  /** Checksumming may be resumed: the checksum of a prefix is all that is needed of it. */
  lemma ExtendResumes(initial: Word, a: seq<Byte>, b: seq<Byte>)
    ensures ExtendCrc32c(ExtendCrc32c(initial, a), b) == ExtendCrc32c(initial, a + b)
  {
    var c := Xor(initial, XOR_MASK);
    XorCancels(Extend(c, a), XOR_MASK);
    ExtendAppend(c, a, b);
  }

  lemma ConcatExtends(lhs: Word, data: seq<Byte>)
    ensures ConcatCrc32c(lhs, ComputeCrc32c(data), |data|) == ExtendCrc32c(lhs, data)
  {
    var m := MessageBits(data);
    FeedAllSuperposes(POLY, lhs, XOR_MASK, m);
    XorZero(XOR_MASK);
    XorAssociates(Steps(POLY, lhs, |m|), FeedAll(POLY, XOR_MASK, m), XOR_MASK);
  }

  /** Concatenation of checksums is the checksum of the concatenation. */
  lemma ConcatCorrect(a: seq<Byte>, b: seq<Byte>)
    ensures ConcatCrc32c(ComputeCrc32c(a), ComputeCrc32c(b), |b|) == ComputeCrc32c(a + b)
  {
    ConcatExtends(ComputeCrc32c(a), b);
    ExtendResumes(Zeros(32), a, b);
  }

  lemma RemovePrefixCorrect(a: seq<Byte>, b: seq<Byte>)
    ensures RemoveCrc32cPrefix(ComputeCrc32c(a), ComputeCrc32c(a + b), |b|) == ComputeCrc32c(b)
  {
    ConcatCorrect(a, b);
    XorCancels(ComputeCrc32c(b), ExtendByZeroes(ComputeCrc32c(a), |b|));
  }

  lemma RemoveSuffixCorrect(a: seq<Byte>, b: seq<Byte>)
    ensures RemoveCrc32cSuffix(ComputeCrc32c(a + b), ComputeCrc32c(b), |b|) == ComputeCrc32c(a)
  {
    ConcatCorrect(a, b);
    RemoveSuffixInvertsConcat(ComputeCrc32c(a), ComputeCrc32c(b), |b|);
  }

  /** For every pair of 32-bit values, and not only for checksums of some string, suffix removal
      and concatenation undo each other. */
  lemma RemoveSuffixInvertsConcat(lhs: Word, rhs: Word, n: nat)
    ensures RemoveCrc32cSuffix(ConcatCrc32c(lhs, rhs, n), rhs, n) == lhs
    ensures ConcatCrc32c(RemoveCrc32cSuffix(lhs, rhs, n), rhs, n) == lhs
  {
    PolyHasConstantTerm();
    XorCancels(ExtendByZeroes(lhs, n), rhs);
    UnstepsAfterSteps(POLY, lhs, 8 * n);
    StepsAfterUnsteps(POLY, Xor(lhs, rhs), 8 * n);
    XorCancels(lhs, rhs);
  }

  lemma ExtendByZeroesAdds(c: Word, m: nat, n: nat)
    ensures ExtendByZeroes(ExtendByZeroes(c, m), n) == ExtendByZeroes(c, m + n)
  {
    AdvanceAdds(POLY, c, m, n);
  }

  lemma ExtendByZeroesLinear(a: Word, b: Word, n: nat)
    ensures ExtendByZeroes(Xor(a, b), n) == Xor(ExtendByZeroes(a, n), ExtendByZeroes(b, n))
  {
    AdvanceLinear(POLY, a, b, n);
  }

  /** Checksums with their lengths form a monoid under concatenation. */
  lemma ConcatAssociates(x: Word, y: Word, m: nat, z: Word, n: nat)
    ensures ConcatCrc32c(ConcatCrc32c(x, y, m), z, n) == ConcatCrc32c(x, ConcatCrc32c(y, z, n), m + n)
  {
    var x', y' := ExtendByZeroes(x, m), ExtendByZeroes(y, n);
    ExtendByZeroesLinear(x', y, n);
    ExtendByZeroesAdds(x, m, n);
    XorAssociates(ExtendByZeroes(x', n), y', z);
  }

  lemma ZeroExtensionCorrect(initial: Word, n: nat)
    ensures ExtendCrc32cByZeroes(initial, n) == ExtendCrc32c(initial, seq(n, _ => 0))
  {
    MessageBitsOfZeroes(n);
    FeedAllZeros(POLY, Xor(initial, XOR_MASK), 8 * n);
  }

  /** Zero-unextension is a two-sided inverse of zero-extension, on every word and length. */
  lemma UnextensionInverts(initial: Word, n: nat)
    ensures UnextendCrc32cByZeroes(ExtendCrc32cByZeroes(initial, n), n) == initial
    ensures ExtendCrc32cByZeroes(UnextendCrc32cByZeroes(initial, n), n) == initial
  {
    PolyHasConstantTerm();
    var c := Xor(initial, XOR_MASK);
    XorCancels(initial, XOR_MASK);
    UnstepsAfterSteps(POLY, c, 8 * n);
    StepsAfterUnsteps(POLY, c, 8 * n);
    XorCancels(Steps(POLY, c, 8 * n), XOR_MASK);
    XorCancels(Unsteps(POLY, c, 8 * n), XOR_MASK);
  }

  // ----- error detection -----

  lemma {:induction false} FeedAllDifference(c: Word, d: Word, a: Bits, b: Bits)
    requires |a| == |b|
    ensures Xor(FeedAll(POLY, c, a), FeedAll(POLY, d, b)) == FeedAll(POLY, Xor(c, d), Xor(a, b))
    decreases |a|
  {
    if a != [] {
      var x, y := c[0 := c[0] != a[0]], d[0 := d[0] != b[0]];
      StepLinear(POLY, x, y);
      assert Xor(x, y) == Xor(c, d)[0 := Xor(c, d)[0] != Xor(a, b)[0]];
      assert Xor(a, b)[1..] == Xor(a[1..], b[1..]);
      FeedAllDifference(Feed(POLY, c, a[0]), Feed(POLY, d, b[0]), a[1..], b[1..]);
    }
  }

  lemma StepsKeepsNonZero(c: Word, n: nat)
    requires c != Zeros(32)
    ensures Steps(POLY, c, n) != Zeros(32)
  {
    PolyHasConstantTerm();
    UnstepsAfterSteps(POLY, c, n);
    UnstepsAfterSteps(POLY, Zeros(32), n);
    StepsOfZero(POLY, n);
  }

  /** Two messages of one length that differ only inside a window of at most 32 bits have different
      checksums: every such burst of errors is detected. */
  lemma BurstsAreDetected(a: seq<Byte>, b: seq<Byte>, lo: nat, hi: nat)
    requires |a| == |b| && a != b
    requires lo <= hi <= 8 * |a| && hi - lo <= 32
    requires MessageBits(a)[..lo] == MessageBits(b)[..lo]
    requires MessageBits(a)[hi..] == MessageBits(b)[hi..]
    ensures ComputeCrc32c(a) != ComputeCrc32c(b)
  {
    MessageBitsDiffer(a, b);
    RegistersDiffer(MessageBits(a), MessageBits(b), lo, hi);
    XorZero(XOR_MASK);
    DistinctRegisters(Extend(XOR_MASK, a), Extend(XOR_MASK, b));
  }

  lemma RegistersDiffer(x: Bits, y: Bits, lo: nat, hi: nat)
    requires |x| == |y| && x != y && lo <= hi <= |x| && hi - lo <= 32
    requires x[..lo] == y[..lo] && x[hi..] == y[hi..]
    ensures FeedAll(POLY, XOR_MASK, x) != FeedAll(POLY, XOR_MASK, y)
  {
    BurstShape(x, y, lo, hi);
    BurstLeavesTrace(Xor(x, y)[lo..hi], lo, |x| - hi);
    FeedAllDifference(XOR_MASK, XOR_MASK, x, y);
    XorCancels(XOR_MASK, XOR_MASK);
    XorCancels(FeedAll(POLY, XOR_MASK, x), XOR_MASK);
  }

  /** A burst among zeros does not leave the register at zero. */
  lemma BurstLeavesTrace(burst: Bits, before: nat, after: nat)
    requires |burst| <= 32 && Widen(burst, 32) != Zeros(32)
    ensures FeedAll(POLY, Zeros(32), Zeros(before) + burst + Zeros(after)) != Zeros(32)
  {
    FeedAllAppend(POLY, Zeros(32), Zeros(before) + burst, Zeros(after));
    FeedAllAppend(POLY, Zeros(32), Zeros(before), burst);
    FeedAllZeros(POLY, Zeros(32), before);
    StepsOfZero(POLY, before);
    FeedAllAtOnce(POLY, Zeros(32), burst);
    XorZero(Widen(burst, 32));
    StepsKeepsNonZero(Widen(burst, 32), |burst|);
    var s := FeedAll(POLY, Zeros(32), burst);
    FeedAllZeros(POLY, s, after);
    StepsKeepsNonZero(s, after);
  }

  lemma BurstShape(x: Bits, y: Bits, lo: nat, hi: nat)
    requires |x| == |y| && x != y && lo <= hi <= |x| && hi - lo <= 32
    requires x[..lo] == y[..lo] && x[hi..] == y[hi..]
    ensures Xor(x, y) == (Zeros(lo) + Xor(x, y)[lo..hi]) + Zeros(|x| - hi)
    ensures Widen(Xor(x, y)[lo..hi], 32) != Zeros(32)
  {
    forall i | 0 <= i < |x| && !(lo <= i < hi)
      ensures x[i] == y[i]
    {
      if i < lo {
        assert x[..lo][i] == y[..lo][i];
      } else {
        assert x[hi..][i - hi] == y[hi..][i - hi];
      }
    }
    var k :| 0 <= k < |x| && x[k] != y[k];
    assert Widen(Xor(x, y)[lo..hi], 32)[k - lo];
  }

  lemma DistinctRegisters(c: Word, d: Word)
    requires Xor(c, d) != Zeros(32)
    ensures Xor(c, XOR_MASK) != Xor(d, XOR_MASK)
  {
    XorCancels(c, XOR_MASK);
    XorCancels(d, XOR_MASK);
    XorCancels(c, c);
  }
}

/** The generator as a number, and the checksums of published messages. */
module CrcPublished {
  import opened Bits
  import opened CrcSpec
  import opened Crc32c

  // ----- words by their hexadecimal digits -----

  /** A hexadecimal digit, low bit first. */
  datatype Nibble = Nibble(b0: bool, b1: bool, b2: bool, b3: bool)

  const N0 := Nibble(false, false, false, false)
  const N1 := Nibble(true, false, false, false)
  const N2 := Nibble(false, true, false, false)
  const N3 := Nibble(true, true, false, false)
  const N4 := Nibble(false, false, true, false)
  const N5 := Nibble(true, false, true, false)
  const N6 := Nibble(false, true, true, false)
  const N7 := Nibble(true, true, true, false)
  const N8 := Nibble(false, false, false, true)
  const N9 := Nibble(true, false, false, true)
  const NA := Nibble(false, true, false, true)
  const NB := Nibble(true, true, false, true)
  const NC := Nibble(false, false, true, true)
  const ND := Nibble(true, false, true, true)
  const NE := Nibble(false, true, true, true)
  const NF := Nibble(true, true, true, true)

  function BitsOf(n: Nibble): (r: Bits)
    ensures |r| == 4
  {
    [n.b0, n.b1, n.b2, n.b3]
  }

  /** Digits with the low one first. */
  datatype Hex = Hex(d0: Nibble, d1: Nibble, d2: Nibble, d3: Nibble, d4: Nibble, d5: Nibble, d6: Nibble, d7: Nibble)

  function FourDigits(a: Nibble, b: Nibble, c: Nibble, d: Nibble): (r: Bits)
    ensures |r| == 16
  {
    BitsOf(a) + BitsOf(b) + BitsOf(c) + BitsOf(d)
  }

  function WordOf(h: Hex): Word {
    FourDigits(h.d0, h.d1, h.d2, h.d3) + FourDigits(h.d4, h.d5, h.d6, h.d7)
  }

  // ----- words as numbers -----

  function Bit(b: bool): nat {
    if b then 1 else 0
  }

  function Value(n: Nibble): nat {
    Bit(n.b0) + 2 * Bit(n.b1) + 4 * Bit(n.b2) + 8 * Bit(n.b3)
  }

  lemma NibbleValue(n: Nibble)
    ensures ToNat(BitsOf(n)) == Value(n)
  {
    var r := BitsOf(n);
    assert r[1..] == [n.b1, n.b2, n.b3] && [n.b1, n.b2, n.b3][1..] == [n.b2, n.b3];
    assert [n.b2, n.b3][1..] == [n.b3] && [n.b3][1..] == [];
    assert ToNat([n.b3]) == Bit(n.b3);
    assert ToNat([n.b2, n.b3]) == Bit(n.b2) + 2 * Bit(n.b3);
    assert ToNat([n.b1, n.b2, n.b3]) == Bit(n.b1) + 2 * Bit(n.b2) + 4 * Bit(n.b3);
  }

  function Times(p: nat, n: nat): nat {
    p * n
  }

  lemma {:induction false} ToNatAppend(a: Bits, b: Bits)
    ensures ToNat(a + b) == ToNat(a) + Times(Pow2(|a|), ToNat(b))
  {
    if a == [] {
      assert a + b == b;
    } else {
      assert (a + b)[1..] == a[1..] + b;
      ToNatAppend(a[1..], b);
      Twice(Pow2(|a| - 1), ToNat(b));
    }
  }

  lemma Twice(p: nat, n: nat)
    ensures 2 * Times(p, n) == Times(2 * p, n)
  {
  }

  lemma Powers()
    ensures Pow2(4) == 0x10 && Pow2(8) == 0x100 && Pow2(12) == 0x1000 && Pow2(16) == 0x10000
  {
    assert Pow2(4) == 16;
    assert Pow2(8) == 16 * Pow2(4);
    assert Pow2(12) == 16 * Pow2(8);
    assert Pow2(16) == 16 * Pow2(12);
  }

  lemma FourValue(a: Nibble, b: Nibble, c: Nibble, d: Nibble)
    ensures ToNat(FourDigits(a, b, c, d)) == Value(a) + 0x10 * Value(b) + 0x100 * Value(c) + 0x1000 * Value(d)
  {
    var x := BitsOf(a) + BitsOf(b);
    var y := x + BitsOf(c);
    Powers();
    NibbleValue(a);
    NibbleValue(b);
    NibbleValue(c);
    NibbleValue(d);
    ToNatAppend(BitsOf(a), BitsOf(b));
    ToNatAppend(x, BitsOf(c));
    ToNatAppend(y, BitsOf(d));
  }

  lemma HexValue(h: Hex)
    ensures ToNat(WordOf(h)) == Value(h.d0) + 0x10 * Value(h.d1) + 0x100 * Value(h.d2) + 0x1000 * Value(h.d3)
      + 0x10000 * (Value(h.d4) + 0x10 * Value(h.d5) + 0x100 * Value(h.d6) + 0x1000 * Value(h.d7))
  {
    Powers();
    FourValue(h.d0, h.d1, h.d2, h.d3);
    FourValue(h.d4, h.d5, h.d6, h.d7);
    ToNatAppend(FourDigits(h.d0, h.d1, h.d2, h.d3), FourDigits(h.d4, h.d5, h.d6, h.d7));
  }

  const POLY_HEX := Hex(N8, N7, NB, N3, N6, NF, N2, N8)

  lemma PolyDigits()
    ensures POLY == WordOf(POLY_HEX)
  {
    assert Digit(0x8) + Digit(0x7) + Digit(0xB) + Digit(0x3) == FourDigits(N8, N7, NB, N3);
    assert Digit(0x6) == BitsOf(N6) && Digit(0xF) == BitsOf(NF) && Digit(0x2) == BitsOf(N2) && Digit(0x8) == BitsOf(N8);
  }

  /** The generator is the constant of the engine. */
  lemma PolyIs()
    ensures ToNat(POLY) == 0x82F63B78
  {
    HexValue(POLY_HEX);
    PolyDigits();
  }

  // ----- the register by its digits -----

  function XorNibble(a: Nibble, b: Nibble): Nibble {
    Nibble(a.b0 != b.b0, a.b1 != b.b1, a.b2 != b.b2, a.b3 != b.b3)
  }

  lemma XorAppend(a: Bits, b: Bits, c: Bits, d: Bits)
    requires |a| == |c| && |b| == |d|
    ensures Xor(a + b, c + d) == Xor(a, c) + Xor(b, d)
  {
  }

  lemma XorNibbleIs(a: Nibble, b: Nibble)
    ensures BitsOf(XorNibble(a, b)) == Xor(BitsOf(a), BitsOf(b))
  {
  }

  lemma FourXor(a: Nibble, b: Nibble, c: Nibble, d: Nibble, e: Nibble, f: Nibble, g: Nibble, h: Nibble)
    ensures Xor(FourDigits(a, b, c, d), FourDigits(e, f, g, h))
         == FourDigits(XorNibble(a, e), XorNibble(b, f), XorNibble(c, g), XorNibble(d, h))
  {
    XorAppend(BitsOf(a) + BitsOf(b) + BitsOf(c), BitsOf(d), BitsOf(e) + BitsOf(f) + BitsOf(g), BitsOf(h));
    XorAppend(BitsOf(a) + BitsOf(b), BitsOf(c), BitsOf(e) + BitsOf(f), BitsOf(g));
    XorAppend(BitsOf(a), BitsOf(b), BitsOf(e), BitsOf(f));
    XorNibbleIs(a, e);
    XorNibbleIs(b, f);
    XorNibbleIs(c, g);
    XorNibbleIs(d, h);
  }

  function HexXor(x: Hex, y: Hex): Hex {
    Hex(XorNibble(x.d0, y.d0), XorNibble(x.d1, y.d1), XorNibble(x.d2, y.d2), XorNibble(x.d3, y.d3),
        XorNibble(x.d4, y.d4), XorNibble(x.d5, y.d5), XorNibble(x.d6, y.d6), XorNibble(x.d7, y.d7))
  }

  lemma HexXorIs(x: Hex, y: Hex)
    ensures WordOf(HexXor(x, y)) == Xor(WordOf(x), WordOf(y))
  {
    FourXor(x.d0, x.d1, x.d2, x.d3, y.d0, y.d1, y.d2, y.d3);
    FourXor(x.d4, x.d5, x.d6, x.d7, y.d4, y.d5, y.d6, y.d7);
    XorAppend(FourDigits(x.d0, x.d1, x.d2, x.d3), FourDigits(x.d4, x.d5, x.d6, x.d7),
              FourDigits(y.d0, y.d1, y.d2, y.d3), FourDigits(y.d4, y.d5, y.d6, y.d7));
  }

  /** A digit shifted right by one bit, which comes in at the top. */
  function Half(n: Nibble, top: bool): Nibble {
    Nibble(n.b1, n.b2, n.b3, top)
  }

  lemma FourHalf(a: Nibble, b: Nibble, c: Nibble, d: Nibble, top: bool)
    ensures FourDigits(Half(a, b.b0), Half(b, c.b0), Half(c, d.b0), Half(d, top)) == FourDigits(a, b, c, d)[1..] + [top]
  {
    HalfIs(a, b.b0);
    HalfIs(b, c.b0);
    HalfIs(c, d.b0);
    HalfIs(d, top);
    ShiftFour(BitsOf(a), BitsOf(b), BitsOf(c), BitsOf(d), top);
  }

  lemma HalfIs(n: Nibble, top: bool)
    ensures BitsOf(Half(n, top)) == BitsOf(n)[1..] + [top]
  {
  }

  lemma ShiftFour(a: Bits, b: Bits, c: Bits, d: Bits, top: bool)
    requires |a| == |b| == |c| == |d| == 4
    ensures (a[1..] + [b[0]]) + (b[1..] + [c[0]]) + (c[1..] + [d[0]]) + (d[1..] + [top]) == (a + b + c + d)[1..] + [top]
  {
  }

  function Halved(h: Hex): Hex {
    Hex(Half(h.d0, h.d1.b0), Half(h.d1, h.d2.b0), Half(h.d2, h.d3.b0), Half(h.d3, h.d4.b0),
        Half(h.d4, h.d5.b0), Half(h.d5, h.d6.b0), Half(h.d6, h.d7.b0), Half(h.d7, false))
  }

  lemma HalvedIs(h: Hex)
    ensures WordOf(Halved(h)) == Shr(WordOf(h), 1)
  {
    FourHalf(h.d0, h.d1, h.d2, h.d3, h.d4.b0);
    FourHalf(h.d4, h.d5, h.d6, h.d7, false);
    FirstBit(h.d4, h.d5, h.d6, h.d7);
    ShiftHalves(FourDigits(h.d0, h.d1, h.d2, h.d3), FourDigits(h.d4, h.d5, h.d6, h.d7));
  }

  lemma FirstBit(a: Nibble, b: Nibble, c: Nibble, d: Nibble)
    ensures FourDigits(a, b, c, d)[0] == a.b0
  {
  }

  lemma ShiftHalves(low: Bits, high: Bits)
    requires |low| > 0 && |high| > 0
    ensures Shr(low + high, 1) == (low[1..] + [high[0]]) + (high[1..] + [false])
  {
  }

  function HexStep(h: Hex): Hex {
    if h.d0.b0 then HexXor(Halved(h), POLY_HEX) else Halved(h)
  }

  lemma HexStepIs(h: Hex)
    ensures WordOf(HexStep(h)) == Step(POLY, WordOf(h))
  {
    PolyDigits();
    HalvedIs(h);
    HexXorIs(Halved(h), POLY_HEX);
    StepBranches(POLY, WordOf(h));
    FirstBit(h.d0, h.d1, h.d2, h.d3);
  }

  lemma ChainOfSteps(a: Word, b: Word, c: Word, d: Word, e: Word)
    requires b == Step(POLY, a) && c == Step(POLY, b) && d == Step(POLY, c) && e == Step(POLY, d)
    ensures e == Steps(POLY, a, 4)
  {
    LastStep(POLY, a, a, b, 1);
    LastStep(POLY, a, b, c, 2);
    LastStep(POLY, a, c, d, 3);
    LastStep(POLY, a, d, e, 4);
  }

  lemma FourStepsIs(h: Hex)
    ensures WordOf(HexStep(HexStep(HexStep(HexStep(h))))) == Steps(POLY, WordOf(h), 4)
  {
    var a := HexStep(h);
    var b := HexStep(a);
    var c := HexStep(b);
    HexStepIs(h);
    HexStepIs(a);
    HexStepIs(b);
    HexStepIs(c);
    ChainOfSteps(WordOf(h), WordOf(a), WordOf(b), WordOf(c), WordOf(HexStep(c)));
  }

  /** Takes in four bits of a message. */
  function HexFeed(h: Hex, n: Nibble): Hex {
    HexStep(HexStep(HexStep(HexStep(h.(d0 := XorNibble(h.d0, n))))))
  }

  lemma HexFeedIs(h: Hex, n: Nibble)
    ensures WordOf(HexFeed(h, n)) == FeedAll(POLY, WordOf(h), BitsOf(n))
  {
    FeedAllAtOnce(POLY, WordOf(h), BitsOf(n));
    FourStepsIs(h.(d0 := XorNibble(h.d0, n)));
    MixNibble(h, n);
  }

  lemma MixNibble(h: Hex, n: Nibble)
    ensures WordOf(h.(d0 := XorNibble(h.d0, n))) == Xor(WordOf(h), Widen(BitsOf(n), 32))
  {
    var mixed := h.(d0 := XorNibble(h.d0, n));
    XorNibbleIs(h.d0, n);
    FirstDigit(h);
    FirstDigit(mixed);
    var rest := WordOf(h)[4..];
    XorAppend(BitsOf(h.d0), rest, BitsOf(n), Zeros(28));
    XorZero(rest);
  }

  lemma FirstDigit(h: Hex)
    ensures WordOf(h) == BitsOf(h.d0) + (BitsOf(h.d1) + BitsOf(h.d2) + BitsOf(h.d3) + FourDigits(h.d4, h.d5, h.d6, h.d7))
    ensures WordOf(h)[4..] == BitsOf(h.d1) + BitsOf(h.d2) + BitsOf(h.d3) + FourDigits(h.d4, h.d5, h.d6, h.d7)
  {
  }

  // ----- messages -----

  /** Takes in a byte, low digit first. */
  function HexByte(h: Hex, low: Nibble, high: Nibble): Hex {
    HexFeed(HexFeed(h, low), high)
  }

  /** The digits of a byte. */
  predicate Spells(b: Byte, low: Nibble, high: Nibble) {
    b == Value(low) + 16 * Value(high)
  }

  lemma SpelledBits(b: Byte, low: Nibble, high: Nibble)
    requires Spells(b, low, high)
    ensures FromNat(b, 8) == BitsOf(low) + BitsOf(high)
  {
    Powers();
    NibbleValue(low);
    NibbleValue(high);
    ToNatAppend(BitsOf(low), BitsOf(high));
    FromToNat(BitsOf(low) + BitsOf(high));
  }

  lemma HexByteIs(h: Hex, b: Byte, low: Nibble, high: Nibble)
    requires Spells(b, low, high)
    ensures WordOf(HexByte(h, low, high)) == FeedAll(POLY, WordOf(h), FromNat(b, 8))
  {
    SpelledBits(b, low, high);
    HexFeedIs(h, low);
    HexFeedIs(HexFeed(h, low), high);
    FeedAllAppend(POLY, WordOf(h), BitsOf(low), BitsOf(high));
  }

  /** The bytes of a message from `i` up to `j` take the register from `h` to `h'`. */
  ghost predicate Extends(data: seq<Byte>, i: nat, h: Hex, j: nat, h': Hex)
    requires i <= |data| && j <= |data|
  {
    Extend(WordOf(h), data[i..]) == Extend(WordOf(h'), data[j..])
  }

  lemma OneByte(data: seq<Byte>, i: nat, low: Nibble, high: Nibble, h: Hex, h': Hex)
    requires i < |data| && Spells(data[i], low, high) && HexByte(h, low, high) == h'
    ensures Extends(data, i, h, i + 1, h')
  {
    HexByteIs(h, data[i], low, high);
    assert data[i..][1..] == data[i + 1..];
    FeedAllAppend(POLY, WordOf(h), FromNat(data[i], 8), MessageBits(data[i + 1..]));
  }

  lemma TwoBytes(data: seq<Byte>, i: nat, low: Nibble, high: Nibble, low': Nibble, high': Nibble, h: Hex)
    requires i + 1 < |data| && Spells(data[i], low, high) && Spells(data[i + 1], low', high')
    ensures Extends(data, i, h, i + 2, HexByte(HexByte(h, low, high), low', high'))
  {
    var h' := HexByte(h, low, high);
    OneByte(data, i, low, high, h, h');
    OneByte(data, i + 1, low', high', h', HexByte(h', low', high'));
  }

  const ONES := Hex(NF, NF, NF, NF, NF, NF, NF, NF)

  /** A checksum from what the register is after all bytes. */
  lemma ChecksumFrom(data: seq<Byte>, h: Hex)
    requires Extends(data, 0, ONES, |data|, h)
    ensures ComputeCrc32c(data) == WordOf(HexXor(h, ONES))
  {
    assert data[0..] == data && data[|data|..] == [];
    assert WordOf(ONES) == Ones(32);
    XorZero(XOR_MASK);
    HexXorIs(h, ONES);
  }

  // ----- published messages -----

  /** "hello world" in ASCII. */
  const HELLO: seq<Byte> := [0x68, 0x65, 0x6C, 0x6C, 0x6F, 0x20, 0x77, 0x6F, 0x72, 0x6C, 0x64]

  lemma Hello0(data: seq<Byte>)
    requires data == HELLO
    ensures Extends(data, 0, Hex(NF, NF, NF, NF, NF, NF, NF, NF), 2, Hex(ND, NE, N9, NE, N1, N2, N7, N4))
  {
    assert HexByte(Hex(NF, NF, NF, NF, NF, NF, NF, NF), N8, N6) == Hex(N3, N0, N7, N6, ND, N9, N6, N4);
    assert HexByte(Hex(N3, N0, N7, N6, ND, N9, N6, N4), N5, N6) == Hex(ND, NE, N9, NE, N1, N2, N7, N4);
    TwoBytes(data, 0, N8, N6, N5, N6, Hex(NF, NF, NF, NF, NF, NF, NF, NF));
  }

  lemma Hello2(data: seq<Byte>)
    requires data == HELLO
    ensures Extends(data, 2, Hex(ND, NE, N9, NE, N1, N2, N7, N4), 4, Hex(NB, NC, NA, N0, N6, N6, NF, N5))
  {
    assert HexByte(Hex(ND, NE, N9, NE, N1, N2, N7, N4), NC, N6) == Hex(N2, N9, N9, N9, NA, ND, N0, N7);
    assert HexByte(Hex(N2, N9, N9, N9, NA, ND, N0, N7), NC, N6) == Hex(NB, NC, NA, N0, N6, N6, NF, N5);
    TwoBytes(data, 2, NC, N6, NC, N6, Hex(ND, NE, N9, NE, N1, N2, N7, N4));
  }

  lemma Hello4(data: seq<Byte>)
    requires data == HELLO
    ensures Extends(data, 4, Hex(NB, NC, NA, N0, N6, N6, NF, N5), 6, Hex(N7, NA, N1, N8, ND, N9, N1, N8))
  {
    assert HexByte(Hex(NB, NC, NA, N0, N6, N6, NF, N5), NF, N6) == Hex(N3, NB, N4, N4, NE, N8, N5, N6);
    assert HexByte(Hex(N3, NB, N4, N4, NE, N8, N5, N6), N0, N2) == Hex(N7, NA, N1, N8, ND, N9, N1, N8);
    TwoBytes(data, 4, NF, N6, N0, N2, Hex(NB, NC, NA, N0, N6, N6, NF, N5));
  }

  lemma Hello6(data: seq<Byte>)
    requires data == HELLO
    ensures Extends(data, 6, Hex(N7, NA, N1, N8, ND, N9, N1, N8), 8, Hex(NC, ND, NB, N5, N9, N5, N4, N7))
  {
    assert HexByte(Hex(N7, NA, N1, N8, ND, N9, N1, N8), N7, N7) == Hex(NA, N2, NC, N7, N2, N5, N3, ND);
    assert HexByte(Hex(NA, N2, NC, N7, N2, N5, N3, ND), NF, N6) == Hex(NC, ND, NB, N5, N9, N5, N4, N7);
    TwoBytes(data, 6, N7, N7, NF, N6, Hex(N7, NA, N1, N8, ND, N9, N1, N8));
  }

  lemma Hello8(data: seq<Byte>)
    requires data == HELLO
    ensures Extends(data, 8, Hex(NC, ND, NB, N5, N9, N5, N4, N7), 10, Hex(N2, N7, N2, ND, NA, NB, N4, N9))
  {
    assert HexByte(Hex(NC, ND, NB, N5, N9, N5, N4, N7), N2, N7) == Hex(NA, ND, N3, N5, N7, N4, NE, N0);
    assert HexByte(Hex(NA, ND, N3, N5, N7, N4, NE, N0), NC, N6) == Hex(N2, N7, N2, ND, NA, NB, N4, N9);
    TwoBytes(data, 8, N2, N7, NC, N6, Hex(NC, ND, NB, N5, N9, N5, N4, N7));
  }

  lemma Hello10(data: seq<Byte>)
    requires data == HELLO
    ensures Extends(data, 10, Hex(N2, N7, N2, ND, NA, NB, N4, N9), 11, Hex(N5, N5, NA, N9, NB, N6, N6, N3))
  {
    assert HexByte(Hex(N2, N7, N2, ND, NA, NB, N4, N9), N4, N6) == Hex(N5, N5, NA, N9, NB, N6, N6, N3);
    OneByte(data, 10, N4, N6, Hex(N2, N7, N2, ND, NA, NB, N4, N9), Hex(N5, N5, NA, N9, NB, N6, N6, N3));
  }

  lemma HelloDigits(data: seq<Byte>)
    requires data == HELLO
    ensures ComputeCrc32c(data) == WordOf(Hex(NA, NA, N5, N6, N4, N9, N9, NC))
  {
    Hello0(data);
    Hello2(data);
    Hello4(data);
    Hello6(data);
    Hello8(data);
    Hello10(data);
    ChecksumFrom(data, Hex(N5, N5, NA, N9, NB, N6, N6, N3));
  }

  /** The checksum of "hello world". */
  lemma HelloChecksum()
    ensures ToNat(ComputeCrc32c(HELLO)) == 0xC99465AA
  {
    HelloDigits(HELLO);
    HexValue(Hex(NA, NA, N5, N6, N4, N9, N9, NC));
  }
}

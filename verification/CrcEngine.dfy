/** The table-driven CRC engine of crc.cc. */
module CrcEngine {
  import opened Bits
  import opened CrcSpec
  import opened CrcPolynomial
  import opened Crc32c
  import opened CrcTables
  import opened CrcCarryless
  import opened CrcReverse
  import opened CrcSwath

  // ----- one byte through the table -----

  /** Looking up the low byte and shifting the rest down advances a register by eight bits. */
  lemma TableStep(poly: Word, table: array<Word>, w: Word)
    requires ByteTable(poly, table, 1)
    ensures ToNat(w[..8]) < 256
    ensures Xor(Shr(w, 8), table[ToNat(w[..8])]) == Advance(poly, w, 1)
  {
    Pow2OfSmall();
    FromToNat(w[..8]);
    StepsSplit(poly, w, 8);
  }

  lemma WideByte(poly: Word, b: Bits)
    requires |b| == 8
    ensures Advance(Widen(poly, 64), Widen(b, 64), 1) == Widen(Advance(poly, Widen(b, 32), 1), 64)
  {
    assert Widen(b, 64) == Widen(Widen(b, 32), 64);
    StepsOfWidened(poly, Widen(b, 32), 64, 8);
  }

  /** Reduction of a 64-bit value by one byte, through the 32-bit table. */
  lemma WideTableStep(poly: Word, table: array<Word>, r: Bits)
    requires |r| == 64 && ByteTable(poly, table, 1)
    ensures ToNat(r[..8]) < 256
    ensures Xor(Shr(r, 8), Widen(table[ToNat(r[..8])], 64)) == Advance(Widen(poly, 64), r, 1)
  {
    Pow2OfSmall();
    FromToNat(r[..8]);
    WideByte(poly, r[..8]);
    StepsSplit(Widen(poly, 64), r, 8);
  }

  // ----- ExtendByZeroesImpl -----

  /** One round of the carry-less multiplication takes in eight more bits of `l`. */
  lemma MultiplyRound(poly: Word, l: Word, m: Word, x: nat)
    requires x + 8 <= 32
    ensures Advance(Widen(poly, 64),
                  Xor(Widen(MulLow(poly, l, m, x), 64), ByteProduct(Shr(l, x), Widen(m, 64))), 1)
         == Widen(MulLow(poly, l, m, x + 8), 64)
  {
    var g, low := Widen(poly, 64), MulLow(poly, l, m, x);
    var shifted: Word := Shr(l, x);
    var product := ByteProduct(shifted, Widen(m, 64));
    var high := MulLow(poly, l[x..], m, 8);
    AdvanceLinear(g, Widen(low, 64), product, 1);
    assert Advance(g, Widen(low, 64), 1) == Widen(Advance(poly, low, 1), 64) by {
      StepsOfWidened(poly, low, 64, 8);
    }
    assert Advance(g, product, 1) == Widen(high, 64) by {
      ByteReduces(poly, shifted, m);
      assert shifted[..8] == l[x..][..8];
      MulLowPrefix(poly, shifted, l[x..], m, 8);
    }
    XorWiden(Advance(poly, low, 1), high, 64);
    MulLowSplit(poly, l, m, x, 8);
  }

  lemma ByteReduces(poly: Word, l: Word, m: Word)
    ensures Advance(Widen(poly, 64), ByteProduct(l, Widen(m, 64)), 1) == Widen(MulLow(poly, l, m, 8), 64)
  {
    ByteProductIsCarryless(l, Widen(m, 64));
    CarrylessReduces(poly, l, m, 8);
  }

  /** Reduces one byte of a 64-bit value. */
  method ReduceByte(r: Bits, table: array<Word>, ghost poly: Word) returns (r': Bits)
    requires |r| == 64 && ByteTable(poly, table, 1)
    ensures r' == Advance(Widen(poly, 64), r, 1)
  {
    WideTableStep(poly, table, r);
    r' := Xor(Shr(r, 8), Widen(table[ToNat(r[..8])], 64));
  }

  lemma ShrTwice(l: Word, x: nat)
    requires x + 8 <= 32
    ensures Shr(Shr(l, x), 8) == Shr(l, x + 8)
  {
  }

  method MultiplyByTable(l0: Word, m32: Word, table: array<Word>, ghost poly: Word) returns (r: Word)
    requires ByteTable(poly, table, 1)
    ensures r == Mul(poly, l0, m32)
  {
    var w := Widen(m32, 64);
    var l: Word := l0;
    var result := Zeros(64);
    var x := 0;
    MultiplyStarts(poly, l0, m32);
    while x < 32
      invariant x == 0 || x == 8 || x == 16 || x == 24 || x == 32
      invariant l == Shr(l0, x)
      invariant result == Widen(MulLow(poly, l0, m32, x), 64)
    {
      MultiplyRound(poly, l0, m32, x);
      ShrTwice(l0, x);
      result := Xor(result, ByteProduct(l, w));
      l := Shr(l, 8);
      result := ReduceByte(result, table, poly);
      x := x + 8;
    }
    r := result[..32];
  }

  lemma MultiplyStarts(poly: Word, l: Word, m: Word)
    ensures Shr(l, 0) == l
    ensures Zeros(64) == Widen(MulLow(poly, l, m, 0), 64)
  {
  }

  /** The digits of `length` already handled, and the digit at hand. */
  lemma SplitDigit(length: nat, d: nat)
    ensures length % Pow16(d + 1) == length % Pow16(d) + Zeroes16(length / Pow16(d) % 16, d)
    ensures length / Pow16(d) / 16 == length / Pow16(d + 1)
  {
    var p := Pow16(d);
    var q, r := length / p, length % p;
    var q', c := q / 16, q % 16;
    assert length == q * p + r;
    DigitArithmetic(p, q', c, r);
    DivModUnique(length, 16 * p, q', c * p + r);
  }

  lemma DigitArithmetic(p: nat, q: nat, c: nat, r: nat)
    requires c < 16 && r < p
    ensures (16 * q + c) * p + r == q * (16 * p) + (c * p + r)
    ensures c * p + r < 16 * p
  {
    assert (16 * q + c) * p == (16 * q) * p + c * p;
    assert c * p + (15 - c) * p == 15 * p;
  }

  lemma DivModUnique(n: nat, d: nat, q: nat, r: nat)
    requires d > 0 && n == q * d + r && r < d
    ensures n / d == q && n % d == r
  {
    var k := n / d - q;
    assert k * d == r - n % d;
    assert k >= 1 ==> k * d >= d;
    assert k <= -1 ==> k * d + d <= 0;
  }

  /** Multiplies by the power for digit `c` at place `d`. */
  method ExtendDigit(l: Word, c: nat, i: nat, zeroes: array<Word>, table: array<Word>, ghost poly: Word, ghost d: nat)
      returns (l': Word)
    requires d < 16 && i == 15 * d && c < 16
    requires ZeroesTable(poly, zeroes, 16) && ByteTable(poly, table, 1)
    ensures l' == Advance(poly, l, Zeroes16(c, d))
  {
    if c == 0 {
      return l;
    }
    MulByBytePower(poly, Zeroes16(c, d), l);
    l' := MultiplyByTable(l, zeroes[c + i - 1], table, poly);
  }

  method ExtendByZeroesImpl(crc: Word, length: nat, zeroes: array<Word>, table: array<Word>, ghost poly: Word)
      returns (l: Word)
    requires length < SIZE_LIMIT
    requires ZeroesTable(poly, zeroes, 16) && ByteTable(poly, table, 1)
    ensures l == Advance(poly, crc, length)
  {
    l := crc;
    var rest := length;
    var i := 0;
    ghost var d: nat := 0;
    while rest != 0
      invariant d <= 16 && i == 15 * d && rest == length / Pow16(d)
      invariant l == Advance(poly, crc, length % Pow16(d))
      decreases rest
    {
      RestNonZero(length, d);
      SplitDigit(length, d);
      var c := rest % 16;
      AdvanceAdds(poly, crc, length % Pow16(d), Zeroes16(c, d));
      l := ExtendDigit(l, c, i, zeroes, table, poly, d);
      i := i + 15;
      rest := rest / 16;
      d := d + 1;
    }
    AllDigits(length, d);
  }

  lemma RestNonZero(length: nat, d: nat)
    requires length < SIZE_LIMIT && d <= 16 && length / Pow16(d) != 0
    ensures d < 16
  {
    Pow16OfWord();
  }

  lemma AllDigits(length: nat, d: nat)
    requires length / Pow16(d) == 0
    ensures length % Pow16(d) == length
  {
  }

  // ----- Extend -----

  /** The byte position after which the data at address `addr` is aligned to four bytes. */
  function RoundUp4(addr: nat): nat {
    (addr + 3) / 4 * 4
  }

  /** Mixing a byte into a register touches its low byte only. */
  lemma MixByte(l: Word, b: Bits)
    requires |b| == 8
    ensures Xor(l, Widen(b, 32))[..8] == Xor(l[..8], b)
    ensures Shr(Xor(l, Widen(b, 32)), 8) == Shr(l, 8)
  {
  }

  lemma FeedByte(l: Word, b: Bits)
    requires |b| == 8
    ensures FeedAll(POLY, l, b) == Advance(POLY, Xor(l, Widen(b, 32)), 1)
  {
    FeedAllAtOnce(POLY, l, b);
  }

  method StepOneByte(l: Word, b: Byte, table0: array<Word>) returns (r: Word)
    requires ByteTable(POLY, table0, 1)
    ensures r == FeedAll(POLY, l, FromNat(b, 8))
  {
    var byte := FromNat(b, 8);
    var c := Xor(l[..8], byte);
    MixByte(l, byte);
    FeedByte(l, byte);
    TableStep(POLY, table0, Xor(l, Widen(byte, 32)));
    r := Xor(Shr(l, 8), table0[ToNat(c)]);
  }

  /** Bytes `p` up to `x`, one at a time. */
  method StepBytes(l: Word, data: seq<Byte>, p: nat, x: nat, table0: array<Word>, ghost crc: Word) returns (r: Word)
    requires p <= x <= |data| && ByteTable(POLY, table0, 1)
    requires l == Extend(crc, data[..p])
    ensures r == Extend(crc, data[..x])
  {
    r := l;
    var i := p;
    while i != x
      invariant p <= i <= x
      invariant r == Extend(crc, data[..i])
    {
      OneMoreByte(crc, data, i);
      r := StepOneByte(r, data[i], table0);
      i := i + 1;
    }
  }

  lemma MessageOfOneByte(b: Byte)
    ensures MessageBits([b]) == FromNat(b, 8)
  {
    assert MessageBits([b]) == FromNat(b, 8) + MessageBits([]);
  }

  lemma OneMoreByte(crc: Word, data: seq<Byte>, i: nat)
    requires i < |data|
    ensures Extend(crc, data[..i + 1]) == FeedAll(POLY, Extend(crc, data[..i]), FromNat(data[i], 8))
  {
    ExtendAdvances(crc, data, i, 1);
    assert data[i..i + 1] == [data[i]];
    MessageOfOneByte(data[i]);
  }

  /** The four rows that carry a word past sixteen bytes, one byte at a time. */
  ghost predicate WordTables(table: seq<array<Word>>)
    reads table
  {
    |table| == 4 && forall j :: 0 <= j < 4 ==> ByteTable(POLY, table[j], 13 + j)
  }

  /** A byte in place `k` of a word that is zero elsewhere. */
  function Placed(b: Bits, k: nat): Word
    requires |b| == 8 && k < 4
  {
    Zeros(8 * k) + b + Zeros(24 - 8 * k)
  }

  lemma PlacedShifts(b: Bits, k: nat)
    requires |b| == 8 && k < 4
    ensures Placed(b, k)[..8 * k] == Zeros(8 * k)
    ensures Shr(Placed(b, k), 8 * k) == Widen(b, 32)
  {
  }

  /** Byte `k` of a word, advanced past sixteen bytes, is an entry of row `3 - k`. */
  lemma WordByte(b: Bits, k: nat)
    requires |b| == 8 && k < 4
    ensures Zero16(Placed(b, k)) == Advance(POLY, Widen(b, 32), 13 + (3 - k))
  {
    var w := Placed(b, k);
    PlacedShifts(b, k);
    StepsOfShifted(POLY, w, 8 * k);
    AdvanceAdds(POLY, w, k, 16 - k);
  }

  lemma TableEntry(table: seq<array<Word>>, j: nat, b: Bits)
    requires WordTables(table) && j < 4 && |b| == 8
    ensures ToNat(b) < 256
    ensures table[j][ToNat(b)] == Advance(POLY, Widen(b, 32), 13 + j)
  {
    RowEntry(POLY, table[j], 13 + j, b);
  }

  lemma RowEntry(poly: Word, row: array<Word>, n: nat, b: Bits)
    requires ByteTable(poly, row, n) && |b| == 8
    ensures ToNat(b) < 256
    ensures row[ToNat(b)] == Advance(poly, Widen(b, 32), n)
  {
    Pow2OfSmall();
    FromToNat(b);
  }

  lemma SwathEntry(table: seq<array<Word>>, b: Bits, k: nat)
    requires WordTables(table) && |b| == 8 && k < 4
    ensures ToNat(b) < 256
    ensures table[3 - k][ToNat(b)] == Zero16(Placed(b, k))
  {
    TableEntry(table, 3 - k, b);
    WordByte(b, k);
  }

  lemma PlacedBytes(c: Word)
    ensures c == Xor(Xor(Xor(Placed(c[0..8], 0), Placed(c[8..16], 1)), Placed(c[16..24], 2)), Placed(c[24..32], 3))
  {
    assert Xor(Placed(c[0..8], 0), Placed(c[8..16], 1)) == c[..16] + Zeros(16);
    assert Xor(c[..16] + Zeros(16), Placed(c[16..24], 2)) == c[..24] + Zeros(8);
  }

  lemma WordSplits(w0: Word, w1: Word, w2: Word, w3: Word)
    ensures Zero16(Xor(Xor(Xor(w0, w1), w2), w3)) == Xor(Xor(Xor(Zero16(w0), Zero16(w1)), Zero16(w2)), Zero16(w3))
  {
    Zero16Linear(w0, w1);
    Zero16Linear(Xor(w0, w1), w2);
    Zero16Linear(Xor(Xor(w0, w1), w2), w3);
  }

  lemma SwathJoins(c: Word, e3: Word, e2: Word, e1: Word, e0: Word)
    requires e3 == Zero16(Placed(c[0..8], 0)) && e2 == Zero16(Placed(c[8..16], 1))
    requires e1 == Zero16(Placed(c[16..24], 2)) && e0 == Zero16(Placed(c[24..32], 3))
    ensures Zero16(c) == Xor(Xor(Xor(e3, e2), e1), e0)
  {
    PlacedBytes(c);
    WordSplits(Placed(c[0..8], 0), Placed(c[8..16], 1), Placed(c[16..24], 2), Placed(c[24..32], 3));
  }

  lemma XorChain(w: Word, a: Word, b: Word, c: Word, d: Word)
    ensures Xor(Xor(Xor(Xor(w, a), b), c), d) == Xor(w, Xor(Xor(Xor(a, b), c), d))
  {
  }

  method Lookup(table: seq<array<Word>>, b: Bits, k: nat) returns (e: Word)
    requires WordTables(table) && |b| == 8 && k < 4
    ensures e == Zero16(Placed(b, k))
  {
    SwathEntry(table, b, k);
    e := table[3 - k][ToNat(b)];
  }

  /** Carries a register past sixteen bytes with four lookups and takes in a word. */
  method StepSwath(crc: Word, data: seq<Byte>, p: nat, table: seq<array<Word>>) returns (r: Word)
    requires p + 4 <= |data| && WordTables(table)
    ensures r == Xor(Load32(data, p), Zero16(crc))
  {
    var e3 := Lookup(table, crc[0..8], 0);
    var e2 := Lookup(table, crc[8..16], 1);
    var e1 := Lookup(table, crc[16..24], 2);
    var e0 := Lookup(table, crc[24..32], 3);
    var w := Load32(data, p);
    SwathJoins(crc, e3, e2, e1, e0);
    XorChain(w, e3, e2, e1, e0);
    r := Xor(Xor(Xor(Xor(w, e3), e2), e1), e0);
  }

  /** The four registers as the engine holds them. */
  datatype Buffers = Buffers(b0: Word, b1: Word, b2: Word, b3: Word) {
    function Join(): Word {
      Joined(b0, b1, b2, b3)
    }
  }

  method StepStride(b: Buffers, data: seq<Byte>, p: nat, table: seq<array<Word>>) returns (b': Buffers)
    requires p + 16 <= |data| && WordTables(table)
    ensures b'.Join() == Extend(b.Join(), data[p..p + 16])
  {
    var b0 := StepSwath(b.b0, data, p, table);
    var b1 := StepSwath(b.b1, data, p + 4, table);
    var b2 := StepSwath(b.b2, data, p + 8, table);
    var b3 := StepSwath(b.b3, data, p + 12, table);
    StrideAdvances(b.b0, b.b1, b.b2, b.b3, data, p);
    b' := Buffers(b0, b1, b2, b3);
  }

  method StepRotation(b: Buffers, data: seq<Byte>, p: nat, table: seq<array<Word>>) returns (b': Buffers)
    requires p + 4 <= |data| && WordTables(table)
    ensures b'.Join() == Extend(b.Join(), data[p..p + 4])
  {
    var tmp := StepSwath(b.b0, data, p, table);
    RotationAdvances(b.b0, b.b1, b.b2, b.b3, data, p);
    b' := Buffers(b.b1, b.b2, b.b3, tmp);
  }

  /** One table step over a zero byte. */
  method ZeroByte(w: Word, table0: array<Word>) returns (r: Word)
    requires ByteTable(POLY, table0, 1)
    ensures r == Advance(POLY, w, 1)
  {
    TableStep(POLY, table0, w);
    r := Xor(Shr(w, 8), table0[ToNat(w[..8])]);
  }

  method ZeroBytes(w0: Word, n: nat, table0: array<Word>) returns (w: Word)
    requires ByteTable(POLY, table0, 1)
    ensures w == Advance(POLY, w0, n)
  {
    w := w0;
    for i := 0 to n
      invariant w == Advance(POLY, w0, i)
    {
      AdvanceAdds(POLY, w0, i, 1);
      w := ZeroByte(w, table0);
    }
  }

  /** `combine_one_word`: four table steps. */
  method CombineOneWord(crc: Word, w0: Word, table0: array<Word>) returns (w: Word)
    requires ByteTable(POLY, table0, 1)
    ensures w == CombineWord(crc, w0)
  {
    w := ZeroBytes(Xor(w0, crc), 4, table0);
  }

  method CombineAll(b: Buffers, table0: array<Word>) returns (l: Word)
    requires ByteTable(POLY, table0, 1)
    ensures l == b.Join()
  {
    l := CombineOneWord(Zeros(32), b.b0, table0);
    l := CombineOneWord(l, b.b1, table0);
    l := CombineOneWord(l, b.b2, table0);
    l := CombineOneWord(l, b.b3, table0);
  }

  method LoadSwath(l: Word, data: seq<Byte>, p: nat) returns (b: Buffers)
    requires p + 16 <= |data|
    ensures b.Join() == Extend(l, data[p..p + 16])
  {
    ExtendSwath(l, data, p);
    b := Buffers(Xor(Load32(data, p), l), Load32(data, p + 4), Load32(data, p + 8), Load32(data, p + 12));
  }

  /** One stride, as part of the whole of the data. */
  method NextStride(b: Buffers, data: seq<Byte>, p: nat, table: seq<array<Word>>, ghost crc: Word)
      returns (b': Buffers, p': nat)
    requires p + 16 <= |data| && WordTables(table)
    requires b.Join() == Extend(crc, data[..p])
    ensures p' == p + 16 && b'.Join() == Extend(crc, data[..p'])
  {
    ExtendAdvances(crc, data, p, 16);
    b' := StepStride(b, data, p, table);
    p' := p + 16;
  }

  /** One rotation, as part of the whole of the data. */
  method NextRotation(b: Buffers, data: seq<Byte>, p: nat, table: seq<array<Word>>, ghost crc: Word)
      returns (b': Buffers, p': nat)
    requires p + 4 <= |data| && WordTables(table)
    requires b.Join() == Extend(crc, data[..p])
    ensures p' == p + 4 && b'.Join() == Extend(crc, data[..p'])
  {
    ExtendAdvances(crc, data, p, 4);
    b' := StepRotation(b, data, p, table);
    p' := p + 4;
  }

  method FourStrides(b: Buffers, data: seq<Byte>, p: nat, table: seq<array<Word>>, ghost crc: Word)
      returns (b': Buffers, p': nat)
    requires p + 64 <= |data| && WordTables(table)
    requires b.Join() == Extend(crc, data[..p])
    ensures p' == p + 64 && b'.Join() == Extend(crc, data[..p'])
  {
    b', p' := NextStride(b, data, p, table, crc);
    b', p' := NextStride(b', data, p', table, crc);
    b', p' := NextStride(b', data, p', table, crc);
    b', p' := NextStride(b', data, p', table, crc);
  }

  method LongStrides(b0: Buffers, data: seq<Byte>, p0: nat, horizon: nat, table: seq<array<Word>>, ghost crc: Word)
      returns (b: Buffers, p: nat)
    requires p0 <= |data| && horizon >= 64 && WordTables(table)
    requires b0.Join() == Extend(crc, data[..p0])
    ensures p0 <= p <= |data| && b.Join() == Extend(crc, data[..p])
  {
    b, p := b0, p0;
    while |data| - p > horizon
      invariant p0 <= p <= |data| && b.Join() == Extend(crc, data[..p])
    {
      b, p := FourStrides(b, data, p, table, crc);
    }
  }

  method ShortStrides(b0: Buffers, data: seq<Byte>, p0: nat, table: seq<array<Word>>, ghost crc: Word)
      returns (b: Buffers, p: nat)
    requires p0 <= |data| && WordTables(table)
    requires b0.Join() == Extend(crc, data[..p0])
    ensures p0 <= p <= |data| && |data| - p < 16 && b.Join() == Extend(crc, data[..p])
  {
    b, p := b0, p0;
    while |data| - p >= 16
      invariant p0 <= p <= |data| && b.Join() == Extend(crc, data[..p])
    {
      b, p := NextStride(b, data, p, table, crc);
    }
  }

  method Rotations(b0: Buffers, data: seq<Byte>, p0: nat, table: seq<array<Word>>, ghost crc: Word)
      returns (b: Buffers, p: nat)
    requires p0 <= |data| && WordTables(table)
    requires b0.Join() == Extend(crc, data[..p0])
    ensures p0 <= p <= |data| && |data| - p < 4 && b.Join() == Extend(crc, data[..p])
  {
    b, p := b0, p0;
    while |data| - p >= 4
      invariant p0 <= p <= |data| && b.Join() == Extend(crc, data[..p])
    {
      b, p := NextRotation(b, data, p, table, crc);
    }
  }

  /** The interleaved part: strides of 64, 16 and 4 bytes, up to fewer than four bytes from the
      end. */
  method ExtendInterleaved(l: Word, data: seq<Byte>, p0: nat, horizon: nat, table0: array<Word>,
                           table: seq<array<Word>>, ghost crc: Word)
      returns (r: Word, p: nat)
    requires p0 + 16 <= |data| && horizon >= 64
    requires ByteTable(POLY, table0, 1) && WordTables(table)
    requires l == Extend(crc, data[..p0])
    ensures p0 <= p <= |data| && |data| - p < 4
    ensures r == Extend(crc, data[..p])
  {
    ExtendAdvances(crc, data, p0, 16);
    var b := LoadSwath(l, data, p0);
    b, p := LongStrides(b, data, p0 + 16, horizon, table, crc);
    b, p := ShortStrides(b, data, p, table, crc);
    b, p := Rotations(b, data, p, table, crc);
    r := CombineAll(b, table0);
  }

  // ----- the engine -----

  lemma PolyAsSteps(poly: Word)
    ensures poly == Advance(poly, Unit(32, 7), 1)
  {
    StepsOfUnit(poly, 7, 8);
    assert Step(poly, Unit(32, 0)) == poly;
    assert Steps(poly, Unit(32, 0), 1) == Steps(poly, poly, 0);
  }

  /** A table for extending by one byte. */
  method ByteRow(poly: Word) returns (row: array<Word>)
    ensures fresh(row) && ByteTable(poly, row, 1)
  {
    row := new Word[256];
    PolyAsSteps(poly);
    FillWordTable(poly, poly, 1, [row], 1);
    assert ByteTable(poly, [row][0], 1 + 0);
  }

  /** The table of four rows for extending by a word and twelve zero bytes. */
  method WordRows(table0: array<Word>) returns (t: seq<array<Word>>)
    requires ByteTable(POLY, table0, 1)
    ensures WordTables(t) && forall j :: 0 <= j < |t| ==> fresh(t[j])
  {
    t := NewRows();
    var last := ZeroBytes(POLY, 12, table0);
    PolyPast12();
    FillWordTable(POLY, last, 4, t, 13);
  }

  method NewRows() returns (t: seq<array<Word>>)
    ensures |t| == 4 && forall j :: 0 <= j < 4 ==> fresh(t[j]) && t[j].Length == 256
    ensures forall a, b :: 0 <= a < b < |t| ==> t[a] != t[b]
  {
    var r0, r1, r2, r3 := new Word[256], new Word[256], new Word[256], new Word[256];
    t := [r0, r1, r2, r3];
  }

  lemma PolyPast12()
    ensures Advance(POLY, POLY, 12) == Advance(POLY, Unit(32, 7), 13)
  {
    PolyAsSteps(POLY);
    AdvanceAdds(POLY, Unit(32, 7), 1, 12);
  }

  method ZeroesRow(poly: Word) returns (row: array<Word>)
    ensures fresh(row) && ZeroesTable(poly, row, 16)
  {
    row := new Word[256];
    var j := FillZeroesTable(poly, row);
  }

  /** The tables that one generator needs to extend by a byte and by zeroes. */
  ghost predicate TablesFor(poly: Word, row: array<Word>, zeroes: array<Word>)
    reads row, zeroes
  {
    ByteTable(poly, row, 1) && ZeroesTable(poly, zeroes, 16)
  }

  method RowsFor(poly: Word) returns (row: array<Word>, zeroes: array<Word>)
    ensures fresh(row) && fresh(zeroes) && TablesFor(poly, row, zeroes)
  {
    row := ByteRow(poly);
    zeroes := ZeroesRow(poly);
  }

  method InitTables() returns (row: array<Word>, zeroes: array<Word>, rows: seq<array<Word>>,
                               reverseRow: array<Word>, reverseZeroes: array<Word>)
    ensures TablesFor(POLY, row, zeroes) && WordTables(rows) && TablesFor(UnextendPoly(POLY), reverseRow, reverseZeroes)
  {
    row, zeroes := RowsFor(POLY);
    rows := WordRows(row);
    reverseRow, reverseZeroes := RowsFor(UnextendPoly(POLY));
  }

  class Crc32 {
    const table0: array<Word>
    const zeroes: array<Word>
    const table: seq<array<Word>>
    const reverseTable0: array<Word>
    const reverseZeroes: array<Word>

    ghost predicate Valid()
      reads table0, zeroes, table, reverseTable0, reverseZeroes
    {
      && TablesFor(POLY, table0, zeroes)
      && WordTables(table)
      && TablesFor(UnextendPoly(POLY), reverseTable0, reverseZeroes)
    }

    /** `InitTables`. */
    constructor ()
      ensures Valid()
    {
      var t0, z, rows, r0, rz := InitTables();
      table0, zeroes, table := t0, z, rows;
      reverseTable0, reverseZeroes := r0, rz;
    }

    method Extend(crc: Word, data: seq<Byte>, addr: nat, needAlignedLoads: bool, horizon: nat) returns (l: Word)
      requires Valid() && horizon >= 64
      ensures l == Crc32c.Extend(crc, data)
    {
      l := crc;
      var p := 0;
      assert data[..0] == [];
      if needAlignedLoads {
        var x := RoundUp4(addr) - addr;
        if x <= |data| {
          l := StepBytes(l, data, p, x, table0, crc);
          p := x;
        }
      }
      if |data| - p >= 16 {
        l, p := ExtendInterleaved(l, data, p, horizon, table0, table, crc);
      }
      l := StepBytes(l, data, p, |data|, table0, crc);
      assert data[..|data|] == data;
    }

    method ExtendByZeroes(crc: Word, length: nat) returns (r: Word)
      requires Valid() && length < SIZE_LIMIT
      ensures r == Crc32c.ExtendByZeroes(crc, length)
    {
      r := ExtendByZeroesImpl(crc, length, zeroes, table0, POLY);
    }

    method UnextendByZeroes(crc: Word, length: nat) returns (r: Word)
      requires Valid() && length < SIZE_LIMIT
      ensures r == Crc32c.UnextendByZeroes(crc, length)
    {
      ReverseBitsMirrors(crc);
      MirroredSteps(POLY, crc, 8 * length);
      r := ReverseBits(crc);
      r := ExtendByZeroesImpl(r, length, reverseZeroes, reverseTable0, UnextendPoly(POLY));
      ReverseBitsMirrors(r);
      MirrorTwice(Crc32c.UnextendByZeroes(crc, length));
      r := ReverseBits(r);
    }
  }
}

/** The tables of the CRC engine and the loops that fill them. */
module CrcTables {
  import opened Bits
  import opened CrcSpec
  import opened CrcPolynomial
  import opened Crc32c

  /** A byte as a register value. */
  function ByteWord(b: Byte): Word {
    Widen(FromNat(b, 8), 32)
  }

  /** Row `a` advances a byte past `n` zero bytes. */
  ghost predicate ByteTable(poly: Word, a: array<Word>, n: nat)
    reads a
  {
    a.Length == 256 && forall i: Byte :: a[i] == Advance(poly, ByteWord(i), n)
  }

  /** Entry `15 * d + a - 1` is the power of `x` that appends `a * 16^d` zero bytes, for the digits
      `d` below `digits`. */
  ghost predicate ZeroesTable(poly: Word, z: array<Word>, digits: nat)
    reads z
  {
    z.Length == 256 && digits <= 16 &&
    forall d: nat, a: nat {:trigger Zeroes16(a, d)} :: d < digits && 1 <= a < 16 ==>
      z[15 * d + a - 1] == BytePower(poly, Zeroes16(a, d))
  }

  function Pow16(d: nat): (r: nat)
    ensures r > 0
  {
    if d == 0 then 1 else 16 * Pow16(d - 1)
  }

  function Zeroes16(a: nat, d: nat): nat {
    a * Pow16(d)
  }

  // ----- PolyMultiply -----

  /** The mask that the multiplication walks down the word, with `i` bits still to visit. */
  function Mask(i: nat): Word {
    if i == 0 then Zeros(32) else Unit(32, i - 1)
  }

  lemma MaskWalks(l: Word, i: nat)
    requires 0 < i <= 32
    ensures Mask(i) != Zeros(32)
    ensures And(l, Mask(i)) != Zeros(32) <==> l[i - 1]
    ensures Shr(Mask(i), 1) == Mask(i - 1)
  {
    var one := Mask(i);
    assert one[i - 1];
    assert And(l, one)[i - 1] == l[i - 1];
    if !l[i - 1] {
      assert And(l, one) == Zeros(32);
    }
  }

  /** One step, on a branch. */
  method ShiftDown(c: Word, poly: Word) returns (r: Word)
    ensures r == Step(poly, c)
  {
    StepBranches(poly, c);
    if c[0] {
      r := Xor(Shr(c, 1), poly);
    } else {
      r := Shr(c, 1);
    }
  }

  method PolyMultiply(val: Word, m: Word, poly: Word) returns (result: Word)
    ensures result == Mul(poly, val, m)
  {
    var m': Word := m;
    result := Zeros(32);
    var one: Word := Unit(32, 31);
    ghost var i: nat := 32;
    XorZero(Mul(poly, val, m));
    while one != Zeros(32)
      invariant i <= 32 && one == Mask(i)
      invariant Xor(result, MulLow(poly, val, m', i)) == Mul(poly, val, m)
      decreases i
    {
      MaskWalks(val, i);
      XorAssociates(result, m', MulLow(poly, val, Step(poly, m'), i - 1));
      if And(val, one) != Zeros(32) {
        result := Xor(result, m');
      }
      m' := ShiftDown(m', poly);
      one := Shr(one, 1);
      i := i - 1;
    }
    if i > 0 {
      MaskWalks(val, i);
    }
    XorZero(result);
  }

  // ----- FillWordTable -----

  lemma Pow2OfSmall()
    ensures Pow2(0) == 1 && Pow2(1) == 2 && Pow2(2) == 4 && Pow2(3) == 8
    ensures Pow2(4) == 16 && Pow2(5) == 32 && Pow2(6) == 64 && Pow2(7) == 128 && Pow2(8) == 256
  {
    assert Pow2(3) == 8;
    assert Pow2(6) == 8 * Pow2(3);
  }

  lemma ByteWordOfPow2(b: nat)
    requires b < 8
    ensures Pow2(b) < 256 && ByteWord(Pow2(b)) == Unit(32, b)
  {
    Pow2OfSmall();
    FromNatOfPow2(b, 8);
  }

  lemma ByteWordOfSum(b: nat, n: nat)
    requires b < 8 && n < Pow2(b)
    ensures Pow2(b) + n < 256 && ByteWord(Pow2(b) + n) == Xor(ByteWord(Pow2(b)), ByteWord(n))
  {
    Pow2OfSmall();
    ByteWordOfPow2(b);
    FromNatOfSum(b, n, 8);
    XorWiden(Unit(8, b), FromNat(n, 8), 32);
    assert Unit(32, b) == Widen(Unit(8, b), 32);
  }

  lemma StepOfUnit(poly: Word, b: nat)
    requires 0 < b < 32
    ensures Step(poly, Unit(32, b)) == Unit(32, b - 1)
  {
  }

  lemma {:induction false} StepsOfUnit(poly: Word, b: nat, n: nat)
    requires b < 32 && b <= n
    ensures Steps(poly, Unit(32, b), n) == Steps(poly, Unit(32, 0), n - b)
    decreases b
  {
    if b > 0 {
      StepOfUnit(poly, b);
      StepsOfUnit(poly, b - 1, n - 1);
    }
  }

  lemma {:induction false} Pow2Increases(a: nat, b: nat)
    requires a < b
    ensures Pow2(a) < Pow2(b)
    decreases b
  {
    if a < b - 1 {
      Pow2Increases(a, b - 1);
    }
  }

  /** The next lower bit is one step further on. */
  lemma PowerBelow(poly: Word, pred: Word, b: nat, n: nat)
    requires 0 < b < 32 && pred == Advance(poly, Unit(32, b), n)
    ensures Step(poly, pred) == Advance(poly, Unit(32, b - 1), n)
  {
    StepOfUnit(poly, b);
    StepsOnce(poly, Unit(32, b), 8 * n);
  }

  /** The top bit of a byte is one step on from the low bit of the byte before it. */
  lemma PowerAcross(poly: Word, pred: Word, n: nat)
    requires n >= 1 && pred == Advance(poly, Unit(32, 0), n - 1)
    ensures Step(poly, pred) == Advance(poly, Unit(32, 7), n)
  {
    StepsOfUnit(poly, 7, 8 * n);
    StepsOnce(poly, Unit(32, 0), 8 * (n - 1));
  }

  /** The entries for the single bits `b` and up are in place. */
  ghost predicate PowersFrom(poly: Word, row: array<Word>, n: nat, b: nat)
    reads row
  {
    row.Length == 256 &&
    forall k: nat {:trigger Pow2(k)} :: b <= k < 8 ==> Pow2(k) < 256 && row[Pow2(k)] == Advance(poly, Unit(32, k), n)
  }

  lemma TopPower(b: nat)
    requires 0 < b <= 8
    ensures (Pow2(b - 1) == 128 <==> b == 8) && Pow2(b) == 2 * Pow2(b - 1) && (b < 8 ==> Pow2(b) < 256)
  {
    Pow2OfSmall();
  }

  /** The entry of row `j` for bit `b - 1`, from the bit above it or from the row before. */
  method PowerEntry(poly: Word, last: Word, j: nat, i: nat, t: seq<array<Word>>, ghost b: nat, ghost n: nat) returns (entry: Word)
    requires j < |t| && forall k :: 0 <= k < |t| ==> t[k].Length == 256
    requires j == 0 ==> last == Advance(poly, Unit(32, 7), n)
    requires j > 0 ==> n >= 1 && t[j - 1][1] == Advance(poly, Unit(32, 0), n - 1)
    requires 0 < b <= 8 && i == Pow2(b - 1) && PowersFrom(poly, t[j], n, b)
    ensures entry == Advance(poly, Unit(32, b - 1), n)
  {
    TopPower(b);
    if j == 0 && i == 128 {
      entry := last;
    } else if i == 128 {
      PowerAcross(poly, t[j - 1][1], n);
      entry := ShiftDown(t[j - 1][1], poly);
    } else {
      PowerBelow(poly, t[j][2 * i], b, n);
      entry := ShiftDown(t[j][2 * i], poly);
    }
  }

  /** Fills the entries of row `j` that have a single bit set, from the top bit down.  `n` is the
      number of zero bytes that the row stands for. */
  method FillPowers(poly: Word, last: Word, j: nat, t: seq<array<Word>>, ghost n: nat)
    requires j < |t| && forall k :: 0 <= k < |t| ==> t[k].Length == 256
    requires j > 0 ==> t[j - 1] != t[j]
    requires j == 0 ==> last == Advance(poly, Unit(32, 7), n)
    requires j > 0 ==> n >= 1 && t[j - 1][1] == Advance(poly, Unit(32, 0), n - 1)
    modifies t[j]
    ensures PowersFrom(poly, t[j], n, 0)
    ensures t[j][0] == old(t[j][0])
  {
    Pow2OfSmall();
    var row := t[j];
    var i := 128;
    ghost var b: nat := 8;
    while i != 0
      invariant b <= 8 && i == if b == 0 then 0 else Pow2(b - 1)
      invariant PowersFrom(poly, row, n, b)
      invariant row[0] == old(row[0])
      decreases b
    {
      ghost var bit: nat := b - 1;
      forall k | b <= k < 8
        ensures Pow2(bit) < Pow2(k)
      {
        Pow2Increases(bit, k);
      }
      row[i] := PowerEntry(poly, last, j, i, t, b, n);
      i := i / 2;
      b := bit;
    }
  }

  /** The entries below `k` are in place. */
  ghost predicate BytesBelow(poly: Word, row: array<Word>, n: nat, k: nat)
    reads row
  {
    row.Length == 256 && k <= 256 &&
    forall i: Byte :: i < k ==> row[i] == Advance(poly, ByteWord(i), n)
  }

  /** Fills the entries between bit `b` and bit `b + 1` by xoring lower ones with the former. */
  method FillOctave(poly: Word, row: array<Word>, i: nat, ghost b: nat, ghost n: nat)
    requires b < 8 && i == Pow2(b) && 2 * i <= 256
    requires BytesBelow(poly, row, n, i) && row[i] == Advance(poly, ByteWord(i), n)
    modifies row
    ensures BytesBelow(poly, row, n, 2 * i)
    ensures forall k :: 2 * i <= k < 256 ==> row[k] == old(row[k])
  {
    var k := i + 1;
    while k != 2 * i
      invariant i < k <= 2 * i
      invariant BytesBelow(poly, row, n, k)
      invariant forall m :: 2 * i <= m < 256 ==> row[m] == old(row[m])
    {
      var entry: Word := Xor(row[i], row[k - i]);
      assert entry == Advance(poly, ByteWord(k), n) by {
        SumEntry(poly, b, k - i, n);
      }
      SetEntry(poly, row, k, entry, n);
      k := k + 1;
    }
  }

  method SetEntry(poly: Word, row: array<Word>, k: nat, entry: Word, ghost n: nat)
    requires k < 256 && BytesBelow(poly, row, n, k) && entry == Advance(poly, ByteWord(k), n)
    modifies row
    ensures BytesBelow(poly, row, n, k + 1)
    ensures forall m :: k < m < 256 ==> row[m] == old(row[m])
  {
    row[k] := entry;
  }

  /** Fills the entries with several bits set. */
  method FillSums(poly: Word, row: array<Word>, ghost n: nat)
    requires row.Length == 256 && row[0] == Zeros(32) && PowersFrom(poly, row, n, 0)
    modifies row
    ensures ByteTable(poly, row, n)
  {
    FirstEntries(poly, row, n);
    Pow2OfSmall();
    var i := 2;
    ghost var b: nat := 1;
    while i != 256
      invariant 1 <= b <= 8 && i == Pow2(b) <= 256
      invariant BytesBelow(poly, row, n, i)
      invariant PowersFrom(poly, row, n, b)
      decreases 8 - b
    {
      ByteWordOfPow2(b);
      Pow2Above(b);
      FillOctave(poly, row, i, b, n);
      i := 2 * i;
      b := b + 1;
    }
  }

  lemma FirstEntries(poly: Word, row: array<Word>, n: nat)
    requires row.Length == 256 && row[0] == Zeros(32) && PowersFrom(poly, row, n, 0)
    ensures BytesBelow(poly, row, n, 2)
  {
    FromNatOfZero(8);
    assert ByteWord(0) == Zeros(32);
    AdvanceOfZero(poly, n);
    ByteWordOfPow2(0);
  }

  lemma SumEntry(poly: Word, b: nat, k: nat, n: nat)
    requires b < 8 && k < Pow2(b)
    ensures Pow2(b) + k < 256
    ensures Advance(poly, ByteWord(Pow2(b) + k), n)
         == Xor(Advance(poly, ByteWord(Pow2(b)), n), Advance(poly, ByteWord(k), n))
  {
    ByteWordOfSum(b, k);
    AdvanceLinear(poly, ByteWord(Pow2(b)), ByteWord(k), n);
  }

  lemma Pow2Above(b: nat)
    requires b < 8
    ensures 2 * Pow2(b) <= 256
    ensures forall k {:trigger Pow2(k)} :: b + 1 <= k ==> 2 * Pow2(b) <= Pow2(k)
  {
    Pow2OfSmall();
    forall k: nat | b + 1 <= k
      ensures 2 * Pow2(b) <= Pow2(k)
    {
      if b + 1 < k {
        Pow2Increases(b + 1, k);
      }
    }
  }

  method FillRow(poly: Word, last: Word, j: nat, t: seq<array<Word>>, ghost n: nat)
    requires j < |t| && forall k :: 0 <= k < |t| ==> t[k].Length == 256
    requires j == 0 ==> last == Advance(poly, Unit(32, 7), n)
    requires j > 0 ==> t[j - 1] != t[j] && n >= 1 && ByteTable(poly, t[j - 1], n - 1)
    modifies t[j]
    ensures ByteTable(poly, t[j], n)
  {
    ByteWordOfPow2(0);
    var zero: Word := Zeros(32);
    t[j][0] := zero;
    FillPowers(poly, last, j, t, n);
    FillSums(poly, t[j], n);
  }

  /** Fills `wordSize` rows.  Row `j` carries a byte `j` zero bytes further than row 0 does, and
      row 0 carries it as far as `last` carries the top bit of a byte. */
  method FillWordTable(poly: Word, last: Word, wordSize: nat, t: seq<array<Word>>, ghost n: nat)
    requires wordSize <= |t| && forall k :: 0 <= k < |t| ==> t[k].Length == 256
    requires forall a, b :: 0 <= a < b < |t| ==> t[a] != t[b]
    requires last == Advance(poly, Unit(32, 7), n)
    modifies t
    ensures forall j :: 0 <= j < wordSize ==> ByteTable(poly, t[j], n + j)
  {
    var j := 0;
    while j != wordSize
      invariant 0 <= j <= wordSize
      invariant forall k :: 0 <= k < j ==> ByteTable(poly, t[k], n + k)
    {
      FillRow(poly, last, j, t, n + j);
      j := j + 1;
    }
  }

  // ----- FillZeroesTable -----

  const SIZE_LIMIT: nat := 0x1_0000_0000_0000_0000

  lemma Pow16OfWord()
    ensures Pow16(16) == SIZE_LIMIT
  {
    assert Pow16(4) == 65536;
    assert Pow16(8) == 65536 * Pow16(4);
    assert Pow16(12) == 65536 * Pow16(8);
    assert Pow16(16) == 65536 * Pow16(12);
  }

  lemma {:induction false} Pow16Increases(a: nat, b: nat)
    requires a < b
    ensures 16 * Pow16(a) <= Pow16(b)
    decreases b
  {
    if a < b - 1 {
      Pow16Increases(a, b - 1);
    }
  }

  /** Shifting the increment by one digit in 64 bits reaches zero exactly after digit 15. */
  lemma ShiftedLength(d: nat)
    requires d < 16
    ensures 16 * Pow16(d) % SIZE_LIMIT == if d == 15 then 0 else Pow16(d + 1)
    ensures Pow16(d) < SIZE_LIMIT
  {
    Pow16OfWord();
    Pow16Increases(d, 16);
    if d < 15 {
      Pow16Increases(d + 1, 16);
    }
  }

  lemma ZeroesOfNext(a: nat, d: nat)
    ensures Zeroes16(a + 1, d) == Zeroes16(a, d) + Pow16(d)
  {
  }

  /** Multiplying `x^(8 * m)` once more by `x^(8 * p)`. */
  lemma NextMultiple(poly: Word, m: nat, p: nat, n: nat)
    requires n == m + p
    ensures Mul(poly, BytePower(poly, m), BytePower(poly, p)) == BytePower(poly, n)
  {
    BytePowersMultiply(poly, m, p);
  }

  /** The entries of digit `d` below `a` are in place. */
  ghost predicate DigitBelow(poly: Word, t: array<Word>, a: nat, d: nat)
    reads t
  {
    t.Length == 256 && d < 16 && a <= 16 &&
    forall b: nat {:trigger Zeroes16(b, d)} :: 1 <= b < a ==> t[15 * d + b - 1] == BytePower(poly, Zeroes16(b, d))
  }

  method WritePower(poly: Word, v: Word, t: array<Word>, j: nat, a: nat, ghost d: nat)
    requires d < 16 && j == 15 * d && 1 <= a < 16 && v == BytePower(poly, Zeroes16(a, d))
    requires ZeroesTable(poly, t, d) && DigitBelow(poly, t, a, d)
    modifies t
    ensures ZeroesTable(poly, t, d) && DigitBelow(poly, t, a + 1, d)
  {
    t[j + a - 1] := v;
  }

  /** Writes the fifteen entries of digit `d` and returns the increment of the next digit. */
  method FillDigit(poly: Word, inc: Word, t: array<Word>, j: nat, ghost d: nat) returns (v: Word)
    requires d < 16 && j == 15 * d && inc == BytePower(poly, Pow16(d))
    requires ZeroesTable(poly, t, d)
    modifies t
    ensures ZeroesTable(poly, t, d + 1)
    ensures v == BytePower(poly, Pow16(d + 1))
  {
    v := inc;
    var a := 1;
    assert Zeroes16(1, d) == Pow16(d);
    while a != 16
      invariant 1 <= a <= 16
      invariant v == BytePower(poly, Zeroes16(a, d))
      invariant ZeroesTable(poly, t, d)
      invariant DigitBelow(poly, t, a, d)
    {
      WritePower(poly, v, t, j, a, d);
      ZeroesOfNext(a, d);
      NextMultiple(poly, Zeroes16(a, d), Pow16(d), Zeroes16(a + 1, d));
      v := PolyMultiply(v, inc, poly);
      a := a + 1;
    }
    assert Zeroes16(16, d) == Pow16(d + 1);
  }

  lemma FirstPower(poly: Word)
    ensures Shr(Unit(32, 31), 1) == XPower(poly, 1)
  {
    StepOfUnit(poly, 31);
    assert Shr(Unit(32, 31), 1) == Unit(32, 30);
    assert XPower(poly, 1) == Steps(poly, Step(poly, One(poly)), 0);
  }

  /** Three squarings take `x` to `x^8`, one zero byte. */
  method OneZeroByte(poly: Word) returns (inc: Word)
    ensures inc == BytePower(poly, 1)
  {
    inc := Shr(Unit(32, 31), 1);
    FirstPower(poly);
    for i := 0 to 3
      invariant inc == XPower(poly, Pow2(i))
    {
      PowersMultiply(poly, Pow2(i), Pow2(i));
      inc := PolyMultiply(inc, inc, poly);
    }
    Pow2OfSmall();
  }

  method FillZeroesTable(poly: Word, t: array<Word>) returns (j: nat)
    requires t.Length == 256
    modifies t
    ensures j == 240 && ZeroesTable(poly, t, 16)
  {
    var inc := OneZeroByte(poly);
    j := 0;
    var incLen := 1;
    ghost var d: nat := 0;
    while incLen != 0
      invariant d <= 16 && j == 15 * d
      invariant incLen == if d == 16 then 0 else Pow16(d)
      invariant inc == BytePower(poly, Pow16(d))
      invariant ZeroesTable(poly, t, d)
      decreases 16 - d
    {
      inc := FillDigit(poly, inc, t, j, d);
      ShiftedLength(d);
      j := j + 15;
      incLen := 16 * incLen % SIZE_LIMIT;
      d := d + 1;
    }
  }
}

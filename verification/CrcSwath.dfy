/** Four interleaved registers.

    `CRC32::Extend` keeps four registers over every fourth word of the data and joins them at the
    end.  What the four hold at any time is stated by `Joined`: the one register they stand for. */
module CrcSwath {
  import opened Bits
  import opened CrcSpec
  import opened Crc32c

  function Zero4(c: Word): Word {
    Advance(POLY, c, 4)
  }

  function Zero16(c: Word): Word {
    Advance(POLY, c, 16)
  }

  /** Takes a word of data into a register, as `combine_one_word` does. */
  function CombineWord(crc: Word, w: Word): Word {
    Zero4(Xor(w, crc))
  }

  function Joined(b0: Word, b1: Word, b2: Word, b3: Word): Word {
    CombineWord(CombineWord(CombineWord(CombineWord(Zeros(32), b0), b1), b2), b3)
  }

  lemma Zero4Linear(a: Word, b: Word)
    ensures Zero4(Xor(a, b)) == Xor(Zero4(a), Zero4(b))
  {
    AdvanceLinear(POLY, a, b, 4);
  }

  lemma Zero16Linear(a: Word, b: Word)
    ensures Zero16(Xor(a, b)) == Xor(Zero16(a), Zero16(b))
  {
    AdvanceLinear(POLY, a, b, 16);
  }

  lemma ZeroesCommute(c: Word)
    ensures Zero16(Zero4(c)) == Zero4(Zero16(c))
  {
    AdvanceAdds(POLY, c, 4, 16);
    AdvanceAdds(POLY, c, 16, 4);
  }

  lemma Zero16IsFourZero4(c: Word)
    ensures Zero16(c) == Zero4(Zero4(Zero4(Zero4(c))))
  {
    AdvanceAdds(POLY, c, 4, 4);
    AdvanceAdds(POLY, c, 8, 4);
    AdvanceAdds(POLY, c, 12, 4);
  }

  lemma CombineLinear(c: Word, w: Word, c': Word, w': Word)
    ensures CombineWord(Xor(c, c'), Xor(w, w')) == Xor(CombineWord(c, w), CombineWord(c', w'))
  {
    XorSwapsMiddle(w, w', c, c');
    Zero4Linear(Xor(w, c), Xor(w', c'));
  }

  lemma JoinedLinear(a0: Word, a1: Word, a2: Word, a3: Word, b0: Word, b1: Word, b2: Word, b3: Word)
    ensures Joined(Xor(a0, b0), Xor(a1, b1), Xor(a2, b2), Xor(a3, b3)) == Xor(Joined(a0, a1, a2, a3), Joined(b0, b1, b2, b3))
  {
    var z: Word := Zeros(32);
    XorZero(z);
    var a, b := CombineWord(z, a0), CombineWord(z, b0);
    CombineLinear(z, a0, z, b0);
    var a', b' := CombineWord(a, a1), CombineWord(b, b1);
    CombineLinear(a, a1, b, b1);
    CombineLinear(a', a2, b', b2);
    CombineLinear(CombineWord(a', a2), a3, CombineWord(b', b2), b3);
  }

  lemma CombineOfZero16(c: Word, w: Word)
    ensures CombineWord(Zero16(c), Zero16(w)) == Zero16(CombineWord(c, w))
  {
    Zero16Linear(w, c);
    ZeroesCommute(Xor(w, c));
  }

  /** Advancing all four registers advances what they stand for. */
  lemma JoinedOfZero16(b0: Word, b1: Word, b2: Word, b3: Word)
    ensures Joined(Zero16(b0), Zero16(b1), Zero16(b2), Zero16(b3)) == Zero16(Joined(b0, b1, b2, b3))
  {
    var z: Word := Zeros(32);
    AdvanceOfZero(POLY, 16);
    var c := CombineWord(z, b0);
    CombineOfZero16(z, b0);
    CombineOfZero16(c, b1);
    var c' := CombineWord(c, b1);
    CombineOfZero16(c', b2);
    CombineOfZero16(CombineWord(c', b2), b3);
  }

  // ----- data words -----

  /** A little-endian load of four bytes. */
  function Load32(data: seq<Byte>, p: nat): Word
    requires p + 4 <= |data|
  {
    FromNat(data[p], 8) + FromNat(data[p + 1], 8) + FromNat(data[p + 2], 8) + FromNat(data[p + 3], 8)
  }

  lemma LoadIsMessage(data: seq<Byte>, p: nat)
    requires p + 4 <= |data|
    ensures MessageBits(data[p..p + 4]) == Load32(data, p)
  {
    var s := data[p..p + 4];
    assert s[1..] == data[p + 1..p + 4];
    assert s[1..][1..] == data[p + 2..p + 4];
    assert s[1..][1..][1..] == [data[p + 3]];
    assert MessageBits([data[p + 3]]) == FromNat(data[p + 3], 8) + MessageBits([]);
    assert MessageBits(data[p + 2..p + 4]) == FromNat(data[p + 2], 8) + FromNat(data[p + 3], 8);
  }

  lemma ExtendWord(crc: Word, data: seq<Byte>, p: nat)
    requires p + 4 <= |data|
    ensures Extend(crc, data[p..p + 4]) == CombineWord(crc, Load32(data, p))
  {
    LoadIsMessage(data, p);
    var w := Load32(data, p);
    FeedAllAtOnce(POLY, crc, w);
    assert Widen(w, 32) == w;
    XorCommutes(crc, w);
  }

  lemma ExtendAdvances(crc: Word, data: seq<Byte>, p: nat, k: nat)
    requires p + k <= |data|
    ensures Extend(crc, data[..p + k]) == Extend(Extend(crc, data[..p]), data[p..p + k])
  {
    assert data[..p + k] == data[..p] + data[p..p + k];
    ExtendAppend(crc, data[..p], data[p..p + k]);
  }

  /** Sixteen bytes, taken in as four words. */
  lemma ExtendSwath(crc: Word, data: seq<Byte>, p: nat)
    requires p + 16 <= |data|
    ensures Extend(crc, data[p..p + 16])
         == Joined(Xor(Load32(data, p), crc), Load32(data, p + 4), Load32(data, p + 8), Load32(data, p + 12))
  {
    var a, b, c, d := data[p..p + 4], data[p + 4..p + 8], data[p + 8..p + 12], data[p + 12..p + 16];
    assert data[p..p + 16] == ((a + b) + c) + d;
    ExtendAppend(crc, (a + b) + c, d);
    ExtendAppend(crc, a + b, c);
    ExtendAppend(crc, a, b);
    ExtendWord(crc, data, p);
    ExtendWord(Extend(crc, a), data, p + 4);
    ExtendWord(Extend(crc, a + b), data, p + 8);
    ExtendWord(Extend(crc, (a + b) + c), data, p + 12);
    XorZero(Xor(Load32(data, p), crc));
  }

  /** Sixteen more bytes: every register is advanced past sixteen bytes and takes in one word. */
  lemma StrideAdvances(b0: Word, b1: Word, b2: Word, b3: Word, data: seq<Byte>, p: nat)
    requires p + 16 <= |data|
    ensures Joined(Xor(Load32(data, p), Zero16(b0)), Xor(Load32(data, p + 4), Zero16(b1)),
                   Xor(Load32(data, p + 8), Zero16(b2)), Xor(Load32(data, p + 12), Zero16(b3)))
         == Extend(Joined(b0, b1, b2, b3), data[p..p + 16])
  {
    StrideJoins(b0, b1, b2, b3, Load32(data, p), Load32(data, p + 4), Load32(data, p + 8), Load32(data, p + 12));
    ExtendBySwath(Joined(b0, b1, b2, b3), data, p);
  }

  lemma StrideJoins(b0: Word, b1: Word, b2: Word, b3: Word, w0: Word, w1: Word, w2: Word, w3: Word)
    ensures Joined(Xor(w0, Zero16(b0)), Xor(w1, Zero16(b1)), Xor(w2, Zero16(b2)), Xor(w3, Zero16(b3)))
         == Xor(Zero16(Joined(b0, b1, b2, b3)), Joined(w0, w1, w2, w3))
  {
    JoinedLinear(w0, w1, w2, w3, Zero16(b0), Zero16(b1), Zero16(b2), Zero16(b3));
    JoinedOfZero16(b0, b1, b2, b3);
    XorCommutes(Zero16(Joined(b0, b1, b2, b3)), Joined(w0, w1, w2, w3));
  }

  lemma ExtendBySwath(crc: Word, data: seq<Byte>, p: nat)
    requires p + 16 <= |data|
    ensures Extend(crc, data[p..p + 16])
         == Xor(Zero16(crc), Joined(Load32(data, p), Load32(data, p + 4), Load32(data, p + 8), Load32(data, p + 12)))
  {
    ExtendSuperposes(crc, data[p..p + 16]);
    ExtendSwath(Zeros(32), data, p);
    XorZero(Load32(data, p));
  }

  lemma ExtendSuperposes(crc: Word, data: seq<Byte>)
    ensures Extend(crc, data) == Xor(Advance(POLY, crc, |data|), Extend(Zeros(32), data))
  {
    XorZero(crc);
    FeedAllSuperposes(POLY, crc, Zeros(32), MessageBits(data));
  }

  /** Four more bytes: the first register takes them in and goes to the back of the line. */
  lemma RotationAdvances(b0: Word, b1: Word, b2: Word, b3: Word, data: seq<Byte>, p: nat)
    requires p + 4 <= |data|
    ensures Joined(b1, b2, b3, Xor(Load32(data, p), Zero16(b0)))
         == Extend(Joined(b0, b1, b2, b3), data[p..p + 4])
  {
    var w, z := Load32(data, p), Zeros(32);
    ExtendWord(Joined(b0, b1, b2, b3), data, p);
    RotateJoined(b0, b1, b2, b3);
    var three := CombineWord(CombineWord(CombineWord(z, b1), b2), b3);
    XorAssociates(w, Zero16(b0), three);
  }

  /** The last three registers and the first, kept apart. */
  lemma RotateJoined(b0: Word, b1: Word, b2: Word, b3: Word)
    ensures var three := CombineWord(CombineWord(CombineWord(Zeros(32), b1), b2), b3);
            Joined(b0, b1, b2, b3) == Xor(Zero16(b0), three)
  {
    var z: Word := Zeros(32);
    var c := Zero4(b0);
    XorZero(b0);
    assert CombineWord(z, b0) == c;
    CombineSplits(c, z, b1);
    var c1, t1 := Zero4(c), CombineWord(z, b1);
    CombineSplits(c1, t1, b2);
    var c2, t2 := Zero4(c1), CombineWord(t1, b2);
    CombineSplits(c2, t2, b3);
    Zero16IsFourZero4(b0);
    XorZero(c);
  }

  lemma CombineSplits(c: Word, t: Word, w: Word)
    ensures CombineWord(Xor(c, t), w) == Xor(Zero4(c), CombineWord(t, w))
  {
    XorCommutes(c, t);
    XorAssociates(w, t, c);
    Zero4Linear(Xor(w, t), c);
    XorCommutes(Zero4(c), CombineWord(t, w));
  }
}

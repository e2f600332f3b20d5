/** The generator has an even number of terms, so checksums keep parity. */
module CrcParity {
  import opened Bits
  import opened CrcSpec
  import opened Crc32c

  /** Whether an odd number of bits is set. */
  function Parity(a: Bits): bool {
    a != [] && (a[0] != Parity(a[1..]))
  }

  lemma {:induction false} ParityAppend(a: Bits, b: Bits)
    ensures Parity(a + b) == (Parity(a) != Parity(b))
  {
    if a == [] {
      assert a + b == b;
    } else {
      assert (a + b)[1..] == a[1..] + b;
      ParityAppend(a[1..], b);
    }
  }

  lemma {:induction false} ParityXor(a: Bits, b: Bits)
    requires |a| == |b|
    ensures Parity(Xor(a, b)) == (Parity(a) != Parity(b))
  {
    if a != [] {
      assert Xor(a, b)[1..] == Xor(a[1..], b[1..]);
      ParityXor(a[1..], b[1..]);
    }
  }

  lemma {:induction false} ParityZeros(n: nat)
    ensures !Parity(Zeros(n))
  {
    if n > 0 {
      assert Zeros(n)[1..] == Zeros(n - 1);
      ParityZeros(n - 1);
    }
  }

  lemma {:induction false} ParityOnes(n: nat)
    ensures Parity(Ones(n)) <==> n % 2 == 1
  {
    if n > 0 {
      assert Ones(n)[1..] == Ones(n - 1);
      ParityOnes(n - 1);
    }
  }

  lemma DigitParity(d: nat)
    requires d < 16
    ensures Parity(Digit(d)) <==> (d % 2 + d / 2 % 2 + d / 4 % 2 + d / 8 % 2) % 2 == 1
  {
    FourParity(d % 2 == 1, d / 2 % 2 == 1, d / 4 % 2 == 1, d / 8 % 2 == 1);
  }

  lemma FourParity(a: bool, b: bool, c: bool, d: bool)
    ensures Parity([a, b, c, d]) == ((a != b) != (c != d))
  {
    ParityAppend([a, b], [c, d]);
    ParityAppend([a], [b]);
    ParityAppend([c], [d]);
    assert [a, b] + [c, d] == [a, b, c, d] && [a] + [b] == [a, b] && [c] + [d] == [c, d];
  }

  /** With the term of degree 32, which the word leaves out, the generator has an even number of terms. */
  lemma PolyParity()
    ensures Parity(POLY)
  {
    ParityAppend(Digit(0x8) + Digit(0x7) + Digit(0xB) + Digit(0x3) + Digit(0x6) + Digit(0xF) + Digit(0x2), Digit(0x8));
    ParityAppend(Digit(0x8) + Digit(0x7) + Digit(0xB) + Digit(0x3) + Digit(0x6) + Digit(0xF), Digit(0x2));
    ParityAppend(Digit(0x8) + Digit(0x7) + Digit(0xB) + Digit(0x3) + Digit(0x6), Digit(0xF));
    ParityAppend(Digit(0x8) + Digit(0x7) + Digit(0xB) + Digit(0x3), Digit(0x6));
    ParityAppend(Digit(0x8) + Digit(0x7) + Digit(0xB), Digit(0x3));
    ParityAppend(Digit(0x8) + Digit(0x7), Digit(0xB));
    ParityAppend(Digit(0x8), Digit(0x7));
    DigitParity(0x8);
    DigitParity(0x7);
    DigitParity(0xB);
    DigitParity(0x3);
    DigitParity(0x6);
    DigitParity(0xF);
    DigitParity(0x2);
  }

  /** A step by a generator with an even number of terms keeps parity. */
  lemma StepKeepsParity(g: Bits, c: Bits)
    requires |g| == |c| > 0 && Parity(g)
    ensures Parity(Step(g, c)) == Parity(c)
  {
    ParityXor(Shr(c, 1), When(c[0], g));
    ParityAppend(c[1..], Zeros(1));
    ParityZeros(1);
    ParityZeros(|g|);
    WhenMeans(c[0], g);
  }

  lemma FeedParity(g: Bits, c: Bits, bit: bool)
    requires |g| == |c| > 0 && Parity(g)
    ensures Parity(Feed(g, c, bit)) == (Parity(c) != bit)
  {
    var d := c[0 := c[0] != bit];
    assert d[1..] == c[1..];
    StepKeepsParity(g, d);
  }

  lemma {:induction false} FeedAllParity(g: Bits, c: Bits, message: Bits)
    requires |g| == |c| > 0 && Parity(g)
    ensures Parity(FeedAll(g, c, message)) == (Parity(c) != Parity(message))
    decreases |message|
  {
    if message != [] {
      FeedParity(g, c, message[0]);
      FeedAllParity(g, Feed(g, c, message[0]), message[1..]);
    }
  }

  /** A checksum has an odd number of set bits exactly if the message has. */
  lemma ChecksumParity(data: seq<Byte>)
    ensures Parity(ComputeCrc32c(data)) == Parity(MessageBits(data))
  {
    PolyParity();
    ParityOnes(32);
    XorZero(XOR_MASK);
    FeedAllParity(POLY, XOR_MASK, MessageBits(data));
    ParityXor(Extend(XOR_MASK, data), XOR_MASK);
  }

  /** In how many places two words differ. */
  function Differences(a: Bits, b: Bits): nat
    requires |a| == |b|
  {
    if a == [] then 0 else (if a[0] != b[0] then 1 else 0) + Differences(a[1..], b[1..])
  }

  lemma {:induction false} DifferencesParity(a: Bits, b: Bits)
    requires |a| == |b|
    ensures Differences(a, b) % 2 == 1 <==> Parity(a) != Parity(b)
  {
    if a != [] {
      DifferencesParity(a[1..], b[1..]);
    }
  }

  /** Every error in an odd number of bits, wherever they are, is detected. */
  lemma OddErrorsAreDetected(a: seq<Byte>, b: seq<Byte>)
    requires |a| == |b| && Differences(MessageBits(a), MessageBits(b)) % 2 == 1
    ensures ComputeCrc32c(a) != ComputeCrc32c(b)
  {
    DifferencesParity(MessageBits(a), MessageBits(b));
    ChecksumParity(a);
    ChecksumParity(b);
  }
}

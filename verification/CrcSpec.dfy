/** The CRC itself: remainders of polynomials over GF(2), and the shift register that computes them.

    A register of width `d` stands for a polynomial of degree below `d`, with the coefficient of
    `x^(d-1-i)` in bit `i`.  A generator `x^d + g` is given by its low part `g` alone.
 */
module CrcSpec {
  import opened Bits

  /** Multiplication by `x`: shift by one bit and reduce by the generator. */
  function Step(g: Bits, c: Bits): (r: Bits)
    requires |g| == |c| > 0
    ensures |r| == |c|
  {
    Xor(Shr(c, 1), When(c[0], g))
  }

  function Steps(g: Bits, c: Bits, n: nat): (r: Bits)
    requires |g| == |c| > 0
    ensures |r| == |c|
    decreases n
  {
    if n == 0 then c else Steps(g, Step(g, c), n - 1)
  }

  // ----- the shift register is linear -----

  /** The step as code takes it, on a branch. */
  lemma StepBranches(g: Bits, c: Bits)
    requires |g| == |c| > 0
    ensures Step(g, c) == if c[0] then Xor(Shr(c, 1), g) else Shr(c, 1)
  {
    WhenMeans(c[0], g);
    XorZero(Shr(c, 1));
  }

  lemma StepLinear(g: Bits, a: Bits, b: Bits)
    requires |g| == |a| == |b| > 0
    ensures Step(g, Xor(a, b)) == Xor(Step(g, a), Step(g, b))
  {
    assert Shr(Xor(a, b), 1) == Xor(Shr(a, 1), Shr(b, 1));
  }

  lemma {:induction false} StepsLinear(g: Bits, a: Bits, b: Bits, n: nat)
    requires |g| == |a| == |b| > 0
    ensures Steps(g, Xor(a, b), n) == Xor(Steps(g, a, n), Steps(g, b, n))
    decreases n
  {
    if n > 0 {
      StepLinear(g, a, b);
      StepsLinear(g, Step(g, a), Step(g, b), n - 1);
    }
  }

  lemma {:induction false} StepsOfZero(g: Bits, n: nat)
    requires |g| > 0
    ensures Steps(g, Zeros(|g|), n) == Zeros(|g|)
    decreases n
  {
    if n > 0 {
      assert Step(g, Zeros(|g|)) == Zeros(|g|);
      StepsOfZero(g, n - 1);
    }
  }

  /** One step may be taken last instead of first. */
  lemma {:induction false} StepsOnce(g: Bits, c: Bits, n: nat)
    requires |g| == |c| > 0
    ensures Steps(g, Step(g, c), n) == Step(g, Steps(g, c, n))
    decreases n
  {
    if n > 0 {
      StepsOnce(g, Step(g, c), n - 1);
    }
  }

  lemma {:induction false} StepsAdd(g: Bits, c: Bits, m: nat, n: nat)
    requires |g| == |c| > 0
    ensures Steps(g, Steps(g, c, m), n) == Steps(g, c, m + n)
    decreases m
  {
    if m > 0 {
      StepsAdd(g, Step(g, c), m - 1, n);
    }
  }

  /** As long as only zeros are shifted out, stepping is a plain shift. */
  lemma {:induction false} StepsOfShifted(g: Bits, c: Bits, n: nat)
    requires |g| == |c| > 0 && n <= |c|
    requires c[..n] == Zeros(n)
    ensures Steps(g, c, n) == Shr(c, n)
    decreases n
  {
    if n > 0 {
      assert c[..n][0] == c[0];
      var d := Step(g, c);
      assert d[..n - 1] == c[..n][1..] == Zeros(n - 1);
      StepsOfShifted(g, d, n - 1);
      assert Shr(d, n - 1) == Shr(c, n);
    } else {
      assert Shr(c, 0) == c;
    }
  }

  /** The low `n` bits and the rest of a register can be stepped apart: this is what makes a table
      indexed by the low bits possible. */
  lemma StepsSplit(g: Bits, c: Bits, n: nat)
    requires |g| == |c| > 0 && n <= |c|
    ensures Steps(g, c, n) == Xor(Shr(c, n), Steps(g, Widen(c[..n], |c|), n))
  {
    SplitWord(c, n);
    StepsLinear(g, Zeros(n) + c[n..], Widen(c[..n], |c|), n);
    StepsOfHigh(g, c, n);
  }

  lemma SplitWord(c: Bits, n: nat)
    requires n <= |c|
    ensures Xor(Zeros(n) + c[n..], Widen(c[..n], |c|)) == c
  {
  }

  lemma StepsOfHigh(g: Bits, c: Bits, n: nat)
    requires |g| == |c| > 0 && n <= |c|
    ensures Steps(g, Zeros(n) + c[n..], n) == Shr(c, n)
  {
    var high := Zeros(n) + c[n..];
    assert high[..n] == Zeros(n) && high[n..] == c[n..];
    StepsOfShifted(g, high, n);
  }

  /** Appending `k` zero bytes. */
  function Advance(g: Bits, c: Bits, k: nat): (r: Bits)
    requires |g| == |c| > 0
    ensures |r| == |c|
  {
    Steps(g, c, 8 * k)
  }

  lemma AdvanceAdds(g: Bits, c: Bits, m: nat, n: nat)
    requires |g| == |c| > 0
    ensures Advance(g, Advance(g, c, m), n) == Advance(g, c, m + n)
  {
    StepsAdd(g, c, 8 * m, 8 * n);
  }

  lemma AdvanceOfZero(g: Bits, k: nat)
    requires |g| > 0
    ensures Advance(g, Zeros(|g|), k) == Zeros(|g|)
  {
    StepsOfZero(g, 8 * k);
  }

  lemma AdvanceLinear(g: Bits, a: Bits, b: Bits, k: nat)
    requires |g| == |a| == |b| > 0
    ensures Advance(g, Xor(a, b), k) == Xor(Advance(g, a, k), Advance(g, b, k))
  {
    StepsLinear(g, a, b, 8 * k);
  }

  // ----- what the register computes -----

  /** Shift one message bit into the register. */
  function Feed(g: Bits, c: Bits, bit: bool): (r: Bits)
    requires |g| == |c| > 0
    ensures |r| == |c|
  {
    Step(g, c[0 := c[0] != bit])
  }

  function FeedAll(g: Bits, c: Bits, message: Bits): (r: Bits)
    requires |g| == |c| > 0
    ensures |r| == |c|
    decreases |message|
  {
    if message == [] then c else FeedAll(g, Feed(g, c, message[0]), message[1..])
  }

  /** Schoolbook long division: the remainder of the polynomial `p`, highest coefficient first,
      by `x^|g| + g`. */
  function Remainder(g: Bits, p: Bits): (r: Bits)
    requires 0 < |g| <= |p|
    ensures |r| == |g|
    decreases |p|
  {
    if |p| == |g| then p
    else
      var rest := p[1..];
      Remainder(g, if p[0] then Xor(rest, g + Zeros(|rest| - |g|)) else rest)
  }

  /** The polynomial `message * x^d + c * x^|message|`, highest coefficient first. */
  function Dividend(c: Bits, message: Bits): (r: Bits)
    ensures |r| == |c| + |message|
  {
    Xor(c + Zeros(|message|), message + Zeros(|c|))
  }

  /** Feeding a bit is one step of the division. */
  lemma DivideOnce(g: Bits, c: Bits, message: Bits)
    requires |g| == |c| > 0 && message != []
    ensures var p := Dividend(c, message); var rest := p[1..];
      (if p[0] then Xor(rest, g + Zeros(|rest| - |g|)) else rest) == Dividend(Feed(g, c, message[0]), message[1..])
  {
  }

  /** Shifting a message through the register is division by the generator: the register holds the
      remainder. */
  lemma {:induction false} FeedAllIsRemainder(g: Bits, c: Bits, message: Bits)
    requires |g| == |c| > 0
    ensures FeedAll(g, c, message) == Remainder(g, Dividend(c, message))
    decreases |message|
  {
    if message == [] {
      assert Dividend(c, message) == c;
    } else {
      DivideOnce(g, c, message);
      FeedAllIsRemainder(g, Feed(g, c, message[0]), message[1..]);
    }
  }

  lemma {:induction false} FeedAllAppend(g: Bits, c: Bits, a: Bits, b: Bits)
    requires |g| == |c| > 0
    ensures FeedAll(g, c, a + b) == FeedAll(g, FeedAll(g, c, a), b)
    decreases |a|
  {
    if a == [] {
      assert a + b == b;
    } else {
      assert (a + b)[1..] == a[1..] + b;
      FeedAllAppend(g, Feed(g, c, a[0]), a[1..], b);
    }
  }

  lemma StepOfEven(g: Bits, c: Bits)
    requires |g| == |c| > 0 && !c[0]
    ensures Step(g, c) == Shr(c, 1)
  {
  }

  /** The first bit of a message that has been xored in is fed by a step. */
  lemma FeedFirst(g: Bits, c: Bits, message: Bits)
    requires |g| == |c| > 0 && 0 < |message| <= |c|
    ensures Step(g, Xor(c, Widen(message, |c|))) == Xor(Feed(g, c, message[0]), Widen(message[1..], |c|))
  {
    var one, tail := c[0 := c[0] != message[0]], Widen([false] + message[1..], |c|);
    assert Xor(c, Widen(message, |c|)) == Xor(one, tail);
    StepLinear(g, one, tail);
    StepOfEven(g, tail);
    assert Shr(tail, 1) == Widen(message[1..], |c|);
  }

  /** A message no longer than the register can be xored in at once and then stepped. */
  lemma {:induction false} FeedAllAtOnce(g: Bits, c: Bits, message: Bits)
    requires |g| == |c| > 0 && |message| <= |c|
    ensures FeedAll(g, c, message) == Steps(g, Xor(c, Widen(message, |c|)), |message|)
    decreases |message|
  {
    if message == [] {
      XorZero(c);
    } else {
      FeedFirst(g, c, message);
      FeedAllAtOnce(g, Feed(g, c, message[0]), message[1..]);
    }
  }

  lemma {:induction false} FeedAllZeros(g: Bits, c: Bits, n: nat)
    requires |g| == |c| > 0
    ensures FeedAll(g, c, Zeros(n)) == Steps(g, c, n)
    decreases n
  {
    if n > 0 {
      assert c[0 := c[0] != false] == c;
      assert Zeros(n)[1..] == Zeros(n - 1);
      FeedAllZeros(g, Step(g, c), n - 1);
    }
  }

  /** Superposition: the register and the message contribute independently. */
  lemma {:induction false} FeedAllSuperposes(g: Bits, c: Bits, d: Bits, message: Bits)
    requires |g| == |c| == |d| > 0
    ensures FeedAll(g, Xor(c, d), message)
         == Xor(Steps(g, c, |message|), FeedAll(g, d, message))
    decreases |message|
  {
    if message != [] {
      var bit := message[0];
      assert Xor(c, d)[0 := Xor(c, d)[0] != bit] == Xor(c, d[0 := d[0] != bit]);
      StepLinear(g, c, d[0 := d[0] != bit]);
      FeedAllSuperposes(g, Step(g, c), Feed(g, d, bit), message[1..]);
    }
  }

  // ----- running the register backwards -----

  /** Undoes `Step` when the generator has a constant term, that is when its last bit is set. */
  function Unstep(g: Bits, c: Bits): (r: Bits)
    requires |g| == |c| > 0
    ensures |r| == |c|
  {
    var top := c[|c| - 1];
    [top] + (if top then Xor(c, g) else c)[..|c| - 1]
  }

  function Unsteps(g: Bits, c: Bits, n: nat): (r: Bits)
    requires |g| == |c| > 0
    ensures |r| == |c|
    decreases n
  {
    if n == 0 then c else Unsteps(g, Unstep(g, c), n - 1)
  }

  lemma UnstepOfStep(g: Bits, c: Bits)
    requires |g| == |c| > 0 && g[|g| - 1]
    ensures Unstep(g, Step(g, c)) == c
  {
    assert Shr(c, 1) == c[1..] + [false];
  }

  lemma StepOfUnstep(g: Bits, c: Bits)
    requires |g| == |c| > 0 && g[|g| - 1]
    ensures Step(g, Unstep(g, c)) == c
  {
    var u := Unstep(g, c);
    assert Shr(u, 1) == u[1..] + [false];
  }

  /** One backward step may be taken last instead of first. */
  lemma {:induction false} UnstepsOnce(g: Bits, c: Bits, n: nat)
    requires |g| == |c| > 0
    ensures Unsteps(g, Unstep(g, c), n) == Unstep(g, Unsteps(g, c, n))
    decreases n
  {
    if n > 0 {
      UnstepsOnce(g, Unstep(g, c), n - 1);
    }
  }

  lemma {:induction false} UnstepsAfterSteps(g: Bits, c: Bits, n: nat)
    requires |g| == |c| > 0 && g[|g| - 1]
    ensures Unsteps(g, Steps(g, c, n), n) == c
    decreases n
  {
    if n > 0 {
      var d := Step(g, c);
      var u := Steps(g, d, n - 1);
      assert Unsteps(g, u, n - 1) == d by {
        UnstepsAfterSteps(g, d, n - 1);
      }
      assert Unsteps(g, u, n) == Unstep(g, Unsteps(g, u, n - 1)) by {
        UnstepsOnce(g, u, n - 1);
      }
      assert Unstep(g, d) == c by {
        UnstepOfStep(g, c);
      }
    }
  }

  lemma LastStep(g: Bits, u: Bits, d: Bits, c: Bits, n: nat)
    requires |g| == |u| > 0 && n > 0 && Steps(g, u, n - 1) == d && Step(g, d) == c
    ensures Steps(g, u, n) == c
  {
    StepsOnce(g, u, n - 1);
  }

  lemma {:induction false} StepsAfterUnsteps(g: Bits, c: Bits, n: nat)
    requires |g| == |c| > 0 && g[|g| - 1]
    ensures Steps(g, Unsteps(g, c, n), n) == c
    decreases n
  {
    if n > 0 {
      var d := Unstep(g, c);
      var u := Unsteps(g, d, n - 1);
      StepsAfterUnsteps(g, d, n - 1);
      StepOfUnstep(g, c);
      LastStep(g, u, d, c, n);
    }
  }
}

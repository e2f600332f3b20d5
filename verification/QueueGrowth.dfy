/** How the blocks of a queue grow. */
module QueueGrowth {
  import opened QueueLayout
  import Bits

  function Min(a: nat, b: nat): nat {
    if a < b then a else b
  }

  /** Block `i` from the head has the size of the first doubled `i` times, or the maximum. */
  lemma {:induction false} BlockSizeIs<T>(s: Store<T>, i: nat)
    requires Sound(s) && i < |s.mem|
    ensures |s.mem[i]| == Min(s.hi, Bits.Pow2(i) * |s.mem[0]|)
  {
    if i > 0 {
      BlockSizeIs(s, i - 1);
      assert GrowsAt(s.mem, s.hi, i);
      DoubledTimes(i, |s.mem[0]|);
    }
  }

  lemma DoubledTimes(i: nat, n: nat)
    requires i > 0
    ensures Bits.Pow2(i) * n == 2 * (Bits.Pow2(i - 1) * n)
  {
  }

  /** The slots of the first `k` blocks are fewer than two of the last of them, unless that one was
      capped; and then, with another before it, they are more than the maximum. */
  lemma {:induction false} SlotsUpTo<T>(s: Store<T>, k: nat)
    requires Sound(s) && 0 < k <= |s.mem|
    ensures Off(s.mem, k) < 2 * |s.mem[k - 1]| || (k > 1 && |s.mem[k - 1]| == s.hi && Off(s.mem, k) > s.hi)
    ensures Off(s.mem, k) >= |s.mem[k - 1]|
    decreases k
  {
    if k == 1 {
      assert FlatTo(s.mem, 0) == [];
    } else {
      SlotsUpTo(s, k - 1);
      assert GrowsAt(s.mem, s.hi, k - 1);
    }
  }

  /** A new block that is not capped has more slots than all the blocks before it together. */
  lemma UncappedOutgrows<T>(s: Store<T>)
    requires Sound(s) && s.mem != [] && 2 * |LastBlock(s)| <= s.hi
    ensures NextSize(s) > |Flat(s.mem)|
  {
    SlotsUpTo(s, |s.mem|);
  }

  /** A new block at least doubles the slots of the queue exactly when there are no more of them than
      the maximum block size. */
  lemma DoublesExactlyWhen<T>(s: Store<T>)
    requires Sound(s) && s.mem != []
    ensures NextSize(s) >= |Flat(s.mem)| <==> |Flat(s.mem)| <= s.hi
  {
    SlotsUpTo(s, |s.mem|);
  }

  /** With one slot per block, two pushes on a new queue fill two blocks, and the next block does not
      double them. */
  lemma DoublingFails<T>(a: T, b: T)
    ensures var none := Store([], 0, 0, 0, 1, 1);
      && Room(none) && Room(Push(none, a))
      && var s := Push(Push(none, a), b);
         Sound(s) && NextSize(s) < |Flat(s.mem)|
  {
    var none: Store<T> := Store([], 0, 0, 0, 1, 1);
    var mem: Mem<T> := [[Live(a)], [Live(b)]];
    FirstPush(a);
    var raw: seq<Slot<T>> := Raws(1);
    assert raw[0 := Live(b)] == [Live(b)];
    assert ([[Live(a)]] + [raw])[1 := [Live(b)]] == mem;
    assert Push(Push(none, a), b) == Store(mem, 0, 1, 2, 1, 1);
    assert FlatTo(mem, 1) == FlatTo(mem, 0) + mem[0] == [Live(a)];
    assert FlatTo(mem, 2) == [Live(a)] + mem[1] == [Live(a), Live(b)];
  }

  lemma FirstPush<T>(a: T)
    ensures Room<T>(Store([], 0, 0, 0, 1, 1)) && Push(Store([], 0, 0, 0, 1, 1), a) == Store([[Live(a)]], 0, 1, 1, 1, 1)
  {
    var raw: seq<Slot<T>> := Raws(1);
    assert raw[0 := Live(a)] == [Live(a)];
    assert ([] + [raw])[0 := [Live(a)]] == [[Live(a)]];
  }

  /** A queue after pushes. */
  ghost function PushedAll<T>(s: Store<T>, vs: seq<T>): (r: Store<T>)
    requires Sound(s) && TailRule(s.mem, s.tail)
    ensures Sound(r) && TailRule(r.mem, r.tail) && Elements(r) == Elements(s) + vs
    ensures r.head == s.head && r.lo == s.lo && r.hi == s.hi
    decreases |vs|
  {
    if vs == [] then s
    else
      PushSound(s, vs[0]);
      assert Elements(s) + [vs[0]] + vs[1..] == Elements(s) + vs;
      PushedAll(Push(s, vs[0]), vs[1..])
  }

  /** The first block has the minimum size from the first push on. */
  lemma {:induction false} FirstBlockStays<T>(s: Store<T>, vs: seq<T>)
    requires Sound(s) && TailRule(s.mem, s.tail)
    ensures vs != [] ==> PushedAll(s, vs).mem != []
    ensures var r := PushedAll(s, vs);
      r.mem != [] ==> |r.mem[0]| == if s.mem == [] then s.lo else |s.mem[0]|
    decreases |vs|
  {
    if vs != [] {
      PushSound(s, vs[0]);
      FirstBlockStays(Push(s, vs[0]), vs[1..]);
      PushKeepsFirst(s, vs[0]);
      PushedNonempty(Push(s, vs[0]), vs[1..]);
    }
  }

  lemma PushKeepsFirst<T>(s: Store<T>, v: T)
    requires Room(s)
    ensures Push(s, v).mem != [] && |Push(s, v).mem[0]| == if s.mem == [] then s.lo else |s.mem[0]|
  {
  }

  lemma {:induction false} PushedNonempty<T>(s: Store<T>, vs: seq<T>)
    requires Sound(s) && TailRule(s.mem, s.tail) && s.mem != []
    ensures PushedAll(s, vs).mem != []
    decreases |vs|
  {
    if vs != [] {
      PushSound(s, vs[0]);
      PushedNonempty(Push(s, vs[0]), vs[1..]);
    }
  }

  /** After any pushes on a new queue block `i` has the minimum size doubled `i` times, or the maximum; and
      there are just as many blocks as the elements need. */
  lemma NewQueueBlocks<T>(vs: seq<T>, lo: nat, hi: nat, i: nat)
    requires 0 < lo <= hi && i < |PushedAll(Store([], 0, 0, 0, lo, hi), vs).mem|
    ensures var s := PushedAll(Store([], 0, 0, 0, lo, hi), vs);
      && |s.mem[i]| == Min(hi, Bits.Pow2(i) * lo)
      && Off(s.mem, |s.mem| - 1) < |vs| <= |Flat(s.mem)|
  {
    var none: Store<T> := Store([], 0, 0, 0, lo, hi);
    var s := PushedAll(none, vs);
    FirstBlockStays(none, vs);
    BlockSizeIs(s, i);
    assert Off(s.mem, 0) == 0;
    assert Elements(none) == [];
  }
}

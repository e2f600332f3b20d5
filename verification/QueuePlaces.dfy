/** How iterators move over the blocks of a queue. */
module QueuePlaces {
  import opened QueueLayout

  /** Slot `p` of block `k`; `p` may be one past the last slot. */
  datatype Place = Place(k: nat, p: nat)

  predicate InRange<T>(mem: Mem<T>, pl: Place) {
    pl.k < |mem| && pl.p <= |mem[pl.k]|
  }

  ghost function At<T>(mem: Mem<T>, pl: Place): nat
    requires InRange(mem, pl)
  {
    Off(mem, pl.k) + pl.p
  }

  /** One step of `Incr`: across the boundary if there is a next block. */
  function IncrPlace<T>(mem: Mem<T>, pl: Place): (r: Place)
    requires InRange(mem, pl) && pl.p < |mem[pl.k]|
    ensures InRange(mem, r)
  {
    if pl.p + 1 == |mem[pl.k]| && pl.k + 1 < |mem| then Place(pl.k + 1, 0) else Place(pl.k, pl.p + 1)
  }

  lemma IncrAt<T>(mem: Mem<T>, pl: Place)
    requires InRange(mem, pl) && pl.p < |mem[pl.k]|
    ensures At(mem, IncrPlace(mem, pl)) == At(mem, pl) + 1
  {
  }

  /** Whether `IncrBy(n)` stays inside the blocks. */
  ghost predicate Reaches<T>(mem: Mem<T>, pl: Place, n: nat) {
    InRange(mem, pl) && At(mem, pl) + n <= |Flat(mem)|
  }

  /** While `n` is more than is left in the block there is a next block to go on in. */
  lemma ReachesOn<T>(mem: Mem<T>, pl: Place, n: nat)
    requires Reaches(mem, pl, n) && n > |mem[pl.k]| - pl.p
    ensures pl.k + 1 < |mem| && Reaches(mem, Place(pl.k + 1, 0), n - (|mem[pl.k]| - pl.p))
  {
    assert FlatTo(mem, pl.k + 1) == FlatTo(mem, pl.k) + mem[pl.k];
  }

  /** The place that `IncrBy(n)` ends at. */
  ghost function IncrByPlace<T>(mem: Mem<T>, pl: Place, n: nat): Place
    requires Reaches(mem, pl, n)
    decreases |mem| - pl.k
  {
    var left := |mem[pl.k]| - pl.p;
    if n > left then
      ReachesOn(mem, pl, n);
      IncrByPlace(mem, Place(pl.k + 1, 0), n - left)
    else Place(pl.k, pl.p + n)
  }

  /** `IncrBy` goes exactly `n` slots on, and on a boundary it rests at the end of the earlier block. */
  lemma {:induction false} IncrByAt<T>(mem: Mem<T>, pl: Place, n: nat)
    requires Reaches(mem, pl, n)
    ensures var r := IncrByPlace(mem, pl, n);
      && InRange(mem, r) && At(mem, r) == At(mem, pl) + n
      && (n > 0 ==> r.p > 0) && r.k >= pl.k && (r.k == pl.k ==> r.p == pl.p + n)
    decreases |mem| - pl.k
  {
    var left := |mem[pl.k]| - pl.p;
    if n > left {
      ReachesOn(mem, pl, n);
      IncrByAt(mem, Place(pl.k + 1, 0), n - left);
      assert FlatTo(mem, pl.k + 1) == FlatTo(mem, pl.k) + mem[pl.k];
    }
  }

  /** Two places with the same position are the same, or are the two sides of a boundary. */
  lemma SamePosition<T>(mem: Mem<T>, a: Place, b: Place)
    requires InRange(mem, a) && InRange(mem, b) && At(mem, a) == At(mem, b) && a.k <= b.k
    requires forall i :: 0 <= i < |mem| ==> |mem[i]| > 0
    ensures a == b || (b == Place(a.k + 1, 0) && a.p == |mem[a.k]|)
  {
    if a.k < b.k {
      OffMonotone(mem, a.k, b.k);
      OffMonotone(mem, a.k + 1, b.k);
    }
  }

  /** `n` single steps. */
  ghost function IncrTimes<T>(mem: Mem<T>, pl: Place, n: nat): Place
    requires InRange(mem, pl) && CanStep(mem, pl, n)
    decreases n
  {
    if n == 0 then pl else IncrTimes(mem, IncrPlace(mem, pl), n - 1)
  }

  ghost predicate CanStep<T>(mem: Mem<T>, pl: Place, n: nat)
    requires InRange(mem, pl)
    decreases n
  {
    n == 0 || (pl.p < |mem[pl.k]| && CanStep(mem, IncrPlace(mem, pl), n - 1))
  }

  /** From a place that is not on the near side of a boundary, single steps reach as far as the
      slots do, and never come to rest on the near side of a boundary. */
  lemma {:induction false} StepsReach<T>(mem: Mem<T>, pl: Place, n: nat)
    requires Reaches(mem, pl, n) && (forall i :: 0 <= i < |mem| ==> |mem[i]| > 0)
    requires pl.p == |mem[pl.k]| ==> pl.k + 1 == |mem|
    ensures CanStep(mem, pl, n)
    ensures var r := IncrTimes(mem, pl, n);
      && InRange(mem, r) && At(mem, r) == At(mem, pl) + n && r.k >= pl.k
      && (r.p == |mem[r.k]| ==> r.k + 1 == |mem|)
    decreases n
  {
    if n > 0 {
      assert pl.p < |mem[pl.k]|;
      IncrAt(mem, pl);
      StepsReach(mem, IncrPlace(mem, pl), n - 1);
    }
  }

  /** `IncrBy(n)` and `n` single steps reach the same position; the places differ exactly when that
      position is a boundary between two blocks, and then `IncrBy` is on the near side of it. */
  lemma IncrByAgainstSteps<T>(mem: Mem<T>, pl: Place, n: nat)
    requires Reaches(mem, pl, n) && n > 0 && (forall i :: 0 <= i < |mem| ==> |mem[i]| > 0)
    requires pl.p == |mem[pl.k]| ==> pl.k + 1 == |mem|
    ensures CanStep(mem, pl, n)
    ensures var a, b := IncrByPlace(mem, pl, n), IncrTimes(mem, pl, n);
      InRange(mem, a) &&
      b == if a.p == |mem[a.k]| && a.k + 1 < |mem| then Place(a.k + 1, 0) else a
  {
    IncrByAt(mem, pl, n);
    StepsReach(mem, pl, n);
    var a, b := IncrByPlace(mem, pl, n), IncrTimes(mem, pl, n);
    if a.k <= b.k {
      SamePosition(mem, a, b);
    } else {
      SamePosition(mem, b, a);
    }
  }

  // ----- overwriting and filling -----

  /** Element `i` of the queue, at place `pl`, gets the value `v`. */
  function Overwritten<T>(s: Store<T>, pl: Place, v: T): Store<T>
    requires pl.k < |s.mem| && pl.p < |s.mem[pl.k]|
  {
    s.(mem := s.mem[pl.k := s.mem[pl.k][pl.p := Live(v)]])
  }

  lemma LayoutOverwrite<T>(mem: Mem<T>, head: nat, tail: nat, size: nat, k: nat, p: nat, v: T)
    requires Layout(mem, head, tail, size) && k < |mem| && p < |mem[k]|
    requires head <= Off(mem, k) + p < head + size
    ensures mem[k][p].Live?
    ensures var mem' := mem[k := mem[k][p := Live(v)]];
      && Layout(mem', head, tail, size)
      && Contents(mem', head, size) == Contents(mem, head, size)[Off(mem, k) + p - head := v]
  {
    var mem' := mem[k := mem[k][p := Live(v)]];
    var i := Off(mem, k) + p - head;
    FlatAt(mem, k, p);
    SameOffsets(mem, mem', |mem| - 1);
    FlatUpdate(mem, k, p, Live(v), |mem|);
    assert Flat(mem')[head..head + size] == Flat(mem)[head..head + size][i := Live(v)];
  }

  lemma OverwrittenSound<T>(s: Store<T>, pl: Place, i: nat, v: T)
    requires Sound(s) && pl.k < |s.mem| && pl.p < |s.mem[pl.k]| && i < s.size && At(s.mem, pl) == s.head + i
    ensures s.mem[pl.k][pl.p].Live?
    ensures Sound(Overwritten(s, pl, v)) && Elements(Overwritten(s, pl, v)) == Elements(s)[i := v]
    ensures SameSizes(s.mem, Overwritten(s, pl, v).mem)
  {
    LayoutOverwrite(s.mem, s.head, s.tail, s.size, pl.k, pl.p, v);
    GrowingSameSizes(s.mem, Overwritten(s, pl, v).mem, s.lo, s.hi);
  }

  predicate SameSizes<T>(mem: Mem<T>, mem': Mem<T>) {
    |mem| == |mem'| && forall i :: 0 <= i < |mem| ==> |mem[i]| == |mem'[i]|
  }

  lemma SameSizesAt<T>(mem: Mem<T>, mem': Mem<T>, pl: Place)
    requires SameSizes(mem, mem') && InRange(mem, pl)
    ensures InRange(mem', pl) && At(mem', pl) == At(mem, pl)
  {
    SameOffsets(mem, mem', pl.k);
  }

  function Copies<T>(n: nat, v: T): (r: seq<T>)
    ensures |r| == n && forall i :: 0 <= i < n ==> r[i] == v
  {
    seq(n, _ => v)
  }

  lemma CopiesSnoc<T>(e: seq<T>, n: nat, v: T)
    requires n > 0
    ensures e + Copies(n - 1, v) + [v] == e + Copies(n, v)
  {
  }

  /** The next `n` slots at the tail, all in the last block, get copies of `v`. */
  function Filled<T>(s: Store<T>, n: nat, v: T): Store<T>
    requires s.mem != [] && s.tail + n <= |LastBlock(s)|
  {
    var block := LastBlock(s);
    s.(mem := s.mem[|s.mem| - 1 := block[..s.tail] + seq(n, _ => Live(v)) + block[s.tail + n..]],
       tail := s.tail + n, size := s.size + n)
  }

  lemma TailSlotsRaw<T>(s: Store<T>)
    requires Sound(s) && s.mem != []
    ensures forall p :: s.tail <= p < |LastBlock(s)| ==> LastBlock(s)[p].Raw?
  {
    forall p | s.tail <= p < |LastBlock(s)|
      ensures LastBlock(s)[p].Raw?
    {
      FlatAt(s.mem, |s.mem| - 1, p);
    }
  }

  lemma {:induction false} FilledSound<T>(s: Store<T>, n: nat, v: T)
    requires Sound(s) && s.mem != [] && s.tail + n <= |LastBlock(s)|
    ensures Sound(Filled(s, n, v))
    ensures Elements(Filled(s, n, v)) == Elements(s) + Copies(n, v)
    decreases n
  {
    if n == 0 {
      FilledNone(s, v);
    } else {
      var s' := Filled(s, n - 1, v);
      FilledSound(s, n - 1, v);
      PutSound(s', v);
      FilledOneMore(s, n, v);
      CopiesSnoc(Elements(s), n, v);
    }
  }

  lemma FilledNone<T>(s: Store<T>, v: T)
    requires s.mem != [] && s.tail <= |LastBlock(s)|
    ensures Filled(s, 0, v) == s
  {
    assert LastBlock(Filled(s, 0, v)) == LastBlock(s);
    assert Filled(s, 0, v).mem == s.mem;
  }

  lemma FilledOneMore<T>(s: Store<T>, n: nat, v: T)
    requires n > 0 && s.mem != [] && s.tail + n <= |LastBlock(s)|
    ensures Filled(s, n, v) == Put(Filled(s, n - 1, v), v)
  {
    var a, b := Filled(s, n, v), Put(Filled(s, n - 1, v), v);
    assert LastBlock(a) == LastBlock(b);
    assert a.mem == b.mem;
  }

  // ----- one round of growing -----

  /** The state with a slot at the tail, in a new block if need be. */
  function Roomy<T>(s: Store<T>): Store<T> {
    if AtLimit(s) then WithBlock(s) else s
  }

  /** How many of the `wanted` elements fit in the last block. */
  function Fitting<T>(s: Store<T>, wanted: nat): nat
    requires s.mem != [] && s.tail <= |LastBlock(s)|
  {
    var room := |LastBlock(s)| - s.tail;
    if wanted < room then wanted else room
  }

  ghost predicate CanFill<T>(s: Store<T>) {
    && s.mem != [] && s.tail < |LastBlock(s)|
    && forall p :: s.tail <= p < |LastBlock(s)| ==> LastBlock(s)[p].Raw?
  }

  /** Fills the last block, a new one if need be, with at most `wanted` copies of `v`. */
  ghost function GrowStep<T>(s: Store<T>, wanted: nat, v: T): Store<T>
    requires CanFill(Roomy(s))
  {
    Filled(Roomy(s), Fitting(Roomy(s), wanted), v)
  }

  lemma RoomySound<T>(s: Store<T>)
    requires Sound(s)
    ensures Sound(Roomy(s)) && Elements(Roomy(s)) == Elements(s) && CanFill(Roomy(s))
  {
    if AtLimit(s) {
      WithBlockSound(s);
    }
    TailSlotsRaw(Roomy(s));
  }

  lemma GrowStepSound<T>(s: Store<T>, wanted: nat, v: T)
    requires Sound(s) && wanted > 0
    ensures CanFill(Roomy(s))
    ensures var s' := GrowStep(s, wanted, v);
      && Sound(s') && TailRule(s'.mem, s'.tail) && 0 < s'.size - s.size <= wanted
      && Elements(s') == Elements(s) + Copies(s'.size - s.size, v)
  {
    RoomySound(s);
    FilledSound(Roomy(s), Fitting(Roomy(s), wanted), v);
  }
}

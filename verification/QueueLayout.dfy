/** Where the elements of a chunked queue are.

    The storage of a queue is a list of blocks of slots.  Laid end to end the slots form one line;
    the elements are the live slots, and they are exactly the stretch between the two cursors.
 */
module QueueLayout {

  /** Storage for one element: raw memory, or memory that holds a constructed element. */
  datatype Slot<T> = Raw | Live(value: T)

  type Mem<T> = seq<seq<Slot<T>>>

  function Raws<T>(n: nat): (r: seq<Slot<T>>)
    ensures |r| == n && forall i :: 0 <= i < n ==> r[i] == Raw
  {
    seq(n, _ => Raw)
  }

  /** The slots of the first `k` blocks, end to end. */
  ghost function FlatTo<T>(mem: Mem<T>, k: nat): seq<Slot<T>>
    requires k <= |mem|
  {
    if k == 0 then [] else FlatTo(mem, k - 1) + mem[k - 1]
  }

  ghost function Flat<T>(mem: Mem<T>): seq<Slot<T>> {
    FlatTo(mem, |mem|)
  }

  /** The place on the line at which block `k` starts. */
  ghost function Off<T>(mem: Mem<T>, k: nat): nat
    requires k <= |mem|
  {
    |FlatTo(mem, k)|
  }

  lemma {:induction false} OffMonotone<T>(mem: Mem<T>, j: nat, k: nat)
    requires j <= k <= |mem|
    ensures Off(mem, j) <= Off(mem, k)
    ensures FlatTo(mem, k)[..Off(mem, j)] == FlatTo(mem, j)
    ensures j < k ==> Off(mem, j) + |mem[j]| <= Off(mem, k)
    decreases k
  {
    if j < k {
      OffMonotone(mem, j, k - 1);
      assert FlatTo(mem, k)[..Off(mem, j)] == FlatTo(mem, k - 1)[..Off(mem, j)];
      if j + 1 < k {
        OffMonotone(mem, j + 1, k - 1);
      }
    }
  }

  /** Slot `p` of block `k` is at `Off(mem, k) + p`. */
  lemma FlatAt<T>(mem: Mem<T>, k: nat, p: nat)
    requires k < |mem| && p < |mem[k]|
    ensures Off(mem, k) + p < |Flat(mem)|
    ensures Flat(mem)[Off(mem, k) + p] == mem[k][p]
  {
    OffMonotone(mem, k + 1, |mem|);
    assert FlatTo(mem, k + 1)[Off(mem, k) + p] == mem[k][p];
  }

  lemma {:induction false} FlatToSame<T>(mem: Mem<T>, mem': Mem<T>, k: nat)
    requires k <= |mem| && k <= |mem'| && mem[..k] == mem'[..k]
    ensures FlatTo(mem, k) == FlatTo(mem', k)
    decreases k
  {
    if k > 0 {
      assert mem[..k][k - 1] == mem'[..k][k - 1];
      assert mem[..k][..k - 1] == mem[..k - 1] && mem'[..k][..k - 1] == mem'[..k - 1];
      FlatToSame(mem, mem', k - 1);
    }
  }

  lemma {:induction false} FlatUpdate<T>(mem: Mem<T>, k: nat, p: nat, s: Slot<T>, n: nat)
    requires k < n <= |mem| && p < |mem[k]|
    ensures var mem' := mem[k := mem[k][p := s]];
      && Off(mem, k) + p < Off(mem, n)
      && FlatTo(mem', n) == FlatTo(mem, n)[Off(mem, k) + p := s]
    decreases n
  {
    var mem' := mem[k := mem[k][p := s]];
    if n == k + 1 {
      FlatToSame(mem, mem', k);
    } else {
      FlatUpdate(mem, k, p, s, n - 1);
    }
  }

  lemma FlatAppend<T>(mem: Mem<T>, block: seq<Slot<T>>)
    ensures Flat(mem + [block]) == Flat(mem) + block
    ensures Off(mem + [block], |mem|) == |Flat(mem)|
  {
    FlatToSame(mem, mem + [block], |mem|);
  }

  lemma {:induction false} FlatToRest<T>(mem: Mem<T>, k: nat)
    requires 0 < k <= |mem|
    ensures FlatTo(mem, k) == mem[0] + FlatTo(mem[1..], k - 1)
    decreases k
  {
    if k > 1 {
      FlatToRest(mem, k - 1);
    }
  }

  lemma FlatPrefix<T>(mem: Mem<T>, k: nat)
    requires k <= |mem|
    ensures Off(mem, k) <= |Flat(mem)|
    ensures Flat(mem[..k]) == Flat(mem)[..Off(mem, k)]
  {
    FlatToSame(mem, mem[..k], k);
    OffMonotone(mem, k, |mem|);
  }

  // ----- layout -----

  /** The slots of `line` that are live are those in `[lo, hi)`. */
  ghost predicate LiveExactly<T>(line: seq<Slot<T>>, lo: nat, hi: nat) {
    lo <= hi <= |line| &&
    forall i :: 0 <= i < |line| ==> (line[i].Live? <==> lo <= i < hi)
  }

  /** The place on the line of the tail cursor. */
  ghost function End<T>(mem: Mem<T>, tail: nat): nat
    requires mem != []
  {
    Off(mem, |mem| - 1) + tail
  }

  /** The cursors are in their blocks, there is an element slot at the head cursor of every block
      list, and the live slots are those between the cursors.  The tail cursor may still be at the
      start of a last block that is not the only one. */
  ghost predicate Layout<T>(mem: Mem<T>, head: nat, tail: nat, size: nat) {
    if mem == [] then head == 0 && tail == 0 && size == 0
    else
      && head < |mem[0]|
      && tail <= |mem[|mem| - 1]|
      && End(mem, tail) == head + size
      && LiveExactly(Flat(mem), head, head + size)
  }

  /** The tail cursor is not at the start of a last block that is not the only one. */
  predicate TailRule<T>(mem: Mem<T>, tail: nat) {
    |mem| > 1 ==> tail > 0
  }

  function Values<T>(s: seq<Slot<T>>): (r: seq<T>)
    requires forall i :: 0 <= i < |s| ==> s[i].Live?
    ensures |r| == |s| && forall i :: 0 <= i < |s| ==> r[i] == s[i].value
  {
    seq(|s|, i requires 0 <= i < |s| => s[i].value)
  }

  ghost function Contents<T>(mem: Mem<T>, head: nat, size: nat): (r: seq<T>)
    requires head + size <= |Flat(mem)|
    requires LiveExactly(Flat(mem), head, head + size)
    ensures |r| == size
  {
    Values(Flat(mem)[head..head + size])
  }

  lemma LayoutBounds<T>(mem: Mem<T>, head: nat, tail: nat, size: nat)
    requires Layout(mem, head, tail, size)
    ensures head + size <= |Flat(mem)| && LiveExactly(Flat(mem), head, head + size)
    ensures mem != [] ==> |Flat(mem)| == Off(mem, |mem| - 1) + |mem[|mem| - 1]|
  {
  }

  /** With the tail rule, several blocks hold at least two elements. */
  lemma SeveralBlocks<T>(mem: Mem<T>, head: nat, tail: nat, size: nat)
    requires Layout(mem, head, tail, size) && TailRule(mem, tail) && |mem| > 1
    ensures size >= 2 && |mem[0]| < head + size
  {
    OffMonotone(mem, 1, |mem| - 1);
  }

  // ----- what the operations do to a layout -----

  lemma LayoutEmplace<T>(mem: Mem<T>, head: nat, tail: nat, size: nat, v: T)
    requires mem != [] && Layout(mem, head, tail, size) && tail < |mem[|mem| - 1]|
    ensures var k := |mem| - 1; var mem' := mem[k := mem[k][tail := Live(v)]];
      && Layout(mem', head, tail + 1, size + 1)
      && Contents(mem', head, size + 1) == Contents(mem, head, size) + [v]
  {
    var k := |mem| - 1;
    var mem' := mem[k := mem[k][tail := Live(v)]];
    FlatUpdate(mem, k, tail, Live(v), |mem|);
    FlatToSame(mem, mem', k);
    var line, line' := Flat(mem), Flat(mem');
    assert line' == line[head + size := Live(v)];
    assert line'[head..head + size] == line[head..head + size];
  }

  lemma LayoutAddBlock<T>(mem: Mem<T>, head: nat, tail: nat, size: nat, n: nat)
    requires Layout(mem, head, tail, size) && n > 0
    requires mem != [] ==> tail == |mem[|mem| - 1]|
    ensures Layout(mem + [Raws(n)], head, 0, size)
    ensures Contents(mem + [Raws(n)], head, size) == Contents(mem, head, size)
  {
    var mem' := mem + [Raws(n)];
    FlatAppend(mem, Raws(n));
    assert Flat(mem')[head..head + size] == Flat(mem)[head..head + size];
  }

  /** Destroying the first element, the cursor left where it is. */
  lemma FrontDestroyed<T>(mem: Mem<T>, head: nat, tail: nat, size: nat)
    requires Layout(mem, head, tail, size) && size > 0
    ensures var mem' := mem[0 := mem[0][head := Raw]];
      && Flat(mem') == Flat(mem)[head := Raw]
      && LiveExactly(Flat(mem'), head + 1, head + size)
      && Contents(mem', head + 1, size - 1) == Contents(mem, head, size)[1..]
  {
    var mem' := mem[0 := mem[0][head := Raw]];
    FlatUpdate(mem, 0, head, Raw, |mem|);
    assert Off(mem, 0) == 0;
    assert Flat(mem')[head + 1..head + size] == Flat(mem)[head + 1..head + size];
  }

  lemma LayoutPop<T>(mem: Mem<T>, head: nat, tail: nat, size: nat)
    requires Layout(mem, head, tail, size) && size > 1 && head + 1 < |mem[0]|
    ensures Layout(mem[0 := mem[0][head := Raw]], head + 1, tail, size - 1)
    ensures Contents(mem[0 := mem[0][head := Raw]], head + 1, size - 1) == Contents(mem, head, size)[1..]
  {
    var mem' := mem[0 := mem[0][head := Raw]];
    FrontDestroyed(mem, head, tail, size);
    SameOffsets(mem, mem', |mem| - 1);
  }

  lemma {:induction false} SameOffsets<T>(mem: Mem<T>, mem': Mem<T>, k: nat)
    requires |mem| == |mem'| && k <= |mem| && forall i :: 0 <= i < |mem| ==> |mem[i]| == |mem'[i]|
    ensures Off(mem, k) == Off(mem', k)
    decreases k
  {
    if k > 0 {
      SameOffsets(mem, mem', k - 1);
    }
  }

  /** The last element goes: both cursors return to the start of the only block. */
  lemma LayoutPopLast<T>(mem: Mem<T>, head: nat, tail: nat)
    requires Layout(mem, head, tail, 1) && TailRule(mem, tail)
    ensures |mem| == 1
    ensures Layout([mem[0][head := Raw]], 0, 0, 0)
  {
    if |mem| > 1 {
      SeveralBlocks(mem, head, tail, 1);
      assert false;
    }
    FrontDestroyed(mem, head, tail, 1);
    var mem' := mem[0 := mem[0][head := Raw]];
    assert mem' == [mem[0][head := Raw]];
    assert FlatTo(mem', 0) == [];
  }

  /** With no element left in the first block, the block can go. */
  lemma DropFirst<T>(mem: Mem<T>, tail: nat, size: nat)
    requires |mem| > 1 && |mem[1]| > 0 && tail <= |mem[|mem| - 1]|
    requires End(mem, tail) == |mem[0]| + size
    requires LiveExactly(Flat(mem), |mem[0]|, |mem[0]| + size)
    ensures mem[0] == Raws(|mem[0]|)
    ensures Layout(mem[1..], 0, tail, size)
    ensures Contents(mem[1..], 0, size) == Contents(mem, |mem[0]|, size)
  {
    var n, rest := |mem[0]|, mem[1..];
    FlatToRest(mem, |mem|);
    FlatToRest(mem, |mem| - 1);
    var line, line' := Flat(mem), Flat(rest);
    assert line == mem[0] + line';
    assert forall i :: 0 <= i < n ==> line[i] == mem[0][i];
    assert forall i :: 0 <= i < |line'| ==> line'[i] == line[n + i];
    assert line'[0..size] == line[n..n + size];
  }

  /** The last slot of the first block goes, and the block with it. */
  lemma LayoutPopBlock<T>(mem: Mem<T>, head: nat, tail: nat, size: nat)
    requires Layout(mem, head, tail, size) && TailRule(mem, tail) && size > 1 && head + 1 == |mem[0]|
    requires forall i :: 0 <= i < |mem| ==> |mem[i]| > 0
    ensures |mem| > 1
    ensures var mem' := mem[0 := mem[0][head := Raw]];
      && mem'[0] == Raws(|mem[0]|)
      && Layout(mem'[1..], 0, tail, size - 1) && TailRule(mem'[1..], tail)
      && Contents(mem'[1..], 0, size - 1) == Contents(mem, head, size)[1..]
  {
    assert Off(mem, 0) == 0;
    assert |mem| > 1;
    var mem' := mem[0 := mem[0][head := Raw]];
    FrontDestroyed(mem, head, tail, size);
    SameOffsets(mem, mem', |mem| - 1);
    DropFirst(mem', tail, size - 1);
  }

  /** Cutting at slot `p` of block `k`: what lies behind is destroyed and later blocks go. */
  ghost function CutAt<T>(mem: Mem<T>, k: nat, p: nat): Mem<T>
    requires k < |mem| && p <= |mem[k]|
  {
    mem[..k] + [mem[k][..p] + Raws(|mem[k]| - p)]
  }

  lemma LayoutCut<T>(mem: Mem<T>, head: nat, tail: nat, size: nat, k: nat, p: nat)
    requires Layout(mem, head, tail, size)
    requires k < |mem| && p <= |mem[k]| && head <= Off(mem, k) + p <= head + size
    ensures var n := Off(mem, k) + p - head;
      && Layout(CutAt(mem, k, p), head, p, n)
      && Contents(CutAt(mem, k, p), head, n) == Contents(mem, head, size)[..n]
  {
    var n := Off(mem, k) + p - head;
    var block := mem[k][..p] + Raws(|mem[k]| - p);
    var mem' := CutAt(mem, k, p);
    FlatAppend(mem[..k], block);
    FlatPrefix(mem, k);
    OffMonotone(mem, k + 1, |mem|);
    OffMonotone(mem, k, |mem|);
    var line, line' := Flat(mem), Flat(mem');
    assert line' == FlatTo(mem, k) + block;
    forall i | 0 <= i < head + n
      ensures line'[i] == line[i]
    {
      if i >= Off(mem, k) {
        FlatAt(mem, k, i - Off(mem, k));
      }
    }
    assert line'[head..head + n] == line[head..head + size][..n];
  }

  // ----- block sizes -----

  function Doubled(n: nat, hi: nat): (r: nat)
    ensures r <= hi && r <= 2 * n && (r == hi || r == 2 * n)
  {
    if hi < 2 * n then hi else 2 * n
  }

  /** Block `i` is twice the one before, unless that is too much. */
  ghost predicate GrowsAt<T>(mem: Mem<T>, hi: nat, i: nat)
    requires 0 < i < |mem|
  {
    |mem[i]| == Doubled(|mem[i - 1]|, hi)
  }

  /** Block sizes are within bounds, and each is twice the one before unless that is too much. */
  ghost predicate Growing<T>(mem: Mem<T>, lo: nat, hi: nat) {
    && (forall i :: 0 <= i < |mem| ==> lo <= |mem[i]| <= hi)
    && (forall i :: 0 < i < |mem| ==> GrowsAt(mem, hi, i))
  }

  lemma GrowingSameSizes<T>(mem: Mem<T>, mem': Mem<T>, lo: nat, hi: nat)
    requires Growing(mem, lo, hi) && |mem'| <= |mem|
    requires forall i :: 0 <= i < |mem'| ==> |mem'[i]| == |mem[i]|
    ensures Growing(mem', lo, hi)
  {
    forall i | 0 < i < |mem'|
      ensures GrowsAt(mem', hi, i)
    {
      assert GrowsAt(mem, hi, i);
    }
  }

  // ----- the state of a queue -----

  /** Storage, cursor places, size and the bounds on block sizes. */
  datatype Store<T> = Store(mem: Mem<T>, head: nat, tail: nat, size: nat, lo: nat, hi: nat)

  ghost predicate Sound<T>(s: Store<T>) {
    Layout(s.mem, s.head, s.tail, s.size) && 0 < s.lo <= s.hi && Growing(s.mem, s.lo, s.hi)
  }

  ghost function Elements<T>(s: Store<T>): (r: seq<T>)
    requires Sound(s)
    ensures |r| == s.size
  {
    LayoutBounds(s.mem, s.head, s.tail, s.size);
    Contents(s.mem, s.head, s.size)
  }

  function LastBlock<T>(s: Store<T>): seq<Slot<T>>
    requires s.mem != []
  {
    s.mem[|s.mem| - 1]
  }

  predicate AtLimit<T>(s: Store<T>) {
    s.mem == [] || s.tail == |LastBlock(s)|
  }

  // ----- the operations, on states -----

  /** The size that the next block gets. */
  function NextSize<T>(s: Store<T>): nat {
    if s.mem == [] then s.lo else Doubled(|LastBlock(s)|, s.hi)
  }

  function WithBlock<T>(s: Store<T>): Store<T> {
    s.(mem := s.mem + [Raws(NextSize(s))], tail := 0)
  }

  /** Constructs an element in the slot at the tail. */
  function Put<T>(s: Store<T>, v: T): Store<T>
    requires s.mem != [] && s.tail < |LastBlock(s)|
  {
    s.(mem := s.mem[|s.mem| - 1 := LastBlock(s)[s.tail := Live(v)]], tail := s.tail + 1, size := s.size + 1)
  }

  /** There is a raw slot at the tail, or will be in a new block. */
  predicate Room<T>(s: Store<T>) {
    if AtLimit(s) then NextSize(s) > 0 else s.tail < |LastBlock(s)| && LastBlock(s)[s.tail].Raw?
  }

  function Push<T>(s: Store<T>, v: T): Store<T>
    requires Room(s)
  {
    Put(if AtLimit(s) then WithBlock(s) else s, v)
  }

  lemma WithBlockSound<T>(s: Store<T>)
    requires Sound(s) && AtLimit(s)
    ensures NextSize(s) > 0 && Sound(WithBlock(s)) && Elements(WithBlock(s)) == Elements(s)
  {
    var n := NextSize(s);
    LayoutAddBlock(s.mem, s.head, s.tail, s.size, n);
    var mem' := s.mem + [Raws(n)];
    forall i | 0 < i < |mem'|
      ensures GrowsAt(mem', s.hi, i)
    {
      if i < |s.mem| {
        assert GrowsAt(s.mem, s.hi, i);
      }
    }
  }

  lemma PutSound<T>(s: Store<T>, v: T)
    requires Sound(s) && s.mem != [] && s.tail < |LastBlock(s)|
    ensures Sound(Put(s, v)) && Elements(Put(s, v)) == Elements(s) + [v]
    ensures LastBlock(s)[s.tail].Raw?
  {
    LayoutEmplace(s.mem, s.head, s.tail, s.size, v);
    FlatAt(s.mem, |s.mem| - 1, s.tail);
    GrowingSameSizes(s.mem, Put(s, v).mem, s.lo, s.hi);
  }

  lemma PushSound<T>(s: Store<T>, v: T)
    requires Sound(s)
    ensures Room(s) && Sound(Push(s, v)) && TailRule(Push(s, v).mem, Push(s, v).tail)
    ensures Elements(Push(s, v)) == Elements(s) + [v]
  {
    if AtLimit(s) {
      WithBlockSound(s);
      PutSound(WithBlock(s), v);
    } else {
      PutSound(s, v);
    }
  }

  /** What `pop_front` needs to find: an element at the head cursor, no second block when it is the
      only element, and a second block when it is the last of its block. */
  ghost predicate Poppable<T>(s: Store<T>) {
    && s.size > 0 && s.mem != [] && s.head < |s.mem[0]| && s.mem[0][s.head].Live?
    && (s.size == 1 ==> |s.mem| == 1)
    && (s.size > 1 && s.head + 1 == |s.mem[0]| ==> |s.mem| > 1 && s.mem[0][s.head := Raw] == Raws(|s.mem[0]|))
  }

  ghost function Pop<T>(s: Store<T>): Store<T>
    requires Poppable(s)
  {
    var mem' := s.mem[0 := s.mem[0][s.head := Raw]];
    if s.size == 1 then s.(mem := mem', head := 0, tail := 0, size := 0)
    else if s.head + 1 == |s.mem[0]| then s.(mem := mem'[1..], head := 0, size := s.size - 1)
    else s.(mem := mem', head := s.head + 1, size := s.size - 1)
  }

  lemma PopLastSound<T>(s: Store<T>)
    requires Sound(s) && TailRule(s.mem, s.tail) && s.size == 1
    ensures Poppable(s) && Sound(Pop(s)) && TailRule(Pop(s).mem, Pop(s).tail)
    ensures Elements(Pop(s)) == []
  {
    HeadIsLive(s);
    LayoutPopLast(s.mem, s.head, s.tail);
    assert s.mem[0 := s.mem[0][s.head := Raw]] == [s.mem[0][s.head := Raw]];
  }

  lemma PopBlockSound<T>(s: Store<T>)
    requires Sound(s) && TailRule(s.mem, s.tail) && s.size > 1 && s.head + 1 == |s.mem[0]|
    ensures Poppable(s) && Sound(Pop(s)) && TailRule(Pop(s).mem, Pop(s).tail)
    ensures Elements(Pop(s)) == Elements(s)[1..]
  {
    var mem' := s.mem[0 := s.mem[0][s.head := Raw]];
    HeadIsLive(s);
    LayoutPopBlock(s.mem, s.head, s.tail, s.size);
    GrowingSameSizes(s.mem, mem', s.lo, s.hi);
    GrowingRest(mem', s.lo, s.hi);
  }

  lemma PopSlotSound<T>(s: Store<T>)
    requires Sound(s) && TailRule(s.mem, s.tail) && s.size > 1 && s.head + 1 < |s.mem[0]|
    ensures Poppable(s) && Sound(Pop(s)) && TailRule(Pop(s).mem, Pop(s).tail)
    ensures Elements(Pop(s)) == Elements(s)[1..]
  {
    var mem' := s.mem[0 := s.mem[0][s.head := Raw]];
    HeadIsLive(s);
    LayoutPop(s.mem, s.head, s.tail, s.size);
    GrowingSameSizes(s.mem, mem', s.lo, s.hi);
  }

  lemma HeadIsLive<T>(s: Store<T>)
    requires Sound(s) && s.size > 0
    ensures s.mem[0][s.head].Live? && s.mem[0][s.head].value == Elements(s)[0]
  {
    FlatAt(s.mem, 0, s.head);
    assert Off(s.mem, 0) == 0;
  }

  lemma PopSound<T>(s: Store<T>)
    requires Sound(s) && TailRule(s.mem, s.tail) && s.size > 0
    ensures Poppable(s) && Sound(Pop(s)) && TailRule(Pop(s).mem, Pop(s).tail)
    ensures Elements(Pop(s)) == Elements(s)[1..]
  {
    if s.size == 1 {
      PopLastSound(s);
    } else if s.head + 1 == |s.mem[0]| {
      PopBlockSound(s);
    } else {
      PopSlotSound(s);
    }
  }

  lemma GrowingRest<T>(mem: Mem<T>, lo: nat, hi: nat)
    requires Growing(mem, lo, hi) && mem != []
    ensures Growing(mem[1..], lo, hi)
  {
    var rest := mem[1..];
    forall i | 0 < i < |rest|
      ensures GrowsAt(rest, hi, i)
    {
      assert GrowsAt(mem, hi, i + 1);
    }
  }

  // ----- the live slots of one block -----

  function BlockBegin<T>(s: Store<T>, k: nat): nat {
    if k == 0 then s.head else 0
  }

  function BlockEnd<T>(s: Store<T>, k: nat): nat
    requires k < |s.mem|
  {
    if k + 1 == |s.mem| then s.tail else |s.mem[k]|
  }

  /** The live slots of block `k` are those that `block_begin` and `block_end` give. */
  predicate BlockLive<T>(s: Store<T>, k: nat)
    requires k < |s.mem|
  {
    && BlockBegin(s, k) <= BlockEnd(s, k) <= |s.mem[k]|
    && forall p :: 0 <= p < |s.mem[k]| ==> (s.mem[k][p].Live? <==> BlockBegin(s, k) <= p < BlockEnd(s, k))
  }

  /** The number of elements in block `k` and after. */
  function CountFrom<T>(s: Store<T>, k: nat): int
    requires k <= |s.mem|
    decreases |s.mem| - k
  {
    if k == |s.mem| then 0 else BlockEnd(s, k) - BlockBegin(s, k) + CountFrom(s, k + 1)
  }

  /** The elements of a block, as places on the line. */
  lemma BlockPlaces<T>(s: Store<T>, k: nat)
    requires Sound(s) && k < |s.mem|
    ensures BlockBegin(s, k) <= |s.mem[k]| && BlockEnd(s, k) <= |s.mem[k]|
    ensures k > 0 ==> s.head < Off(s.mem, k)
    ensures k + 1 < |s.mem| ==> Off(s.mem, k) + |s.mem[k]| <= s.head + s.size
    ensures BlockBegin(s, k) <= BlockEnd(s, k)
    ensures s.head <= Off(s.mem, k) + BlockBegin(s, k)
    ensures Off(s.mem, k) + BlockEnd(s, k) <= s.head + s.size
  {
    assert Off(s.mem, 0) == 0;
    OffMonotone(s.mem, k, |s.mem| - 1);
    if k > 0 {
      OffMonotone(s.mem, 0, k);
    }
  }

  lemma SoundBlockLive<T>(s: Store<T>, k: nat)
    requires Sound(s) && k < |s.mem|
    ensures BlockLive(s, k)
  {
    BlockPlaces(s, k);
    assert Off(s.mem, 0) == 0;
    forall p | 0 <= p < |s.mem[k]|
      ensures s.mem[k][p].Live? <==> BlockBegin(s, k) <= p < BlockEnd(s, k)
    {
      FlatAt(s.mem, k, p);
    }
  }

  lemma {:induction false} SoundCountFrom<T>(s: Store<T>, k: nat)
    requires Sound(s) && k < |s.mem|
    ensures CountFrom(s, k) == s.head + s.size - (Off(s.mem, k) + BlockBegin(s, k))
    decreases |s.mem| - k
  {
    if k + 1 < |s.mem| {
      SoundCountFrom(s, k + 1);
    }
  }

  // ----- erasing from a place to the end -----

  /** `p` is a place of block `k` at or after its first element and not after its last. */
  predicate CutPlace<T>(s: Store<T>, k: nat, p: nat) {
    k < |s.mem| && BlockBegin(s, k) <= p <= BlockEnd(s, k)
  }

  function CutCount<T>(s: Store<T>, k: nat, p: nat): int
    requires CutPlace(s, k, p)
  {
    BlockEnd(s, k) - p + CountFrom(s, k + 1)
  }

  ghost function Cut<T>(s: Store<T>, k: nat, p: nat): Store<T>
    requires CutPlace(s, k, p) && p <= |s.mem[k]| && 0 <= CutCount(s, k, p) <= s.size
  {
    s.(mem := CutAt(s.mem, k, p), tail := p, size := s.size - CutCount(s, k, p))
  }

  /** Block `k` with what lies at and after `p` destroyed. */
  function Trimmed<T>(s: Store<T>, k: nat, p: nat): Store<T>
    requires k < |s.mem| && p <= |s.mem[k]| && 0 <= BlockEnd(s, k) - p <= s.size
  {
    s.(mem := s.mem[k := s.mem[k][..p] + Raws(|s.mem[k]| - p)], size := s.size - (BlockEnd(s, k) - p))
  }

  /** Block `k` made the last, the tail at `p`, and `n` elements fewer. */
  function Shortened<T>(s: Store<T>, k: nat, p: nat, n: nat): Store<T>
    requires k < |s.mem| && n <= s.size
  {
    s.(mem := s.mem[..k + 1], tail := p, size := s.size - n)
  }

  lemma TrimmedBlock<T>(s: Store<T>, k: nat, p: nat)
    requires k < |s.mem| && BlockLive(s, k) && p <= BlockEnd(s, k)
    ensures s.mem[k][..p] + Raws(BlockEnd(s, k) - p) + s.mem[k][BlockEnd(s, k)..] == s.mem[k][..p] + Raws(|s.mem[k]| - p)
  {
  }

  lemma TrimmedRest<T>(s: Store<T>, k: nat, p: nat)
    requires k < |s.mem| && p <= |s.mem[k]| && 0 <= BlockEnd(s, k) - p <= s.size
    requires forall j :: k < j < |s.mem| ==> BlockLive(s, j)
    ensures forall j :: k < j < |s.mem| ==> BlockLive(Trimmed(s, k, p), j)
    ensures CountFrom(Trimmed(s, k, p), k + 1) == CountFrom(s, k + 1)
  {
    var s' := Trimmed(s, k, p);
    forall j | k < j < |s.mem|
      ensures BlockLive(s', j)
    {
      assert BlockLive(s, j);
    }
    SameCountFrom(s, s', k + 1);
  }

  /** Cutting is trimming the block and then dropping the later ones. */
  lemma CutInTwoSteps<T>(s: Store<T>, k: nat, p: nat)
    requires CutPlace(s, k, p) && p <= |s.mem[k]|
    requires 0 <= CountFrom(s, k + 1) && CutCount(s, k, p) <= s.size
    ensures Cut(s, k, p) == Shortened(Trimmed(s, k, p), k, p, CountFrom(s, k + 1))
  {
    assert CutAt(s.mem, k, p) == Trimmed(s, k, p).mem[..k + 1];
  }

  lemma {:induction false} SameCountFrom<T>(s: Store<T>, s': Store<T>, k: nat)
    requires |s.mem| == |s'.mem| && k <= |s.mem| && forall i :: 0 <= i < |s.mem| ==> |s.mem[i]| == |s'.mem[i]|
    requires s.head == s'.head && s.tail == s'.tail
    ensures CountFrom(s, k) == CountFrom(s', k)
    decreases |s.mem| - k
  {
    if k < |s.mem| {
      SameCountFrom(s, s', k + 1);
    }
  }

  lemma CutCountIs<T>(s: Store<T>, k: nat, p: nat)
    requires Sound(s) && CutPlace(s, k, p)
    ensures CutCount(s, k, p) == s.head + s.size - (Off(s.mem, k) + p)
  {
    SoundCountFrom(s, k);
  }

  lemma CutSound<T>(s: Store<T>, k: nat, p: nat)
    requires Sound(s) && CutPlace(s, k, p)
    ensures p <= |s.mem[k]| && 0 <= CutCount(s, k, p) <= s.size
    ensures Sound(Cut(s, k, p))
    ensures Cut(s, k, p).size == Off(s.mem, k) + p - s.head
    ensures Elements(Cut(s, k, p)) == Elements(s)[..Cut(s, k, p).size]
  {
    BlockPlaces(s, k);
    CutCountIs(s, k, p);
    LayoutCut(s.mem, s.head, s.tail, s.size, k, p);
    GrowingSameSizes(s.mem, CutAt(s.mem, k, p), s.lo, s.hi);
  }
}

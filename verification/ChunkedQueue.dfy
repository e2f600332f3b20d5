/** The chunked queue: blocks linked on the heap, two cursors and a size.

    Methods on the heap need no more than that the heap agrees with the store, and say what the store
    becomes; that the new store is sound is proved about the store alone.  Loop invariants are written
    `Valid() == true` where the predicate is to be carried whole. */
module ChunkedQueue {
  import opened Options
  import opened QueueLayout
  import opened QueuePlaces

  /** A node of the chain: raw storage for a fixed number of elements, and a link. */
  class Block<T> {
    var next: Block?<T>
    const slots: array<Slot<T>>

    constructor (n: nat)
      ensures next == null && fresh(slots) && slots[..] == Raws(n)
    {
      next := null;
      slots := new Slot<T>[n](_ => Raw);
      new;
      assert slots[..] == Raws(n);
    }

    /** Constructs an element; the slot must be raw. */
    method Construct(alloc: BlockAllocator<T>, p: nat, v: T)
      requires p < slots.Length && slots[p].Raw?
      modifies slots, alloc`built
      ensures slots[..] == old(slots[..])[p := Live(v)] && alloc.built == old(alloc.built) + 1
    {
      slots[p] := Live(v);
      alloc.built := alloc.built + 1;
    }

    /** Constructs copies of `v` in the raw slots `[start, limit)`. */
    method ConstructRun(alloc: BlockAllocator<T>, start: nat, limit: nat, v: T)
      requires start <= limit <= slots.Length
      requires forall p :: start <= p < limit ==> slots[p].Raw?
      modifies slots, alloc`built
      ensures slots[..] == old(slots[..])[..start] + seq(limit - start, _ => Live(v)) + old(slots[..])[limit..]
      ensures alloc.built == old(alloc.built) + (limit - start)
    {
      var p := start;
      while p != limit
        invariant start <= p <= limit && alloc.built == old(alloc.built) + (p - start)
        invariant forall i :: 0 <= i < slots.Length ==> slots[i] == if start <= i < p then Live(v) else old(slots[i])
      {
        Construct(alloc, p, v);
        p := p + 1;
      }
    }

    /** Destroys the elements in `[start, limit)`; every slot there must hold one. */
    method Destroy(alloc: BlockAllocator<T>, start: nat, limit: nat) returns (n: nat)
      requires start <= limit <= slots.Length
      requires forall p :: start <= p < limit ==> slots[p].Live?
      modifies slots, alloc`ended
      ensures slots[..] == old(slots[..])[..start] + Raws(limit - start) + old(slots[..])[limit..]
      ensures n == limit - start && alloc.ended == old(alloc.ended) + n
    {
      n := limit - start;
      var p := start;
      while p != limit
        invariant start <= p <= limit && alloc.ended == old(alloc.ended) + (p - start)
        invariant forall i :: 0 <= i < slots.Length ==> slots[i] == if start <= i < p then Raw else old(slots[i])
      {
        slots[p] := Raw;
        alloc.ended := alloc.ended + 1;
        p := p + 1;
      }
    }
  }

  /** Hands out blocks and takes them back, and constructs and destroys elements.  `live` is the set of
      blocks that are out; `built` and `ended` count the elements constructed and destroyed. */
  class BlockAllocator<T> {
    ghost var live: set<Block<T>>
    ghost var built: nat
    ghost var ended: nat

    constructor ()
      ensures live == {} && built == ended == 0
    {
      live, built, ended := {}, 0, 0;
    }

    method New(n: nat) returns (b: Block<T>)
      modifies this`live
      ensures fresh(b) && fresh(b.slots) && b.next == null && b.slots[..] == Raws(n)
      ensures live == old(live) + {b} && b !in old(live)
    {
      b := new Block(n);
      live := live + {b};
    }

    /** A block is given back once, and only when it holds no element. */
    method Delete(b: Block<T>)
      requires b in live && b.slots[..] == Raws(b.slots.Length)
      modifies this`live
      ensures live == old(live) - {b}
    {
      live := live - {b};
    }
  }

  datatype Cursor<T> = Cursor(block: Block?<T>, ptr: nat, limit: nat)

  function Nowhere<T>(): Cursor<T> {
    Cursor(null, 0, 0)
  }

  function StartOf<T>(b: Block<T>): Cursor<T> {
    Cursor(b, 0, b.slots.Length)
  }

  // ----- chains of blocks -----

  ghost function Arrays<T>(chain: seq<Block<T>>): set<array<Slot<T>>> {
    set b | b in chain :: b.slots
  }

  ghost predicate Linked<T>(chain: seq<Block<T>>)
    reads chain
  {
    forall i {:trigger chain[i].next} :: 0 <= i < |chain| ==> chain[i].next == Follower(chain, i)
  }

  ghost function Follower<T>(chain: seq<Block<T>>, i: nat): Block?<T> {
    BlockAt(chain, i + 1)
  }

  /** Block `i` of a chain, or null behind its end. */
  ghost function BlockAt<T>(chain: seq<Block<T>>, i: nat): Block?<T> {
    if i < |chain| then chain[i] else null
  }

  ghost predicate Matches<T>(chain: seq<Block<T>>, mem: Mem<T>)
    reads Arrays(chain)
  {
    |mem| == |chain| && forall i {:trigger chain[i].slots} :: 0 <= i < |chain| ==> chain[i].slots[..] == mem[i]
  }

  ghost predicate Differ<T>(chain: seq<Block<T>>, i: nat, j: nat)
    requires i < |chain| && j < |chain|
  {
    chain[i] != chain[j] && chain[i].slots != chain[j].slots
  }

  ghost predicate Distinct<T>(chain: seq<Block<T>>) {
    forall i, j :: 0 <= i < j < |chain| ==> Differ(chain, i, j)
  }

  /** Block `k` differs from every other. */
  lemma OnlyOne<T>(chain: seq<Block<T>>, k: nat)
    requires Distinct(chain) && k < |chain|
    ensures forall i :: 0 <= i < |chain| && i != k ==> chain[i] != chain[k] && chain[i].slots != chain[k].slots
  {
    forall i | 0 <= i < |chain| && i != k
      ensures chain[i] != chain[k] && chain[i].slots != chain[k].slots
    {
      assert if i < k then Differ(chain, i, k) else Differ(chain, k, i);
    }
  }

  ghost function BlockSet<T>(chain: seq<Block<T>>): set<Block<T>> {
    set b | b in chain
  }

  /** The blocks from `j1` up to `j`, if there are any. */
  ghost function GivenBack<T>(chain: seq<Block<T>>, j1: nat, j: nat): set<Block<T>>
    requires j <= |chain|
  {
    if j1 <= j then BlockSet(chain[j1..j]) else {}
  }

  lemma GiveBackNext<T>(chain: seq<Block<T>>, j1: nat, j: nat)
    requires j < |chain| && Distinct(chain)
    ensures GivenBack(chain, j1, j + 1) == GivenBack(chain, j1, j) + if j1 <= j then {chain[j]} else {}
    ensures chain[j] !in GivenBack(chain, j1, j)
  {
    OnlyOne(chain, j);
    if j1 <= j {
      assert chain[j1..j + 1] == chain[j1..j] + [chain[j]];
    }
  }

  /** A part of a chain of distinct blocks is one. */
  lemma DistinctPart<T>(chain: seq<Block<T>>, i0: nat, j0: nat)
    requires Distinct(chain) && i0 <= j0 <= |chain|
    ensures Distinct(chain[i0..j0])
  {
    forall i, j | 0 <= i < j < j0 - i0
      ensures Differ(chain[i0..j0], i, j)
    {
      assert Differ(chain, i0 + i, i0 + j);
    }
  }

  lemma SplitBlockSet<T>(chain: seq<Block<T>>, k: nat)
    requires k <= |chain| && Distinct(chain)
    ensures BlockSet(chain) == BlockSet(chain[..k]) + BlockSet(chain[k..])
    ensures BlockSet(chain[..k]) !! BlockSet(chain[k..])
  {
    assert chain == chain[..k] + chain[k..];
    forall i, j | 0 <= i < k <= j < |chain|
      ensures chain[i] != chain[j]
    {
      assert Differ(chain, i, j);
    }
  }

  lemma StillOut<T>(chain: seq<Block<T>>, k: nat, live: set<Block<T>>)
    requires k <= |chain| && Distinct(chain) && forall b :: b in chain ==> b in live
    ensures forall j :: 0 <= j < k ==> chain[j] in live - BlockSet(chain[k..])
  {
    SplitBlockSet(chain, k);
    assert forall j :: 0 <= j < k ==> chain[j] in BlockSet(chain[..k]);
  }

  /** A chain of blocks, what its blocks hold, and the blocks that are out of the allocator. */
  datatype Chain<T> = Chain(blocks: seq<Block<T>>, mem: Mem<T>, live: set<Block<T>>)

  /** The heap agrees with `c`. */
  ghost predicate Holds<T>(c: Chain<T>)
    reads c.blocks, Arrays(c.blocks)
  {
    match c
    case Chain(blocks, mem, live) =>
      && Linked(blocks) && Matches(blocks, mem) && Distinct(blocks)
      && (forall b :: b in blocks ==> b in live)
  }

  /** One block of a chain has come to hold `x`. */
  lemma HoldsAt<T>(chain: seq<Block<T>>, mem: Mem<T>, live: set<Block<T>>, k: nat, x: seq<Slot<T>>)
    requires Linked(chain) && Distinct(chain) && (forall b :: b in chain ==> b in live)
    requires k < |chain| == |mem| && chain[k].slots[..] == x
    requires forall i :: 0 <= i < |chain| && i != k ==> chain[i].slots[..] == mem[i]
    ensures Holds(Chain(chain, mem[k := x], live))
  {
  }

  /** A chain gets a new last block if it is full, and else stays as it is.  The first block ever has the
      minimum size, and every other twice the size of the last one, or the maximum. */
  ghost predicate Lengthened<T>(was: seq<Block<T>>, now: seq<Block<T>>, full: bool, lo: nat, hi: nat) {
    if !full then now == was
    else
      && |now| == |was| + 1 && now[..|was|] == was
      && now[|was|].slots.Length == if was == [] then lo else Doubled(was[|was| - 1].slots.Length, hi)
  }

  lemma OneHolds<T>(b: Block<T>, x: seq<Slot<T>>, live: set<Block<T>>)
    requires b.next == null && b.slots[..] == x && b in live
    ensures Holds(Chain([b], [x], live))
  {
  }

  /** What is left of the blocks that are out when all blocks of a chain but the first are given back. */
  lemma FirstIsKept<T>(chain: seq<Block<T>>, live: set<Block<T>>)
    requires Distinct(chain) && chain != [] && chain[0] in live
    ensures chain[0] in live - BlockSet(chain[1..])
    ensures live - BlockSet(chain[1..]) - BlockSet([chain[0]]) == live - BlockSet(chain)
  {
    SplitBlockSet(chain, 1);
    assert chain[..1] == [chain[0]];
  }

  lemma LongerHolds<T>(chain: seq<Block<T>>, mem: Mem<T>, live: set<Block<T>>, b: Block<T>)
    requires Matches(chain, mem) && Distinct(chain) && (forall c :: c in chain ==> c in live)
    requires b in live && b !in chain && b.slots !in Arrays(chain) && b.next == null && b.slots[..] == Raws(b.slots.Length)
    requires forall i {:trigger chain[i].next} :: 0 <= i < |chain| ==> chain[i].next == Follower(chain + [b], i)
    ensures Holds(Chain(chain + [b], mem + [Raws(b.slots.Length)], live))
  {
    forall i, j | 0 <= i < j < |chain| + 1
      ensures Differ(chain + [b], i, j)
    {
      assert chain[i].slots in Arrays(chain);
      assert j < |chain| ==> Differ(chain, i, j);
    }
  }

  lemma PrefixHolds<T>(chain: seq<Block<T>>, mem: Mem<T>, live: set<Block<T>>, k: nat)
    requires k < |chain| == |mem| && Distinct(chain) && chain[k].next == null
    requires forall j :: 0 <= j < k ==> chain[j].next == Follower(chain, j)
    requires forall j :: 0 <= j <= k ==> chain[j].slots[..] == mem[j] && chain[j] in live
    ensures Holds(Chain(chain[..k + 1], mem[..k + 1], live))
  {
    DistinctPart(chain, 0, k + 1);
    assert chain[0..k + 1] == chain[..k + 1];
  }

  lemma RestHolds<T>(c: Chain<T>)
    requires Holds(c) && |c.blocks| > 0
    ensures Holds(Chain(c.blocks[1..], c.mem[1..], c.live - {c.blocks[0]}))
    ensures |c.blocks| > 1 ==> c.blocks[0].next == c.blocks[1]
  {
    var rest := c.blocks[1..];
    DistinctPart(c.blocks, 1, |c.blocks|);
    assert c.blocks[1..|c.blocks|] == rest;
    OnlyOne(c.blocks, 0);
    forall i | 0 <= i < |rest|
      ensures rest[i].next == Follower(rest, i)
    {
      assert rest[i] == c.blocks[i + 1];
    }
  }

  /** The cursors and the size are those of `s`, over the blocks `blocks`. */
  ghost predicate Fit<T>(head: Cursor<T>, tail: Cursor<T>, size: nat, blocks: seq<Block<T>>, s: Store<T>) {
    && |s.mem| == |blocks|
    && size == s.size && head.ptr == s.head && tail.ptr == s.tail
    && (if blocks == [] then head == Nowhere() && tail == Nowhere()
        else
          && head.block == blocks[0] && head.limit == |s.mem[0]|
          && tail.block == blocks[|blocks| - 1] && tail.limit == |LastBlock(s)|)
  }

  /** The first element is gone, and the head cursor is behind its slot. */
  ghost function FrontTaken<T>(s: Store<T>): Store<T>
    requires s.mem != [] && s.head < |s.mem[0]| && s.size > 0
  {
    s.(mem := s.mem[0 := s.mem[0][s.head := Raw]], head := s.head + 1, size := s.size - 1)
  }

  lemma FitFrontTaken<T>(head: Cursor<T>, tail: Cursor<T>, size: nat, blocks: seq<Block<T>>, s: Store<T>)
    requires Fit(head, tail, size, blocks, s) && s.mem != [] && s.head < |s.mem[0]| && s.size > 0
    ensures Fit(head.(ptr := head.ptr + 1), tail, size - 1, blocks, FrontTaken(s))
  {
  }

  lemma FitTrimmed<T>(head: Cursor<T>, tail: Cursor<T>, size: nat, blocks: seq<Block<T>>, s: Store<T>, k: nat, p: nat)
    requires Fit(head, tail, size, blocks, s) && k < |s.mem| && p <= |s.mem[k]| && 0 <= BlockEnd(s, k) - p <= s.size
    ensures Fit(head, tail, size - (BlockEnd(s, k) - p), blocks, Trimmed(s, k, p))
  {
  }

  lemma FitShortened<T>(head: Cursor<T>, tail: Cursor<T>, size: nat, blocks: seq<Block<T>>, s: Store<T>, i: Cursor<T>, k: nat, n: nat)
    requires Fit(head, tail, size, blocks, s) && k < |s.mem| && i.block == blocks[k] && i.limit == |s.mem[k]| && n <= size
    ensures Fit(head, i, size - n, blocks[..k + 1], Shortened(s, k, i.ptr, n))
  {
  }

  /** How far elements of `src` have been appended: those from `i0` up to `i`, behind those of `e`. */
  datatype Appending<T> = Appending(e: seq<T>, src: seq<T>, i0: nat, i: nat)

  /** A walk that empties the blocks from index `j0` on and gives back those from `j1` on: what was out of
      the allocator when it began, and how many elements had been destroyed. */
  datatype Walk<T> = Walk(j0: nat, j1: nat, live: set<Block<T>>, ended: nat)

  class ChunkedQueue<T> {
    const blockMin: nat
    const blockMax: nat
    const alloc: BlockAllocator<T>
    var head: Cursor<T>
    var tail: Cursor<T>
    var size: nat
    ghost var chain: seq<Block<T>>
    ghost var store: Store<T>

    /** The fields are those of `store`. */
    ghost predicate Fields()
      reads this
    {
      store.lo == blockMin && store.hi == blockMax && Fit(head, tail, size, chain, store)
    }

    /** The heap and the fields agree with the chain and the store. */
    ghost predicate Agrees()
      reads this, alloc, chain, Arrays(chain)
    {
      Holds(Chain(chain, store.mem, alloc.live)) && Fields()
    }

    /** The blocks that are out of the allocator and belong to someone else. */
    ghost function Foreign(): set<Block<T>>
      reads this, alloc
    {
      alloc.live - BlockSet(chain)
    }

    /** How many elements there are that were constructed, not destroyed, and belong to someone else. */
    ghost function Others(): int
      reads this, alloc
    {
      alloc.built - alloc.ended - size
    }

    /** Blocks come from the allocator and go back to it, elements are constructed and destroyed, and
        nobody else's are touched. */
    twostate predicate Framed()
      reads this, alloc
    {
      && Foreign() == old(Foreign()) && Others() == old(Others())
      && (forall i :: 0 <= i < |chain| ==> chain[i] in old(chain) || fresh(chain[i]))
      && (forall a :: a in Arrays(chain) && a !in old(Arrays(chain)) ==> fresh(a))
    }

    constructor (blockMin: nat, blockMax: nat, alloc: BlockAllocator<T>)
      requires 0 < blockMin <= blockMax
      ensures Agrees() && store == Store([], 0, 0, 0, blockMin, blockMax)
      ensures this.alloc == alloc && this.blockMin == blockMin && this.blockMax == blockMax
    {
      this.blockMin, this.blockMax, this.alloc := blockMin, blockMax, alloc;
      head, tail, size := Nowhere(), Nowhere(), 0;
      chain, store := [], Store([], 0, 0, 0, blockMin, blockMax);
    }

    // ----- steps on the heap -----

    /** Hangs a fresh block behind the last one. */
    method Link(b: Block<T>)
      requires Agrees() && b in alloc.live && b !in chain && b.slots !in Arrays(chain)
      requires b.next == null && b.slots[..] == Raws(b.slots.Length)
      modifies this`chain, chain
      ensures Holds(Chain(chain, store.mem + [Raws(b.slots.Length)], alloc.live)) && chain == old(chain) + [b]
    {
      if tail.block != null {
        OnlyOne(chain, |chain| - 1);
        tail.block.next := b;
      }
      LongerHolds(chain, store.mem, alloc.live, b);
      chain := chain + [b];
    }

    method GrowChain(n: nat) returns (b: Block<T>)
      requires Agrees()
      modifies this`chain, alloc`live, chain
      ensures Holds(Chain(chain, store.mem + [Raws(n)], alloc.live)) && b.slots.Length == n
      ensures chain == old(chain) + [b] && Framed()
    {
      b := alloc.New(n);
      assert b.slots !in Arrays(chain);
      Link(b);
    }

    /** Starts a new last block; the tail is left at its start. */
    method AddTailBlock()
      requires Agrees() && tail.ptr == tail.limit
      modifies this, alloc, chain
      ensures Agrees() && Framed() && store == WithBlock(old(store))
      ensures Lengthened(old(chain), chain, true, blockMin, blockMax)
    {
      var b := GrowChain(if tail.block == null then blockMin else Doubled(tail.limit, blockMax));
      if head.block == null {
        head := StartOf(b);
      }
      tail := StartOf(b);
      store := WithBlock(store);
    }

    /** Constructs an element at the tail cursor. */
    method PutAtTail(v: T)
      requires Agrees() && store.mem != [] && store.tail < |LastBlock(store)| && LastBlock(store)[store.tail].Raw?
      modifies this`tail, this`size, this`store, Arrays(chain), alloc`built
      ensures Agrees() && store == Put(old(store), v) && Others() == old(Others())
    {
      assert tail.block.slots in Arrays(chain);
      assert tail.block.slots[..] == LastBlock(store);
      OnlyOne(chain, |chain| - 1);
      tail.block.Construct(alloc, tail.ptr, v);
      size := size + 1;
      tail := tail.(ptr := tail.ptr + 1);
      store := Put(store, v);
    }

    method PushHeap(v: T)
      requires Agrees() && Room(store)
      modifies this, alloc, chain, Arrays(chain)
      ensures Agrees() && Framed() && store == Push(old(store), v)
      ensures Lengthened(old(chain), chain, old(tail.ptr == tail.limit), blockMin, blockMax)
    {
      if tail.ptr == tail.limit {
        AddTailBlock();
      }
      PutAtTail(v);
    }

    /** Destroys the element at the head cursor and steps past it. */
    method DestroyFront()
      requires Agrees() && store.mem != [] && store.head < |store.mem[0]| && store.mem[0][store.head].Live? && store.size > 0
      modifies this`head, this`size, this`store, Arrays(chain), alloc`ended
      ensures Agrees() && Others() == old(Others()) && store == FrontTaken(old(store))
    {
      FitFrontTaken(head, tail, size, chain, store);
      assert head.block.slots in Arrays(chain);
      assert head.block.slots[..] == store.mem[0];
      OnlyOne(chain, 0);
      var n := head.block.Destroy(alloc, head.ptr, head.ptr + 1);
      RawAt(store.mem[0], store.head);
      HoldsAt(chain, store.mem, alloc.live, 0, store.mem[0][store.head := Raw]);
      head := head.(ptr := head.ptr + 1);
      size := size - 1;
      store := FrontTaken(store);
    }

    /** Gives the first block back; there must be a second, and no element in the first. */
    method DropHead()
      requires Agrees() && |chain| > 1 && store.mem[0] == Raws(|store.mem[0]|)
      modifies this`head, this`chain, this`store, alloc`live
      ensures Agrees() && Framed() && store == old(store).(mem := old(store).mem[1..], head := 0)
      ensures chain == old(chain)[1..]
    {
      RestHolds(Chain(chain, store.mem, alloc.live));
      var n := head.block.next;
      alloc.Delete(head.block);
      chain := chain[1..];
      head := StartOf(n);
      store := store.(mem := store.mem[1..], head := 0);
    }

    method ResetCursors()
      requires Agrees() && |chain| == 1
      modifies this`head, this`tail, this`store
      ensures Agrees() && store == old(store).(head := 0, tail := 0)
    {
      head, tail := head.(ptr := 0), tail.(ptr := 0);
      store := store.(head := 0, tail := 0);
    }

    method PopHeap()
      requires Agrees() && Poppable(store)
      modifies this, alloc, Arrays(chain)
      ensures Agrees() && Framed() && store == Pop(old(store))
      ensures chain == if old(size) > 1 && old(head.ptr + 1 == head.limit) then old(chain)[1..] else old(chain)
    {
      DestroyFront();
      if size == 0 {
        ResetCursors();
      } else if head.ptr == head.limit {
        DropHead();
      }
    }

    /** Constructs `n` copies of `v` at the tail, all in the last block. */
    method FillTail(n: nat, v: T)
      requires Agrees() && CanFill(store) && store.tail + n <= |LastBlock(store)|
      modifies this`tail, this`size, this`store, Arrays(chain), alloc`built
      ensures Agrees() && store == Filled(old(store), n, v) && Others() == old(Others())
    {
      assert tail.block.slots in Arrays(chain);
      assert tail.block.slots[..] == LastBlock(store);
      OnlyOne(chain, |chain| - 1);
      tail.block.ConstructRun(alloc, tail.ptr, tail.ptr + n, v);
      HoldsAt(chain, store.mem, alloc.live, |chain| - 1, LastBlock(Filled(store, n, v)));
      tail := tail.(ptr := tail.ptr + n);
      size := size + n;
      store := Filled(store, n, v);
    }

    /** Assigns to the element at an iterator; there must be one. */
    method AssignSlot(c: Cursor<T>, v: T, ghost pl: Place)
      requires Agrees() && IsAt(c, pl) && pl.p < |store.mem[pl.k]| && store.mem[pl.k][pl.p].Live?
      modifies this`store, Arrays(chain)
      ensures Agrees() && store == Overwritten(old(store), pl, v)
    {
      assert c.block.slots in Arrays(chain);
      OnlyOne(chain, pl.k);
      c.block.slots[c.ptr] := Live(v);
      store := Overwritten(store, pl, v);
    }

    method MakeRoom()
      requires Agrees()
      modifies this, alloc, chain
      ensures Agrees() && Framed() && store == Roomy(old(store))
    {
      if tail.ptr == tail.limit {
        AddTailBlock();
      }
    }

    method FillWanted(wanted: nat, v: T)
      requires Agrees() && CanFill(store)
      modifies this`tail, this`size, this`store, Arrays(chain), alloc`built
      ensures Agrees() && store == Filled(old(store), Fitting(old(store), wanted), v) && Others() == old(Others())
    {
      FillTail(if wanted < tail.limit - tail.ptr then wanted else tail.limit - tail.ptr, v);
    }

    /** One round of growing: a new block if needed, then as many as fit and are wanted. */
    method GrowHeap(wanted: nat, v: T)
      requires Agrees() && CanFill(Roomy(store))
      modifies this, alloc, chain, Arrays(chain)
      ensures Agrees() && Framed() && store == GrowStep(old(store), wanted, v)
    {
      MakeRoom();
      FillWanted(wanted, v);
    }

    // ----- giving blocks back -----

    function BeginOf(b: Block<T>): nat
      reads this
    {
      if b == head.block then head.ptr else 0
    }

    function EndOf(b: Block<T>): nat
      reads this, b
    {
      if b.next == null then tail.ptr else b.slots.Length
    }

    /** Blocks `j0` up to `j` are raw, the others hold what `store` says. */
    ghost predicate HalfEmpty(j0: nat, j: nat)
      reads this, Arrays(chain)
    {
      && |store.mem| == |chain|
      && forall i {:trigger chain[i].slots} :: 0 <= i < |chain| ==>
        chain[i].slots[..] == if j0 <= i < j then Raws(|store.mem[i]|) else store.mem[i]
    }

    /** What a walk does not change. */
    ghost predicate Walkable(j0: nat, live: set<Block<T>>)
      reads this, chain
    {
      && Linked(chain) && Distinct(chain) && Fields() && BlockSet(chain) <= live
      && forall i :: j0 <= i < |chain| ==> BlockLive(store, i)
    }

    /** The walk `w` has come to block `j`, and `n` elements have been destroyed. */
    ghost predicate Walked(w: Walk<T>, j: nat, n: nat)
      reads this, alloc, chain, Arrays(chain)
    {
      && Walkable(w.j0, w.live) && w.j0 <= j <= |chain| && HalfEmpty(w.j0, j)
      && alloc.live == w.live - GivenBack(chain, w.j1, j) && alloc.ended == w.ended + n
      && n == CountFrom(store, w.j0) - CountFrom(store, j)
    }

    lemma WalkStarts(j0: nat, j1: nat)
      requires Agrees() && j0 <= j1 && j0 <= |chain| && forall i :: j0 <= i < |chain| ==> BlockLive(store, i)
      ensures Walked(Walk(j0, j1, alloc.live, alloc.ended), j0, 0)
    {
      assert chain[j0..j0] == [];
    }

    lemma WalkEnds(w: Walk<T>, n: nat)
      requires Walked(w, |chain|, n) && w.j1 <= |chain|
      ensures alloc.live == w.live - BlockSet(chain[w.j1..]) && alloc.ended == w.ended + n && n == CountFrom(store, w.j0)
      ensures HalfEmpty(w.j0, |chain|)
    {
      assert chain[w.j1..|chain|] == chain[w.j1..];
    }

    /** Destroys the elements of block `j`. */
    method DestroyAll(b: Block<T>, ghost j0: nat, ghost live: set<Block<T>>, ghost j: nat) returns (n: nat)
      requires Walkable(j0, live) && j0 <= j < |chain| && HalfEmpty(j0, j) && b == chain[j]
      modifies b.slots, alloc`ended
      ensures HalfEmpty(j0, j + 1) && b.slots[..] == Raws(b.slots.Length)
      ensures n == BlockEnd(store, j) - BlockBegin(store, j) && alloc.ended == old(alloc.ended) + n
    {
      assert b.slots[..] == store.mem[j];
      OnlyOne(chain, j);
      assert BlockLive(store, j) && BeginOf(b) == BlockBegin(store, j) && EndOf(b) == BlockEnd(store, j);
      EmptiedBlock(store, j);
      n := b.Destroy(alloc, BeginOf(b), EndOf(b));
    }

    lemma StillHeld(w: Walk<T>, j: nat, n: nat)
      requires Walked(w, j, n) && j < |chain|
      ensures chain[j] in alloc.live && chain[j].slots in Arrays(chain)
      ensures chain[j].next == BlockAt(chain, j + 1)
    {
      GiveBackNext(chain, w.j1, j);
      assert chain[j] in BlockSet(chain);
    }

    lemma WalkedOn(w: Walk<T>, j: nat, n: nat)
      requires Walkable(w.j0, w.live) && w.j0 <= j < |chain| && HalfEmpty(w.j0, j + 1)
      requires alloc.live == w.live - GivenBack(chain, w.j1, j) - if w.j1 <= j then {chain[j]} else {}
      requires alloc.ended == w.ended + n
      requires n == CountFrom(store, w.j0) - CountFrom(store, j) + BlockEnd(store, j) - BlockBegin(store, j)
      ensures Walked(w, j + 1, n)
    {
      GiveBackNext(chain, w.j1, j);
    }

    /** Destroys the elements of block `j`, and gives the block back if the walk says so. */
    method WalkOn(b: Block<T>, give: bool, n: nat, ghost w: Walk<T>, ghost j: nat)
        returns (next: Block?<T>, n': nat, ghost j': nat)
      requires Walked(w, j, n) && j < |chain| && b == chain[j] && give == (w.j1 <= j)
      modifies Arrays(chain), alloc`live, alloc`ended
      ensures j' == j + 1 && next == BlockAt(chain, j') && Walked(w, j', n')
    {
      StillHeld(w, j, n);
      next, j' := b.next, j + 1;
      var k := DestroyAll(b, w.j0, w.live, j);
      if give {
        alloc.Delete(b);
      }
      n' := n + k;
      WalkedOn(w, j, n');
    }

    /** Empties the blocks from `first` to the end of the chain and gives them back. */
    method DeleteBlocks(first: Block?<T>, ghost j0: nat) returns (n: nat)
      requires Agrees() && j0 <= |chain| && first == BlockAt(chain, j0)
      requires forall j :: j0 <= j < |chain| ==> BlockLive(store, j)
      modifies alloc`live, alloc`ended, Arrays(chain)
      ensures alloc.live == old(alloc.live) - BlockSet(chain[j0..]) && alloc.ended == old(alloc.ended) + n
      ensures forall j :: 0 <= j < j0 ==> chain[j].slots[..] == store.mem[j]
      ensures n == CountFrom(store, j0)
    {
      var b := first;
      ghost var w, j := Walk(j0, j0, alloc.live, alloc.ended), j0;
      n := 0;
      WalkStarts(j0, j0);
      while b != null
        invariant Walked(w, j, n) == true
        invariant j0 <= j <= |chain| && b == BlockAt(chain, j)
        decreases |chain| - j
      {
        b, n, j := WalkOn(b, true, n, w, j);
      }
      WalkEnds(w, n);
    }

    /** Destroys the elements of block `k` from `begin` on. */
    method DestroyFrom(b: Block<T>, begin: nat, ghost k: nat) returns (n: nat)
      requires Agrees() && k < |chain| && b == chain[k] && BlockLive(store, k)
      requires BlockBegin(store, k) <= begin <= BlockEnd(store, k) <= begin + store.size
      modifies Arrays(chain), alloc`ended
      ensures Holds(Chain(chain, Trimmed(store, k, begin).mem, alloc.live))
      ensures n == BlockEnd(store, k) - begin && alloc.ended == old(alloc.ended) + n
    {
      assert b.slots in Arrays(chain);
      assert b.slots[..] == store.mem[k];
      OnlyOne(chain, k);
      assert EndOf(b) == BlockEnd(store, k);
      TrimmedBlock(store, k, begin);
      n := b.Destroy(alloc, begin, EndOf(b));
      HoldsAt(chain, store.mem, alloc.live, k, store.mem[k][..begin] + Raws(|store.mem[k]| - begin));
    }

    /** Destroys the elements of the block of `i` from `i` on. */
    method TrimBlock(i: Cursor<T>, ghost k: nat)
      requires Agrees() && k < |chain| && i.block == chain[k] && BlockLive(store, k)
      requires BlockBegin(store, k) <= i.ptr <= BlockEnd(store, k) <= i.ptr + store.size
      modifies this`size, this`store, Arrays(chain), alloc`ended
      ensures Agrees() && store == Trimmed(old(store), k, i.ptr) && Others() == old(Others())
    {
      FitTrimmed(head, tail, size, chain, store, k, i.ptr);
      var n := DestroyFrom(i.block, i.ptr, k);
      size := size - n;
      store := Trimmed(store, k, i.ptr);
    }

    /** Makes the block of `i` the last one, the others having been given back with `n` elements. */
    method CutChain(i: Cursor<T>, n: nat, ghost k: nat)
      requires Fields() && k < |chain| && i.block == chain[k] && i.limit == |store.mem[k]| && n <= size
      requires Linked(chain) && Distinct(chain)
      requires forall j :: 0 <= j <= k ==> chain[j].slots[..] == store.mem[j] && chain[j] in alloc.live
      modifies this`chain, this`tail, this`store, this`size, i.block`next
      ensures Agrees() && chain == old(chain)[..k + 1] && store == Shortened(old(store), k, i.ptr, n)
      ensures size == old(size) - n
    {
      OnlyOne(chain, k);
      FitShortened(head, tail, size, chain, store, i, k, n);
      i.block.next := null;
      PrefixHolds(chain, store.mem, alloc.live, k);
      size := size - n;
      tail := i;
      chain := chain[..k + 1];
      store := Shortened(store, k, i.ptr, n);
    }

    /** Gives back the blocks behind the block of `i`, and makes that one the last. */
    method CutAfter(i: Cursor<T>, ghost k: nat)
      requires Agrees() && k < |chain| && i.block == chain[k] && i.limit == |store.mem[k]|
      requires forall j :: k < j < |chain| ==> BlockLive(store, j)
      requires 0 <= CountFrom(store, k + 1) <= store.size
      modifies this`chain, this`tail, this`store, this`size, alloc`live, alloc`ended, i.block`next, Arrays(chain)
      ensures Agrees() && store == Shortened(old(store), k, i.ptr, CountFrom(old(store), k + 1)) && Others() == old(Others())
      ensures chain == old(chain)[..k + 1] && alloc.live == old(alloc.live) - BlockSet(old(chain)[k + 1..])
    {
      StillOut(chain, k + 1, alloc.live);
      var n := DeleteBlocks(i.block.next, k + 1);
      CutChain(i, n, k);
    }

    method EraseHeap(i: Cursor<T>, ghost k: nat)
      requires Agrees() && CutPlace(store, k, i.ptr) && i.block == chain[k] && i.ptr <= i.limit == |store.mem[k]|
      requires forall j :: 0 <= j < |chain| ==> BlockLive(store, j)
      requires 0 <= CountFrom(store, k + 1) && CutCount(store, k, i.ptr) <= store.size
      modifies this, alloc, chain, Arrays(chain)
      ensures Agrees() && store == Cut(old(store), k, i.ptr) && Others() == old(Others())
      ensures chain == old(chain)[..k + 1] && alloc.live == old(alloc.live) - BlockSet(old(chain)[k + 1..])
    {
      CutInTwoSteps(store, k, i.ptr);
      TrimmedRest(store, k, i.ptr);
      TrimBlock(i, k);
      CutAfter(i, k);
    }

    // ----- iterators -----

    /** `c` is an iterator at `pl`. */
    ghost predicate IsAt(c: Cursor<T>, pl: Place)
      reads this
    {
      pl.k < |chain| == |store.mem| && c.block == chain[pl.k] && c.ptr == pl.p && c.limit == |store.mem[pl.k]|
    }

    method Incr(c: Cursor<T>, ghost pl: Place) returns (c': Cursor<T>)
      requires Agrees() && IsAt(c, pl) && pl.p < |store.mem[pl.k]|
      ensures IsAt(c', IncrPlace(store.mem, pl))
    {
      c' := c.(ptr := c.ptr + 1);
      if c'.ptr == c'.limit && c.block.next != null {
        c' := StartOf(c.block.next);
      }
    }

    method IncrBy(c: Cursor<T>, n: nat, ghost pl: Place) returns (c': Cursor<T>)
      requires Agrees() && IsAt(c, pl) && Reaches(store.mem, pl, n)
      ensures IsAt(c', IncrByPlace(store.mem, pl, n))
    {
      c' := c;
      var m: nat := n;
      ghost var at := pl;
      while m > c'.limit - c'.ptr
        invariant IsAt(c', at) && Reaches(store.mem, at, m)
        invariant IncrByPlace(store.mem, at, m) == IncrByPlace(store.mem, pl, n)
        decreases |chain| - at.k
      {
        ReachesOn(store.mem, at, m);
        m := m - (c'.limit - c'.ptr);
        c' := StartOf(c'.block.next);
        at := Place(at.k + 1, 0);
      }
      c' := c'.(ptr := c'.ptr + m);
    }

    // ----- the queue -----

    ghost predicate Valid()
      reads this, alloc, chain, Arrays(chain)
    {
      match store
      case Store(mem, _, tail, _, _, _) => Agrees() && Sound(store) && TailRule(mem, tail)
    }

    method EmplaceBack(v: T)
      requires Valid()
      modifies this, alloc, chain, Arrays(chain)
      ensures Valid() && Framed() && Elements(store) == old(Elements(store)) + [v]
      ensures Lengthened(old(chain), chain, old(tail.ptr == tail.limit), blockMin, blockMax)
    {
      PushSound(store, v);
      PushHeap(v);
    }

    method PopFront()
      requires Valid() && size > 0
      modifies this, alloc, chain, Arrays(chain)
      ensures Valid() && Framed() && Elements(store) == old(Elements(store))[1..]
      ensures chain == if old(size) > 1 && old(head.ptr + 1 == head.limit) then old(chain)[1..] else old(chain)
      ensures size == 0 ==> |chain| == 1 && head == tail == StartOf(chain[0])
    {
      PopSound(store);
      PopHeap();
    }

    method Front() returns (v: T)
      requires Valid() && size > 0
      ensures v == Elements(store)[0]
    {
      HeadIsLive(store);
      assert head.block.slots[..] == store.mem[0];
      v := head.block.slots[head.ptr].value;
    }

    method Back() returns (v: T)
      requires Valid() && size > 0
      ensures v == Elements(store)[size - 1]
    {
      LastIsLive(store);
      assert tail.block.slots[..] == LastBlock(store);
      v := tail.block.slots[tail.ptr - 1].value;
    }

    /** Erases from the iterator `i` to the end; the tail rule is the caller's business. */
    method EraseAllFrom(i: Cursor<T>, ghost pl: Place)
      requires Agrees() && Sound(store)
      requires chain == [] ==> i.block == null
      requires chain != [] ==> IsAt(i, pl) && CutPlace(store, pl.k, pl.p)
      modifies this, alloc, chain, Arrays(chain)
      ensures Agrees() && Sound(store) && Framed()
      ensures store.size <= old(store.size) && Elements(store) == old(Elements(store))[..store.size]
      ensures old(chain) == [] ==> store == old(store)
      ensures old(chain) != [] ==> ErasedAt(old(store), store, pl) && chain == old(chain)[..pl.k + 1]
    {
      if i.block == null {
        return;
      }
      CutSound(store, pl.k, pl.p);
      AllBlocksLive(store);
      SomeAreLeft(store, pl.k);
      SplitBlockSet(chain, pl.k + 1);
      EraseHeap(i, pl.k);
    }

    /** Destroys every element and gives back every block but the first. */
    method EmptyBlocks(first: Block<T>)
      requires Agrees() && Sound(store) && chain != [] && first == chain[0]
      modifies alloc`live, alloc`ended, Arrays(chain)
      ensures alloc.live == old(alloc.live) - BlockSet(chain[1..]) && alloc.ended == old(alloc.ended) + size
      ensures first.slots[..] == Raws(|store.mem[0]|)
    {
      var b: Block?<T>, n := first, 0;
      CountAll(store);
      ghost var w, j := Walk(0, 1, alloc.live, alloc.ended), 0;
      OnlyOne(chain, 0);
      WalkStarts(0, 1);
      while b != null
        invariant Walked(w, j, n) == true
        invariant 0 <= j <= |chain| && b == BlockAt(chain, j)
        decreases |chain| - j
      {
        b, n, j := WalkOn(b, first != b, n, w, j);
      }
      WalkEnds(w, n);
    }

    /** Makes the first block, which is raw, the only one. */
    method KeepFirst(b: Block<T>)
      requires Fields() && Sound(store) && chain != [] && b == chain[0] && b in alloc.live && b.slots[..] == Raws(|store.mem[0]|)
      modifies this, b`next
      ensures Valid() && size == 0 && chain == [b] && head == tail == StartOf(b)
    {
      EmptiedSound(store);
      b.next := null;
      OneHolds(b, Raws(|store.mem[0]|), alloc.live);
      head, tail, size := StartOf(b), StartOf(b), 0;
      chain, store := [b], Emptied(store);
    }

    /** Destroys every element and keeps one empty block, if there is any. */
    method Clear()
      requires Valid()
      modifies this, alloc, chain, Arrays(chain)
      ensures Valid() && Framed() && Elements(store) == []
      ensures if old(chain) == [] then chain == [] else chain == [old(chain)[0]] && head == tail == StartOf(chain[0])
    {
      if head.block == null {
        return;
      }
      FirstIsKept(chain, alloc.live);
      EmptyBlocks(head.block);
      KeepFirst(head.block);
    }

    /** Forgets every block. */
    method Reset()
      requires 0 < blockMin <= blockMax
      modifies this
      ensures Valid() && Elements(store) == [] && chain == [] && size == 0
    {
      head, tail, size := Nowhere(), Nowhere(), 0;
      chain, store := [], Store([], 0, 0, 0, blockMin, blockMax);
    }

    /** Destroys every element and gives every block back. */
    method DestroyAndDeallocateAll()
      requires Valid()
      modifies this, alloc, Arrays(chain)
      ensures Valid() && Elements(store) == [] && chain == []
      ensures alloc.live == old(alloc.live) - BlockSet(old(chain)) && Others() == old(Others())
    {
      CountAll(store);
      assert chain[0..] == chain;
      var n := DeleteBlocks(head.block, 0);
      Reset();
    }

    method GrowBy(wanted: nat, v: T)
      requires Valid() && wanted > 0
      modifies this, alloc, chain, Arrays(chain)
      ensures Valid() && Framed() && 0 < size - old(size) <= wanted
      ensures Elements(store) == old(Elements(store)) + Copies(size - old(size), v)
    {
      GrowStepSound(store, wanted, v);
      GrowHeap(wanted, v);
    }

    method GrowRound(newSize: nat, v: T, ghost e: seq<T>)
      requires Valid() && |e| <= size < newSize && Elements(store) == e + Copies(size - |e|, v)
      modifies this, alloc, chain, Arrays(chain)
      ensures Valid() && Framed() && old(size) < size <= newSize && Elements(store) == e + Copies(size - |e|, v)
    {
      ghost var n := size;
      GrowBy(newSize - size, v);
      RunsJoin(e, n - |e|, size - n, v);
    }

    method GrowTo(newSize: nat, v: T)
      requires Valid() && newSize >= size
      modifies this, alloc, chain, Arrays(chain)
      ensures Valid() && Framed() && size == newSize
      ensures Elements(store) == old(Elements(store)) + Copies(newSize - old(size), v)
    {
      ghost var e := Elements(store);
      while newSize > size
        invariant Valid() == true
        invariant Framed() && |e| <= size <= newSize
        invariant Elements(store) == e + Copies(size - |e|, v)
        decreases newSize - size
      {
        GrowRound(newSize, v, e);
      }
    }

    method ShrinkTo(newSize: nat)
      requires Valid() && newSize < size
      modifies this, alloc, chain, Arrays(chain)
      ensures Valid() && Framed() && Elements(store) == old(Elements(store))[..newSize]
    {
      ghost var from := Place(0, store.head);
      ShrinkPlace(store, newSize);
      var newEnd := IncrBy(head, newSize, from);
      EraseAllFrom(newEnd, IncrByPlace(store.mem, from, newSize));
    }

    method Resize(newSize: nat, v: T)
      requires Valid()
      modifies this, alloc, chain, Arrays(chain)
      ensures Valid() && Framed() && size == newSize
      ensures Elements(store) == Resized(old(Elements(store)), newSize, v)
      ensures forall i :: 0 <= i < newSize ==>
        Elements(store)[i] == if i < old(size) then old(Elements(store))[i] else v
    {
      if newSize >= size {
        GrowTo(newSize, v);
      } else {
        ShrinkTo(newSize);
      }
    }

    // ----- assign -----

    /** One round of overwriting: element `i`, which is at `out`, and on to the next. */
    method OverwriteNext(out: Cursor<T>, v: T, ghost pl: Place, i: nat)
        returns (out': Cursor<T>, ghost pl': Place, i': nat)
      requires Valid() && IsAt(out, pl) && OutAt(store, pl, i) && i < size && pl.p < |store.mem[pl.k]|
      modifies this`store, Arrays(chain)
      ensures Valid() && Elements(store) == old(Elements(store))[i := v]
      ensures pl' == IncrPlace(old(store.mem), pl) && i' == i + 1 && IsAt(out', pl') && OutAt(store, pl', i')
    {
      OverwrittenSound(store, pl, i, v);
      OutNext(store, pl, i, v);
      pl', i' := IncrPlace(store.mem, pl), i + 1;
      AssignSlot(out, v, pl);
      out' := Incr(out, pl);
    }

    /** The loop of `assign` after `i` rounds: the first `i` of the elements `e` are overwritten, and `out` is
        at the next. */
    ghost predicate Rounds(out: Cursor<T>, pl: Place, i: nat, src: seq<T>, e: seq<T>)
      reads this, alloc, chain, Arrays(chain)
    {
      && Valid() && chain != [] && IsAt(out, pl) && OutAt(store, pl, i)
      && i <= |src| && |e| == size && Elements(store) == Mixed(src, e, i)
    }

    /** And `prev` is the block whose last slot was overwritten last: when `out` is at the start of a
        block that is not the first, that is the block just before. */
    ghost predicate Overwriting(out: Cursor<T>, prev: Option<Block<T>>, pl: Place, i: nat, src: seq<T>, e: seq<T>)
      reads this, alloc, chain, Arrays(chain)
    {
      match prev
      case None => Rounds(out, pl, i, src, e) && !(pl.k > 0 && pl.p == 0)
      case Some(b) => Rounds(out, pl, i, src, e) && i > 0 && (pl.k > 0 && pl.p == 0 ==> b == chain[pl.k - 1])
    }

    lemma StartsOverwriting(src: seq<T>)
      requires Valid() && chain != []
      ensures Overwriting(head, None, Place(0, store.head), 0, src, Elements(store))
    {
      StartAtHead(store);
      assert Mixed(src, Elements(store), 0) == Elements(store);
    }

    /** The comparison with `end()` tells whether there are elements left. */
    lemma ElementsLeft(out: Cursor<T>, prev: Option<Block<T>>, pl: Place, i: nat, src: seq<T>, e: seq<T>)
      requires Overwriting(out, prev, pl, i, src, e)
      ensures (out.block != tail.block || out.ptr != tail.ptr) <==> i < size
      ensures i <= |src|
    {
      OutIsEnd(store, pl, i);
      OnlyOne(chain, |chain| - 1);
    }

    method OverwriteRound(out: Cursor<T>, prev: Option<Block<T>>, ghost pl: Place, i: nat, src: seq<T>, ghost e: seq<T>)
        returns (out': Cursor<T>, prev': Option<Block<T>>, ghost pl': Place, i': nat)
      requires Overwriting(out, prev, pl, i, src, e) && i < size && i < |src|
      modifies this`store, Arrays(chain)
      ensures i' == i + 1 && Overwriting(out', prev', pl', i', src, e)
    {
      OutBeforeEnd(store, pl, i);
      prev' := if out.ptr + 1 == out.block.slots.Length then Some(out.block) else prev;
      assert out.block.slots[..] == store.mem[pl.k];
      out', pl', i' := OverwriteNext(out, src[i], pl, i);
      OneMoreFromSource(src, e, i, i');
    }

    /** Overwrites elements until either the elements or the source run out. */
    method Overwrite(src: seq<T>) returns (out: Cursor<T>, prev: Option<Block<T>>, i: nat, ghost pl: Place)
      requires Valid() && chain != []
      modifies this`store, Arrays(chain)
      ensures Overwriting(out, prev, pl, i, src, old(Elements(store))) && (i == |src| || i == size)
    {
      ghost var e := Elements(store);
      out, prev, i, pl := head, None, 0, Place(0, store.head);
      StartsOverwriting(src);
      while (out.block != tail.block || out.ptr != tail.ptr) && i < |src|
        invariant Overwriting(out, prev, pl, i, src, e) == true
        decreases |src| - i
      {
        ElementsLeft(out, prev, pl, i, src, e);
        out, prev, pl, i := OverwriteRound(out, prev, pl, i, src, e);
      }
      ElementsLeft(out, prev, pl, i, src, e);
    }

    method EraseAtPrev(prev: Block<T>, ghost pl: Place, ghost i: nat)
      requires Valid() && OutAt(store, pl, i) && pl.p == 0 && i > 0 && 0 < pl.k < |chain| && prev == chain[pl.k - 1]
      modifies this, alloc, chain, Arrays(chain)
      ensures Valid() && Framed() && Elements(store) == old(Elements(store))[..i]
    {
      FarSide(store, pl, i);
      assert prev.slots[..] == store.mem[pl.k - 1];
      EraseAllFrom(StartOf(prev).(ptr := prev.slots.Length), Place(pl.k - 1, |store.mem[pl.k - 1]|));
    }

    method EraseAtOut(out: Cursor<T>, ghost pl: Place, ghost i: nat)
      requires Valid() && chain != [] && IsAt(out, pl) && OutAt(store, pl, i) && !(pl.k > 0 && pl.p == 0)
      modifies this, alloc, chain, Arrays(chain)
      ensures Valid() && Framed() && Elements(store) == old(Elements(store))[..i]
    {
      OutIsCutPlace(store, pl, i);
      EraseAllFrom(out, pl);
    }

    /** Erases what is left behind `out`.  When `out` is at the start of a block that is not the first,
        the tail goes to the end of the block before. */
    method EraseRest(out: Cursor<T>, prev: Option<Block<T>>, ghost pl: Place, ghost i: nat, ghost src: seq<T>, ghost e: seq<T>)
      requires Overwriting(out, prev, pl, i, src, e)
      modifies this, alloc, chain, Arrays(chain)
      ensures Valid() && Framed() && i <= |src| && Elements(store) == src[..i]
    {
      FirstOfMixed(src, e, i);
      if size != 0 && out.block != null && out.ptr == 0 && prev.Some? {
        FarSide(store, pl, i);
        EraseAtPrev(prev.value, pl, i);
      } else {
        EraseAtOut(out, pl, i);
      }
    }

    /** The elements of `src` from `i0` up to `i` have been appended to those of `e`. */
    ghost predicate Appended(a: Appending<T>)
      reads this, alloc, chain, Arrays(chain)
    {
      match a
      case Appending(e, src, i0, i) => Valid() && i0 <= i <= |src| && Elements(store) == e + src[i0..i]
    }

    method PushNext(src: seq<T>, i: nat, ghost e: seq<T>, ghost i0: nat) returns (i': nat)
      requires i < |src| && Appended(Appending(e, src, i0, i))
      modifies this, alloc, chain, Arrays(chain)
      ensures i' == i + 1 && Framed() && Appended(Appending(e, src, i0, i'))
    {
      SnocSlice(e, src, i0, i);
      EmplaceBack(src[i]);
      i' := i + 1;
    }

    method PushFrom(src: seq<T>, i0: nat, ghost e: seq<T>)
      requires Appended(Appending(e, src, i0, i0))
      modifies this, alloc, chain, Arrays(chain)
      ensures Framed() && Appended(Appending(e, src, i0, |src|))
    {
      var i := i0;
      while i != |src|
        invariant i0 <= i <= |src| && Framed()
        invariant Appended(Appending(e, src, i0, i)) == true
      {
        i := PushNext(src, i, e, i0);
      }
    }

    /** Appends the elements of `src` from index `i0` on. */
    method PushAll(src: seq<T>, i0: nat)
      requires Valid() && i0 <= |src|
      modifies this, alloc, chain, Arrays(chain)
      ensures Valid() && Framed() && Elements(store) == old(Elements(store)) + src[i0..]
    {
      SliceEnds(Elements(store), src, i0);
      PushFrom(src, i0, Elements(store));
    }

    method OverwriteAndErase(src: seq<T>) returns (i: nat)
      requires Valid() && chain != []
      modifies this, alloc, chain, Arrays(chain)
      ensures Valid() && Framed() && i <= |src| && Elements(store) == src[..i]
    {
      var out: Cursor<T>, prev: Option<Block<T>>;
      ghost var pl: Place;
      ghost var e := Elements(store);
      out, prev, i, pl := Overwrite(src);
      EraseRest(out, prev, pl, i, src, e);
    }

    /** The part of `assign` that reuses the elements there are: a prefix of the source is left. */
    method AssignPrefix(src: seq<T>) returns (i: nat)
      requires Valid()
      modifies this, alloc, chain, Arrays(chain)
      ensures Valid() && Framed() && i <= |src| && Elements(store) == src[..i]
    {
      if head.block == null {
        NoBlocks(store);
        return 0;
      }
      i := OverwriteAndErase(src);
    }

    /** Replaces the contents by those of a range. */
    method Assign(src: seq<T>)
      requires Valid()
      modifies this, alloc, chain, Arrays(chain)
      ensures Valid() && Framed() && Elements(store) == src
    {
      var i := AssignPrefix(src);
      PushAll(src, i);
      TakeDrop(src, i);
    }

    /** Replaces the contents by copies of one value. */
    method AssignFill(count: nat, v: T)
      requires Valid()
      modifies this, alloc, chain, Arrays(chain)
      ensures Valid() && Framed() && Elements(store) == Copies(count, v)
    {
      Clear();
      PushAll(Copies(count, v), 0);
      assert Copies(count, v)[0..] == Copies(count, v);
    }

    // ----- initialization from a range -----

    method PutOne(v: T)
      requires Agrees() && Sound(store) && tail.ptr < tail.limit
      modifies this`tail, this`size, this`store, Arrays(chain), alloc`built
      ensures Valid() && Elements(store) == old(Elements(store)) + [v] && Others() == old(Others())
    {
      PutSound(store, v);
      PutAtTail(v);
    }

    method PutNext(src: seq<T>, i: nat)
      requires Valid() && i < |src| && Elements(store) == src[..i] && tail.ptr < tail.limit
      modifies this`tail, this`size, this`store, Arrays(chain), alloc`built
      ensures Valid() && Elements(store) == src[..i + 1] && Others() == old(Others())
    {
      TakeSnoc(src, i);
      PutOne(src[i]);
    }

    /** Fills the rest of the last block from `src`, starting at index `i0`. */
    method FillFrom(src: seq<T>, i0: nat) returns (i: nat)
      requires Valid() && i0 <= |src| && Elements(store) == src[..i0]
      modifies this`tail, this`size, this`store, Arrays(chain), alloc`built
      ensures Valid() && i0 <= i <= |src| && (i == |src| || tail.ptr == tail.limit)
      ensures Elements(store) == src[..i] && Others() == old(Others())
    {
      i := i0;
      while i != |src| && tail.ptr != tail.limit
        invariant Valid() == true
        invariant i0 <= i <= |src| && Elements(store) == src[..i] && Others() == old(Others())
      {
        PutNext(src, i);
        i := i + 1;
      }
    }

    /** Fills a queue without blocks from a range, block by block. */
    method RangeInit(src: seq<T>)
      requires Valid() && chain == []
      modifies this, alloc
      ensures Valid() && Framed() && Elements(store) == src
    {
      var i := 0;
      assert Elements(store) == [] == src[..0];
      while i != |src|
        invariant i <= |src| && Valid() && Framed() && Elements(store) == src[..i]
        invariant i == |src| || tail.ptr == tail.limit
      {
        i := NextBlock(src, i);
      }
      assert src[..i] == src;
    }

    /** A new block, with one element at least, and then as many as fit. */
    method NextBlock(src: seq<T>, i: nat) returns (i': nat)
      requires Valid() && i < |src| && Elements(store) == src[..i] && tail.ptr == tail.limit
      modifies this, alloc, chain, Arrays(chain)
      ensures Valid() && Framed() && i < i' <= |src| && Elements(store) == src[..i']
      ensures i' == |src| || tail.ptr == tail.limit
    {
      assert src[..i] + [src[i]] == src[..i + 1];
      EmplaceBack(src[i]);
      i' := FillFrom(src, i + 1);
    }

    // ----- whole queues -----

    /** Nothing on the heap belongs to both queues. */
    ghost predicate Apart(other: ChunkedQueue<T>)
      reads this, other
    {
      && this != other && alloc == other.alloc && blockMin == other.blockMin && blockMax == other.blockMax
      && BlockSet(chain) !! BlockSet(other.chain) && Arrays(chain) !! Arrays(other.chain)
    }

    /** Takes over cursors, a size and the chain that they are for. */
    method TakeOver(head: Cursor<T>, tail: Cursor<T>, size: nat, ghost blocks: seq<Block<T>>, ghost s: Store<T>)
      requires Holds(Chain(blocks, s.mem, alloc.live)) && Fit(head, tail, size, blocks, s)
      requires s.lo == blockMin && s.hi == blockMax
      modifies this
      ensures Agrees() && chain == blocks && store == s
    {
      this.head, this.tail, this.size := head, tail, size;
      chain, store := blocks, s;
    }

    method SwapFields(other: ChunkedQueue<T>)
      requires Agrees() && other.Agrees() && Apart(other)
      modifies this, other
      ensures Agrees() && other.Agrees()
      ensures store == old(other.store) && other.store == old(store)
      ensures chain == old(other.chain) && other.chain == old(chain)
    {
      var h, t, n := head, tail, size;
      ghost var c, s := chain, store;
      TakeOver(other.head, other.tail, other.size, other.chain, other.store);
      other.TakeOver(h, t, n, c, s);
    }

    method Swap(other: ChunkedQueue<T>)
      requires Valid() && other.Valid() && Apart(other)
      modifies this, other
      ensures Valid() && other.Valid() && Apart(other)
      ensures store == old(other.store) && other.store == old(store)
      ensures chain == old(other.chain) && other.chain == old(chain)
    {
      SwapFields(other);
    }

    /** Gives the last block back if there is no element. */
    method ShrinkToFit()
      requires Valid()
      modifies this, alloc, Arrays(chain)
      ensures Valid() && Elements(store) == old(Elements(store))
      ensures Others() == old(Others())
      ensures if old(size) == 0 then chain == [] && alloc.live == old(Foreign())
              else chain == old(chain) && alloc.live == old(alloc.live)
    {
      if size == 0 {
        var temporary := new ChunkedQueue(blockMin, blockMax, alloc);
        temporary.Swap(this);
        temporary.DestroyAndDeallocateAll();
      }
    }

    /** Takes over the blocks of `other`, which is left without any. */
    method MoveAssign(other: ChunkedQueue<T>)
      requires Valid() && other.Valid() && (this == other || Apart(other))
      modifies this, other, alloc, Arrays(chain)
      ensures Valid() && other.Valid() && Elements(store) == old(Elements(other.store))
      ensures this != other ==> Elements(other.store) == [] && other.chain == [] && chain == old(other.chain)
      ensures this != other ==> alloc.live == old(alloc.live) - BlockSet(old(chain)) && Others() - other.size == old(Others() - other.size)
    {
      if this == other {
        return;
      }
      DestroyAndDeallocateAll();
      Swap(other);
    }
  }

  /** `pl` is where an iterator is after `i` steps from the head: at element `i`, and not on the
      near side of a boundary. */
  ghost predicate OutAt<T>(s: Store<T>, pl: Place, i: nat) {
    && i <= s.size && InRange(s.mem, pl) && At(s.mem, pl) == s.head + i
    && (pl.p == |s.mem[pl.k]| ==> pl.k + 1 == |s.mem|)
  }

  lemma RawAt<T>(s: seq<Slot<T>>, p: nat)
    requires p < |s|
    ensures s[..p] + Raws(1) + s[p + 1..] == s[p := Raw]
  {
  }

  lemma TakeSnoc<T>(src: seq<T>, i: nat)
    requires i < |src|
    ensures src[..i] + [src[i]] == src[..i + 1]
  {
  }

  lemma TakeDrop<T>(src: seq<T>, i: nat)
    requires i <= |src|
    ensures src[..i] + src[i..] == src
  {
  }

  lemma SliceEnds<T>(e: seq<T>, src: seq<T>, i: nat)
    requires i <= |src|
    ensures e + src[i..i] == e && e + src[i..|src|] == e + src[i..]
  {
  }

  lemma SnocSlice<T>(e: seq<T>, src: seq<T>, i0: nat, i: nat)
    requires i0 <= i < |src|
    ensures e + src[i0..i] + [src[i]] == e + src[i0..i + 1]
  {
  }

  /** The first `i` elements are those of `src`, the others those of `e`. */
  function Mixed<T>(src: seq<T>, e: seq<T>, i: nat): seq<T>
    requires i <= |src| && i <= |e|
  {
    src[..i] + e[i..]
  }

  lemma OneMoreFromSource<T>(src: seq<T>, e: seq<T>, i: nat, i': nat)
    requires i < |src| && i < |e| && i' == i + 1
    ensures Mixed(src, e, i)[i := src[i]] == Mixed(src, e, i')
  {
  }

  lemma FirstOfMixed<T>(src: seq<T>, e: seq<T>, i: nat)
    requires i <= |src| && i <= |e|
    ensures Mixed(src, e, i)[..i] == src[..i]
  {
  }

  lemma NoBlocks<T>(s: Store<T>)
    requires Sound(s) && s.mem == []
    ensures Elements(s) == []
  {
  }

  lemma StartAtHead<T>(s: Store<T>)
    requires Sound(s) && s.mem != []
    ensures OutAt(s, Place(0, s.head), 0)
  {
    assert Off(s.mem, 0) == 0;
  }

  lemma OutIsCutPlace<T>(s: Store<T>, pl: Place, i: nat)
    requires Sound(s) && OutAt(s, pl, i)
    ensures CutPlace(s, pl.k, pl.p) && At(s.mem, pl) - s.head == i
  {
    assert Off(s.mem, 0) == 0;
    BlockPlaces(s, pl.k);
  }

  /** The start of a block that is not the first is the end of the block before. */
  lemma FarSide<T>(s: Store<T>, pl: Place, i: nat)
    requires Sound(s) && OutAt(s, pl, i) && pl.p == 0 && i > 0
    ensures pl.k > 0 && CutPlace(s, pl.k - 1, |s.mem[pl.k - 1]|)
    ensures At(s.mem, Place(pl.k - 1, |s.mem[pl.k - 1]|)) == s.head + i
  {
    assert Off(s.mem, 0) == 0;
    BlockPlaces(s, pl.k - 1);
  }

  lemma OutBeforeEnd<T>(s: Store<T>, pl: Place, i: nat)
    requires Sound(s) && OutAt(s, pl, i) && i < s.size
    ensures pl.p < |s.mem[pl.k]|
  {
  }

  lemma OutNext<T>(s: Store<T>, pl: Place, i: nat, v: T)
    requires Sound(s) && OutAt(s, pl, i) && i < s.size && pl.p < |s.mem[pl.k]|
    ensures var s' := Overwritten(s, pl, v);
      && InRange(s'.mem, pl) && IncrPlace(s'.mem, pl) == IncrPlace(s.mem, pl)
      && OutAt(s', IncrPlace(s.mem, pl), i + 1)
  {
    var s' := Overwritten(s, pl, v);
    assert SameSizes(s.mem, s'.mem);
    SameSizesAt(s.mem, s'.mem, pl);
    IncrAt(s'.mem, pl);
  }

  /** Such an iterator equals `end()` exactly when all elements are behind it. */
  lemma OutIsEnd<T>(s: Store<T>, pl: Place, i: nat)
    requires Sound(s) && TailRule(s.mem, s.tail) && s.mem != [] && OutAt(s, pl, i)
    ensures i == s.size <==> pl == Place(|s.mem| - 1, s.tail)
  {
    if i == s.size {
      SamePosition(s.mem, pl, Place(|s.mem| - 1, s.tail));
    }
  }

  lemma RunsJoin<T>(e: seq<T>, m: nat, n: nat, v: T)
    ensures e + Copies(m, v) + Copies(n, v) == e + Copies(m + n, v)
  {
  }

  function Resized<T>(e: seq<T>, n: nat, v: T): (r: seq<T>)
    ensures |r| == n && forall i :: 0 <= i < n ==> r[i] == if i < |e| then e[i] else v
  {
    if n <= |e| then e[..n] else e + Copies(n - |e|, v)
  }

  /** The place that `resize` erases from is at the `n`-th element, and a proper end for a queue. */
  lemma ShrinkPlace<T>(s: Store<T>, n: nat)
    requires Sound(s) && n < s.size
    ensures s.mem != [] && Reaches(s.mem, Place(0, s.head), n)
    ensures var pl := IncrByPlace(s.mem, Place(0, s.head), n);
      && InRange(s.mem, pl) && At(s.mem, pl) == s.head + n && CutPlace(s, pl.k, pl.p) && (pl.k > 0 ==> pl.p > 0)
  {
    var from := Place(0, s.head);
    assert At(s.mem, from) == s.head;
    IncrByAt(s.mem, from, n);
    var pl := IncrByPlace(s.mem, from, n);
    BlockPlaces(s, pl.k);
  }

  /** `s'` ends at the place `pl` of `s`. */
  ghost predicate ErasedAt<T>(s: Store<T>, s': Store<T>, pl: Place) {
    && InRange(s.mem, pl) && |s'.mem| == pl.k + 1 && s'.tail == pl.p
    && s'.head == s.head && s'.size == At(s.mem, pl) - s.head
  }

  lemma AllBlocksLive<T>(s: Store<T>)
    requires Sound(s)
    ensures forall j :: 0 <= j < |s.mem| ==> BlockLive(s, j)
  {
    forall j | 0 <= j < |s.mem|
      ensures BlockLive(s, j)
    {
      SoundBlockLive(s, j);
    }
  }

  lemma SomeAreLeft<T>(s: Store<T>, k: nat)
    requires Sound(s) && k < |s.mem|
    ensures CountFrom(s, k + 1) >= 0
  {
    if k + 1 < |s.mem| {
      SoundCountFrom(s, k + 1);
      BlockPlaces(s, k + 1);
    }
  }

  lemma CountAll<T>(s: Store<T>)
    requires Sound(s)
    ensures CountFrom(s, 0) == s.size && forall j :: 0 <= j < |s.mem| ==> BlockLive(s, j)
  {
    AllBlocksLive(s);
    if s.mem != [] {
      SoundCountFrom(s, 0);
      assert Off(s.mem, 0) == 0;
    }
  }

  /** The first block is left, without elements. */
  ghost function Emptied<T>(s: Store<T>): Store<T>
    requires s.mem != []
  {
    Store([Raws(|s.mem[0]|)], 0, 0, 0, s.lo, s.hi)
  }

  lemma EmptiedSound<T>(s: Store<T>)
    requires Sound(s) && s.mem != []
    ensures Sound(Emptied(s)) && TailRule(Emptied(s).mem, 0)
  {
    FlatAppend([], Raws<T>(|s.mem[0]|));
    assert [] + Emptied(s).mem == Emptied(s).mem;
    assert Flat(Emptied(s).mem) == Raws(|s.mem[0]|) && Off(Emptied(s).mem, 0) == 0;
  }

  lemma EmptiedBlock<T>(s: Store<T>, k: nat)
    requires k < |s.mem| && BlockLive(s, k)
    ensures s.mem[k][..BlockBegin(s, k)] + Raws(BlockEnd(s, k) - BlockBegin(s, k)) + s.mem[k][BlockEnd(s, k)..] == Raws(|s.mem[k]|)
  {
  }

  lemma LastIsLive<T>(s: Store<T>)
    requires Sound(s) && TailRule(s.mem, s.tail) && s.size > 0
    ensures s.mem != [] && 0 < s.tail <= |LastBlock(s)| && LastBlock(s)[s.tail - 1].Live?
    ensures LastBlock(s)[s.tail - 1].value == Elements(s)[s.size - 1]
  {
    assert Off(s.mem, 0) == 0;
    FlatAt(s.mem, |s.mem| - 1, s.tail - 1);
  }
}

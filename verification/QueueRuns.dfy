/** Whole lives of queues: any operations on two queues that share an allocator, and then destruction. */
module QueueRuns {
  import opened QueueLayout
  import opened QueuePlaces
  import opened ChunkedQueue

  datatype Op<T> =
    | PushBack(v: T)
    | PopFront
    | Resize(n: nat, v: T)
    | Assign(src: seq<T>)
    | Fill(n: nat, v: T)
    | Clear
    | ShrinkToFit

  /** What an operation does to a plain sequence. */
  function Effect<T>(e: seq<T>, op: Op<T>): seq<T>
    requires op.PopFront? ==> e != []
  {
    match op
    case PushBack(v) => e + [v]
    case PopFront => e[1..]
    case Resize(n, v) => Resized(e, n, v)
    case Assign(src) => src
    case Fill(n, v) => Copies(n, v)
    case Clear => []
    case ShrinkToFit => e
  }

  /** An operation on one of two queues, an exchange, or a move into one of them from the other. */
  datatype Deed<T> = On(first: bool, op: Op<T>) | Exchange | MoveInto(first: bool)

  datatype Pair<T> = Pair(a: seq<T>, b: seq<T>)

  /** `pop_front` is called on a queue with elements only. */
  predicate Fine<T>(p: Pair<T>, deed: Deed<T>) {
    deed.On? && deed.op.PopFront? ==> (if deed.first then p.a else p.b) != []
  }

  function Next<T>(p: Pair<T>, deed: Deed<T>): Pair<T>
    requires Fine(p, deed)
  {
    match deed
    case On(first, op) => if first then p.(a := Effect(p.a, op)) else p.(b := Effect(p.b, op))
    case Exchange => Pair(p.b, p.a)
    case MoveInto(first) => if first then Pair(p.b, []) else Pair([], p.a)
  }

  predicate Allowed<T>(p: Pair<T>, deeds: seq<Deed<T>>)
    decreases |deeds|
  {
    deeds == [] || (Fine(p, deeds[0]) && Allowed(Next(p, deeds[0]), deeds[1..]))
  }

  function Replay<T>(p: Pair<T>, deeds: seq<Deed<T>>): Pair<T>
    requires Allowed(p, deeds)
    decreases |deeds|
  {
    if deeds == [] then p else Replay(Next(p, deeds[0]), deeds[1..])
  }

  /** How many elements an operation leaves. */
  function SizeAfter<T>(n: nat, op: Op<T>): int {
    match op
    case PushBack(_) => n + 1
    case PopFront => n - 1
    case Resize(m, _) => m
    case Assign(src) => |src|
    case Fill(m, _) => m
    case Clear => 0
    case ShrinkToFit => n
  }

  /** What an operation leaves, place by place. */
  lemma EffectAt<T>(e: seq<T>, op: Op<T>, i: nat)
    requires (op.PopFront? ==> e != []) && i < |Effect(e, op)|
    ensures |Effect(e, op)| == SizeAfter(|e|, op)
    ensures match op
      case PushBack(v) => Effect(e, op)[i] == if i < |e| then e[i] else v
      case PopFront => i + 1 < |e| && Effect(e, op)[i] == e[i + 1]
      case Resize(_, v) => Effect(e, op)[i] == if i < |e| then e[i] else v
      case Assign(src) => i < |src| && Effect(e, op)[i] == src[i]
      case Fill(_, v) => Effect(e, op)[i] == v
      case Clear => true
      case ShrinkToFit => i < |e| && Effect(e, op)[i] == e[i]
  {
  }

  /** A run may be continued by any deed, unless that pops from a queue without elements. */
  lemma {:induction false} AllowedOn<T>(p: Pair<T>, deeds: seq<Deed<T>>, deed: Deed<T>)
    requires Allowed(p, deeds)
    ensures Allowed(p, deeds + [deed]) <==>
      !(deed.On? && deed.op.PopFront? && (if deed.first then Replay(p, deeds).a else Replay(p, deeds).b) == [])
    ensures Allowed(p, deeds + [deed]) ==> Replay(p, deeds + [deed]) == Next(Replay(p, deeds), deed)
    decreases |deeds|
  {
    var all := deeds + [deed];
    if deeds == [] {
      assert all == [deed] && all[1..] == [];
    } else {
      assert all[0] == deeds[0] && all[1..] == deeds[1..] + [deed];
      AllowedOn(Next(p, deeds[0]), deeds[1..], deed);
    }
  }

  // ----- the queues -----

  method Step<T>(q: ChunkedQueue<T>, op: Op<T>)
    requires q.Valid() && (op.PopFront? ==> Elements(q.store) != [])
    modifies q, q.alloc, q.chain, Arrays(q.chain)
    ensures q.Valid() && q.Framed() && Elements(q.store) == Effect(old(Elements(q.store)), op)
  {
    match op {
      case PushBack(v) => q.EmplaceBack(v);
      case PopFront => q.PopFront();
      case Resize(n, v) => q.Resize(n, v);
      case Assign(src) => q.Assign(src);
      case Fill(n, v) => q.AssignFill(n, v);
      case Clear => q.Clear();
      case ShrinkToFit => q.ShrinkToFit();
    }
  }

  /** What belongs to a chain and did not before is in `added`. */
  ghost predicate Grown<T>(chain: seq<Block<T>>, was: seq<Block<T>>, added: set<object>) {
    BlockSet(chain) <= BlockSet(was) + added && Arrays(chain) <= Arrays(was) + added
  }

  /** The same, with the blocks that are new and their slots. */
  method StepAdding<T>(q: ChunkedQueue<T>, op: Op<T>) returns (ghost added: set<object>)
    requires q.Valid() && (op.PopFront? ==> Elements(q.store) != [])
    modifies q, q.alloc, q.chain, Arrays(q.chain)
    ensures q.Valid() && q.Framed() && Elements(q.store) == Effect(old(Elements(q.store)), op)
    ensures fresh(added) && Grown(q.chain, old(q.chain), added)
  {
    ghost var was := q.chain;
    Step(q, op);
    ghost var blocks: set<object> := BlockSet(q.chain) - BlockSet(was);
    ghost var slots: set<object> := Arrays(q.chain) - Arrays(was);
    added := blocks + slots;
  }

  datatype Duo<T> = Duo(a: ChunkedQueue<T>, b: ChunkedQueue<T>)

  /** Two queues in order with nothing in common; all blocks that are out belong to them, and so do all
      elements that were constructed and not destroyed. */
  ghost predicate Together<T>(d: Duo<T>)
    reads d.a, d.b, d.a.alloc, d.b.alloc, d.a.chain, d.b.chain, Arrays(d.a.chain), Arrays(d.b.chain)
  {
    match d
    case Duo(a, b) =>
      && a.Valid() && b.Valid() && a.Apart(b)
      && a.alloc.live == BlockSet(a.chain) + BlockSet(b.chain)
      && a.alloc.built == a.alloc.ended + a.size + b.size
  }

  /** The elements, of a store that has any. */
  ghost function Kept<T>(s: Store<T>): seq<T> {
    if Sound(s) then Elements(s) else []
  }

  ghost function View<T>(d: Duo<T>): Pair<T>
    reads d.a, d.b
  {
    Pair(Kept(d.a.store), Kept(d.b.store))
  }

  lemma BlocksOf<T>(chain: seq<Block<T>>)
    ensures forall i :: 0 <= i < |chain| ==> chain[i] in BlockSet(chain)
  {
  }

  /** A chain holds what it holds whatever else the allocator has out. */
  lemma HoldsWith<T>(c: Chain<T>, live: set<Block<T>>)
    requires Holds(c) && BlockSet(c.blocks) <= live
    ensures Holds(c.(live := live))
  {
  }

  /** An operation on one queue leaves the chain of another as it was. */
  method StepApart<T>(q: ChunkedQueue<T>, op: Op<T>, ghost c: Chain<T>) returns (ghost added: set<object>)
    requires q.Valid() && (op.PopFront? ==> Elements(q.store) != [])
    requires Holds(c) && BlockSet(c.blocks) <= q.Foreign() && Arrays(c.blocks) !! Arrays(q.chain)
    modifies q, q.alloc, q.chain, Arrays(q.chain)
    ensures q.Valid() && q.Framed() && Elements(q.store) == Effect(old(Elements(q.store)), op)
    ensures Holds(c.(live := q.alloc.live))
    ensures fresh(added) && Grown(q.chain, old(q.chain), added)
  {
    BlocksOf(c.blocks);
    BlocksOf(q.chain);
    added := StepAdding(q, op);
    assert Holds(c) == true;
    HoldsWith(c, q.alloc.live);
  }

  /** One operation on the first of two queues. */
  method StepBeside<T>(a: ChunkedQueue<T>, b: ChunkedQueue<T>, op: Op<T>) returns (ghost added: set<object>)
    requires Together(Duo(a, b)) && (op.PopFront? ==> Elements(a.store) != [])
    modifies a, a.alloc, a.chain, Arrays(a.chain)
    ensures Together(Duo(a, b))
    ensures View(Duo(a, b)) == Pair(Effect(old(Elements(a.store)), op), old(Elements(b.store)))
    ensures fresh(added) && Grown(a.chain, old(a.chain), added)
  {
    added := StepApart(a, op, Chain(b.chain, b.store.mem, b.alloc.live));
  }

  method Move<T>(a: ChunkedQueue<T>, b: ChunkedQueue<T>)
    requires Together(Duo(a, b))
    modifies a, b, a.alloc, Arrays(a.chain)
    ensures Together(Duo(a, b)) && View(Duo(a, b)) == Pair(old(Elements(b.store)), [])
    ensures a.chain == old(b.chain) && b.chain == []
  {
    a.MoveAssign(b);
  }

  // ----- runs -----

  /** The queues, their allocator, and their blocks with the slots. */
  ghost function Footprint<T>(d: Duo<T>): set<object>
    reads d.a, d.b
  {
    {d.a, d.b, d.a.alloc} + BlockSet(d.a.chain) + BlockSet(d.b.chain) + Arrays(d.a.chain) + Arrays(d.b.chain)
  }

  ghost predicate Within<T>(d: Duo<T>, repr: set<object>)
    reads d.a, d.b
  {
    match d
    case Duo(_, _) => Footprint(d) <= repr
  }

  lemma Flip<T>(d: Duo<T>)
    requires Together(d)
    ensures Together(Duo(d.b, d.a)) && forall repr :: Within(d, repr) ==> Within(Duo(d.b, d.a), repr)
    ensures View(Duo(d.b, d.a)) == Pair(View(d).b, View(d).a)
  {
  }

  method TurnOn<T>(d: Duo<T>, op: Op<T>, ghost repr: set<object>) returns (ghost repr': set<object>)
    requires Together(d) && (op.PopFront? ==> View(d).a != []) && Within(d, repr)
    modifies repr
    ensures Together(d) && View(d) == old(View(d)).(a := Effect(old(View(d)).a, op))
    ensures Within(d, repr') && forall o :: o in repr' ==> o in repr || fresh(o)
  {
    ghost var added := StepBeside(d.a, d.b, op);
    repr' := repr + added;
  }

  method TurnMove<T>(d: Duo<T>, ghost repr: set<object>)
    requires Together(d) && Within(d, repr)
    modifies repr
    ensures Together(d) && View(d) == Pair(old(View(d)).b, []) && Within(d, repr)
  {
    Move(d.a, d.b);
  }

  method TurnSwap<T>(d: Duo<T>, ghost repr: set<object>)
    requires Together(d) && Within(d, repr)
    modifies repr
    ensures Together(d) && View(d) == Pair(old(View(d)).b, old(View(d)).a) && Within(d, repr)
  {
    d.a.Swap(d.b);
  }

  /** One deed, on the heap. */
  method Turn<T>(d: Duo<T>, deed: Deed<T>, ghost repr: set<object>) returns (ghost repr': set<object>)
    requires Together(d) && Fine(View(d), deed) && Within(d, repr)
    modifies repr
    ensures Together(d) && View(d) == Next(old(View(d)), deed)
    ensures Within(d, repr') && forall o :: o in repr' ==> o in repr || fresh(o)
  {
    var e := if (deed.On? || deed.MoveInto?) && !deed.first then Duo(d.b, d.a) else d;
    Flip(d);
    repr' := repr;
    match deed {
      case On(_, op) => repr' := TurnOn(e, op, repr);
      case Exchange => TurnSwap(e, repr);
      case MoveInto(_) => TurnMove(e, repr);
    }
    Flip(e);
  }

  method Run<T>(d: Duo<T>, deeds: seq<Deed<T>>, ghost repr: set<object>) returns (ghost repr': set<object>)
    requires Together(d) && Allowed(View(d), deeds) && Within(d, repr)
    modifies repr
    ensures Together(d) && View(d) == Replay(old(View(d)), deeds)
    ensures Within(d, repr') && forall o :: o in repr' ==> o in repr || fresh(o)
    decreases |deeds|
  {
    repr' := repr;
    if deeds != [] {
      repr' := Turn(d, deeds[0], repr);
      repr' := Run(d, deeds[1..], repr');
    }
  }

  method NewQueues<T>(blockMin: nat, blockMax: nat, alloc: BlockAllocator<T>) returns (d: Duo<T>, ghost repr: set<object>)
    requires 0 < blockMin <= blockMax && alloc.live == {} && alloc.built == alloc.ended
    ensures Together(d) && View(d) == Pair([], []) && d.a.alloc == alloc
    ensures Within(d, repr) && forall o :: o in repr ==> o == alloc || fresh(o)
  {
    var a := new ChunkedQueue(blockMin, blockMax, alloc);
    var b := new ChunkedQueue(blockMin, blockMax, alloc);
    d, repr := Duo(a, b), {a, b, alloc};
  }

  method DestroyFirst<T>(d: Duo<T>)
    requires Together(d)
    modifies d.a, d.a.alloc, Arrays(d.a.chain)
    ensures d.b.Valid() && d.a.alloc.live == BlockSet(d.b.chain) && d.a.alloc.built == d.a.alloc.ended + d.b.size
  {
    ghost var c := Chain(d.b.chain, d.b.store.mem, d.b.alloc.live);
    d.a.DestroyAndDeallocateAll();
    assert Holds(c) == true;
    HoldsWith(c, d.b.alloc.live);
  }

  method DestroyBoth<T>(d: Duo<T>, ghost repr: set<object>)
    requires Together(d) && Within(d, repr)
    modifies repr
    ensures d.a.alloc.live == {} && d.a.alloc.built == d.a.alloc.ended
  {
    DestroyFirst(d);
    d.b.DestroyAndDeallocateAll();
  }

  method RunAndDestroy<T>(d: Duo<T>, deeds: seq<Deed<T>>, ghost repr: set<object>) returns (ghost last: Pair<T>)
    requires Together(d) && Allowed(View(d), deeds) && Within(d, repr)
    modifies repr
    ensures d.a.alloc.live == {} && d.a.alloc.built == d.a.alloc.ended && last == Replay(old(View(d)), deeds)
  {
    ghost var repr' := Run(d, deeds, repr);
    last := View(d);
    DestroyBoth(d, repr');
  }

  /** Every life of two queues ends with no block out and as many elements destroyed as constructed, and up
      to there they have held what plain sequences would have held. */
  method Lifetime<T>(blockMin: nat, blockMax: nat, deeds: seq<Deed<T>>) returns (alloc: BlockAllocator<T>, ghost last: Pair<T>)
    requires 0 < blockMin <= blockMax && Allowed(Pair([], []), deeds)
    ensures alloc.live == {} && alloc.built == alloc.ended && last == Replay(Pair([], []), deeds)
  {
    alloc := new BlockAllocator();
    var d, repr := NewQueues(blockMin, blockMax, alloc);
    last := RunAndDestroy(d, deeds, repr);
  }
}

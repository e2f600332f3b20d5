/** Any run of operations on two linked maps and a node handle, against a replay on plain sequences. */
module LinkedRuns {
  import opened Options
  import opened LinkedNodes
  import opened LinkedMap
  import opened LinkedHistory

  /** An operation on one of the two maps, the other one being its partner. */
  datatype Deed<K, V> =
    | Own(op: Op<K, V>)
    | Extract(k: K)
    | InsertHeld
    | SpliceOther(k: K)
    | MergeOther
    | CopyOther
    | SwapOther
    | Clear

  datatype State<K, V> = State(here: Listing<K, V>, there: Listing<K, V>, held: Option<(K, V)>)

  /** The pairs of `s` whose keys are in `t`, and those whose keys are not. */
  ghost function Shared<K, V>(s: Listing<K, V>, t: Listing<K, V>): Listing<K, V> {
    if s == [] then [] else (if Has(t, s[0].0) then [s[0]] else []) + Shared(s[1..], t)
  }

  ghost function Lacking<K, V>(s: Listing<K, V>, t: Listing<K, V>): Listing<K, V> {
    if s == [] then [] else (if Has(t, s[0].0) then [] else [s[0]]) + Lacking(s[1..], t)
  }

  ghost function Offered<K, V>(s: Listing<K, V>, p: (K, V)): Listing<K, V> {
    if Has(s, p.0) then s else s + [p]
  }

  ghost function Effect<K, V>(s: State<K, V>, deed: Deed<K, V>): State<K, V> {
    match deed
    case Own(op) => s.(here := Apply(s.here, op))
    case Extract(k) =>
      var i := Find(s.here, k);
      if i < |s.here| then State(Dropped(s.here, i), s.there, Some(s.here[i])) else s.(held := None)
    case InsertHeld =>
      if s.held.Some? && !Has(s.here, s.held.value.0) then State(s.here + [s.held.value], s.there, None) else s
    case SpliceOther(k) =>
      var i := Find(s.there, k);
      if i < |s.there| then s.(here := Offered(s.here, s.there[i]), there := Dropped(s.there, i)) else s
    case MergeOther => s.(here := s.here + Lacking(s.there, s.here), there := Shared(s.there, s.here))
    case CopyOther => s.(here := s.there)
    case SwapOther => s.(here := s.there, there := s.here)
    case Clear => s.(here := [])
  }

  ghost function Flipped<K, V>(s: State<K, V>): State<K, V> {
    State(s.there, s.here, s.held)
  }

  /** An entry of a log says which of the two maps the deed is done to. */
  ghost function Next<K, V>(s: State<K, V>, entry: (bool, Deed<K, V>)): State<K, V> {
    if entry.0 then Effect(s, entry.1) else Flipped(Effect(Flipped(s), entry.1))
  }

  ghost function Effects<K, V>(log: seq<(bool, Deed<K, V>)>): State<K, V> {
    if log == [] then State([], [], None) else Next(Effects(log[..|log| - 1]), log[|log| - 1])
  }

  // ----- the maps -----

  /** Two maps in order that share no node with each other or with the handle. */
  ghost predicate Apart<K, V>(here: LinkedHashMap<K, V>, there: LinkedHashMap<K, V>, held: NodeHandle<K, V>)
    reads here, there
  {
    && here != there && here.Valid() && there.Valid()
    && (forall n :: n in here.list ==> n !in there.list)
    && held !in here.list && held !in there.list
  }

  ghost function HeldPair<K, V>(held: NodeHandle<K, V>): Option<(K, V)>
    reads held
  {
    if held == null then None else Some((held.key, held.value))
  }

  ghost function View<K, V>(here: LinkedHashMap<K, V>, there: LinkedHashMap<K, V>, held: NodeHandle<K, V>): State<K, V>
    reads here, there, here.list, there.list, held
  {
    State(Entries(here.list), Entries(there.list), HeldPair(held))
  }

  /** Nodes whose values have not changed have the same entries. */
  twostate lemma SameEntries<K, V>(list: seq<Node<K, V>>)
    requires forall n :: n in list ==> n.value == old(n.value)
    ensures Entries(list) == old(Entries(list))
  {
  }

  lemma {:induction false} EntriesSplit<K, V>(list: seq<Node<K, V>>, ours: seq<Node<K, V>>)
    requires UniqueKeys(ours)
    ensures Entries(Present(list, Keys(ours))) == Shared(Entries(list), Entries(ours))
    ensures Entries(Missing(list, Keys(ours))) == Lacking(Entries(list), Entries(ours))
  {
    if list != [] {
      EntriesSplit(list[1..], ours);
      assert Entries(list)[1..] == Entries(list[1..]);
      Located(ours, list[0].key);
    }
  }

  /** The node is in one of the maps or in the handle. */
  ghost predicate Among<K, V>(n: Node<K, V>, here: seq<Node<K, V>>, there: seq<Node<K, V>>, held: NodeHandle<K, V>) {
    n in here || n in there || n == held
  }

  /** The nodes of one state are those of another, or have been allocated since. */
  twostate predicate Kept<K, V>(here: LinkedHashMap<K, V>, there: LinkedHashMap<K, V>, held: NodeHandle<K, V>, new rest: NodeHandle<K, V>)
    reads here, there
  {
    && (forall n :: n in here.list ==> Among(n, old(here.list), old(there.list), held) || fresh(n))
    && (forall n :: n in there.list ==> Among(n, old(here.list), old(there.list), held) || fresh(n))
    && (rest != null ==> Among(rest, old(here.list), old(there.list), held) || fresh(rest))
  }

  method DoOwn<K, V>(here: LinkedHashMap<K, V>, there: LinkedHashMap<K, V>, held: NodeHandle<K, V>, op: Op<K, V>)
      returns (rest: NodeHandle<K, V>)
    requires Apart(here, there, held)
    modifies here, here.list
    ensures Apart(here, there, rest) && View(here, there, rest) == Effect(old(View(here, there, held)), Own(op))
    ensures Kept(here, there, held, rest)
  {
    Step(here, op);
    SameEntries(there.list);
    rest := held;
  }

  method DoExtract<K, V>(here: LinkedHashMap<K, V>, there: LinkedHashMap<K, V>, held: NodeHandle<K, V>, k: K)
      returns (rest: NodeHandle<K, V>)
    requires Apart(here, there, held)
    modifies here
    ensures Apart(here, there, rest) && View(here, there, rest) == Effect(old(View(here, there, held)), Extract(k))
    ensures Kept(here, there, held, rest)
  {
    Located(here.list, k);
    if k in here.index {
      EntriesWithout(here.list, here.index[k]);
      WithoutMembers(here.list, here.index[k]);
    }
    rest := here.ExtractKey(k);
  }

  method DoInsert<K, V>(here: LinkedHashMap<K, V>, there: LinkedHashMap<K, V>, held: NodeHandle<K, V>)
      returns (rest: NodeHandle<K, V>)
    requires Apart(here, there, held)
    modifies here
    ensures Apart(here, there, rest) && View(here, there, rest) == Effect(old(View(here, there, held)), InsertHeld)
    ensures Kept(here, there, held, rest)
  {
    if held != null {
      Located(here.list, held.key);
    }
    var position, inserted;
    position, inserted, rest := here.InsertNode(held);
  }

  lemma SpliceEntries<K, V>(ours: seq<Node<K, V>>, theirs: seq<Node<K, V>>, it: Node<K, V>)
    requires UniqueKeys(ours) && UniqueKeys(theirs) && it in theirs
    ensures var ours' := if it.key in Keys(ours) then ours else ours + [it];
      var i := Find(Entries(theirs), it.key);
      && i < |theirs| && Entries(ours') == Offered(Entries(ours), Entries(theirs)[i])
      && Entries(Without(theirs, it)) == Dropped(Entries(theirs), i)
  {
    Located(ours, it.key);
    EntriesWithout(theirs, it);
  }

  /** The list that a node is offered to. */
  ghost function Taking<K, V>(list: seq<Node<K, V>>, n: Node<K, V>): seq<Node<K, V>> {
    if n.key in Keys(list) then list else list + [n]
  }

  lemma SpliceEffect<K, V>(ours: seq<Node<K, V>>, theirs: seq<Node<K, V>>, it: Node<K, V>, h: Option<(K, V)>)
    requires UniqueKeys(ours) && UniqueKeys(theirs) && it in theirs
    ensures State(Entries(Taking(ours, it)), Entries(Without(theirs, it)), h)
         == Effect(State(Entries(ours), Entries(theirs), h), SpliceOther(it.key))
  {
    SpliceEntries(ours, theirs, it);
  }

  lemma SpliceApart<K, V>(ours: seq<Node<K, V>>, theirs: seq<Node<K, V>>, it: Node<K, V>)
    requires UniqueKeys(theirs) && it in theirs && forall n :: n in ours ==> n !in theirs
    ensures forall n :: n in Taking(ours, it) ==> n !in Without(theirs, it) && (n in ours || n in theirs)
    ensures forall n :: n in Without(theirs, it) ==> n in theirs
  {
    WithoutMembers(theirs, it);
  }

  method SpliceFound<K, V>(here: LinkedHashMap<K, V>, there: LinkedHashMap<K, V>, held: NodeHandle<K, V>, it: Node<K, V>)
    requires Apart(here, there, held) && it in there.list
    modifies here, there
    ensures Apart(here, there, held) && View(here, there, held) == Effect(old(View(here, there, held)), SpliceOther(it.key))
    ensures Kept(here, there, held, held)
  {
    ghost var ours, theirs := here.list, there.list;
    here.Splice(there, it);
    assert here.list == Taking(ours, it) && there.list == Without(theirs, it);
    SameEntries(ours);
    SameEntries(theirs);
    SpliceEffect(ours, theirs, it, HeldPair(held));
    SpliceApart(ours, theirs, it);
  }

  method DoSplice<K, V>(here: LinkedHashMap<K, V>, there: LinkedHashMap<K, V>, held: NodeHandle<K, V>, k: K)
      returns (rest: NodeHandle<K, V>)
    requires Apart(here, there, held)
    modifies here, there
    ensures Apart(here, there, rest) && View(here, there, rest) == Effect(old(View(here, there, held)), SpliceOther(k))
    ensures Kept(here, there, held, rest)
  {
    var it := there.Find(k);
    if it == null {
      EntriesAbsent(there.list, k);
    } else {
      SpliceFound(here, there, held, it);
    }
    rest := held;
  }

  lemma MergeApart<K, V>(ours: seq<Node<K, V>>, theirs: seq<Node<K, V>>)
    ensures forall n :: n in Missing(theirs, Keys(ours)) ==> n in theirs && n !in Present(theirs, Keys(ours))
    ensures forall n :: n in Present(theirs, Keys(ours)) ==> n in theirs
  {
    forall n | n in Missing(theirs, Keys(ours)) || n in Present(theirs, Keys(ours)) {
      SplitMember(theirs, Keys(ours), n);
    }
  }

  lemma MergeEntries<K, V>(ours: seq<Node<K, V>>, theirs: seq<Node<K, V>>)
    requires UniqueKeys(ours)
    ensures Entries(ours + Missing(theirs, Keys(ours))) == Entries(ours) + Lacking(Entries(theirs), Entries(ours))
    ensures Entries(Present(theirs, Keys(ours))) == Shared(Entries(theirs), Entries(ours))
  {
    EntriesSplit(theirs, ours);
  }

  method DoMerge<K, V>(here: LinkedHashMap<K, V>, there: LinkedHashMap<K, V>, held: NodeHandle<K, V>)
      returns (rest: NodeHandle<K, V>)
    requires Apart(here, there, held)
    modifies here, there
    ensures Apart(here, there, rest) && View(here, there, rest) == Effect(old(View(here, there, held)), MergeOther)
    ensures Kept(here, there, held, rest)
  {
    ghost var ours, theirs := here.list, there.list;
    here.Merge(there);
    SameEntries(ours);
    SameEntries(theirs);
    MergeEntries(ours, theirs);
    MergeApart(ours, theirs);
    assert Entries(here.list) == Entries(ours) + Lacking(Entries(theirs), Entries(ours));
    rest := held;
  }

  method DoCopy<K, V>(here: LinkedHashMap<K, V>, there: LinkedHashMap<K, V>, held: NodeHandle<K, V>)
      returns (rest: NodeHandle<K, V>)
    requires Apart(here, there, held)
    modifies here
    ensures Apart(here, there, rest) && View(here, there, rest) == Effect(old(View(here, there, held)), CopyOther)
    ensures Kept(here, there, held, rest)
  {
    here.Clear();
    here.CopyFrom(there);
    rest := held;
  }

  /** One deed: the maps and the handle stay in order and apart, and change as the plain sequences do. */
  method Do<K, V>(here: LinkedHashMap<K, V>, there: LinkedHashMap<K, V>, held: NodeHandle<K, V>, deed: Deed<K, V>)
      returns (rest: NodeHandle<K, V>)
    requires Apart(here, there, held)
    modifies here, there, here.list
    ensures Apart(here, there, rest) && View(here, there, rest) == Effect(old(View(here, there, held)), deed)
    ensures Kept(here, there, held, rest)
  {
    match deed {
      case Own(op) => rest := DoOwn(here, there, held, op);
      case Extract(k) => rest := DoExtract(here, there, held, k);
      case InsertHeld => rest := DoInsert(here, there, held);
      case SpliceOther(k) => rest := DoSplice(here, there, held, k);
      case MergeOther => rest := DoMerge(here, there, held);
      case CopyOther => rest := DoCopy(here, there, held);
      case SwapOther =>
        here.Swap(there);
        rest := held;
      case Clear =>
        here.Clear();
        rest := held;
    }
  }

  /** `repr` holds the maps and all their nodes. */
  ghost predicate Within<K, V>(a: LinkedHashMap<K, V>, b: LinkedHashMap<K, V>, held: NodeHandle<K, V>, repr: set<object>)
    reads a, b
  {
    && a in repr && b in repr && (held != null ==> held in repr)
    && (forall n :: n in a.list ==> n in repr) && (forall n :: n in b.list ==> n in repr)
  }

  /** The same, with the nodes that are new. */
  method DoAdding<K, V>(here: LinkedHashMap<K, V>, there: LinkedHashMap<K, V>, held: NodeHandle<K, V>, deed: Deed<K, V>)
      returns (rest: NodeHandle<K, V>, ghost added: set<object>)
    requires Apart(here, there, held)
    modifies here, there, here.list
    ensures Apart(here, there, rest) && View(here, there, rest) == Effect(old(View(here, there, held)), deed)
    ensures fresh(added)
    ensures forall n :: n in here.list ==> n in added || Among(n, old(here.list), old(there.list), held)
    ensures forall n :: n in there.list ==> n in added || Among(n, old(here.list), old(there.list), held)
    ensures rest != null ==> rest in added || Among(rest, old(here.list), old(there.list), held)
  {
    rest := Do(here, there, held, deed);
    ghost var ours: set<object> := set n | n in here.list && !Among(n, old(here.list), old(there.list), held);
    ghost var theirs: set<object> := set n | n in there.list && !Among(n, old(here.list), old(there.list), held);
    added := ours + theirs + (if rest == null || Among(rest, old(here.list), old(there.list), held) then {} else {rest});
  }

  method DoWithin<K, V>(here: LinkedHashMap<K, V>, there: LinkedHashMap<K, V>, held: NodeHandle<K, V>, deed: Deed<K, V>, ghost repr: set<object>)
      returns (rest: NodeHandle<K, V>, ghost repr': set<object>)
    requires Apart(here, there, held) && Within(here, there, held, repr)
    modifies repr
    ensures Apart(here, there, rest) && View(here, there, rest) == Effect(old(View(here, there, held)), deed)
    ensures Within(here, there, rest, repr') && forall o :: o in repr' ==> o in repr || fresh(o)
  {
    ghost var added;
    rest, added := DoAdding(here, there, held, deed);
    repr' := repr + added;
  }

  method Turn<K, V>(a: LinkedHashMap<K, V>, b: LinkedHashMap<K, V>, held: NodeHandle<K, V>, entry: (bool, Deed<K, V>), ghost repr: set<object>)
      returns (rest: NodeHandle<K, V>, ghost repr': set<object>)
    requires Apart(a, b, held) && Within(a, b, held, repr)
    modifies repr
    ensures Apart(a, b, rest) && View(a, b, rest) == Next(old(View(a, b, held)), entry)
    ensures Within(a, b, rest, repr') && forall o :: o in repr' ==> o in repr || fresh(o)
  {
    if entry.0 {
      rest, repr' := DoWithin(a, b, held, entry.1, repr);
    } else {
      rest, repr' := DoWithin(b, a, held, entry.1, repr);
    }
  }

  /** Any run on two new maps: both stay in order, and hold what a replay on plain sequences gives. */
  method Run<K(==), V>(log: seq<(bool, Deed<K, V>)>)
      returns (a: LinkedHashMap<K, V>, b: LinkedHashMap<K, V>, held: NodeHandle<K, V>)
    ensures Apart(a, b, held) && View(a, b, held) == Effects(log)
  {
    a := new LinkedHashMap();
    b := new LinkedHashMap();
    held := null;
    ghost var repr: set<object> := {a, b};
    var i := 0;
    while i < |log|
      invariant i <= |log| && forall o :: o in repr ==> fresh(o)
      invariant Apart(a, b, held) == Within(a, b, held, repr) == true
      invariant View(a, b, held) == Effects(log[..i])
    {
      held, repr := Turn(a, b, held, log[i], repr);
      assert log[..i + 1][..i] == log[..i];
      i := i + 1;
    }
    assert log[..i] == log;
  }
}

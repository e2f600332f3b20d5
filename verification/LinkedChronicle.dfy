/** What the orders of two linked maps say about their common past.

    A ledger says of every key whether it is in a map, with which value, and since when it has had its
    place.  `Note` writes a deed into the ledgers key by key, without any list; `Chronicle` writes a
    whole log.  The theorem is that both maps iterate in the order of their ledgers' stamps. */
module LinkedChronicle {
  import opened Options
  import opened LinkedMap
  import opened LinkedHistory
  import opened LinkedRuns

  /** When an element got its place.  Elements that came together, in a merge or a copy, have the same
      time, and are told apart by the stamps that they had where they came from. */
  datatype Stamp = Stamp(time: nat, from: Option<Stamp>)

  predicate Earlier(a: Stamp, b: Stamp) {
    a.time < b.time || (a.time == b.time && a.from.Some? && b.from.Some? && Earlier(a.from.value, b.from.value))
  }

  datatype Record<V> = Record(stamp: Stamp, value: V)

  type Ledger<!K, V> = K -> Option<Record<V>>

  datatype Book<!K, V> = Book(here: Ledger<K, V>, there: Ledger<K, V>, held: Option<(K, V)>)

  // ----- writing a deed into the ledgers -----

  function New<V>(now: nat, value: V): Option<Record<V>> {
    Some(Record(Stamp(now, None), value))
  }

  /** A record that comes from another map. */
  function Brought<V>(now: nat, r: Option<Record<V>>): Option<Record<V>> {
    if r.Some? then Some(Record(Stamp(now, Some(r.value.stamp)), r.value.value)) else None
  }

  /** What an operation on one map makes of the record of its key. */
  ghost function NoteOwn<K, V>(r: Option<Record<V>>, now: nat, op: Op<K, V>): Option<Record<V>> {
    match op
    case Insert(_, v) => if r.Some? then r else New(now, v)
    case InsertOrAssign(_, v) => if r.Some? then Some(r.value.(value := v)) else New(now, v)
    case Erase(_) => None
    case MoveToEnd(_) => if r.Some? then New(now, r.value.value) else None
  }

  ghost function Note<K, V>(b: Book<K, V>, now: nat, deed: Deed<K, V>): Book<K, V> {
    var here, there, held := b.here, b.there, b.held;
    match deed
    case Own(op) => b.(here := k => if k == op.k then NoteOwn(here(k), now, op) else here(k))
    case Extract(e) =>
      b.(here := k => if k == e then None else here(k),
         held := if here(e).Some? then Some((e, here(e).value.value)) else None)
    case InsertHeld =>
      if held.Some? && here(held.value.0).None? then
        b.(here := k => if k == held.value.0 then New(now, held.value.1) else here(k), held := None)
      else b
    case SpliceOther(e) =>
      b.(here := k => if k == e && here(k).None? && there(k).Some? then New(now, there(k).value.value) else here(k),
         there := k => if k == e then None else there(k))
    case MergeOther =>
      b.(here := k => if here(k).Some? then here(k) else Brought(now, there(k)),
         there := k => if here(k).Some? then there(k) else None)
    case CopyOther => b.(here := k => Brought(now, there(k)))
    case SwapOther => b.(here := there, there := here)
    case Clear => b.(here := k => None)
  }

  ghost function Turned<K, V>(b: Book<K, V>): Book<K, V> {
    Book(b.there, b.here, b.held)
  }

  ghost function Chronicle<K, V>(log: seq<(bool, Deed<K, V>)>): Book<K, V> {
    if log == [] then Book(k => None, k => None, None)
    else
      var now := |log| - 1;
      var b, (first, deed) := Chronicle(log[..now]), log[now];
      if first then Note(b, now, deed) else Turned(Note(Turned(b), now, deed))
  }

  // ----- what the ledger tells of a list -----

  ghost predicate ToldKey<K, V>(s: Listing<K, V>, f: Ledger<K, V>, k: K) {
    var i := Find(s, k);
    if i < |s| then f(k).Some? && f(k).value.value == s[i].1 else f(k).None?
  }

  ghost function StampOf<K, V>(s: Listing<K, V>, f: Ledger<K, V>, i: nat): Stamp
    requires i < |s|
  {
    if f(s[i].0).Some? then f(s[i].0).value.stamp else Stamp(0, None)
  }

  ghost predicate Ordered<K, V>(s: Listing<K, V>, f: Ledger<K, V>) {
    forall i, j :: 0 <= i < j < |s| ==> Earlier(StampOf(s, f, i), StampOf(s, f, j))
  }

  /** The pairs of `s` are those of the ledger, in the order of the stamps, which are all before `now`. */
  ghost predicate Told<K(!new), V>(s: Listing<K, V>, f: Ledger<K, V>, now: nat) {
    && Unique(s) && Ordered(s, f)
    && (forall k :: ToldKey(s, f, k))
    && (forall k :: f(k).Some? ==> f(k).value.stamp.time < now)
  }

  lemma ToldAt<K(!new), V>(s: Listing<K, V>, f: Ledger<K, V>, now: nat, i: nat)
    requires Told(s, f, now) && i < |s|
    ensures f(s[i].0) == Some(Record(StampOf(s, f, i), s[i].1)) && StampOf(s, f, i).time < now
  {
    FindInUnique(s, i);
    assert ToldKey(s, f, s[i].0);
  }

  /** Part of a list, by increasing places. */
  ghost predicate Part<K, V>(u: Listing<K, V>, s: Listing<K, V>, e: seq<nat>) {
    && |e| == |u|
    && (forall i :: 0 <= i < |e| ==> e[i] < |s| && u[i] == s[e[i]])
    && (forall i, j :: 0 <= i < j < |e| ==> e[i] < e[j])
  }

  lemma PartTold<K(!new), V>(u: Listing<K, V>, s: Listing<K, V>, e: seq<nat>, f: Ledger<K, V>, g: Ledger<K, V>, now: nat)
    requires Told(s, f, now) && Part(u, s, e)
    requires forall k :: g(k) == if Has(u, k) then f(k) else None
    ensures Told(u, g, now)
  {
    forall i | 0 <= i < |u|
      ensures g(u[i].0) == f(u[i].0) == Some(Record(StampOf(u, g, i), u[i].1)) && StampOf(u, g, i) == StampOf(s, f, e[i])
    {
      ToldAt(s, f, now, e[i]);
      assert Has(u, u[i].0);
    }
    forall i, j | 0 <= i < j < |u|
      ensures u[i].0 != u[j].0 && Earlier(StampOf(u, g, i), StampOf(u, g, j))
    {
      assert s[e[i]].0 != s[e[j]].0;
      assert Earlier(StampOf(s, f, e[i]), StampOf(s, f, e[j]));
    }
    forall k
      ensures ToldKey(u, g, k)
    {
      var i := Find(u, k);
      if i < |u| {
        assert g(u[i].0) == Some(Record(StampOf(u, g, i), u[i].1));
      }
    }
  }

  /** The same list with stamps of `now`, which keep the order of the stamps before. */
  lemma BroughtTold<K(!new), V>(s: Listing<K, V>, f: Ledger<K, V>, g: Ledger<K, V>, now: nat)
    requires Told(s, f, now) && forall k :: g(k) == Brought(now, f(k))
    ensures Told(s, g, now + 1)
  {
    forall i | 0 <= i < |s|
      ensures StampOf(s, g, i) == Stamp(now, Some(StampOf(s, f, i)))
    {
      ToldAt(s, f, now, i);
    }
    forall k
      ensures ToldKey(s, g, k)
    {
      assert ToldKey(s, f, k);
    }
  }

  lemma SingleTold<K(!new), V>(x: (K, V), g: Ledger<K, V>, now: nat)
    requires forall k :: g(k) == if k == x.0 then New(now, x.1) else None
    ensures Told([x], g, now + 1)
  {
    assert Find([x], x.0) == 0;
  }

  /** Elements of now behind elements of before. */
  lemma BehindTold<K(!new), V>(s: Listing<K, V>, u: Listing<K, V>, f: Ledger<K, V>, g: Ledger<K, V>, h: Ledger<K, V>, now: nat)
    requires Told(s, f, now) && Told(u, g, now + 1)
    requires forall k :: g(k).Some? ==> g(k).value.stamp.time == now && f(k).None?
    requires forall k :: h(k) == if f(k).Some? then f(k) else g(k)
    ensures Told(s + u, h, now + 1)
  {
    var w := s + u;
    forall i | 0 <= i < |w|
      ensures StampOf(w, h, i) == if i < |s| then StampOf(s, f, i) else StampOf(u, g, i - |s|)
      ensures if i < |s| then f(w[i].0).Some? && StampOf(w, h, i).time < now else f(w[i].0).None? && StampOf(w, h, i).time == now
      ensures h(w[i].0) == Some(Record(StampOf(w, h, i), w[i].1))
    {
      if i < |s| {
        ToldAt(s, f, now, i);
      } else {
        ToldAt(u, g, now + 1, i - |s|);
      }
    }
    forall i | 0 <= i < |u|
      ensures f(u[i].0).None?
    {
      ToldAt(u, g, now + 1, i);
    }
    BehindUnique(s, u, f, now);
    forall i, j | 0 <= i < j < |w|
      ensures Earlier(StampOf(w, h, i), StampOf(w, h, j))
    {
      if i >= |s| {
        assert Earlier(StampOf(u, g, i - |s|), StampOf(u, g, j - |s|));
      }
    }
    forall k
      ensures ToldKey(w, h, k)
    {
      assert ToldKey(s, f, k) && ToldKey(u, g, k);
      FindBehind(s, u, k);
    }
  }

  lemma FindBehind<K, V>(s: Listing<K, V>, u: Listing<K, V>, k: K)
    ensures Find(s + u, k) == if Find(s, k) < |s| then Find(s, k) else |s| + Find(u, k)
  {
    FindIs(s + u, k, if Find(s, k) < |s| then Find(s, k) else |s| + Find(u, k));
  }

  lemma BehindUnique<K(!new), V>(s: Listing<K, V>, u: Listing<K, V>, f: Ledger<K, V>, now: nat)
    requires Told(s, f, now) && Unique(u) && forall i :: 0 <= i < |u| ==> f(u[i].0).None?
    ensures Unique(s + u)
  {
    forall i | 0 <= i < |s|
      ensures f(s[i].0).Some?
    {
      ToldAt(s, f, now, i);
    }
  }

  lemma AssignTold<K(!new), V>(s: Listing<K, V>, i: nat, v: V, f: Ledger<K, V>, g: Ledger<K, V>, now: nat)
    requires Told(s, f, now) && i < |s| && f(s[i].0).Some?
    requires forall k :: g(k) == if k == s[i].0 then Some(f(k).value.(value := v)) else f(k)
    ensures Told(s[i := (s[i].0, v)], g, now)
  {
    var t := s[i := (s[i].0, v)];
    FindInUnique(s, i);
    forall k
      ensures ToldKey(t, g, k)
    {
      assert ToldKey(s, f, k);
      FindIs(t, k, Find(s, k));
    }
    assert forall j :: 0 <= j < |s| ==> StampOf(t, g, j) == StampOf(s, f, j);
  }

  /** Equal ledgers tell the same, then and later. */
  lemma SameTold<K(!new), V>(s: Listing<K, V>, f: Ledger<K, V>, g: Ledger<K, V>, now: nat)
    requires Told(s, f, now) && forall k :: g(k) == f(k)
    ensures Told(s, g, now) && Told(s, g, now + 1)
  {
    assert forall i :: 0 <= i < |s| ==> StampOf(s, g, i) == StampOf(s, f, i);
    forall k
      ensures ToldKey(s, g, k)
    {
      assert ToldKey(s, f, k);
    }
  }

  // ----- parts of a list -----

  lemma DroppedPart<K, V>(s: Listing<K, V>, i: nat) returns (e: seq<nat>)
    requires i < |s|
    ensures Part(Dropped(s, i), s, e)
  {
    e := seq(|s| - 1, j => if j < i then j else j + 1);
  }

  lemma {:induction false} SharedPart<K, V>(s: Listing<K, V>, t: Listing<K, V>, from: nat) returns (e: seq<nat>)
    requires from <= |s|
    ensures Part(Shared(s[from..], t), s, e) && forall i :: 0 <= i < |e| ==> e[i] >= from
    decreases |s| - from
  {
    if from == |s| {
      e := [];
    } else {
      var rest := SharedPart(s, t, from + 1);
      assert s[from..][1..] == s[from + 1..];
      e := (if Has(t, s[from].0) then [from] else []) + rest;
    }
  }

  lemma {:induction false} LackingPart<K, V>(s: Listing<K, V>, t: Listing<K, V>, from: nat) returns (e: seq<nat>)
    requires from <= |s|
    ensures Part(Lacking(s[from..], t), s, e) && forall i :: 0 <= i < |e| ==> e[i] >= from
    decreases |s| - from
  {
    if from == |s| {
      e := [];
    } else {
      var rest := LackingPart(s, t, from + 1);
      assert s[from..][1..] == s[from + 1..];
      e := (if Has(t, s[from].0) then [] else [from]) + rest;
    }
  }

  lemma {:induction false} SplitHas<K, V>(s: Listing<K, V>, t: Listing<K, V>, k: K)
    ensures Has(Shared(s, t), k) <==> Has(s, k) && Has(t, k)
    ensures Has(Lacking(s, t), k) <==> Has(s, k) && !Has(t, k)
  {
    if s != [] {
      SplitHas(s[1..], t, k);
      HasCons(s, k);
      HasBehind(if Has(t, s[0].0) then [s[0]] else [], Shared(s[1..], t), k);
      HasBehind(if Has(t, s[0].0) then [] else [s[0]], Lacking(s[1..], t), k);
    }
  }

  lemma HasCons<K, V>(s: Listing<K, V>, k: K)
    requires s != []
    ensures Has(s, k) <==> s[0].0 == k || Has(s[1..], k)
  {
  }

  lemma HasBehind<K, V>(s: Listing<K, V>, u: Listing<K, V>, k: K)
    ensures Has(s + u, k) <==> Has(s, k) || Has(u, k)
  {
    FindBehind(s, u, k);
  }

  // ----- every deed -----

  /** Two lists and a handle are what a book says. */
  ghost predicate Recorded<K(!new), V>(s: State<K, V>, b: Book<K, V>, now: nat) {
    Told(s.here, b.here, now) && Told(s.there, b.there, now) && s.held == b.held
  }

  lemma DropTold<K(!new), V>(s: Listing<K, V>, i: nat, f: Ledger<K, V>, g: Ledger<K, V>, now: nat)
    requires Told(s, f, now) && i < |s| && forall k :: g(k) == if k == s[i].0 then None else f(k)
    ensures Told(Dropped(s, i), g, now)
  {
    var e := DroppedPart(s, i);
    forall k
      ensures g(k) == if Has(Dropped(s, i), k) then f(k) else None
    {
      assert ToldKey(s, f, k);
      FindInUnique(s, i);
      FindDropped(s, i, k);
    }
    PartTold(Dropped(s, i), s, e, f, g, now);
  }

  lemma AppendTold<K(!new), V>(s: Listing<K, V>, x: (K, V), f: Ledger<K, V>, h: Ledger<K, V>, now: nat)
    requires Told(s, f, now) && f(x.0).None? && forall k :: h(k) == if k == x.0 then New(now, x.1) else f(k)
    ensures Told(s + [x], h, now + 1)
  {
    var g := k => if k == x.0 then New(now, x.1) else None;
    SingleTold(x, g, now);
    BehindTold(s, [x], f, g, h, now);
  }

  lemma OwnRecorded<K(!new), V>(s: Listing<K, V>, f: Ledger<K, V>, g: Ledger<K, V>, now: nat, op: Op<K, V>)
    requires Told(s, f, now) && forall k :: g(k) == if k == op.k then NoteOwn(f(k), now, op) else f(k)
    ensures Told(Apply(s, op), g, now + 1)
  {
    var i := Find(s, op.k);
    assert ToldKey(s, f, op.k);
    if i == |s| {
      if op.Insert? || op.InsertOrAssign? {
        AppendTold(s, (op.k, op.v), f, g, now);
      } else {
        SameTold(s, f, g, now);
      }
    } else {
      match op {
        case Insert(_, _) => SameTold(s, f, g, now);
        case InsertOrAssign(_, v) =>
          AssignTold(s, i, v, f, g, now);
          SameTold(Apply(s, op), g, g, now);
        case Erase(_) =>
          DropTold(s, i, f, g, now);
          SameTold(Apply(s, op), g, g, now);
        case MoveToEnd(_) =>
          var d := k => if k == op.k then None else f(k);
          DropTold(s, i, f, d, now);
          AppendTold(Dropped(s, i), s[i], d, g, now);
      }
    }
  }

  lemma MergeRecorded<K(!new), V>(s: State<K, V>, b: Book<K, V>, now: nat)
    requires Recorded(s, b, now)
    ensures Recorded(Effect(s, MergeOther), Note(b, now, MergeOther), now + 1)
  {
    var c := Note(b, now, MergeOther);
    forall k
      ensures Has(s.here, k) <==> b.here(k).Some?
      ensures Has(s.there, k) <==> b.there(k).Some?
    {
      assert ToldKey(s.here, b.here, k) && ToldKey(s.there, b.there, k);
    }
    forall k {
      SplitHas(s.there, s.here, k);
    }
    var shared, lacking := Shared(s.there, s.here), Lacking(s.there, s.here);
    assert s.there[0..] == s.there;
    var e := SharedPart(s.there, s.here, 0);
    PartTold(shared, s.there, e, b.there, c.there, now);
    SameTold(shared, c.there, c.there, now);
    var g := k => if b.here(k).Some? then None else b.there(k);
    var h := k => Brought(now, g(k));
    e := LackingPart(s.there, s.here, 0);
    PartTold(lacking, s.there, e, b.there, g, now);
    BroughtTold(lacking, g, h, now);
    BehindTold(s.here, lacking, b.here, h, c.here, now);
  }

  lemma SpliceRecorded<K(!new), V>(s: State<K, V>, b: Book<K, V>, now: nat, k: K)
    requires Recorded(s, b, now)
    ensures Recorded(Effect(s, SpliceOther(k)), Note(b, now, SpliceOther(k)), now + 1)
  {
    var c, i := Note(b, now, SpliceOther(k)), Find(s.there, k);
    var t := Effect(s, SpliceOther(k));
    assert ToldKey(s.here, b.here, k) && ToldKey(s.there, b.there, k);
    if i < |s.there| {
      DropTold(s.there, i, b.there, c.there, now);
      SameTold(t.there, c.there, c.there, now);
      if Has(s.here, k) {
        SameTold(s.here, b.here, c.here, now);
      } else {
        AppendTold(s.here, s.there[i], b.here, c.here, now);
      }
    } else {
      SameTold(s.there, b.there, c.there, now);
      SameTold(s.here, b.here, c.here, now);
    }
  }

  lemma HandleRecorded<K(!new), V>(s: State<K, V>, b: Book<K, V>, now: nat, deed: Deed<K, V>)
    requires Recorded(s, b, now) && (deed.Extract? || deed.InsertHeld?)
    ensures Recorded(Effect(s, deed), Note(b, now, deed), now + 1)
  {
    var c := Note(b, now, deed);
    SameTold(s.there, b.there, c.there, now);
    if deed.Extract? {
      var i := Find(s.here, deed.k);
      assert ToldKey(s.here, b.here, deed.k);
      if i < |s.here| {
        DropTold(s.here, i, b.here, c.here, now);
        SameTold(Dropped(s.here, i), c.here, c.here, now);
      } else {
        SameTold(s.here, b.here, c.here, now);
      }
    } else if s.held.Some? && !Has(s.here, s.held.value.0) {
      assert ToldKey(s.here, b.here, s.held.value.0);
      AppendTold(s.here, s.held.value, b.here, c.here, now);
    } else {
      if s.held.Some? {
        assert ToldKey(s.here, b.here, s.held.value.0);
      }
      SameTold(s.here, b.here, c.here, now);
    }
  }

  lemma DeedRecorded<K(!new), V>(s: State<K, V>, b: Book<K, V>, now: nat, deed: Deed<K, V>)
    requires Recorded(s, b, now)
    ensures Recorded(Effect(s, deed), Note(b, now, deed), now + 1)
  {
    var c := Note(b, now, deed);
    match deed {
      case Own(op) =>
        OwnRecorded(s.here, b.here, c.here, now, op);
        SameTold(s.there, b.there, c.there, now);
      case Extract(_) => HandleRecorded(s, b, now, deed);
      case InsertHeld => HandleRecorded(s, b, now, deed);
      case SpliceOther(k) => SpliceRecorded(s, b, now, k);
      case MergeOther => MergeRecorded(s, b, now);
      case CopyOther =>
        BroughtTold(s.there, b.there, c.here, now);
        SameTold(s.there, b.there, c.there, now);
      case SwapOther =>
        SameTold(s.here, b.here, c.there, now);
        SameTold(s.there, b.there, c.here, now);
      case Clear =>
        SameTold(s.there, b.there, c.there, now);
    }
  }

  /** After any log, both maps hold for every key what the chronicle says, and iterate in the order of
      its stamps: each element since the insertion, move or arrival that gave it its place, and those that
      arrived together in the order that they had before. */
  lemma {:induction false} OrderTellsChronicle<K(!new), V>(log: seq<(bool, Deed<K, V>)>)
    ensures Recorded(Effects(log), Chronicle(log), |log|)
  {
    if log != [] {
      var now := |log| - 1;
      var s, b := Effects(log[..now]), Chronicle(log[..now]);
      OrderTellsChronicle(log[..now]);
      if log[now].0 {
        DeedRecorded(s, b, now, log[now].1);
      } else {
        DeedRecorded(Flipped(s), Turned(b), now, log[now].1);
      }
    }
  }

  /** Which keys are where after a deed on two maps and a handle. */
  lemma DeedKeys<K, V>(s: State<K, V>, deed: Deed<K, V>, k: K)
    requires Unique(s.here) && Unique(s.there) && !deed.Own?
    ensures var r := Effect(s, deed);
      match deed
      case Extract(e) =>
        && (Has(r.here, k) <==> Has(s.here, k) && k != e) && r.there == s.there
        && (if Has(s.here, e) then r.held.Some? && r.held.value.0 == e && r.held.value in s.here else r.held.None?)
      case InsertHeld =>
        && (Has(r.here, k) <==> Has(s.here, k) || (s.held.Some? && s.held.value.0 == k)) && r.there == s.there
        && (r.held.Some? <==> s.held.Some? && Has(s.here, s.held.value.0))
      case SpliceOther(e) =>
        && (Has(r.here, k) <==> Has(s.here, k) || (k == e && Has(s.there, e)))
        && (Has(r.there, k) <==> Has(s.there, k) && k != e) && r.held == s.held
      case MergeOther =>
        && (Has(r.here, k) <==> Has(s.here, k) || Has(s.there, k))
        && (Has(r.there, k) <==> Has(s.here, k) && Has(s.there, k)) && r.held == s.held
      case CopyOther => r == State(s.there, s.there, s.held)
      case SwapOther => r == State(s.there, s.here, s.held)
      case Clear => r == State([], s.there, s.held)
  {
    match deed {
      case Extract(e) =>
        DroppedHas(s.here, e, k);
      case InsertHeld =>
        if s.held.Some? {
          HasBehind(s.here, [s.held.value], k);
        }
      case SpliceOther(e) =>
        DroppedHas(s.there, e, k);
        if Has(s.there, e) {
          HasBehind(s.here, [s.there[Find(s.there, e)]], k);
        }
      case MergeOther =>
        SplitHas(s.there, s.here, k);
        HasBehind(s.here, Lacking(s.there, s.here), k);
      case _ =>
    }
  }

  lemma DroppedHas<K, V>(s: Listing<K, V>, e: K, k: K)
    requires Unique(s)
    ensures if Has(s, e) then Has(Dropped(s, Find(s, e)), k) <==> Has(s, k) && k != e else k == e ==> !Has(s, k)
  {
    if Has(s, e) {
      FindDropped(s, Find(s, e), k);
    }
  }

  /** So do two new maps on the heap that are put through the log. */
  method RunChronicle<K(!new, ==), V>(log: seq<(bool, Deed<K, V>)>)
      returns (a: LinkedHashMap<K, V>, b: LinkedHashMap<K, V>, held: NodeHandle<K, V>)
    ensures Apart(a, b, held) && Recorded(View(a, b, held), Chronicle(log), |log|)
  {
    a, b, held := LinkedRuns.Run(log);
    OrderTellsChronicle(log);
  }
}

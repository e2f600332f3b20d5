/** What the order of a linked map says about its past. */
module LinkedHistory {
  import opened Options
  import opened LinkedNodes
  import opened LinkedMap

  /** Operations on one map.  `insert`, `emplace` and `try_emplace` are all `Insert`; `erase` and an
      `extract` that drops the node are `Erase`; splicing a map's own node is `MoveToEnd`. */
  datatype Op<K, V> =
    | Insert(k: K, v: V)
    | InsertOrAssign(k: K, v: V)
    | Erase(k: K)
    | MoveToEnd(k: K)

  type Listing<K, V> = seq<(K, V)>

  /** Where `k` is in `s`, or the length of `s`. */
  ghost function Find<K, V>(s: Listing<K, V>, k: K): (r: nat)
    ensures r <= |s| && (r < |s| ==> s[r].0 == k) && forall i :: 0 <= i < r ==> s[i].0 != k
  {
    if s == [] then 0 else if s[0].0 == k then 0 else 1 + Find(s[1..], k)
  }

  ghost predicate Has<K, V>(s: Listing<K, V>, k: K) {
    Find(s, k) < |s|
  }

  ghost function Dropped<K, V>(s: Listing<K, V>, i: nat): Listing<K, V>
    requires i < |s|
  {
    s[..i] + s[i + 1..]
  }

  /** What an operation does to the pairs in their order. */
  ghost function Apply<K, V>(s: Listing<K, V>, op: Op<K, V>): Listing<K, V> {
    var i := Find(s, op.k);
    if i < |s| then
      match op
      case Insert(_, _) => s
      case InsertOrAssign(k, v) => s[i := (k, v)]
      case Erase(_) => Dropped(s, i)
      case MoveToEnd(_) => Dropped(s, i) + [s[i]]
    else
      match op
      case Insert(k, v) => s + [(k, v)]
      case InsertOrAssign(k, v) => s + [(k, v)]
      case _ => s
  }

  ghost function Replay<K, V>(log: seq<Op<K, V>>): Listing<K, V> {
    if log == [] then [] else Apply(Replay(log[..|log| - 1]), log[|log| - 1])
  }

  // ----- the past, read off the log alone -----

  /** When the element with key `k` got its place: the time of the insertion that created it, or of the
      last move after that; nothing if there is no such element. */
  ghost function PlacedAt<K, V>(log: seq<Op<K, V>>, k: K): Option<nat> {
    if log == [] then None
    else
      var now, op := |log| - 1, log[|log| - 1];
      var before := PlacedAt(log[..now], k);
      if op.k != k then before
      else
        match op
        case Erase(_) => None
        case MoveToEnd(_) => if before.Some? then Some(now) else None
        case _ => if before.Some? then before else Some(now)
  }

  /** The value that `k` was last given. */
  ghost function LastValue<K, V>(log: seq<Op<K, V>>, k: K): Option<V> {
    if log == [] then None
    else
      var now, op := |log| - 1, log[|log| - 1];
      var before := LastValue(log[..now], k);
      if op.k != k then before
      else
        match op
        case Erase(_) => None
        case MoveToEnd(_) => before
        case Insert(_, v) => if before.Some? then before else Some(v)
        case InsertOrAssign(_, v) => Some(v)
  }

  lemma {:induction false} PlacedIffValued<K, V>(log: seq<Op<K, V>>, k: K)
    ensures PlacedAt(log, k).Some? <==> LastValue(log, k).Some?
    ensures PlacedAt(log, k).Some? ==> PlacedAt(log, k).value < |log|
  {
    if log != [] {
      PlacedIffValued(log[..|log| - 1], k);
    }
  }

  // ----- the order tells the past -----

  ghost predicate Unique<K, V>(s: Listing<K, V>) {
    forall i, j :: 0 <= i < j < |s| ==> s[i].0 != s[j].0
  }

  /** `k` is in `s` exactly if the log leaves it, and with the value that it was last given. */
  ghost predicate TellsKey<K, V>(s: Listing<K, V>, log: seq<Op<K, V>>, k: K) {
    var i := Find(s, k);
    if i < |s| then PlacedAt(log, k).Some? && LastValue(log, k) == Some(s[i].1) else PlacedAt(log, k).None?
  }

  ghost function PlacedOf<K, V>(s: Listing<K, V>, log: seq<Op<K, V>>, i: nat): int
    requires i < |s|
  {
    var t := PlacedAt(log, s[i].0);
    if t.Some? then t.value else -1
  }

  /** The pairs of `s` are those that `log` leaves, in the order in which they got their places. */
  ghost predicate Tells<K(!new), V>(s: Listing<K, V>, log: seq<Op<K, V>>) {
    && Unique(s)
    && (forall k :: TellsKey(s, log, k))
    && (forall i, j :: 0 <= i < j < |s| ==> PlacedOf(s, log, i) < PlacedOf(s, log, j))
  }

  lemma FindIs<K, V>(s: Listing<K, V>, k: K, r: nat)
    requires r <= |s| && (r < |s| ==> s[r].0 == k) && forall i :: 0 <= i < r ==> s[i].0 != k
    ensures Find(s, k) == r
  {
  }

  lemma FindInUnique<K, V>(s: Listing<K, V>, i: nat)
    requires Unique(s) && i < |s|
    ensures Find(s, s[i].0) == i
  {
    FindIs(s, s[i].0, i);
  }

  lemma FindAppended<K, V>(s: Listing<K, V>, x: (K, V), k: K)
    ensures Find(s + [x], k) == if Find(s, k) < |s| then Find(s, k) else if k == x.0 then |s| else |s| + 1
  {
    FindIs(s + [x], k, if Find(s, k) < |s| then Find(s, k) else if k == x.0 then |s| else |s| + 1);
  }

  lemma FindDropped<K, V>(s: Listing<K, V>, i: nat, k: K)
    requires Unique(s) && i < |s|
    ensures var f, d := Find(s, k), Dropped(s, i);
      Find(d, k) == if f == i then |d| else if f < i then f else f - 1
  {
    var f, d := Find(s, k), Dropped(s, i);
    var r := if f == i then |d| else if f < i then f else f - 1;
    assert forall j :: 0 <= j < |d| ==> d[j] == s[if j < i then j else j + 1];
    FindIs(d, k, r);
  }

  /** One more operation changes nothing for the other keys. */
  lemma OtherKeys<K, V>(log: seq<Op<K, V>>, op: Op<K, V>, k: K)
    requires k != op.k
    ensures PlacedAt(log + [op], k) == PlacedAt(log, k) && LastValue(log + [op], k) == LastValue(log, k)
  {
    assert (log + [op])[..|log|] == log;
  }

  lemma AppendTells<K(!new), V>(s: Listing<K, V>, log: seq<Op<K, V>>, op: Op<K, V>, x: (K, V))
    requires Unique(s) && x.0 == op.k && Find(s, op.k) == |s|
    requires forall k :: k != op.k ==> TellsKey(s, log, k)
    requires forall i, j :: 0 <= i < j < |s| ==> PlacedOf(s, log, i) < PlacedOf(s, log, j)
    requires PlacedAt(log + [op], op.k) == Some(|log|) && LastValue(log + [op], op.k) == Some(x.1)
    ensures Tells(s + [x], log + [op])
  {
    var log', s' := log + [op], s + [x];
    forall k
      ensures TellsKey(s', log', k)
    {
      FindAppended(s, x, k);
      if k != op.k {
        assert TellsKey(s, log, k);
        OtherKeys(log, op, k);
      }
    }
    forall i | 0 <= i < |s|
      ensures PlacedOf(s', log', i) == PlacedOf(s, log, i) < |log|
    {
      OtherKeys(log, op, s[i].0);
      PlacedIffValued(log, s[i].0);
    }
    assert PlacedOf(s', log', |s|) == |log|;
  }

  lemma DropKeepsOthers<K(!new), V>(s: Listing<K, V>, log: seq<Op<K, V>>, i: nat)
    requires Tells(s, log) && i < |s|
    ensures var d := Dropped(s, i);
      && Unique(d) && Find(d, s[i].0) == |d|
      && (forall k :: k != s[i].0 ==> TellsKey(d, log, k))
      && (forall a, b :: 0 <= a < b < |d| ==> PlacedOf(d, log, a) < PlacedOf(d, log, b))
  {
    var d := Dropped(s, i);
    assert forall j :: 0 <= j < |d| ==> d[j] == s[if j < i then j else j + 1];
    FindInUnique(s, i);
    FindDropped(s, i, s[i].0);
    forall k | k != s[i].0
      ensures TellsKey(d, log, k)
    {
      assert TellsKey(s, log, k);
      FindDropped(s, i, k);
    }
    forall a, b | 0 <= a < b < |d|
      ensures PlacedOf(d, log, a) < PlacedOf(d, log, b)
    {
      var a', b' := if a < i then a else a + 1, if b < i then b else b + 1;
      assert PlacedOf(s, log, a') < PlacedOf(s, log, b');
    }
  }

  /** An operation that leaves the place of every element alone. */
  lemma SamePlacesTell<K(!new), V>(s: Listing<K, V>, s': Listing<K, V>, log: seq<Op<K, V>>, op: Op<K, V>)
    requires Unique(s) && |s'| == |s| && forall i :: 0 <= i < |s| ==> s'[i].0 == s[i].0
    requires forall i, j :: 0 <= i < j < |s| ==> PlacedOf(s, log, i) < PlacedOf(s, log, j)
    requires forall k :: k != op.k ==> TellsKey(s, log, k)
    requires forall i :: 0 <= i < |s| && s[i].0 != op.k ==> s'[i] == s[i]
    requires TellsKey(s', log + [op], op.k)
    requires Find(s, op.k) < |s| ==> PlacedAt(log + [op], op.k) == PlacedAt(log, op.k)
    ensures Tells(s', log + [op])
  {
    forall k
      ensures TellsKey(s', log + [op], k)
    {
      FindIs(s', k, Find(s, k));
      if k != op.k {
        assert TellsKey(s, log, k);
        OtherKeys(log, op, k);
      }
    }
    forall i | 0 <= i < |s|
      ensures PlacedOf(s', log + [op], i) == PlacedOf(s, log, i)
    {
      if s[i].0 != op.k {
        OtherKeys(log, op, s[i].0);
      } else {
        FindInUnique(s, i);
      }
    }
  }

  lemma StepTells<K(!new), V>(s: Listing<K, V>, log: seq<Op<K, V>>, op: Op<K, V>)
    requires Tells(s, log)
    ensures Tells(Apply(s, op), log + [op])
  {
    var log', i := log + [op], Find(s, op.k);
    assert log'[..|log|] == log;
    assert TellsKey(s, log, op.k);
    PlacedIffValued(log, op.k);
    var s' := Apply(s, op);
    if i < |s| {
      match op {
        case Erase(_) =>
          DropKeepsOthers(s, log, i);
          SamePlacesTell(s', s', log, op);
        case MoveToEnd(_) =>
          DropKeepsOthers(s, log, i);
          AppendTells(Dropped(s, i), log, op, s[i]);
        case _ =>
          FindIs(s', op.k, i);
          SamePlacesTell(s, s', log, op);
      }
    } else if op.Insert? || op.InsertOrAssign? {
      AppendTells(s, log, op, (op.k, op.v));
    } else {
      SamePlacesTell(s, s', log, op);
    }
  }

  /** After any operations the map holds, for every key, what the log says it should, and iterates in
      the order in which the surviving elements got their places. */
  lemma {:induction false} OrderTellsHistory<K(!new), V>(log: seq<Op<K, V>>)
    ensures Tells(Replay(log), log)
  {
    if log != [] {
      var before, op := log[..|log| - 1], log[|log| - 1];
      OrderTellsHistory(before);
      StepTells(Replay(before), before, op);
      assert before + [op] == log;
    }
  }

  // ----- the map itself -----

  lemma EntriesFind<K, V>(list: seq<Node<K, V>>, i: nat)
    requires UniqueKeys(list) && i < |list|
    ensures Find(Entries(list), list[i].key) == i
  {
    FindIs(Entries(list), list[i].key, i);
  }

  lemma EntriesAbsent<K, V>(list: seq<Node<K, V>>, k: K)
    requires k !in Keys(list)
    ensures Find(Entries(list), k) == |list|
  {
    assert forall i :: 0 <= i < |list| ==> list[i].key in Keys(list);
    FindIs(Entries(list), k, |list|);
  }

  lemma Located<K, V>(list: seq<Node<K, V>>, k: K)
    requires UniqueKeys(list)
    ensures var i := Find(Entries(list), k);
      && (k in Keys(list) <==> i < |list|)
      && forall n :: n in list && n.key == k ==> i < |list| && n == list[i]
  {
    if k in Keys(list) {
      var i :| 0 <= i < |list| && list[i].key == k;
      EntriesFind(list, i);
    } else {
      EntriesAbsent(list, k);
    }
  }

  lemma EntriesWithout<K, V>(list: seq<Node<K, V>>, n: Node<K, V>)
    requires UniqueKeys(list) && n in list
    ensures var i := Find(Entries(list), n.key);
      i < |list| && list[i] == n && Entries(Without(list, n)) == Dropped(Entries(list), i)
  {
    var i :| 0 <= i < |list| && list[i] == n;
    EntriesFind(list, i);
    WithoutAt(list, i);
  }

  method StepInsert<K, V>(m: LinkedHashMap<K, V>, op: Op<K, V>)
    requires m.Valid() && op.Insert?
    modifies m
    ensures m.Valid() && Entries(m.list) == Apply(old(Entries(m.list)), op)
    ensures forall n :: n in m.list ==> n in old(m.list) || fresh(n)
  {
    Located(m.list, op.k);
    var node, inserted := m.LazyEmplace(op.k, op.v);
  }

  method StepAssign<K, V>(m: LinkedHashMap<K, V>, op: Op<K, V>)
    requires m.Valid() && op.InsertOrAssign?
    modifies m, m.list
    ensures m.Valid() && Entries(m.list) == Apply(old(Entries(m.list)), op)
    ensures forall n :: n in m.list ==> n in old(m.list) || fresh(n)
  {
    Located(m.list, op.k);
    var node, inserted := m.InsertOrAssign(op.k, op.v);
  }

  method StepErase<K, V>(m: LinkedHashMap<K, V>, op: Op<K, V>)
    requires m.Valid() && op.Erase?
    modifies m
    ensures m.Valid() && Entries(m.list) == Apply(old(Entries(m.list)), op)
    ensures forall n :: n in m.list ==> n in old(m.list)
  {
    Located(m.list, op.k);
    if op.k in m.index {
      EntriesWithout(m.list, m.index[op.k]);
      WithoutMembers(m.list, m.index[op.k]);
    }
    var n := m.EraseKey(op.k);
  }

  method StepMove<K, V>(m: LinkedHashMap<K, V>, op: Op<K, V>)
    requires m.Valid() && op.MoveToEnd?
    modifies m
    ensures m.Valid() && Entries(m.list) == Apply(old(Entries(m.list)), op)
    ensures forall n :: n in m.list ==> n in old(m.list)
  {
    Located(m.list, op.k);
    var it := m.Find(op.k);
    if it != null {
      EntriesWithout(m.list, it);
      WithoutMembers(m.list, it);
      m.Splice(m, it);
    }
  }

  /** One operation on a map does to its elements what `Apply` says. */
  method Step<K, V>(m: LinkedHashMap<K, V>, op: Op<K, V>)
    requires m.Valid()
    modifies m, m.list
    ensures m.Valid() && Entries(m.list) == Apply(old(Entries(m.list)), op)
    ensures forall n :: n in m.list ==> n in old(m.list) || fresh(n)
  {
    match op {
      case Insert(_, _) => StepInsert(m, op);
      case InsertOrAssign(_, _) => StepAssign(m, op);
      case Erase(_) => StepErase(m, op);
      case MoveToEnd(_) => StepMove(m, op);
    }
  }

  /** `repr` holds the map and all its nodes. */
  ghost predicate Within<K, V>(m: LinkedHashMap<K, V>, repr: set<object>)
    reads m
  {
    m in repr && forall n :: n in m.list ==> n in repr
  }

  method StepWithin<K, V>(m: LinkedHashMap<K, V>, op: Op<K, V>, ghost repr: set<object>) returns (ghost repr': set<object>)
    requires m.Valid() && Within(m, repr)
    modifies repr
    ensures m.Valid() && Entries(m.list) == Apply(old(Entries(m.list)), op)
    ensures Within(m, repr') && fresh(repr' - repr)
  {
    Step(m, op);
    repr' := repr + (set n | n in m.list);
  }

  /** Any operations on a new map: it iterates in the order that the log tells. */
  method Run<K(!new, ==), V>(log: seq<Op<K, V>>) returns (m: LinkedHashMap<K, V>)
    ensures fresh(m) && m.Valid() && Tells(Entries(m.list), log)
  {
    m := new LinkedHashMap();
    ghost var repr: set<object> := {m};
    var i := 0;
    while i < |log|
      invariant m.Valid() && Within(m, repr) && fresh(repr) && i <= |log|
      invariant Entries(m.list) == Replay(log[..i])
    {
      repr := StepWithin(m, log[i], repr);
      assert log[..i + 1][..i] == log[..i];
      i := i + 1;
    }
    assert log[..i] == log;
    OrderTellsHistory(log);
  }
}

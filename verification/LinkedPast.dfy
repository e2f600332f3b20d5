/** The history of a linked map read off the places of a log, without replaying it. */
module LinkedPast {
  import opened Options
  import opened LinkedMap
  import opened LinkedHistory

  predicate Inserts<K(==), V>(op: Op<K, V>, k: K) {
    op.k == k && (op.Insert? || op.InsertOrAssign?)
  }

  predicate Erases<K(==), V>(op: Op<K, V>, k: K) {
    op.k == k && op.Erase?
  }

  predicate Moves<K(==), V>(op: Op<K, V>, k: K) {
    op.k == k && op.MoveToEnd?
  }

  /** `k` was inserted at `i` and has not been erased since. */
  ghost predicate Lasting<K, V>(log: seq<Op<K, V>>, k: K, i: nat) {
    i < |log| && Inserts(log[i], k) && forall j :: i < j < |log| ==> !Erases(log[j], k)
  }

  ghost predicate There<K, V>(log: seq<Op<K, V>>, k: K) {
    exists i :: Lasting(log, k, i)
  }

  /** At `t` the element with key `k` came, or was moved to the end, and it has been neither erased nor
      moved since. */
  ghost predicate Placing<K, V>(log: seq<Op<K, V>>, k: K, t: nat) {
    && t < |log|
    && (if There(log[..t], k) then Moves(log[t], k) else Inserts(log[t], k))
    && forall j :: t < j < |log| ==> !Erases(log[j], k) && !Moves(log[j], k)
  }

  ghost predicate Placed<K, V>(log: seq<Op<K, V>>, k: K) {
    exists t :: Placing(log, k, t)
  }

  /** At `t` the element with key `k` was given `v`, by an assignment or because it was not there, and it has
      been neither erased nor assigned to since. */
  ghost predicate Giving<K, V>(log: seq<Op<K, V>>, k: K, v: V, t: nat) {
    && t < |log| && Inserts(log[t], k) && log[t].v == v
    && (log[t].InsertOrAssign? || !There(log[..t], k))
    && forall j :: t < j < |log| ==> !Erases(log[j], k) && !(log[j].InsertOrAssign? && log[j].k == k)
  }

  ghost predicate Given<K, V>(log: seq<Op<K, V>>, k: K, v: V) {
    exists t :: Giving(log, k, v, t)
  }

  lemma LastingSnoc<K, V>(log: seq<Op<K, V>>, op: Op<K, V>, k: K, i: nat)
    ensures Lasting(log + [op], k, i) <==>
      if i == |log| then Inserts(op, k) else Lasting(log, k, i) && !Erases(op, k)
  {
    var all := log + [op];
    assert all[|log|] == op && forall j :: 0 <= j < |log| ==> log[j] == all[j];
  }

  lemma ThereSnoc<K, V>(log: seq<Op<K, V>>, op: Op<K, V>, k: K)
    ensures There(log + [op], k) <==> Inserts(op, k) || (There(log, k) && !Erases(op, k))
  {
    LastingSnoc(log, op, k, |log|);
    if i :| Lasting(log + [op], k, i) {
      LastingSnoc(log, op, k, i);
    }
    if i :| Lasting(log, k, i) {
      LastingSnoc(log, op, k, i);
    }
  }

  lemma PlacingSnoc<K, V>(log: seq<Op<K, V>>, op: Op<K, V>, k: K, t: nat)
    ensures Placing(log + [op], k, t) <==>
      if t == |log| then (if There(log, k) then Moves(op, k) else Inserts(op, k))
      else Placing(log, k, t) && !Erases(op, k) && !Moves(op, k)
  {
    var all := log + [op];
    assert all[|log|] == op && forall j :: 0 <= j < |log| ==> log[j] == all[j];
    if t < |log| {
      assert all[..t] == log[..t];
    } else {
      assert all[..|log|] == log;
    }
  }

  lemma GivingSnoc<K, V>(log: seq<Op<K, V>>, op: Op<K, V>, k: K, v: V, t: nat)
    ensures Giving(log + [op], k, v, t) <==>
      if t == |log| then Inserts(op, k) && op.v == v && (op.InsertOrAssign? || !There(log, k))
      else Giving(log, k, v, t) && !Erases(op, k) && !(op.InsertOrAssign? && op.k == k)
  {
    var all := log + [op];
    assert all[|log|] == op && forall j :: 0 <= j < |log| ==> log[j] == all[j];
    if t < |log| {
      assert all[..t] == log[..t];
    } else {
      assert all[..|log|] == log;
    }
  }

  lemma GivenSnoc<K, V>(log: seq<Op<K, V>>, op: Op<K, V>, k: K, v: V)
    ensures Given(log + [op], k, v) <==>
      (Inserts(op, k) && op.v == v && (op.InsertOrAssign? || !There(log, k)))
      || (Given(log, k, v) && !Erases(op, k) && !(op.InsertOrAssign? && op.k == k))
  {
    GivingSnoc(log, op, k, v, |log|);
    if t :| Giving(log + [op], k, v, t) {
      GivingSnoc(log, op, k, v, t);
    }
    if t :| Giving(log, k, v, t) {
      GivingSnoc(log, op, k, v, t);
    }
  }

  /** What the replay of a log says of a key is what the places of the log say. */
  lemma {:induction false} PlacedMeans<K, V>(log: seq<Op<K, V>>, k: K)
    ensures PlacedAt(log, k).Some? <==> There(log, k)
    ensures forall t: nat :: PlacedAt(log, k) == Some(t) <==> Placing(log, k, t)
  {
    if log != [] {
      var now := |log| - 1;
      var before, op := log[..now], log[now];
      assert log == before + [op];
      PlacedMeans(before, k);
      ThereSnoc(before, op, k);
      forall t: nat
        ensures PlacedAt(log, k) == Some(t) <==> Placing(log, k, t)
      {
        PlacingSnoc(before, op, k, t);
      }
    }
  }

  lemma {:induction false} ValueMeans<K, V>(log: seq<Op<K, V>>, k: K, v: V)
    ensures LastValue(log, k) == Some(v) <==> Given(log, k, v)
  {
    if log != [] {
      var now := |log| - 1;
      var before, op := log[..now], log[now];
      assert log == before + [op];
      ValueMeans(before, k, v);
      GivenSnoc(before, op, k, v);
      PlacedMeans(before, k);
      PlacedIffValued(before, k);
    }
  }

  /** The pairs in a map are those that were given last to keys inserted and not erased since, and they come
      in the order in which they were inserted, or last moved to the end. */
  lemma OrderIsPast<K(!new), V>(s: Listing<K, V>, log: seq<Op<K, V>>)
    requires Tells(s, log)
    ensures forall i :: 0 <= i < |s| ==> Given(log, s[i].0, s[i].1)
    ensures forall k :: There(log, k) ==> exists i :: 0 <= i < |s| && s[i].0 == k
    ensures forall i, j, t: nat, u: nat ::
      0 <= i < |s| && 0 <= j < |s| && Placing(log, s[i].0, t) && Placing(log, s[j].0, u) ==>
        (i < j <==> t < u)
    ensures forall i :: 0 <= i < |s| ==> Placed(log, s[i].0)
  {
    forall i | 0 <= i < |s|
      ensures Given(log, s[i].0, s[i].1) && PlacedOf(s, log, i) >= 0 && Placing(log, s[i].0, PlacedOf(s, log, i))
      ensures forall t: nat :: Placing(log, s[i].0, t) ==> t == PlacedOf(s, log, i)
      ensures Placed(log, s[i].0)
    {
      FindInUnique(s, i);
      assert TellsKey(s, log, s[i].0);
      ValueMeans(log, s[i].0, s[i].1);
      PlacedMeans(log, s[i].0);
      assert Placing(log, s[i].0, PlacedAt(log, s[i].0).value);
    }
    forall k | There(log, k)
      ensures exists i :: 0 <= i < |s| && s[i].0 == k
    {
      PlacedMeans(log, k);
      assert TellsKey(s, log, k);
      assert s[Find(s, k)].0 == k;
    }
  }

  /** So it is with a new map on the heap that is put through a log. */
  method RunPast<K(!new, ==), V>(log: seq<Op<K, V>>) returns (m: LinkedHashMap<K, V>)
    ensures m.Valid()
    ensures forall i :: 0 <= i < |m.list| ==> Given(log, m.list[i].key, m.list[i].value)
    ensures forall k :: There(log, k) ==> exists i :: 0 <= i < |m.list| && m.list[i].key == k
    ensures forall i, j, t: nat, u: nat ::
      0 <= i < |m.list| && 0 <= j < |m.list| && Placing(log, m.list[i].key, t) && Placing(log, m.list[j].key, u) ==>
        (i < j <==> t < u)
    ensures forall i :: 0 <= i < |m.list| ==> Placed(log, m.list[i].key)
  {
    m := Run(log);
    ghost var s := Entries(m.list);
    OrderIsPast(s, log);
    assert forall i :: 0 <= i < |s| ==> s[i] == (m.list[i].key, m.list[i].value);
  }
}

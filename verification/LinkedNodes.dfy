/** Lists of nodes with identity, as the linked containers keep them. */
module LinkedNodes {

  /** A list node.  The key never changes; the mapped value can be assigned. */
  class Node<K, V> {
    const key: K
    var value: V

    constructor (key: K, value: V)
      ensures this.key == key && this.value == value
    {
      this.key, this.value := key, value;
    }
  }

  ghost function Keys<K, V>(list: seq<Node<K, V>>): set<K> {
    set n | n in list :: n.key
  }

  ghost predicate UniqueKeys<K, V>(list: seq<Node<K, V>>) {
    forall i, j {:trigger list[i].key, list[j].key} :: 0 <= i < j < |list| ==> list[i].key != list[j].key
  }

  /** The index holds exactly the listed keys, each with its own node. */
  ghost predicate Indexed<K, V>(list: seq<Node<K, V>>, index: map<K, Node<K, V>>) {
    && (forall n :: n in list ==> n.key in index && index[n.key] == n)
    && (forall k :: k in index ==> index[k] in list && index[k].key == k)
  }

  /** The list without the first occurrence of `n`. */
  function Without<K, V>(list: seq<Node<K, V>>, n: Node<K, V>): seq<Node<K, V>> {
    if list == [] then [] else if list[0] == n then list[1..] else [list[0]] + Without(list[1..], n)
  }

  /** The list with `n` put in just before `hint`, or at the end if there is no hint. */
  function Before<K, V>(list: seq<Node<K, V>>, hint: Node?<K, V>, n: Node<K, V>): seq<Node<K, V>> {
    if list == [] then [n] else if list[0] == hint then [n] + list else [list[0]] + Before(list[1..], hint, n)
  }

  /** The node after `n`, or null at the end. */
  function After<K, V>(list: seq<Node<K, V>>, n: Node<K, V>): Node?<K, V> {
    if list == [] then null
    else if list[0] == n then (if |list| > 1 then list[1] else null)
    else After(list[1..], n)
  }

  ghost function At<K, V>(list: seq<Node<K, V>>, i: nat): Node?<K, V> {
    if i < |list| then list[i] else null
  }

  /** The nodes of `list` whose keys are in `keys`, and those whose keys are not. */
  ghost function Present<K, V>(list: seq<Node<K, V>>, keys: set<K>): seq<Node<K, V>> {
    if list == [] then []
    else (if list[0].key in keys then [list[0]] else []) + Present(list[1..], keys)
  }

  ghost function Missing<K, V>(list: seq<Node<K, V>>, keys: set<K>): seq<Node<K, V>> {
    if list == [] then []
    else (if list[0].key in keys then [] else [list[0]]) + Missing(list[1..], keys)
  }

  // ----- facts -----

  lemma {:induction false} WithoutAt<K, V>(list: seq<Node<K, V>>, i: nat)
    requires UniqueKeys(list) && i < |list|
    ensures Without(list, list[i]) == list[..i] + list[i + 1..]
    ensures After(list, list[i]) == At(list, i + 1)
  {
    if i > 0 {
      var rest := list[1..];
      assert list[0].key != list[i].key;
      WithoutAt(rest, i - 1);
      assert rest[..i - 1] == list[1..i] && rest[i..] == list[i + 1..];
      assert [list[0]] + list[1..i] == list[..i];
    }
  }

  lemma {:induction false} BeforeAt<K, V>(list: seq<Node<K, V>>, i: nat, n: Node<K, V>)
    requires UniqueKeys(list) && i <= |list|
    ensures Before(list, At(list, i), n) == list[..i] + [n] + list[i..]
  {
    if |list| > 0 && i > 0 {
      var rest := list[1..];
      if i < |list| {
        assert list[0].key != list[i].key;
      }
      BeforeAt(rest, i - 1, n);
      assert At(rest, i - 1) == At(list, i);
      assert [list[0]] + rest[..i - 1] == list[..i] && rest[i - 1..] == list[i..];
    }
  }

  lemma RemovedMembers<K, V>(list: seq<Node<K, V>>, i: nat)
    requires UniqueKeys(list) && i < |list|
    ensures var rest := list[..i] + list[i + 1..];
      && UniqueKeys(rest)
      && (forall m :: m in rest ==> m in list && m.key != list[i].key)
      && (forall m :: m in list && m != list[i] ==> m in rest)
  {
    var rest := list[..i] + list[i + 1..];
    assert forall j :: 0 <= j < |rest| ==> rest[j] == list[if j < i then j else j + 1];
    forall m | m in list && m != list[i]
      ensures m in rest
    {
      var k :| 0 <= k < |list| && list[k] == m;
      assert m == rest[if k < i then k else k - 1];
    }
  }

  lemma WithoutMembers<K, V>(list: seq<Node<K, V>>, n: Node<K, V>)
    requires UniqueKeys(list) && n in list
    ensures UniqueKeys(Without(list, n)) && |Without(list, n)| == |list| - 1
    ensures forall m :: m in Without(list, n) ==> m in list && m.key != n.key
    ensures forall m :: m in list && m != n ==> m in Without(list, n)
  {
    var i :| 0 <= i < |list| && list[i] == n;
    WithoutAt(list, i);
    RemovedMembers(list, i);
  }

  lemma RemoveKeepsIndexed<K, V>(list: seq<Node<K, V>>, index: map<K, Node<K, V>>, n: Node<K, V>)
    requires UniqueKeys(list) && Indexed(list, index) && n in list
    ensures UniqueKeys(Without(list, n)) && Indexed(Without(list, n), index - {n.key})
    ensures Keys(Without(list, n)) == Keys(list) - {n.key}
  {
    WithoutMembers(list, n);
  }

  lemma InsertMembers<K, V>(list: seq<Node<K, V>>, i: nat, n: Node<K, V>)
    requires i <= |list|
    ensures var list' := list[..i] + [n] + list[i..];
      forall m :: m in list' <==> m in list || m == n
  {
    assert list == list[..i] + list[i..];
  }

  lemma InsertKeepsUnique<K, V>(list: seq<Node<K, V>>, i: nat, n: Node<K, V>)
    requires UniqueKeys(list) && i <= |list| && forall m :: m in list ==> m.key != n.key
    ensures UniqueKeys(list[..i] + [n] + list[i..])
  {
    var list' := list[..i] + [n] + list[i..];
    assert forall j :: 0 <= j < |list'| ==> list'[j] == if j < i then list[j] else if j == i then n else list[j - 1];
  }

  lemma InsertKeepsIndexed<K, V>(list: seq<Node<K, V>>, index: map<K, Node<K, V>>, i: nat, n: Node<K, V>)
    requires UniqueKeys(list) && Indexed(list, index) && i <= |list| && n.key !in index
    ensures var list' := list[..i] + [n] + list[i..];
      UniqueKeys(list') && Indexed(list', index[n.key := n]) && Keys(list') == Keys(list) + {n.key}
  {
    InsertMembers(list, i, n);
    InsertKeepsUnique(list, i, n);
  }

  lemma IndexedKeys<K, V>(list: seq<Node<K, V>>, index: map<K, Node<K, V>>)
    requires Indexed(list, index)
    ensures index.Keys == Keys(list)
  {
  }

  /** A list has only one index. */
  lemma IndexIsUnique<K, V>(list: seq<Node<K, V>>, a: map<K, Node<K, V>>, b: map<K, Node<K, V>>)
    requires Indexed(list, a) && Indexed(list, b)
    ensures a == b
  {
    assert forall k :: k in a ==> a[k] in list && k in b && b[k] == a[k];
  }

  /** The list and its index have the same size. */
  lemma {:induction false} IndexedSize<K, V>(list: seq<Node<K, V>>, index: map<K, Node<K, V>>)
    requires UniqueKeys(list) && Indexed(list, index)
    ensures |index| == |list|
    decreases |list|
  {
    if list == [] {
      assert index == map[];
    } else {
      var n := list[0];
      assert Without(list, n) == list[1..];
      RemoveKeepsIndexed(list, index, n);
      IndexedSize(list[1..], index - {n.key});
      assert index.Keys == (index - {n.key}).Keys + {n.key};
    }
  }

  // ----- splitting a list by its keys -----

  lemma {:induction false} PresentSnoc<K, V>(list: seq<Node<K, V>>, i: nat, keys: set<K>)
    requires i < |list|
    ensures Present(list[..i + 1], keys) == Present(list[..i], keys) + (if list[i].key in keys then [list[i]] else [])
    decreases i
  {
    if i == 0 {
      assert list[..1] == [list[0]] && list[..0] == [];
    } else {
      PresentSnoc(list[1..], i - 1, keys);
      assert list[..i + 1][1..] == list[1..][..i] && list[..i][1..] == list[1..][..i - 1];
    }
  }

  lemma {:induction false} MissingSnoc<K, V>(list: seq<Node<K, V>>, i: nat, keys: set<K>)
    requires i < |list|
    ensures Missing(list[..i + 1], keys) == Missing(list[..i], keys) + (if list[i].key in keys then [] else [list[i]])
    decreases i
  {
    if i == 0 {
      assert list[..1] == [list[0]] && list[..0] == [];
    } else {
      MissingSnoc(list[1..], i - 1, keys);
      assert list[..i + 1][1..] == list[1..][..i] && list[..i][1..] == list[1..][..i - 1];
    }
  }

  lemma {:induction false} SplitMember<K, V>(list: seq<Node<K, V>>, keys: set<K>, n: Node<K, V>)
    ensures n in Present(list, keys) <==> n in list && n.key in keys
    ensures n in Missing(list, keys) <==> n in list && n.key !in keys
  {
    if list != [] {
      SplitMember(list[1..], keys, n);
      assert list == [list[0]] + list[1..];
    }
  }

  /** Nothing is lost: the two parts hold the nodes of the list, each as often. */
  lemma {:induction false} SplitConserves<K, V>(list: seq<Node<K, V>>, keys: set<K>)
    ensures multiset(Present(list, keys)) + multiset(Missing(list, keys)) == multiset(list)
  {
    if list != [] {
      SplitConserves(list[1..], keys);
      assert list == [list[0]] + list[1..];
    }
  }

  lemma SameSizeSubset<T>(a: set<T>, b: set<T>)
    requires a <= b && |a| == |b|
    ensures a == b
  {
    assert b == a + (b - a);
    assert |b - a| == 0;
  }
}

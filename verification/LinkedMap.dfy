/** The linked hash map: a list in insertion order, and an index from keys to list nodes. */
module LinkedMap {
  import opened LinkedNodes

  /** A node that has been taken out of a map, or nothing. */
  type NodeHandle<K, V> = Node?<K, V>

  class LinkedHashMap<K(==), V> {
    var list: seq<Node<K, V>>
    var index: map<K, Node<K, V>>

    /** The list and the index agree. */
    ghost predicate Valid()
      reads this
    {
      UniqueKeys(list) && Indexed(list, index)
    }

    constructor ()
      ensures Valid() && list == []
    {
      list, index := [], map[];
    }

    // ----- lookup -----

    method Find(key: K) returns (it: Node?<K, V>)
      requires Valid()
      ensures it == null <==> key !in Keys(list)
      ensures it != null ==> it in list && it.key == key
    {
      it := if key in index then index[key] else null;
    }

    method Size() returns (n: nat)
      requires Valid()
      ensures n == |list|
    {
      IndexedSize(list, index);
      n := |index|;
    }

    // ----- insertion -----

    /** `lazy_emplace`: the node is made only if the key is not there. */
    method LazyEmplace(key: K, value: V) returns (it: Node<K, V>, inserted: bool)
      requires Valid()
      modifies this
      ensures Valid() && it in list && it.key == key && inserted == (key !in old(Keys(list)))
      ensures inserted ==> fresh(it) && it.value == value && list == old(list) + [it]
      ensures !inserted ==> it in old(list) && list == old(list) && index == old(index)
    {
      if key in index {
        return index[key], false;
      }
      it := new Node(key, value);
      inserted := true;
      InsertKeepsIndexed(list, index, |list|, it);
      assert list[..|list|] + [it] + list[|list|..] == list + [it];
      list := list + [it];
      index := index[key := it];
    }

    /** The node is made first, in a list of its own, and dropped if the key is there already. */
    method Emplace(key: K, value: V) returns (it: Node<K, V>, inserted: bool)
      requires Valid()
      modifies this
      ensures Valid() && it in list && it.key == key && inserted == (key !in old(Keys(list)))
      ensures inserted ==> fresh(it) && it.value == value && list == old(list) + [it]
      ensures !inserted ==> it in old(list) && list == old(list) && index == old(index)
    {
      var node := new Node(key, value);
      var handle, position;
      position, inserted, handle := InsertNode(node);
      it := position;
    }

    method InsertOrAssign(key: K, value: V) returns (it: Node<K, V>, inserted: bool)
      requires Valid()
      modifies this, list
      ensures Valid() && it in list && it.key == key && it.value == value && inserted == (key !in old(Keys(list)))
      ensures inserted ==> fresh(it) && list == old(list) + [it]
      ensures !inserted ==> it in old(list) && list == old(list) && index == old(index)
      ensures forall n :: n in old(list) && n != it ==> n.value == old(n.value)
    {
      it, inserted := LazyEmplace(key, value);
      if !inserted {
        it.value := value;
      }
    }

    /** Inserts a node at the end, or hands it back if its key is there. */
    method InsertNode(node: NodeHandle<K, V>) returns (position: Node?<K, V>, inserted: bool, rest: NodeHandle<K, V>)
      requires Valid()
      modifies this
      ensures Valid()
      ensures inserted == (node != null && node.key !in old(Keys(list)))
      ensures inserted ==> list == old(list) + [node] && position == node && rest == null
      ensures !inserted ==> list == old(list) && index == old(index) && rest == node
      ensures !inserted ==> if node == null then position == null
                            else position != null && position in list && position.key == node.key
    {
      if node == null {
        return null, false, null;
      }
      if node.key in index {
        return index[node.key], false, node;
      }
      InsertKeepsIndexed(list, index, |list|, node);
      assert list[..|list|] + [node] + list[|list|..] == list + [node];
      list := list + [node];
      index := index[node.key := node];
      return node, true, null;
    }

    // ----- removal -----

    /** Takes a node out of the map; nothing happens to the node. */
    method Extract(position: Node<K, V>) returns (node: NodeHandle<K, V>)
      requires Valid() && position in list
      modifies this
      ensures Valid() && node == position && list == Without(old(list), position)
      ensures Keys(list) == old(Keys(list)) - {position.key}
    {
      RemoveKeepsIndexed(list, index, position);
      index := index - {position.key};
      list := Without(list, position);
      node := position;
    }

    method ExtractKey(key: K) returns (node: NodeHandle<K, V>)
      requires Valid()
      modifies this
      ensures Valid()
      ensures key !in old(Keys(list)) ==> node == null && list == old(list) && index == old(index)
      ensures key in old(Keys(list)) ==> node != null && node in old(list) && node.key == key && list == Without(old(list), node)
    {
      if key !in index {
        return null;
      }
      node := Extract(index[key]);
    }

    /** Erases a node and gives the one after it. */
    method Erase(position: Node<K, V>) returns (next: Node?<K, V>)
      requires Valid() && position in list
      modifies this
      ensures Valid() && list == Without(old(list), position) && next == After(old(list), position)
    {
      RemoveKeepsIndexed(list, index, position);
      next := After(list, position);
      index := index - {position.key};
      list := Without(list, position);
    }

    method EraseKey(key: K) returns (n: nat)
      requires Valid()
      modifies this
      ensures Valid() && n == (if key in old(Keys(list)) then 1 else 0)
      ensures n == 0 ==> list == old(list) && index == old(index)
      ensures n == 1 ==> key in old(index) && list == Without(old(list), old(index)[key])
    {
      if key !in index {
        return 0;
      }
      var next := Erase(index[key]);
      n := 1;
    }

    /** The nodes of `all` from `i` up to `k` are gone. */
    ghost predicate Erasing(all: seq<Node<K, V>>, i: nat, k: nat)
      reads this
    {
      Valid() && UniqueKeys(all) && i <= k <= |all| && list == WithoutRange(all, i, k)
    }

    /** Erases node `k` of `all`, the nodes before it back to `i` being gone already, and tells whether `j`
        is reached. */
    method EraseStep(it: Node<K, V>, ghost all: seq<Node<K, V>>, ghost i: nat, ghost k: nat, ghost j: nat) returns (next: Node?<K, V>)
      requires Erasing(all, i, k) && k < j <= |all| && it == all[k]
      modifies this
      ensures Erasing(all, i, k + 1) && next == At(all, k + 1) && (next == At(all, j) <==> k + 1 == j)
    {
      RangeStep(all, i, k);
      AtIsUnique(all, k + 1, j);
      next := Erase(it);
    }

    lemma ErasingStarts(i: nat, j: nat)
      requires Valid() && i <= j <= |list|
      ensures Erasing(list, i, i) && (At(list, i) == At(list, j) <==> i == j)
    {
      assert WithoutRange(list, i, i) == list;
      AtIsUnique(list, i, j);
    }

    /** The loop of range `erase`, from node `i` of `all` to node `j`. */
    method EraseLoop(first: Node?<K, V>, last: Node?<K, V>, ghost all: seq<Node<K, V>>, ghost i: nat, ghost j: nat) returns (it: Node?<K, V>)
      requires Erasing(all, i, i) && i <= j <= |all| && first == At(all, i) && last == At(all, j)
      requires first == last <==> i == j
      modifies this
      ensures Erasing(all, i, j) && it == last
    {
      it := first;
      ghost var k := i;
      while it != last
        invariant Erasing(all, i, k) == true
        invariant k <= j && it == At(all, k) && (it == last <==> k == j)
        decreases j - k
      {
        it := EraseStep(it, all, i, k, j);
        k := k + 1;
      }
    }

    /** Erases the nodes from `first` up to `last`, which is null for the end of the list. */
    method EraseRange(first: Node?<K, V>, last: Node?<K, V>, ghost i: nat, ghost j: nat) returns (it: Node?<K, V>)
      requires Valid() && i <= j <= |list| && first == At(list, i) && last == At(list, j)
      modifies this
      ensures Valid() && list == old(list)[..i] + old(list)[j..] && it == last
    {
      ErasingStarts(i, j);
      it := EraseLoop(first, last, list, i, j);
    }

    // ----- two maps -----

    /** Where `merge` stands after `i` nodes of `all`, the list that `src` had, `ours` being the list that
        this map had.  Of a map merged with itself, all nodes stay. */
    ghost predicate Merging(src: LinkedHashMap<K, V>, ours: seq<Node<K, V>>, all: seq<Node<K, V>>, i: nat)
      reads this, src
    {
      && Valid() && src.Valid() && UniqueKeys(all) && i <= |all|
      && (this == src ==> list == all && ours == all)
      && (this != src ==> Merged(list, src.list, ours, all, i))
    }

    /** The body of the loop of `merge`.  A node whose key is not here comes from another map. */
    method MergeStep(src: LinkedHashMap<K, V>, itr: Node<K, V>) returns (next: Node?<K, V>)
      requires Valid() && src.Valid() && itr in src.list
      modifies this, src
      ensures Valid() && src.Valid() && next == After(old(src.list), itr)
      ensures if itr.key in old(Keys(list)) then list == old(list) && src.list == old(src.list)
              else this != src && list == old(list) + [itr] && src.list == Without(old(src.list), itr)
    {
      IndexedKeys(list, index);
      next := After(src.list, itr);
      if itr.key !in index {
        var node := src.Extract(itr);
        var position, inserted, rest := InsertNode(node);
      }
    }

    /** Where the node that `merge` is at is, and what the lists are to be once it is passed. */
    lemma MergeAt(src: LinkedHashMap<K, V>, ours: seq<Node<K, V>>, all: seq<Node<K, V>>, i: nat)
      requires Merging(src, ours, all, i) && i < |all|
      ensures all[i] in src.list && After(src.list, all[i]) == At(all, i + 1)
      ensures this == src ==> all[i].key in Keys(list)
      ensures this != src && all[i].key in Keys(list) ==> Merged(list, src.list, ours, all, i + 1)
      ensures this != src && all[i].key !in Keys(list) ==> Merged(list + [all[i]], Without(src.list, all[i]), ours, all, i + 1)
    {
      if this == src {
        WithoutAt(list, i);
      } else {
        MergePlace(list, src.list, ours, all, i);
        MergeKey(ours, all, i);
      }
    }

    lemma MergeStarts(src: LinkedHashMap<K, V>)
      requires Valid() && src.Valid()
      ensures Merging(src, list, src.list, 0)
    {
      assert src.list[..0] == [] && src.list[0..] == src.list;
    }

    lemma MergeEnds(src: LinkedHashMap<K, V>, ours: seq<Node<K, V>>, all: seq<Node<K, V>>)
      requires Merging(src, ours, all, |all|)
      ensures this != src ==> list == ours + Missing(all, Keys(ours)) && src.list == Present(all, Keys(ours))
      ensures multiset(list) + multiset(src.list) == multiset(ours) + multiset(all)
    {
      assert all[..|all|] == all && all[|all|..] == [];
      SplitConserves(all, Keys(ours));
    }

    method MergeRound(src: LinkedHashMap<K, V>, itr: Node<K, V>, ghost ours: seq<Node<K, V>>, ghost all: seq<Node<K, V>>, ghost i: nat)
        returns (next: Node?<K, V>)
      requires Merging(src, ours, all, i) && i < |all| && itr == all[i]
      modifies this, src
      ensures Merging(src, ours, all, i + 1) && next == At(all, i + 1)
    {
      MergeAt(src, ours, all, i);
      next := MergeStep(src, itr);
    }

    /** The loop of `merge`. */
    method MergeAll(src: LinkedHashMap<K, V>, begin: Node?<K, V>, ghost ours: seq<Node<K, V>>, ghost all: seq<Node<K, V>>)
      requires Merging(src, ours, all, 0) && begin == At(all, 0)
      modifies this, src
      ensures Merging(src, ours, all, |all|)
    {
      var itr := begin;
      ghost var i := 0;
      while itr != null
        invariant Merging(src, ours, all, i) == true
        invariant i <= |all| && itr == At(all, i)
        decreases |all| - i
      {
        itr := MergeRound(src, itr, ours, all, i);
        i := i + 1;
      }
    }

    /** Moves the nodes of `src` whose keys are not here to the end of this map, in order. */
    method Merge(src: LinkedHashMap<K, V>)
      requires Valid() && src.Valid()
      modifies this, src
      ensures Valid() && src.Valid()
      ensures this == src ==> list == old(list) && index == old(index)
      ensures this != src ==> list == old(list) + Missing(old(src.list), old(Keys(list)))
      ensures this != src ==> src.list == Present(old(src.list), old(Keys(list)))
      ensures multiset(list) + multiset(src.list) == old(multiset(list) + multiset(src.list))
    {
      MergeStarts(src);
      MergeAll(src, if src.list == [] then null else src.list[0], list, src.list);
      MergeEnds(src, old(list), old(src.list));
      if this == src {
        IndexIsUnique(list, index, old(index));
      }
    }

    /** Moves one node: within a map to the end; from another map to the end of this one, unless the
        key is here already, in which case the node is out of both. */
    method Splice(src: LinkedHashMap<K, V>, it: Node<K, V>)
      requires Valid() && src.Valid() && it in src.list
      modifies this, src
      ensures Valid() && src.Valid()
      ensures this == src ==> list == Without(old(list), it) + [it] && index == old(index)
      ensures this != src ==> src.list == Without(old(src.list), it)
      ensures this != src ==> list == if it.key in old(Keys(list)) then old(list) else old(list) + [it]
    {
      if this == src {
        MoveKeepsIndexed(list, index, it);
        list := Without(list, it) + [it];
      } else {
        var node := src.Extract(it);
        var position, inserted, rest := InsertNode(node);
      }
    }

    /** Taking a node out and putting it in again moves it to the end, and changes nothing else. */
    method Reinsert(it: Node<K, V>)
      requires Valid() && it in list
      modifies this
      ensures Valid() && list == Without(old(list), it) + [it] && index == old(index)
    {
      MoveKeepsIndexed(list, index, it);
      var node := Extract(it);
      var position, inserted, rest := InsertNode(node);
      assert index == old(index);
    }

    /** The first `i` elements of `other` have been copied. */
    ghost predicate Copied(other: LinkedHashMap<K, V>, i: nat)
      reads this, list, other, other.list
    {
      && this != other && Valid() && other.Valid() && i == |list| <= |other.list|
      && forall j :: 0 <= j < i ==> list[j].key == other.list[j].key && list[j].value == other.list[j].value
    }

    lemma NotYetCopied(other: LinkedHashMap<K, V>, i: nat)
      requires Copied(other, i) && i < |other.list|
      ensures other.list[i].key !in Keys(list)
    {
      assert forall j :: 0 <= j < i ==> other.list[j].key != other.list[i].key;
    }

    method CopyNext(other: LinkedHashMap<K, V>, elem: Node<K, V>, ghost i: nat)
      requires Copied(other, i) && i < |other.list| && elem == other.list[i]
      modifies this
      ensures Copied(other, i + 1) && forall n :: n in list ==> n in old(list) || fresh(n)
    {
      NotYetCopied(other, i);
      var it, inserted := LazyEmplace(elem.key, elem.value);
    }

    lemma CopiedAll(other: LinkedHashMap<K, V>)
      requires Copied(other, |other.list|)
      ensures Entries(list) == Entries(other.list)
    {
    }

    method CopyLoop(other: LinkedHashMap<K, V>)
      requires Copied(other, 0)
      modifies this
      ensures Copied(other, |other.list|) && forall n :: n in list ==> fresh(n)
    {
      var i := 0;
      while i < |other.list|
        invariant Copied(other, i) == true
        invariant i <= |other.list| && forall n :: n in list ==> fresh(n)
      {
        CopyNext(other, other.list[i], i);
        i := i + 1;
      }
    }

    /** Copies the elements of `other` into a map without any. */
    method CopyFrom(other: LinkedHashMap<K, V>)
      requires this != other && Valid() && list == [] && other.Valid()
      modifies this
      ensures Valid() && Entries(list) == Entries(other.list) && forall n :: n in list ==> fresh(n)
      ensures |list| == |other.list|
      ensures forall i :: 0 <= i < |list| ==> list[i].key == other.list[i].key && list[i].value == other.list[i].value
    {
      CopyLoop(other);
      CopiedAll(other);
    }

    method Swap(other: LinkedHashMap<K, V>)
      requires Valid() && other.Valid()
      modifies this, other
      ensures Valid() && other.Valid() && list == old(other.list) && other.list == old(list)
    {
      var l, x := list, index;
      list, index := other.list, other.index;
      other.list, other.index := l, x;
    }

    method Clear()
      modifies this
      ensures Valid() && list == []
    {
      index := map[];
      list := [];
    }
  }

  /** What two lists are when the first `i` nodes of `all` have been merged into `ours`. */
  ghost predicate Merged<K, V>(list: seq<Node<K, V>>, rest: seq<Node<K, V>>, ours: seq<Node<K, V>>, all: seq<Node<K, V>>, i: nat) {
    i <= |all| && list == ours + Missing(all[..i], Keys(ours)) && rest == Present(all[..i], Keys(ours)) + all[i..]
  }

  /** The list without the nodes from `i` up to `k`. */
  function WithoutRange<K, V>(list: seq<Node<K, V>>, i: nat, k: nat): seq<Node<K, V>>
    requires i <= k <= |list|
  {
    list[..i] + list[k..]
  }

  /** Different places of a list are different iterators. */
  lemma AtIsUnique<K, V>(list: seq<Node<K, V>>, i: nat, j: nat)
    requires UniqueKeys(list) && i <= j <= |list|
    ensures At(list, i) == At(list, j) <==> i == j
  {
    assert i < j < |list| ==> list[i].key != list[j].key;
  }

  /** Erasing the first node of what is left of a range. */
  lemma RangeStep<K, V>(list: seq<Node<K, V>>, i: nat, k: nat)
    requires UniqueKeys(list) && i <= k < |list|
    ensures var rest := WithoutRange(list, i, k);
      && list[k] in rest
      && Without(rest, list[k]) == WithoutRange(list, i, k + 1)
      && After(rest, list[k]) == At(list, k + 1)
  {
    var rest := WithoutRange(list, i, k);
    assert forall m :: 0 <= m < |rest| ==> rest[m] == list[if m < i then m else m - i + k];
    assert rest[i] == list[k];
    WithoutAt(rest, i);
    assert rest[..i] == list[..i] && rest[i + 1..] == list[k + 1..];
  }

  /** The key of the node that `merge` is at is here exactly if it was here from the start. */
  lemma MergeKey<K, V>(ours: seq<Node<K, V>>, all: seq<Node<K, V>>, i: nat)
    requires UniqueKeys(all) && i < |all|
    ensures all[i].key in Keys(ours + Missing(all[..i], Keys(ours))) <==> all[i].key in Keys(ours)
  {
    var missing := Missing(all[..i], Keys(ours));
    assert forall n :: n in ours ==> n in ours + missing;
    forall n | n in missing
      ensures n.key != all[i].key
    {
      SplitMember(all[..i], Keys(ours), n);
      var j :| 0 <= j < i && all[..i][j] == n;
      assert all[j].key != all[i].key;
    }
  }

  /** The first of the nodes behind `kept`. */
  lemma FirstBehind<K, V>(kept: seq<Node<K, V>>, all: seq<Node<K, V>>, i: nat)
    requires i < |all| && UniqueKeys(kept + all[i..])
    ensures var rest := kept + all[i..];
      && all[i] in rest && After(rest, all[i]) == At(all, i + 1) && Without(rest, all[i]) == kept + all[i + 1..]
  {
    var rest := kept + all[i..];
    assert rest[|kept|] == all[i];
    WithoutAt(rest, |kept|);
    assert rest[..|kept|] == kept && rest[|kept| + 1..] == all[i + 1..];
  }

  /** Where the node that `merge` is at is in what is left of the source, and what the lists are to be
      once it is passed. */
  lemma MergePlace<K, V>(list: seq<Node<K, V>>, rest: seq<Node<K, V>>, ours: seq<Node<K, V>>, all: seq<Node<K, V>>, i: nat)
    requires i < |all| && UniqueKeys(rest) && Merged(list, rest, ours, all, i)
    ensures all[i] in rest && After(rest, all[i]) == At(all, i + 1)
    ensures all[i].key in Keys(ours) ==> Merged(list, rest, ours, all, i + 1)
    ensures all[i].key !in Keys(ours) ==> Merged(list + [all[i]], Without(rest, all[i]), ours, all, i + 1)
  {
    var keys := Keys(ours);
    FirstBehind(Present(all[..i], keys), all, i);
    PresentSnoc(all, i, keys);
    MissingSnoc(all, i, keys);
    assert all[i..] == [all[i]] + all[i + 1..];
  }

  lemma MoveKeepsIndexed<K, V>(list: seq<Node<K, V>>, index: map<K, Node<K, V>>, n: Node<K, V>)
    requires UniqueKeys(list) && Indexed(list, index) && n in list
    ensures UniqueKeys(Without(list, n) + [n]) && Indexed(Without(list, n) + [n], index)
    ensures (index - {n.key})[n.key := n] == index
  {
    WithoutMembers(list, n);
  }

  // ----- contents -----

  /** The key-value pairs of a list, in order. */
  ghost function Entries<K, V>(list: seq<Node<K, V>>): seq<(K, V)>
    reads list
  {
    seq(|list|, i requires 0 <= i < |list| reads list => (list[i].key, list[i].value))
  }

  /** What a map maps, order aside. */
  ghost function Pairs<K, V>(index: map<K, Node<K, V>>): map<K, V>
    reads index.Values
  {
    map k | k in index :: index[k].value
  }

  /** Every pair of `a` is in the map indexed by `b`. */
  ghost predicate Covered<K, V>(a: seq<Node<K, V>>, b: map<K, Node<K, V>>)
    reads a, b.Values
  {
    forall n :: n in a ==> n.key in b && b[n.key].value == n.value
  }

  /** The scan of `operator==`: looks up every element of `outer` in `inner`. */
  method Scan<K, V(==)>(outer: LinkedHashMap<K, V>, inner: LinkedHashMap<K, V>) returns (eq: bool)
    requires outer.Valid() && inner.Valid()
    ensures eq <==> Covered(outer.list, inner.index)
  {
    var i := 0;
    while i < |outer.list|
      invariant i <= |outer.list|
      invariant Covered(outer.list[..i], inner.index)
    {
      var elem := outer.list[i];
      var it := inner.Find(elem.key);
      IndexedKeys(inner.list, inner.index);
      if it == null || it.value != elem.value {
        return false;
      }
      assert outer.list[..i + 1] == outer.list[..i] + [elem];
      i := i + 1;
    }
    assert outer.list[..i] == outer.list;
    eq := true;
  }

  /** Two maps of one size are equal if the pairs of one are in the other: by the pigeonhole principle
      there is no room for more. */
  lemma PigeonHole<K, V>(a: seq<Node<K, V>>, ia: map<K, Node<K, V>>, ib: map<K, Node<K, V>>)
    requires Indexed(a, ia) && |ia| == |ib|
    ensures Covered(a, ib) <==> Pairs(ia) == Pairs(ib)
  {
    if Covered(a, ib) {
      assert ia.Keys <= ib.Keys;
      SameSizeSubset(ia.Keys, ib.Keys);
    }
    if Pairs(ia) == Pairs(ib) {
      forall n | n in a
        ensures n.key in ib && ib[n.key].value == n.value
      {
        assert Pairs(ia)[n.key] == n.value;
      }
    }
  }

  /** Every pair of `a` is in `b`. */
  ghost predicate Included<K, V>(a: seq<Node<K, V>>, b: seq<Node<K, V>>)
    reads a, b
  {
    forall n :: n in a ==> exists m :: m in b && m.key == n.key && m.value == n.value
  }

  lemma IncludedIsCovered<K, V>(a: seq<Node<K, V>>, b: seq<Node<K, V>>, ib: map<K, Node<K, V>>)
    requires Indexed(b, ib)
    ensures Included(a, b) <==> Covered(a, ib)
  {
  }

  lemma SamePairs<K, V>(a: seq<Node<K, V>>, ia: map<K, Node<K, V>>, b: seq<Node<K, V>>, ib: map<K, Node<K, V>>)
    requires Indexed(a, ia) && Indexed(b, ib)
    ensures Pairs(ia) == Pairs(ib) <==> Included(a, b) && Included(b, a)
  {
    IncludedIsCovered(a, b, ib);
    IncludedIsCovered(b, a, ia);
    if Pairs(ia) == Pairs(ib) {
      assert ia.Keys == Pairs(ia).Keys && ib.Keys == Pairs(ib).Keys;
      assert forall k :: k in ia ==> Pairs(ia)[k] == ia[k].value && Pairs(ib)[k] == ib[k].value;
    }
    if Covered(a, ib) && Covered(b, ia) {
      assert forall k :: k in ia ==> ia[k] in a && k in ib;
      assert forall k :: k in ib ==> ib[k] in b && k in ia;
    }
  }

  /** `operator==`: which map is scanned depends on the capacities, the answer does not. */
  method Equal<K, V(==)>(a: LinkedHashMap<K, V>, b: LinkedHashMap<K, V>, capacityA: nat, capacityB: nat) returns (eq: bool)
    requires a.Valid() && b.Valid()
    ensures eq <==> Pairs(a.index) == Pairs(b.index)
    ensures eq <==> Included(a.list, b.list) && Included(b.list, a.list)
  {
    SamePairs(a.list, a.index, b.list, b.index);
    if |a.index| != |b.index| {
      assert Pairs(a.index).Keys == a.index.Keys && Pairs(b.index).Keys == b.index.Keys;
      return false;
    }
    if capacityA > capacityB {
      PigeonHole(b.list, b.index, a.index);
      eq := Scan(b, a);
    } else {
      PigeonHole(a.list, a.index, b.index);
      eq := Scan(a, b);
    }
  }
}

/** The linked hash set.  Unlike the map it honours position hints. */
module LinkedSet {
  import opened LinkedNodes

  class LinkedHashSet<K(==)> {
    var list: seq<Node<K, ()>>
    var index: map<K, Node<K, ()>>

    ghost predicate Valid()
      reads this
    {
      UniqueKeys(list) && Indexed(list, index)
    }

    constructor ()
      ensures Valid() && list == []
    {
      list, index := [], map[];
    }

    /** Puts a node that is not here in just before the hint, which is null for the end. */
    method Place(hint: Node?<K, ()>, n: Node<K, ()>, ghost i: nat)
      requires Valid() && i <= |list| && hint == At(list, i) && n.key !in Keys(list)
      modifies this
      ensures Valid() && list == old(list)[..i] + [n] + old(list)[i..]
    {
      BeforeAt(list, i, n);
      IndexedKeys(list, index);
      InsertKeepsIndexed(list, index, i, n);
      list := Before(list, hint, n);
      index := index[n.key := n];
    }

    /** Inserts a key just before the hint, unless it is here already. */
    method InsertAt(hint: Node?<K, ()>, key: K, ghost i: nat) returns (it: Node<K, ()>, inserted: bool)
      requires Valid() && i <= |list| && hint == At(list, i)
      modifies this
      ensures Valid() && it in list && it.key == key && inserted == (key !in old(Keys(list)))
      ensures inserted ==> fresh(it) && list == old(list)[..i] + [it] + old(list)[i..]
      ensures !inserted ==> list == old(list) && index == old(index)
    {
      IndexedKeys(list, index);
      if key in index {
        return index[key], false;
      }
      it := new Node(key, ());
      Place(hint, it, i);
      inserted := true;
    }

    /** The same, the node being made before the set is asked. */
    method EmplaceAt(hint: Node?<K, ()>, key: K, ghost i: nat) returns (it: Node<K, ()>, inserted: bool)
      requires Valid() && i <= |list| && hint == At(list, i)
      modifies this
      ensures Valid() && it in list && it.key == key && inserted == (key !in old(Keys(list)))
      ensures inserted ==> fresh(it) && list == old(list)[..i] + [it] + old(list)[i..]
      ensures !inserted ==> list == old(list) && index == old(index)
    {
      IndexedKeys(list, index);
      it := new Node(key, ());
      if key in index {
        return index[key], false;
      }
      Place(hint, it, i);
      inserted := true;
    }

    method Extract(position: Node<K, ()>) returns (node: Node<K, ()>)
      requires Valid() && position in list
      modifies this
      ensures Valid() && node == position && list == Without(old(list), position)
      ensures index == old(index) - {position.key}
    {
      RemoveKeepsIndexed(list, index, position);
      index := index - {position.key};
      list := Without(list, position);
      node := position;
    }

    /** Inserts a node at the end, or hands it back if its key is there. */
    method InsertNode(node: Node?<K, ()>) returns (position: Node?<K, ()>, inserted: bool, rest: Node?<K, ()>)
      requires Valid()
      modifies this
      ensures Valid() && inserted == (node != null && node.key !in old(Keys(list)))
      ensures inserted ==> list == old(list) + [node] && index == old(index)[node.key := node] && position == node && rest == null
      ensures !inserted ==> list == old(list) && index == old(index) && rest == node
      ensures !inserted ==> if node == null then position == null
                            else position != null && position in list && position.key == node.key
    {
      IndexedKeys(list, index);
      if node == null {
        return null, false, null;
      }
      if node.key in index {
        return index[node.key], false, node;
      }
      InsertKeepsIndexed(list, index, |list|, node);
      assert list[..|list|] + [node] + list[|list|..] == list + [node];
      list := list + [node];
      index := index[node.key := node];
      return node, true, null;
    }

    /** Extracting a node and inserting it again gives the same elements, that one now last. */
    method Reinsert(it: Node<K, ()>)
      requires Valid() && it in list
      modifies this
      ensures Valid() && list == Without(old(list), it) + [it] && index == old(index)
    {
      WithoutMembers(list, it);
      var node := Extract(it);
      var position, inserted, rest := InsertNode(node);
      assert index == old(index);
    }
  }

  /** The scan of `operator==`. */
  method Scan<K>(outer: LinkedHashSet<K>, inner: LinkedHashSet<K>) returns (eq: bool)
    requires outer.Valid() && inner.Valid()
    ensures eq <==> Keys(outer.list) <= Keys(inner.list)
  {
    IndexedKeys(inner.list, inner.index);
    var i := 0;
    while i < |outer.list|
      invariant i <= |outer.list|
      invariant forall j :: 0 <= j < i ==> outer.list[j].key in Keys(inner.list)
    {
      if outer.list[i].key !in inner.index {
        assert outer.list[i].key in Keys(outer.list);
        return false;
      }
      i := i + 1;
    }
    eq := true;
  }

  /** `operator==`: the same elements, whatever the order and the capacities. */
  method Equal<K>(a: LinkedHashSet<K>, b: LinkedHashSet<K>, capacityA: nat, capacityB: nat) returns (eq: bool)
    requires a.Valid() && b.Valid()
    ensures eq <==> Keys(a.list) == Keys(b.list)
  {
    IndexedKeys(a.list, a.index);
    IndexedKeys(b.list, b.index);
    assert |a.index| == |a.index.Keys| && |b.index| == |b.index.Keys|;
    if |a.index| != |b.index| {
      return false;
    }
    if capacityA > capacityB {
      eq := Scan(b, a);
    } else {
      eq := Scan(a, b);
    }
    if eq && capacityA > capacityB {
      SameSizeSubset(Keys(b.list), Keys(a.list));
    } else if eq {
      SameSizeSubset(Keys(a.list), Keys(b.list));
    }
  }
}

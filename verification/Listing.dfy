/** Eviction orders: lists of keys without duplicates, oldest first. */
module Listing {

  ghost predicate NoDuplicates<K>(order: seq<K>) {
    forall i, j :: 0 <= i < j < |order| ==> order[i] != order[j]
  }

  /** The order with the first occurrence of one key taken out. */
  function Without<K(==)>(order: seq<K>, key: K): seq<K> {
    if order == [] then []
    else if order[0] == key then order[1..]
    else [order[0]] + Without(order[1..], key)
  }

  lemma {:induction false} WithoutAbsent<K>(order: seq<K>, key: K)
    ensures key !in order ==> Without(order, key) == order
    ensures |Without(order, key)| == if key in order then |order| - 1 else |order|
  {
    if order != [] && order[0] != key {
      WithoutAbsent(order[1..], key);
    }
  }

  lemma {:induction false} WithoutAt<K>(order: seq<K>, key: K, i: nat)
    requires i < |order| && order[i] == key
    requires forall j :: 0 <= j < i ==> order[j] != key
    ensures Without(order, key) == order[..i] + order[i + 1..]
  {
    if i > 0 {
      WithoutAt(order[1..], key, i - 1);
    }
  }

  lemma {:induction false} WithoutMembers<K>(order: seq<K>, key: K)
    requires NoDuplicates(order)
    ensures NoDuplicates(Without(order, key))
    ensures forall a :: a in Without(order, key) <==> a in order && a != key
  {
    if order != [] && order[0] != key {
      WithoutMembers(order[1..], key);
      assert order[0] !in order[1..];
    }
    assert order != [] ==> order == [order[0]] + order[1..];
  }

  lemma {:induction false} DistinctCount<K>(order: seq<K>)
    requires NoDuplicates(order)
    ensures |set a | a in order| == |order|
  {
    if order != [] {
      var n := |order| - 1;
      DistinctCount(order[..n]);
      assert (set a | a in order) == (set a | a in order[..n]) + {order[n]};
      assert order[n] !in (set a | a in order[..n]);
    }
  }

  /** An order that lists the keys of a map once each is as long as the map is large. */
  lemma ListingSize<K(!new), V>(order: seq<K>, entries: map<K, V>)
    requires NoDuplicates(order) && forall k :: k in order <==> k in entries
    ensures |order| == |entries|
  {
    DistinctCount(order);
    assert (set k | k in order) == entries.Keys;
  }

  /** Dropping the oldest key of an order. */
  lemma TailMembers<K>(order: seq<K>)
    requires order != [] && NoDuplicates(order)
    ensures NoDuplicates(order[1..])
    ensures forall a :: a in order[1..] <==> a in order && a != order[0]
  {
    assert order == [order[0]] + order[1..];
  }

  lemma AppendMembers<K>(order: seq<K>, key: K)
    requires NoDuplicates(order) && key !in order
    ensures NoDuplicates(order + [key])
    ensures forall a :: a in order + [key] <==> a in order || a == key
  {
  }

  /** A method's search for a key, and its removal. */
  method Remove<K(==)>(order: seq<K>, key: K) returns (r: seq<K>)
    ensures r == Without(order, key)
  {
    hide Without;
    WithoutAbsent(order, key);
    var i := 0;
    while i < |order| && order[i] != key
      invariant 0 <= i <= |order|
      invariant forall j :: 0 <= j < i ==> order[j] != key
    {
      i := i + 1;
    }
    if i < |order| {
      WithoutAt(order, key, i);
      return order[..i] + order[i + 1..];
    }
    return order;
  }
}

/** The bounded first-in-first-out tables: providerCache, flightCache and the table of
    announceCache. A key keeps its place when its value is replaced. Times are integer
    nanoseconds. */
module Caches {
  import opened Text
  import opened Listing

  datatype Table<K, V> = Table(entries: map<K, V>, order: seq<K>)

  // --------------------------------------------------------- the operations

  /** The table after the eviction loop that makes room for one more key. */
  function Evicted<K, V>(t: Table<K, V>, max: int): Table<K, V>
    decreases |t.order|
  {
    if |t.entries| >= max && |t.order| > 0
    then Evicted(Table(t.entries - {t.order[0]}, t.order[1..]), max)
    else t
  }

  function Put<K, V>(t: Table<K, V>, max: int, key: K, value: V): Table<K, V> {
    if key in t.entries then t.(entries := t.entries[key := value])
    else
      var room := Evicted(t, max);
      Table(room.entries[key := value], room.order + [key])
  }

  /** The order lists exactly the stored keys, each once. */
  ghost predicate Valid<K(!new), V>(t: Table<K, V>) {
    NoDuplicates(t.order) && forall k :: k in t.order <==> k in t.entries
  }

  // -------------------------------------------------------- one put, exactly

  /** The last `max` elements of a list, or all of them. */
  function Newest<K>(log: seq<K>, max: int): seq<K>
    requires max > 0
  {
    if |log| <= max then log else log[|log| - max..]
  }

  /** Eviction drops the oldest key of a full table, and no other. */
  lemma EvictedIs<K(!new), V>(t: Table<K, V>, max: int)
    requires Valid(t) && max > 0 && |t.order| <= max
    ensures |t.order| < max ==> Evicted(t, max) == t
    ensures |t.order| == max ==> Evicted(t, max) == Table(t.entries - {t.order[0]}, t.order[1..])
    ensures Valid(Evicted(t, max))
  {
    ListingSize(t.order, t.entries);
    if |t.order| == max {
      TailMembers(t.order);
      ListingSize(t.order[1..], t.entries - {t.order[0]});
    }
  }

  /** A put replaces in place, or appends and keeps the newest `max` keys. */
  lemma PutIs<K(!new), V>(t: Table<K, V>, max: int, key: K, value: V)
    requires Valid(t) && max > 0 && |t.order| <= max
    ensures var t' := Put(t, max, key, value);
            && Valid(t') && key in t'.entries && t'.entries[key] == value
            && t'.order == (if key in t.order then t.order else Newest(t.order + [key], max))
            && (forall k :: k in t'.entries && k != key ==> k in t.entries && t'.entries[k] == t.entries[k])
  {
    hide Evicted;
    if key !in t.entries {
      EvictedIs(t, max);
      AppendMembers(Evicted(t, max).order, key);
    }
  }

  lemma PutOrder<K(!new), V>(t: Table<K, V>, max: int, key: K, value: V)
    requires Valid(t) && max > 0 && |t.order| <= max
    ensures Valid(Put(t, max, key, value))
    ensures key in t.order ==> Put(t, max, key, value).order == t.order
    ensures key !in t.order ==> Put(t, max, key, value).order == Newest(t.order + [key], max)
  {
    PutIs(t, max, key, value);
  }

  // ---------------------------------------------------------- answer caches

  /** A cached answer and when it stops being reused. */
  datatype Answer<V> = Answer(value: V, expiresAt: int)

  function Get<K, V>(t: Table<K, Answer<V>>, key: K, now: int): Option<V> {
    if key in t.entries && now < t.entries[key].expiresAt then Some(t.entries[key].value) else None
  }

  /** providerCache, and flightCache with the found flag as part of the value. */
  class AnswerCache<K(==, !new), V> {
    var entries: map<K, Answer<V>>
    var order: seq<K>
    const ttl: int
    const max: int

    function Contents(): Table<K, Answer<V>>
      reads this
    {
      Table(entries, order)
    }

    constructor (ttl: int, max: int)
      ensures Contents() == Table(map[], []) && this.ttl == ttl && this.max == max
    {
      entries, order := map[], [];
      this.ttl, this.max := ttl, max;
    }

    method Find(key: K, now: int) returns (found: Option<V>)
      ensures found == Get(Contents(), key, now)
    {
      if key !in entries || now >= entries[key].expiresAt {
        return None;
      }
      found := Some(entries[key].value);
    }

    method Store(key: K, value: V, now: int)
      modifies this
      ensures max <= 0 ==> Contents() == old(Contents())
      ensures max > 0 ==> Contents() == Put(old(Contents()), max, key, Answer(value, now + ttl))
    {
      if max <= 0 {
        return;
      }
      if key in entries {
        entries := entries[key := Answer(value, now + ttl)];
        return;
      }
      while |entries| >= max && |order| > 0
        invariant key !in entries
        invariant Evicted(Contents(), max) == Evicted(old(Contents()), max)
        decreases |order|
      {
        var oldest := order[0];
        order := order[1..];
        entries := entries - {oldest};
      }
      entries := entries[key := Answer(value, now + ttl)];
      order := order + [key];
    }
  }

  /** One answer put into a cache. */
  datatype Given<K, V> = Given(key: K, value: V, at: int)

  function Filled<K, V>(puts: seq<Given<K, V>>, ttl: int, max: int): Table<K, Answer<V>> {
    if puts == [] || max <= 0 then Table(map[], [])
    else
      var last := puts[|puts| - 1];
      Put(Filled(puts[..|puts| - 1], ttl, max), max, last.key, Answer(last.value, last.at + ttl))
  }

  /** The keys in the order they came in, without any table: a key comes in when it is put
      and is not among the newest `max` that came in before. */
  function Arrivals<K(==), V>(puts: seq<Given<K, V>>, max: int): seq<K>
    requires max > 0
  {
    if puts == [] then []
    else
      var log := Arrivals(puts[..|puts| - 1], max);
      var key := puts[|puts| - 1].key;
      if key in Newest(log, max) then log else log + [key]
  }

  /** The last put of a key. */
  function LastPut<K(==), V>(puts: seq<Given<K, V>>, key: K): (g: Option<Given<K, V>>) {
    if puts == [] then None
    else if puts[|puts| - 1].key == key then Some(puts[|puts| - 1])
    else LastPut(puts[..|puts| - 1], key)
  }

  ghost predicate HoldsLastPuts<K(!new), V>(t: Table<K, Answer<V>>, puts: seq<Given<K, V>>, ttl: int) {
    forall k :: k in t.entries ==>
      LastPut(puts, k).Some? && t.entries[k] == Answer(LastPut(puts, k).value.value, LastPut(puts, k).value.at + ttl)
  }

  lemma NewestOfMore<K>(log: seq<K>, key: K, max: int)
    requires max > 0
    ensures Newest(Newest(log, max) + [key], max) == Newest(log + [key], max)
    ensures |Newest(log, max)| <= max
  {
  }

  /** After every run of puts a cache holds exactly the newest `max` arrivals, each with
      the last answer put for it. */
  lemma {:induction false} CacheHoldsTheNewestArrivals<K(!new), V>(puts: seq<Given<K, V>>, ttl: int, max: int)
    requires max > 0
    ensures Valid(Filled(puts, ttl, max))
    ensures Filled(puts, ttl, max).order == Newest(Arrivals(puts, max), max)
    ensures HoldsLastPuts(Filled(puts, ttl, max), puts, ttl)
  {
    RunUnfolds(puts, ttl, max);
    hide *;
    if puts != [] {
      var n := |puts| - 1;
      var last := puts[n];
      CacheHoldsTheNewestArrivals(puts[..n], ttl, max);
      var t, log := Filled(puts[..n], ttl, max), Arrivals(puts[..n], max);
      NewestOfMore(log, last.key, max);
      PutOrder(t, max, last.key, Answer(last.value, last.at + ttl));
      PutHoldsLast(t, puts, ttl, max);
    }
  }

  lemma RunUnfolds<K(!new), V>(puts: seq<Given<K, V>>, ttl: int, max: int)
    requires max > 0
    ensures puts == [] ==> Valid(Filled(puts, ttl, max)) && HoldsLastPuts(Filled(puts, ttl, max), puts, ttl)
    ensures puts == [] ==> Filled(puts, ttl, max).order == Newest(Arrivals(puts, max), max)
    ensures puts != [] ==> var n := |puts| - 1; var last := puts[n];
      Filled(puts, ttl, max) == Put(Filled(puts[..n], ttl, max), max, last.key, Answer(last.value, last.at + ttl))
    ensures puts != [] ==> var n := |puts| - 1; var log := Arrivals(puts[..n], max);
      Arrivals(puts, max) == if puts[n].key in Newest(log, max) then log else log + [puts[n].key]
  {
    hide Put;
  }

  lemma PutHoldsLast<K(!new), V>(t: Table<K, Answer<V>>, puts: seq<Given<K, V>>, ttl: int, max: int)
    requires Valid(t) && max > 0 && |t.order| <= max
    requires puts != [] && HoldsLastPuts(t, puts[..|puts| - 1], ttl)
    ensures var last := puts[|puts| - 1];
            HoldsLastPuts(Put(t, max, last.key, Answer(last.value, last.at + ttl)), puts, ttl)
  {
    hide Put, LastPut;
    LastPutUnfolds(puts);
    var last := puts[|puts| - 1];
    PutIs(t, max, last.key, Answer(last.value, last.at + ttl));
    hide Valid;
  }

  lemma LastPutUnfolds<K(!new), V>(puts: seq<Given<K, V>>)
    requires puts != []
    ensures forall k :: LastPut(puts, k)
                     == if puts[|puts| - 1].key == k then Some(puts[|puts| - 1]) else LastPut(puts[..|puts| - 1], k)
  {
  }

  /** A lookup hits exactly when the key is among the newest arrivals and its last answer
      has not expired, and then gives that answer. */
  lemma HitExactlyWhen<K(!new), V>(puts: seq<Given<K, V>>, ttl: int, max: int, key: K, now: int)
    requires max > 0
    ensures Get(Filled(puts, ttl, max), key, now).Some?
       <==> (&& key in Newest(Arrivals(puts, max), max)
             && LastPut(puts, key).Some? && now < LastPut(puts, key).value.at + ttl)
    ensures Get(Filled(puts, ttl, max), key, now).Some?
        ==> Get(Filled(puts, ttl, max), key, now) == Some(LastPut(puts, key).value.value)
  {
    hide Filled, Newest, Arrivals, LastPut;
    CacheHoldsTheNewestArrivals(puts, ttl, max);
  }

  /** Within its capacity, after every run. */
  lemma CacheStaysWithin<K(!new), V>(puts: seq<Given<K, V>>, ttl: int, max: int)
    requires max > 0
    ensures |Filled(puts, ttl, max).entries| <= max
  {
    hide Filled, Arrivals;
    CacheHoldsTheNewestArrivals(puts, ttl, max);
    ListingSize(Filled(puts, ttl, max).order, Filled(puts, ttl, max).entries);
  }
}

/** The announce table: announceCache's store, prune and lookup. */
module Announces {
  import opened Text
  import opened Listing
  import opened Caches

  const MAX_ENTRIES := 4096
  const ANNOUNCE_TTL := 24 * 3600 * 1_000_000_000
  const MAX_HASH_PREFIX := 64
  const MIN_FILTER := 2

  datatype Dest = Dest(hex: string)

  datatype Announce = Announce(dest: Dest, identity: string, name: string, at: int)

  type Heard = Table<Dest, Announce>

  const NOTHING: Heard := Table(map[], [])

  // --------------------------------------------------------- the operations

  function Store(t: Heard, a: Announce): Heard {
    Put(t, MAX_ENTRIES, a.dest, a)
  }

  predicate Fresh(a: Announce, now: int) {
    a.at > now - ANNOUNCE_TTL
  }

  predicate Survives(t: Heard, key: Dest, now: int) {
    key in t.entries && Fresh(t.entries[key], now)
  }

  function Kept(t: Heard, order: seq<Dest>, now: int): seq<Dest> {
    if order == [] then []
    else
      var last := order[|order| - 1];
      var kept := Kept(t, order[..|order| - 1], now);
      if Survives(t, last, now) then kept + [last] else kept
  }

  function Prune(t: Heard, now: int): Heard {
    Table(map k | k in t.entries && !(k in t.order && !Survives(t, k, now)) :: t.entries[k], Kept(t, t.order, now))
  }

  /** What is stored after pruning has looked at the first `n` keys. */
  ghost function Remaining(t: Heard, n: nat, now: int): map<Dest, Announce>
    requires n <= |t.order|
  {
    map k | k in t.entries && !(k in t.order[..n] && !Survives(t, k, now)) :: t.entries[k]
  }

  lemma KeptStarts(t: Heard, now: int)
    ensures Kept(t, t.order[..0], now) == [] && Remaining(t, 0, now) == t.entries
    ensures Remaining(t, |t.order|, now) == Prune(t, now).entries
  {
    assert t.order[..|t.order|] == t.order;
  }

  /** Pruning looks at one more key. */
  lemma KeptStep(t: Heard, i: nat, now: int)
    requires i < |t.order|
    ensures var key, left := t.order[i], Remaining(t, i, now);
            && (key in left && left[key].at > now - ANNOUNCE_TTL <==> Survives(t, key, now))
            && Remaining(t, i + 1, now) == (if Survives(t, key, now) then left else left - {key})
    ensures var kept := Kept(t, t.order[..i], now);
            Kept(t, t.order[..i + 1], now) == if Survives(t, t.order[i], now) then kept + [t.order[i]] else kept
  {
    assert t.order[..i + 1] == t.order[..i] + [t.order[i]];
    assert t.order[..i + 1][..i] == t.order[..i];
  }

  predicate IsHex(s: string) {
    s != [] && forall i :: 0 <= i < |s| ==> IsDigit(s[i]) || 'a' <= s[i] <= 'f' || 'A' <= s[i] <= 'F'
  }

  predicate Contains(s: string, part: string) {
    exists i :: 0 <= i <= |s| && part <= s[i..]
  }

  /** announceMatches. */
  predicate Matches(a: Announce, lower: string) {
    || (a.name != "" && Contains(ToLower(a.name), lower))
    || (|lower| >= MIN_FILTER && IsHex(lower) && (lower <= a.dest.hex || lower <= a.identity))
  }

  /** A token a lookup looks for at all. */
  predicate Usable(token: string) {
    0 < |TrimSpace(token)| <= MAX_HASH_PREFIX
  }

  ghost predicate Candidate(t: Heard, token: string, k: Dest) {
    Usable(token) && k in t.entries && Matches(t.entries[k], ToLower(TrimSpace(token)))
  }

  class AnnounceTable {
    var entries: map<Dest, Announce>
    var order: seq<Dest>

    function Contents(): Heard
      reads this
    {
      Table(entries, order)
    }

    constructor ()
      ensures Contents() == NOTHING
    {
      entries, order := map[], [];
    }

    method StoreOne(a: Announce)
      modifies this
      ensures Contents() == Store(old(Contents()), a)
    {
      if a.dest !in entries {
        while |entries| >= MAX_ENTRIES && |order| > 0
          invariant a.dest !in entries
          invariant Evicted(Contents(), MAX_ENTRIES) == Evicted(old(Contents()), MAX_ENTRIES)
          decreases |order|
        {
          var oldest := order[0];
          order := order[1..];
          entries := entries - {oldest};
        }
        order := order + [a.dest];
      }
      entries := entries[a.dest := a];
    }

    method PruneOld(now: int)
      modifies this
      ensures Contents() == Prune(old(Contents()), now)
    {
      hide Kept, Survives;
      ghost var before := Contents();
      var kept: seq<Dest> := [];
      KeptStarts(before, now);
      for i := 0 to |order|
        invariant order == before.order && kept == Kept(before, order[..i], now)
        invariant entries == Remaining(before, i, now)
      {
        var key := order[i];
        KeptStep(before, i, now);
        if key in entries && entries[key].at > now - ANNOUNCE_TTL {
          kept := kept + [key];
        } else {
          entries := entries - {key};
        }
      }
      assert order[..|order|] == order;
      order := kept;
    }

    /** lookup: the entries are visited in no particular order. */
    method Lookup(token: string) returns (best: Option<Announce>)
      ensures best.None? <==> forall k :: !Candidate(Contents(), token, k)
      ensures best.Some? ==> exists k :: Candidate(Contents(), token, k) && entries[k] == best.value
      ensures best.Some? ==> forall k :: Candidate(Contents(), token, k) ==> entries[k].at <= best.value.at
    {
      hide Matches;
      var trimmed := TrimSpace(token);
      if trimmed == "" || |trimmed| > MAX_HASH_PREFIX {
        return None;
      }
      var lower := ToLower(trimmed);
      best := None;
      var unseen := entries.Keys;
      while unseen != {}
        invariant unseen <= entries.Keys
        invariant best.None? ==> forall k :: Candidate(Contents(), token, k) ==> k in unseen
        invariant best.Some? ==> exists k :: Candidate(Contents(), token, k) && entries[k] == best.value
        invariant best.Some? ==>
                    forall k :: Candidate(Contents(), token, k) ==> k in unseen || entries[k].at <= best.value.at
        decreases |unseen|
      {
        var k :| k in unseen;
        unseen := unseen - {k};
        if Matches(entries[k], lower) {
          assert Candidate(Contents(), token, k);
          if best.None? || entries[k].at > best.value.at {
            best := Some(entries[k]);
          }
        }
      }
    }
  }

  // ------------------------------------------------------------- whole runs

  datatype Op = DoStore(a: Announce) | DoPrune(now: int)

  function Step(t: Heard, op: Op): Heard {
    match op
    case DoStore(a) => Store(t, a)
    case DoPrune(now) => Prune(t, now)
  }

  function After(ops: seq<Op>): Heard {
    if ops == [] then NOTHING else Step(After(ops[..|ops| - 1]), ops[|ops| - 1])
  }

  /** A table without a bound: the latest announce of every destination, less what was
      pruned. */
  function Ideal(ops: seq<Op>): map<Dest, Announce> {
    if ops == [] then map[]
    else
      var m := Ideal(ops[..|ops| - 1]);
      match ops[|ops| - 1]
      case DoStore(a) => m[a.dest := a]
      case DoPrune(now) => map k | k in m && Fresh(m[k], now) :: m[k]
  }

  /** The shape every run keeps: a listing within the bound, holding only what the
      unbounded table holds. */
  ghost predicate Sound(t: Heard, m: map<Dest, Announce>) {
    && Valid(t)
    && |t.order| <= MAX_ENTRIES
    && forall k :: k in t.entries ==> k in m && t.entries[k] == m[k]
  }

  lemma {:induction false} KeptMembers(t: Heard, order: seq<Dest>, now: int)
    requires NoDuplicates(order)
    ensures NoDuplicates(Kept(t, order, now)) && |Kept(t, order, now)| <= |order|
    ensures forall k :: k in Kept(t, order, now) <==> k in order && Survives(t, k, now)
  {
    if order != [] {
      var n := |order| - 1;
      KeptMembers(t, order[..n], now);
      assert order == order[..n] + [order[n]];
      assert order[n] !in order[..n];
    }
  }

  lemma StoreIsSound(t: Heard, m: map<Dest, Announce>, a: Announce)
    requires Sound(t, m)
    ensures Sound(Store(t, a), m[a.dest := a])
  {
    hide Put, Newest, Valid;
    PutIs(t, MAX_ENTRIES, a.dest, a);
    NewestOfMore(t.order + [a.dest], a.dest, MAX_ENTRIES);
  }

  /** A store into a table with room for it forgets nothing. */
  lemma StoreWithRoom(t: Heard, a: Announce)
    requires Valid(t) && |t.order| <= MAX_ENTRIES
    requires |t.entries[a.dest := a]| <= MAX_ENTRIES
    ensures Store(t, a).entries == t.entries[a.dest := a]
  {
    hide Evicted;
    ListingSize(t.order, t.entries);
    if a.dest !in t.entries {
      assert t.entries[a.dest := a].Keys == t.entries.Keys + {a.dest};
      EvictedIs(t, MAX_ENTRIES);
    }
  }

  lemma PruneIsSound(t: Heard, m: map<Dest, Announce>, now: int)
    requires Sound(t, m)
    ensures var pruned := map k | k in m && Fresh(m[k], now) :: m[k];
            && Sound(Prune(t, now), pruned)
            && (t.entries == m ==> Prune(t, now).entries == pruned)
  {
    KeptMembers(t, t.order, now);
  }

  /** After every run the table is a duplicate-free listing of at most 4096 destinations,
      and each entry is the latest announce of its destination since it was last pruned. */
  lemma {:induction false} TableIsSound(ops: seq<Op>)
    ensures Sound(After(ops), Ideal(ops))
  {
    if ops != [] {
      hide Store, Prune;
      var n := |ops| - 1;
      TableIsSound(ops[..n]);
      match ops[n] {
        case DoStore(a) => StoreIsSound(After(ops[..n]), Ideal(ops[..n]), a);
        case DoPrune(now) => PruneIsSound(After(ops[..n]), Ideal(ops[..n]), now);
      }
    }
  }

  /** While the unbounded table fits, nothing is lost: the two hold the same. */
  lemma {:induction false} TableIsExactWhileItFits(ops: seq<Op>)
    requires forall i :: 0 <= i <= |ops| ==> |Ideal(ops[..i])| <= MAX_ENTRIES
    ensures After(ops).entries == Ideal(ops)
  {
    if ops != [] {
      var n := |ops| - 1;
      forall i | 0 <= i <= n ensures |Ideal(ops[..n][..i])| <= MAX_ENTRIES { assert ops[..n][..i] == ops[..i]; }
      assert ops[..n + 1] == ops;
      hide Store, Prune;
      TableIsExactWhileItFits(ops[..n]);
      TableIsSound(ops[..n]);
      match ops[n] {
        case DoStore(a) => StoreWithRoom(After(ops[..n]), a);
        case DoPrune(now) => PruneIsSound(After(ops[..n]), Ideal(ops[..n]), now);
      }
    }
  }

  /** A prune keeps exactly the announces of the last day, as they were. */
  lemma PruneKeepsExactly(ops: seq<Op>, now: int)
    ensures var before, after := After(ops).entries, Prune(After(ops), now).entries;
            && (forall k :: k in after <==> k in before && before[k].at > now - 86_400_000_000_000)
            && (forall k :: k in after ==> after[k] == before[k])
  {
    hide After;
    TableIsSound(ops);
  }

  /** The table never lists more than 4096 destinations, and lists each it stores once. */
  lemma TableIsBounded(ops: seq<Op>)
    ensures |After(ops).entries| == |After(ops).order| <= 4096
    ensures forall k :: k in After(ops).entries <==> k in After(ops).order
  {
    hide After;
    TableIsSound(ops);
    ListingSize(After(ops).order, After(ops).entries);
  }

  // --------------------------------------------------------- what a lookup finds

  ghost predicate Around(s: string, before: string, part: string, after: string) {
    s == before + part + after
  }

  lemma ContainsIs(s: string, part: string)
    ensures Contains(s, part) <==> exists before, after :: Around(s, before, part, after)
  {
    if Contains(s, part) {
      var i :| 0 <= i <= |s| && part <= s[i..];
      assert s[i..] == part + s[i + |part|..];
      assert Around(s, s[..i], part, s[i + |part|..]);
    }
    if exists before, after :: Around(s, before, part, after) {
      var before, after :| Around(s, before, part, after);
      assert s[|before|..] == part + after;
    }
  }

  lemma LowerHex(s: string)
    requires s != []
    ensures IsHex(ToLower(s)) <==> forall i :: 0 <= i < |s| ==> ToLower(s)[i] in "0123456789abcdef"
  {
    forall i | 0 <= i < |s|
      ensures (IsDigit(ToLower(s)[i]) || 'a' <= ToLower(s)[i] <= 'f' || 'A' <= ToLower(s)[i] <= 'F')
         <==> ToLower(s)[i] in "0123456789abcdef"
    {
      LowerHexChar(s[i]);
    }
  }

  lemma LowerHexChar(c: char)
    ensures var l := LowerChar(c);
            IsDigit(l) || 'a' <= l <= 'f' || 'A' <= l <= 'F' <==> l in "0123456789abcdef"
  {
    var digits := "0123456789abcdef";
    var l := LowerChar(c);
    if '0' <= l <= '9' {
      assert digits[(l - '0') as int] == l;
    } else if 'a' <= l <= 'f' {
      assert digits[10 + (l - 'a') as int] == l;
    }
  }

  /** A token of 1 to 64 characters finds an announce exactly when, in lower case, it is a
      part of the announced name in lower case, or is two or more hexadecimal digits that
      the hash of the destination or of the identity starts with. */
  lemma FoundExactlyWhen(t: Heard, token: string, k: Dest)
    ensures var trimmed := TrimSpace(token);
            var lower := ToLower(trimmed);
            Candidate(t, token, k) <==>
              && k in t.entries && 1 <= |trimmed| <= 64
              && (var a := t.entries[k];
                  || (exists before, after :: Around(ToLower(a.name), before, lower, after))
                  || (&& |lower| >= 2
                      && (forall i :: 0 <= i < |lower| ==> lower[i] in "0123456789abcdef")
                      && (lower <= a.dest.hex || lower <= a.identity)))
  {
    hide TrimSpace, Contains, IsHex;
    var trimmed := TrimSpace(token);
    if k in t.entries && trimmed != [] {
      ContainsIs(ToLower(t.entries[k].name), ToLower(trimmed));
      LowerHex(trimmed);
    }
  }

  // ------------------------------------------------- the order is that of arrival

  /** When the present stay of a destination began: the operation that brought it in, and
      since which neither eviction nor a prune took it out; -1 when it is not stored. */
  ghost function Arrived(ops: seq<Op>, dest: Dest): (k: int)
    ensures -1 <= k < |ops|
  {
    if ops == [] || dest !in After(ops).entries then -1
    else if dest in After(ops[..|ops| - 1]).entries then Arrived(ops[..|ops| - 1], dest)
    else |ops| - 1
  }

  /** Earlier come, earlier in the order. */
  ghost predicate ByArrival(order: seq<Dest>, ops: seq<Op>) {
    forall i, j :: 0 <= i < j < |order| ==> Arrived(ops, order[i]) < Arrived(ops, order[j])
  }

  lemma {:induction false} KeptByArrival(t: Heard, order: seq<Dest>, now: int, ops: seq<Op>)
    requires NoDuplicates(order) && ByArrival(order, ops)
    ensures ByArrival(Kept(t, order, now), ops)
  {
    hide Arrived;
    if order != [] {
      var n := |order| - 1;
      KeptByArrival(t, order[..n], now, ops);
      KeptMembers(t, order[..n], now);
      var kept := Kept(t, order[..n], now);
      forall i | 0 <= i < |kept| ensures Arrived(ops, kept[i]) < Arrived(ops, order[n]) {
        assert kept[i] in kept;
        var k :| 0 <= k < n && order[..n][k] == kept[i];
        assert order[k] == kept[i];
      }
    }
  }

  /** Who stays keeps the time of its arrival. */
  lemma StaysByArrival(order: seq<Dest>, before: seq<Op>, op: Op)
    requires ByArrival(order, before)
    requires forall i :: 0 <= i < |order| ==>
               order[i] in After(before).entries && order[i] in After(before + [op]).entries
    ensures ByArrival(order, before + [op])
  {
    hide Arrived;
    forall i | 0 <= i < |order| ensures Arrived(before + [op], order[i]) == Arrived(before, order[i]) {
      ArrivedMore(before, op, order[i]);
    }
  }

  lemma ArrivedMore(before: seq<Op>, op: Op, dest: Dest)
    requires dest in After(before + [op]).entries
    ensures Arrived(before + [op], dest) == if dest in After(before).entries then Arrived(before, dest) else |before|
  {
    hide After;
    assert (before + [op])[..|before|] == before;
  }

  lemma AfterMore(before: seq<Op>, op: Op)
    ensures After(before + [op]) == Step(After(before), op)
  {
    assert (before + [op])[..|before|] == before;
  }

  /** A newcomer stands behind everybody who stays. */
  lemma NewcomerByArrival(stay: seq<Dest>, before: seq<Op>, op: Op, dest: Dest)
    requires ByArrival(stay, before)
    requires forall i :: 0 <= i < |stay| ==> stay[i] in After(before).entries && stay[i] in After(before + [op]).entries
    requires dest !in After(before).entries && dest in After(before + [op]).entries
    ensures ByArrival(stay + [dest], before + [op])
  {
    hide Arrived, After;
    StaysByArrival(stay, before, op);
    ArrivedMore(before, op, dest);
    forall i | 0 <= i < |stay| ensures Arrived(before + [op], stay[i]) < |before| { ArrivedMore(before, op, stay[i]); }
  }

  lemma StoreByArrival(before: seq<Op>, a: Announce)
    requires ByArrival(After(before).order, before)
    ensures ByArrival(After(before + [DoStore(a)]).order, before + [DoStore(a)])
  {
    hide Arrived, After, Put, NoDuplicates, ByArrival;
    var t, op := After(before), DoStore(a);
    var ops := before + [op];
    TableIsSound(before);
    TableIsSound(ops);
    AfterMore(before, op);
    PutOrder(t, MAX_ENTRIES, a.dest, a);
    var order := After(ops).order;
    assert forall i :: 0 <= i < |order| ==> order[i] in order;
    if a.dest in t.order {
      StaysByArrival(order, before, op);
    } else {
      var cut := |t.order| + 1 - |order|;
      TailByArrival(t.order, cut, before);
      var stay := t.order[cut..];
      assert order == stay + [a.dest];
      assert forall i :: 0 <= i < |stay| ==> stay[i] == t.order[cut + i] && stay[i] == order[i];
      assert order[|stay|] == a.dest;
      NewcomerByArrival(stay, before, op, a.dest);
    }
  }

  lemma TailByArrival(order: seq<Dest>, cut: nat, ops: seq<Op>)
    requires cut <= |order| && ByArrival(order, ops)
    ensures ByArrival(order[cut..], ops)
  {
    hide Arrived;
  }

  lemma PruneByArrival(before: seq<Op>, now: int)
    requires ByArrival(After(before).order, before)
    ensures ByArrival(After(before + [DoPrune(now)]).order, before + [DoPrune(now)])
  {
    hide Arrived, After;
    var t, op := After(before), DoPrune(now);
    TableIsSound(before);
    TableIsSound(before + [op]);
    AfterMore(before, op);
    KeptByArrival(t, t.order, now, before);
    KeptMembers(t, t.order, now);
    var order := After(before + [op]).order;
    assert forall i :: 0 <= i < |order| ==> order[i] in order;
    StaysByArrival(order, before, op);
  }

  /** After every run of stores and prunes the order lists the destinations by the start of
      their present stay. */
  lemma {:induction false} OrderIsByArrival(ops: seq<Op>)
    ensures ByArrival(After(ops).order, ops)
  {
    if ops != [] {
      hide After, ByArrival;
      var before, op := ops[..|ops| - 1], ops[|ops| - 1];
      OrderIsByArrival(before);
      assert ops == before + [op];
      match op {
        case DoStore(a) => StoreByArrival(before, a);
        case DoPrune(now) => PruneByArrival(before, now);
      }
    }
  }

  /** A full table forgets nothing for a destination it holds, and for a new one exactly the
      destination whose stay is the longest. */
  lemma FullTableForgetsTheFirst(ops: seq<Op>, a: Announce)
    requires |After(ops).order| == MAX_ENTRIES
    ensures a.dest in After(ops).entries ==> Store(After(ops), a).order == After(ops).order
    ensures a.dest !in After(ops).entries ==> Store(After(ops), a).order == After(ops).order[1..] + [a.dest]
    ensures forall k :: k in After(ops).entries && k != After(ops).order[0] ==>
              Arrived(ops, After(ops).order[0]) < Arrived(ops, k)
  {
    hide After, Arrived;
    TableIsSound(ops);
    EvictedIs(After(ops), MAX_ENTRIES);
    OrderIsByArrival(ops);
    forall k | k in After(ops).entries && k != After(ops).order[0]
      ensures Arrived(ops, After(ops).order[0]) < Arrived(ops, k)
    {
      assert k in After(ops).order;
      var i :| 0 <= i < |After(ops).order| && After(ops).order[i] == k;
    }
  }
}

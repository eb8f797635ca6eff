/** The table that remembers each requester's next page (bot/paginate.go): bounded,
    expiring, and answering a page turn at most once. Times are integer nanoseconds. */
module Pager {
  import opened Text
  import opened Listing

  const PAGER_TTL := 300_000_000_000
  const PAGER_MAX := 256

  /** A requester's identity hash, trimmed. */
  datatype Key = Key(hash: string)

  datatype PagerNext = PagerNext(cmd: string, lines: seq<string>)

  datatype Entry = Entry(next: PagerNext, at: int)

  /** The fields of PagerSession. */
  datatype Table = Table(entries: map<Key, Entry>, order: seq<Key>, ttl: int, maxEntries: int)

  const EMPTY := Table(map[], [], PAGER_TTL, PAGER_MAX)

  // --------------------------------------------------------- the operations

  predicate Stale(e: Entry, now: int, ttl: int) {
    ttl > 0 && e.at < now - ttl
  }

  /** The keys of an order that still have an entry no older than the ttl. */
  function Kept(t: Table, order: seq<Key>, now: int): seq<Key> {
    if order == [] then []
    else
      var last := order[|order| - 1];
      var kept := Kept(t, order[..|order| - 1], now);
      if last in t.entries && !Stale(t.entries[last], now, t.ttl) then kept + [last] else kept
  }

  function Expire(t: Table, now: int): Table {
    if t.ttl <= 0 then t
    else
      t.(order := Kept(t, t.order, now),
         entries := map k | k in t.entries && !(k in t.order && Stale(t.entries[k], now, t.ttl)) :: t.entries[k])
  }

  function Evict(t: Table): Table
    decreases |t.order|
  {
    if t.maxEntries > 0 && |t.entries| > t.maxEntries && |t.order| > 0
    then Evict(t.(order := t.order[1..], entries := t.entries - {t.order[0]}))
    else t
  }

  /** The table with one entry recorded, before eviction. */
  function Recorded(t: Table, key: Key, e: Entry): Table {
    t.(order := if key in t.entries then t.order else t.order + [key],
       entries := t.entries[key := e])
  }

  function Save(t: Table, key: Key, next: PagerNext, now: int): Table {
    Evict(Recorded(Expire(t, now), key, Entry(next, now)))
  }

  function PopNext(t: Table, key: Key, now: int): (Option<PagerNext>, Table) {
    var alive := Expire(t, now);
    if key in alive.entries
    then (Some(alive.entries[key].next),
          alive.(entries := alive.entries - {key}, order := Without(alive.order, key)))
    else (None, alive)
  }

  class PagerSession {
    var entries: map<Key, Entry>
    var order: seq<Key>
    const ttl: int
    const maxEntries: int

    function Value(): Table
      reads this
    {
      Table(entries, order, ttl, maxEntries)
    }

    constructor ()
      ensures Value() == EMPTY
    {
      entries, order := map[], [];
      ttl, maxEntries := PAGER_TTL, PAGER_MAX;
    }

    method ExpireLocked(now: int)
      modifies this
      ensures Value() == Expire(old(Value()), now)
    {
      if ttl <= 0 {
        return;
      }
      ghost var before := Value();
      var kept: seq<Key> := [];
      var i := 0;
      while i < |order|
        invariant 0 <= i <= |order| && order == before.order
        invariant kept == Kept(before, order[..i], now)
        invariant forall k :: k in entries <==>
                    k in before.entries && !(k in order[..i] && Stale(before.entries[k], now, ttl))
        invariant forall k :: k in entries ==> entries[k] == before.entries[k]
      {
        var key := order[i];
        assert order[..i + 1] == order[..i] + [key];
        assert order[..i + 1][..i] == order[..i];
        if key in entries {
          if entries[key].at < now - ttl {
            entries := entries - {key};
          } else {
            kept := kept + [key];
          }
        }
        i := i + 1;
      }
      assert order[..i] == order;
      order := kept;
      assert entries == Expire(before, now).entries;
    }

    method EvictLocked()
      modifies this
      ensures Value() == Evict(old(Value()))
    {
      if maxEntries <= 0 {
        return;
      }
      while |entries| > maxEntries && |order| > 0
        invariant Evict(Value()) == Evict(old(Value()))
        decreases |order|
      {
        var key := order[0];
        order := order[1..];
        entries := entries - {key};
      }
    }

    /** Save; a requester without an identity is refused. */
    method SavePage(requester: string, cmd: string, lines: seq<string>, now: int)
      modifies this
      ensures var key := Key(TrimSpace(requester));
              Value() == if key.hash == "" then old(Value()) else Save(old(Value()), key, PagerNext(cmd, lines), now)
    {
      var key := Key(TrimSpace(requester));
      if key.hash == "" {
        return;
      }
      ExpireLocked(now);
      if key !in entries {
        order := order + [key];
      }
      entries := entries[key := Entry(PagerNext(cmd, lines), now)];
      EvictLocked();
    }

    method PopPage(requester: string, now: int) returns (next: Option<PagerNext>)
      modifies this
      ensures var key := Key(TrimSpace(requester));
              (next, Value()) == if key.hash == "" then (None, old(Value())) else PopNext(old(Value()), key, now)
    {
      var key := Key(TrimSpace(requester));
      if key.hash == "" {
        return None;
      }
      ExpireLocked(now);
      if key !in entries {
        return None;
      }
      next := Some(entries[key].next);
      entries := entries - {key};
      order := Remove(order, key);
    }
  }

  // ---------------------------------------------------- the order is a listing

  /** The order lists exactly the stored keys, each once. */
  ghost predicate Valid(t: Table) {
    NoDuplicates(t.order) && forall k :: k in t.order <==> k in t.entries
  }

  lemma {:induction false} KeptMembers(t: Table, order: seq<Key>, now: int)
    requires NoDuplicates(order)
    ensures NoDuplicates(Kept(t, order, now))
    ensures forall k :: k in Kept(t, order, now)
                  <==> k in order && k in t.entries && !Stale(t.entries[k], now, t.ttl)
  {
    if order != [] {
      var n := |order| - 1;
      KeptMembers(t, order[..n], now);
      assert order == order[..n] + [order[n]];
      assert order[n] !in order[..n];
    }
  }

  lemma ExpireKeepsValid(t: Table, now: int)
    requires Valid(t)
    ensures Valid(Expire(t, now))
    ensures forall k :: k in Expire(t, now).entries
                  <==> k in t.entries && !Stale(t.entries[k], now, t.ttl)
    ensures forall k :: k in Expire(t, now).entries ==> Expire(t, now).entries[k] == t.entries[k]
  {
    KeptMembers(t, t.order, now);
  }

  lemma RecordedIsValid(t: Table, key: Key, e: Entry)
    requires Valid(t)
    ensures Valid(Recorded(t, key, e))
  {
    if key !in t.entries { AppendMembers(t.order, key); }
  }

  /** Eviction keeps a sub-table, and ends inside the cap. */
  lemma {:induction false} EvictShrinks(t: Table)
    requires Valid(t)
    ensures Valid(Evict(t))
    ensures forall k :: k in Evict(t).entries ==> k in t.entries && Evict(t).entries[k] == t.entries[k]
    ensures t.maxEntries > 0 ==> |Evict(t).entries| <= t.maxEntries
    ensures t.maxEntries <= 0 || |t.entries| <= t.maxEntries ==> Evict(t) == t
    decreases |t.order|
  {
    ListingSize(t.order, t.entries);
    if t.maxEntries > 0 && |t.entries| > t.maxEntries && |t.order| > 0 {
      TailMembers(t.order);
      EvictShrinks(t.(order := t.order[1..], entries := t.entries - {t.order[0]}));
    }
  }

  // -------------------------------------------- the table refines a plain map

  /** A map that forgets nothing: the latest save of every requester. */
  type Ideal = map<Key, Entry>

  datatype Op =
    | DoSave(key: Key, next: PagerNext, now: int)
    | DoPop(key: Key, now: int)

  function IdealStep(m: Ideal, op: Op, ttl: int): (Option<PagerNext>, Ideal) {
    match op
    case DoSave(key, next, now) => (None, m[key := Entry(next, now)])
    case DoPop(key, now) =>
      if key in m && !Stale(m[key], now, ttl) then (Some(m[key].next), m - {key}) else (None, m)
  }

  function TableStep(t: Table, op: Op): (Option<PagerNext>, Table) {
    match op
    case DoSave(key, next, now) => (None, Save(t, key, next, now))
    case DoPop(key, now) => PopNext(t, key, now)
  }

  /** Everything stored is the ideal's, and nothing the ideal has alive is missing
      unless `lossy`. */
  ghost predicate Simulates(t: Table, m: Ideal, clock: int, lossy: bool) {
    && Valid(t)
    && (forall k :: k in t.entries ==> k in m && t.entries[k] == m[k])
    && (lossy || forall k :: k in m && !Stale(m[k], clock, t.ttl) ==> k in t.entries)
  }

  /** The requesters with an unexpired page in the ideal map. */
  ghost function Live(m: Ideal, now: int, ttl: int): set<Key> {
    set k | k in m && !Stale(m[k], now, ttl)
  }

  lemma {:induction false} SubsetSize<T>(a: set<T>, b: set<T>)
    requires a <= b
    ensures |a| <= |b|
  {
    if a != {} {
      var x :| x in a;
      SubsetSize(a - {x}, b - {x});
    }
  }

  ghost predicate Fits(t: Table, m: Ideal, now: int) {
    t.maxEntries <= 0 || |Live(m, now, t.ttl)| <= t.maxEntries
  }

  /** What is recorded after expiry is the ideal's, and all of it that is alive. */
  lemma RecordedSimulates(t: Table, m: Ideal, clock: int, lossy: bool, key: Key, e: Entry)
    requires Simulates(t, m, clock, lossy) && clock <= e.at
    ensures Simulates(Recorded(Expire(t, e.at), key, e), m[key := e], e.at, lossy)
    ensures Recorded(Expire(t, e.at), key, e).entries.Keys <= Live(m[key := e], e.at, t.ttl)
  {
    hide Expire;
    ExpireKeepsValid(t, e.at);
    ExpireParameters(t, e.at);
    RecordedIsValid(Expire(t, e.at), key, e);
  }

  lemma SaveSimulates(t: Table, m: Ideal, clock: int, lossy: bool, key: Key, next: PagerNext, now: int)
    requires Simulates(t, m, clock, lossy) && clock <= now
    ensures var m' := m[key := Entry(next, now)];
            Simulates(Save(t, key, next, now), m', now, lossy || !Fits(t, m', now))
  {
    hide Evict, Expire, Live, Valid;
    var m' := m[key := Entry(next, now)];
    var r := Recorded(Expire(t, now), key, Entry(next, now));
    RecordedSimulates(t, m, clock, lossy, key, Entry(next, now));
    ExpireParameters(t, now);
    EvictShrinks(r);
    EvictParameters(r);
    if Fits(t, m', now) && r.maxEntries > 0 {
      SubsetSize(r.entries.Keys, Live(m', now, t.ttl));
    }
  }

  lemma ExpireParameters(t: Table, now: int)
    ensures Expire(t, now).ttl == t.ttl && Expire(t, now).maxEntries == t.maxEntries
  {
  }

  lemma {:induction false} EvictParameters(t: Table)
    ensures Evict(t).ttl == t.ttl && Evict(t).maxEntries == t.maxEntries
    decreases |t.order|
  {
    if t.maxEntries > 0 && |t.entries| > t.maxEntries && |t.order| > 0 {
      EvictParameters(t.(order := t.order[1..], entries := t.entries - {t.order[0]}));
    }
  }

  /** A popped page is the requester's own latest unpopped save, no older than the ttl;
      without losses the two agree in both directions. */
  lemma PopSimulates(t: Table, m: Ideal, clock: int, lossy: bool, key: Key, now: int)
    requires Simulates(t, m, clock, lossy) && clock <= now
    ensures var (got, t') := PopNext(t, key, now);
            var (want, m') := IdealStep(m, DoPop(key, now), t.ttl);
            && (got.Some? ==> got == want)
            && (!lossy ==> got == want)
            && Simulates(t', m', now, lossy)
  {
    hide Expire, Without;
    ExpireKeepsValid(t, now);
    ExpireParameters(t, now);
    WithoutMembers(Expire(t, now).order, key);
  }

  /** The results of a run of the table and of the ideal map, and where both end. */
  datatype Run = Run(table: Table, ideal: Ideal, got: seq<Option<PagerNext>>, want: seq<Option<PagerNext>>)

  function After(t: Table, ops: seq<Op>): (r: Run)
    ensures |r.got| == |r.want| == |ops|
  {
    if ops == [] then Run(t, map[], [], [])
    else
      var r := After(t, ops[..|ops| - 1]);
      var op := ops[|ops| - 1];
      var (got, table) := TableStep(r.table, op);
      var (want, ideal) := IdealStep(r.ideal, op, t.ttl);
      Run(table, ideal, r.got + [got], r.want + [want])
  }

  ghost predicate ClockNeverGoesBack(ops: seq<Op>) {
    forall i, j :: 0 <= i < j < |ops| ==> ops[i].now <= ops[j].now
  }

  /** After every save of the run the ideal map's unexpired requesters fit the table. */
  ghost predicate AlwaysFits(t: Table, ops: seq<Op>) {
    forall i :: 0 <= i < |ops| && ops[i].DoSave? ==> Fits(t, After(t, ops[..i + 1]).ideal, ops[i].now)
  }

  /** A run from an empty table with any ttl and cap. */
  ghost predicate Fresh(t: Table) {
    t.entries == map[] && t.order == []
  }

  lemma {:induction false} RunSimulates(t: Table, ops: seq<Op>, lossy: bool)
    requires Fresh(t) && ClockNeverGoesBack(ops)
    requires lossy || AlwaysFits(t, ops)
    ensures var r := After(t, ops);
            && (ops != [] ==> Simulates(r.table, r.ideal, ops[|ops| - 1].now, lossy))
            && r.table.ttl == t.ttl && r.table.maxEntries == t.maxEntries
            && (forall i :: 0 <= i < |ops| && r.got[i].Some? ==> r.got[i] == r.want[i])
            && (!lossy ==> r.got == r.want)
  {
    if ops != [] {
      hide TableStep, IdealStep, Simulates, Fits;
      var n := |ops| - 1;
      var op := ops[n];
      if !lossy { FitsPrefix(t, ops); }
      RunSimulates(t, ops[..n], lossy);
      var r := After(t, ops[..n]);
      var clock := if n == 0 then op.now else ops[n - 1].now;
      if n == 0 { NothingSimulates(r.table, clock, lossy); }
      if !lossy && op.DoSave? { assert ops[..n + 1] == ops; }
      StepSimulates(r.table, r.ideal, clock, lossy, op);
    }
  }

  lemma NothingSimulates(t: Table, clock: int, lossy: bool)
    requires Fresh(t)
    ensures Simulates(t, map[], clock, lossy)
  {
  }

  /** One operation keeps the simulation; a save without losses needs room for it. */
  lemma StepSimulates(t: Table, m: Ideal, clock: int, lossy: bool, op: Op)
    requires Simulates(t, m, clock, lossy) && clock <= op.now
    requires !lossy && op.DoSave? ==> Fits(t, IdealStep(m, op, t.ttl).1, op.now)
    ensures var (got, t') := TableStep(t, op);
            var (want, m') := IdealStep(m, op, t.ttl);
            && Simulates(t', m', op.now, lossy)
            && t'.ttl == t.ttl && t'.maxEntries == t.maxEntries
            && (got.Some? || !lossy ==> got == want)
  {
    hide Save, PopNext;
    match op {
      case DoSave(key, next, now) =>
        SaveSimulates(t, m, clock, lossy, key, next, now);
        SaveParameters(t, key, next, now);
      case DoPop(key, now) =>
        PopSimulates(t, m, clock, lossy, key, now);
        PopParameters(t, key, now);
    }
  }

  lemma SaveParameters(t: Table, key: Key, next: PagerNext, now: int)
    ensures Save(t, key, next, now).ttl == t.ttl && Save(t, key, next, now).maxEntries == t.maxEntries
  {
    EvictParameters(Recorded(Expire(t, now), key, Entry(next, now)));
  }

  lemma PopParameters(t: Table, key: Key, now: int)
    ensures PopNext(t, key, now).1.ttl == t.ttl && PopNext(t, key, now).1.maxEntries == t.maxEntries
  {
  }

  lemma FitsPrefix(t: Table, ops: seq<Op>)
    requires ops != [] && AlwaysFits(t, ops)
    ensures AlwaysFits(t, ops[..|ops| - 1])
  {
    var shorter := ops[..|ops| - 1];
    forall i | 0 <= i < |shorter| && shorter[i].DoSave?
      ensures Fits(t, After(t, shorter[..i + 1]).ideal, shorter[i].now)
    {
      assert shorter[..i + 1] == ops[..i + 1];
    }
  }

  /** In every run a page that `more` turns to is the requester's latest save, unpopped
      and unexpired: whatever the table forgets, it never invents or mixes up a page. */
  lemma PoppedPagesAreTheRequesters(t: Table, ops: seq<Op>)
    requires Fresh(t) && ClockNeverGoesBack(ops)
    ensures forall i :: 0 <= i < |ops| && After(t, ops).got[i].Some? ==> After(t, ops).got[i] == After(t, ops).want[i]
  {
    RunSimulates(t, ops, true);
  }

  /** While the unexpired requesters fit the cap, every answer is the ideal map's. */
  lemma TableIsExactWhileItFits(t: Table, ops: seq<Op>)
    requires Fresh(t) && ClockNeverGoesBack(ops) && AlwaysFits(t, ops)
    ensures After(t, ops).got == After(t, ops).want
  {
    RunSimulates(t, ops, false);
  }

  /** In every run the order lists the stored keys once each, and a save leaves at most
      the cap of them. */
  lemma TableShape(t: Table, ops: seq<Op>)
    requires Fresh(t) && ClockNeverGoesBack(ops)
    ensures Valid(After(t, ops).table)
    ensures ops != [] && ops[|ops| - 1].DoSave? && t.maxEntries > 0 ==> |After(t, ops).table.entries| <= t.maxEntries
    ensures ops != [] && ops[|ops| - 1].DoSave? && t == EMPTY ==> |After(t, ops).table.entries| <= 256
  {
    RunSimulates(t, ops, true);
    if ops != [] && ops[|ops| - 1].DoSave? {
      var n := |ops| - 1;
      var r := After(t, ops[..n]);
      RunSimulates(t, ops[..n], true);
      ExpireKeepsValid(r.table, ops[n].now);
      var alive := Expire(r.table, ops[n].now);
      RecordedIsValid(alive, ops[n].key, Entry(ops[n].next, ops[n].now));
      EvictShrinks(Recorded(alive, ops[n].key, Entry(ops[n].next, ops[n].now)));
    }
  }

  // --------------------------------------------------- what eviction drops

  /** The order runs from the oldest save to the newest. */
  ghost predicate OrderedByAge(t: Table)
    requires Valid(t)
  {
    forall i, j :: 0 <= i < j < |t.order| ==> t.entries[t.order[i]].at <= t.entries[t.order[j]].at
  }

  /** Every key behind this one was saved at this very instant. */
  ghost predicate OnlyTiesBehind(t: Table, key: Key, now: int)
    requires Valid(t)
  {
    forall i, j :: 0 <= i < j < |t.order| && t.order[i] == key ==> t.entries[t.order[j]].at == now
  }

  /** Recording keeps the order sorted by age, so that eviction drops the oldest save,
      exactly when no older save stands behind the requester: a repeated save stays in
      place. A requester that is new, or last, has none behind it. */
  lemma AgeOrderKeptExactlyWhen(t: Table, key: Key, next: PagerNext, now: int)
    requires Valid(t) && OrderedByAge(t)
    requires forall k :: k in t.entries ==> t.entries[k].at <= now
    ensures Valid(Recorded(t, key, Entry(next, now)))
    ensures OrderedByAge(Recorded(t, key, Entry(next, now))) <==> OnlyTiesBehind(t, key, now)
    ensures key !in t.entries || t.order[|t.order| - 1] == key ==> OnlyTiesBehind(t, key, now)
  {
    var e := Entry(next, now);
    RecordedIsValid(t, key, e);
    assert forall i :: 0 <= i < |t.order| ==> t.order[i] in t.order;
    if OnlyTiesBehind(t, key, now) {
      TiesKeepAgeOrder(t, key, e);
    } else {
      var i, j :| 0 <= i < j < |t.order| && t.order[i] == key && t.entries[t.order[j]].at != now;
      RepeatBreaksAgeOrder(t, key, e, i, j);
    }
  }

  lemma RepeatBreaksAgeOrder(t: Table, key: Key, e: Entry, i: nat, j: nat)
    requires Valid(t) && Valid(Recorded(t, key, e))
    requires i < j < |t.order| && t.order[i] == key
    requires t.order[j] in t.entries && t.entries[t.order[j]].at < e.at
    ensures !OrderedByAge(Recorded(t, key, e))
  {
    var r := Recorded(t, key, e);
    assert t.order[i] in t.order && t.order[j] != key;
    assert r.entries[r.order[i]].at > r.entries[r.order[j]].at;
  }

  lemma TiesKeepAgeOrder(t: Table, key: Key, e: Entry)
    requires Valid(t) && Valid(Recorded(t, key, e)) && OrderedByAge(t)
    requires forall k :: k in t.entries ==> t.entries[k].at <= e.at
    requires OnlyTiesBehind(t, key, e.at)
    ensures OrderedByAge(Recorded(t, key, e))
  {
    var r := Recorded(t, key, e);
    assert forall i :: 0 <= i < |t.order| ==> r.order[i] == t.order[i] && t.order[i] in t.order;
    forall i, j | 0 <= i < j < |r.order|
      ensures r.entries[r.order[i]].at <= r.entries[r.order[j]].at
    {
      if j < |t.order| {
        assert t.entries[t.order[i]].at <= t.entries[t.order[j]].at;
      }
    }
  }

  /** A full table makes room for a new requester by dropping the front of its order. */
  lemma VictimIsTheFront(t: Table, key: Key, next: PagerNext, now: int)
    requires Valid(t) && key !in t.entries && t.maxEntries > 0 && |t.entries| == t.maxEntries
    requires forall k :: k in t.entries ==> !Stale(t.entries[k], now, t.ttl)
    ensures Save(t, key, next, now).entries == t.entries[key := Entry(next, now)] - {t.order[0]}
  {
    hide Expire, Evict;
    ExpireNothing(t, now);
    ListingSize(t.order, t.entries);
    var r := Recorded(t, key, Entry(next, now));
    RecordedIsValid(t, key, Entry(next, now));
    RecordedSize(t, key, Entry(next, now));
    EvictOneOver(r);
  }

  lemma EvictOneOver(t: Table)
    requires Valid(t) && t.maxEntries > 0 && |t.entries| == t.maxEntries + 1
    ensures t.order != [] && t.order[0] in t.entries
    ensures Evict(t) == t.(order := t.order[1..], entries := t.entries - {t.order[0]})
  {
    ListingSize(t.order, t.entries);
    var smaller := t.(order := t.order[1..], entries := t.entries - {t.order[0]});
    assert |smaller.entries| == t.maxEntries;
    assert Evict(t) == Evict(smaller) == smaller;
  }

  lemma {:induction false} KeptAll(t: Table, order: seq<Key>, now: int)
    requires forall i :: 0 <= i < |order| ==> order[i] in t.entries && !Stale(t.entries[order[i]], now, t.ttl)
    ensures Kept(t, order, now) == order
  {
    if order != [] { KeptAll(t, order[..|order| - 1], now); }
  }

  // ------------------------------------------------- one requester's page turn

  function PendingPage(t: Table, key: Key): Option<Entry> {
    if key in t.entries then Some(t.entries[key]) else None
  }

  /** The table is a listing inside its cap, as every run leaves it after a save. */
  ghost predicate Sound(t: Table) {
    Valid(t) && (t.maxEntries <= 0 || |t.entries| <= t.maxEntries)
  }

  lemma PopTakes(t: Table, key: Key, now: int)
    requires Sound(t)
    ensures var (next, t') := PopNext(t, key, now);
            && Sound(t') && key !in t'.entries
            && t'.ttl == t.ttl && t'.maxEntries == t.maxEntries
            && next == (if key in t.entries && !Stale(t.entries[key], now, t.ttl)
                        then Some(t.entries[key].next) else None)
            && (next.Some? ==> |t'.entries| < |t.entries|)
  {
    hide Expire, Without;
    ExpireKeepsValid(t, now);
    ExpireParameters(t, now);
    var alive := Expire(t, now);
    SubsetSize(alive.entries.Keys, t.entries.Keys);
    WithoutMembers(alive.order, key);
  }

  /** A save is always there afterwards, even when it pushes another requester out. */
  lemma SaveIsPending(t: Table, key: Key, next: PagerNext, now: int)
    requires Sound(t)
    ensures PendingPage(Save(t, key, next, now), key) == Some(Entry(next, now))
    ensures Sound(Save(t, key, next, now))
  {
    hide Expire, Evict;
    ExpireKeepsValid(t, now);
    ExpireParameters(t, now);
    var alive := Expire(t, now);
    SubsetSize(alive.entries.Keys, t.entries.Keys);
    var r := Recorded(alive, key, Entry(next, now));
    RecordedIsValid(alive, key, Entry(next, now));
    EvictShrinks(r);
    EvictParameters(r);
    if r.maxEntries > 0 && |r.entries| > r.maxEntries {
      assert r.order == alive.order + [key];
      EvictOneOver(r);
      ListingSize(alive.order, alive.entries);
    }
  }

  /** What other requesters do leaves an unexpired page alone while the table has room. */
  lemma OthersLeavePending(t: Table, key: Key, op: Op)
    requires Sound(t) && op.key != key
    requires key in t.entries ==> !Stale(t.entries[key], op.now, t.ttl)
    requires HasRoom(t, op)
    ensures PendingPage(TableStep(t, op).1, key) == PendingPage(t, key)
    ensures Sound(TableStep(t, op).1)
  {
    hide Expire, Evict;
    ExpireKeepsValid(t, op.now);
    ExpireParameters(t, op.now);
    var alive := Expire(t, op.now);
    match op {
      case DoPop(other, now) =>
        PopTakes(t, other, now);
      case DoSave(other, next, now) =>
        SaveIsPending(t, other, next, now);
        var r := Recorded(alive, other, Entry(next, now));
        RecordedIsValid(alive, other, Entry(next, now));
        EvictShrinks(r);
        SubsetSize(r.entries.Keys, t.entries.Keys + {other});
    }
  }

  /** The table after some operations. */
  function Later(t: Table, ops: seq<Op>): Table {
    if ops == [] then t else TableStep(Later(t, ops[..|ops| - 1]), ops[|ops| - 1]).1
  }

  /** The operation evicts nobody. */
  predicate HasRoom(t: Table, op: Op) {
    op.DoSave? ==> t.maxEntries <= 0 || op.key in t.entries || |t.entries| < t.maxEntries
  }

  /** Operations of other requesters, up to some instant, none of which evicts. */
  ghost predicate OfOthers(t: Table, key: Key, ops: seq<Op>, until: int) {
    forall i :: 0 <= i < |ops| ==> ops[i].key != key && ops[i].now <= until && HasRoom(Later(t, ops[..i]), ops[i])
  }

  /** Whatever other requesters do without evicting leaves an unexpired page alone. */
  lemma {:induction false} OthersLeaveItAlone(t: Table, key: Key, ops: seq<Op>, until: int)
    requires Sound(t) && OfOthers(t, key, ops, until)
    requires key in t.entries ==> !Stale(t.entries[key], until, t.ttl)
    ensures var t' := Later(t, ops);
            Sound(t') && t'.ttl == t.ttl && PendingPage(t', key) == PendingPage(t, key)
  {
    if ops != [] {
      hide TableStep, Sound;
      var n := |ops| - 1;
      assert forall i :: 0 <= i < n ==> ops[..n][..i] == ops[..i];
      OthersLeaveItAlone(t, key, ops[..n], until);
      OthersLeavePending(Later(t, ops[..n]), key, ops[n]);
      StepParameters(Later(t, ops[..n]), ops[n]);
    }
  }

  lemma StepParameters(t: Table, op: Op)
    ensures TableStep(t, op).1.ttl == t.ttl
  {
    hide Save, PopNext;
    if op.DoSave? { SaveParameters(t, op.key, op.next, op.now); } else { PopParameters(t, op.key, op.now); }
  }

  // ----------------------------------------------- a repeated save stays in place

  /** The n-th of a family of distinct requesters. */
  function Nth(n: nat): (k: Key)
    ensures |k.hash| == n + 1
  {
    Key(seq(n + 1, _ => 'a'))
  }

  /** The first n requesters save, one after the other. */
  function Fill(n: nat, next: PagerNext): (ops: seq<Op>)
    ensures |ops| == n
  {
    if n == 0 then [] else Fill(n - 1, next) + [DoSave(Nth(n - 1), next, n - 1)]
  }

  /** The table that leaves: the first n requesters in their order. */
  ghost predicate IsFilled(t: Table, n: nat, next: PagerNext) {
    && t.ttl == PAGER_TTL && t.maxEntries == PAGER_MAX && Valid(t)
    && |t.order| == n && (forall i :: 0 <= i < n ==> t.order[i] == Nth(i))
    && (forall i :: 0 <= i < n ==> Nth(i) in t.entries && t.entries[Nth(i)] == Entry(next, i))
  }

  lemma FillStep(t: Table, n: nat, next: PagerNext)
    requires IsFilled(t, n, next) && n < PAGER_MAX
    ensures IsFilled(Save(t, Nth(n), next, n), n + 1, next)
  {
    hide Save, Nth;
    NthIsNew(t, n, next);
    SaveWithRoom(t, Nth(n), next, n);
    RecordedIsValid(t, Nth(n), Entry(next, n));
  }

  lemma FillUnfolds(n: nat, next: PagerNext)
    ensures n == 0 ==> IsFilled(Later(EMPTY, Fill(n, next)), n, next)
    ensures n > 0 ==> Fill(n, next) == Fill(n - 1, next) + [DoSave(Nth(n - 1), next, n - 1)]
  {
    hide TableStep;
  }

  lemma {:induction false} FillFills(n: nat, next: PagerNext)
    requires n <= PAGER_MAX
    ensures IsFilled(Later(EMPTY, Fill(n, next)), n, next)
  {
    FillUnfolds(n, next);
    hide Later, Save, IsFilled, Nth, Fill;
    if n > 0 {
      FillFills(n - 1, next);
      LaterOneMore(EMPTY, Fill(n - 1, next), DoSave(Nth(n - 1), next, n - 1));
      FillStep(Later(EMPTY, Fill(n - 1, next)), n - 1, next);
    }
  }

  lemma LaterOneMore(t: Table, ops: seq<Op>, op: Op)
    ensures Later(t, ops + [op]) == TableStep(Later(t, ops), op).1
  {
    assert (ops + [op])[..|ops|] == ops;
  }

  lemma NthIsNew(t: Table, n: nat, next: PagerNext)
    requires IsFilled(t, n, next) && n <= PAGER_MAX
    ensures Nth(n) !in t.entries && |t.entries| == n
    ensures forall k, now: int :: k in t.entries && now <= n + 1 ==> !Stale(t.entries[k], now, t.ttl)
    ensures forall k :: k in t.entries ==> t.entries[k].at < n
  {
    ListingSize(t.order, t.entries);
    forall k | k in t.entries ensures exists i :: 0 <= i < n && k == Nth(i) {
      assert k in t.order;
      var i :| 0 <= i < |t.order| && t.order[i] == k;
    }
  }

  /** Eviction can take the newest save: the table fills up, the first requester saves once
      more and keeps its place at the front, and one more requester pushes it out. */
  lemma RepeatedSaveIsEvictedFirst(next: PagerNext)
    ensures var t := Later(EMPTY, Fill(PAGER_MAX, next) + [DoSave(Nth(0), next, PAGER_MAX)]);
            && Valid(t) && !OrderedByAge(t)
            && Nth(0) in t.entries
            && (forall k :: k in t.entries && k != Nth(0) ==> t.entries[k].at < t.entries[Nth(0)].at)
            && Nth(0) !in Save(t, Nth(PAGER_MAX), next, PAGER_MAX + 1).entries
            && (forall k :: k in t.entries && k != Nth(0) ==> k in Save(t, Nth(PAGER_MAX), next, PAGER_MAX + 1).entries)
  {
    hide Later, Fill, Save, Nth;
    var full := Later(EMPTY, Fill(PAGER_MAX, next));
    FillFills(PAGER_MAX, next);
    NthIsNew(full, PAGER_MAX, next);
    LaterOneMore(EMPTY, Fill(PAGER_MAX, next), DoSave(Nth(0), next, PAGER_MAX));
    SaveWithRoom(full, Nth(0), next, PAGER_MAX);
    var t := Recorded(full, Nth(0), Entry(next, PAGER_MAX));
    RecordedIsValid(full, Nth(0), Entry(next, PAGER_MAX));
    assert Nth(1) != Nth(0) && full.order[PAGER_MAX - 1] == Nth(PAGER_MAX - 1);
    RepeatBreaksAgeOrder(full, Nth(0), Entry(next, PAGER_MAX), 0, PAGER_MAX - 1);
    ListingSize(t.order, t.entries);
    VictimIsTheFront(t, Nth(PAGER_MAX), next, PAGER_MAX + 1);
  }

  lemma ExpireNothing(t: Table, now: int)
    requires Valid(t) && forall k :: k in t.entries ==> !Stale(t.entries[k], now, t.ttl)
    ensures Expire(t, now) == t
  {
    hide Kept;
    KeptAll(t, t.order, now);
    assert Expire(t, now).entries == t.entries;
  }

  /** A save into a table with room and without expired entries only records. */
  lemma SaveWithRoom(t: Table, key: Key, next: PagerNext, now: int)
    requires Valid(t) && (key in t.entries || |t.entries| < t.maxEntries) && |t.entries| <= t.maxEntries
    requires forall k :: k in t.entries ==> !Stale(t.entries[k], now, t.ttl)
    ensures Save(t, key, next, now) == Recorded(t, key, Entry(next, now))
  {
    hide Expire, Evict;
    ExpireNothing(t, now);
    var r := Recorded(t, key, Entry(next, now));
    RecordedIsValid(t, key, Entry(next, now));
    RecordedSize(t, key, Entry(next, now));
    EvictShrinks(r);
  }

  lemma RecordedSize(t: Table, key: Key, e: Entry)
    ensures |Recorded(t, key, e).entries| == if key in t.entries then |t.entries| else |t.entries| + 1
  {
    if key in t.entries {
      assert t.entries[key := e].Keys == t.entries.Keys;
    } else {
      assert t.entries[key := e].Keys == t.entries.Keys + {key};
    }
  }

  /** A saved page can be turned to for five minutes, and not after. */
  lemma PageLivesFiveMinutes(t: Table, key: Key, next: PagerNext, at: int, now: int)
    requires Sound(t) && t.ttl == EMPTY.ttl
    ensures PopNext(Save(t, key, next, at), key, now).0 == if now <= at + 300_000_000_000 then Some(next) else None
  {
    hide PopNext, Save, Sound;
    SaveIsPending(t, key, next, at);
    SaveParameters(t, key, next, at);
    PopTakes(Save(t, key, next, at), key, now);
  }

  /** A saved page can be turned to for the lifetime of the table, and at any time when that
      is zero or less. */
  lemma PageLivesItsLifetime(t: Table, key: Key, next: PagerNext, at: int, now: int)
    requires Sound(t)
    ensures PopNext(Save(t, key, next, at), key, now).0
         == if t.ttl <= 0 || now <= at + t.ttl then Some(next) else None
  {
    hide Save, Sound, PopNext;
    SaveIsPending(t, key, next, at);
    SaveParameters(t, key, next, at);
    PopTakes(Save(t, key, next, at), key, now);
  }
}

/** The rate limit of the msg command (bot/lxmf.go): one sliding window per asker,
    one for the whole bot, and a bounded table of askers that forgets old ones.
    Times are integer nanoseconds. */
module LxmfBudget {
  import opened Listing

  const WINDOW := 60_000_000_000
  const ASKER_LIMIT := 5
  const BOT_LIMIT := 20
  const MAX_ASKERS := 256

  /** An asker's identity hash, in hexadecimal. */
  datatype Asker = Asker(hex: string)

  datatype Verdict = Admitted | AskerBudget | BotBudget

  /** The fields of lxmfBudget. */
  datatype Budget = Budget(asks: map<Asker, seq<int>>, order: seq<Asker>, global: seq<int>)

  /** One admitted ask, as the history of a run records it. */
  datatype Ask = Ask(asker: Asker, at: int)

  // ---------------------------------------------------------------- windows

  /** The timestamps strictly after the cutoff, in order. */
  function Prune(times: seq<int>, cutoff: int): seq<int> {
    if times == [] then []
    else
      var kept := Prune(times[..|times| - 1], cutoff);
      if times[|times| - 1] > cutoff then kept + [times[|times| - 1]] else kept
  }

  /** The timestamps in the half-open window (t - WINDOW, t]. */
  ghost function InWindow(times: seq<int>, t: int): seq<int> {
    if times == [] then []
    else
      var inside := InWindow(times[..|times| - 1], t);
      if t - WINDOW < times[|times| - 1] <= t then inside + [times[|times| - 1]] else inside
  }

  ghost predicate Sorted(times: seq<int>) {
    forall i, j :: 0 <= i < j < |times| ==> times[i] <= times[j]
  }

  /** Each timestamp, when it was appended, closed a window of at most `limit`. */
  ghost predicate Capped(times: seq<int>, limit: nat) {
    times == [] ||
    (var n := |times| - 1;
     Capped(times[..n], limit) && |Prune(times, times[n] - WINDOW)| <= limit)
  }

  lemma PruneAppend(times: seq<int>, x: int, cutoff: int)
    ensures Prune(times + [x], cutoff) == if x > cutoff then Prune(times, cutoff) + [x] else Prune(times, cutoff)
  {
    assert (times + [x])[..|times|] == times;
  }

  lemma {:induction false} PruneTwice(times: seq<int>, c: int, d: int)
    requires c <= d
    ensures Prune(Prune(times, c), d) == Prune(times, d)
    ensures |Prune(times, d)| <= |Prune(times, c)|
  {
    if times != [] {
      var n := |times| - 1;
      PruneTwice(times[..n], c, d);
      var kept := Prune(times[..n], c);
      if times[n] > c {
        PruneAppend(kept, times[n], d);
        assert Prune(times, c) == kept + [times[n]];
      } else {
        assert Prune(times, c) == kept;
      }
    }
  }

  /** Two histories that agree after one cutoff agree after every later one. */
  lemma PruneAgrees(s: seq<int>, t: seq<int>, c: int, d: int)
    requires c <= d && Prune(s, c) == Prune(t, c)
    ensures Prune(s, d) == Prune(t, d)
  {
    PruneTwice(s, c, d);
    PruneTwice(t, c, d);
  }

  lemma {:induction false} PruneKeepsOnlyLater(times: seq<int>, c: int)
    ensures forall i :: 0 <= i < |Prune(times, c)| ==> Prune(times, c)[i] > c
    ensures forall x :: x in Prune(times, c) <==> x in times && x > c
  {
    if times != [] {
      var n := |times| - 1;
      PruneKeepsOnlyLater(times[..n], c);
      assert times == times[..n] + [times[n]];
    }
  }

  lemma {:induction false} PruneAllOld(times: seq<int>, c: int)
    requires forall i :: 0 <= i < |times| ==> times[i] <= c
    ensures Prune(times, c) == []
  {
    if times != [] {
      PruneAllOld(times[..|times| - 1], c);
    }
  }

  lemma {:induction false} WindowIsPrune(times: seq<int>, t: int)
    requires forall i :: 0 <= i < |times| ==> times[i] <= t
    ensures InWindow(times, t) == Prune(times, t - WINDOW)
  {
    if times != [] {
      WindowIsPrune(times[..|times| - 1], t);
    }
  }

  /** Capping every appended window caps the window ending at any instant. */
  lemma {:induction false} CappedBoundsEveryWindow(times: seq<int>, limit: nat, t: int)
    requires Sorted(times) && Capped(times, limit)
    ensures |InWindow(times, t)| <= limit
  {
    if times != [] {
      var n := |times| - 1;
      if times[n] <= t {
        WindowIsPrune(times, t);
        PruneTwice(times, times[n] - WINDOW, t - WINDOW);
      } else {
        CappedBoundsEveryWindow(times[..n], limit, t);
      }
    }
  }

  lemma CappedAppend(times: seq<int>, x: int, limit: nat)
    requires Capped(times, limit)
    requires |Prune(times, x - WINDOW)| < limit
    ensures Capped(times + [x], limit)
  {
    assert (times + [x])[..|times|] == times;
    PruneAppend(times, x, x - WINDOW);
    hide Prune;
  }

  // ------------------------------------------------------- the limiter itself

  function Stored(b: Budget, asker: Asker): seq<int> {
    if asker in b.asks then b.asks[asker] else []
  }

  /** Drops the askers at the front of the order until it fits. */
  function Evict(b: Budget): Budget
    decreases |b.order|
  {
    if |b.order| > MAX_ASKERS
    then Evict(b.(asks := b.asks - {b.order[0]}, order := b.order[1..]))
    else b
  }

  lemma EvictOne(b: Budget)
    requires |b.order| <= MAX_ASKERS + 1
    ensures |b.order| <= MAX_ASKERS ==> Evict(b) == b
    ensures |b.order| > MAX_ASKERS ==>
              Evict(b) == Budget(b.asks - {b.order[0]}, b.order[1..], b.global)
    ensures |b.order| > MAX_ASKERS && NoDuplicates(b.order) ==>
              forall a :: a in b.order[1..] <==> a in b.order && a != b.order[0]
  {
    if b.order != [] {
      assert b.order == [b.order[0]] + b.order[1..];
    }
  }

  function Touch(b: Budget, asker: Asker): Budget {
    Evict(b.(order := Without(b.order, asker) + [asker]))
  }

  function Admit(b: Budget, asker: Asker, now: int): (Budget, Verdict) {
    var cutoff := now - WINDOW;
    var global := Prune(b.global, cutoff);
    var mine := Prune(Stored(b, asker), cutoff);
    if |mine| >= ASKER_LIMIT then
      (b.(global := global, asks := b.asks[asker := mine]), AskerBudget)
    else if |global| >= BOT_LIMIT then
      (b.(global := global, asks := b.asks[asker := mine]), BotBudget)
    else
      (Touch(b.(global := global + [now], asks := b.asks[asker := mine + [now]]), asker), Admitted)
  }

  /** Filters one window the way pruneTimes does. */
  method PruneTimes(times: seq<int>, cutoff: int) returns (kept: seq<int>)
    ensures kept == Prune(times, cutoff)
  {
    kept := [];
    for i := 0 to |times|
      invariant kept == Prune(times[..i], cutoff)
    {
      assert times[..i + 1] == times[..i] + [times[i]];
      PruneAppend(times[..i], times[i], cutoff);
      if times[i] > cutoff {
        kept := kept + [times[i]];
      }
    }
    assert times[..|times|] == times;
  }

  class Limiter {
    var asks: map<Asker, seq<int>>
    var order: seq<Asker>
    var global: seq<int>

    function Value(): Budget
      reads this
    {
      Budget(asks, order, global)
    }

    constructor ()
      ensures Value() == Budget(map[], [], [])
    {
      asks, order, global := map[], [], [];
    }

    method TouchLocked(asker: Asker)
      modifies this
      ensures Value() == Touch(old(Value()), asker)
    {
      hide Without, Evict;
      order := Remove(order, asker);
      order := order + [asker];
      EvictOldest();
    }

    method EvictOldest()
      modifies `asks, `order
      ensures Value() == Evict(old(Value()))
    {
      while |order| > MAX_ASKERS
        invariant Evict(Value()) == Evict(old(Value()))
        decreases |order|
      {
        asks := asks - {order[0]};
        order := order[1..];
      }
    }

    method AdmitAsk(asker: Asker, now: int) returns (verdict: Verdict)
      modifies this
      ensures (Value(), verdict) == Admit(old(Value()), asker, now)
    {
      var cutoff := now - WINDOW;
      global := PruneTimes(global, cutoff);
      var mine := PruneTimes(if asker in asks then asks[asker] else [], cutoff);
      if |mine| >= ASKER_LIMIT {
        asks := asks[asker := mine];
        return AskerBudget;
      }
      if |global| >= BOT_LIMIT {
        asks := asks[asker := mine];
        return BotBudget;
      }
      asks := asks[asker := mine + [now]];
      global := global + [now];
      TouchLocked(asker);
      return Admitted;
    }
  }

  // ------------------------------------------------------------- whole runs

  /** One call of admit: who asks, and the clock reading. */
  datatype Call = Call(asker: Asker, now: int)

  const EMPTY := Budget(map[], [], [])

  /** The limiter and the history of admitted asks after a run of calls. */
  function After(calls: seq<Call>): (Budget, seq<Ask>) {
    if calls == [] then (EMPTY, [])
    else
      var (b, log) := After(calls[..|calls| - 1]);
      var c := calls[|calls| - 1];
      var (b', verdict) := Admit(b, c.asker, c.now);
      (b', if verdict.Admitted? then log + [Ask(c.asker, c.now)] else log)
  }

  ghost predicate ClockNeverGoesBack(calls: seq<Call>) {
    forall i, j :: 0 <= i < j < |calls| ==> calls[i].now <= calls[j].now
  }

  /** The admission times of one asker over the whole history. */
  ghost function TimesOf(log: seq<Ask>, asker: Asker): seq<int> {
    if log == [] then []
    else
      var e := log[|log| - 1];
      var earlier := TimesOf(log[..|log| - 1], asker);
      if e.asker == asker then earlier + [e.at] else earlier
  }

  /** The admission times of the whole bot over the whole history. */
  ghost function AllTimes(log: seq<Ask>): (times: seq<int>)
    ensures |times| == |log|
  {
    if log == [] then []
    else AllTimes(log[..|log| - 1]) + [log[|log| - 1].at]
  }

  ghost function LastTime(log: seq<Ask>, asker: Asker): int
    requires TimesOf(log, asker) != []
  {
    TimesOf(log, asker)[|TimesOf(log, asker)| - 1]
  }

  /** Every listed asker was admitted at some time, least recently admitted first. */
  ghost predicate OrderedByLastAdmission(order: seq<Asker>, log: seq<Ask>) {
    && (forall i :: 0 <= i < |order| ==> TimesOf(log, order[i]) != [])
    && (forall i, j :: 0 <= i < j < |order| ==> LastTime(log, order[i]) <= LastTime(log, order[j]))
  }

  /** The stored windows hold exactly what the full history holds inside the window. */
  ghost predicate Remembers(b: Budget, log: seq<Ask>, clock: int) {
    && Prune(b.global, clock - WINDOW) == Prune(AllTimes(log), clock - WINDOW)
    && forall a :: Prune(Stored(b, a), clock - WINDOW) == Prune(TimesOf(log, a), clock - WINDOW)
  }

  ghost predicate OrderInv(b: Budget, log: seq<Ask>) {
    && |b.order| <= MAX_ASKERS
    && NoDuplicates(b.order)
    && OrderedByLastAdmission(b.order, log)
    && forall a :: Stored(b, a) != [] ==> a in b.order
  }

  ghost predicate LogInv(log: seq<Ask>, clock: int) {
    && Sorted(AllTimes(log))
    && (forall i :: 0 <= i < |log| ==> AllTimes(log)[i] <= clock)
    && Capped(AllTimes(log), BOT_LIMIT)
    && forall a :: Capped(TimesOf(log, a), ASKER_LIMIT)
  }

  ghost predicate Inv(b: Budget, log: seq<Ask>, clock: int) {
    LogInv(log, clock) && Remembers(b, log, clock) && OrderInv(b, log)
  }

  lemma {:induction false} TimesOfIsSorted(log: seq<Ask>, asker: Asker)
    requires Sorted(AllTimes(log))
    ensures Sorted(TimesOf(log, asker))
    ensures TimesOf(log, asker) != [] ==> log != [] && LastTime(log, asker) <= log[|log| - 1].at
  {
    if log != [] {
      var n := |log| - 1;
      assert AllTimes(log[..n]) == AllTimes(log)[..n];
      TimesOfIsSorted(log[..n], asker);
      if n > 0 {
        assert AllTimes(log)[n - 1] <= AllTimes(log)[n];
      }
    }
  }

  lemma TimesOfAppend(log: seq<Ask>, e: Ask, asker: Asker)
    ensures TimesOf(log + [e], asker) == if e.asker == asker then TimesOf(log, asker) + [e.at] else TimesOf(log, asker)
    ensures AllTimes(log + [e]) == AllTimes(log) + [e.at]
  {
    assert (log + [e])[..|log|] == log;
  }

  /** The pigeonhole step: distinct askers with a live admission are at most as many
      as the live admissions of the whole bot. */
  lemma {:induction false} LiveAskersAreFew(log: seq<Ask>, c: int, live: set<Asker>)
    requires forall a :: a in live ==> Prune(TimesOf(log, a), c) != []
    ensures |live| <= |Prune(AllTimes(log), c)|
  {
    if log == [] {
      forall a | a in live
        ensures false
      {
      }
      assert live == {};
    } else {
      var n := |log| - 1;
      var e := log[n];
      assert AllTimes(log)[..n] == AllTimes(log[..n]);
      assert log == log[..n] + [e];
      forall a
        ensures Prune(TimesOf(log, a), c)
             == (if a == e.asker && e.at > c then Prune(TimesOf(log[..n], a), c) + [e.at]
                 else Prune(TimesOf(log[..n], a), c))
      {
        if a == e.asker { PruneAppend(TimesOf(log[..n], a), e.at, c); }
      }
      if e.at > c {
        LiveAskersAreFew(log[..n], c, live - {e.asker});
        assert |live| <= |live - {e.asker}| + 1;
      } else {
        LiveAskersAreFew(log[..n], c, live);
      }
    }
  }

  lemma FrontIsOldest(order: seq<Asker>, log: seq<Ask>, a: Asker)
    requires OrderedByLastAdmission(order, log) && a in order
    ensures TimesOf(log, a) != [] && TimesOf(log, order[0]) != []
    ensures LastTime(log, order[0]) <= LastTime(log, a)
  {
    hide TimesOf, LastTime;
    var k :| 0 <= k < |order| && order[k] == a;
  }

  lemma PrependOrdered(first: Asker, rest: seq<Asker>, log: seq<Ask>)
    requires OrderedByLastAdmission(rest, log) && TimesOf(log, first) != []
    requires forall a :: a in rest ==> TimesOf(log, a) != [] && LastTime(log, first) <= LastTime(log, a)
    ensures OrderedByLastAdmission([first] + rest, log)
  {
    hide TimesOf, LastTime;
    var longer := [first] + rest;
    assert longer[0] == first;
    assert forall i :: 1 <= i < |longer| ==> longer[i] == rest[i - 1] && rest[i - 1] in rest;
    forall i, j | 0 <= i < j < |longer|
      ensures TimesOf(log, longer[i]) != [] && TimesOf(log, longer[j]) != []
      ensures LastTime(log, longer[i]) <= LastTime(log, longer[j])
    {
      if i > 0 { assert LastTime(log, rest[i - 1]) <= LastTime(log, rest[j - 1]); }
    }
  }

  lemma {:induction false} WithoutOrdered(order: seq<Asker>, asker: Asker, log: seq<Ask>)
    requires NoDuplicates(order) && OrderedByLastAdmission(order, log)
    ensures OrderedByLastAdmission(Without(order, asker), log)
  {
    hide TimesOf, LastTime;
    if order != [] {
      var tail := order[1..];
      assert OrderedByLastAdmission(tail, log);
      if order[0] != asker {
        WithoutOrdered(tail, asker, log);
        WithoutMembers(tail, asker);
        forall a | a in Without(tail, asker)
          ensures TimesOf(log, a) != [] && LastTime(log, order[0]) <= LastTime(log, a)
        {
          assert a in order;
          FrontIsOldest(order, log, a);
        }
        PrependOrdered(order[0], Without(tail, asker), log);
      }
    }
  }

  lemma AppendOrdered(order: seq<Asker>, log: seq<Ask>, e: Ask)
    requires OrderedByLastAdmission(order, log) && e.asker !in order
    requires forall i :: 0 <= i < |log| ==> AllTimes(log)[i] <= e.at
    ensures OrderedByLastAdmission(order + [e.asker], log + [e])
  {
    hide TimesOf, AllTimes, LastTime;
    var longer := order + [e.asker];
    LastAfterAppend(log, e, e.asker);
    forall i | 0 <= i < |longer|
      ensures TimesOf(log + [e], longer[i]) != []
    {
      if i < |order| { LastAfterAppend(log, e, order[i]); }
    }
    forall i, j | 0 <= i < j < |longer|
      ensures LastTime(log + [e], longer[i]) <= LastTime(log + [e], longer[j])
    {
      LastAfterAppend(log, e, order[i]);
      if j < |order| { LastAfterAppend(log, e, order[j]); }
    }
  }

  lemma LastAfterAppend(log: seq<Ask>, e: Ask, asker: Asker)
    requires asker == e.asker || TimesOf(log, asker) != []
    requires forall i :: 0 <= i < |log| ==> AllTimes(log)[i] <= e.at
    ensures TimesOf(log + [e], asker) != []
    ensures LastTime(log + [e], asker) == (if asker == e.asker then e.at else LastTime(log, asker)) <= e.at
  {
    TimesOfAppend(log, e, asker);
    if asker != e.asker { LastIsLogged(log, asker); }
  }

  lemma {:induction false} LastIsLogged(log: seq<Ask>, asker: Asker)
    requires TimesOf(log, asker) != []
    ensures LastTime(log, asker) in AllTimes(log)
  {
    if log[|log| - 1].asker != asker {
      LastIsLogged(log[..|log| - 1], asker);
    }
  }

  /** Moving an asker to the back keeps the order sorted by last admission. */
  lemma TouchOrder(order: seq<Asker>, log: seq<Ask>, e: Ask)
    requires NoDuplicates(order) && OrderedByLastAdmission(order, log)
    requires Sorted(AllTimes(log)) && (forall i :: 0 <= i < |log| ==> AllTimes(log)[i] <= e.at)
    ensures var touched := Without(order, e.asker) + [e.asker];
            && NoDuplicates(touched)
            && OrderedByLastAdmission(touched, log + [e])
            && (forall a :: a in touched <==> a in order || a == e.asker)
  {
    hide TimesOf, AllTimes, Without;
    WithoutMembers(order, e.asker);
    WithoutOrdered(order, e.asker, log);
    AppendOrdered(Without(order, e.asker), log, e);
  }

  /** Whoever is pushed out of a full table has no admission left inside the window. */
  lemma VictimHasAgedOut(order: seq<Asker>, log: seq<Ask>, now: int)
    requires NoDuplicates(order) && |order| > BOT_LIMIT
    requires OrderedByLastAdmission(order, log)
    requires Sorted(AllTimes(log))
    requires |Prune(AllTimes(log), now - WINDOW)| <= BOT_LIMIT
    ensures Prune(TimesOf(log, order[0]), now - WINDOW) == []
  {
    var c := now - WINDOW;
    var v := order[0];
    TimesOfIsSorted(log, v);
    if LastTime(log, v) > c {
      forall a | a in order
        ensures Prune(TimesOf(log, a), c) != []
      {
        var i :| 0 <= i < |order| && order[i] == a;
        assert LastTime(log, v) <= LastTime(log, a);
        PruneKeepsOnlyLater(TimesOf(log, a), c);
        assert LastTime(log, a) in Prune(TimesOf(log, a), c);
      }
      LiveAskersAreFew(log, c, set a | a in order);
      DistinctCount(order);
      assert false;
    }
    PruneAllOld(TimesOf(log, v), c);
  }

  /** The history stays capped when an ask is admitted under both budgets. */
  lemma LogStep(log: seq<Ask>, clock: int, e: Ask)
    requires LogInv(log, clock) && clock <= e.at
    requires |Prune(TimesOf(log, e.asker), e.at - WINDOW)| < ASKER_LIMIT
    requires |Prune(AllTimes(log), e.at - WINDOW)| < BOT_LIMIT
    ensures LogInv(log + [e], e.at)
  {
    hide Prune, TimesOf, AllTimes, Capped;
    TimesOfAppend(log, e, e.asker);
    CappedAppend(AllTimes(log), e.at, BOT_LIMIT);
    forall a
      ensures Capped(TimesOf(log + [e], a), ASKER_LIMIT)
    {
      TimesOfAppend(log, e, a);
      if a == e.asker { CappedAppend(TimesOf(log, a), e.at, ASKER_LIMIT); }
    }
  }

  /** Remembering is kept as the clock advances, and tells what the pruned windows hold. */
  lemma RememberLater(b: Budget, log: seq<Ask>, clock: int, now: int)
    requires Remembers(b, log, clock) && clock <= now
    ensures Remembers(b, log, now)
  {
    PruneAgrees(b.global, AllTimes(log), clock - WINDOW, now - WINDOW);
    forall a
      ensures Prune(Stored(b, a), now - WINDOW) == Prune(TimesOf(log, a), now - WINDOW)
    {
      PruneAgrees(Stored(b, a), TimesOf(log, a), clock - WINDOW, now - WINDOW);
    }
  }

  /** The verdict is the one a limiter that never forgets anything would give. */
  ghost function IdealVerdict(log: seq<Ask>, asker: Asker, now: int): Verdict {
    if |Prune(TimesOf(log, asker), now - WINDOW)| >= ASKER_LIMIT then AskerBudget
    else if |Prune(AllTimes(log), now - WINDOW)| >= BOT_LIMIT then BotBudget
    else Admitted
  }

  lemma VerdictIsIdeal(b: Budget, log: seq<Ask>, clock: int, asker: Asker, now: int)
    requires Inv(b, log, clock) && clock <= now
    ensures Admit(b, asker, now).1 == IdealVerdict(log, asker, now)
  {
    RememberLater(b, log, clock, now);
  }

  /** A refused ask changes neither the order nor what is remembered. */
  lemma RefusedStep(b: Budget, log: seq<Ask>, clock: int, asker: Asker, now: int)
    requires Inv(b, log, clock) && clock <= now
    requires !Admit(b, asker, now).1.Admitted?
    ensures Inv(Admit(b, asker, now).0, log, now)
  {
    RememberLater(b, log, clock, now);
    var b' := Admit(b, asker, now).0;
    PruneTwice(b.global, now - WINDOW, now - WINDOW);
    PruneTwice(Stored(b, asker), now - WINDOW, now - WINDOW);
    forall a
      ensures Prune(Stored(b', a), now - WINDOW) == Prune(TimesOf(log, a), now - WINDOW)
      ensures Stored(b', a) != [] ==> a in b.order
    {
      if a == asker { PruneKeepsOnlyLater(Stored(b, a), now - WINDOW); }
      else { assert Stored(b', a) == Stored(b, a); }
    }
  }

  /** Before eviction: the new admission is recorded and the asker moved to the back. */
  function Recorded(b: Budget, asker: Asker, now: int): Budget {
    Budget(b.asks[asker := Prune(Stored(b, asker), now - WINDOW) + [now]],
           Without(b.order, asker) + [asker],
           Prune(b.global, now - WINDOW) + [now])
  }

  lemma AppendAgrees(s: seq<int>, t: seq<int>, now: int, c: int)
    requires Prune(s, c) == Prune(t, c) && c < now
    ensures Prune(Prune(s, c) + [now], c) == Prune(t + [now], c)
  {
    PruneAppend(Prune(s, c), now, c);
    PruneTwice(s, c, c);
    PruneAppend(t, now, c);
  }

  lemma RecordedRemembers(b: Budget, log: seq<Ask>, e: Ask)
    requires Remembers(b, log, e.at)
    ensures Remembers(Recorded(b, e.asker, e.at), log + [e], e.at)
  {
    hide Prune, TimesOf, AllTimes;
    var c := e.at - WINDOW;
    var b' := Recorded(b, e.asker, e.at);
    AppendAgrees(b.global, AllTimes(log), e.at, c);
    TimesOfAppend(log, e, e.asker);
    forall a
      ensures Prune(Stored(b', a), c) == Prune(TimesOf(log + [e], a), c)
    {
      TimesOfAppend(log, e, a);
      if a == e.asker {
        AppendAgrees(Stored(b, a), TimesOf(log, a), e.at, c);
      }
    }
  }

  /** Eviction from a table one over its bound loses nothing live. */
  lemma EvictionKeeps(r: Budget, log: seq<Ask>, now: int)
    requires Remembers(r, log, now)
    requires |r.order| <= MAX_ASKERS + 1
    requires NoDuplicates(r.order) && OrderedByLastAdmission(r.order, log)
    requires forall a :: Stored(r, a) != [] ==> a in r.order
    requires Sorted(AllTimes(log)) && |Prune(AllTimes(log), now - WINDOW)| <= BOT_LIMIT
    ensures Remembers(Evict(r), log, now) && OrderInv(Evict(r), log)
  {
    hide Prune, TimesOf, AllTimes, Evict;
    EvictOne(r);
    if |r.order| > MAX_ASKERS {
      var v := r.order[0];
      VictimHasAgedOut(r.order, log, now);
      var b' := Evict(r);
      PruneAllOld([], now - WINDOW);
      forall a
        ensures Prune(Stored(b', a), now - WINDOW) == Prune(TimesOf(log, a), now - WINDOW)
        ensures Stored(b', a) != [] ==> a in b'.order
      {
        if a != v { assert Stored(b', a) == Stored(r, a); }
      }
    }
  }

  /** An admitted ask keeps the whole invariant. */
  lemma AdmittedStep(b: Budget, log: seq<Ask>, clock: int, e: Ask)
    requires Inv(b, log, clock) && clock <= e.at
    requires Admit(b, e.asker, e.at).1.Admitted?
    ensures Inv(Admit(b, e.asker, e.at).0, log + [e], e.at)
  {
    hide Prune, TimesOf, AllTimes, Without, Evict, Capped;
    RememberLater(b, log, clock, e.at);
    LogStep(log, clock, e);
    RecordedRemembers(b, log, e);
    TouchOrder(b.order, log, e);
    WithoutAbsent(b.order, e.asker);
    PruneAppend(AllTimes(log), e.at, e.at - WINDOW);
    TimesOfAppend(log, e, e.asker);
    var r := Recorded(b, e.asker, e.at);
    forall a | Stored(r, a) != []
      ensures a in r.order
    {
      if a != e.asker { assert Stored(r, a) == Stored(b, a); }
    }
    EvictionKeeps(r, log + [e], e.at);
  }

  lemma {:induction false} RunInv(calls: seq<Call>)
    requires ClockNeverGoesBack(calls) && calls != []
    ensures Inv(After(calls).0, After(calls).1, calls[|calls| - 1].now)
  {
    hide Inv, Admit;
    var n := |calls| - 1;
    var c := calls[n];
    var (b, log) := After(calls[..n]);
    var clock := if n == 0 then c.now else calls[n - 1].now;
    if n == 0 {
      assert calls[..n] == [];
      EmptyInv(c.now);
    } else {
      RunInv(calls[..n]);
    }
    if Admit(b, c.asker, c.now).1.Admitted? {
      AdmittedStep(b, log, clock, Ask(c.asker, c.now));
    } else {
      RefusedStep(b, log, clock, c.asker, c.now);
    }
  }

  lemma EmptyInv(clock: int)
    ensures Inv(EMPTY, [], clock)
  {
    assert AllTimes([]) == [];
    forall a
      ensures TimesOf([], a) == []
    {
    }
  }

  /** Over every run, in every window of one minute, at most five asks of any one asker
      and at most twenty asks in all are admitted, although the table forgets askers. */
  lemma RateLimitHolds(calls: seq<Call>, asker: Asker, t: int)
    requires ClockNeverGoesBack(calls)
    ensures |InWindow(TimesOf(After(calls).1, asker), t)| <= 5
    ensures |InWindow(AllTimes(After(calls).1), t)| <= 20
  {
    var log := After(calls).1;
    if calls == [] {
      assert TimesOf(log, asker) == [] && AllTimes(log) == [];
    } else {
      RunInv(calls);
      TimesOfIsSorted(log, asker);
      CappedBoundsEveryWindow(TimesOf(log, asker), ASKER_LIMIT, t);
      CappedBoundsEveryWindow(AllTimes(log), BOT_LIMIT, t);
    }
  }

  /** The next verdict after any run is exactly the one the full history calls for. */
  lemma NothingLiveIsForgotten(calls: seq<Call>, asker: Asker, now: int)
    requires ClockNeverGoesBack(calls + [Call(asker, now)])
    ensures Admit(After(calls).0, asker, now).1 == IdealVerdict(After(calls).1, asker, now)
  {
    var longer := calls + [Call(asker, now)];
    if calls == [] {
      EmptyInv(now);
      VerdictIsIdeal(EMPTY, [], now, asker, now);
    } else {
      forall i, j | 0 <= i < j < |calls|
        ensures calls[i].now <= calls[j].now
      {
        assert longer[i].now <= longer[j].now;
      }
      RunInv(calls);
      assert longer[|calls| - 1].now <= longer[|calls|].now;
      VerdictIsIdeal(After(calls).0, After(calls).1, calls[|calls| - 1].now, asker, now);
    }
  }

  /** The table of listed askers is bounded, free of duplicates, sorted by last admission,
      and lists every asker whose stored window is not empty. */
  lemma TableShape(calls: seq<Call>)
    requires ClockNeverGoesBack(calls)
    ensures OrderInv(After(calls).0, After(calls).1) && |After(calls).0.order| <= 256
  {
    if calls == [] {
      EmptyInv(0);
    } else {
      RunInv(calls);
    }
  }

  // ------------------------------------------- the windows map is not bounded

  /** The n-th of a family of distinct askers. */
  function Stranger(n: nat): (a: Asker)
    ensures |a.hex| == n
  {
    Asker(seq(n, _ => 'f'))
  }

  function Flood(n: nat): (calls: seq<Call>)
    ensures |calls| == n
  {
    seq(n, i requires 0 <= i < n => Call(Stranger(i), 0))
  }

  /** The windows of the listed askers are the only ones kept. */
  ghost predicate OnlyListedKept(b: Budget) {
    forall a :: a in b.asks <==> a in b.order
  }

  /** A call keeps the windows map inside the listed askers exactly when the asker is
      already listed or the bot-wide window still has room. */
  lemma ListedKeptExactlyWhen(b: Budget, asker: Asker, now: int)
    requires NoDuplicates(b.order) && |b.order| <= MAX_ASKERS && OnlyListedKept(b)
    ensures OnlyListedKept(Admit(b, asker, now).0)
       <==> asker in b.order || |Prune(b.global, now - WINDOW)| < BOT_LIMIT
  {
    hide Prune, Without;
    PruneAllOld([], now - WINDOW);
    var (b', verdict) := Admit(b, asker, now);
    if verdict.Admitted? {
      AdmittedKeepsListed(b, Recorded(b, asker, now), asker);
    } else if asker !in b.order {
      assert asker !in b.asks.Keys;
      assert asker in b'.asks.Keys && asker !in b'.order;
    }
  }

  lemma AdmittedKeepsListed(b: Budget, r: Budget, asker: Asker)
    requires NoDuplicates(b.order) && |b.order| <= MAX_ASKERS && OnlyListedKept(b)
    requires forall a :: a in r.asks <==> a in b.asks || a == asker
    requires r.order == Without(b.order, asker) + [asker]
    ensures OnlyListedKept(Evict(r))
  {
    hide Without, Evict;
    WithoutMembers(b.order, asker);
    WithoutAbsent(b.order, asker);
    EvictOne(r);
    assert OnlyListedKept(r);
  }

  /** After n strangers asked at instant 0: each has an entry, at most twenty are listed. */
  ghost predicate Flooded(b: Budget, n: nat) {
    && |b.asks| == n
    && (forall a :: a in b.asks ==> |a.hex| < n)
    && (forall i :: 0 <= i < |b.order| ==> |b.order[i].hex| < n)
    && |b.order| == |b.global| == (if n <= BOT_LIMIT then n else BOT_LIMIT)
    && (forall i :: 0 <= i < |b.global| ==> b.global[i] == 0)
  }

  lemma FloodStep(b: Budget, n: nat)
    requires Flooded(b, n)
    ensures Flooded(Admit(b, Stranger(n), 0).0, n + 1)
  {
    hide Prune, Without, Evict;
    var stranger := Stranger(n);
    PruneAllLater(b.global, -WINDOW);
    PruneAllOld([], -WINDOW);
    WithoutAbsent(b.order, stranger);
    assert stranger !in b.asks && stranger !in b.order;
    EvictOne(Recorded(b, stranger, 0));
  }

  /** Twenty admissions fill the bot-wide window; every later stranger is refused and
      still gets an entry of the windows map. */
  lemma {:induction false} FloodState(n: nat)
    ensures Flooded(After(Flood(n)).0, n)
  {
    if n == 0 {
      NothingFlooded();
    } else {
      hide Admit, Flooded, Flood, Stranger;
      FloodState(n - 1);
      FloodPrefix(n - 1);
      FloodStep(After(Flood(n - 1)).0, n - 1);
    }
  }

  lemma NothingFlooded()
    ensures Flooded(After(Flood(0)).0, 0)
  {
  }

  lemma FloodPrefix(n: nat)
    ensures Flood(n + 1)[..n] == Flood(n) && Flood(n + 1)[n] == Call(Stranger(n), 0)
  {
  }

  lemma {:induction false} PruneAllLater(times: seq<int>, c: int)
    requires forall i :: 0 <= i < |times| ==> times[i] > c
    ensures Prune(times, c) == times
  {
    if times != [] {
      PruneAllLater(times[..|times| - 1], c);
    }
  }

  /** For every bound there is a run after which the windows map is larger. */
  lemma WindowsMapIsUnbounded(bound: nat)
    ensures ClockNeverGoesBack(Flood(bound + 1))
    ensures |After(Flood(bound + 1)).0.asks| > bound
  {
    FloodState(bound + 1);
  }

  // ---------------------------------------------- the verdict, counted on the history

  /** How many admissions of the minute up to now the history holds: those of one asker,
      or those of everybody. */
  ghost function LastMinute(log: seq<Ask>, whose: Whose, now: int): nat {
    if log == [] then 0
    else
      var e := log[|log| - 1];
      LastMinute(log[..|log| - 1], whose, now)
      + (if now - 60_000_000_000 < e.at <= now && (whose.Everybody? || whose.asker == e.asker) then 1 else 0)
  }

  datatype Whose = Everybody | Only(asker: Asker)

  lemma {:induction false} LastMinuteIsPrune(log: seq<Ask>, asker: Asker, now: int)
    requires forall i :: 0 <= i < |log| ==> log[i].at <= now
    ensures LastMinute(log, Only(asker), now) == |Prune(TimesOf(log, asker), now - WINDOW)|
    ensures LastMinute(log, Everybody, now) == |Prune(AllTimes(log), now - WINDOW)|
  {
    if log != [] {
      var n := |log| - 1;
      LastMinuteIsPrune(log[..n], asker, now);
      assert log == log[..n] + [log[n]];
      PruneAppend(TimesOf(log[..n], asker), log[n].at, now - WINDOW);
      PruneAppend(AllTimes(log[..n]), log[n].at, now - WINDOW);
      hide Prune;
    }
  }

  lemma {:induction false} LogTimes(log: seq<Ask>, clock: int)
    requires forall i :: 0 <= i < |log| ==> AllTimes(log)[i] <= clock
    ensures forall i :: 0 <= i < |log| ==> log[i].at <= clock
  {
    if log != [] {
      var n := |log| - 1;
      forall i | 0 <= i < n ensures AllTimes(log[..n])[i] <= clock { assert AllTimes(log)[i] == AllTimes(log[..n])[i]; }
      LogTimes(log[..n], clock);
      assert AllTimes(log)[n] == log[n].at;
    }
  }

  /** After every run an ask is admitted exactly when fewer than five of its asker and fewer
      than twenty in all were admitted in the last minute, and otherwise is told which of the
      two budgets is spent, its own first. */
  lemma AdmittedExactlyWhen(calls: seq<Call>, asker: Asker, now: int)
    requires ClockNeverGoesBack(calls + [Call(asker, now)])
    ensures var verdict, log := Admit(After(calls).0, asker, now).1, After(calls).1;
            var mine, all := LastMinute(log, Only(asker), now), LastMinute(log, Everybody, now);
            && (verdict.Admitted? <==> mine < 5 && all < 20)
            && (verdict.AskerBudget? <==> mine >= 5)
  {
    NothingLiveIsForgotten(calls, asker, now);
    HistoryIsPast(calls, Call(asker, now));
    LastMinuteIsPrune(After(calls).1, asker, now);
    hide Prune, LastMinute, After, Admit;
  }

  lemma HistoryIsPast(calls: seq<Call>, next: Call)
    requires ClockNeverGoesBack(calls + [next])
    ensures forall i :: 0 <= i < |After(calls).1| ==> After(calls).1[i].at <= next.now
  {
    if calls != [] {
      var longer := calls + [next];
      forall i, j | 0 <= i < j < |calls| ensures calls[i].now <= calls[j].now {
        assert longer[i].now <= longer[j].now;
      }
      assert longer[|calls| - 1].now <= longer[|calls|].now;
      RunInv(calls);
      hide After;
      LogTimes(After(calls).1, calls[|calls| - 1].now);
    }
  }
}

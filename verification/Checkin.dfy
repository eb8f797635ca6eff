/** The overdue-trip watchdog (bot/checkin.go): a store with one safety timer per traveller,
    bounded, in which an alarm fires exactly once and never early. What the alarm says
    about a trip (name, position, note, hub, room) is the payload P. */
module Checkin {
  import opened Text

  const MAX_TIMERS := 100
  const ZERO_TIME := 0

  /** The identity hash of a traveller. */
  datatype Sender = Sender(hash: string)

  datatype Timer<P> = Timer(sender: Sender, deadline: int, setAt: int, payload: P)

  // --------------------------------------------------------- the operations

  function RemoveTimer<P>(timers: seq<Timer<P>>, sender: Sender): seq<Timer<P>> {
    if timers == [] then []
    else
      var kept := RemoveTimer(timers[..|timers| - 1], sender);
      if timers[|timers| - 1].sender == sender then kept else kept + [timers[|timers| - 1]]
  }

  /** A timer without a registration time gets the clock's. */
  function Stamp<P>(timer: Timer<P>, now: int): Timer<P> {
    if timer.setAt == ZERO_TIME then timer.(setAt := now) else timer
  }

  function Newest<P>(timers: seq<Timer<P>>): seq<Timer<P>> {
    if |timers| > MAX_TIMERS then timers[|timers| - MAX_TIMERS..] else timers
  }

  function Set<P>(timers: seq<Timer<P>>, timer: Timer<P>, now: int): seq<Timer<P>> {
    Newest(RemoveTimer(timers, timer.sender) + [Stamp(timer, now)])
  }

  /** The first timer of an identity, and the store without it. */
  function Cancel<P>(timers: seq<Timer<P>>, sender: Sender): (Option<Timer<P>>, seq<Timer<P>>) {
    if timers == [] then (None, [])
    else if timers[0].sender == sender then (Some(timers[0]), timers[1..])
    else
      var (found, rest) := Cancel(timers[1..], sender);
      (found, [timers[0]] + rest)
  }

  function Expired<P>(timers: seq<Timer<P>>, at: int): seq<Timer<P>> {
    if timers == [] then []
    else
      var expired := Expired(timers[..|timers| - 1], at);
      if at < timers[|timers| - 1].deadline then expired else expired + [timers[|timers| - 1]]
  }

  function StillRunning<P>(timers: seq<Timer<P>>, at: int): seq<Timer<P>> {
    if timers == [] then []
    else
      var kept := StillRunning(timers[..|timers| - 1], at);
      if at < timers[|timers| - 1].deadline then kept + [timers[|timers| - 1]] else kept
  }

  /** A timer put behind every timer whose deadline is not later. */
  function Insert<P>(sorted: seq<Timer<P>>, t: Timer<P>): seq<Timer<P>> {
    if sorted != [] && t.deadline < sorted[|sorted| - 1].deadline
    then Insert(sorted[..|sorted| - 1], t) + [sorted[|sorted| - 1]]
    else sorted + [t]
  }

  /** Soonest deadline first. */
  function ByDeadline<P>(timers: seq<Timer<P>>): seq<Timer<P>> {
    if timers == [] then [] else Insert(ByDeadline(timers[..|timers| - 1]), timers[|timers| - 1])
  }

  /** removeTimer. */
  method Drop<P>(timers: seq<Timer<P>>, sender: Sender) returns (kept: seq<Timer<P>>)
    ensures kept == RemoveTimer(timers, sender)
  {
    kept := [];
    for i := 0 to |timers|
      invariant kept == RemoveTimer(timers[..i], sender)
    {
      assert timers[..i + 1][..i] == timers[..i];
      if timers[i].sender != sender {
        kept := kept + [timers[i]];
      }
    }
    assert timers[..|timers|] == timers;
  }

  class Store<P> {
    var timers: seq<Timer<P>>

    constructor ()
      ensures timers == []
    {
      timers := [];
    }

    method SetTimer(timer: Timer<P>, now: int) returns (stored: Timer<P>)
      modifies this
      ensures stored == Stamp(timer, now)
      ensures timers == Set(old(timers), timer, now)
    {
      stored := timer;
      if stored.setAt == ZERO_TIME {
        stored := stored.(setAt := now);
      }
      timers := Drop(timers, stored.sender);
      timers := timers + [stored];
      if |timers| > MAX_TIMERS {
        timers := timers[|timers| - MAX_TIMERS..];
      }
    }

    /** The timer is removed even when the state file cannot be written, and then the
        caller is told there was none. */
    method CancelTimer(sender: Sender, persisted: bool) returns (timer: Option<Timer<P>>, ok: bool)
      modifies this
      ensures (timer, timers) == Cancel(old(timers), sender)
      ensures ok == (timer.Some? && persisted)
    {
      var i := 0;
      while i < |timers|
        invariant 0 <= i <= |timers| && timers == old(timers)
        invariant forall j :: 0 <= j < i ==> timers[j].sender != sender
      {
        if timers[i].sender == sender {
          CancelAt(timers, sender, i);
          timer := Some(timers[i]);
          timers := timers[..i] + timers[i + 1..];
          return timer, persisted;
        }
        i := i + 1;
      }
      CancelNothing(timers, sender);
      return None, false;
    }

    method DueTimers(at: int) returns (expired: seq<Timer<P>>)
      modifies this
      ensures expired == Expired(old(timers), at)
      ensures timers == StillRunning(old(timers), at)
    {
      expired := [];
      var kept: seq<Timer<P>> := [];
      for i := 0 to |timers|
        invariant timers == old(timers)
        invariant expired == Expired(timers[..i], at) && kept == StillRunning(timers[..i], at)
      {
        assert timers[..i + 1][..i] == timers[..i];
        if at < timers[i].deadline {
          kept := kept + [timers[i]];
        } else {
          expired := expired + [timers[i]];
        }
      }
      assert timers[..|timers|] == timers;
      timers := kept;
    }

    /** list: an insertion sort of a copy, in place. */
    method List() returns (out: array<Timer<P>>)
      ensures fresh(out)
      ensures out[..] == ByDeadline(timers)
    {
      ghost var all := timers;
      out := new Timer<P>[|timers|](i requires 0 <= i < |timers| reads this => timers[i]);
      var i := 0;
      while i < out.Length
        invariant 0 <= i <= out.Length == |all|
        invariant out[..i] == ByDeadline(all[..i])
        invariant out[i..] == all[i..]
      {
        SinkInto(out, i);
        assert all[..i + 1][..i] == all[..i];
        i := i + 1;
      }
      assert all[..i] == all;
    }
  }

  lemma {:induction false} CancelAt<P>(timers: seq<Timer<P>>, sender: Sender, i: nat)
    requires i < |timers| && timers[i].sender == sender
    requires forall j :: 0 <= j < i ==> timers[j].sender != sender
    ensures Cancel(timers, sender) == (Some(timers[i]), timers[..i] + timers[i + 1..])
  {
    if i > 0 {
      CancelAt(timers[1..], sender, i - 1);
      assert [timers[0]] + (timers[1..][..i - 1] + timers[1..][i..]) == timers[..i] + timers[i + 1..];
    } else {
      assert timers[..0] + timers[1..] == timers[1..];
    }
  }

  lemma {:induction false} CancelNothing<P>(timers: seq<Timer<P>>, sender: Sender)
    requires forall j :: 0 <= j < |timers| ==> timers[j].sender != sender
    ensures Cancel(timers, sender) == (None, timers)
  {
    if timers != [] {
      CancelNothing(timers[1..], sender);
      assert [timers[0]] + timers[1..] == timers;
    }
  }

  /** The inner loop: the timer at `i` sinks to its place among the ones before it. */
  method SinkInto<P>(out: array<Timer<P>>, i: nat)
    requires i < out.Length
    modifies out
    ensures out[..i + 1] == Insert(old(out[..i]), old(out[i]))
    ensures out[i + 1..] == old(out[i + 1..])
  {
    hide Insert;
    ghost var before, t := out[..i], out[i];
    var j := i;
    while j > 0 && out[j].deadline < out[j - 1].deadline
      invariant 0 <= j <= i && out[j] == t
      invariant forall k :: 0 <= k < j ==> out[k] == before[k]
      invariant forall k :: j < k <= i ==> out[k] == before[k - 1]
      invariant forall k :: i < k < out.Length ==> out[k] == old(out[k])
      invariant forall k :: j <= k < i ==> t.deadline < before[k].deadline
    {
      out[j], out[j - 1] := out[j - 1], out[j];
      j := j - 1;
    }
    Inserted(before, t, j, out[..i + 1]);
  }

  /** A timer standing behind the last one that is not later has been inserted. */
  lemma {:induction false} Inserted<P>(before: seq<Timer<P>>, t: Timer<P>, j: nat, after: seq<Timer<P>>)
    requires j <= |before| && |after| == |before| + 1 && after[j] == t
    requires forall k :: 0 <= k < j ==> after[k] == before[k]
    requires forall k :: j < k < |after| ==> after[k] == before[k - 1]
    requires j > 0 ==> before[j - 1].deadline <= t.deadline
    requires forall k :: j <= k < |before| ==> t.deadline < before[k].deadline
    ensures after == Insert(before, t)
  {
    var n := |before|;
    if j == n {
      assert after == before + [t];
    } else {
      Inserted(before[..n - 1], t, j, after[..n]);
      assert after == after[..n] + [before[n - 1]];
    }
  }

  // ------------------------------------------------- the listing is a stable sort

  ghost predicate SortedByDeadline<P>(timers: seq<Timer<P>>) {
    forall i, j :: 0 <= i < j < |timers| ==> timers[i].deadline <= timers[j].deadline
  }

  /** The timers with one deadline, in order. */
  function WithDeadline<P>(timers: seq<Timer<P>>, d: int): seq<Timer<P>> {
    if timers == [] then []
    else
      var rest := WithDeadline(timers[..|timers| - 1], d);
      if timers[|timers| - 1].deadline == d then rest + [timers[|timers| - 1]] else rest
  }

  lemma {:induction false} InsertKeepsOrder<P>(sorted: seq<Timer<P>>, t: Timer<P>, d: int)
    requires SortedByDeadline(sorted)
    ensures SortedByDeadline(Insert(sorted, t))
    ensures multiset(Insert(sorted, t)) == multiset(sorted) + multiset{t}
    ensures WithDeadline(Insert(sorted, t), d) == WithDeadline(sorted + [t], d)
  {
    hide WithDeadline;
    var n := |sorted| - 1;
    if sorted != [] && t.deadline < sorted[n].deadline {
      InsertKeepsOrder(sorted[..n], t, d);
      var inner := Insert(sorted[..n], t);
      assert sorted == sorted[..n] + [sorted[n]];
      forall i | 0 <= i < |inner| ensures inner[i].deadline <= sorted[n].deadline {
        assert inner[i] in multiset(inner);
      }
      SwapDifferent(inner, sorted, t, d);
    }
  }

  lemma SwapDifferent<P>(inner: seq<Timer<P>>, sorted: seq<Timer<P>>, t: Timer<P>, d: int)
    requires sorted != [] && t.deadline != sorted[|sorted| - 1].deadline
    requires WithDeadline(inner, d) == WithDeadline(sorted[..|sorted| - 1] + [t], d)
    ensures WithDeadline(inner + [sorted[|sorted| - 1]], d) == WithDeadline(sorted + [t], d)
  {
    hide WithDeadline;
    var n := |sorted| - 1;
    assert sorted == sorted[..n] + [sorted[n]];
    WithDeadlineAppend(inner, sorted[n], d);
    WithDeadlineAppend(sorted[..n], t, d);
    WithDeadlineAppend(sorted, t, d);
    WithDeadlineAppend(sorted[..n], sorted[n], d);
  }

  lemma WithDeadlineAppend<P>(timers: seq<Timer<P>>, t: Timer<P>, d: int)
    ensures WithDeadline(timers + [t], d)
         == if t.deadline == d then WithDeadline(timers, d) + [t] else WithDeadline(timers, d)
  {
    assert (timers + [t])[..|timers|] == timers;
  }

  /** The listing is sorted by deadline, holds the same timers, and keeps timers of one
      deadline in the order of their registration. */
  lemma {:induction false} ListingIsAStableSort<P>(timers: seq<Timer<P>>, d: int)
    ensures SortedByDeadline(ByDeadline(timers))
    ensures multiset(ByDeadline(timers)) == multiset(timers)
    ensures WithDeadline(ByDeadline(timers), d) == WithDeadline(timers, d)
  {
    ByDeadlineUnfolds(timers);
    hide ByDeadline, Insert, WithDeadline, SortedByDeadline;
    if timers != [] {
      var n := |timers| - 1;
      ListingIsAStableSort(timers[..n], d);
      InsertKeepsOrder(ByDeadline(timers[..n]), timers[n], d);
      assert timers == timers[..n] + [timers[n]];
      WithDeadlineAppend(timers[..n], timers[n], d);
      WithDeadlineAppend(ByDeadline(timers[..n]), timers[n], d);
    }
  }

  lemma ByDeadlineUnfolds<P>(timers: seq<Timer<P>>)
    ensures timers == [] ==> ByDeadline(timers) == [] && SortedByDeadline(ByDeadline(timers))
    ensures timers != [] ==>
              ByDeadline(timers) == Insert(ByDeadline(timers[..|timers| - 1]), timers[|timers| - 1])
  {
    hide Insert;
  }

  // ------------------------------------------------------------- whole runs

  datatype Op<P> =
    | DoSet(timer: Timer<P>, now: int)
    | DoCancel(sender: Sender)
    | DoCheck(at: int)

  datatype Alarm<P> = Alarm(timer: Timer<P>, at: int)

  /** The store and what became of every timer ever registered. */
  datatype Ledger<P(==)> = Ledger(pending: seq<Timer<P>>, registered: multiset<Timer<P>>,
                              replaced: multiset<Timer<P>>, cancelled: multiset<Timer<P>>,
                              evicted: multiset<Timer<P>>, alarms: seq<Alarm<P>>)

  /** The timers of one identity. */
  ghost function OfSender<P>(timers: seq<Timer<P>>, sender: Sender): multiset<Timer<P>> {
    if timers == [] then multiset{}
    else
      var rest, last := OfSender(timers[..|timers| - 1], sender), timers[|timers| - 1];
      if last.sender == sender then rest + multiset{last} else rest
  }

  ghost function Alarmed<P>(alarms: seq<Alarm<P>>): multiset<Timer<P>> {
    if alarms == [] then multiset{} else Alarmed(alarms[..|alarms| - 1]) + multiset{alarms[|alarms| - 1].timer}
  }

  /** One alarm for each expired timer, as the watchdog delivers them. */
  function Raise<P>(expired: seq<Timer<P>>, at: int): (r: seq<Alarm<P>>)
    ensures |r| == |expired|
    ensures forall i :: 0 <= i < |expired| ==> r[i] == Alarm(expired[i], at)
  {
    seq(|expired|, i requires 0 <= i < |expired| => Alarm(expired[i], at))
  }

  ghost function Step<P>(l: Ledger<P>, op: Op<P>): Ledger<P> {
    match op
    case DoSet(timer, now) =>
      var all := RemoveTimer(l.pending, timer.sender) + [Stamp(timer, now)];
      l.(pending := Set(l.pending, timer, now),
         registered := l.registered + multiset{Stamp(timer, now)},
         replaced := l.replaced + OfSender(l.pending, timer.sender),
         evicted := l.evicted + multiset(all[..|all| - |Newest(all)|]))
    case DoCancel(sender) =>
      var (found, rest) := Cancel(l.pending, sender);
      l.(pending := rest,
         cancelled := l.cancelled + (if found.Some? then multiset{found.value} else multiset{}))
    case DoCheck(at) =>
      l.(pending := StillRunning(l.pending, at), alarms := l.alarms + Raise(Expired(l.pending, at), at))
  }

  ghost function After<P>(ops: seq<Op<P>>): Ledger<P> {
    if ops == [] then Ledger([], multiset{}, multiset{}, multiset{}, multiset{}, [])
    else Step(After(ops[..|ops| - 1]), ops[|ops| - 1])
  }

  ghost predicate OnePerSender<P>(timers: seq<Timer<P>>) {
    forall i, j :: 0 <= i < j < |timers| ==> timers[i].sender != timers[j].sender
  }

  /** Every registered timer is accounted for exactly as often as it was registered. */
  ghost predicate Balanced<P>(l: Ledger<P>) {
    l.registered == multiset(l.pending) + l.replaced + l.cancelled + l.evicted + Alarmed(l.alarms)
  }

  ghost predicate Inv<P>(l: Ledger<P>) {
    && OnePerSender(l.pending) && |l.pending| <= MAX_TIMERS
    && Balanced(l)
    && forall i :: 0 <= i < |l.alarms| ==> l.alarms[i].timer.deadline <= l.alarms[i].at
  }

  /** Some of the timers, still at most one per identity. */
  ghost predicate Part<P>(kept: seq<Timer<P>>, timers: seq<Timer<P>>) {
    OnePerSender(kept) && |kept| <= |timers| && forall i :: 0 <= i < |kept| ==> kept[i] in timers
  }

  lemma PartGrows<P>(kept: seq<Timer<P>>, timers: seq<Timer<P>>)
    requires timers != [] && OnePerSender(timers) && Part(kept, timers[..|timers| - 1])
    ensures Part(kept, timers) && Part(kept + [timers[|timers| - 1]], timers)
  {
    var n := |timers| - 1;
    forall i | 0 <= i < |kept| ensures kept[i] in timers && kept[i].sender != timers[n].sender {
      assert kept[i] in timers[..n];
      var k :| 0 <= k < n && timers[..n][k] == kept[i];
      assert timers[k] == kept[i];
    }
    assert timers[n] in timers;
  }

  lemma MultisetOfLast<P>(timers: seq<Timer<P>>)
    requires timers != []
    ensures multiset(timers) == multiset(timers[..|timers| - 1]) + multiset{timers[|timers| - 1]}
  {
    assert timers == timers[..|timers| - 1] + [timers[|timers| - 1]];
  }

  lemma MultisetOfMore<P>(timers: seq<Timer<P>>, t: Timer<P>)
    ensures multiset(timers + [t]) == multiset(timers) + multiset{t}
  {
  }

  lemma {:induction false} RemoveKeepsPart<P>(timers: seq<Timer<P>>, sender: Sender)
    requires OnePerSender(timers)
    ensures Part(RemoveTimer(timers, sender), timers)
    ensures forall i :: 0 <= i < |RemoveTimer(timers, sender)| ==> RemoveTimer(timers, sender)[i].sender != sender
  {
    hide Part;
    if timers != [] {
      RemoveKeepsPart(timers[..|timers| - 1], sender);
      PartGrows(RemoveTimer(timers[..|timers| - 1], sender), timers);
    } else {
      assert Part<P>([], []) by { EmptyPart<P>(); }
    }
  }

  lemma EmptyPart<P>()
    ensures Part<P>([], [])
  {
  }

  /** Removing takes out the timers of one identity and keeps every other. */
  lemma {:induction false} RemoveKeepsOthers<P>(timers: seq<Timer<P>>, sender: Sender)
    ensures forall t :: t in RemoveTimer(timers, sender) ==> t in timers && t.sender != sender
    ensures forall t :: t in timers && t.sender != sender ==> t in RemoveTimer(timers, sender)
  {
    if timers != [] {
      var n := |timers| - 1;
      RemoveKeepsOthers(timers[..n], sender);
      assert timers == timers[..n] + [timers[n]];
    }
  }

  lemma {:induction false} CheckKeepsPart<P>(timers: seq<Timer<P>>, at: int)
    requires OnePerSender(timers)
    ensures Part(StillRunning(timers, at), timers)
  {
    hide Part;
    if timers != [] {
      CheckKeepsPart(timers[..|timers| - 1], at);
      PartGrows(StillRunning(timers[..|timers| - 1], at), timers);
    } else {
      EmptyPart<P>();
    }
  }

  lemma {:induction false} CheckConserves<P>(timers: seq<Timer<P>>, at: int)
    ensures multiset(timers) == multiset(StillRunning(timers, at)) + multiset(Expired(timers, at))
  {
    if timers != [] {
      var n := |timers| - 1;
      CheckConserves(timers[..n], at);
      MultisetOfLast(timers);
      MultisetOfMore(StillRunning(timers[..n], at), timers[n]);
      MultisetOfMore(Expired(timers[..n], at), timers[n]);
    }
  }

  lemma {:induction false} CheckDeadlines<P>(timers: seq<Timer<P>>, at: int)
    ensures forall i :: 0 <= i < |Expired(timers, at)| ==> Expired(timers, at)[i].deadline <= at
    ensures forall i :: 0 <= i < |StillRunning(timers, at)| ==> at < StillRunning(timers, at)[i].deadline
  {
    if timers != [] {
      CheckDeadlines(timers[..|timers| - 1], at);
    }
  }

  /** A check at an instant splits the timers by deadline. */
  lemma CheckSplits<P>(timers: seq<Timer<P>>, at: int)
    ensures multiset(timers) == multiset(StillRunning(timers, at)) + multiset(Expired(timers, at))
    ensures forall i :: 0 <= i < |Expired(timers, at)| ==> Expired(timers, at)[i].deadline <= at
    ensures forall i :: 0 <= i < |StillRunning(timers, at)| ==> at < StillRunning(timers, at)[i].deadline
  {
    hide StillRunning, Expired;
    CheckConserves(timers, at);
    CheckDeadlines(timers, at);
  }

  /** Cancelling takes out the timer of that identity, if there is one. */
  lemma CancelSplits<P>(timers: seq<Timer<P>>, sender: Sender)
    requires OnePerSender(timers)
    ensures var (found, rest) := Cancel(timers, sender);
            && multiset(timers) == multiset(rest) + (if found.Some? then multiset{found.value} else multiset{})
            && Part(rest, timers)
            && (forall i :: 0 <= i < |rest| ==> rest[i].sender != sender)
            && (found.Some? <==> exists i :: 0 <= i < |timers| && timers[i].sender == sender)
            && (found.Some? ==> found.value.sender == sender)
  {
    hide Cancel, Part;
    if i :| 0 <= i < |timers| && timers[i].sender == sender {
      CancelAt(timers, sender, i);
      TakeOut(timers, i);
    } else {
      CancelNothing(timers, sender);
      WholePart(timers);
    }
  }

  lemma WholePart<P>(timers: seq<Timer<P>>)
    requires OnePerSender(timers)
    ensures Part(timers, timers)
  {
  }

  lemma TakeOut<P>(timers: seq<Timer<P>>, i: nat)
    requires i < |timers| && OnePerSender(timers)
    ensures var rest := timers[..i] + timers[i + 1..];
            && multiset(timers) == multiset(rest) + multiset{timers[i]}
            && Part(rest, timers)
            && (forall k :: 0 <= k < |rest| ==> rest[k].sender != timers[i].sender)
  {
    var rest := timers[..i] + timers[i + 1..];
    assert timers == timers[..i] + [timers[i]] + timers[i + 1..];
    forall k | 0 <= k < |rest| ensures rest[k] == timers[if k < i then k else k + 1] {
    }
  }

  lemma {:induction false} AlarmedAppend<P>(alarms: seq<Alarm<P>>, expired: seq<Timer<P>>, at: int)
    ensures Alarmed(alarms + Raise(expired, at)) == Alarmed(alarms) + multiset(expired)
  {
    hide Alarmed;
    if expired == [] {
      assert alarms + Raise(expired, at) == alarms;
    } else {
      var n := |expired| - 1;
      var sofar := alarms + Raise(expired[..n], at);
      assert alarms + Raise(expired, at) == sofar + [Alarm(expired[n], at)];
      AlarmedAppend(alarms, expired[..n], at);
      AlarmedMore(sofar, Alarm(expired[n], at));
      MultisetOfLast(expired);
    }
  }

  lemma AlarmedMore<P>(alarms: seq<Alarm<P>>, a: Alarm<P>)
    ensures Alarmed(alarms + [a]) == Alarmed(alarms) + multiset{a.timer}
  {
    assert (alarms + [a])[..|alarms|] == alarms;
  }

  // -------------------------------------------------------- one step of a run

  lemma SetKeepsOnePerSender<P>(timers: seq<Timer<P>>, timer: Timer<P>, now: int)
    requires OnePerSender(timers)
    ensures OnePerSender(Set(timers, timer, now)) && |Set(timers, timer, now)| <= MAX_TIMERS
  {
    hide RemoveTimer, Newest;
    RemoveKeepsPart(timers, timer.sender);
    var all := RemoveTimer(timers, timer.sender) + [Stamp(timer, now)];
    NewestSplits(all);
    assert OnePerSender(all);
  }

  /** What a registration replaces is the identity's own. */
  lemma {:induction false} OfSenderIsTheSenders<P>(timers: seq<Timer<P>>, sender: Sender)
    ensures forall t :: t in OfSender(timers, sender) <==> t in timers && t.sender == sender
  {
    if timers != [] {
      OfSenderIsTheSenders(timers[..|timers| - 1], sender);
      assert timers == timers[..|timers| - 1] + [timers[|timers| - 1]];
    }
  }

  /** The timers are those of one identity and those that removing it keeps. */
  lemma {:induction false} OfSenderIsTheRest<P>(timers: seq<Timer<P>>, sender: Sender)
    ensures multiset(timers) == multiset(RemoveTimer(timers, sender)) + OfSender(timers, sender)
  {
    if timers != [] {
      var n := |timers| - 1;
      OfSenderIsTheRest(timers[..n], sender);
      MultisetOfLast(timers);
      MultisetOfMore(RemoveTimer(timers[..n], sender), timers[n]);
    }
  }

  lemma SetBalances<P>(l: Ledger<P>, timer: Timer<P>, now: int)
    requires Balanced(l)
    ensures Balanced(Step(l, DoSet(timer, now)))
  {
    hide RemoveTimer, OfSender, Alarmed, Newest;
    var t := Stamp(timer, now);
    var kept := RemoveTimer(l.pending, timer.sender);
    var all := kept + [t];
    OfSenderIsTheRest(l.pending, timer.sender);
    MultisetOfMore(kept, t);
    NewestSplits(all);
    hide Stamp, OnePerSender;
    Transfer(l.registered, multiset(l.pending), l.replaced, l.cancelled, l.evicted, Alarmed(l.alarms),
             multiset(kept), OfSender(l.pending, timer.sender), multiset{t},
             multiset(Newest(all)), multiset(all[..|all| - |Newest(all)|]));
  }

  lemma SetKeepsInv<P>(l: Ledger<P>, timer: Timer<P>, now: int)
    requires Inv(l)
    ensures Inv(Step(l, DoSet(timer, now)))
  {
    hide Set, Balanced, OnePerSender;
    SetKeepsOnePerSender(l.pending, timer, now);
    SetBalances(l, timer, now);
  }

  lemma NewestSplits<P>(all: seq<Timer<P>>)
    ensures |Newest(all)| <= |all| && |Newest(all)| <= MAX_TIMERS
    ensures multiset(all) == multiset(all[..|all| - |Newest(all)|]) + multiset(Newest(all))
    ensures OnePerSender(all) ==> OnePerSender(Newest(all))
  {
    var cut := |all| - |Newest(all)|;
    assert all == all[..cut] + all[cut..];
    assert Newest(all) == all[cut..];
  }

  /** Moving timers between accounts keeps the balance. */
  lemma Transfer<T>(registered: multiset<T>, pending: multiset<T>, replaced: multiset<T>, cancelled: multiset<T>,
                    evicted: multiset<T>, fired: multiset<T>, kept: multiset<T>, old': multiset<T>, one: multiset<T>,
                    newest: multiset<T>, dropped: multiset<T>)
    requires registered == pending + replaced + cancelled + evicted + fired
    requires pending == kept + old' && kept + one == dropped + newest
    ensures registered + one == newest + (replaced + old') + cancelled + (evicted + dropped) + fired
  {
    forall x
      ensures (registered + one)[x] == (newest + (replaced + old') + cancelled + (evicted + dropped) + fired)[x]
    {
      assert (kept + one)[x] == (dropped + newest)[x];
    }
  }

  lemma CancelKeepsInv<P>(l: Ledger<P>, sender: Sender)
    requires Inv(l)
    ensures Inv(Step(l, DoCancel(sender)))
  {
    hide Cancel, Alarmed;
    CancelSplits(l.pending, sender);
  }

  lemma CheckKeepsInv<P>(l: Ledger<P>, at: int)
    requires Inv(l)
    ensures Inv(Step(l, DoCheck(at)))
  {
    hide StillRunning, Expired, Alarmed;
    CheckSplits(l.pending, at);
    CheckKeepsPart(l.pending, at);
    AlarmedAppend(l.alarms, Expired(l.pending, at), at);
  }

  lemma {:induction false} RunInv<P>(ops: seq<Op<P>>)
    ensures Inv(After(ops))
  {
    if ops != [] {
      hide Step, Inv;
      var l := After(ops[..|ops| - 1]);
      RunInv(ops[..|ops| - 1]);
      match ops[|ops| - 1] {
        case DoSet(timer, now) => SetKeepsInv(l, timer, now);
        case DoCancel(sender) => CancelKeepsInv(l, sender);
        case DoCheck(at) => CheckKeepsInv(l, at);
      }
    }
  }

  // ------------------------------------------------------- what every run keeps

  /** In every run each identity has at most one pending timer, at most a hundred are
      pending, every registered timer is exactly one of pending, replaced, cancelled,
      evicted and fired, and no alarm is early. */
  lemma EveryTimerHasOneFate<P>(ops: seq<Op<P>>)
    ensures OnePerSender(After(ops).pending) && |After(ops).pending| <= 100
    ensures Balanced(After(ops))
    ensures forall i :: 0 <= i < |After(ops).alarms| ==>
              After(ops).alarms[i].timer.deadline <= After(ops).alarms[i].at
  {
    RunInv(ops);
  }

  /** A timer registered once fires at most once, and never after it was replaced,
      cancelled or evicted. */
  lemma AlarmFiresAtMostOnce<P>(ops: seq<Op<P>>, i: nat, t: Timer<P>)
    requires After(ops).registered[t] == 1
    requires i < |After(ops).alarms| && After(ops).alarms[i].timer == t
    ensures forall j :: 0 <= j < |After(ops).alarms| && After(ops).alarms[j].timer == t ==> j == i
    ensures t !in After(ops).pending && t !in After(ops).replaced
    ensures t !in After(ops).cancelled && t !in After(ops).evicted
  {
    hide After;
    RunInv(ops);
    var alarms := After(ops).alarms;
    AlarmedCounts(alarms, t, i);
    forall j | 0 <= j < |alarms| && alarms[j].timer == t && j != i ensures false {
      AlarmedTwice(alarms, t, if i < j then i else j, if i < j then j else i);
    }
  }

  lemma {:induction false} AlarmedCounts<P>(alarms: seq<Alarm<P>>, t: Timer<P>, i: nat)
    requires i < |alarms| && alarms[i].timer == t
    ensures Alarmed(alarms)[t] >= 1
  {
    if i < |alarms| - 1 { AlarmedCounts(alarms[..|alarms| - 1], t, i); }
  }

  lemma {:induction false} AlarmedTwice<P>(alarms: seq<Alarm<P>>, t: Timer<P>, i: nat, j: nat)
    requires i < j < |alarms| && alarms[i].timer == t == alarms[j].timer
    ensures Alarmed(alarms)[t] >= 2
  {
    if j < |alarms| - 1 {
      AlarmedTwice(alarms[..|alarms| - 1], t, i, j);
    } else {
      AlarmedCounts(alarms[..|alarms| - 1], t, i);
    }
  }

  /** After a check no pending timer is overdue, and every timer that was overdue has
      raised its alarm. */
  lemma CheckLeavesNothingOverdue<P>(ops: seq<Op<P>>, at: int)
    ensures var before, after := After(ops), After(ops + [DoCheck(at)]);
            && (forall i :: 0 <= i < |after.pending| ==> at < after.pending[i].deadline)
            && (forall i :: 0 <= i < |before.pending| && before.pending[i].deadline <= at ==>
                  Alarm(before.pending[i], at) in after.alarms)
            && before.alarms <= after.alarms
  {
    var before := After(ops);
    assert (ops + [DoCheck(at)])[..|ops|] == ops;
    CheckSplits(before.pending, at);
    forall i | 0 <= i < |before.pending| && before.pending[i].deadline <= at
      ensures Alarm(before.pending[i], at) in Raise(Expired(before.pending, at), at)
    {
      OverdueIsRaised(before.pending, at, i);
    }
  }

  lemma OverdueIsRaised<P>(timers: seq<Timer<P>>, at: int, i: nat)
    requires i < |timers| && timers[i].deadline <= at
    ensures Alarm(timers[i], at) in Raise(Expired(timers, at), at)
  {
    hide Expired, StillRunning;
    var t := timers[i];
    CheckSplits(timers, at);
    assert t in multiset(timers);
    assert t in Expired(timers, at);
    var k :| 0 <= k < |Expired(timers, at)| && Expired(timers, at)[k] == t;
    assert Raise(Expired(timers, at), at)[k] == Alarm(t, at);
  }

  /** After a registration the traveller's pending timer is the new one. */
  lemma SetIsPending<P>(timers: seq<Timer<P>>, timer: Timer<P>, now: int)
    requires OnePerSender(timers)
    ensures Stamp(timer, now) in Set(timers, timer, now)
    ensures forall t :: t in Set(timers, timer, now) && t.sender == timer.sender ==> t == Stamp(timer, now)
  {
    RemoveKeepsPart(timers, timer.sender);
    var r := Set(timers, timer, now);
    assert r[|r| - 1] == Stamp(timer, now);
  }

  ghost predicate HasTimer<P>(timers: seq<Timer<P>>, sender: Sender) {
    exists i :: 0 <= i < |timers| && timers[i].sender == sender
  }

  lemma RemoveSize<P>(timers: seq<Timer<P>>, sender: Sender)
    ensures !HasTimer(timers, sender) ==> RemoveTimer(timers, sender) == timers
    ensures HasTimer(timers, sender) ==> |RemoveTimer(timers, sender)| < |timers|
  {
    hide RemoveTimer;
    if HasTimer(timers, sender) {
      OfSenderIsTheRest(timers, sender);
      RemoveKeepsOthers(timers, sender);
      var i :| 0 <= i < |timers| && timers[i].sender == sender;
      assert timers[i] in multiset(timers) && timers[i] !in multiset(RemoveTimer(timers, sender));
      assert |multiset(timers)| == |timers|;
    } else {
      RemoveNothing(timers, sender);
    }
  }

  lemma {:induction false} RemoveNothing<P>(timers: seq<Timer<P>>, sender: Sender)
    requires !HasTimer(timers, sender)
    ensures RemoveTimer(timers, sender) == timers
  {
    if timers != [] {
      var n := |timers| - 1;
      assert timers[n].sender != sender;
      forall i | 0 <= i < n ensures timers[..n][i].sender != sender { assert timers[i].sender != sender; }
      RemoveNothing(timers[..n], sender);
    }
  }

  /** When an identity last registered: the index of the operation, or -1. */
  ghost function LastSet<P>(ops: seq<Op<P>>, sender: Sender): int {
    if ops == [] then -1
    else if ops[|ops| - 1].DoSet? && ops[|ops| - 1].timer.sender == sender then |ops| - 1
    else LastSet(ops[..|ops| - 1], sender)
  }

  lemma {:induction false} LastSetIsEarlier<P>(ops: seq<Op<P>>, sender: Sender)
    ensures -1 <= LastSet(ops, sender) < |ops|
  {
    if ops != [] { LastSetIsEarlier(ops[..|ops| - 1], sender); }
  }

  /** Earlier registered, earlier in the store. */
  ghost predicate ByRegistration<P>(timers: seq<Timer<P>>, ops: seq<Op<P>>) {
    forall i, j :: 0 <= i < j < |timers| ==> LastSet(ops, timers[i].sender) < LastSet(ops, timers[j].sender)
  }

  lemma ByRegistrationPrefix<P>(timers: seq<Timer<P>>, ops: seq<Op<P>>, kept: seq<Timer<P>>)
    requires timers != [] && ByRegistration(timers, ops) && ByRegistration(kept, ops)
    requires forall t :: t in kept ==> t in timers[..|timers| - 1]
    ensures ByRegistration(kept + [timers[|timers| - 1]], ops)
  {
    hide LastSet;
    var n := |timers| - 1;
    forall i | 0 <= i < |kept| ensures LastSet(ops, kept[i].sender) < LastSet(ops, timers[n].sender) {
      assert kept[i] in kept;
      var k :| 0 <= k < n && timers[..n][k] == kept[i];
      assert timers[k] == kept[i];
    }
  }

  lemma {:induction false} RemoveKeepsRegistration<P>(timers: seq<Timer<P>>, ops: seq<Op<P>>, sender: Sender)
    requires ByRegistration(timers, ops)
    ensures ByRegistration(RemoveTimer(timers, sender), ops)
  {
    hide LastSet;
    if timers != [] {
      var n := |timers| - 1;
      assert ByRegistration(timers[..n], ops);
      RemoveKeepsRegistration(timers[..n], ops, sender);
      RemoveKeepsOthers(timers[..n], sender);
      ByRegistrationPrefix(timers, ops, RemoveTimer(timers[..n], sender));
    }
  }

  lemma {:induction false} RunningAreSome<P>(timers: seq<Timer<P>>, at: int)
    ensures forall t :: t in StillRunning(timers, at) ==> t in timers
  {
    if timers != [] {
      RunningAreSome(timers[..|timers| - 1], at);
    }
  }

  lemma {:induction false} CheckKeepsRegistration<P>(timers: seq<Timer<P>>, ops: seq<Op<P>>, at: int)
    requires ByRegistration(timers, ops)
    ensures ByRegistration(StillRunning(timers, at), ops)
  {
    hide LastSet;
    if timers != [] {
      var n := |timers| - 1;
      assert ByRegistration(timers[..n], ops);
      CheckKeepsRegistration(timers[..n], ops, at);
      RunningAreSome(timers[..n], at);
      ByRegistrationPrefix(timers, ops, StillRunning(timers[..n], at));
    }
  }

  lemma CancelKeepsRegistration<P>(timers: seq<Timer<P>>, ops: seq<Op<P>>, sender: Sender)
    requires ByRegistration(timers, ops)
    ensures ByRegistration(Cancel(timers, sender).1, ops)
  {
    hide LastSet, Cancel;
    if i :| 0 <= i < |timers| && timers[i].sender == sender && (forall j :: 0 <= j < i ==> timers[j].sender != sender) {
      CancelAt(timers, sender, i);
      var rest := timers[..i] + timers[i + 1..];
      forall k | 0 <= k < |rest| ensures rest[k] == timers[if k < i then k else k + 1] {
      }
    } else {
      NoFirstTimer(timers, sender);
      CancelNothing(timers, sender);
    }
  }

  /** An identity without a first timer has none. */
  lemma {:induction false} NoFirstTimer<P>(timers: seq<Timer<P>>, sender: Sender)
    requires forall i :: 0 <= i < |timers| && timers[i].sender == sender ==>
               exists j :: 0 <= j < i && timers[j].sender == sender
    ensures forall i :: 0 <= i < |timers| ==> timers[i].sender != sender
  {
    for n := 0 to |timers|
      invariant forall i :: 0 <= i < n ==> timers[i].sender != sender
    {
    }
  }

  lemma SetKeepsRegistration<P>(timers: seq<Timer<P>>, ops: seq<Op<P>>, timer: Timer<P>, now: int)
    requires ByRegistration(timers, ops)
    ensures ByRegistration(Set(timers, timer, now), ops + [DoSet(timer, now)])
  {
    hide RemoveTimer, LastSet;
    var more := ops + [DoSet(timer, now)];
    var kept := RemoveTimer(timers, timer.sender);
    RemoveKeepsRegistration(timers, ops, timer.sender);
    RemoveKeepsOthers(timers, timer.sender);
    forall i | 0 <= i < |kept| ensures LastSet(more, kept[i].sender) == LastSet(ops, kept[i].sender) < |ops| {
      assert kept[i] in kept;
      LastSetMore(ops, DoSet(timer, now), kept[i].sender);
      LastSetIsEarlier(ops, kept[i].sender);
    }
    LastSetMore(ops, DoSet(timer, now), timer.sender);
    var all := kept + [Stamp(timer, now)];
    assert ByRegistration(all, more);
  }

  lemma LastSetMore<P>(ops: seq<Op<P>>, op: Op<P>, sender: Sender)
    ensures LastSet(ops + [op], sender)
         == if op.DoSet? && op.timer.sender == sender then |ops| else LastSet(ops, sender)
  {
    assert (ops + [op])[..|ops|] == ops;
  }

  /** After every run the store lists the timers in the order of their registration. */
  lemma {:induction false} StoreIsByRegistration<P>(ops: seq<Op<P>>)
    ensures ByRegistration(After(ops).pending, ops)
  {
    hide After, LastSet, ByRegistration, Set, Cancel, StillRunning;
    if ops == [] {
      NothingPendingYet<P>();
    } else {
      var n := |ops| - 1;
      var before, op := ops[..n], ops[n];
      StoreIsByRegistration(before);
      assert ops == before + [op];
      var pending := After(before).pending;
      PendingAfter(before, op);
      match op {
        case DoSet(timer, now) =>
          SetKeepsRegistration(pending, before, timer, now);
        case DoCancel(sender) =>
          CancelKeepsRegistration(pending, before, sender);
          SameRegistration(Cancel(pending, sender).1, before, op);
        case DoCheck(at) =>
          CheckKeepsRegistration(pending, before, at);
          SameRegistration(StillRunning(pending, at), before, op);
      }
    }
  }

  lemma NothingPendingYet<P>()
    ensures ByRegistration(After<P>([]).pending, [])
  {
  }

  lemma PendingAfter<P>(ops: seq<Op<P>>, op: Op<P>)
    ensures op.DoSet? ==> After(ops + [op]).pending == Set(After(ops).pending, op.timer, op.now)
    ensures op.DoCancel? ==> After(ops + [op]).pending == Cancel(After(ops).pending, op.sender).1
    ensures op.DoCheck? ==> After(ops + [op]).pending == StillRunning(After(ops).pending, op.at)
  {
    hide Set, Cancel, StillRunning;
    assert (ops + [op])[..|ops|] == ops;
  }

  lemma SameRegistration<P>(timers: seq<Timer<P>>, ops: seq<Op<P>>, op: Op<P>)
    requires ByRegistration(timers, ops) && !op.DoSet?
    ensures ByRegistration(timers, ops + [op])
  {
    hide LastSet;
    forall i | 0 <= i < |timers| ensures LastSet(ops + [op], timers[i].sender) == LastSet(ops, timers[i].sender) {
      LastSetMore(ops, op, timers[i].sender);
    }
  }

  /** The timer leaves the store although another identity registered. */
  ghost predicate Loses<P>(pending: seq<Timer<P>>, stored: seq<Timer<P>>, timer: Timer<P>, t: Timer<P>) {
    t in pending && t.sender != timer.sender && t !in stored
  }

  /** After every run a registration costs another identity a timer exactly when the store
      is full and the identity is new to it, and then it is the one registered first. */
  lemma NewcomerEvictsOnlyTheEarliest<P(!new)>(ops: seq<Op<P>>, timer: Timer<P>, now: int)
    ensures var pending := After(ops).pending;
            var stored := Set(pending, timer, now);
            && ((exists t :: Loses(pending, stored, timer, t)) <==>
                  |pending| == MAX_TIMERS && !HasTimer(pending, timer.sender))
            && (forall t, u :: Loses(pending, stored, timer, t) && u in pending && u != t ==>
                  LastSet(ops, t.sender) < LastSet(ops, u.sender))
  {
    hide After, RemoveTimer, Stamp, LastSet;
    var pending := After(ops).pending;
    var stored := Set(pending, timer, now);
    EveryTimerHasOneFate(ops);
    StoreIsByRegistration(ops);
    RemoveSize(pending, timer.sender);
    RemoveKeepsOthers(pending, timer.sender);
    if |pending| == MAX_TIMERS && !HasTimer(pending, timer.sender) {
      FrontIsLost(pending, timer, now);
      assert Loses(pending, stored, timer, pending[0]);
      forall u | u in pending && u != pending[0]
        ensures LastSet(ops, pending[0].sender) < LastSet(ops, u.sender)
      {
        var k :| 0 <= k < |pending| && pending[k] == u;
      }
    } else {
      assert stored == RemoveTimer(pending, timer.sender) + [Stamp(timer, now)];
    }
  }

  /** A full store loses its front, and only its front, to a newcomer. */
  lemma FrontIsLost<P(!new)>(pending: seq<Timer<P>>, timer: Timer<P>, now: int)
    requires OnePerSender(pending) && |pending| == MAX_TIMERS && !HasTimer(pending, timer.sender)
    ensures forall t :: Loses(pending, Set(pending, timer, now), timer, t) <==> t == pending[0]
  {
    RemoveNothing(pending, timer.sender);
    hide RemoveTimer;
    var stored := Set(pending, timer, now);
    assert stored == pending[1..] + [Stamp(timer, now)];
    assert pending == [pending[0]] + pending[1..];
    assert pending[0].sender != timer.sender;
    assert pending[0] !in pending[1..];
  }

  // ------------------------------------------- the alarm is that of the registration

  /** The operation leaves the timer of an identity alone: it is not that identity's, no
      check at or past the deadline, and no newcomer to a full store with that timer at its
      front. */
  ghost predicate Spares<P>(pending: seq<Timer<P>>, op: Op<P>, sender: Sender, deadline: int) {
    match op
    case DoSet(other, _) =>
      && other.sender != sender
      && (|pending| == 100 && !HasTimer(pending, other.sender) ==> pending[0].sender != sender)
    case DoCancel(other) => other != sender
    case DoCheck(at) => at < deadline
  }

  lemma {:induction false} RunningKeepsLater<P>(timers: seq<Timer<P>>, at: int, t: Timer<P>)
    requires t in timers && at < t.deadline
    ensures t in StillRunning(timers, at)
  {
    var n := |timers| - 1;
    assert timers == timers[..n] + [timers[n]];
    if t in timers[..n] { RunningKeepsLater(timers[..n], at, t); }
  }

  lemma CancelKeepsOthers<P>(timers: seq<Timer<P>>, sender: Sender, t: Timer<P>)
    requires t in timers && t.sender != sender && OnePerSender(timers)
    ensures t in Cancel(timers, sender).1
  {
    hide Cancel;
    CancelSplits(timers, sender);
    assert t in multiset(timers);
    var (found, rest) := Cancel(timers, sender);
    assert t in multiset(rest);
  }

  lemma SetKeepsOthers<P>(timers: seq<Timer<P>>, other: Timer<P>, now: int, t: Timer<P>)
    requires OnePerSender(timers) && |timers| <= 100 && t in timers
    requires Spares(timers, DoSet(other, now), t.sender, t.deadline)
    ensures t in Set(timers, other, now)
  {
    hide RemoveTimer;
    RemoveKeepsOthers(timers, other.sender);
    RemoveSize(timers, other.sender);
    var all := RemoveTimer(timers, other.sender) + [Stamp(other, now)];
    assert t in all;
    if |all| > 100 {
      assert RemoveTimer(timers, other.sender) == timers;
      assert all[0] == timers[0];
      assert all == [all[0]] + all[1..];
    }
  }

  lemma SparedStays<P>(ops: seq<Op<P>>, op: Op<P>, t: Timer<P>)
    requires t in After(ops).pending && Spares(After(ops).pending, op, t.sender, t.deadline)
    ensures t in After(ops + [op]).pending
  {
    hide After, Set, Cancel, StillRunning;
    EveryTimerHasOneFate(ops);
    PendingAfter(ops, op);
    match op {
      case DoSet(other, now) => SetKeepsOthers(After(ops).pending, other, now, t);
      case DoCancel(sender) => CancelKeepsOthers(After(ops).pending, sender, t);
      case DoCheck(at) => RunningKeepsLater(After(ops).pending, at, t);
    }
  }

  /** Every operation of `more` spares the timer. */
  ghost predicate AllSpare<P>(ops: seq<Op<P>>, more: seq<Op<P>>, sender: Sender, deadline: int) {
    forall k :: 0 <= k < |more| ==> Spares(After(ops + more[..k]).pending, more[k], sender, deadline)
  }

  lemma {:induction false} StaysPending<P>(ops: seq<Op<P>>, more: seq<Op<P>>, t: Timer<P>)
    requires t in After(ops).pending && AllSpare(ops, more, t.sender, t.deadline)
    ensures t in After(ops + more).pending
  {
    hide After, Spares;
    if more == [] {
      assert ops + more == ops;
    } else {
      var n := |more| - 1;
      assert forall k :: 0 <= k < n ==> more[..n][..k] == more[..k];
      StaysPending(ops, more[..n], t);
      SparedStays(ops + more[..n], more[n], t);
      assert ops + more == (ops + more[..n]) + [more[n]];
    }
  }

  /** After a registration the store holds the timer as it was registered. */
  lemma RegisteredIsPending<P>(ops: seq<Op<P>>, timer: Timer<P>, now: int)
    ensures var setAt := if timer.setAt == 0 then now else timer.setAt;
            Timer(timer.sender, timer.deadline, setAt, timer.payload) in After(ops + [DoSet(timer, now)]).pending
  {
    hide After, Set;
    EveryTimerHasOneFate(ops);
    PendingAfter(ops, DoSet(timer, now));
    SetIsPending(After(ops).pending, timer, now);
  }

  /** The i-th alarm is one of this identity that a check has added. */
  ghost predicate RaisedFor<P>(before: seq<Alarm<P>>, after: seq<Alarm<P>>, sender: Sender, i: int) {
    |before| <= i < |after| && after[i].timer.sender == sender
  }

  /** After a registration that nothing has disturbed, a check raises an alarm for the
      identity exactly when the registered deadline has come, and the alarm carries the
      registration: its sender, deadline and payload, and the time it was made. */
  lemma AlarmIsTheRegistered<P(!new)>(ops: seq<Op<P>>, timer: Timer<P>, now: int, more: seq<Op<P>>, at: int)
    requires AllSpare(ops + [DoSet(timer, now)], more, timer.sender, timer.deadline)
    ensures var run := ops + [DoSet(timer, now)] + more;
            var before, after := After(run).alarms, After(run + [DoCheck(at)]).alarms;
            before <= after && ((exists i :: RaisedFor(before, after, timer.sender, i)) <==> timer.deadline <= at)
    ensures var run := ops + [DoSet(timer, now)] + more;
            var before, after := After(run).alarms, After(run + [DoCheck(at)]).alarms;
            var setAt := if timer.setAt == 0 then now else timer.setAt;
            forall i :: RaisedFor(before, after, timer.sender, i) ==>
              after[i] == Alarm(Timer(timer.sender, timer.deadline, setAt, timer.payload), at)
  {
    hide After, AllSpare, Expired, Raise;
    var run := ops + [DoSet(timer, now)] + more;
    var t := Timer(timer.sender, timer.deadline, if timer.setAt == 0 then now else timer.setAt, timer.payload);
    RegisteredIsPending(ops, timer, now);
    StaysPending(ops + [DoSet(timer, now)], more, t);
    EveryTimerHasOneFate(run);
    CheckRaises(run, at);
    OneAlarmEach(After(run).pending, After(run).alarms, t, at);
  }

  lemma CheckRaises<P>(ops: seq<Op<P>>, at: int)
    ensures After(ops + [DoCheck(at)]).alarms == After(ops).alarms + Raise(Expired(After(ops).pending, at), at)
  {
    hide Expired, Raise;
    assert (ops + [DoCheck(at)])[..|ops|] == ops;
  }

  lemma OneAlarmEach<P>(pending: seq<Timer<P>>, alarms: seq<Alarm<P>>, t: Timer<P>, at: int)
    requires OnePerSender(pending) && t in pending
    ensures var after := alarms + Raise(Expired(pending, at), at);
            && ((exists i :: RaisedFor(alarms, after, t.sender, i)) <==> t.deadline <= at)
            && (forall i :: RaisedFor(alarms, after, t.sender, i) ==> after[i] == Alarm(t, at))
  {
    hide Expired, StillRunning;
    CheckSplits(pending, at);
    var expired := Expired(pending, at);
    var after := alarms + Raise(expired, at);
    forall i | RaisedFor(alarms, after, t.sender, i)
      ensures after[i] == Alarm(t, at) && t.deadline <= at
    {
      var e := expired[i - |alarms|];
      assert after[i] == Alarm(e, at) && e in multiset(expired) && e in multiset(pending);
      SameSender(pending, e, t);
    }
    if t.deadline <= at {
      var k :| 0 <= k < |pending| && pending[k] == t;
      OverdueIsRaised(pending, at, k);
      var j :| 0 <= j < |Raise(expired, at)| && Raise(expired, at)[j] == Alarm(t, at);
      assert RaisedFor(alarms, after, t.sender, |alarms| + j);
    }
  }

  lemma SameSender<P>(timers: seq<Timer<P>>, a: Timer<P>, b: Timer<P>)
    requires OnePerSender(timers) && a in timers && b in timers && a.sender == b.sender
    ensures a == b
  {
    var i :| 0 <= i < |timers| && timers[i] == a;
    var j :| 0 <= j < |timers| && timers[j] == b;
    assert i == j;
  }
}

/** The bounded inbound queues: the bot's dispatcher (bot/bot.go) and the announce cache's
    hand-off (bot/announce.go). Producers never block, one consumer handles messages in
    order, and stopping falls anywhere between their steps. */
module Dispatch {

  /** The queue depth, whether a closed stop channel turns producers away, and whether the
      consumer empties the queue before it returns. */
  datatype Config = Config(depth: nat, gated: bool, drains: bool)

  const BOT := Config(64, true, true)
  const ANNOUNCES := Config(256, false, false)

  /** The channel and its counters, as one goroutine sees them. */
  class Inbox<M> {
    const depth: nat
    var queue: seq<M>
    var dropped: nat
    var handled: seq<M>

    constructor (n: nat)
      ensures depth == n && queue == [] && dropped == 0 && handled == []
    {
      depth, queue, dropped, handled := n, [], 0, [];
    }

    /** The non-blocking send of enqueue and offer. */
    method Offer(m: M) returns (accepted: bool)
      requires |queue| <= depth
      modifies this
      ensures |queue| <= depth && handled == old(handled)
      ensures accepted <==> old(|queue|) < depth
      ensures queue == (if accepted then old(queue) + [m] else old(queue))
      ensures dropped == old(dropped) + (if accepted then 0 else 1)
    {
      accepted := |queue| < depth;
      if accepted {
        queue := queue + [m];
      } else {
        dropped := dropped + 1;
      }
    }

    /** The receive loop that runs until the queue is empty: dispatch's last loop, pump. */
    method Drain() returns (processed: nat)
      modifies this
      ensures queue == [] && handled == old(handled) + old(queue)
      ensures processed == old(|queue|) && dropped == old(dropped)
    {
      processed := 0;
      while queue != []
        invariant handled + queue == old(handled) + old(queue)
        invariant processed + |queue| == old(|queue|) && dropped == old(dropped)
        decreases |queue|
      {
        var m := queue[0];
        queue := queue[1..];
        handled := handled + [m];
        processed := processed + 1;
      }
    }
  }

  // ----------------------------------------------------- every interleaving

  datatype Consumer = Running | Draining | Returned

  /** `offered` are the messages past the stop check, `inflight` those of them whose send
      is still to come; `atStop` counts the messages accepted by the stop. */
  datatype State<M> = State(stopped: bool, consumer: Consumer,
                            offered: seq<M>, inflight: seq<M>, queue: seq<M>, accepted: seq<M>, dropped: seq<M>,
                            handled: seq<M>, atStop: nat)

  datatype Event<M> =
    | Arrive(m: M)        // a producer passes or fails the stop check
    | Send(k: nat)        // the k-th message in flight is sent or dropped
    | Receive             // the consumer takes a message
    | NoticeStop          // the consumer's select picks the stop channel
    | FindEmpty           // the draining consumer finds the queue empty
    | Stop                // the stop channel is closed

  function Boot<M>(): State<M> {
    State(false, Running, [], [], [], [], [], [], 0)
  }

  function Step<M>(c: Config, s: State<M>, e: Event<M>): State<M> {
    match e
    case Arrive(m) =>
      if c.gated && s.stopped then s
      else s.(offered := s.offered + [m], inflight := s.inflight + [m])
    case Send(k) =>
      if k >= |s.inflight| then s
      else
        var m := s.inflight[k];
        var s' := s.(inflight := s.inflight[..k] + s.inflight[k + 1..]);
        if |s.queue| < c.depth then s'.(queue := s.queue + [m], accepted := s.accepted + [m])
        else s'.(dropped := s.dropped + [m])
    case Receive =>
      if s.consumer == Returned || s.queue == [] then s
      else s.(queue := s.queue[1..], handled := s.handled + [s.queue[0]])
    case NoticeStop =>
      if !s.stopped || s.consumer != Running then s
      else if c.drains then s.(consumer := Draining)
      else s.(consumer := Returned)
    case FindEmpty =>
      if s.consumer != Draining || s.queue != [] then s
      else s.(consumer := Returned)
    case Stop => if s.stopped then s else s.(stopped := true, atStop := |s.accepted|)
  }

  function After<M>(c: Config, events: seq<Event<M>>): State<M> {
    if events == [] then Boot() else Step(c, After(c, events[..|events| - 1]), events[|events| - 1])
  }

  /** Every message past the stop check is accepted once, dropped once, or still in flight. */
  ghost predicate Conserved<M>(s: State<M>) {
    multiset(s.offered) == multiset(s.accepted) + multiset(s.dropped) + multiset(s.inflight)
  }

  /** First in, first out, within the depth, and nothing queued at the stop left behind. */
  ghost predicate InOrder<M>(c: Config, s: State<M>) {
    && s.handled + s.queue == s.accepted
    && |s.queue| <= c.depth
    && (s.consumer != Running ==> s.stopped)
    && (s.stopped ==> s.atStop <= |s.accepted|)
    && (s.consumer == Returned && c.drains ==> s.atStop <= |s.handled|)
  }

  ghost predicate Inv<M>(c: Config, s: State<M>) {
    Conserved(s) && InOrder(c, s)
  }

  lemma StepConserves<M>(c: Config, s: State<M>, e: Event<M>)
    requires Conserved(s)
    ensures Conserved(Step(c, s, e))
  {
    if e.Send? && e.k < |s.inflight| {
      var k := e.k;
      assert s.inflight == s.inflight[..k] + [s.inflight[k]] + s.inflight[k + 1..];
    }
  }

  lemma StepKeepsOrder<M>(c: Config, s: State<M>, e: Event<M>)
    requires InOrder(c, s)
    ensures InOrder(c, Step(c, s, e))
  {
    match e {
      case Send(k) =>
        if k < |s.inflight| {
          assert s.handled + (s.queue + [s.inflight[k]]) == s.accepted + [s.inflight[k]];
        }
      case Receive =>
        if s.queue != [] { assert s.handled + [s.queue[0]] + s.queue[1..] == s.handled + s.queue; }
      case _ =>
    }
  }

  lemma {:induction false} RunInv<M>(c: Config, events: seq<Event<M>>)
    ensures Inv(c, After(c, events))
  {
    if events != [] {
      hide Step, Conserved, InOrder;
      RunInv(c, events[..|events| - 1]);
      StepConserves(c, After(c, events[..|events| - 1]), events[|events| - 1]);
      StepKeepsOrder(c, After(c, events[..|events| - 1]), events[|events| - 1]);
    }
  }

  // ------------------------------------------------------- what every run keeps

  /** In every interleaving no message is lost, repeated or reordered: those offered are
      accepted, dropped or in flight, and the handled ones followed by the queue are the
      accepted ones in order; the queue keeps to its depth. */
  lemma NothingIsLostOrReordered<M>(c: Config, events: seq<Event<M>>)
    ensures var s := After(c, events);
            && multiset(s.offered) == multiset(s.accepted) + multiset(s.dropped) + multiset(s.inflight)
            && s.handled + s.queue == s.accepted
            && |s.queue| <= c.depth
  {
    RunInv(c, events);
  }

  /** When the dispatcher returns, everything accepted before the stop has been handled. */
  lemma QueuedAtStopIsHandled<M>(c: Config, events: seq<Event<M>>)
    requires c.drains && After(c, events).consumer == Returned
    ensures var s := After(c, events);
            s.atStop <= |s.handled| <= |s.accepted| && s.accepted[..s.atStop] == s.handled[..s.atStop]
  {
    RunInv(c, events);
    var s := After(c, events);
    assert s.accepted[..|s.handled|] == s.handled;
    assert s.accepted[..s.atStop] == s.accepted[..|s.handled|][..s.atStop];
  }

  lemma AfterOneMore<M>(c: Config, events: seq<Event<M>>, e: Event<M>)
    ensures After(c, events + [e]) == Step(c, After(c, events), e)
  {
    assert (events + [e])[..|events|] == events;
  }

  /** A producer that passed the stop check just in time can be accepted after the last
      drain, and its message is never handled. */
  lemma LateSendIsStranded<M>(m: M)
    ensures var s := After(BOT, [] + [Arrive(m)] + [Stop] + [NoticeStop] + [FindEmpty] + [Send(0)]);
            s.consumer == Returned && s.accepted == [m] && s.handled == [] && s.queue == [m]
  {
    hide After;
    var e0: seq<Event<M>> := [];
    assert After(BOT, e0) == Boot() by { BootIsFirst<M>(BOT); }
    AfterOneMore(BOT, e0, Arrive(m));
    AfterOneMore(BOT, e0 + [Arrive(m)], Stop);
    AfterOneMore(BOT, e0 + [Arrive(m)] + [Stop], NoticeStop);
    AfterOneMore(BOT, e0 + [Arrive(m)] + [Stop] + [NoticeStop], FindEmpty);
    AfterOneMore(BOT, e0 + [Arrive(m)] + [Stop] + [NoticeStop] + [FindEmpty], Send(0));
  }

  lemma BootIsFirst<M>(c: Config)
    ensures After<M>(c, []) == Boot<M>()
  {
  }

  // ------------------------------------- exactly when a return strands nothing

  /** The last event of the run is the one at which the consumer returns. */
  ghost predicate JustReturned<M>(c: Config, events: seq<Event<M>>) {
    && events != []
    && After(c, events[..|events| - 1]).consumer != Returned
    && After(c, events).consumer == Returned
  }

  ghost predicate AllHandled<M>(s: State<M>) {
    s.handled == s.accepted
  }

  /** However the run goes on, everything accepted has been handled. */
  ghost predicate NeverStrands<M(!new)>(c: Config, events: seq<Event<M>>) {
    forall more: seq<Event<M>> :: AllHandled(After(c, events + more))
  }

  ghost predicate NoArrivals<M>(events: seq<Event<M>>) {
    forall i :: 0 <= i < |events| ==> !events[i].Arrive?
  }

  /** The same, as long as no further producer comes. */
  ghost predicate NeverStrandsThose<M(!new)>(c: Config, events: seq<Event<M>>) {
    forall more: seq<Event<M>> :: NoArrivals(more) ==> AllHandled(After(c, events + more))
  }

  /** Returned with nothing queued, and nothing on its way that a queue could take. */
  ghost predicate Finished<M>(c: Config, s: State<M>) {
    && s.consumer == Returned && s.stopped
    && s.queue == [] && s.handled == s.accepted
    && (c.depth == 0 || s.inflight == [])
  }

  lemma FinishedStep<M>(c: Config, s: State<M>, e: Event<M>)
    requires Finished(c, s) && (c.gated || c.depth == 0 || !e.Arrive?)
    ensures Finished(c, Step(c, s, e))
  {
  }

  lemma {:induction false} FinishedStays<M>(c: Config, events: seq<Event<M>>, more: seq<Event<M>>)
    requires Finished(c, After(c, events))
    requires c.gated || c.depth == 0 || NoArrivals(more)
    ensures Finished(c, After(c, events + more))
  {
    hide After, Finished, Step;
    if more == [] {
      assert events + more == events;
    } else {
      var n := |more| - 1;
      FinishedStays(c, events, more[..n]);
      assert events + more == (events + more[..n]) + [more[n]];
      AfterOneMore(c, events + more[..n], more[n]);
      FinishedStep(c, After(c, events + more[..n]), more[n]);
    }
  }

  /** What the queue holds when the consumer returns stays there. */
  lemma QueuedIsStranded<M(!new)>(c: Config, events: seq<Event<M>>)
    requires After(c, events).consumer == Returned && After(c, events).queue != []
    ensures !NeverStrandsThose(c, events)
  {
    hide After;
    RunInv(c, events);
    var none: seq<Event<M>> := [];
    assert events + none == events;
    assert NoArrivals(none) && !AllHandled(After(c, events + none));
  }

  /** What is in flight when the consumer returns can still be accepted. */
  lemma InFlightIsStranded<M(!new)>(c: Config, events: seq<Event<M>>)
    requires After(c, events).consumer == Returned && After(c, events).queue == []
    requires c.depth > 0 && After(c, events).inflight != []
    ensures !NeverStrandsThose(c, events)
  {
    hide After;
    RunInv(c, events);
    AfterOneMore(c, events, Send(0));
    var late: seq<Event<M>> := [Send(0)];
    assert NoArrivals(late) && !AllHandled(After(c, events + late));
  }

  /** Without the stop check a producer can always come later. */
  lemma LateArrivalIsStranded<M(!new)>(c: Config, events: seq<Event<M>>, m: M)
    requires After(c, events).consumer == Returned && After(c, events).queue == []
    requires c.depth > 0 && !c.gated && After(c, events).inflight == []
    ensures !NeverStrands(c, events)
  {
    hide After;
    RunInv(c, events);
    AfterOneMore(c, events, Arrive(m));
    AfterOneMore(c, events + [Arrive(m)], Send(0));
    var late: seq<Event<M>> := [Arrive(m), Send(0)];
    assert events + late == events + [Arrive(m)] + [Send(0)];
    assert !AllHandled(After(c, events + late));
  }

  /** Whether anything can be stranded is known when the consumer returns: nothing can, if
      no later producer comes, exactly when nothing is queued and nothing is in flight; and
      nothing can at all exactly when, besides, the stop check turns producers away. A
      queue of depth zero takes nothing. A consumer that drains has emptied the queue. */
  lemma AllHandledExactlyWhen<M(!new)>(c: Config, events: seq<Event<M>>, m: M)
    requires JustReturned(c, events)
    ensures var s := After(c, events[..|events| - 1]);
            NeverStrandsThose(c, events) <==> s.queue == [] && (c.depth == 0 || s.inflight == [])
    ensures var s := After(c, events[..|events| - 1]);
            NeverStrands(c, events) <==> s.queue == [] && (c.depth == 0 || (c.gated && s.inflight == []))
    ensures c.drains ==> After(c, events[..|events| - 1]).queue == []
  {
    var before, s := After(c, events[..|events| - 1]), After(c, events);
    assert s == before.(consumer := Returned);
    RunInv(c, events);
    hide After, Step;
    assert NeverStrands(c, events) ==> NeverStrandsThose(c, events);
    if s.queue != [] {
      QueuedIsStranded(c, events);
    } else if c.depth > 0 && s.inflight != [] {
      InFlightIsStranded(c, events);
    } else {
      assert Finished(c, s);
      forall more: seq<Event<M>> | c.gated || c.depth == 0 || NoArrivals(more)
        ensures AllHandled(After(c, events + more))
      {
        FinishedStays(c, events, more);
      }
      if c.depth > 0 && !c.gated { LateArrivalIsStranded(c, events, m); }
    }
  }

  /** The dispatcher strands nothing exactly when no producer stands between its stop check
      and its send as the dispatcher returns. */
  lemma BotStrandsNothingExactlyWhen<M(!new)>(events: seq<Event<M>>, m: M)
    requires JustReturned(BOT, events)
    ensures NeverStrands(BOT, events) <==> After(BOT, events[..|events| - 1]).inflight == []
  {
    hide After, NeverStrands;
    AllHandledExactlyWhen(BOT, events, m);
  }

  /** The announce consumer can always strand an announce that is offered later; those
      already offered are all handled exactly when none is queued or in flight. */
  lemma AnnouncesStrandNothingExactlyWhen<M(!new)>(events: seq<Event<M>>, m: M)
    requires JustReturned(ANNOUNCES, events)
    ensures !NeverStrands(ANNOUNCES, events)
    ensures var s := After(ANNOUNCES, events[..|events| - 1]);
            NeverStrandsThose(ANNOUNCES, events) <==> s.queue == [] && s.inflight == []
  {
    hide After, NeverStrands, NeverStrandsThose;
    AllHandledExactlyWhen(ANNOUNCES, events, m);
  }

  // ------------------------------------------------------- what the steps achieve

  /** That many receives in a row. */
  function Receives<M>(n: nat): (events: seq<Event<M>>)
    ensures |events| == n
  {
    seq(n, _ => Receive)
  }

  /** A consumer that has not returned handles all that is queued, in as many receives. */
  lemma {:induction false} ConsumerCatchesUp<M>(c: Config, events: seq<Event<M>>)
    requires After(c, events).consumer != Returned
    ensures var s, done := After(c, events), After(c, events + Receives(|After(c, events).queue|));
            done == s.(queue := [], handled := s.accepted)
    decreases |After(c, events).queue|
  {
    var s := After(c, events);
    RunInv(c, events);
    hide After;
    if s.queue == [] {
      assert events + Receives<M>(0) == events;
      assert s.handled + s.queue == s.handled;
    } else {
      AfterOneMore(c, events, Receive);
      ConsumerCatchesUp(c, events + [Receive]);
      assert events + Receives(|s.queue|) == events + [Receive] + Receives(|s.queue| - 1);
    }
  }

  /** From every state of the dispatcher a stop can be carried out so that all that was
      accepted is handled. */
  lemma BotCanFinish<M>(events: seq<Event<M>>)
    requires After(BOT, events).consumer == Running
    ensures var s := After(BOT, events);
            var stop := events + [Stop] + [NoticeStop] + Receives(|s.queue|) + [FindEmpty];
            After(BOT, stop).consumer == Returned && After(BOT, stop).handled == s.accepted
  {
    var s := After(BOT, events);
    hide After;
    AfterOneMore(BOT, events, Stop);
    AfterOneMore(BOT, events + [Stop], NoticeStop);
    ConsumerCatchesUp(BOT, events + [Stop] + [NoticeStop]);
    AfterOneMore(BOT, events + [Stop] + [NoticeStop] + Receives(|s.queue|), FindEmpty);
  }

  /** A send is accepted at the end of the queue exactly when it holds fewer than 64 messages
      for the dispatcher or 256 for the announces, and is dropped otherwise. */
  lemma DroppedExactlyWhen<M>(c: Config, events: seq<Event<M>>, k: nat)
    requires (c == BOT || c == ANNOUNCES) && k < |After(c, events).inflight|
    ensures var s, sent := After(c, events), After(c, events + [Send(k)]);
            var room := |s.queue| < if c == BOT then 64 else 256;
            && sent.queue == (if room then s.queue + [s.inflight[k]] else s.queue)
            && sent.dropped == (if room then s.dropped else s.dropped + [s.inflight[k]])
  {
    hide After;
    AfterOneMore(c, events, Send(k));
  }

  /** A stopped dispatcher turns producers away, and a stopped announce cache does not. */
  lemma StopTurnsAwayExactlyWhen<M>(c: Config, events: seq<Event<M>>, m: M)
    requires c == BOT || c == ANNOUNCES
    ensures var s, next := After(c, events), After(c, events + [Arrive(m)]);
            next.offered == if c == BOT && s.stopped then s.offered else s.offered + [m]
  {
    hide After;
    AfterOneMore(c, events, Arrive(m));
  }

  /** The announce consumer returns without emptying its queue. */
  lemma AnnounceIsLeftQueued<M>(m: M)
    ensures var s := After(ANNOUNCES, [] + [Arrive(m)] + [Send(0)] + [Stop] + [NoticeStop]);
            s.consumer == Returned && s.accepted == [m] && s.handled == [] && s.queue == [m]
  {
    hide After;
    var e0: seq<Event<M>> := [];
    assert After(ANNOUNCES, e0) == Boot() by { BootIsFirst<M>(ANNOUNCES); }
    AfterOneMore(ANNOUNCES, e0, Arrive(m));
    AfterOneMore(ANNOUNCES, e0 + [Arrive(m)], Send(0));
    AfterOneMore(ANNOUNCES, e0 + [Arrive(m)] + [Send(0)], Stop);
    AfterOneMore(ANNOUNCES, e0 + [Arrive(m)] + [Send(0)] + [Stop], NoticeStop);
  }
}

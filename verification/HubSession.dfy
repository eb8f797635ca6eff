/** The supervisor of one hub connection (bot/hub.go): a link comes up and goes away, rooms
    are joined and greeted, and callbacks of the link goroutine fall between any two
    lock-protected regions of the supervisor. Times are integer nanoseconds. */
module HubSession {

  const MAX_JOIN_ATTEMPTS := 3

  /** A normalized room name. */
  datatype Room = Room(name: string)

  /** The configured rooms, the pause before a repeated JOIN, and whether to greet. */
  datatype Config = Config(rooms: seq<Room>, joinRetry: int, announceOnJoin: bool)

  /** The session fields a lock protects; the two maps of rooms hold only true values. */
  datatype Session = Session(welcomed: bool, joinAttempts: nat, joinedAt: int, joinedOK: set<Room>, greeted: set<Room>)

  const ZERO_TIME := 0
  const START := Session(false, 0, ZERO_TIME, {}, {})

  // --------------------------------------------------- the lock-protected regions

  /** observeJoin, for a system message that names a room. */
  function Observe(s: Session, room: Room): Session {
    if s.welcomed then s.(joinedOK := s.joinedOK + {room}) else s
  }

  /** onLinkEstablished. */
  function Established(s: Session): Session {
    Session(true, 0, ZERO_TIME, {}, {})
  }

  function Lost(s: Session): Session {
    s.(welcomed := false, joinedOK := {}, greeted := {})
  }

  predicate AllConfirmed(s: Session, rooms: seq<Room>) {
    forall i :: 0 <= i < |rooms| ==> rooms[i] in s.joinedOK
  }

  /** beginJoin: the attempt that goes out now, or 0. */
  function BeginJoin(s: Session, c: Config, now: int): (Session, nat) {
    if s.joinAttempts >= MAX_JOIN_ATTEMPTS then (s, 0)
    else if s.joinAttempts > 0 && (AllConfirmed(s, c.rooms) || now < s.joinedAt + c.joinRetry) then (s, 0)
    else (s.(joinAttempts := s.joinAttempts + 1, joinedAt := now), s.joinAttempts + 1)
  }

  predicate GreetingIsPending(s: Session, room: Room) {
    room in s.joinedOK && room !in s.greeted
  }

  function MarkGreeted(s: Session, room: Room): Session {
    s.(greeted := s.greeted + {room})
  }

  class Hub {
    const config: Config
    var welcomed: bool
    var joinAttempts: nat
    var joinedAt: int
    var joinedOK: set<Room>
    var greeted: set<Room>

    function Value(): Session
      reads this
    {
      Session(welcomed, joinAttempts, joinedAt, joinedOK, greeted)
    }

    constructor (c: Config)
      ensures config == c && Value() == START
    {
      config := c;
      welcomed, joinAttempts, joinedAt := false, 0, ZERO_TIME;
      joinedOK, greeted := {}, {};
    }

    method ObserveJoin(kind: string, room: Room)
      modifies this
      ensures Value() == if kind == "system" && room.name != "" then Observe(old(Value()), room) else old(Value())
    {
      if kind != "system" || room.name == "" {
        return;
      }
      if !welcomed {
        return;
      }
      joinedOK := joinedOK + {room};
    }

    method OnLinkEstablished()
      modifies this
      ensures Value() == Established(old(Value()))
    {
      welcomed := true;
      joinAttempts := 0;
      joinedAt := ZERO_TIME;
      joinedOK := {};
      greeted := {};
    }

    method LinkLost()
      modifies this
      ensures Value() == Lost(old(Value()))
    {
      welcomed := false;
      joinedOK := {};
      greeted := {};
    }

    method AllRoomsConfirmed() returns (all: bool)
      ensures all <==> AllConfirmed(Value(), config.rooms)
    {
      for i := 0 to |config.rooms|
        invariant forall j :: 0 <= j < i ==> config.rooms[j] in joinedOK
      {
        if config.rooms[i] !in joinedOK {
          return false;
        }
      }
      return true;
    }

    method TryJoin(now: int) returns (attempt: nat)
      modifies this
      ensures (Value(), attempt) == BeginJoin(old(Value()), config, now)
    {
      if joinAttempts >= MAX_JOIN_ATTEMPTS {
        return 0;
      }
      if joinAttempts > 0 {
        var all := AllRoomsConfirmed();
        if all || now < joinedAt + config.joinRetry {
          return 0;
        }
      }
      joinAttempts := joinAttempts + 1;
      joinedAt := now;
      return joinAttempts;
    }

    method Greet(room: Room)
      modifies this
      ensures Value() == MarkGreeted(old(Value()), room)
    {
      greeted := greeted + {room};
    }
  }

  // ----------------------------------------------------- every interleaving

  datatype Status = Disconnected | Connecting | Connected | Failed

  /** Where the supervisor stands between two regions of one sync. */
  datatype Place =
    | Idle
    | CheckLost
    | DropLink
    | CheckUp
    | BringUp
    | Joining
    | Sending(begunIn: nat)
    | Greeting(next: nat)
    | Marking(room: nat, checkedIn: nat)

  /** A JOIN round, as beginJoin records it. */
  datatype Round = Round(period: nat, at: int, status: Status, unconfirmed: bool)

  /** A JOIN round on its way to the hub, after the lock was released. */
  datatype Sent = Sent(period: nat, begunIn: nat)

  /** A room marked greeted: when its check was made, and whether the mark still finds
      the room confirmed. */
  datatype Mark = Mark(period: nat, room: Room, checkedIn: nat, confirmed: bool)

  /** The session, the supervisor, and the history. A period starts at each link-up. */
  datatype World = World(s: Session, place: Place, status: Status, clock: int, period: nat,
                         rounds: seq<Round>, sent: seq<Sent>, marks: seq<Mark>)

  datatype Event =
    | LinkUp                      // the link-established callback
    | Confirm(room: Room)         // a JOINED confirmation arrives
    | Sync(status: Status)        // the supervisor reads the connection status
    | Next(now: int)              // the supervisor runs its next region

  const BOOT := World(START, Idle, Disconnected, 0, 0, [], [], [])

  function LinkComesUp(w: World): World {
    w.(s := Established(w.s), period := w.period + 1)
  }

  /** The supervisor's next region. */
  function Advance(c: Config, w: World, now: int): World {
    match w.place
    case Idle => w
    case CheckLost => w.(place := if w.s.welcomed then DropLink else Idle)
    case DropLink => w.(s := Lost(w.s), place := Idle)
    case CheckUp => w.(place := if w.s.welcomed then Joining else BringUp)
    case BringUp => LinkComesUp(w).(place := Joining)
    case Joining =>
      var (s, attempt) := BeginJoin(w.s, c, now);
      if attempt == 0 then w.(place := Greeting(0))
      else w.(s := s, place := Sending(w.period),
              rounds := w.rounds + [Round(w.period, now, w.status, !AllConfirmed(w.s, c.rooms))])
    case Sending(begunIn) => w.(place := Greeting(0), sent := w.sent + [Sent(w.period, begunIn)])
    case Greeting(i) =>
      if !c.announceOnJoin || i >= |c.rooms| then w.(place := Idle)
      else if GreetingIsPending(w.s, c.rooms[i]) then w.(place := Marking(i, w.period))
      else w.(place := Greeting(i + 1))
    case Marking(i, checkedIn) =>
      if i >= |c.rooms| then w.(place := Idle)
      else w.(s := MarkGreeted(w.s, c.rooms[i]), place := Greeting(i + 1),
              marks := w.marks + [Mark(w.period, c.rooms[i], checkedIn, c.rooms[i] in w.s.joinedOK)])
  }

  /** One event; one that cannot happen, or a clock reading that goes back, changes nothing. */
  function Step(c: Config, w: World, e: Event): World {
    match e
    case LinkUp => LinkComesUp(w)
    case Confirm(room) => w.(s := Observe(w.s, room))
    case Sync(status) =>
      if w.place != Idle then w
      else w.(status := status,
              place := match status
                       case Disconnected => CheckLost
                       case Failed => CheckLost
                       case Connected => CheckUp
                       case Connecting => Idle)
    case Next(now) => if now < w.clock then w else Advance(c, w, now).(clock := now)
  }

  function After(c: Config, events: seq<Event>): World {
    if events == [] then BOOT else Step(c, After(c, events[..|events| - 1]), events[|events| - 1])
  }

  // -------------------------------------------------------------- the invariant

  function RoundsIn(rounds: seq<Round>, period: nat): nat {
    if rounds == [] then 0
    else RoundsIn(rounds[..|rounds| - 1], period) + (if rounds[|rounds| - 1].period == period then 1 else 0)
  }

  /** Past the status check of a CONNECTED sync. */
  predicate Serving(p: Place) {
    p.Joining? || p.Sending? || p.Greeting? || p.Marking?
  }

  ghost predicate SessionInv(c: Config, w: World) {
    && (!w.s.welcomed ==> w.s.joinedOK == {} && w.s.greeted == {})
    && (Serving(w.place) ==> w.s.welcomed)
    && (Serving(w.place) || w.place.CheckUp? || w.place.BringUp? ==> w.status == Connected)
  }

  /** JOIN rounds: counted by the session, paced, repeated only for a missing room. */
  ghost predicate RoundsInv(c: Config, w: World) {
    && w.s.joinAttempts == RoundsIn(w.rounds, w.period) <= MAX_JOIN_ATTEMPTS
    && (forall p :: RoundsIn(w.rounds, p) <= MAX_JOIN_ATTEMPTS)
    && (forall i :: 0 <= i < |w.rounds| ==> w.rounds[i].period <= w.period && w.rounds[i].status == Connected)
    && (forall i :: 0 <= i < |w.rounds| && w.rounds[i].period == w.period ==>
          w.s.joinAttempts > 0 && w.rounds[i].at <= w.s.joinedAt)
    && (w.s.joinAttempts > 0 ==> w.s.joinedAt <= w.clock)
    && Paced(c, w.rounds)
  }

  /** Two rounds of one period are joinRetry apart, and the later one found a configured
      room without its confirmation. */
  ghost predicate Paced(c: Config, rounds: seq<Round>) {
    forall i, j :: 0 <= i < j < |rounds| && rounds[i].period == rounds[j].period ==>
      rounds[i].at + c.joinRetry <= rounds[j].at && rounds[j].unconfirmed
  }

  ghost predicate MarksInv(c: Config, w: World) {
    && (forall i :: 0 <= i < |w.marks| ==> w.marks[i].period <= w.period)
    && (w.s.welcomed ==>
          forall i :: 0 <= i < |w.marks| && w.marks[i].period == w.period ==> w.marks[i].room in w.s.greeted)
    && GreetedOnce(w.marks)
    && (forall i :: 0 <= i < |w.marks| ==> SoundMark(w.marks[i]))
    && (w.place.Marking? ==>
          && w.place.room < |c.rooms| && w.place.checkedIn <= w.period
          && c.rooms[w.place.room] !in w.s.greeted
          && (w.place.checkedIn == w.period ==> c.rooms[w.place.room] in w.s.joinedOK))
  }

  /** No room is marked twice in one period. */
  ghost predicate GreetedOnce(marks: seq<Mark>) {
    forall i, j :: 0 <= i < j < |marks| && marks[i].period == marks[j].period ==> marks[i].room != marks[j].room
  }

  /** A mark made in the period of its check finds the room confirmed. */
  predicate SoundMark(m: Mark) {
    m.checkedIn <= m.period && (m.checkedIn == m.period ==> m.confirmed)
  }

  /** Rounds are sent in the order they begin; only one can be carried into a period. */
  ghost predicate SentInv(w: World) {
    && (forall i :: 0 <= i < |w.sent| ==> w.sent[i].begunIn <= w.sent[i].period <= w.period)
    && (w.place.Sending? ==> w.place.begunIn <= w.period)
    && CarriedOnce(w.sent)
    && (w.place.Sending? && w.place.begunIn < w.period ==>
          forall i :: 0 <= i < |w.sent| ==> w.sent[i].period < w.period)
  }

  ghost predicate CarriedOnce(sent: seq<Sent>) {
    forall i, j :: 0 <= i < j < |sent| && sent[i].period == sent[j].period ==> sent[j].begunIn == sent[j].period
  }

  ghost predicate Inv(c: Config, w: World) {
    SessionInv(c, w) && RoundsInv(c, w) && MarksInv(c, w) && SentInv(w)
  }

  lemma {:induction false} NoRoundsIn(rounds: seq<Round>, period: nat)
    requires forall i :: 0 <= i < |rounds| ==> rounds[i].period != period
    ensures RoundsIn(rounds, period) == 0
  {
    if rounds != [] { NoRoundsIn(rounds[..|rounds| - 1], period); }
  }

  lemma RoundsInAppend(rounds: seq<Round>, r: Round, period: nat)
    ensures RoundsIn(rounds + [r], period) == RoundsIn(rounds, period) + (if r.period == period then 1 else 0)
  {
    assert (rounds + [r])[..|rounds|] == rounds;
  }

  lemma LinkUpKeepsInv(c: Config, w: World)
    requires Inv(c, w)
    ensures Inv(c, LinkComesUp(w))
  {
    NoRoundsIn(w.rounds, w.period + 1);
  }

  lemma ConfirmKeepsInv(c: Config, w: World, room: Room)
    requires Inv(c, w)
    ensures Inv(c, w.(s := Observe(w.s, room)))
  {
  }

  /** A JOIN round keeps the pace and the count. */
  lemma JoiningKeepsInv(c: Config, w: World, now: int)
    requires Inv(c, w) && w.place.Joining? && w.clock <= now
    ensures Inv(c, Advance(c, w, now).(clock := now))
  {
    hide RoundsIn;
    var (s, attempt) := BeginJoin(w.s, c, now);
    if attempt > 0 {
      var r := Round(w.period, now, w.status, !AllConfirmed(w.s, c.rooms));
      forall p
        ensures RoundsIn(w.rounds + [r], p) == RoundsIn(w.rounds, p) + (if p == w.period then 1 else 0)
      {
        RoundsInAppend(w.rounds, r, p);
      }
      var w' := Advance(c, w, now).(clock := now);
      assert w'.rounds == w.rounds + [r];
      assert Paced(c, w'.rounds);
    }
  }

  lemma MarkingKeepsInv(c: Config, w: World, now: int)
    requires Inv(c, w) && w.place.Marking? && w.clock <= now
    ensures Inv(c, Advance(c, w, now).(clock := now))
  {
    hide RoundsIn, Paced;
    var w' := Advance(c, w, now).(clock := now);
    assert w'.marks == w.marks + [Mark(w.period, c.rooms[w.place.room], w.place.checkedIn,
                                       c.rooms[w.place.room] in w.s.joinedOK)];
  }

  lemma SendingKeepsInv(c: Config, w: World, now: int)
    requires Inv(c, w) && w.place.Sending? && w.clock <= now
    ensures Inv(c, Advance(c, w, now).(clock := now))
  {
    hide RoundsIn, Paced, GreetedOnce;
    var w' := Advance(c, w, now).(clock := now);
    assert w'.sent == w.sent + [Sent(w.period, w.place.begunIn)];
    forall i, j | 0 <= i < j < |w'.sent| && w'.sent[i].period == w'.sent[j].period
      ensures w'.sent[j].begunIn == w'.sent[j].period
    {
      if j < |w.sent| { assert w'.sent[j] == w.sent[j] && w'.sent[i] == w.sent[i]; }
    }
  }

  /** Looking at the rooms to greet changes only where the supervisor stands. */
  lemma GreetingKeepsInv(c: Config, w: World, now: int)
    requires Inv(c, w) && w.place.Greeting? && w.clock <= now
    ensures Inv(c, Advance(c, w, now).(clock := now))
  {
    hide RoundsIn, Paced, GreetedOnce, CarriedOnce;
  }

  lemma AdvanceKeepsInv(c: Config, w: World, now: int)
    requires Inv(c, w) && w.clock <= now
    ensures Inv(c, Advance(c, w, now).(clock := now))
  {
    match w.place {
      case Joining => JoiningKeepsInv(c, w, now);
      case Marking(_, _) => MarkingKeepsInv(c, w, now);
      case Sending(_) => SendingKeepsInv(c, w, now);
      case BringUp => LinkUpKeepsInv(c, w);
      case Greeting(_) => GreetingKeepsInv(c, w, now);
      case _ =>
        hide RoundsIn, Paced, GreetedOnce, CarriedOnce;
    }
  }

  lemma StepKeepsInv(c: Config, w: World, e: Event)
    requires Inv(c, w)
    ensures Inv(c, Step(c, w, e))
  {
    hide SessionInv, RoundsInv, MarksInv, SentInv;
    match e {
      case LinkUp => LinkUpKeepsInv(c, w);
      case Confirm(room) => ConfirmKeepsInv(c, w, room);
      case Sync(status) => SyncKeepsInv(c, w, status);
      case Next(now) => if w.clock <= now { AdvanceKeepsInv(c, w, now); }
    }
  }

  lemma SyncKeepsInv(c: Config, w: World, status: Status)
    requires Inv(c, w)
    ensures Inv(c, Step(c, w, Sync(status)))
  {
    hide RoundsIn, Paced, GreetedOnce, CarriedOnce;
  }

  lemma BootInv(c: Config)
    ensures Inv(c, BOOT)
  {
  }

  lemma {:induction false} RunInv(c: Config, events: seq<Event>)
    ensures Inv(c, After(c, events))
  {
    hide Inv, Step;
    if events == [] {
      BootInv(c);
    } else {
      RunInv(c, events[..|events| - 1]);
      StepKeepsInv(c, After(c, events[..|events| - 1]), events[|events| - 1]);
    }
  }

  // ------------------------------------------------------- what every run keeps

  /** In every interleaving each link-up period has at most three JOIN rounds, all of them
      in CONNECTED syncs and joinRetry apart, repeated only while a room is unconfirmed. */
  lemma JoinRoundsAreBounded(c: Config, events: seq<Event>, period: nat)
    ensures RoundsIn(After(c, events).rounds, period) <= 3
    ensures Paced(c, After(c, events).rounds)
    ensures forall i :: 0 <= i < |After(c, events).rounds| ==> After(c, events).rounds[i].status == Connected
  {
    RunInv(c, events);
  }

  function SentIn(sent: seq<Sent>, period: nat): nat {
    if sent == [] then 0
    else SentIn(sent[..|sent| - 1], period) + (if sent[|sent| - 1].period == period then 1 else 0)
  }

  function CarriedInto(sent: seq<Sent>, period: nat): nat {
    if sent == [] then 0
    else
      var last := sent[|sent| - 1];
      CarriedInto(sent[..|sent| - 1], period) + (if last.period == period && last.begunIn < period then 1 else 0)
  }

  /** A round begun on one link can reach the hub on the next: at most one per period. */
  lemma {:induction false} CarriedAtMostOnce(sent: seq<Sent>, period: nat)
    requires CarriedOnce(sent) && forall i :: 0 <= i < |sent| ==> sent[i].begunIn <= sent[i].period
    ensures CarriedInto(sent, period) <= 1
    ensures CarriedInto(sent, period) == 1 ==> exists i :: 0 <= i < |sent| && sent[i].period == period
  {
    if sent != [] {
      var n := |sent| - 1;
      CarriedAtMostOnce(sent[..n], period);
      if CarriedInto(sent[..n], period) == 1 {
        var i :| 0 <= i < n && sent[..n][i].period == period;
        assert sent[i].period == period;
      }
    }
  }

  /** In every interleaving a room is marked greeted at most once per period, and a mark
      made in the period of its check finds the room confirmed on that link. */
  lemma GreetingsAreOncePerPeriod(c: Config, events: seq<Event>)
    ensures GreetedOnce(After(c, events).marks)
    ensures forall i :: 0 <= i < |After(c, events).marks| ==> SoundMark(After(c, events).marks[i])
  {
    RunInv(c, events);
  }

  /** A confirmation that arrives while no link is up is never recorded. */
  lemma NoConfirmationWithoutALink(c: Config, events: seq<Event>, room: Room)
    requires !After(c, events).s.welcomed
    ensures After(c, events).s.joinedOK == {}
    ensures After(c, events + [Confirm(room)]) == After(c, events)
  {
    RunInv(c, events);
    assert (events + [Confirm(room)])[..|events|] == events;
  }

  function BegunIn(sent: seq<Sent>, period: nat): nat {
    if sent == [] then 0
    else BegunIn(sent[..|sent| - 1], period) + (if sent[|sent| - 1].begunIn == period then 1 else 0)
  }

  /** Every round is sent at most once. */
  ghost predicate SentOnce(w: World, period: nat) {
    BegunIn(w.sent, period) + (if w.place == Sending(period) then 1 else 0) <= RoundsIn(w.rounds, period)
  }

  lemma StepKeepsSentOnce(c: Config, w: World, e: Event, period: nat)
    requires SentOnce(w, period)
    ensures SentOnce(Step(c, w, e), period)
  {
    hide RoundsIn, BegunIn;
    var w' := Step(c, w, e);
    if w'.rounds != w.rounds {
      RoundsInAppend(w.rounds, w'.rounds[|w.rounds|], period);
    }
    if w'.sent != w.sent {
      BegunInAppend(w.sent, w'.sent[|w.sent|], period);
    }
  }

  lemma BegunInAppend(sent: seq<Sent>, x: Sent, period: nat)
    ensures BegunIn(sent + [x], period) == BegunIn(sent, period) + (if x.begunIn == period then 1 else 0)
  {
    assert (sent + [x])[..|sent|] == sent;
  }

  lemma {:induction false} RunSendsOnce(c: Config, events: seq<Event>, period: nat)
    ensures SentOnce(After(c, events), period)
  {
    if events != [] {
      hide Step, SentOnce;
      RunSendsOnce(c, events[..|events| - 1], period);
      StepKeepsSentOnce(c, After(c, events[..|events| - 1]), events[|events| - 1], period);
    }
  }

  lemma {:induction false} SentSplits(sent: seq<Sent>, period: nat)
    requires forall i :: 0 <= i < |sent| ==> sent[i].begunIn <= sent[i].period
    ensures SentIn(sent, period) <= BegunIn(sent, period) + CarriedInto(sent, period)
  {
    if sent != [] { SentSplits(sent[..|sent| - 1], period); }
  }

  /** In every interleaving at most three JOIN rounds reach the hub in one period, and one
      more only when it was begun before the period's link came up. */
  lemma SendsAreBounded(c: Config, events: seq<Event>, period: nat)
    ensures var sent := After(c, events).sent;
            && SentIn(sent, period) <= 3 + CarriedInto(sent, period)
            && CarriedInto(sent, period) <= 1
  {
    RunInv(c, events);
    RunSendsOnce(c, events, period);
    SentSplits(After(c, events).sent, period);
    CarriedAtMostOnce(After(c, events).sent, period);
  }

  // ----------------------------------------- a greeting can miss its own link

  lemma AfterOneMore(c: Config, events: seq<Event>, e: Event)
    ensures After(c, events + [e]) == Step(c, After(c, events), e)
  {
    assert (events + [e])[..|events|] == events;
  }

  /** The supervisor has brought a link up, joined, and stands before its greetings. */
  lemma FirstLink(c: Config)
    ensures var w := After(c, [Sync(Connected), Next(0), Next(0), Next(0), Next(0)]);
            && w.s == Session(true, 1, 0, {}, {}) && w.place == Greeting(0)
            && w.period == 1 && w.clock == 0 && w.marks == []
  {
    FirstSteps(c);
    assert After(c, []) == BOOT;
    hide After, Step;
    var e0: seq<Event> := [];
    AfterOneMore(c, e0, Sync(Connected));
    AfterOneMore(c, e0 + [Sync(Connected)], Next(0));
    AfterOneMore(c, e0 + [Sync(Connected)] + [Next(0)], Next(0));
    AfterOneMore(c, e0 + [Sync(Connected)] + [Next(0)] + [Next(0)], Next(0));
    AfterOneMore(c, e0 + [Sync(Connected)] + [Next(0)] + [Next(0)] + [Next(0)], Next(0));
    assert e0 + [Sync(Connected)] + [Next(0)] + [Next(0)] + [Next(0)] + [Next(0)]
        == [Sync(Connected), Next(0), Next(0), Next(0), Next(0)];
  }

  lemma FirstSteps(c: Config)
    ensures var up := Step(c, Step(c, Step(c, BOOT, Sync(Connected)), Next(0)), Next(0));
            var w := Step(c, Step(c, up, Next(0)), Next(0));
            && w.s == Session(true, 1, 0, {}, {}) && w.place == Greeting(0)
            && w.period == 1 && w.clock == 0 && w.marks == []
  {
    var w1 := Step(c, BOOT, Sync(Connected));
    assert w1 == BOOT.(status := Connected, place := CheckUp);
    var w2 := Step(c, w1, Next(0));
    assert w2 == w1.(place := BringUp);
    var w3 := Step(c, w2, Next(0));
    assert w3 == w2.(s := Session(true, 0, ZERO_TIME, {}, {}), period := 1, place := Joining);
    var w4 := Step(c, w3, Next(0));
    assert w4.s == Session(true, 1, 0, {}, {}) && w4.place == Sending(1);
    assert w4.clock == 0 && w4.marks == [] && w4.period == 1;
  }

  function RaceEvents(room: Room): seq<Event> {
    [Sync(Connected), Next(0), Next(0), Next(0), Next(0)] + [Confirm(room)] + [Next(0)] + [LinkUp] + [Next(0)]
  }

  /** A link that comes up between a greeting's check and its mark leaves the room marked
      greeted on the new link, whose own confirmation then finds nothing to greet. */
  lemma GreetingCanMissItsLink(room: Room, retry: int)
    ensures var c := Config([room], retry, true);
            var w := After(c, RaceEvents(room));
            && |w.marks| == 1 && !w.marks[0].confirmed && w.marks[0].checkedIn < w.marks[0].period == w.period
            && room in w.s.greeted && !GreetingIsPending(Observe(w.s, room), room)
  {
    hide After;
    var c := Config([room], retry, true);
    var e0 := [Sync(Connected), Next(0), Next(0), Next(0), Next(0)];
    FirstLink(c);
    AfterOneMore(c, e0, Confirm(room));
    AfterOneMore(c, e0 + [Confirm(room)], Next(0));
    AfterOneMore(c, e0 + [Confirm(room)] + [Next(0)], LinkUp);
    AfterOneMore(c, e0 + [Confirm(room)] + [Next(0)] + [LinkUp], Next(0));
  }

  // -------------------------------- exactly when a mark finds its room confirmed

  /** The event at which a supervisor that stands before a mark made its check. */
  ghost function CheckAt(c: Config, events: seq<Event>): nat
    requires After(c, events).place.Marking?
  {
    if After(c, events[..|events| - 1]).place.Marking? then CheckAt(c, events[..|events| - 1]) else |events| - 1
  }

  lemma {:induction false} CheckIsEarlier(c: Config, events: seq<Event>)
    requires After(c, events).place.Marking?
    ensures CheckAt(c, events) < |events|
  {
    hide Step;
    if After(c, events[..|events| - 1]).place.Marking? {
      CheckIsEarlier(c, events[..|events| - 1]);
    }
  }

  /** From the check on, and not before it, the supervisor stands before the mark. */
  lemma {:induction false} StandsSinceTheCheck(c: Config, events: seq<Event>, j: nat)
    requires After(c, events).place.Marking? && j <= |events|
    ensures j == CheckAt(c, events) ==> !After(c, events[..j]).place.Marking?
    ensures CheckAt(c, events) < j ==> After(c, events[..j]).place.Marking?
  {
    hide After;
    var n := |events| - 1;
    CheckIsEarlier(c, events);
    if j == |events| {
      assert events[..j] == events;
    } else if After(c, events[..n]).place.Marking? {
      StandsSinceTheCheck(c, events[..n], j);
      assert events[..n][..j] == events[..j];
    }
  }

  ghost predicate NoLinkUp(events: seq<Event>, from: nat) {
    forall j :: from <= j < |events| ==> events[j] != LinkUp
  }

  /** The room is confirmed by an event after `from` that no link-up follows. */
  ghost predicate ConfirmedAgain(events: seq<Event>, from: nat, room: Room) {
    exists k :: from <= k < |events| && events[k] == Confirm(room) && NoLinkUp(events, k)
  }

  /** The check was made on this link, or the room was confirmed on it since. */
  ghost predicate StillConfirmed(events: seq<Event>, check: nat, room: Room) {
    NoLinkUp(events, check + 1) || ConfirmedAgain(events, check + 1, room)
  }

  lemma NoLinkUpMore(events: seq<Event>, e: Event, from: nat)
    requires from <= |events|
    ensures NoLinkUp(events + [e], from) <==> NoLinkUp(events, from) && e != LinkUp
  {
    var all := events + [e];
    if NoLinkUp(all, from) {
      forall j | from <= j < |events| ensures events[j] != LinkUp { assert all[j] == events[j]; }
      assert all[|events|] == e;
    }
  }

  lemma StillConfirmedMore(events: seq<Event>, e: Event, check: nat, room: Room)
    requires check < |events|
    ensures StillConfirmed(events + [e], check, room)
       <==> e == Confirm(room) || (e != LinkUp && StillConfirmed(events, check, room))
  {
    hide NoLinkUp;
    var all, n := events + [e], |events|;
    NoLinkUpMore(events, e, check + 1);
    if e == Confirm(room) {
      assert NoLinkUp(all, n) by { LastIsNoLinkUp(all); }
      assert all[n] == e;
    } else {
      if ConfirmedAgain(events, check + 1, room) && e != LinkUp {
        var k :| check + 1 <= k < n && events[k] == Confirm(room) && NoLinkUp(events, k);
        NoLinkUpMore(events, e, k);
        assert all[k] == Confirm(room);
      }
      if ConfirmedAgain(all, check + 1, room) {
        var k :| check + 1 <= k < |all| && all[k] == Confirm(room) && NoLinkUp(all, k);
        NoLinkUpMore(events, e, k);
        assert events[k] == Confirm(room);
      }
    }
  }

  lemma LastIsNoLinkUp(events: seq<Event>)
    requires events != [] && events[|events| - 1] != LinkUp
    ensures NoLinkUp(events, |events| - 1)
  {
  }

  /** One event while the supervisor stands before a mark. */
  lemma StandingStep(c: Config, w: World, e: Event)
    requires Inv(c, w) && w.place.Marking? && Step(c, w, e).place.Marking?
    ensures Step(c, w, e).place == w.place
    ensures forall room :: room in Step(c, w, e).s.joinedOK
                      <==> e == Confirm(room) || (e != LinkUp && room in w.s.joinedOK)
  {
    hide RoundsInv, SentInv, Paced;
  }

  lemma CheckSawIt(c: Config, w: World, e: Event)
    requires !w.place.Marking? && Step(c, w, e).place.Marking?
    ensures var w' := Step(c, w, e);
            w'.place.room < |c.rooms| && GreetingIsPending(w.s, c.rooms[w'.place.room]) && w'.s == w.s
  {
  }

  lemma {:induction false} StandingConfirmed(c: Config, events: seq<Event>)
    requires After(c, events).place.Marking?
    ensures After(c, events).place.room < |c.rooms|
    ensures var w := After(c, events);
            var room := c.rooms[w.place.room];
            room in w.s.joinedOK <==> StillConfirmed(events, CheckAt(c, events), room)
  {
    var n := |events| - 1;
    var w := After(c, events[..n]);
    assert events == events[..n] + [events[n]];
    assert After(c, events) == Step(c, w, events[n]);
    if w.place.Marking? {
      assert CheckAt(c, events) == CheckAt(c, events[..n]);
      hide After, Step, Inv, CheckAt, StillConfirmed;
      StandingConfirmed(c, events[..n]);
      CheckIsEarlier(c, events[..n]);
      RunInv(c, events[..n]);
      StandingStep(c, w, events[n]);
      StillConfirmedMore(events[..n], events[n], CheckAt(c, events), c.rooms[w.place.room]);
    } else {
      assert CheckAt(c, events) == n;
      hide After, Step, CheckAt;
      CheckSawIt(c, w, events[n]);
      assert NoLinkUp(events, n + 1);
    }
  }

  function LastMark(w: World): Mark {
    if w.marks == [] then Mark(0, Room(""), 0, false) else w.marks[|w.marks| - 1]
  }

  /** A mark is only ever made by a supervisor that stands before it. */
  lemma MarksAreMadeStanding(c: Config, events: seq<Event>, e: Event)
    ensures After(c, events + [e]).marks != After(c, events).marks ==>
              After(c, events).place.Marking? && e.Next? && After(c, events).clock <= e.now
  {
    hide After;
    AfterOneMore(c, events, e);
  }

  /** In every interleaving a supervisor that stands before a mark made its check when the
      room was confirmed and not yet greeted. */
  lemma {:induction false} CheckSawTheConfirmation(c: Config, events: seq<Event>)
    requires After(c, events).place.Marking?
    ensures After(c, events).place.room < |c.rooms|
    ensures CheckAt(c, events) < |events|
    ensures var room := c.rooms[After(c, events).place.room];
            GreetingIsPending(After(c, events[..CheckAt(c, events)]).s, room)
  {
    StandingConfirmed(c, events);
    CheckIsEarlier(c, events);
    CheckAtUnfolds(c, events);
    hide After, Step, Inv, CheckAt, GreetingIsPending;
    var n := |events| - 1;
    var w := After(c, events[..n]);
    if w.place.Marking? {
      CheckSawTheConfirmation(c, events[..n]);
      RunInv(c, events[..n]);
      StandingStep(c, w, events[n]);
      assert events[..n][..CheckAt(c, events)] == events[..CheckAt(c, events)];
    } else {
      CheckSawIt(c, w, events[n]);
    }
  }

  lemma CheckAtUnfolds(c: Config, events: seq<Event>)
    requires After(c, events).place.Marking?
    ensures events != [] && After(c, events) == Step(c, After(c, events[..|events| - 1]), events[|events| - 1])
    ensures var w := After(c, events[..|events| - 1]);
            CheckAt(c, events) == if w.place.Marking? then CheckAt(c, events[..|events| - 1]) else |events| - 1
  {
    hide Step;
  }

  /** The i-th mark of a run is made by the event `made`, for a room that its check found
      confirmed and not yet greeted. */
  ghost predicate MadeAt(c: Config, events: seq<Event>, i: nat, made: nat)
    requires i < |After(c, events).marks|
  {
    && made < |events| && events[made].Next?
    && After(c, events[..made]).place.Marking?
    && After(c, events[..made]).marks == After(c, events).marks[..i]
    && var check := CheckAt(c, events[..made]);
       && check < made
       && GreetingIsPending(After(c, events[..check]).s, After(c, events).marks[i].room)
  }

  lemma MadeAtLater(c: Config, before: seq<Event>, e: Event, i: nat, made: nat)
    requires i < |After(c, before).marks| && MadeAt(c, before, i, made)
    ensures i < |After(c, before + [e]).marks| && MadeAt(c, before + [e], i, made)
  {
    hide After, CheckAt, GreetingIsPending;
    var events := before + [e];
    MarksGrow(c, before, e);
    assert before[..made] == events[..made];
    var check := CheckAt(c, events[..made]);
    assert before[..check] == events[..check];
    assert After(c, events).marks[..i] == After(c, before).marks[..i];
  }

  lemma MadeNow(c: Config, before: seq<Event>, e: Event)
    requires After(c, before + [e]).marks != After(c, before).marks
    ensures |After(c, before + [e]).marks| == |After(c, before).marks| + 1
    ensures MadeAt(c, before + [e], |After(c, before).marks|, |before|)
  {
    hide After, CheckAt, GreetingIsPending;
    var events, n := before + [e], |before|;
    MarksGrow(c, before, e);
    MarksAreMadeStanding(c, before, e);
    CheckSawTheConfirmation(c, before);
    assert events[..n] == before;
    var check := CheckAt(c, before);
    assert before[..check] == events[..check];
    assert After(c, events).marks[..|After(c, before).marks|] == After(c, before).marks;
  }

  /** Every mark of every run was made after a check that saw its confirmation. */
  lemma {:induction false} EveryMarkWasChecked(c: Config, events: seq<Event>, i: nat)
    requires i < |After(c, events).marks|
    ensures exists made: nat :: MadeAt(c, events, i, made)
  {
    SomeEvent(c, events);
    hide After, MadeAt;
    var n := |events| - 1;
    var before, e := events[..n], events[n];
    assert events == before + [e];
    if i < |After(c, before).marks| {
      EveryMarkWasChecked(c, before, i);
      var made: nat :| MadeAt(c, before, i, made);
      MadeAtLater(c, before, e, i, made);
    } else {
      MadeNow(c, before, e);
    }
  }

  lemma SomeEvent(c: Config, events: seq<Event>)
    ensures After(c, events).marks != [] ==> events != []
  {
  }

  /** An event adds at most one mark, of the room the supervisor stands before. */
  lemma MarksGrow(c: Config, events: seq<Event>, e: Event)
    ensures var before, after := After(c, events), After(c, events + [e]);
            || after.marks == before.marks
            || (before.place.Marking? && before.place.room < |c.rooms|
                && exists m :: after.marks == before.marks + [m] && m.room == c.rooms[before.place.room])
  {
    hide After;
    AfterOneMore(c, events, e);
  }

  /** In every interleaving a mark finds its room confirmed on the current link exactly when
      no link came up since its check, or the room was confirmed again after the last one. */
  lemma MarkIsSoundExactlyWhen(c: Config, events: seq<Event>, now: int)
    requires After(c, events).place.Marking? && After(c, events).clock <= now
    ensures var before, after := After(c, events), After(c, events + [Next(now)]);
            && before.place.room < |c.rooms|
            && after.marks == before.marks + [LastMark(after)]
            && LastMark(after).room == c.rooms[before.place.room]
    ensures var mark := LastMark(After(c, events + [Next(now)]));
            mark.confirmed <==> StillConfirmed(events, CheckAt(c, events), mark.room)
  {
    hide After, CheckAt, StillConfirmed;
    StandingConfirmed(c, events);
    AfterOneMore(c, events, Next(now));
  }

  // ------------------------------------------------- every confirmed room is greeted

  /** The supervisor runs n regions undisturbed. */
  function Nexts(n: nat, now: int): (events: seq<Event>)
    ensures |events| == n
  {
    if n == 0 then [] else [Next(now)] + Nexts(n - 1, now)
  }

  /** The confirmed ones among the first i rooms have been greeted. */
  ghost predicate GreetedUpTo(c: Config, w: World, i: nat) {
    i <= |c.rooms| && forall j :: 0 <= j < i && c.rooms[j] in w.s.joinedOK ==> c.rooms[j] in w.s.greeted
  }

  /** The supervisor looks at its i-th room: the room is passed over, or marked next. */
  lemma GreetOne(c: Config, w: World, i: nat, now: int)
    requires c.announceOnJoin && w.place == Greeting(i) && i < |c.rooms| && w.clock <= now && GreetedUpTo(c, w, i)
    ensures var once := Step(c, w, Next(now));
            var twice := Step(c, once, Next(now));
            var next := if GreetingIsPending(w.s, c.rooms[i]) then twice else once;
            && next.place == Greeting(i + 1) && next.clock == now && next.s.joinedOK == w.s.joinedOK
            && GreetedUpTo(c, next, i + 1)
  {
  }

  lemma NextsOneMore(events: seq<Event>, n: nat, now: int)
    ensures events + Nexts(n + 1, now) == (events + [Next(now)]) + Nexts(n, now)
  {
  }

  /** What undisturbed greeting leads to. */
  ghost predicate AllGreeted(c: Config, before: World, after: World) {
    && after.place == Idle && after.s.joinedOK == before.s.joinedOK
    && forall j :: 0 <= j < |c.rooms| && c.rooms[j] in before.s.joinedOK ==> c.rooms[j] in after.s.greeted
  }

  lemma {:induction false} GreetFrom(c: Config, events: seq<Event>, i: nat, now: int) returns (n: nat)
    requires c.announceOnJoin && After(c, events).place == Greeting(i) && After(c, events).clock <= now
    requires GreetedUpTo(c, After(c, events), i)
    ensures AllGreeted(c, After(c, events), After(c, events + Nexts(n, now)))
    decreases |c.rooms| - i
  {
    hide After, Nexts;
    var w := After(c, events);
    var one := events + [Next(now)];
    AfterOneMore(c, events, Next(now));
    AfterOneMore(c, one, Next(now));
    if i == |c.rooms| {
      n := 1;
      NextsOneMore(events, 0, now);
      NoNexts(one, now);
    } else {
      GreetOne(c, w, i, now);
      hide Step, GreetedUpTo;
      if GreetingIsPending(w.s, c.rooms[i]) {
        var m := GreetFrom(c, one + [Next(now)], i + 1, now);
        n := m + 2;
        NextsOneMore(one, m, now);
        NextsOneMore(events, m + 1, now);
      } else {
        var m := GreetFrom(c, one, i + 1, now);
        n := m + 1;
        NextsOneMore(events, m, now);
      }
    }
  }

  lemma NoNexts(events: seq<Event>, now: int)
    ensures events + Nexts(0, now) == events
  {
  }

  /** In every interleaving a supervisor that joins or turns to its greetings and runs on
      undisturbed ends with every confirmed room greeted: with one mark a period, exactly
      once. */
  lemma ConfirmedRoomsAreGreeted(c: Config, events: seq<Event>, now: int)
    requires c.announceOnJoin && After(c, events).clock <= now
    requires var place := After(c, events).place; place == Joining || place.Sending? || place == Greeting(0)
    ensures exists n :: AllGreeted(c, After(c, events), After(c, events + Nexts(n, now)))
  {
    hide After, Nexts;
    var w := After(c, events);
    var one := events + [Next(now)];
    AfterOneMore(c, events, Next(now));
    AfterOneMore(c, one, Next(now));
    if w.place == Greeting(0) {
      var n := GreetFrom(c, events, 0, now);
    } else if w.place.Sending? || After(c, one).place == Greeting(0) {
      var m := GreetFrom(c, one, 0, now);
      NextsOneMore(events, m, now);
    } else {
      var m := GreetFrom(c, one + [Next(now)], 0, now);
      NextsOneMore(one, m, now);
      NextsOneMore(events, m + 1, now);
    }
  }

  // ------------------------------------------------- exactly when a JOIN goes out

  /** The session remembers the instant of a round of the present period. */
  ghost predicate RemembersARound(w: World) {
    w.s.joinAttempts > 0 ==>
      exists i :: 0 <= i < |w.rounds| && w.rounds[i].period == w.period && w.rounds[i].at == w.s.joinedAt
  }

  lemma StepRemembers(c: Config, w: World, e: Event)
    requires RemembersARound(w)
    ensures RemembersARound(Step(c, w, e))
  {
    var w' := Step(c, w, e);
    if w'.rounds == w.rounds && w'.s.joinAttempts > 0 {
      var i :| 0 <= i < |w.rounds| && w.rounds[i].period == w.period && w.rounds[i].at == w.s.joinedAt;
      assert w'.rounds[i].at == w'.s.joinedAt;
    } else if w'.rounds != w.rounds {
      assert w'.rounds[|w.rounds|].period == w'.period && w'.rounds[|w.rounds|].at == w'.s.joinedAt;
    }
  }

  lemma {:induction false} RunRemembers(c: Config, events: seq<Event>)
    ensures RemembersARound(After(c, events))
  {
    hide Step;
    if events != [] {
      hide RemembersARound;
      RunRemembers(c, events[..|events| - 1]);
      StepRemembers(c, After(c, events[..|events| - 1]), events[|events| - 1]);
    }
  }

  /** Some configured room has no confirmation on this link. */
  ghost predicate RoomMissing(c: Config, w: World) {
    exists i :: 0 <= i < |c.rooms| && c.rooms[i] !in w.s.joinedOK
  }

  /** Every round of the present period is at least the retry pause old. */
  ghost predicate PauseIsOver(c: Config, w: World, now: int) {
    forall i :: 0 <= i < |w.rounds| && w.rounds[i].period == w.period ==> w.rounds[i].at + c.joinRetry <= now
  }

  lemma PauseIsOverExactlyWhen(c: Config, w: World, now: int)
    requires Inv(c, w) && RemembersARound(w) && w.s.joinAttempts > 0
    ensures PauseIsOver(c, w, now) <==> w.s.joinedAt + c.joinRetry <= now
  {
    hide SessionInv, MarksInv, SentInv, Paced, RoundsIn;
    var i :| 0 <= i < |w.rounds| && w.rounds[i].period == w.period && w.rounds[i].at == w.s.joinedAt;
  }

  /** In every interleaving a supervisor about to join begins a round exactly when the period
      has none yet, or has fewer than three, some configured room is unconfirmed, and the
      retry pause since every one of them is over. */
  lemma JoinGoesOutExactlyWhen(c: Config, events: seq<Event>, now: int)
    requires After(c, events).place == Joining && After(c, events).clock <= now
    ensures var w, after := After(c, events), After(c, events + [Next(now)]);
            var begun := RoundsIn(w.rounds, w.period);
            var due := begun == 0 || (begun < 3 && RoomMissing(c, w) && PauseIsOver(c, w, now));
            if due then after.rounds == w.rounds + [Round(w.period, now, Connected, RoomMissing(c, w))]
            else after.rounds == w.rounds
  {
    hide After, RoundsIn, PauseIsOver, Paced;
    var w := After(c, events);
    RunInv(c, events);
    RunRemembers(c, events);
    AfterOneMore(c, events, Next(now));
    if w.s.joinAttempts > 0 { PauseIsOverExactlyWhen(c, w, now); }
    assert RoomMissing(c, w) <==> !AllConfirmed(w.s, c.rooms);
  }

  // --------------------------------------------------------- what a status does

  /** An idle supervisor that reads DISCONNECTED or FAILED drops the link it had, with its
      confirmations and greetings; one that reads CONNECTED goes on to join, on a link it
      brings up itself when no callback has; one that reads CONNECTING does nothing. */
  lemma StatusIsActedOn(c: Config, events: seq<Event>, status: Status, now: int)
    requires After(c, events).place == Idle && After(c, events).clock <= now
    ensures var w := After(c, events);
            var read := After(c, events + [Sync(status)]);
            var once := After(c, events + [Sync(status)] + [Next(now)]);
            var twice := After(c, events + [Sync(status)] + [Next(now)] + [Next(now)]);
            && (status.Connecting? ==> read == w.(status := Connecting))
            && (status.Disconnected? || status.Failed? ==>
                  twice.place == Idle && twice.s == w.s.(welcomed := false, joinedOK := {}, greeted := {}))
            && (status.Connected? && w.s.welcomed ==> once.place == Joining && once.s == w.s && once.period == w.period)
            && (status.Connected? && !w.s.welcomed ==>
                  && twice.place == Joining && twice.period == w.period + 1
                  && twice.s == Session(true, 0, ZERO_TIME, {}, {}))
  {
    hide After;
    RunInv(c, events);
    AfterOneMore(c, events, Sync(status));
    AfterOneMore(c, events + [Sync(status)], Next(now));
    AfterOneMore(c, events + [Sync(status)] + [Next(now)], Next(now));
    hide RoundsInv, MarksInv, SentInv;
  }
}

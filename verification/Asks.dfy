/** Asks, their subscribers, their timers and stops as interleaved steps over the decision store. */
module Asks {
  import opened Rfc3339
  import opened Payload
  import opened Decisions

  /*
   A stop first collects the pending decisions, then times each of them out in a step of
   its own. A step that is not enabled changes nothing. Resolving a taken decision closes
   a closed channel: the process panics.
   */

  /** The goroutine of one ask. It handles one message of its subscription, then ends. */
  datatype Subscriber = Starting | Listening(inbox: seq<Message>) | Ended

  datatype Session = Session(
    store: Store,
    flowOf: map<RequestId, FlowId>,
    subscribers: map<RequestId, Subscriber>,
    timers: set<RequestId>,
    stopping: set<RequestId>,
    stopAt: Instant
  )

  const START := Session(EMPTY, map[], map[], {}, {}, 0)

  datatype Outcome = Up(session: Session) | Panicked

  datatype Op =
    | Ask(id: RequestId, flowId: FlowId, ts: Instant)
    | Listen(id: RequestId)
    | Publish(flowId: FlowId, message: Message)
    | Handle(id: RequestId, now: Instant)
    | GiveUp(id: RequestId)
    | Expire(id: RequestId)
    | Disarm(id: RequestId)
    | Collect(ts: Instant)
    | TimeOut(id: RequestId)

  /** The message this step puts on a response subject, if any. */
  function Sent(s: Session, op: Op): Option<(FlowId, Message)> {
    match op
    case Publish(f, m) => Some((f, m))
    case Expire(id) =>
      if id in s.timers && id in s.flowOf then Some((s.flowOf[id], Failure("timeout"))) else None
    case _ => None
  }

  function Received(s: Session, id: RequestId, flowId: FlowId, m: Message): Subscriber
    requires id in s.subscribers
  {
    var sub := s.subscribers[id];
    if id in s.flowOf && s.flowOf[id] == flowId && sub.Listening? then Listening(sub.inbox + [m]) else sub
  }

  /** Every subscription on the flow's subject receives the message, whichever ask it is for. */
  function Delivered(s: Session, flowId: FlowId, m: Message): Session {
    s.(subscribers := map id | id in s.subscribers :: Received(s, id, flowId, m))
  }

  predicate HasMessage(s: Session, id: RequestId) {
    id in s.subscribers && s.subscribers[id].Listening? && s.subscribers[id].inbox != []
  }

  /** The next message of the subscriber is one it can read. */
  predicate HasVerdict(s: Session, id: RequestId) {
    HasMessage(s, id) && !s.subscribers[id].inbox[0].Garbled?
  }

  function Handled(s: Session, id: RequestId, now: Instant): Outcome
    requires HasMessage(s, id)
  {
    var m, ended := s.subscribers[id].inbox[0], s.(subscribers := s.subscribers[id := Ended]);
    if m.Garbled? || id !in s.store.resources || id !in s.store.resolved then Up(ended)
    else if s.store.resolved[id] in s.store.closed then Panicked
    else Up(ended.(store := Concluded(s.store, id, Settled(s.store.resources[id], m, now))))
  }

  /** The stop reaches a decision it has collected. */
  function StopReaches(s: Session, id: RequestId): Outcome
    requires id in s.stopping
  {
    var rest := s.(stopping := s.stopping - {id});
    if id !in s.store.resources || id !in s.store.resolved then Up(rest)
    else if s.store.resolved[id] in s.store.closed then Panicked
    else Up(rest.(store := Concluded(s.store, id, TimedOut(s.store.resources[id], s.stopAt))))
  }

  function Next(s: Session, op: Op): Outcome {
    match op
    case Ask(id, f, ts) =>
      Up(s.(store := Registered(s.store, id, ts), flowOf := s.flowOf[id := f],
            subscribers := s.subscribers[id := Starting], timers := s.timers + {id}))
    case Listen(id) =>
      if id in s.subscribers && s.subscribers[id].Starting? then Up(s.(subscribers := s.subscribers[id := Listening([])]))
      else Up(s)
    case Publish(f, m) => Up(Delivered(s, f, m))
    case Handle(id, now) => if HasMessage(s, id) then Handled(s, id, now) else Up(s)
    case GiveUp(id) =>
      if id in s.subscribers then Up(s.(subscribers := s.subscribers[id := Ended])) else Up(s)
    case Expire(id) =>
      if Sent(s, op).Some? then
        var (f, m) := Sent(s, op).value;
        Up(Delivered(s, f, m).(timers := s.timers - {id}))
      else Up(s)
    case Disarm(id) =>
      if Decided(s.store, id) then Up(s.(timers := s.timers - {id})) else Up(s)
    case Collect(ts) =>
      if s.stopping == {} then Up(s.(stopping := Undecided(s.store), stopAt := ts)) else Up(s)
    case TimeOut(id) => if id in s.stopping then StopReaches(s, id) else Up(s)
  }

  function Through(s: Session, ops: seq<Op>): Outcome {
    if ops == [] then Up(s)
    else
      match Through(s, ops[..|ops| - 1])
      case Panicked => Panicked
      case Up(t) => Next(t, ops[|ops| - 1])
  }

  function Run(ops: seq<Op>): Outcome {
    Through(START, ops)
  }

  predicate Asked(ops: seq<Op>, id: RequestId) {
    exists i :: 0 <= i < |ops| && ops[i].Ask? && ops[i].id == id
  }

  /** This step has a subscriber take the decision by a message it can read. */
  predicate TakesVerdict(s: Session, op: Op, id: RequestId) {
    op.Handle? && op.id == id && HasVerdict(s, id)
  }

  /** This step has a stop reach the decision. */
  predicate Stops(s: Session, op: Op, id: RequestId) {
    op.TimeOut? && op.id == id && id in s.stopping
  }

  predicate AnsweredAt(ops: seq<Op>, id: RequestId, i: int) {
    0 <= i < |ops| && Run(ops[..i]).Up? && TakesVerdict(Run(ops[..i]).session, ops[i], id)
  }

  predicate StoppedAt(ops: seq<Op>, id: RequestId, i: int) {
    0 <= i < |ops| && Run(ops[..i]).Up? && Stops(Run(ops[..i]).session, ops[i], id)
  }

  /** The ask was answered, in the sense that its subscriber handled a readable message. */
  ghost predicate Answered(ops: seq<Op>, id: RequestId) {
    exists i :: AnsweredAt(ops, id, i)
  }

  /** A stop reached the ask. */
  ghost predicate WasStopped(ops: seq<Op>, id: RequestId) {
    exists i :: StoppedAt(ops, id, i)
  }

  /** Identifiers are random: no two asks share one. */
  ghost predicate UniqueIds(ops: seq<Op>) {
    forall j | 0 <= j < |ops| && ops[j].Ask? :: !Asked(ops[..j], ops[j].id)
  }

  /******* One step more *******/

  lemma AskedStep(front: seq<Op>, op: Op, id: RequestId)
    ensures Asked(front + [op], id) <==> Asked(front, id) || (op.Ask? && op.id == id)
  {
    var ops := front + [op];
    if Asked(front, id) {
      var i :| 0 <= i < |front| && front[i].Ask? && front[i].id == id;
      assert ops[i].Ask?;
    }
    if op.Ask? && op.id == id {
      assert ops[|front|].Ask?;
    }
  }

  lemma AnsweredStep(front: seq<Op>, op: Op, id: RequestId)
    requires Run(front).Up?
    ensures Answered(front + [op], id) <==> Answered(front, id) || TakesVerdict(Run(front).session, op, id)
  {
    var ops, n := front + [op], |front|;
    assert ops[..n] == front;
    forall i | 0 <= i < n ensures AnsweredAt(ops, id, i) <==> AnsweredAt(front, id, i) {
      assert ops[..i] == front[..i];
    }
    assert AnsweredAt(ops, id, n) <==> TakesVerdict(Run(front).session, op, id);
  }

  lemma WasStoppedStep(front: seq<Op>, op: Op, id: RequestId)
    requires Run(front).Up?
    ensures WasStopped(front + [op], id) <==> WasStopped(front, id) || Stops(Run(front).session, op, id)
  {
    var ops, n := front + [op], |front|;
    assert ops[..n] == front;
    forall i | 0 <= i < n ensures StoppedAt(ops, id, i) <==> StoppedAt(front, id, i) {
      assert ops[..i] == front[..i];
    }
    assert StoppedAt(ops, id, n) <==> Stops(Run(front).session, op, id);
  }

  lemma UniqueStep(front: seq<Op>, op: Op)
    requires UniqueIds(front + [op])
    ensures UniqueIds(front) && (op.Ask? ==> !Asked(front, op.id))
  {
    var ops, n := front + [op], |front|;
    assert ops[..n] == front && ops[n] == op;
    forall j | 0 <= j < n && front[j].Ask?
      ensures !Asked(front[..j], front[j].id)
    {
      assert ops[j] == front[j] && ops[..j] == front[..j];
    }
  }

  /******* What every reachable session keeps *******/

  ghost predicate Consistent(s: Session) {
    Sound(s.store) && s.flowOf.Keys == s.subscribers.Keys == s.store.resources.Keys && s.stopping <= s.store.resources.Keys
  }

  /**
   A decision is taken exactly by an answer or a stop; an answer ends its subscriber, and
   a collected decision was not stopped before.
   */
  predicate Tracks(s: Session, id: RequestId, answered: bool, stopped: bool) {
    && (Decided(s.store, id) <==> answered || stopped)
    && (id in s.subscribers && !s.subscribers[id].Ended? ==> !answered)
    && (id in s.stopping ==> !stopped)
  }

  ghost predicate Tracked(s: Session, ops: seq<Op>) {
    forall id :: Tracks(s, id, Answered(ops, id), WasStopped(ops, id))
  }

  /** What a step does to the store alone. */
  ghost function StoreNext(s: Session, op: Op): Store
    requires Consistent(s)
  {
    match op
    case Ask(id, _, ts) => Registered(s.store, id, ts)
    case Handle(id, now) =>
      if HasVerdict(s, id) then
        Concluded(s.store, id, Settled(s.store.resources[id], s.subscribers[id].inbox[0], now))
      else s.store
    case TimeOut(id) =>
      if id in s.stopping then Concluded(s.store, id, TimedOut(s.store.resources[id], s.stopAt)) else s.store
    case _ => s.store
  }

  lemma StoreStep(s: Session, op: Op)
    requires Consistent(s) && Next(s, op).Up?
    ensures Next(s, op).session.store == StoreNext(s, op)
  {
  }

  lemma KeysStep(s: Session, op: Op)
    requires s.flowOf.Keys == s.subscribers.Keys && Next(s, op).Up?
    ensures Next(s, op).session.flowOf.Keys == Next(s, op).session.subscribers.Keys
         == if op.Ask? then s.flowOf.Keys + {op.id} else s.flowOf.Keys
  {
  }

  lemma StoppingStep(s: Session, op: Op)
    requires Next(s, op).Up?
    ensures Next(s, op).session.stopping ==
            if op.Collect? && s.stopping == {} then Undecided(s.store)
            else if op.TimeOut? then s.stopping - {op.id}
            else s.stopping
  {
  }

  lemma StoreKeys(s: Session, op: Op)
    requires Consistent(s)
    ensures StoreNext(s, op).resources.Keys == if op.Ask? then s.store.resources.Keys + {op.id} else s.store.resources.Keys
  {
  }

  lemma SoundNext(s: Session, op: Op)
    requires Consistent(s)
    ensures Sound(StoreNext(s, op))
  {
    match op {
      case Ask(id, f, ts) => RegisteredSound(s.store, id, ts);
      case Handle(id, now) =>
        if HasVerdict(s, id) {
          ConcludedSound(s.store, id, Settled(s.store.resources[id], s.subscribers[id].inbox[0], now));
        }
      case TimeOut(id) =>
        if id in s.stopping {
          ConcludedSound(s.store, id, TimedOut(s.store.resources[id], s.stopAt));
        }
      case _ =>
    }
  }

  lemma ConsistentNext(s: Session, op: Op)
    requires Consistent(s) && Next(s, op).Up?
    ensures Consistent(Next(s, op).session)
    ensures Next(s, op).session.store == StoreNext(s, op)
  {
    StoreStep(s, op);
    KeysStep(s, op);
    StoppingStep(s, op);
    SoundNext(s, op);
    StoreKeys(s, op);
  }

  /** Who is still listening after a step was listening before, unless it has just asked. */
  lemma EndedStep(s: Session, op: Op, id: RequestId)
    requires Next(s, op).Up? && !(op.Ask? && op.id == id)
    ensures id in Next(s, op).session.subscribers <==> id in s.subscribers
    ensures id in s.subscribers && !Next(s, op).session.subscribers[id].Ended? ==>
              !s.subscribers[id].Ended? && !TakesVerdict(s, op, id)
  {
  }

  lemma DecidedStep(s: Session, op: Op, id: RequestId)
    requires Consistent(s) && (op.Ask? ==> op.id !in s.store.resources)
    ensures Decided(StoreNext(s, op), id) <==> Decided(s.store, id) || TakesVerdict(s, op, id) || Stops(s, op, id)
  {
  }

  lemma TracksStep(s: Session, op: Op, id: RequestId, answered: bool, stopped: bool)
    requires Consistent(s) && Tracks(s, id, answered, stopped) && Next(s, op).Up?
    requires op.Ask? ==> op.id !in s.store.resources
    ensures Tracks(Next(s, op).session, id, answered || TakesVerdict(s, op, id), stopped || Stops(s, op, id))
  {
    StoreStep(s, op);
    DecidedStep(s, op, id);
    StoppingStep(s, op);
    if !(op.Ask? && op.id == id) {
      EndedStep(s, op, id);
    }
  }

  /**
   In every run a decision exists exactly if it was asked for; its channel is closed
   exactly when it is taken; and it is taken exactly if its subscriber handled a readable
   message or a stop reached it.
   */
  lemma {:induction false} SessionInvariant(ops: seq<Op>)
    requires UniqueIds(ops) && Run(ops).Up?
    ensures var s := Run(ops).session;
            && Consistent(s) && Tracked(s, ops)
            && forall id :: id in s.store.resources <==> Asked(ops, id)
  {
    if ops == [] {
    } else {
      var front, last := ops[..|ops| - 1], ops[|ops| - 1];
      assert ops == front + [last];
      UniqueStep(front, last);
      SessionInvariant(front);
      var s := Run(front).session;
      ConsistentNext(s, last);
      forall id
        ensures id in Run(ops).session.store.resources <==> Asked(ops, id)
        ensures Tracks(Run(ops).session, id, Answered(ops, id), WasStopped(ops, id))
      {
        AskedStep(front, last, id);
        KnownNext(s, last, id);
        AnsweredStep(front, last, id);
        WasStoppedStep(front, last, id);
        TracksStep(s, last, id, Answered(front, id), WasStopped(front, id));
      }
    }
  }

  lemma KnownNext(s: Session, op: Op, id: RequestId)
    requires Consistent(s) && Next(s, op).Up?
    ensures id in Next(s, op).session.store.resources <==> id in s.store.resources || (op.Ask? && op.id == id)
  {
    StoreStep(s, op);
    StoreKeys(s, op);
  }

  /******* When the process panics *******/

  /** A subscriber handles a readable message for an ask a stop has reached. */
  ghost predicate LateAnswer(front: seq<Op>, op: Op) {
    && Run(front).Up? && op.Handle?
    && HasVerdict(Run(front).session, op.id) && WasStopped(front, op.id)
  }

  /** A stop reaches an ask that was answered since the stop collected it. */
  ghost predicate LateStop(front: seq<Op>, op: Op) {
    && Run(front).Up? && op.TimeOut?
    && op.id in Run(front).session.stopping && Answered(front, op.id)
  }

  ghost predicate Late(front: seq<Op>, op: Op) {
    LateAnswer(front, op) || LateStop(front, op)
  }

  lemma PanicsOnDecided(s: Session, op: Op)
    requires Consistent(s)
    ensures Next(s, op).Panicked? <==>
            || (op.Handle? && HasVerdict(s, op.id) && Decided(s.store, op.id))
            || (op.TimeOut? && op.id in s.stopping && Decided(s.store, op.id))
  {
  }

  lemma PanicStep(front: seq<Op>, op: Op)
    requires UniqueIds(front) && Run(front).Up?
    ensures Next(Run(front).session, op).Panicked? <==> Late(front, op)
  {
    var s := Run(front).session;
    SessionInvariant(front);
    PanicsOnDecided(s, op);
    if op.Handle? || op.TimeOut? {
      assert Tracks(s, op.id, Answered(front, op.id), WasStopped(front, op.id));
    }
  }

  ghost predicate SomethingLate(ops: seq<Op>) {
    exists i :: 0 <= i < |ops| && Late(ops[..i], ops[i])
  }

  /** The process panics exactly when an answer comes after the stop, or the stop after the answer. */
  lemma {:induction false} PanicsExactlyWhenLate(ops: seq<Op>)
    requires UniqueIds(ops)
    ensures Run(ops).Panicked? <==> SomethingLate(ops)
  {
    if ops == [] {
    } else {
      var n := |ops| - 1;
      var front, last := ops[..n], ops[n];
      assert ops == front + [last];
      UniqueStep(front, last);
      PanicsExactlyWhenLate(front);
      assert forall i | 0 <= i < n :: front[..i] == ops[..i] && front[i] == ops[i];
      if Run(front).Up? {
        PanicStep(front, last);
      }
      if SomethingLate(front) {
        var i :| 0 <= i < n && Late(front[..i], front[i]);
        assert Late(ops[..i], ops[i]);
      }
    }
  }

  ghost predicate NoStops(ops: seq<Op>) {
    forall i | 0 <= i < |ops| :: !ops[i].Collect?
  }

  /** Without stops no run panics. */
  lemma {:induction false} NoStopNoPanic(ops: seq<Op>)
    requires UniqueIds(ops) && NoStops(ops)
    ensures Run(ops).Up? && Run(ops).session.stopping == {}
    ensures forall id :: !WasStopped(ops, id)
  {
    if ops == [] {
    } else {
      var front, last := ops[..|ops| - 1], ops[|ops| - 1];
      assert ops == front + [last];
      assert forall i | 0 <= i < |front| :: front[i] == ops[i];
      UniqueStep(front, last);
      NoStopNoPanic(front);
      PanicStep(front, last);
      StoppingStep(Run(front).session, last);
      forall id ensures !WasStopped(ops, id) {
        WasStoppedStep(front, last, id);
      }
    }
  }

  lemma OneMore(start: Session, front: seq<Op>, op: Op, s: Session)
    requires Through(start, front) == Up(s)
    ensures Through(start, front + [op]) == Next(s, op)
  {
    assert (front + [op])[..|front|] == front;
  }

  /** An ask whose answer was sent and whose decision a stop has collected. */
  lemma AnsweredWhileStopping(id: RequestId, f: FlowId, r: NotificationResponse, ts: Instant) returns (ops: seq<Op>)
    ensures ops == [Ask(id, f, ts), Listen(id), Publish(f, Answer(r)), Collect(ts)]
    ensures Run(ops).Up?
    ensures var s := Run(ops).session;
            HasVerdict(s, id) && id in s.stopping && id in s.store.resolved && s.store.resolved[id] !in s.store.closed
            && s.store.resources.Keys == {id}
  {
    var s1 := Next(START, Ask(id, f, ts)).session;
    var s2 := Next(s1, Listen(id)).session;
    var s3 := Next(s2, Publish(f, Answer(r))).session;
    var o1 := [] + [Ask(id, f, ts)];
    var o2 := o1 + [Listen(id)];
    var o3 := o2 + [Publish(f, Answer(r))];
    ops := o3 + [Collect(ts)];
    OneMore(START, [], Ask(id, f, ts), START);
    OneMore(START, o1, Listen(id), s1);
    OneMore(START, o2, Publish(f, Answer(r)), s2);
    OneMore(START, o3, Collect(ts), s3);
  }

  /** Handling an answer and reaching its ask panics, in either order. */
  lemma AnswerAndStopPanic(id: RequestId, f: FlowId, r: NotificationResponse, ts: Instant)
    ensures var ops := [Ask(id, f, ts), Listen(id), Publish(f, Answer(r)), Collect(ts)];
            && Run(ops + [TimeOut(id)] + [Handle(id, ts)]).Panicked?
            && Run(ops + [Handle(id, ts)] + [TimeOut(id)]).Panicked?
  {
    var ops := AnsweredWhileStopping(id, f, r, ts);
    var s := Run(ops).session;
    var stopped, answered := Next(s, TimeOut(id)).session, Next(s, Handle(id, ts)).session;
    OneMore(START, ops, TimeOut(id), s);
    OneMore(START, ops, Handle(id, ts), s);
    OneMore(START, ops + [TimeOut(id)], Handle(id, ts), stopped);
    OneMore(START, ops + [Handle(id, ts)], TimeOut(id), answered);
  }

  /******* A stop that nothing interrupts *******/

  function TimeOuts(ids: seq<RequestId>): (ops: seq<Op>)
    ensures |ops| == |ids| && forall i | 0 <= i < |ids| :: ops[i] == TimeOut(ids[i])
  {
    seq(|ids|, i requires 0 <= i < |ids| => TimeOut(ids[i]))
  }

  ghost predicate NoRepeats(ids: seq<RequestId>) {
    forall i, j | 0 <= i < j < |ids| :: ids[i] != ids[j]
  }

  /** The stop after it has reached `done`. */
  function StopMidway(s: Session, done: set<RequestId>): Session
    requires done <= s.store.resources.Keys <= s.store.resolved.Keys
  {
    s.(store := TimedOutAll(s.store, done, s.stopAt), stopping := s.stopping - done)
  }

  /** Collecting and then timing out, in any order, is the stop that times out all at once. */
  lemma UninterruptedStop(s: Session, ts: Instant, ids: seq<RequestId>)
    requires Consistent(s) && s.stopping == {} && NoRepeats(ids) && forall id :: id in ids <==> id in Undecided(s.store)
    ensures Through(s, [Collect(ts)] + TimeOuts(ids)) == Up(s.(store := Stopped(s.store, ts), stopAt := ts))
  {
    var collected := s.(stopping := Undecided(s.store), stopAt := ts);
    assert [] + [Collect(ts)] == [Collect(ts)];
    OneMore(s, [], Collect(ts), s);
    ThroughAppend(s, [Collect(ts)], TimeOuts(ids));
    ReachedEach(collected, ids);
    ReachedAll(s, ts, ids);
  }

  /**
   A stop of flow `f` leaves the asks of other flows alone exactly when only asks of `f`
   were pending: it does not look at the flow.
   */
  lemma StopSparesOthers(s: Session, f: FlowId, ts: Instant, ids: seq<RequestId>)
    requires Consistent(s) && s.stopping == {} && NoRepeats(ids) && forall id :: id in ids <==> id in Undecided(s.store)
    ensures var t := Through(s, [Collect(ts)] + TimeOuts(ids));
            && t.Up? && t.session.store.resources.Keys == s.store.resources.Keys
            && ((forall id | id in s.store.resources && s.flowOf[id] != f ::
                   t.session.store.resources[id] == s.store.resources[id])
                <==> forall id | id in Undecided(s.store) :: s.flowOf[id] == f)
  {
    UninterruptedStop(s, ts, ids);
    var t := Through(s, [Collect(ts)] + TimeOuts(ids)).session;
    forall id | id in s.store.resources
      ensures t.store.resources[id] == s.store.resources[id] <==> id !in Undecided(s.store)
    {
    }
  }

  function TwoAsked(a: RequestId, f: FlowId, b: RequestId, g: FlowId, ts: Instant): Session {
    Session(Registered(Registered(EMPTY, a, ts), b, ts), map[a := f, b := g], map[a := Starting, b := Starting], {a, b}, {}, 0)
  }

  lemma AskTwice(a: RequestId, f: FlowId, b: RequestId, g: FlowId, ts: Instant)
    requires a != b
    ensures Run([Ask(a, f, ts), Ask(b, g, ts)]) == Up(TwoAsked(a, f, b, g, ts))
  {
    var s1 := Next(START, Ask(a, f, ts)).session;
    assert [] + [Ask(a, f, ts)] == [Ask(a, f, ts)];
    OneMore(START, [], Ask(a, f, ts), START);
    assert [Ask(a, f, ts)] + [Ask(b, g, ts)] == [Ask(a, f, ts), Ask(b, g, ts)];
    OneMore(START, [Ask(a, f, ts)], Ask(b, g, ts), s1);
    assert Next(s1, Ask(b, g, ts)) == Up(TwoAsked(a, f, b, g, ts));
  }

  lemma TwoPending(a: RequestId, f: FlowId, b: RequestId, g: FlowId, ts: Instant)
    requires a != b
    ensures var s := TwoAsked(a, f, b, g, ts);
            Consistent(s) && Undecided(s.store) == {a, b} && s.store.resources[b] == Pending(b, ts)
  {
    RegisteredSound(EMPTY, a, ts);
    RegisteredSound(Registered(EMPTY, a, ts), b, ts);
  }

  /** Two asks on two flows: stopping the first flow times out the ask of the second. */
  lemma StopReachesOtherFlow(a: RequestId, f: FlowId, b: RequestId, g: FlowId, ts: Instant)
    requires a != b && f != g
    ensures var asked := Run([Ask(a, f, ts), Ask(b, g, ts)]);
            && asked.Up? && asked.session.flowOf == map[a := f, b := g] && !Decided(asked.session.store, b)
            && var t := Through(asked.session, [Collect(ts)] + TimeOuts([a, b]));
               t.Up? && b in t.session.store.resources && t.session.store.resources[b] == Decision(b, true, None, "", "", ts)
  {
    AskTwice(a, f, b, g, ts);
    TwoPending(a, f, b, g, ts);
    UninterruptedStop(TwoAsked(a, f, b, g, ts), ts, [a, b]);
  }

  lemma ReachedAll(s: Session, ts: Instant, ids: seq<RequestId>)
    requires Consistent(s) && s.stopping == {} && forall id :: id in ids <==> id in Undecided(s.store)
    ensures StopMidway(s.(stopping := Undecided(s.store), stopAt := ts), Elements(ids)) == s.(store := Stopped(s.store, ts), stopAt := ts)
  {
    assert Elements(ids) == Undecided(s.store);
  }

  function Elements(ids: seq<RequestId>): set<RequestId> {
    set id | id in ids
  }

  lemma OneMoreElement(front: seq<RequestId>, last: RequestId)
    ensures Elements(front + [last]) == Elements(front) + {last}
    ensures TimeOuts(front + [last]) == TimeOuts(front) + [TimeOut(last)]
  {
  }

  lemma {:induction false} ThroughAppend(s: Session, a: seq<Op>, b: seq<Op>)
    requires Through(s, a).Up?
    ensures Through(s, a + b) == Through(Through(s, a).session, b)
  {
    if b == [] {
      assert a + b == a;
    } else {
      var front := b[..|b| - 1];
      assert (a + b)[..|a + b| - 1] == a + front;
      ThroughAppend(s, a, front);
    }
  }

  lemma {:induction false} ReachedEach(s: Session, ids: seq<RequestId>)
    requires Consistent(s) && s.stopping == Undecided(s.store) && NoRepeats(ids)
    requires forall id | id in ids :: id in s.stopping
    ensures Through(s, TimeOuts(ids)) == Up(StopMidway(s, Elements(ids)))
  {
    if ids == [] {
      assert TimedOutAll(s.store, {}, s.stopAt) == s.store;
      assert StopMidway(s, {}) == s;
    } else {
      var n := |ids| - 1;
      var front, last := ids[..n], ids[n];
      assert ids == front + [last];
      ReachedEach(s, front);
      OneMoreElement(front, last);
      OneMore(s, TimeOuts(front), TimeOut(last), StopMidway(s, Elements(front)));
      ReachedOne(s, Elements(front), last);
    }
  }

  lemma ReachedOne(s: Session, done: set<RequestId>, id: RequestId)
    requires Consistent(s) && s.stopping == Undecided(s.store) && done <= s.stopping && id in s.stopping && id !in done
    ensures Next(StopMidway(s, done), TimeOut(id)) == Up(StopMidway(s, done + {id}))
  {
    OneMoreTimedOut(s.store, done, id, s.stopAt);
    assert s.stopping - done - {id} == s.stopping - (done + {id});
    assert s.store.resolved[id] !in TimedOutAll(s.store, done, s.stopAt).closed;
  }

  /******* Decisions are taken once *******/

  /** This step takes the decision `id`. */
  predicate Resolves(s: Session, op: Op, id: RequestId) {
    id in s.store.resources && (TakesVerdict(s, op, id) || Stops(s, op, id))
  }

  function Resolutions(ops: seq<Op>, id: RequestId): nat {
    if ops == [] then 0
    else
      var front := ops[..|ops| - 1];
      Resolutions(front, id)
      + if Run(front).Up? && Resolves(Run(front).session, ops[|ops| - 1], id) then 1 else 0
  }

  lemma ResolvedStep(s: Session, op: Op, id: RequestId)
    requires Consistent(s) && Next(s, op).Up? && (op.Ask? ==> op.id !in s.store.resources)
    ensures Decided(s.store, id) ==> !Resolves(s, op, id)
    ensures Decided(Next(s, op).session.store, id) <==> Decided(s.store, id) || Resolves(s, op, id)
  {
    PanicsOnDecided(s, op);
    StoreStep(s, op);
    DecidedStep(s, op, id);
  }

  /** In a run that does not panic a decision is taken at most once, and exactly once if it is taken. */
  lemma {:induction false} ResolvedOnce(ops: seq<Op>, id: RequestId)
    requires UniqueIds(ops) && Run(ops).Up?
    ensures Resolutions(ops, id) == if Decided(Run(ops).session.store, id) then 1 else 0
  {
    if ops == [] {
    } else {
      var front, last := ops[..|ops| - 1], ops[|ops| - 1];
      assert ops == front + [last];
      UniqueStep(front, last);
      ResolvedOnce(front, id);
      SessionInvariant(front);
      ResolvedStep(Run(front).session, last, id);
    }
  }

  /** `st` knows `id`, and `later` knows it by the same channel, with a taken decision unchanged. */
  predicate KeptBy(st: Store, later: Store, id: RequestId) {
    && id in st.resources && id in st.resolved && id in later.resources && id in later.resolved
    && later.resolved[id] == st.resolved[id]
    && (st.resources[id].decided ==> later.resources[id] == st.resources[id])
  }

  lemma KeptStep(s: Session, op: Op, id: RequestId)
    requires Consistent(s) && (op.Ask? ==> op.id !in s.store.resources) && id in s.store.resources
    requires Next(s, op).Up?
    ensures KeptBy(s.store, StoreNext(s, op), id)
  {
    PanicsOnDecided(s, op);
    match op {
      case Ask(other, _, ts) => KeptByRegistered(s.store, other, ts, id);
      case Handle(other, now) =>
        if HasVerdict(s, other) {
          KeptByConcluded(s.store, other, Settled(s.store.resources[other], s.subscribers[other].inbox[0], now), id);
        }
      case TimeOut(other) =>
        if other in s.stopping {
          KeptByConcluded(s.store, other, TimedOut(s.store.resources[other], s.stopAt), id);
        }
      case _ =>
    }
  }

  lemma KeptByRegistered(st: Store, other: RequestId, ts: Instant, id: RequestId)
    requires Sound(st) && id in st.resources && id != other
    ensures KeptBy(st, Registered(st, other, ts), id)
  {
  }

  lemma KeptByConcluded(st: Store, other: RequestId, d: Decision, id: RequestId)
    requires Sound(st) && id in st.resources && other in st.resources && !Decided(st, other)
    ensures KeptBy(st, Concluded(st, other, d), id)
  {
  }

  lemma KeptTransitively(a: Store, b: Store, c: Store, id: RequestId)
    requires KeptBy(a, b, id) && KeptBy(b, c, id)
    ensures KeptBy(a, c, id)
  {
  }

  /** A taken decision never changes, and a decision keeps its channel. */
  lemma {:induction false} DecisionsAreFinal(ops: seq<Op>, more: seq<Op>, id: RequestId)
    requires UniqueIds(ops + more) && Run(ops + more).Up? && Asked(ops, id)
    ensures UniqueIds(ops) && Run(ops).Up?
    ensures KeptBy(Run(ops).session.store, Run(ops + more).session.store, id)
  {
    if more == [] {
      assert ops + more == ops;
      SessionInvariant(ops);
    } else {
      var front, last := more[..|more| - 1], more[|more| - 1];
      var before := ops + front;
      assert ops + more == before + [last];
      assert (ops + more)[..|ops + more| - 1] == before;
      UniqueStep(before, last);
      DecisionsAreFinal(ops, front, id);
      SessionInvariant(before);
      StoreStep(Run(before).session, last);
      KeptStep(Run(before).session, last, id);
      KeptTransitively(Run(ops).session.store, Run(before).session.store, Run(ops + more).session.store, id);
    }
  }

  /**
   An await looks at the decision, takes its channel in a later step, and parks. At any
   time from then on the channel is closed exactly when the decision is taken, so a
   decision taken between the two steps, or before, wakes it too.
   */
  lemma AwaitNeverMisses(ops: seq<Op>, between: seq<Op>, after: seq<Op>, id: RequestId)
    requires UniqueIds(ops + between + after) && Run(ops + between + after).Up? && Asked(ops, id)
    ensures Run(ops + between).Up?
    ensures var took, now := Run(ops + between).session.store, Run(ops + between + after).session.store;
            && KeptBy(took, now, id)
            && (took.resolved[id] in now.closed <==> now.resources[id].decided)
  {
    var i :| 0 <= i < |ops| && ops[i].Ask? && ops[i].id == id;
    assert (ops + between)[i].Ask? && (ops + between)[i].id == id;
    DecisionsAreFinal(ops + between, after, id);
    SessionInvariant(ops + between + after);
  }

  /******* What a decision says *******/

  predicate Listened(ops: seq<Op>, id: RequestId) {
    exists j :: 0 <= j < |ops| && ops[j] == Listen(id) && Asked(ops[..j], id)
  }

  /** What this step sends on the ask's flow. */
  function Gained(s: Session, op: Op, id: RequestId): seq<Message> {
    match Sent(s, op)
    case Some((f, m)) => if id in s.flowOf && s.flowOf[id] == f then [m] else []
    case None => []
  }

  /** The messages sent on the ask's flow since its subscriber listens. */
  function Heard(ops: seq<Op>, id: RequestId): seq<Message> {
    if ops == [] then []
    else
      var front := ops[..|ops| - 1];
      Heard(front, id) +
      if Run(front).Up? && Listened(front, id) then Gained(Run(front).session, ops[|ops| - 1], id) else []
  }

  predicate GaveUp(ops: seq<Op>, id: RequestId) {
    exists j :: 0 <= j < |ops| && ops[j] == GiveUp(id)
  }

  lemma ListenedStep(front: seq<Op>, op: Op, id: RequestId)
    ensures Listened(front + [op], id) <==> Listened(front, id) || (op == Listen(id) && Asked(front, id))
  {
    var ops, n := front + [op], |front|;
    assert ops[..n] == front;
    assert forall j | 0 <= j < n :: ops[..j] == front[..j];
    if Listened(front, id) {
      var j :| 0 <= j < n && front[j] == Listen(id) && Asked(front[..j], id);
      assert ops[j] == Listen(id);
    }
    if op == Listen(id) && Asked(front, id) {
      assert ops[n] == Listen(id);
    }
  }

  lemma GaveUpStep(front: seq<Op>, op: Op, id: RequestId)
    ensures GaveUp(front + [op], id) <==> GaveUp(front, id) || op == GiveUp(id)
  {
    var ops, n := front + [op], |front|;
    if GaveUp(front, id) {
      var j :| 0 <= j < n && front[j] == GiveUp(id);
      assert ops[j] == GiveUp(id);
    }
    if op == GiveUp(id) {
      assert ops[n] == GiveUp(id);
    }
  }

  /** The decision `id` as an answer or an error record says it. */
  predicate Says(m: Message, id: RequestId, d: Decision) {
    match m
    case Answer(r) => d == Decision(id, true, r.accepted, r.action, r.text, r.timestamp)
    case Failure(_) => d == Decision(id, true, None, "", "", d.timestamp)
    case Garbled => d == Decision(id, false, None, "", "", d.timestamp)
  }

  /** Where an ask stands: its decision and its subscriber, by what was heard. */
  ghost predicate Explains(heard: seq<Message>, listened: bool, gaveUp: bool, sub: Subscriber, id: RequestId, d: Decision) {
    && (!sub.Ended? ==> d == Decision(id, false, None, "", "", d.timestamp))
    && match sub
       case Starting => !listened && heard == []
       case Listening(inbox) => listened && inbox == heard
       case Ended => if heard != [] then Says(heard[0], id, d) || (gaveUp && !d.decided) else gaveUp && !d.decided
  }

  ghost predicate Explained(s: Session, ops: seq<Op>, id: RequestId) {
    && id in s.subscribers && id in s.store.resources
    && Explains(Heard(ops, id), Listened(ops, id), GaveUp(ops, id), s.subscribers[id], id, s.store.resources[id])
  }

  lemma SubscriberStep(s: Session, op: Op, id: RequestId)
    requires id in s.subscribers && Next(s, op).Up? && !(op.Ask? && op.id == id)
    ensures id in Next(s, op).session.subscribers
    ensures Next(s, op).session.subscribers[id] ==
            if op == Listen(id) && s.subscribers[id].Starting? then Listening([])
            else if (op.Handle? && op.id == id && HasMessage(s, id)) || op == GiveUp(id) then Ended
            else if s.subscribers[id].Listening? then Listening(s.subscribers[id].inbox + Gained(s, op, id))
            else s.subscribers[id]
  {
  }

  lemma ConcludedElsewhere(st: Store, other: RequestId, d: Decision, id: RequestId)
    requires id in st.resources && other in st.resolved && other != id
    ensures id in Concluded(st, other, d).resources && Concluded(st, other, d).resources[id] == st.resources[id]
  {
  }

  /** A step that neither takes nor stops a decision leaves it. */
  lemma UntouchedDecision(s: Session, op: Op, id: RequestId)
    requires Consistent(s) && id in s.store.resources && !(op.Ask? && op.id == id)
    requires !Stops(s, op, id) && !TakesVerdict(s, op, id)
    ensures id in StoreNext(s, op).resources && StoreNext(s, op).resources[id] == s.store.resources[id]
  {
    match op {
      case Handle(other, now) =>
        if HasVerdict(s, other) {
          ConcludedElsewhere(s.store, other, Settled(s.store.resources[other], s.subscribers[other].inbox[0], now), id);
        }
      case TimeOut(other) =>
        if other in s.stopping {
          ConcludedElsewhere(s.store, other, TimedOut(s.store.resources[other], s.stopAt), id);
        }
      case _ =>
    }
  }

  lemma DecisionStep(s: Session, op: Op, id: RequestId)
    requires Consistent(s) && id in s.store.resources && !Stops(s, op, id) && !(op.Ask? && op.id == id)
    ensures id in StoreNext(s, op).resources
    ensures StoreNext(s, op).resources[id] ==
            if op.Handle? && op.id == id && HasVerdict(s, id) then Settled(s.store.resources[id], s.subscribers[id].inbox[0], op.now)
            else s.store.resources[id]
  {
    if !TakesVerdict(s, op, id) {
      UntouchedDecision(s, op, id);
    }
  }

  /** The values of one ask before and after a step. */
  lemma ExplainsStep(heard: seq<Message>, gained: seq<Message>, listened: bool, gaveUp: bool,
                     sub: Subscriber, sub': Subscriber, id: RequestId, d: Decision, d': Decision, op: Op)
    requires Explains(heard, listened, gaveUp, sub, id, d)
    requires var handles := op.Handle? && op.id == id && sub.Listening? && sub.inbox != [];
             && sub' == (if op == Listen(id) && sub.Starting? then Listening([])
                         else if handles || op == GiveUp(id) then Ended
                         else if sub.Listening? then Listening(sub.inbox + gained) else sub)
             && d' == (if handles && !sub.inbox[0].Garbled? then Settled(d, sub.inbox[0], op.now) else d)
    ensures Explains(if listened then heard + gained else heard, listened || op == Listen(id), gaveUp || op == GiveUp(id),
                     sub', id, d')
  {
  }

  lemma HeardStep(front: seq<Op>, op: Op, id: RequestId)
    requires Run(front).Up?
    ensures Heard(front + [op], id) ==
            if Listened(front, id) then Heard(front, id) + Gained(Run(front).session, op, id) else Heard(front, id)
  {
    assert (front + [op])[..|front|] == front;
  }

  lemma ExplainedStep(s: Session, t: Session, front: seq<Op>, op: Op, id: RequestId)
    requires Run(front) == Up(s) && Asked(front, id) && Explained(s, front, id)
    requires id in t.subscribers && id in t.store.resources
    requires t.subscribers[id] ==
            if op == Listen(id) && s.subscribers[id].Starting? then Listening([])
            else if (op.Handle? && op.id == id && HasMessage(s, id)) || op == GiveUp(id) then Ended
            else if s.subscribers[id].Listening? then Listening(s.subscribers[id].inbox + Gained(s, op, id))
            else s.subscribers[id]
    requires t.store.resources[id] ==
            if op.Handle? && op.id == id && HasVerdict(s, id) then Settled(s.store.resources[id], s.subscribers[id].inbox[0], op.now)
            else s.store.resources[id]
    ensures Explained(t, front + [op], id)
  {
    HeardStep(front, op, id);
    ListenedStep(front, op, id);
    GaveUpStep(front, op, id);
    ExplainsStep(Heard(front, id), Gained(s, op, id), Listened(front, id), GaveUp(front, id),
                 s.subscribers[id], t.subscribers[id], id, s.store.resources[id], t.store.resources[id], op);
  }

  /**
   Without stops, an ask's decision is what the first message heard on its flow says,
   whichever ask that message was meant for: the subscriber's unread messages are those
   heard so far, and once it ended it followed the first or had given up.
   */
  lemma {:induction false} FirstMessageDecides(ops: seq<Op>, id: RequestId)
    requires UniqueIds(ops) && NoStops(ops) && Asked(ops, id)
    ensures Run(ops).Up? && Explained(Run(ops).session, ops, id)
  {
    var front, last := ops[..|ops| - 1], ops[|ops| - 1];
    assert ops == front + [last];
    UniqueStep(front, last);
    NoStopNoPanic(ops);
    assert NoStops(front);
    NoStopNoPanic(front);
    SessionInvariant(front);
    AskedStep(front, last, id);
    if Asked(front, id) {
      FirstMessageDecides(front, id);
      var s, t := Run(front).session, Run(ops).session;
      SubscriberStep(s, last, id);
      StoreStep(s, last);
      DecisionStep(s, last, id);
      ExplainedStep(s, t, front, last, id);
    } else {
      NothingHeardBefore(front, last, id);
    }
  }

  /** So an ask gets its own answer only if that is the first message heard on its flow. */
  lemma DecisionIsFirstMessage(ops: seq<Op>, id: RequestId)
    requires UniqueIds(ops) && NoStops(ops) && Asked(ops, id)
    ensures Run(ops).Up? && id in Run(ops).session.store.resources
    ensures Decided(Run(ops).session.store, id) ==>
              Heard(ops, id) != [] && Says(Heard(ops, id)[0], id, Run(ops).session.store.resources[id])
  {
    FirstMessageDecides(ops, id);
  }

  /** A decision not yet taken says nothing. */
  lemma {:induction false} PendingReads(ops: seq<Op>, id: RequestId)
    requires UniqueIds(ops) && Run(ops).Up? && Asked(ops, id) && !Decided(Run(ops).session.store, id)
    ensures id in Run(ops).session.store.resources
    ensures var d := Run(ops).session.store.resources[id]; d == Decision(id, false, None, "", "", d.timestamp)
  {
    var front, last := ops[..|ops| - 1], ops[|ops| - 1];
    assert ops == front + [last];
    UniqueStep(front, last);
    SessionInvariant(front);
    AskedStep(front, last, id);
    var s := Run(front).session;
    StoreStep(s, last);
    if Asked(front, id) {
      DecidedStep(s, last, id);
      UntouchedDecision(s, last, id);
      PendingReads(front, id);
    }
  }

  lemma AskedBefore(ops: seq<Op>, id: RequestId, i: nat)
    requires UniqueIds(ops) && Run(ops).Up? && i < |ops|
    ensures UniqueIds(ops[..i]) && UniqueIds(ops[..i + 1]) && Run(ops[..i]).Up? && Run(ops[..i + 1]).Up?
    ensures Run(ops[..i + 1]) == Next(Run(ops[..i]).session, ops[i])
    ensures ops[..i + 1] == ops[..i] + [ops[i]]
  {
    Shorter(ops, i);
    Shorter(ops, i + 1);
    assert ops[..i + 1][..i] == ops[..i];
  }

  lemma {:induction false} Shorter(ops: seq<Op>, i: nat)
    requires UniqueIds(ops) && Run(ops).Up? && i <= |ops|
    ensures UniqueIds(ops[..i]) && Run(ops[..i]).Up?
    decreases |ops|
  {
    if i == |ops| {
      assert ops[..i] == ops;
    } else {
      var front, last := ops[..|ops| - 1], ops[|ops| - 1];
      assert ops == front + [last] && ops[..i] == front[..i];
      UniqueStep(front, last);
      Shorter(front, i);
    }
  }

  /** What a decision says from step `i` on, when that step takes it. */
  lemma TakenReads(ops: seq<Op>, id: RequestId, i: nat)
    requires UniqueIds(ops) && Run(ops).Up? && (AnsweredAt(ops, id, i) || StoppedAt(ops, id, i))
    ensures Asked(ops[..i], id) && id in Run(ops[..i]).session.store.resources
    ensures var d := Run(ops[..i]).session.store.resources[id]; d == Decision(id, false, None, "", "", d.timestamp)
    ensures Run(ops[..i + 1]).Up?
    ensures id in Run(ops).session.store.resources && id in Run(ops[..i + 1]).session.store.resources
    ensures Decided(Run(ops[..i + 1]).session.store, id)
    ensures Run(ops).session.store.resources[id] == Run(ops[..i + 1]).session.store.resources[id]
  {
    AskedBefore(ops, id, i);
    var front := ops[..i];
    var s, op := Run(front).session, ops[i];
    SessionInvariant(front);
    PanicsOnDecided(s, op);
    PendingReads(front, id);
    UniqueStep(front, op);
    StoreStep(s, op);
    DecidedStep(s, op, id);
    AskedStep(front, op, id);
    assert ops == ops[..i + 1] + ops[i + 1..];
    DecisionsAreFinal(ops[..i + 1], ops[i + 1..], id);
  }

  /** Stops or not, an answered decision says what the message says that its subscriber handled. */
  lemma AnsweredReads(ops: seq<Op>, id: RequestId, i: nat)
    requires UniqueIds(ops) && Run(ops).Up? && AnsweredAt(ops, id, i)
    ensures id in Run(ops).session.store.resources
    ensures Says(Run(ops[..i]).session.subscribers[id].inbox[0], id, Run(ops).session.store.resources[id])
  {
    TakenReads(ops, id, i);
    AskedBefore(ops, id, i);
    SessionInvariant(ops[..i]);
    StoreStep(Run(ops[..i]).session, ops[i]);
  }

  /** A stopped one says nothing, at the time of the stop. */
  lemma StoppedReads(ops: seq<Op>, id: RequestId, i: nat)
    requires UniqueIds(ops) && Run(ops).Up? && StoppedAt(ops, id, i)
    ensures id in Run(ops).session.store.resources
    ensures Run(ops).session.store.resources[id] == Decision(id, true, None, "", "", Run(ops[..i]).session.stopAt)
  {
    TakenReads(ops, id, i);
    AskedBefore(ops, id, i);
    SessionInvariant(ops[..i]);
    StoreStep(Run(ops[..i]).session, ops[i]);
  }

  predicate Expired(ops: seq<Op>, id: RequestId) {
    exists i :: 0 <= i < |ops| && ops[i] == Expire(id)
  }

  lemma ExpiredStep(front: seq<Op>, op: Op, id: RequestId)
    ensures Expired(front + [op], id) <==> Expired(front, id) || op == Expire(id)
  {
    var ops, n := front + [op], |front|;
    if Expired(front, id) {
      var i :| 0 <= i < n && front[i] == Expire(id);
      assert ops[i] == Expire(id);
    }
    if op == Expire(id) {
      assert ops[n] == Expire(id);
    }
  }

  lemma TimerStep(s: Session, op: Op, id: RequestId)
    requires Next(s, op).Up?
    ensures id in Next(s, op).session.timers <==>
            || (op.Ask? && op.id == id)
            || (id in s.timers && !(op == Expire(id) && id in s.flowOf) && !(op == Disarm(id) && Decided(s.store, id)))
  {
  }

  /** An ask keeps its timer until the timer expires or the decision is taken. */
  lemma {:induction false} TimerKept(ops: seq<Op>, id: RequestId)
    requires UniqueIds(ops) && Run(ops).Up? && Asked(ops, id)
    ensures var s := Run(ops).session; id in s.timers || Expired(ops, id) || Decided(s.store, id)
    ensures Run(ops).session.timers <= Run(ops).session.store.resources.Keys
  {
    var front, last := ops[..|ops| - 1], ops[|ops| - 1];
    assert ops == front + [last];
    UniqueStep(front, last);
    SessionInvariant(front);
    SessionInvariant(ops);
    AskedStep(front, last, id);
    ExpiredStep(front, last, id);
    var s := Run(front).session;
    StoreStep(s, last);
    DecidedStep(s, last, id);
    TimerStep(s, last, id);
    if Asked(front, id) {
      TimerKept(front, id);
    }
    TimersKnown(ops);
  }

  lemma {:induction false} TimersKnown(ops: seq<Op>)
    requires UniqueIds(ops) && Run(ops).Up?
    ensures Run(ops).session.timers <= Run(ops).session.store.resources.Keys
  {
    if ops != [] {
      var front, last := ops[..|ops| - 1], ops[|ops| - 1];
      assert ops == front + [last];
      UniqueStep(front, last);
      TimersKnown(front);
      SessionInvariant(front);
      var s := Run(front).session;
      forall id | id in Run(ops).session.timers ensures id in Run(ops).session.store.resources {
        TimerStep(s, last, id);
        KnownNext(s, last, id);
      }
    }
  }

  /** After an ask's timer expired, who listens on its flow has the error record to read; nobody else is told. */
  lemma ExpiryTells(s: Session, id: RequestId)
    requires id in s.timers && id in s.flowOf
    ensures Next(s, Expire(id)).Up?
    ensures var t := Next(s, Expire(id)).session;
            && t.store == s.store && t.timers == s.timers - {id} && t.subscribers.Keys == s.subscribers.Keys
            && forall x | x in s.subscribers ::
                 t.subscribers[x] == if s.subscribers[x].Listening? && x in s.flowOf && s.flowOf[x] == s.flowOf[id]
                                     then Listening(s.subscribers[x].inbox + [Failure("timeout")]) else s.subscribers[x]
  {
  }

  /** Handled before any answer, it decides the ask without fields; nothing else is decided. */
  lemma ExpiryDecides(s: Session, id: RequestId, now: Instant)
    requires Consistent(s) && id in s.timers && id in s.subscribers && s.subscribers[id] == Listening([]) && !Decided(s.store, id)
    ensures Next(s, Expire(id)).Up? && Next(Next(s, Expire(id)).session, Handle(id, now)).Up?
    ensures var t := Next(Next(s, Expire(id)).session, Handle(id, now)).session;
            && t.store.resources == s.store.resources[id := s.store.resources[id].(decided := true, timestamp := now)]
            && t.store.resolved == s.store.resolved && t.store.resolved[id] in t.store.closed
  {
    ExpiryTells(s, id);
  }

  lemma {:induction false} NothingHeard(ops: seq<Op>, id: RequestId)
    requires !Asked(ops, id)
    ensures Heard(ops, id) == [] && !Listened(ops, id)
  {
    if ops == [] {
    } else {
      var front, last := ops[..|ops| - 1], ops[|ops| - 1];
      assert ops == front + [last];
      AskedStep(front, last, id);
      ListenedStep(front, last, id);
      NothingHeard(front, id);
    }
  }

  lemma NothingHeardBefore(front: seq<Op>, last: Op, id: RequestId)
    requires !Asked(front, id) && Asked(front + [last], id)
    ensures Heard(front + [last], id) == [] && !Listened(front + [last], id)
  {
    assert (front + [last])[..|front|] == front;
    AskedStep(front, last, id);
    ListenedStep(front, last, id);
    NothingHeard(front, id);
  }

  function Handles(ids: seq<RequestId>, now: Instant): (ops: seq<Op>)
    ensures |ops| == |ids| && forall i | 0 <= i < |ids| :: ops[i] == Handle(ids[i], now)
  {
    seq(|ids|, i requires 0 <= i < |ids| => Handle(ids[i], now))
  }

  /** The ask is pending, and its subscriber has one answer and nothing else to read. */
  predicate AboutToRead(s: Session, id: RequestId, r: NotificationResponse) {
    id in s.subscribers && s.subscribers[id] == Listening([Answer(r)]) && id in s.store.resources && !Decided(s.store, id)
  }

  /** `t` is `s` with exactly the asks `done` decided by the answer. */
  ghost predicate DecidedBy(s: Session, t: Session, done: seq<RequestId>, r: NotificationResponse)
    requires Consistent(s)
  {
    && Consistent(t) && t.store.resources.Keys == s.store.resources.Keys
    && forall id | id in s.store.resources ::
         if id in done then Says(Answer(r), s.store.resources[id].requestId, t.store.resources[id])
         else t.store.resources[id] == s.store.resources[id] && t.subscribers[id] == s.subscribers[id]
  }

  lemma DecidedByOneMore(s: Session, t: Session, front: seq<RequestId>, id: RequestId, r: NotificationResponse, now: Instant)
    requires Consistent(s) && DecidedBy(s, t, front, r) && id !in front && AboutToRead(s, id, r)
    ensures Next(t, Handle(id, now)).Up? && DecidedBy(s, Next(t, Handle(id, now)).session, front + [id], r)
  {
    assert AboutToRead(t, id, r);
    ReadOne(t, id, r, now);
  }

  lemma ReadOne(t: Session, id: RequestId, r: NotificationResponse, now: Instant)
    requires Consistent(t) && AboutToRead(t, id, r)
    ensures Next(t, Handle(id, now)).Up?
    ensures var u := Next(t, Handle(id, now)).session;
            && Consistent(u) && u.store.resources.Keys == t.store.resources.Keys
            && Says(Answer(r), t.store.resources[id].requestId, u.store.resources[id])
            && forall other | other in t.store.resources && other != id ::
                 u.store.resources[other] == t.store.resources[other] && u.subscribers[other] == t.subscribers[other]
  {
    var op := Handle(id, now);
    PanicsOnDecided(t, op);
    ConsistentNext(t, op);
    ReadOneStore(t, id, r, now);
    OthersListenOn(t, id, now);
  }

  lemma OthersListenOn(t: Session, id: RequestId, now: Instant)
    requires Next(t, Handle(id, now)).Up?
    ensures var u := Next(t, Handle(id, now)).session;
            forall other | other in t.subscribers && other != id ::
              other in u.subscribers && u.subscribers[other] == t.subscribers[other]
  {
  }

  lemma ReadOneStore(t: Session, id: RequestId, r: NotificationResponse, now: Instant)
    requires Consistent(t) && AboutToRead(t, id, r)
    ensures var u := StoreNext(t, Handle(id, now));
            && u.resources.Keys == t.store.resources.Keys
            && Says(Answer(r), t.store.resources[id].requestId, u.resources[id])
            && forall other | other in t.store.resources && other != id :: u.resources[other] == t.store.resources[other]
  {
  }

  lemma {:induction false} HandledEach(s: Session, ids: seq<RequestId>, r: NotificationResponse, now: Instant)
    requires Consistent(s) && NoRepeats(ids)
    requires forall id | id in ids :: AboutToRead(s, id, r)
    ensures Through(s, Handles(ids, now)).Up? && DecidedBy(s, Through(s, Handles(ids, now)).session, ids, r)
  {
    if ids == [] {
    } else {
      var n := |ids| - 1;
      var front, last := ids[..n], ids[n];
      assert ids == front + [last];
      HandledEach(s, front, r, now);
      var t := Through(s, Handles(front, now)).session;
      assert Handles(ids, now) == Handles(front, now) + [Handle(last, now)];
      OneMore(s, Handles(front, now), Handle(last, now), t);
      DecidedByOneMore(s, t, front, last, r, now);
    }
  }

  /**
   One answer on a flow decides every ask that listens on it with nothing unread, not only
   the one it names, and no other ask.
   */
  lemma AnswerSpreads(s: Session, f: FlowId, r: NotificationResponse, ids: seq<RequestId>, now: Instant)
    requires Consistent(s) && NoRepeats(ids)
    requires forall id | id in ids ::
               id in s.flowOf && s.flowOf[id] == f && s.subscribers[id] == Listening([]) && !Decided(s.store, id)
    ensures var end := Through(Delivered(s, f, Answer(r)), Handles(ids, now));
            && end.Up? && end.session.store.resources.Keys == s.store.resources.Keys
            && forall id | id in s.store.resources ::
                 if id in ids then Says(Answer(r), s.store.resources[id].requestId, end.session.store.resources[id])
                 else end.session.store.resources[id] == s.store.resources[id]
  {
    var sent := Delivered(s, f, Answer(r));
    assert Consistent(sent);
    HandledEach(sent, ids, r, now);
  }
}

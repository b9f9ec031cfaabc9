/**
 The consumer of interjection commands: debounce, then queue the command for the agent,
 and on a stop time out what is still pending.
 */
module McpServer {
  import opened Rfc3339
  import opened Payload
  import Debounce
  import Decisions
  import opened Interjections

  datatype Command = Command(flowId: FlowId, action: string, context: string, timestamp: Instant)

  /** One received command, with the clock reading of its debounce check; None when it does not decode. */
  datatype Delivery = Delivery(command: Option<Command>, now: int)

  const STOP := "stop"
  const NOTE := "note"
  const PAUSE := "pause"

  /** What is queued: a pause is kept as a note, with its own context. */
  function ItemOf(c: Command): Interjection {
    Interjection(c.flowId, c.action, if c.action == PAUSE then "Pause requested" else c.context, c.timestamp)
  }

  datatype Machine = Machine(times: map<string, int>, box: Box, decisions: Decisions.Store)

  function CallOf(d: Delivery): Debounce.Call
    requires d.command.Some?
  {
    Debounce.Call(d.command.value.flowId, d.command.value.action, d.now)
  }

  predicate Passes(times: map<string, int>, d: Delivery, window: int) {
    d.command.Some? && Debounce.Allowed(times, Debounce.KeyOf(CallOf(d)), d.now, window)
  }

  function Processed(m: Machine, d: Delivery, window: int): Machine
    requires m.decisions.resources.Keys <= m.decisions.resolved.Keys
  {
    if d.command.None? then m
    else
      var c, ok, times := d.command.value, Passes(m.times, d, window), Debounce.After(m.times, CallOf(d), window);
      Machine(times,
              if ok && c.action in {STOP, NOTE, PAUSE} then Next(m.box, Append(c.flowId, ItemOf(c))) else m.box,
              if ok && c.action == STOP then Decisions.Stopped(m.decisions, c.timestamp) else m.decisions)
  }

  /** The command's flow and action were let through less than a window ago. */
  predicate Recent(times: map<string, int>, c: Command, now: int, window: int) {
    c.flowId + ":" + c.action in times && now - times[c.flowId + ":" + c.action] < window
  }

  /** What a command puts in its flow's queue: itself if known, a pause with a context of its own. */
  function Queued(c: Command): seq<Interjection> {
    if c.action == "pause" then [Interjection(c.flowId, "pause", "Pause requested", c.timestamp)]
    else if c.action in {"stop", "note"} then [Interjection(c.flowId, c.action, c.context, c.timestamp)]
    else []
  }

  /** A command, from the outside: dropped when recent; else remembered, queued, and on a stop every pending decision is empty. */
  lemma CommandEffects(m: Machine, c: Command, now: int, window: int)
    requires Decisions.Sound(m.decisions)
    ensures var t := Processed(m, Delivery(Some(c), now), window);
            if Recent(m.times, c, now, window) then t == m
            else
              && t.times == m.times[c.flowId + ":" + c.action := now]
              && t.box.flows.Keys == m.box.flows.Keys
              && (forall f | f in m.box.flows ::
                    t.box.flows[f].queue == m.box.flows[f].queue + if f == c.flowId then Queued(c) else [])
              && (c.action != "stop" ==> t.decisions == m.decisions)
              && (c.action == "stop" ==>
                    && t.decisions.resources.Keys == m.decisions.resources.Keys
                    && forall id | id in m.decisions.resources ::
                         var d := m.decisions.resources[id];
                         t.decisions.resources[id] ==
                         if d.decided then d
                         else Decisions.Decision(d.requestId, true, d.accepted, d.action, d.text, c.timestamp))
  {
  }

  class Server {
    const debounce: Debounce.DebounceMap
    const interjections: InterjectionStore
    const decisions: Decisions.DecisionStore

    ghost predicate Valid()
      reads this, interjections, decisions
    {
      WellFormed(interjections.Contents()) && Decisions.Sound(decisions.Contents())
    }

    function State(): Machine
      reads debounce, interjections, decisions
    {
      Machine(debounce.times, interjections.Contents(), decisions.Contents())
    }

    constructor ()
      ensures Valid() && State() == Machine(map[], EMPTY, Decisions.EMPTY)
      ensures fresh(debounce) && fresh(interjections) && fresh(decisions)
    {
      debounce := new Debounce.DebounceMap();
      interjections := new InterjectionStore();
      decisions := new Decisions.DecisionStore();
    }

    method ProcessInterjection(d: Delivery, window: int)
      requires Valid()
      modifies debounce, interjections, decisions
      ensures Valid() && State() == Processed(old(State()), d, window)
    {
      if d.command.None? {
        return;
      }
      var c := d.command.value;
      var ok := debounce.Check(c.flowId, c.action, d.now, window);
      if !ok {
        return;
      }
      if c.action == STOP {
        HandleStop(c);
      } else if c.action == NOTE {
        HandleNote(c);
      } else if c.action == PAUSE {
        HandleNote(c.(context := "Pause requested"));
      }
    }

    method HandleStop(c: Command)
      requires Valid() && c.action == STOP
      modifies interjections, decisions
      ensures Valid()
      ensures interjections.Contents() == Next(old(interjections.Contents()), Append(c.flowId, ItemOf(c)))
      ensures decisions.Contents() == Decisions.Stopped(old(decisions.Contents()), c.timestamp)
    {
      interjections.AppendItem(c.flowId, Interjection(c.flowId, c.action, c.context, c.timestamp));
      decisions.ResolvePending(c.timestamp);
    }

    method HandleNote(c: Command)
      requires Valid()
      modifies interjections
      ensures Valid()
      ensures interjections.Contents()
           == Next(old(interjections.Contents()), Append(c.flowId, Interjection(c.flowId, c.action, c.context, c.timestamp)))
    {
      interjections.AppendItem(c.flowId, Interjection(c.flowId, c.action, c.context, c.timestamp));
    }
  }

  /******* Runs of deliveries *******/

  ghost function Run(m: Machine, ds: seq<Delivery>, window: int): (r: Machine)
    requires Decisions.Sound(m.decisions)
    ensures Decisions.Sound(r.decisions)
  {
    if ds == [] then m
    else
      var before, last := Run(m, ds[..|ds| - 1], window), ds[|ds| - 1];
      if last.command.Some? then Decisions.StoppedSound(before.decisions, last.command.value.timestamp); Processed(before, last, window)
      else before
  }

  /** The debounced calls, in order. */
  function Calls(ds: seq<Delivery>): seq<Debounce.Call> {
    if ds == [] then []
    else Calls(ds[..|ds| - 1]) + if ds[|ds| - 1].command.Some? then [CallOf(ds[|ds| - 1])] else []
  }

  lemma TimesOneMore(calls: seq<Debounce.Call>, c: Debounce.Call, window: int)
    ensures Debounce.Times(calls + [c], window) == Debounce.After(Debounce.Times(calls, window), c, window)
  {
    assert (calls + [c])[..|calls|] == calls;
  }

  lemma RunTimes(m: Machine, ds: seq<Delivery>, window: int)
    requires Decisions.Sound(m.decisions) && ds != []
    ensures var before, last := Run(m, ds[..|ds| - 1], window).times, ds[|ds| - 1];
            Run(m, ds, window).times == if last.command.Some? then Debounce.After(before, CallOf(last), window) else before
  {
  }

  lemma {:induction false} TimesFollowCalls(m: Machine, ds: seq<Delivery>, window: int)
    requires Decisions.Sound(m.decisions) && m.times == map[]
    ensures Run(m, ds, window).times == Debounce.Times(Calls(ds), window)
  {
    if ds == [] {
    } else {
      var front, last := ds[..|ds| - 1], ds[|ds| - 1];
      TimesFollowCalls(m, front, window);
      RunTimes(m, ds, window);
      if last.command.Some? {
        TimesOneMore(Calls(front), CallOf(last), window);
      } else {
        assert Calls(ds) == Calls(front);
      }
    }
  }

  /** Delivery `i` survives debouncing, as a run from an empty debounce map has it. */
  predicate Accepted(ds: seq<Delivery>, window: int, i: int)
    requires 0 <= i < |ds|
  {
    Passes(Debounce.Times(Calls(ds[..i]), window), ds[i], window)
  }

  /** The commands for `f` that survive debouncing and name a known action, as items. */
  function Kept(ds: seq<Delivery>, window: int, f: FlowId): seq<Interjection> {
    if ds == [] then []
    else
      var n := |ds| - 1;
      Kept(ds[..n], window, f) +
      if Accepted(ds, window, n) && ds[n].command.value.flowId == f && ds[n].command.value.action in {STOP, NOTE, PAUSE}
      then [ItemOf(ds[n].command.value)] else []
  }

  /** The queue of a registered flow grows by exactly the kept commands for it, in order. */
  lemma {:induction false} QueueHoldsKept(m: Machine, ds: seq<Delivery>, window: int, f: FlowId)
    requires Decisions.Sound(m.decisions) && m.times == map[] && f in m.box.flows
    ensures f in Run(m, ds, window).box.flows
    ensures Run(m, ds, window).box.flows[f].queue == m.box.flows[f].queue + Kept(ds, window, f)
  {
    if ds == [] {
    } else {
      var front := ds[..|ds| - 1];
      QueueHoldsKept(m, front, window, f);
      TimesFollowCalls(m, front, window);
      RunQueue(m, ds, window, f);
    }
  }

  /** What the last delivery adds to the queue of `f`. */
  lemma RunQueue(m: Machine, ds: seq<Delivery>, window: int, f: FlowId)
    requires Decisions.Sound(m.decisions) && ds != [] && f in Run(m, ds[..|ds| - 1], window).box.flows
    ensures f in Run(m, ds, window).box.flows
    ensures var before, last := Run(m, ds[..|ds| - 1], window), ds[|ds| - 1];
            Run(m, ds, window).box.flows[f].queue ==
            if Passes(before.times, last, window) && last.command.value.flowId == f && last.command.value.action in {STOP, NOTE, PAUSE}
            then before.box.flows[f].queue + [ItemOf(last.command.value)]
            else before.box.flows[f].queue
  {
    ProcessedQueue(Run(m, ds[..|ds| - 1], window), ds[|ds| - 1], window, f);
  }

  lemma ProcessedQueue(before: Machine, d: Delivery, window: int, f: FlowId)
    requires Decisions.Sound(before.decisions) && f in before.box.flows
    ensures f in Processed(before, d, window).box.flows
    ensures Processed(before, d, window).box.flows[f].queue ==
            if Passes(before.times, d, window) && d.command.value.flowId == f && d.command.value.action in {STOP, NOTE, PAUSE}
            then before.box.flows[f].queue + [ItemOf(d.command.value)]
            else before.box.flows[f].queue
  {
  }

  ghost predicate StopAccepted(ds: seq<Delivery>, window: int, i: int) {
    0 <= i < |ds| && Accepted(ds, window, i) && ds[i].command.value.action == STOP
  }

  ghost predicate SomeStop(ds: seq<Delivery>, window: int) {
    exists i :: StopAccepted(ds, window, i)
  }

  lemma SomeStopStep(ds: seq<Delivery>, window: int)
    requires ds != []
    ensures SomeStop(ds, window) <==> SomeStop(ds[..|ds| - 1], window) || StopAccepted(ds, window, |ds| - 1)
  {
    var n, front := |ds| - 1, ds[..|ds| - 1];
    assert forall i | 0 <= i < n :: front[..i] == ds[..i] && front[i] == ds[i];
    assert forall i | 0 <= i < n :: StopAccepted(ds, window, i) <==> StopAccepted(front, window, i);
  }

  /** Pending decisions are left as they were until a stop survives debouncing; from then on none is pending. */
  lemma {:induction false} StopSettlesAll(m: Machine, ds: seq<Delivery>, window: int)
    requires Decisions.Sound(m.decisions) && m.times == map[]
    ensures SomeStop(ds, window) ==> Decisions.Undecided(Run(m, ds, window).decisions) == {}
    ensures !SomeStop(ds, window) ==> Run(m, ds, window).decisions == m.decisions
  {
    if ds == [] {
    } else {
      var n := |ds| - 1;
      var front, last := ds[..n], ds[n];
      StopSettlesAll(m, front, window);
      TimesFollowCalls(m, front, window);
      var before := Run(m, front, window).decisions;
      if last.command.Some? {
        Decisions.StoppedSound(before, last.command.value.timestamp);
      }
      SomeStopStep(ds, window);
    }
  }

  /******* With asks in between *******/

  datatype Event = Deliver(delivery: Delivery) | NewAsk(id: RequestId, ts: Instant)

  ghost function RunEvents(m: Machine, es: seq<Event>, window: int): (r: Machine)
    requires Decisions.Sound(m.decisions)
    ensures Decisions.Sound(r.decisions)
  {
    if es == [] then m
    else
      var before := RunEvents(m, es[..|es| - 1], window);
      match es[|es| - 1]
      case NewAsk(id, ts) =>
        Decisions.RegisteredSound(before.decisions, id, ts);
        before.(decisions := Decisions.Registered(before.decisions, id, ts))
      case Deliver(d) =>
        if d.command.Some? then Decisions.StoppedSound(before.decisions, d.command.value.timestamp); Processed(before, d, window)
        else before
  }

  function Deliveries(es: seq<Event>): seq<Delivery> {
    if es == [] then []
    else if es[|es| - 1].Deliver? then Deliveries(es[..|es| - 1]) + [es[|es| - 1].delivery]
    else Deliveries(es[..|es| - 1])
  }

  lemma CallsOneMore(ds: seq<Delivery>, d: Delivery)
    ensures Calls(ds + [d]) == if d.command.Some? then Calls(ds) + [CallOf(d)] else Calls(ds)
  {
    assert (ds + [d])[..|ds|] == ds;
    assert Calls(ds) + [] == Calls(ds);
  }

  lemma EventTimes(m: Machine, es: seq<Event>, window: int)
    requires Decisions.Sound(m.decisions) && es != []
    ensures var before, last := RunEvents(m, es[..|es| - 1], window).times, es[|es| - 1];
            RunEvents(m, es, window).times ==
            if last.Deliver? && last.delivery.command.Some? then Debounce.After(before, CallOf(last.delivery), window) else before
  {
  }

  lemma {:induction false} TimesFollowEvents(m: Machine, es: seq<Event>, window: int)
    requires Decisions.Sound(m.decisions) && m.times == map[]
    ensures RunEvents(m, es, window).times == Debounce.Times(Calls(Deliveries(es)), window)
  {
    if es == [] {
    } else {
      var front, last := es[..|es| - 1], es[|es| - 1];
      TimesFollowEvents(m, front, window);
      EventTimes(m, es, window);
      if last.Deliver? {
        CallsOneMore(Deliveries(front), last.delivery);
        if last.delivery.command.Some? {
          TimesOneMore(Calls(Deliveries(front)), CallOf(last.delivery), window);
        }
      }
    }
  }

  /** Event `i` is a stop that survives debouncing. */
  ghost predicate StopAt(es: seq<Event>, window: int, i: int) {
    && 0 <= i < |es| && es[i].Deliver?
    && Passes(Debounce.Times(Calls(Deliveries(es[..i])), window), es[i].delivery, window)
    && es[i].delivery.command.value.action == STOP
  }

  ghost predicate NoStopAfter(es: seq<Event>, window: int, i: int) {
    forall k | i < k < |es| :: !StopAt(es, window, k)
  }

  /** Event `i` asks `id`, and no stop follows. */
  ghost predicate AskedAndKept(es: seq<Event>, window: int, id: RequestId, i: int) {
    0 <= i < |es| && es[i].NewAsk? && es[i].id == id && NoStopAfter(es, window, i)
  }

  ghost predicate StillPending(es: seq<Event>, window: int, id: RequestId, initially: bool) {
    (exists i :: AskedAndKept(es, window, id, i)) || (initially && NoStopAfter(es, window, -1))
  }

  lemma StopsOneMore(es: seq<Event>, window: int, i: int)
    requires es != [] && -1 <= i < |es| - 1
    ensures NoStopAfter(es, window, i) <==> NoStopAfter(es[..|es| - 1], window, i) && !StopAt(es, window, |es| - 1)
  {
    var n, front := |es| - 1, es[..|es| - 1];
    forall k | 0 <= k < n ensures StopAt(es, window, k) <==> StopAt(front, window, k) {
      assert front[..k] == es[..k] && front[k] == es[k];
    }
  }

  lemma PendingOneMore(es: seq<Event>, window: int, id: RequestId, initially: bool)
    requires es != []
    ensures var front, last := es[..|es| - 1], es[|es| - 1];
            StillPending(es, window, id, initially) <==>
            (last.NewAsk? && last.id == id) || (StillPending(front, window, id, initially) && !StopAt(es, window, |es| - 1))
  {
    var n, front := |es| - 1, es[..|es| - 1];
    forall i | 0 <= i < n
      ensures AskedAndKept(es, window, id, i) <==> AskedAndKept(front, window, id, i) && !StopAt(es, window, n)
    {
      StopsOneMore(es, window, i);
    }
    StopsOneMore(es, window, -1);
    assert AskedAndKept(es, window, id, n) <==> es[n].NewAsk? && es[n].id == id;
  }

  lemma PendingStep(before: Machine, e: Event, window: int, id: RequestId)
    requires Decisions.Sound(before.decisions)
    ensures e.NewAsk? ==>
              (id in Decisions.Undecided(Decisions.Registered(before.decisions, e.id, e.ts)) <==>
               e.id == id || id in Decisions.Undecided(before.decisions))
    ensures e.Deliver? ==>
              (id in Decisions.Undecided(Processed(before, e.delivery, window).decisions) <==>
               id in Decisions.Undecided(before.decisions)
               && !(Passes(before.times, e.delivery, window) && e.delivery.command.value.action == STOP))
  {
    if e.Deliver? && e.delivery.command.Some? {
      Decisions.StoppedSound(before.decisions, e.delivery.command.value.timestamp);
    }
  }

  /** A decision is pending exactly if it was asked, or pending at first, with no surviving stop since. */
  lemma {:induction false} PendingExactly(m: Machine, es: seq<Event>, window: int, id: RequestId)
    requires Decisions.Sound(m.decisions) && m.times == map[]
    ensures id in Decisions.Undecided(RunEvents(m, es, window).decisions) <==>
            StillPending(es, window, id, id in Decisions.Undecided(m.decisions))
  {
    if es == [] {
    } else {
      var front, last := es[..|es| - 1], es[|es| - 1];
      PendingExactly(m, front, window, id);
      TimesFollowEvents(m, front, window);
      PendingStep(RunEvents(m, front, window), last, window, id);
      PendingOneMore(es, window, id, id in Decisions.Undecided(m.decisions));
    }
  }
}

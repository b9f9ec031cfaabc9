/**
 The store of pending decisions. A channel is a number; `closed` holds those that were
 closed, and closing one twice would panic, so closing requires it to be open.
 */
module Decisions {
  import opened Rfc3339
  import opened Payload

  type Channel = nat

  datatype Decision = Decision(
    requestId: RequestId,
    decided: bool,
    accepted: Option<bool>,
    action: string,
    text: string,
    timestamp: Instant
  )

  /** What arrives on a flow's response subject: an answer, an error record, or neither. */
  datatype Message = Answer(response: NotificationResponse) | Failure(code: string) | Garbled

  datatype Store = Store(
    resources: map<RequestId, Decision>,
    resolved: map<RequestId, Channel>,
    closed: set<Channel>,
    next: Channel
  )

  const EMPTY := Store(map[], map[], {}, 0)

  function Pending(id: RequestId, ts: Instant): Decision {
    Decision(id, false, None, "", "", ts)
  }

  function TimedOut(d: Decision, ts: Instant): Decision {
    d.(decided := true, timestamp := ts)
  }

  /** A decision after a message: an answer's fields are copied, an error leaves none. */
  function Settled(d: Decision, m: Message, now: Instant): Decision
    requires !m.Garbled?
  {
    match m
    case Answer(r) => Decision(d.requestId, true, r.accepted, r.action, r.text, r.timestamp)
    case Failure(_) => TimedOut(d, now)
  }

  predicate Decided(st: Store, id: RequestId) {
    id in st.resources && st.resources[id].decided
  }

  /** One channel per decision, closed exactly when the decision is taken. */
  ghost predicate Sound(st: Store) {
    && st.resources.Keys == st.resolved.Keys
    && (forall id | id in st.resolved :: st.resolved[id] < st.next)
    && (forall c | c in st.closed :: c < st.next)
    && (forall a, b | a in st.resolved && b in st.resolved && a != b :: st.resolved[a] != st.resolved[b])
    && (forall id | id in st.resolved :: st.resolved[id] in st.closed <==> Decided(st, id))
  }

  function Registered(st: Store, id: RequestId, ts: Instant): Store {
    Store(st.resources[id := Pending(id, ts)], st.resolved[id := st.next], st.closed, st.next + 1)
  }

  /** A known decision becomes `d`, and its channel is closed. */
  function Concluded(st: Store, id: RequestId, d: Decision): Store
    requires id in st.resolved
  {
    st.(resources := st.resources[id := d], closed := st.closed + {st.resolved[id]})
  }

  function Undecided(st: Store): set<RequestId> {
    set id | id in st.resources && !st.resources[id].decided
  }

  /** The decisions in `ids` time out. */
  function TimedOutAll(st: Store, ids: set<RequestId>, ts: Instant): Store
    requires ids <= st.resources.Keys <= st.resolved.Keys
  {
    st.(resources := map id | id in st.resources :: if id in ids then TimedOut(st.resources[id], ts) else st.resources[id],
        closed := st.closed + set id | id in ids :: st.resolved[id])
  }

  /** Every pending decision times out, whichever flow asked for it. */
  function Stopped(st: Store, ts: Instant): Store
    requires st.resources.Keys <= st.resolved.Keys
  {
    TimedOutAll(st, Undecided(st), ts)
  }

  lemma RegisteredSound(st: Store, id: RequestId, ts: Instant)
    requires Sound(st)
    ensures Sound(Registered(st, id, ts))
  {
  }

  lemma ConcludedSound(st: Store, id: RequestId, d: Decision)
    requires Sound(st) && id in st.resources && d.decided
    ensures Sound(Concluded(st, id, d))
  {
  }

  lemma StoppedSound(st: Store, ts: Instant)
    requires Sound(st)
    ensures Sound(Stopped(st, ts)) && Undecided(Stopped(st, ts)) == {}
  {
  }

  lemma PendingLeft(st: Store, ids: set<RequestId>, done: set<RequestId>, id: RequestId, ts: Instant)
    requires Sound(st) && done <= st.resources.Keys
    requires ids + done == Undecided(st) && ids * done == {} && id in ids
    ensures id in st.resources && id !in done && !Decided(TimedOutAll(st, done, ts), id)
    ensures TimedOutAll(st, done, ts).resources[id] == st.resources[id]
    ensures done + {id} <= st.resources.Keys
    ensures (ids - {id}) + (done + {id}) == Undecided(st) && (ids - {id}) * (done + {id}) == {}
  {
    assert id in Undecided(st) && id !in ids * done;
  }

  lemma OneMoreTimedOut(st: Store, ids: set<RequestId>, id: RequestId, ts: Instant)
    requires ids <= st.resources.Keys <= st.resolved.Keys && id in st.resources && id !in ids
    ensures Concluded(TimedOutAll(st, ids, ts), id, TimedOut(st.resources[id], ts)) == TimedOutAll(st, ids + {id}, ts)
  {
    var one, all := Concluded(TimedOutAll(st, ids, ts), id, TimedOut(st.resources[id], ts)), TimedOutAll(st, ids + {id}, ts);
    assert one.resources == all.resources;
    assert one.closed == all.closed;
  }

  class DecisionStore {
    var resources: map<RequestId, Decision>
    var resolved: map<RequestId, Channel>
    var closed: set<Channel>
    var next: Channel

    function Contents(): Store
      reads this
    {
      Store(resources, resolved, closed, next)
    }

    constructor ()
      ensures Contents() == EMPTY && Sound(Contents())
    {
      resources, resolved, closed, next := map[], map[], {}, 0;
    }

    method Close(c: Channel)
      requires c !in closed
      modifies this`closed
      ensures closed == old(closed) + {c}
    {
      closed := closed + {c};
    }

    /** Stores the taken decision and wakes whoever waits for it. */
    method Conclude(id: RequestId, d: Decision)
      requires Sound(Contents()) && id in resources && !resources[id].decided && d.decided
      modifies this`resources, this`closed
      ensures Sound(Contents()) && Contents() == Concluded(old(Contents()), id, d)
    {
      ConcludedSound(Contents(), id, d);
      resources := resources[id := d];
      if id in resolved {
        Close(resolved[id]);
      }
    }

    method Register(id: RequestId, ts: Instant)
      requires Sound(Contents())
      modifies this
      ensures Sound(Contents()) && Contents() == Registered(old(Contents()), id, ts)
      ensures resources == old(resources)[id := Decision(id, false, None, "", "", ts)]
      ensures id in resolved && resolved[id] !in closed
    {
      RegisteredSound(Contents(), id, ts);
      resources := resources[id := Decision(id, false, None, "", "", ts)];
      resolved := resolved[id := next];
      next := next + 1;
    }

    method Resolve(id: RequestId, r: NotificationResponse) returns (found: bool)
      requires Sound(Contents()) && !Decided(Contents(), id)
      modifies this`resources, this`closed
      ensures Sound(Contents()) && found == (id in old(resources))
      ensures Contents() ==
              if found then Concluded(old(Contents()), id, Settled(old(resources[id]), Answer(r), r.timestamp))
              else old(Contents())
      ensures found ==> resources == old(resources)[
                id := Decision(old(resources[id]).requestId, true, r.accepted, r.action, r.text, r.timestamp)]
      ensures found ==> resolved[id] in closed
    {
      if id !in resources {
        return false;
      }
      Conclude(id, resources[id].(decided := true, accepted := r.accepted, action := r.action, text := r.text, timestamp := r.timestamp));
      found := true;
    }

    method ResolveTimeout(id: RequestId, ts: Instant) returns (found: bool)
      requires Sound(Contents()) && !Decided(Contents(), id)
      modifies this`resources, this`closed
      ensures Sound(Contents()) && found == (id in old(resources))
      ensures Contents() ==
              if found then Concluded(old(Contents()), id, TimedOut(old(resources[id]), ts)) else old(Contents())
      ensures found ==> resources == old(resources)[id := old(resources[id]).(decided := true, timestamp := ts)]
      ensures found ==> resolved[id] in closed
    {
      if id !in resources {
        return false;
      }
      Conclude(id, resources[id].(decided := true, timestamp := ts));
      found := true;
    }

    method Get(id: RequestId) returns (d: Option<Decision>)
      ensures d == Lookup(resources, id)
    {
      d := if id in resources then Some(resources[id]) else None;
    }

    method Resolved(id: RequestId) returns (c: Option<Channel>)
      ensures c == Lookup(resolved, id)
    {
      c := if id in resolved then Some(resolved[id]) else None;
    }

    method Remove(id: RequestId)
      requires Sound(Contents())
      modifies this`resources, this`resolved
      ensures Sound(Contents())
      ensures Contents() == old(Contents()).(resources := old(resources) - {id}, resolved := old(resolved) - {id})
    {
      resources := resources - {id};
      resolved := resolved - {id};
    }

    /** What a subscriber does with the message it received for `id`. */
    method HandleResponse(id: RequestId, m: Message, now: Instant)
      requires Sound(Contents()) && (Decided(Contents(), id) ==> m.Garbled?)
      modifies this`resources, this`closed
      ensures Sound(Contents())
      ensures Contents() ==
              if m.Garbled? || id !in old(resources) then old(Contents())
              else Concluded(old(Contents()), id, Settled(old(resources[id]), m, now))
    {
      match m
      case Failure(_) =>
        var found := ResolveTimeout(id, now);
      case Answer(r) =>
        var found := Resolve(id, r);
      case Garbled =>
    }

    /** The stop: collect the pending ids, then time them out one by one. */
    method ResolvePending(ts: Instant)
      requires Sound(Contents())
      modifies this`resources, this`closed
      ensures Sound(Contents()) && Contents() == Stopped(old(Contents()), ts)
      ensures resources.Keys == old(resources).Keys
      ensures forall id | id in resources ::
                && resources[id] == (if old(resources)[id].decided then old(resources)[id]
                                     else old(resources)[id].(decided := true, timestamp := ts))
                && resolved[id] in closed
    {
      var ids := set id | id in resources && !resources[id].decided;
      ghost var st, done := Contents(), {};
      assert TimedOutAll(st, {}, ts) == st;
      while ids != {}
        invariant Sound(Contents()) && done <= st.resources.Keys
        invariant ids + done == Undecided(st) && ids * done == {}
        invariant Contents() == TimedOutAll(st, done, ts)
        decreases |ids|
      {
        var id :| id in ids;
        PendingLeft(st, ids, done, id, ts);
        OneMoreTimedOut(st, done, id, ts);
        var found := ResolveTimeout(id, ts);
        ids, done := ids - {id}, done + {id};
      }
      assert done == Undecided(st);
    }

    /** The end of an await parked on the channel of `id`: the taken decision if woken, an empty one on timeout. */
    method FinishAwait(id: RequestId, c: Channel, timedOut: bool, now: Instant) returns (d: Option<Decision>)
      requires Sound(Contents()) && id in resolved && resolved[id] == c
      requires timedOut || c in closed
      ensures d.Some? && d.value.decided
      ensures timedOut ==> d.value == Decision(id, true, None, "", "", now)
      ensures !timedOut ==> id in resources && d.value == resources[id]
    {
      if timedOut {
        return Some(Decision(id, true, None, "", "", now));
      }
      d := Get(id);
    }
  }

  /******* Live subscribers *******/

  /** The cancel functions of running subscribers; calling one twice is harmless. */
  class SubscriberMap {
    var cancels: map<RequestId, nat>
    var cancelled: set<nat>

    constructor ()
      ensures cancels == map[] && cancelled == {}
    {
      cancels, cancelled := map[], {};
    }

    method Add(id: RequestId, cancel: nat)
      modifies this`cancels
      ensures cancels == old(cancels)[id := cancel]
    {
      cancels := cancels[id := cancel];
    }

    method Cancel(id: RequestId)
      modifies this
      ensures cancels == old(cancels) - {id}
      ensures cancelled == old(cancelled) + if id in old(cancels) then {old(cancels)[id]} else {}
    {
      if id in cancels {
        cancelled := cancelled + {cancels[id]};
        cancels := cancels - {id};
      }
    }

    method CancelForFlow(ids: seq<RequestId>)
      modifies this
      ensures cancels == old(cancels) - set id | id in ids
      ensures cancelled == old(cancelled) + set id | id in ids && id in old(cancels) :: old(cancels)[id]
    {
      for i := 0 to |ids|
        invariant cancels == old(cancels) - set id | id in ids[..i]
        invariant cancelled == old(cancelled) + set id | id in ids[..i] && id in old(cancels) :: old(cancels)[id]
      {
        assert ids[..i + 1] == ids[..i] + [ids[i]];
        Cancel(ids[i]);
      }
      assert ids[..|ids|] == ids;
    }

    method CancelAll()
      modifies this
      ensures cancels == map[] && cancelled == old(cancelled) + old(cancels).Values
    {
      while cancels != map[]
        invariant forall id | id in cancels :: id in old(cancels) && cancels[id] == old(cancels)[id]
        invariant cancelled == old(cancelled) + set id | id in old(cancels) && id !in cancels :: old(cancels)[id]
        decreases |cancels|
      {
        var id :| id in cancels;
        Cancel(id);
      }
    }
  }
}

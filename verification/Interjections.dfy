/**
 The store of interjections per flow: a queue, and a channel that is closed and replaced
 at every append. A channel is a number; `closed` holds those that were closed, and
 closing one twice would panic, so closing requires it to be open.
 */
module Interjections {
  import opened Rfc3339
  import opened Payload

  datatype Interjection = Interjection(flowId: FlowId, action: string, context: string, timestamp: Instant)

  type Channel = nat

  datatype FlowQueue = FlowQueue(queue: seq<Interjection>, notify: Channel)

  /** All queues, and the channels made so far: those below `next`. */
  datatype Box = Box(flows: map<FlowId, FlowQueue>, closed: set<Channel>, next: Channel)

  const EMPTY := Box(map[], {}, 0)

  datatype Op =
    | Register(flowId: FlowId)
    | Append(flowId: FlowId, item: Interjection)
    | Drain(flowId: FlowId)
    | Remove(flowId: FlowId)

  /** What a drain by this step returns; empty for any other step. */
  function Taken(b: Box, op: Op): seq<Interjection> {
    if op.Drain? && op.flowId in b.flows then b.flows[op.flowId].queue else []
  }

  function Next(b: Box, op: Op): Box {
    match op
    case Register(f) => Box(b.flows[f := FlowQueue([], b.next)], b.closed, b.next + 1)
    case Append(f, item) =>
      if f !in b.flows then b
      else
        var q := b.flows[f];
        Box(b.flows[f := FlowQueue(q.queue + [item], b.next)], b.closed + {q.notify}, b.next + 1)
    case Drain(f) =>
      if f !in b.flows then b else b.(flows := b.flows[f := b.flows[f].(queue := [])])
    case Remove(f) => b.(flows := b.flows - {f})
  }

  function Run(b: Box, ops: seq<Op>): Box {
    if ops == [] then b else Next(Run(b, ops[..|ops| - 1]), ops[|ops| - 1])
  }

  /** Every flow has its own channel, and it is open. */
  ghost predicate WellFormed(b: Box) {
    && (forall f | f in b.flows :: b.flows[f].notify < b.next && b.flows[f].notify !in b.closed)
    && (forall f, g | f in b.flows && g in b.flows && f != g :: b.flows[f].notify != b.flows[g].notify)
    && (forall c | c in b.closed :: c < b.next)
  }

  lemma WellFormedNext(b: Box, op: Op)
    requires WellFormed(b)
    ensures WellFormed(Next(b, op))
  {
  }

  lemma {:induction false} WellFormedRun(b: Box, ops: seq<Op>)
    requires WellFormed(b)
    ensures WellFormed(Run(b, ops))
  {
    if ops == [] {
    } else {
      WellFormedRun(b, ops[..|ops| - 1]);
      WellFormedNext(Run(b, ops[..|ops| - 1]), ops[|ops| - 1]);
    }
  }

  /** A registration starts a flow afresh and a removal forgets it, whatever was queued; other flows are left alone. */
  lemma StartsEmpty(b: Box, op: Op, f: FlowId)
    requires WellFormed(b)
    ensures op == Register(f) ==>
              f in Next(b, op).flows && Next(b, op).flows[f].queue == [] && Next(b, op).flows[f].notify !in b.closed
              && forall g | g in b.flows :: Next(b, op).flows[f].notify != b.flows[g].notify
    ensures op == Remove(f) ==> f !in Next(b, op).flows
    ensures op.flowId != f ==> Lookup(Next(b, op).flows, f) == Lookup(b.flows, f)
  {
  }

  class InterjectionStore {
    var flows: map<FlowId, FlowQueue>
    var closed: set<Channel>
    var next: Channel

    function Contents(): Box
      reads this
    {
      Box(flows, closed, next)
    }

    constructor ()
      ensures Contents() == EMPTY && WellFormed(Contents())
    {
      flows, closed, next := map[], {}, 0;
    }

    method MakeChannel() returns (c: Channel)
      modifies this`next
      ensures c == old(next) && next == old(next) + 1
    {
      c := next;
      next := next + 1;
    }

    method Close(c: Channel)
      requires c !in closed
      modifies this`closed
      ensures closed == old(closed) + {c}
    {
      closed := closed + {c};
    }

    method RegisterFlow(flowId: FlowId)
      requires WellFormed(Contents())
      modifies this
      ensures WellFormed(Contents()) && Contents() == Next(old(Contents()), Register(flowId))
    {
      var c := MakeChannel();
      flows := flows[flowId := FlowQueue([], c)];
    }

    method AppendItem(flowId: FlowId, item: Interjection)
      requires WellFormed(Contents())
      modifies this
      ensures WellFormed(Contents()) && Contents() == Next(old(Contents()), Append(flowId, item))
    {
      if flowId !in flows {
        return;
      }
      WellFormedNext(Contents(), Append(flowId, item));
      var q := flows[flowId].queue + [item];
      Close(flows[flowId].notify);
      var c := MakeChannel();
      flows := flows[flowId := FlowQueue(q, c)];
    }

    method DrainFlow(flowId: FlowId) returns (items: seq<Interjection>)
      requires WellFormed(Contents())
      modifies this`flows
      ensures WellFormed(Contents()) && Contents() == Next(old(Contents()), Drain(flowId))
      ensures items == Taken(old(Contents()), Drain(flowId))
    {
      if flowId !in flows || |flows[flowId].queue| == 0 {
        assert flowId in flows ==> flows[flowId := flows[flowId].(queue := [])] == flows;
        return [];
      }
      items := flows[flowId].queue;
      flows := flows[flowId := flows[flowId].(queue := [])];
    }

    /** The newest item, left in the queue. */
    method Get(flowId: FlowId) returns (item: Option<Interjection>)
      ensures item == if flowId in flows && flows[flowId].queue != []
                      then Some(flows[flowId].queue[|flows[flowId].queue| - 1]) else None
    {
      if flowId !in flows || |flows[flowId].queue| == 0 {
        return None;
      }
      return Some(flows[flowId].queue[|flows[flowId].queue| - 1]);
    }

    method Notified(flowId: FlowId) returns (c: Option<Channel>)
      ensures c == if flowId in flows then Some(flows[flowId].notify) else None
    {
      c := if flowId in flows then Some(flows[flowId].notify) else None;
    }

    method RemoveFlow(flowId: FlowId)
      requires WellFormed(Contents())
      modifies this`flows
      ensures WellFormed(Contents()) && Contents() == Next(old(Contents()), Remove(flowId))
    {
      flows := flows - {flowId};
    }

    /** What an await does when its wait is over: drain if woken, nothing on timeout. */
    method FinishAwait(flowId: FlowId, c: Channel, timedOut: bool) returns (items: seq<Interjection>)
      requires WellFormed(Contents())
      requires timedOut || c in closed
      modifies this`flows
      ensures WellFormed(Contents())
      ensures timedOut ==> items == [] && Contents() == old(Contents())
      ensures !timedOut ==> items == Taken(old(Contents()), Drain(flowId)) && Contents() == Next(old(Contents()), Drain(flowId))
    {
      if timedOut {
        return [];
      }
      items := DrainFlow(flowId);
    }
  }

  /******* Conservation *******/

  /** All items appended to `f`, in order. */
  function AppendedTo(ops: seq<Op>, f: FlowId): seq<Interjection> {
    if ops == [] then []
    else
      var last := ops[|ops| - 1];
      AppendedTo(ops[..|ops| - 1], f) + if last.Append? && last.flowId == f then [last.item] else []
  }

  /** All items drained from `f`, batch after batch. */
  function DrainedFrom(b: Box, ops: seq<Op>, f: FlowId): seq<Interjection> {
    if ops == [] then []
    else
      var front, last := ops[..|ops| - 1], ops[|ops| - 1];
      DrainedFrom(b, front, f) + if last.flowId == f then Taken(Run(b, front), last) else []
  }

  predicate Ends(op: Op, f: FlowId) {
    (op.Register? || op.Remove?) && op.flowId == f
  }

  predicate Feeds(op: Op, f: FlowId) {
    op.Append? && op.flowId == f
  }

  ghost predicate Uninterrupted(ops: seq<Op>, f: FlowId) {
    forall i | 0 <= i < |ops| :: !Ends(ops[i], f)
  }

  /**
   Between a flow's registration and its removal nothing is lost, duplicated or put out
   of order: what was there and what was appended is what was drained and what is left.
   */
  lemma {:induction false} ItemsConserved(b: Box, ops: seq<Op>, f: FlowId)
    requires f in b.flows && Uninterrupted(ops, f)
    ensures f in Run(b, ops).flows
    ensures b.flows[f].queue + AppendedTo(ops, f) == DrainedFrom(b, ops, f) + Run(b, ops).flows[f].queue
  {
    if ops == [] {
    } else {
      var front, last := ops[..|ops| - 1], ops[|ops| - 1];
      assert forall i | 0 <= i < |front| :: front[i] == ops[i];
      ItemsConserved(b, front, f);
      assert !Ends(last, f);
      ConservedStep(Run(b, front), last, f, b.flows[f].queue + AppendedTo(front, f), DrainedFrom(b, front, f));
      assert b.flows[f].queue + AppendedTo(ops, f)
          == (b.flows[f].queue + AppendedTo(front, f)) + if Feeds(last, f) then [last.item] else [];
    }
  }

  /** After a registration the queue holds what was appended since and not drained. */
  lemma QueueSinceRegistration(b: Box, ops: seq<Op>, f: FlowId)
    requires Uninterrupted(ops, f)
    ensures var registered := Next(b, Register(f));
            && f in Run(registered, ops).flows
            && AppendedTo(ops, f) == DrainedFrom(registered, ops, f) + Run(registered, ops).flows[f].queue
  {
    ItemsConserved(Next(b, Register(f)), ops, f);
  }

  lemma ConservedStep(b: Box, op: Op, f: FlowId, given: seq<Interjection>, taken: seq<Interjection>)
    requires f in b.flows && !Ends(op, f) && given == taken + b.flows[f].queue
    ensures f in Next(b, op).flows
    ensures given + (if Feeds(op, f) then [op.item] else [])
         == taken + (if op.flowId == f then Taken(b, op) else []) + Next(b, op).flows[f].queue
  {
  }

  /******* Waking *******/

  /** Some append to `f` comes before any re-registration or removal of it. */
  ghost predicate FedFirst(ops: seq<Op>, f: FlowId) {
    exists i :: 0 <= i < |ops| && Feeds(ops[i], f) && forall k | 0 <= k < i :: !Ends(ops[k], f)
  }

  lemma FedFirstStep(ops: seq<Op>, f: FlowId)
    requires ops != []
    ensures var front, last := ops[..|ops| - 1], ops[|ops| - 1];
            FedFirst(ops, f) <==> FedFirst(front, f) || (Uninterrupted(front, f) && Feeds(last, f))
  {
    var front, n := ops[..|ops| - 1], |ops| - 1;
    assert forall k | 0 <= k < n :: front[k] == ops[k];
    if Uninterrupted(front, f) && Feeds(ops[n], f) {
      assert forall k | 0 <= k < n :: !Ends(ops[k], f);
    }
    if FedFirst(front, f) {
      var i :| 0 <= i < n && Feeds(front[i], f) && forall k | 0 <= k < i :: !Ends(front[k], f);
      assert Feeds(ops[i], f);
    }
  }

  /**
   The channel a waiter took from flow `f` is closed later exactly when an append to the
   flow reached it before the flow was registered anew or removed; until then, and only
   then, it is still the flow's channel.
   */
  lemma {:induction false} WokenExactlyWhenFed(b: Box, ops: seq<Op>, f: FlowId)
    requires WellFormed(b) && f in b.flows
    ensures b.flows[f].notify in Run(b, ops).closed <==> FedFirst(ops, f)
    ensures (f in Run(b, ops).flows && Run(b, ops).flows[f].notify == b.flows[f].notify)
            <==> Uninterrupted(ops, f) && !FedFirst(ops, f)
    ensures forall g | g in Run(b, ops).flows && Run(b, ops).flows[g].notify == b.flows[f].notify :: g == f
  {
    if ops == [] {
    } else {
      var front, last := ops[..|ops| - 1], ops[|ops| - 1];
      WokenExactlyWhenFed(b, front, f);
      WellFormedRun(b, front);
      FedFirstStep(ops, f);
      NextChannels(b, front);
      ChannelStep(Run(b, front), last, f, b.flows[f].notify);
      assert Uninterrupted(ops, f) <==> Uninterrupted(front, f) && !Ends(last, f) by {
        assert forall k | 0 <= k < |front| :: front[k] == ops[k];
      }
      if FedFirst(front, f) && Uninterrupted(ops, f) {
        assert Uninterrupted(front, f);
      }
    }
  }

  lemma {:induction false} NextChannels(b: Box, ops: seq<Op>)
    ensures Run(b, ops).next >= b.next
  {
    if ops == [] {
    } else {
      NextChannels(b, ops[..|ops| - 1]);
    }
  }

  /** The channel `c` of some flow: which step closes it, and which leaves it in place for `f`. */
  lemma ChannelStep(b: Box, op: Op, f: FlowId, c: Channel)
    requires WellFormed(b) && c < b.next
    requires forall g | g in b.flows && b.flows[g].notify == c :: g == f
    ensures c in Next(b, op).closed <==> c in b.closed || (f in b.flows && b.flows[f].notify == c && Feeds(op, f))
    ensures (f in Next(b, op).flows && Next(b, op).flows[f].notify == c)
            <==> f in b.flows && b.flows[f].notify == c && !Ends(op, f) && !Feeds(op, f)
    ensures forall g | g in Next(b, op).flows && Next(b, op).flows[g].notify == c :: g == f
  {
  }

  /**
   An await drains first and takes the channel in a later step. If the flow stays
   registered, the waiter is parked on an open channel exactly when nothing is appended
   after it took the channel; what then waits in the queue was appended between its two
   steps, and stays there.
   */
  lemma ParkedWaiter(b: Box, between: seq<Op>, after: seq<Op>, f: FlowId)
    requires WellFormed(b) && f in b.flows && b.flows[f].queue == []
    requires Uninterrupted(between, f) && Uninterrupted(after, f)
    ensures var taken := Run(b, between);
            var now := Run(taken, after);
            && f in taken.flows && f in now.flows
            && (taken.flows[f].notify !in now.closed <==> AppendedTo(after, f) == [])
            && (taken.flows[f].notify !in now.closed ==>
                  AppendedTo(between, f) == DrainedFrom(b, between, f) + DrainedFrom(taken, after, f) + now.flows[f].queue)
  {
    var taken := Run(b, between);
    var now := Run(taken, after);
    ItemsConserved(b, between, f);
    ItemsConserved(taken, after, f);
    ParkedOpen(b, between, after, f);
    Chained(AppendedTo(between, f), DrainedFrom(b, between, f), taken.flows[f].queue,
            AppendedTo(after, f), DrainedFrom(taken, after, f), now.flows[f].queue);
  }

  lemma ParkedOpen(b: Box, between: seq<Op>, after: seq<Op>, f: FlowId)
    requires WellFormed(b) && f in b.flows && f in Run(b, between).flows && Uninterrupted(after, f)
    ensures Run(b, between).flows[f].notify !in Run(Run(b, between), after).closed <==> AppendedTo(after, f) == []
  {
    WellFormedRun(b, between);
    WokenExactlyWhenFed(Run(b, between), after, f);
    NothingFed(after, f);
  }

  lemma Chained<T>(given: seq<T>, first: seq<T>, middle: seq<T>, more: seq<T>, second: seq<T>, left: seq<T>)
    requires [] + given == first + middle && middle + more == second + left
    ensures more == [] ==> given == first + second + left
  {
    if more == [] {
      assert given == [] + given;
      assert middle == middle + more;
      assert first + (second + left) == first + second + left;
    }
  }

  lemma {:induction false} NothingFed(ops: seq<Op>, f: FlowId)
    requires Uninterrupted(ops, f)
    ensures AppendedTo(ops, f) == [] <==> !FedFirst(ops, f)
  {
    if ops == [] {
    } else {
      var front := ops[..|ops| - 1];
      assert forall k | 0 <= k < |front| :: front[k] == ops[k];
      NothingFed(front, f);
      FedFirstStep(ops, f);
    }
  }

  /** One append between the two steps is kept but wakes nobody. */
  lemma AppendBetweenDoesNotWake(b: Box, f: FlowId, item: Interjection)
    requires WellFormed(b) && f in b.flows && b.flows[f].queue == []
    ensures var taken := Run(b, [Append(f, item)]);
            && f in taken.flows && taken.flows[f].queue == [item]
            && taken.flows[f].notify !in taken.closed
  {
    assert [Append(f, item)][..0] == [];
    WellFormedRun(b, [Append(f, item)]);
    assert Run(b, []) == b;
    assert Run(b, [Append(f, item)]) == Next(b, Append(f, item));
  }
}

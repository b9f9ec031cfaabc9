/**
 The daemon's registry service: consumes messages, serves write requests, reaps stale
 flows, and keeps the workspace snapshot that the heartbeat publishes.
 */
module RegistryService {
  import opened Rfc3339
  import opened Payload
  import opened Ledger
  import opened Registry
  import opened Routing
  import Rows
  import opened Reaper
  import opened Workspace

  function FailedEvent(f: ListedFlow, at: Instant): FlowLifecycleEvent {
    FlowLifecycleEvent(f.flowId, f.row.daemonId, f.row.workspaceId, Failed, "", None, at)
  }

  /** A failed event at `now`, with the daemon and workspace of its flow's row and nothing else. */
  predicate FailsRow(e: FlowLifecycleEvent, row: FlowRow, now: Instant) {
    && e.status == Failed && e.timestamp == now && e.daemonId == row.daemonId && e.workspaceId == row.workspaceId
    && e.flowLabel == "" && e.metadata == None
  }

  /** Exactly one failed event for each of the rows, and no other event. */
  ghost predicate Announces(published: seq<FlowLifecycleEvent>, rows: map<FlowId, FlowRow>, now: Instant) {
    && (forall e :: e in published <==> e.flowId in rows && FailsRow(e, rows[e.flowId], now))
    && (forall i, j | 0 <= i < j < |published| :: published[i].flowId != published[j].flowId)
  }

  class Service {
    const db: DB
    const username: string
    var snapshot: seq<WorkspaceInfo>

    ghost predicate Valid()
      reads this, db
    {
      Consistent(db.Tables()) && Agrees(db.active, snapshot)
    }

    constructor (db: DB, username: string)
      requires Consistent(db.Tables())
      ensures Valid() && this.db == db && this.username == username
    {
      this.db, this.username := db, username;
      snapshot := [];
      new;
      RebuildWorkspaceSnapshot();
    }

    method RebuildWorkspaceSnapshot()
      modifies this`snapshot
      ensures Fresh(db.active, snapshot) && Agrees(db.active, snapshot)
      ensures ShowsRows(db.active, snapshot) && NamedByNewest(db.active, snapshot)
    {
      var flows := db.ListActiveFlows(ActiveFlowsQuery("", "", ""));
      snapshot := GroupFlows(flows);
      assert Matching(db.active, ActiveFlowsQuery("", "", "")) == db.active;
      assert GroupsListing(db.active, snapshot, flows);
      assert SameButActivity(db.active, db.active);
      FreshSnapshotTells(db.active, snapshot);
    }

    /** Registers a new flow, or refreshes it when it is already there. */
    method HandleActive(e: FlowLifecycleEvent)
      requires e.status == Active
      modifies db
      ensures db.Tables() == ApplyEvent(old(db.Tables()), username, e)
      ensures e.flowId in db.active
      ensures e.flowId !in old(db.active) ==> Rows.Tells(db.active[e.flowId], username, e, e, Seconds(e.timestamp))
      ensures e.flowId in old(db.active) ==>
                db.active[e.flowId] == old(db.active)[e.flowId].(
                  flowLabel := e.flowLabel, metadata := e.metadata, lastActivity := Seconds(e.timestamp))
    {
      if e.flowId !in db.active {
        Rows.ActivatedNew(db.Tables(), username, e);
      }
      var ok := db.RegisterFlow(e.flowId, NewRow(username, e));
      if !ok {
        ok := db.RefreshFlow(e.flowId, e.flowLabel, e.metadata, e.timestamp);
      }
    }

    method HandleTerminal(e: FlowLifecycleEvent)
      requires e.status in {Completed, Failed}
      modifies db
      ensures db.Tables() == ApplyEvent(old(db.Tables()), username, e)
    {
      db.TerminateFlow(e.flowId, e.status, e.timestamp);
    }

    /** An unknown status is ignored. */
    method HandleEvent(e: FlowLifecycleEvent)
      modifies db
      ensures db.Tables() == ApplyEvent(old(db.Tables()), username, e)
    {
      match e.status {
        case Active => HandleActive(e);
        case Completed => HandleTerminal(e);
        case Failed => HandleTerminal(e);
        case OtherStatus(_) =>
      }
    }

    method ProcessLifecycleEvent(event: Option<FlowLifecycleEvent>)
      requires Valid()
      modifies this, db
      ensures Valid() && (event.Some? ==> Fresh(db.active, snapshot))
      ensures db.Tables() == if event.Some? then Next(old(db.Tables()), username, Lifecycle(event.value)) else old(db.Tables())
      ensures EventTaken(old(db.Tables()), db.Tables(), event)
    {
      if event.None? {
        return;
      }
      var e := event.value;
      HandleEvent(e);
      ConsistentNext(old(db.Tables()), username, Lifecycle(e));
      EventIsTaken(old(db.Tables()), username, e);
      RebuildWorkspaceSnapshot();
    }

    method ProcessRequest(request: Option<NotificationRequest>) returns (first: FlowId)
      requires Valid()
      modifies db
      ensures Valid()
      ensures db.Tables() ==
              if request.Some? then Next(old(db.Tables()), username, Request(request.value, first)) else old(db.Tables())
      ensures RequestTaken(old(db.Tables()), db.Tables(), request)
      ensures request.Some? && request.value.flowId == "" && old(db.active) != map[] ==>
                && first in old(db.active)
                && forall g | g in old(db.active) :: old(db.active)[first].registeredAt >= old(db.active)[g].registeredAt
    {
      if request.None? {
        return "";
      }
      var r, wc := request.value, WriteContext(username, "", "", "");
      wc, first := LookupContext(r.flowId);
      ConsistentNext(db.Tables(), username, Request(r, first));
      RequestIsTaken(db.Tables(), username, r, first);
      db.InsertRequest(wc, r);
    }

    /** The context of a request's flow, and the flow it was found in. */
    method LookupContext(flowId: FlowId) returns (wc: WriteContext, first: FlowId)
      ensures wc == RequestContext(db.Tables(), username, flowId, first)
      ensures flowId == "" && db.active != map[] ==>
                first in db.active && forall g | g in db.active :: db.active[first].registeredAt >= db.active[g].registeredAt
    {
      first := "";
      wc := WriteContext(username, "", "", "");
      var flow := db.LookupActiveFlow(flowId);
      if flow.Some? {
        first := flow.value.flowId;
        wc := WriteContext(username, flow.value.row.flowLabel, flow.value.row.displayName, flow.value.row.absPath);
      }
    }

    /** An error record, which has a code, is no answer. */
    method ProcessResponse(code: string, response: Option<NotificationResponse>)
      requires Valid()
      modifies db
      ensures Valid()
      ensures db.Tables() ==
              if code == "" && response.Some? then Next(old(db.Tables()), username, Response(response.value)) else old(db.Tables())
      ensures AnswerTaken(old(db.Tables()), db.Tables(), code, response)
    {
      if code != "" || response.None? {
        return;
      }
      AnswerIsTaken(db.Tables(), username, response.value);
      ConsistentNext(db.Tables(), username, Response(response.value));
      var _ := db.InsertResponse(response.value, true);
    }

    /** One message off the stream: its effect on the tables is that of the step it stands for. */
    method ProcessMessage(m: Message) returns (first: FlowId)
      requires Valid()
      modifies this, db
      ensures Valid()
      ensures db.Tables() == Next(old(db.Tables()), username, StepOf(m, first))
      ensures Taken(old(db.Tables()), db.Tables(), m)
      ensures OnTopic(m.subject, "lifecycle") && m.event.Some? ==> Fresh(db.active, snapshot)
    {
      Topics(m.subject);
      first := "";
      var suffix := SubjectSuffix(m.subject);
      if suffix == "lifecycle" {
        ProcessLifecycleEvent(m.event);
      } else if suffix == "request" {
        first := ProcessRequest(m.request);
      } else if suffix == "response" {
        ProcessResponse(m.code, m.response);
      }
    }

    method HandleInsertRequest(wc: WriteContext, r: NotificationRequest)
      requires Valid()
      modifies db
      ensures Valid()
      ensures db.Tables() == Next(old(db.Tables()), username, WriteRequest(wc, r))
    {
      ConsistentNext(db.Tables(), username, WriteRequest(wc, r));
      db.InsertRequest(wc, r);
    }

    method HandleInsertResponse(r: NotificationResponse)
      requires Valid()
      modifies db
      ensures Valid()
      ensures db.Tables() == Next(old(db.Tables()), username, Response(r))
    {
      ConsistentNext(db.Tables(), username, Response(r));
      var _ := db.InsertResponse(r, true);
    }

    /** The snapshot is not rebuilt here; it lags in the activity time alone. */
    method HandleUpdateActivity(flowId: FlowId, ts: Instant)
      requires Valid()
      modifies db
      ensures Valid()
      ensures db.Tables() == Next(old(db.Tables()), username, UpdateActivity(flowId, ts))
    {
      AgreesTouched(db.Tables(), snapshot, flowId, Seconds(ts));
      ConsistentNext(db.Tables(), username, UpdateActivity(flowId, ts));
      db.UpdateFlowActivity(flowId, ts);
    }

    /** Terminates the listed flows one transaction at a time, announcing each as failed. */
    method TerminateAll(stale: seq<ListedFlow>, now: Instant) returns (published: seq<FlowLifecycleEvent>, ghost dead: set<FlowId>)
      requires forall i | 0 <= i < |stale| :: stale[i].flowId in db.active
      requires forall i, j | 0 <= i < j < |stale| :: stale[i].flowId != stale[j].flowId
      modifies db
      ensures forall f :: f in dead <==> exists k :: 0 <= k < |stale| && stale[k].flowId == f
      ensures dead <= old(db.active.Keys)
      ensures db.Tables() == Reaped(old(db.Tables()), dead, Seconds(now))
      ensures |published| == |stale| && forall k | 0 <= k < |stale| :: published[k] == FailedEvent(stale[k], now)
    {
      published, dead := [], {};
      ghost var before := db.Tables();
      ReapedNone(before, Seconds(now));
      for i := 0 to |stale|
        invariant dead <= before.active.Keys
        invariant forall f :: f in dead <==> exists k :: 0 <= k < i && stale[k].flowId == f
        invariant db.Tables() == Reaped(before, dead, Seconds(now))
        invariant |published| == i && forall k | 0 <= k < i :: published[k] == FailedEvent(stale[k], now)
      {
        var f := stale[i];
        ReapedOneMore(before, dead, f.flowId, Seconds(now));
        db.TerminateFlow(f.flowId, Failed, now);
        published := published + [FailedEvent(f, now)];
        dead := dead + {f.flowId};
      }
    }

    /**
     One reaping pass: the clock is read for the query and again before terminating.
     Returns the failed events published, one per reaped flow.
     */
    method ReapOnce(queried: Instant, now: Instant, grace: int) returns (published: seq<FlowLifecycleEvent>)
      requires Valid() && InRange(queried, grace)
      modifies this, db
      ensures Valid()
      ensures var stale := old(StaleRows(db.active, Cutoff(queried, grace)));
              && db.Tables() == Reaped(old(db.Tables()), stale.Keys, Seconds(now))
              && Announces(published, stale, now)
      ensures published != [] ==> Fresh(db.active, snapshot)
    {
      ghost var before := db.Tables();
      ghost var rows := StaleRows(db.active, Cutoff(queried, grace));
      var stale: nat;
      published, stale := ReapListed(queried, now, grace);
      ReapedConsistent(before, rows.Keys, Seconds(now));
      if stale > 0 {
        RebuildWorkspaceSnapshot();
      } else {
        ReapedNone(before, Seconds(now));
      }
    }

    /** The pass without the snapshot: lists the stale flows, then terminates them. */
    method ReapListed(queried: Instant, now: Instant, grace: int) returns (published: seq<FlowLifecycleEvent>, stale: nat)
      requires InRange(queried, grace)
      modifies db
      ensures var rows := old(StaleRows(db.active, Cutoff(queried, grace)));
              && db.Tables() == Reaped(old(db.Tables()), rows.Keys, Seconds(now))
              && Announces(published, rows, now)
              && stale == |published| && (stale == 0 ==> rows.Keys == {})
    {
      ghost var rows := StaleRows(db.active, Cutoff(queried, grace));
      var listed := db.ReapStaleFlows(queried, grace);
      ListedActive(db.active, rows, listed);
      ghost var dead;
      published, dead := TerminateAll(listed, now);
      ListedIds(rows, listed, dead);
      PublishedExactly(rows, listed, published, now);
      stale := |listed|;
    }
  }

  lemma SameTouched(active: map<FlowId, FlowRow>, cached: map<FlowId, FlowRow>, f: FlowId, at: Stamp)
    requires SameButActivity(active, cached) && f in active
    ensures SameButActivity(active[f := active[f].(lastActivity := at)], cached)
  {
  }

  lemma AgreesTouched(s: Store, snapshot: seq<WorkspaceInfo>, f: FlowId, at: Stamp)
    requires Agrees(s.active, snapshot)
    ensures Agrees(Touched(s, f, at).active, snapshot)
  {
    if f in s.active {
      var cached :| SameButActivity(s.active, cached) && Fresh(cached, snapshot);
      SameTouched(s.active, cached, f, at);
    }
  }

  lemma ListedActive(active: map<FlowId, FlowRow>, rows: map<FlowId, FlowRow>, listing: seq<ListedFlow>)
    requires Lists(rows, listing) && rows.Keys <= active.Keys
    ensures forall i | 0 <= i < |listing| :: listing[i].flowId in active
  {
    assert forall i | 0 <= i < |listing| :: listing[i] in listing;
  }

  lemma ListedIds(rows: map<FlowId, FlowRow>, listing: seq<ListedFlow>, ids: set<FlowId>)
    requires Lists(rows, listing)
    requires forall f :: f in ids <==> exists k :: 0 <= k < |listing| && listing[k].flowId == f
    ensures ids == rows.Keys
  {
    forall f ensures f in ids <==> f in rows {
      if f in rows {
        var k :| 0 <= k < |listing| && listing[k] == ListedFlow(f, rows[f]);
      }
      if f in ids {
        var k :| 0 <= k < |listing| && listing[k].flowId == f;
        assert listing[k] in listing;
      }
    }
  }

  lemma PublishedExactly(rows: map<FlowId, FlowRow>, listing: seq<ListedFlow>, published: seq<FlowLifecycleEvent>, now: Instant)
    requires Lists(rows, listing) && |published| == |listing|
    requires forall k | 0 <= k < |listing| :: published[k] == FailedEvent(listing[k], now)
    ensures Announces(published, rows, now)
  {
    forall e ensures e in published <==>
              e.flowId in rows && e == FailedEvent(ListedFlow(e.flowId, rows[e.flowId]), now)
    {
      if e in published {
        var k :| 0 <= k < |published| && published[k] == e;
        assert listing[k] in listing;
      }
      if e.flowId in rows && e == FailedEvent(ListedFlow(e.flowId, rows[e.flowId]), now) {
        var k :| 0 <= k < |listing| && listing[k] == ListedFlow(e.flowId, rows[e.flowId]);
        assert published[k] == e;
      }
    }
  }

  lemma ReapedConsistent(s: Store, dead: set<FlowId>, at: Stamp)
    requires Consistent(s) && dead <= s.active.Keys
    ensures Consistent(Reaped(s, dead, at))
  {
  }
}

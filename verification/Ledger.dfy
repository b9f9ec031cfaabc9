/** The SQLite ledger: four tables and the transactions on them. */
module Ledger {
  import opened Rfc3339
  import opened TimeUnits
  import opened Payload

  /*
   A table is a map from its primary key to the rest of the row. A nullable text
   column holds the empty string for NULL, which is how the code writes and reads it.
   `Store` is the value of all four tables; every method of `DB` is one transaction
   and its contract gives the new tables as a function of the old ones.
   */

  datatype WriteContext = WriteContext(username: string, flowLabel: string, workspaceName: string, workspacePath: string)

  datatype FlowRow = FlowRow(
    username: string,
    daemonId: string,
    workspaceId: WorkspaceId,
    displayName: string,
    absPath: string,
    flowLabel: string,
    metadata: Option<Metadata>,
    registeredAt: Stamp,
    lastActivity: Stamp
  )

  /** What a query on active_flows returns for one flow. */
  datatype ListedFlow = ListedFlow(flowId: FlowId, row: FlowRow)

  datatype AuditKey = AuditKey(flowId: FlowId, at: Stamp)

  datatype AuditRow = AuditRow(
    username: string,
    daemonId: string,
    workspaceId: WorkspaceId,
    status: FlowStatus,
    flowLabel: string,
    metadata: Option<Metadata>
  )

  datatype RequestRow = RequestRow(context: WriteContext, request: NotificationRequest, at: Stamp)

  datatype ResponseRow = ResponseRow(accepted: Option<bool>, action: string, text: string, at: Stamp)

  datatype Store = Store(
    active: map<FlowId, FlowRow>,
    audit: map<AuditKey, AuditRow>,
    requests: map<RequestId, RequestRow>,
    responses: map<RequestId, ResponseRow>
  )

  const EMPTY := Store(map[], map[], map[], map[])

  /** INSERT OR IGNORE */
  function InsertOrIgnore<K, V>(table: map<K, V>, k: K, v: V): map<K, V> {
    if k in table then table else table[k := v]
  }

  /******* What each transaction does to the tables *******/

  function WithAudit(s: Store, flowId: FlowId, at: Stamp, row: AuditRow): Store {
    s.(audit := InsertOrIgnore(s.audit, AuditKey(flowId, at), row))
  }

  function AuditOf(row: FlowRow, status: FlowStatus): AuditRow {
    AuditRow(row.username, row.daemonId, row.workspaceId, status, row.flowLabel, row.metadata)
  }

  function Registered(s: Store, flowId: FlowId, row: FlowRow): Store {
    WithAudit(s.(active := s.active[flowId := row]), flowId, row.registeredAt, AuditOf(row, Active))
  }

  function RefreshedRow(row: FlowRow, flowLabel: string, metadata: Option<Metadata>, at: Stamp): FlowRow {
    row.(flowLabel := flowLabel, metadata := metadata, lastActivity := at)
  }

  function Refreshed(s: Store, flowId: FlowId, flowLabel: string, metadata: Option<Metadata>, at: Stamp): Store {
    if flowId !in s.active then s else
      var row := RefreshedRow(s.active[flowId], flowLabel, metadata, at);
      WithAudit(s.(active := s.active[flowId := row]), flowId, at, AuditOf(row, Active))
  }

  /** The last row read before the delete, or blanks when the flow is not active. */
  function TerminalAudit(s: Store, flowId: FlowId, status: FlowStatus): AuditRow {
    if flowId in s.active then AuditOf(s.active[flowId], status) else AuditRow("", "", "", status, "", None)
  }

  function Terminated(s: Store, flowId: FlowId, status: FlowStatus, at: Stamp): Store {
    WithAudit(s.(active := s.active - {flowId}), flowId, at, TerminalAudit(s, flowId, status))
  }

  function Touched(s: Store, flowId: FlowId, at: Stamp): Store {
    if flowId !in s.active then s
    else s.(active := s.active[flowId := s.active[flowId].(lastActivity := at)])
  }

  /** The CHECK on the priority column; INSERT OR IGNORE skips a row that breaks it. */
  predicate Storable(r: NotificationRequest) {
    r.priority in {"low", "normal", "high"}
  }

  function WithRequest(s: Store, wc: WriteContext, r: NotificationRequest): Store {
    if !Storable(r) then s
    else s.(requests := InsertOrIgnore(s.requests, r.id, RequestRow(wc, r, Seconds(r.timestamp))))
  }

  function ResponseRowOf(r: NotificationResponse): ResponseRow {
    ResponseRow(r.accepted, r.action, r.text, Seconds(r.timestamp))
  }

  /** A response whose request is not stored breaks the foreign key, which OR IGNORE does not forgive. */
  function WithResponse(s: Store, r: NotificationResponse): Store {
    if r.requestId in s.requests
    then s.(responses := InsertOrIgnore(s.responses, r.requestId, ResponseRowOf(r)))
    else s
  }

  /** On a connection that does not enforce the foreign key the response is stored all the same. */
  function WithResponseOn(s: Store, r: NotificationResponse, enforced: bool): Store {
    if enforced then WithResponse(s, r)
    else s.(responses := InsertOrIgnore(s.responses, r.requestId, ResponseRowOf(r)))
  }

  /******* Queries *******/

  datatype ActiveFlowsQuery = ActiveFlowsQuery(flowId: FlowId, daemonId: string, workspaceId: WorkspaceId)

  /** An empty filter matches every row. */
  predicate Matches(q: ActiveFlowsQuery, flowId: FlowId, row: FlowRow) {
    && (q.flowId == "" || flowId == q.flowId)
    && (q.daemonId == "" || row.daemonId == q.daemonId)
    && (q.workspaceId == "" || row.workspaceId == q.workspaceId)
  }

  predicate Stale(row: FlowRow, cutoff: Stamp) {
    row.lastActivity < cutoff
  }

  /** `flows` holds exactly the rows of `rows`, each once. */
  ghost predicate Lists(rows: map<FlowId, FlowRow>, flows: seq<ListedFlow>) {
    && (forall i, j | 0 <= i < j < |flows| :: flows[i].flowId != flows[j].flowId)
    && (forall e | e in flows :: e.flowId in rows && e.row == rows[e.flowId])
    && (forall f | f in rows :: ListedFlow(f, rows[f]) in flows)
  }

  /** ORDER BY registered_at DESC; rows registered in the same second come in any order. */
  ghost predicate NewestFirst(flows: seq<ListedFlow>) {
    forall i, j | 0 <= i < j < |flows| :: flows[i].row.registeredAt >= flows[j].row.registeredAt
  }

  ghost function Matching(active: map<FlowId, FlowRow>, q: ActiveFlowsQuery): map<FlowId, FlowRow> {
    map f | f in active && Matches(q, f, active[f]) :: active[f]
  }

  ghost function StaleRows(active: map<FlowId, FlowRow>, cutoff: Stamp): map<FlowId, FlowRow> {
    map f | f in active && Stale(active[f], cutoff) :: active[f]
  }

  lemma InsertedMembers<T>(xs: seq<T>, i: nat, x: T)
    requires i <= |xs|
    ensures forall e :: e in xs[..i] + [x] + xs[i..] <==> e in xs || e == x
  {
    assert xs == xs[..i] + xs[i..];
  }

  lemma InsertedIds(flows: seq<ListedFlow>, i: nat, f: ListedFlow)
    requires i <= |flows|
    requires forall j, k | 0 <= j < k < |flows| :: flows[j].flowId != flows[k].flowId
    requires forall k | 0 <= k < |flows| :: flows[k].flowId != f.flowId
    ensures var out := flows[..i] + [f] + flows[i..];
            forall j, k | 0 <= j < k < |out| :: out[j].flowId != out[k].flowId
  {
  }

  lemma ListsInserted(rows: map<FlowId, FlowRow>, flows: seq<ListedFlow>, i: nat, f: ListedFlow)
    requires Lists(rows, flows) && i <= |flows| && f.flowId !in rows
    ensures Lists(rows[f.flowId := f.row], flows[..i] + [f] + flows[i..])
  {
    InsertedMembers(flows, i, f);
    forall k | 0 <= k < |flows| ensures flows[k].flowId != f.flowId {
      assert flows[k] in flows;
    }
    InsertedIds(flows, i, f);
  }

  lemma ListsAppended(rows: map<FlowId, FlowRow>, flows: seq<ListedFlow>, f: ListedFlow)
    requires Lists(rows, flows) && f.flowId !in rows
    ensures Lists(rows[f.flowId := f.row], flows + [f])
  {
    ListsInserted(rows, flows, |flows|, f);
    assert flows[..|flows|] + [f] + flows[|flows|..] == flows + [f];
  }

  method InsertNewestFirst(flows: seq<ListedFlow>, f: ListedFlow) returns (out: seq<ListedFlow>, ghost i: nat)
    requires NewestFirst(flows)
    ensures i <= |flows| && out == flows[..i] + [f] + flows[i..]
    ensures NewestFirst(out)
  {
    var n := 0;
    while n < |flows|
      invariant 0 <= n <= |flows|
      invariant forall k | 0 <= k < n :: flows[k].row.registeredAt >= f.row.registeredAt
    {
      var older := TextLess(flows[n].row.registeredAt, f.row.registeredAt);
      if older {
        break;
      }
      n := n + 1;
    }
    i, out := n, flows[..n] + [f] + flows[n..];
  }

  class DB {
    var active: map<FlowId, FlowRow>
    var audit: map<AuditKey, AuditRow>
    var requests: map<RequestId, RequestRow>
    var responses: map<RequestId, ResponseRow>

    function Tables(): Store
      reads this
    {
      Store(active, audit, requests, responses)
    }

    constructor ()
      ensures Tables() == EMPTY
    {
      active, audit, requests, responses := map[], map[], map[], map[];
    }

    method InsertAudit(flowId: FlowId, at: Stamp, row: AuditRow)
      modifies this`audit
      ensures Tables() == WithAudit(old(Tables()), flowId, at, row)
    {
      var key := AuditKey(flowId, at);
      if key !in audit {
        audit := audit[key := row];
      }
    }

    /** Fails, changing nothing, when the flow is already active. */
    method RegisterFlow(flowId: FlowId, row: FlowRow) returns (ok: bool)
      modifies this`active, this`audit
      ensures ok <==> flowId !in old(active)
      ensures Tables() == if ok then Registered(old(Tables()), flowId, row) else old(Tables())
    {
      if flowId in active {
        return false;
      }
      active := active[flowId := row];
      InsertAudit(flowId, row.registeredAt, AuditOf(row, Active));
      ok := true;
    }

    method UpdateFlowActivity(flowId: FlowId, ts: Instant)
      modifies this`active
      ensures Tables() == Touched(old(Tables()), flowId, Seconds(ts))
    {
      if flowId in active {
        active := active[flowId := active[flowId].(lastActivity := Seconds(ts))];
      }
    }

    /** Rolls back when the flow is not active. */
    method RefreshFlow(flowId: FlowId, flowLabel: string, metadata: Option<Metadata>, ts: Instant) returns (ok: bool)
      modifies this`active, this`audit
      ensures ok <==> flowId in old(active)
      ensures Tables() == Refreshed(old(Tables()), flowId, flowLabel, metadata, Seconds(ts))
    {
      if flowId !in active {
        return false;
      }
      var row := RefreshedRow(active[flowId], flowLabel, metadata, Seconds(ts));
      active := active[flowId := row];
      InsertAudit(flowId, Seconds(ts), AuditOf(row, Active));
      ok := true;
    }

    method TerminateFlow(flowId: FlowId, status: FlowStatus, ts: Instant)
      modifies this`active, this`audit
      ensures Tables() == Terminated(old(Tables()), flowId, status, Seconds(ts))
    {
      var row := TerminalAudit(Tables(), flowId, status);
      active := active - {flowId};
      InsertAudit(flowId, Seconds(ts), row);
    }

    method InsertRequest(wc: WriteContext, r: NotificationRequest)
      modifies this`requests
      ensures Tables() == WithRequest(old(Tables()), wc, r)
    {
      if Storable(r) && r.id !in requests {
        requests := requests[r.id := RequestRow(wc, r, Seconds(r.timestamp))];
      }
    }

    /**
     An answered request is left alone; a request that is not stored is an error, on a
     connection that enforces the foreign key.
     */
    method InsertResponse(r: NotificationResponse, enforced: bool) returns (ok: bool)
      modifies this`responses
      ensures ok <==> r.requestId in old(responses) || r.requestId in requests || !enforced
      ensures Tables() == WithResponseOn(old(Tables()), r, enforced)
    {
      if r.requestId in responses {
        return true;
      }
      if enforced && r.requestId !in requests {
        return false;
      }
      responses := responses[r.requestId := ResponseRowOf(r)];
      ok := true;
    }

    method ListActiveFlows(q: ActiveFlowsQuery) returns (flows: seq<ListedFlow>)
      ensures Lists(Matching(active, q), flows) && NewestFirst(flows)
      ensures forall e :: e in flows <==>
                && e.flowId in active && e.row == active[e.flowId]
                && (q.flowId in {"", e.flowId}) && (q.daemonId in {"", e.row.daemonId}) && (q.workspaceId in {"", e.row.workspaceId})
    {
      flows := [];
      var rest := active.Keys;
      ghost var found: map<FlowId, FlowRow> := map[];
      while rest != {}
        invariant rest <= active.Keys
        invariant found == map f | f in active && f !in rest && Matches(q, f, active[f]) :: active[f]
        invariant Lists(found, flows) && NewestFirst(flows)
        decreases |rest|
      {
        var f :| f in rest;
        rest := rest - {f};
        if Matches(q, f, active[f]) {
          ghost var was, i := flows, 0;
          flows, i := InsertNewestFirst(flows, ListedFlow(f, active[f]));
          ListsInserted(found, was, i, ListedFlow(f, active[f]));
          found := found[f := active[f]];
        }
      }
      assert found == Matching(active, q);
      forall e ensures e in flows <==> e.flowId in found && e.row == found[e.flowId] {
        assert e.flowId in found && e.row == found[e.flowId] ==> e == ListedFlow(e.flowId, found[e.flowId]);
      }
    }

    /** The rows last active in a second before that of `now - grace`, as of this query. */
    method ReapStaleFlows(now: Instant, grace: int) returns (flows: seq<ListedFlow>)
      requires 0 <= now - grace < HORIZON_DAYS * DAY_SECONDS * SECOND
      ensures Lists(StaleRows(active, Seconds(now - grace)), flows)
    {
      var cutoff := Seconds(now - grace);
      flows := [];
      var rest := active.Keys;
      ghost var found: map<FlowId, FlowRow> := map[];
      while rest != {}
        invariant rest <= active.Keys
        invariant found == map f | f in active && f !in rest && Stale(active[f], cutoff) :: active[f]
        invariant Lists(found, flows)
        decreases |rest|
      {
        var f :| f in rest;
        rest := rest - {f};
        var stale := TextLess(active[f].lastActivity, cutoff);
        if stale {
          ListsAppended(found, flows, ListedFlow(f, active[f]));
          flows := flows + [ListedFlow(f, active[f])];
          found := found[f := active[f]];
        }
      }
      assert found == StaleRows(active, cutoff);
    }

    /** An empty id is no filter, so it finds the first flow of the whole listing. */
    method LookupActiveFlow(flowId: FlowId) returns (flow: Option<ListedFlow>)
      ensures flowId != "" ==> flow == if flowId in active then Some(ListedFlow(flowId, active[flowId])) else None
      ensures flowId == "" ==> (flow.None? <==> active == map[])
      ensures flowId == "" && flow.Some? ==>
                && flow.value.flowId in active && flow.value.row == active[flow.value.flowId]
                && forall g | g in active :: flow.value.row.registeredAt >= active[g].registeredAt
    {
      var q := ActiveFlowsQuery(flowId, "", "");
      var flows := ListActiveFlows(q);
      if |flows| == 0 {
        assert forall f | f in active :: f in Matching(active, q) <==> Matches(q, f, active[f]);
        return None;
      }
      assert flows[0] in flows;
      forall g | flowId == "" && g in active
        ensures flows[0].row.registeredAt >= active[g].registeredAt
      {
        assert g in Matching(active, q);
      }
      return Some(flows[0]);
    }

    /** Requests of one flow stored with a second after that of `now - window`. */
    method CountRecentRequests(flowId: FlowId, now: Instant, window: int) returns (count: nat)
      requires 0 <= now - window < HORIZON_DAYS * DAY_SECONDS * SECOND
      ensures count == |set id | id in requests && requests[id].request.flowId == flowId
                                 && Seconds(now - window) < requests[id].at|
    {
      var cutoff := Seconds(now - window);
      var rest := requests.Keys;
      ghost var counted: set<RequestId> := {};
      count := 0;
      while rest != {}
        invariant rest <= requests.Keys
        invariant counted == set id | id in requests && id !in rest && requests[id].request.flowId == flowId
                                      && cutoff < requests[id].at
        invariant count == |counted|
        decreases |rest|
      {
        var id :| id in rest;
        rest := rest - {id};
        var recent := TextLess(cutoff, requests[id].at);
        if requests[id].request.flowId == flowId && recent {
          count, counted := count + 1, counted + {id};
        }
      }
      assert counted == set id | id in requests && requests[id].request.flowId == flowId && cutoff < requests[id].at;
    }
  }
}

/**
 The registry as a state machine over the ledger: what one consumed message, one
 write request, one activity update or one reaped flow does to the tables, and what
 holds after any interleaving of them.
 */
module Registry {
  import opened Rfc3339
  import opened Payload
  import opened Ledger

  /**
   A stream message. The fields after the subject are what decoding the body gives
   as each kind of record (None when it does not decode); `code` is the text probed
   to tell an error response from a human one.
   */
  datatype Message = Message(
    subject: string,
    event: Option<FlowLifecycleEvent>,
    request: Option<NotificationRequest>,
    code: string,
    response: Option<NotificationResponse>
  )

  /** The text after the last dot. */
  function SubjectSuffix(subject: string): string {
    if subject == "" then ""
    else if '.' in subject[1..] then SubjectSuffix(subject[1..])
    else if subject[0] == '.' then subject[1..]
    else subject
  }

  lemma {:induction false} SuffixAfterLastDot(prefix: string, suffix: string)
    requires '.' !in suffix
    ensures SubjectSuffix(prefix + "." + suffix) == suffix
    ensures SubjectSuffix(suffix) == suffix
  {
    var s := prefix + "." + suffix;
    if prefix == "" {
      assert s[1..] == suffix;
    } else {
      assert s[1..] == prefix[1..] + "." + suffix;
      assert s[1..][|prefix| - 1] == '.';
      SuffixAfterLastDot(prefix[1..], suffix);
    }
    if suffix != "" {
      assert forall c | c in suffix[1..] :: c in suffix;
      assert suffix[0] in suffix;
    }
  }

  function NewRow(user: string, e: FlowLifecycleEvent): FlowRow {
    FlowRow(user, e.daemonId, e.workspaceId,
            MetadataValue(e.metadata, META_DISPLAY_NAME), MetadataValue(e.metadata, META_ABS_PATH),
            e.flowLabel, e.metadata, Seconds(e.timestamp), Seconds(e.timestamp))
  }

  function ApplyEvent(s: Store, user: string, e: FlowLifecycleEvent): Store {
    match e.status
    case Active =>
      if e.flowId in s.active
      then Refreshed(s, e.flowId, e.flowLabel, e.metadata, Seconds(e.timestamp))
      else Registered(s, e.flowId, NewRow(user, e))
    case Completed => Terminated(s, e.flowId, Completed, Seconds(e.timestamp))
    case Failed => Terminated(s, e.flowId, Failed, Seconds(e.timestamp))
    case OtherStatus(_) => s
  }

  /**
   The flow a recorded request takes its context from: the one it names, or, when it
   names none, the flow the unfiltered listing happened to put first (`first`).
   */
  function RequestContext(s: Store, user: string, flowId: FlowId, first: FlowId): WriteContext {
    match Lookup(s.active, if flowId == "" then first else flowId)
    case Some(row) => WriteContext(user, row.flowLabel, row.displayName, row.absPath)
    case None => WriteContext(user, "", "", "")
  }

  /**
   One atomic step on the tables. The first three are what a consumed message amounts
   to; a human response comes from the stream or from the write endpoint alike.
   */
  datatype Step =
    | Lifecycle(event: FlowLifecycleEvent)
    | Request(request: NotificationRequest, first: FlowId)
    | Response(response: NotificationResponse)
    | Ignored
    | WriteRequest(context: WriteContext, request: NotificationRequest)
    | UpdateActivity(flowId: FlowId, at: Instant)
    | Reap(flowId: FlowId, at: Instant)

  /** Routing by subject suffix; an error response and an undecodable body are dropped. */
  function StepOf(m: Message, first: FlowId): Step {
    var suffix := SubjectSuffix(m.subject);
    if suffix == "lifecycle" && m.event.Some? then Lifecycle(m.event.value)
    else if suffix == "request" && m.request.Some? then Request(m.request.value, first)
    else if suffix == "response" && m.code == "" && m.response.Some? then Response(m.response.value)
    else Ignored
  }

  function Next(s: Store, user: string, step: Step): Store {
    match step
    case Lifecycle(e) => ApplyEvent(s, user, e)
    case Request(r, first) => WithRequest(s, RequestContext(s, user, r.flowId, first), r)
    case Response(r) => WithResponse(s, r)
    case Ignored => s
    case WriteRequest(wc, r) => WithRequest(s, wc, r)
    case UpdateActivity(f, at) => Touched(s, f, Seconds(at))
    case Reap(f, at) => Terminated(s, f, Failed, Seconds(at))
  }

  function Run(s: Store, user: string, steps: seq<Step>): Store {
    if steps == [] then s else Next(Run(s, user, Front(steps)), user, Last(steps))
  }

  function Front<T>(xs: seq<T>): seq<T>
    requires xs != []
  {
    xs[..|xs| - 1]
  }

  function Last<T>(xs: seq<T>): T
    requires xs != []
  {
    xs[|xs| - 1]
  }

  lemma {:induction false} RunAppend(s: Store, user: string, a: seq<Step>, b: seq<Step>)
    ensures Run(s, user, a + b) == Run(Run(s, user, a), user, b)
  {
    if b == [] {
      assert a + b == a;
    } else {
      assert Front(a + b) == a + Front(b);
      RunAppend(s, user, a, Front(b));
    }
  }

  /******* What a step says about a flow, a request, a response *******/

  predicate Activates(step: Step, f: FlowId) {
    step.Lifecycle? && step.event.flowId == f && step.event.status == Active
  }

  predicate Ends(step: Step, f: FlowId) {
    || (step.Reap? && step.flowId == f)
    || (step.Lifecycle? && step.event.flowId == f && step.event.status in {Completed, Failed})
  }

  predicate Names(step: Step, f: FlowId) {
    Activates(step, f) || Ends(step, f) || (step.UpdateActivity? && step.flowId == f)
  }

  predicate Asks(step: Step, q: RequestId) {
    (step.Request? || step.WriteRequest?) && step.request.id == q && Storable(step.request)
  }

  predicate Answers(step: Step, q: RequestId) {
    step.Response? && step.response.requestId == q
  }

  /******* Invariants of every run *******/

  ghost predicate Consistent(s: Store) {
    && s.responses.Keys <= s.requests.Keys
    && forall f | f in s.active :: AuditKey(f, s.active[f].registeredAt) in s.audit
  }

  lemma ConsistentNext(s: Store, user: string, step: Step)
    requires Consistent(s)
    ensures Consistent(Next(s, user, step))
  {
  }

  lemma {:induction false} ConsistentRun(s: Store, user: string, steps: seq<Step>)
    requires Consistent(s)
    ensures Consistent(Run(s, user, steps))
  {
    if steps == [] {
    } else {
      ConsistentRun(s, user, Front(steps));
      ConsistentNext(Run(s, user, Front(steps)), user, Last(steps));
    }
  }

  /** Audit rows, requests and responses are only ever added. */
  ghost predicate Grows<K, V>(t: map<K, V>, u: map<K, V>) {
    forall k | k in t :: k in u && u[k] == t[k]
  }

  ghost predicate StoreGrows(s: Store, t: Store) {
    Grows(s.audit, t.audit) && Grows(s.requests, t.requests) && Grows(s.responses, t.responses)
  }

  lemma NextGrows(s: Store, user: string, step: Step)
    ensures StoreGrows(s, Next(s, user, step))
  {
  }

  lemma {:induction false} RowsAreKept(s: Store, user: string, steps: seq<Step>)
    ensures StoreGrows(s, Run(s, user, steps))
  {
    if steps == [] {
    } else {
      RowsAreKept(s, user, Front(steps));
      NextGrows(Run(s, user, Front(steps)), user, Last(steps));
    }
  }

  /******* Last writer wins *******/

  lemma AppliedMembership(s: Store, user: string, e: FlowLifecycleEvent, f: FlowId)
    ensures f in ApplyEvent(s, user, e).active <==>
            if e.flowId != f || e.status.OtherStatus? then f in s.active else e.status == Active
  {
  }

  lemma Membership(s: Store, user: string, step: Step, f: FlowId)
    ensures f in Next(s, user, step).active <==> Activates(step, f) || (f in s.active && !Ends(step, f))
  {
    if step.Lifecycle? {
      AppliedMembership(s, user, step.event, f);
    }
  }

  /** Step `j` activates `f` and no later step ends it. */
  ghost predicate ActiveSince(steps: seq<Step>, f: FlowId, j: int) {
    0 <= j < |steps| && Activates(steps[j], f) && forall k | j < k < |steps| :: !Ends(steps[k], f)
  }

  ghost predicate NeverEnds(steps: seq<Step>, f: FlowId) {
    forall k | 0 <= k < |steps| :: !Ends(steps[k], f)
  }

  lemma {:induction false} LastWriterWins(s: Store, user: string, steps: seq<Step>, f: FlowId)
    ensures f in Run(s, user, steps).active <==>
            (exists j :: ActiveSince(steps, f, j)) || (f in s.active && NeverEnds(steps, f))
  {
    if steps == [] {
    } else {
      var front, last := Front(steps), |steps| - 1;
      LastWriterWins(s, user, front, f);
      Membership(Run(s, user, front), user, steps[last], f);
      assert forall k | 0 <= k < last :: front[k] == steps[k];
      if Activates(steps[last], f) {
        assert ActiveSince(steps, f, last);
      } else if !Ends(steps[last], f) {
        assert NeverEnds(steps, f) <==> NeverEnds(front, f);
        assert forall j :: ActiveSince(steps, f, j) <==> ActiveSince(front, f, j);
      } else {
        assert forall j :: !ActiveSince(steps, f, j);
      }
    }
  }

  /******* Flows do not interfere *******/

  function Naming(steps: seq<Step>, f: FlowId): seq<Step> {
    if steps == [] then []
    else Naming(Front(steps), f) + if Names(Last(steps), f) then [Last(steps)] else []
  }

  /** The two stores agree on the active row and on the audit rows of `f`. */
  ghost predicate SameFlow(s: Store, t: Store, f: FlowId) {
    && Lookup(s.active, f) == Lookup(t.active, f)
    && forall at: Stamp :: Lookup(s.audit, AuditKey(f, at)) == Lookup(t.audit, AuditKey(f, at))
  }

  lemma UnnamedStep(s: Store, user: string, step: Step, f: FlowId)
    requires !Names(step, f)
    ensures SameFlow(Next(s, user, step), s, f)
  {
  }

  lemma SameWithAudit(s: Store, t: Store, f: FlowId, at: Stamp, row: AuditRow)
    requires SameFlow(s, t, f)
    ensures SameFlow(WithAudit(s, f, at, row), WithAudit(t, f, at, row), f)
  {
    assert Lookup(s.audit, AuditKey(f, at)) == Lookup(t.audit, AuditKey(f, at));
  }

  lemma SameTerminated(s: Store, t: Store, f: FlowId, status: FlowStatus, at: Stamp)
    requires SameFlow(s, t, f)
    ensures SameFlow(Terminated(s, f, status, at), Terminated(t, f, status, at), f)
  {
    assert f in s.active <==> f in t.active;
    SameWithAudit(s.(active := s.active - {f}), t.(active := t.active - {f}), f, at, TerminalAudit(s, f, status));
  }

  lemma SameActivated(s: Store, t: Store, user: string, e: FlowLifecycleEvent)
    requires SameFlow(s, t, e.flowId) && e.status == Active
    ensures SameFlow(ApplyEvent(s, user, e), ApplyEvent(t, user, e), e.flowId)
  {
    var f, at := e.flowId, Seconds(e.timestamp);
    assert f in s.active <==> f in t.active;
    var row := if f in s.active then RefreshedRow(s.active[f], e.flowLabel, e.metadata, at) else NewRow(user, e);
    SameWithAudit(s.(active := s.active[f := row]), t.(active := t.active[f := row]), f, at, AuditOf(row, Active));
  }

  lemma NamedStep(s: Store, t: Store, user: string, step: Step, f: FlowId)
    requires SameFlow(s, t, f) && Names(step, f)
    ensures SameFlow(Next(s, user, step), Next(t, user, step), f)
  {
    match step
    case Lifecycle(e) =>
      if e.status == Active {
        SameActivated(s, t, user, e);
      } else {
        SameTerminated(s, t, f, e.status, Seconds(e.timestamp));
      }
    case UpdateActivity(_, _) =>
    case Reap(_, at) =>
      SameTerminated(s, t, f, Failed, Seconds(at));
  }

  lemma {:induction false} FlowsDoNotInterfere(s: Store, user: string, steps: seq<Step>, f: FlowId)
    ensures SameFlow(Run(s, user, steps), Run(s, user, Naming(steps, f)), f)
  {
    if steps == [] {
    } else {
      var front := Front(steps);
      FlowsDoNotInterfere(s, user, front, f);
      if Names(Last(steps), f) {
        NamedStep(Run(s, user, front), Run(s, user, Naming(front, f)), user, Last(steps), f);
        assert Front(Naming(steps, f)) == Naming(front, f);
      } else {
        UnnamedStep(Run(s, user, front), user, Last(steps), f);
        assert Naming(steps, f) == Naming(front, f);
      }
    }
  }
}

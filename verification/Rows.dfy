/**
 What the rows of the ledger say, field by field, in terms of the events and records that
 made them.
 */
module Rows {
  import opened Rfc3339
  import opened Payload
  import opened Ledger
  import opened Registry
  import opened Replay

  /******* Active rows *******/

  /** The value under a metadata key of the event, or nothing. */
  predicate IsMetadata(text: string, e: FlowLifecycleEvent, key: string) {
    text == if e.metadata.Some? && key in e.metadata.value then e.metadata.value[key] else ""
  }

  /**
   A row tells of the event that made its flow active, of the last active event, and of the
   second it was last touched.
   */
  predicate Tells(row: FlowRow, user: string, start: FlowLifecycleEvent, last: FlowLifecycleEvent, touched: Stamp) {
    && row.username == user
    && row.daemonId == start.daemonId
    && row.workspaceId == start.workspaceId
    && IsMetadata(row.displayName, start, "workspace_display_name")
    && IsMetadata(row.absPath, start, "workspace_abs_path")
    && row.registeredAt == Seconds(start.timestamp)
    && row.flowLabel == last.flowLabel
    && row.metadata == last.metadata
    && row.lastActivity == touched
  }

  /** Step `j` is the activation that opened the flow's current activity. */
  ghost predicate Opened(steps: seq<Step>, f: FlowId, j: int) {
    ActiveSince(steps, f, j) && forall i | 0 <= i < j :: !ActiveSince(steps, f, i)
  }

  ghost predicate LastActivation(steps: seq<Step>, f: FlowId, k: int) {
    0 <= k < |steps| && Activates(steps[k], f) && forall i | k < i < |steps| :: !Activates(steps[i], f)
  }

  predicate Touches(step: Step, f: FlowId) {
    Activates(step, f) || (step.UpdateActivity? && step.flowId == f)
  }

  function TouchTime(step: Step): Stamp
    requires step.Lifecycle? || step.UpdateActivity?
  {
    if step.Lifecycle? then Seconds(step.event.timestamp) else Seconds(step.at)
  }

  ghost predicate LastTouch(steps: seq<Step>, f: FlowId, l: int) {
    0 <= l < |steps| && Touches(steps[l], f) && forall i | l < i < |steps| :: !Touches(steps[i], f)
  }

  lemma ActivatedNew(s: Store, user: string, e: FlowLifecycleEvent)
    requires e.status == Active && e.flowId !in s.active
    ensures var t := Next(s, user, Lifecycle(e));
            e.flowId in t.active && Tells(t.active[e.flowId], user, e, e, Seconds(e.timestamp))
  {
  }

  lemma ActivatedAgain(s: Store, user: string, e: FlowLifecycleEvent, start: FlowLifecycleEvent, last: FlowLifecycleEvent, touched: Stamp)
    requires e.status == Active && e.flowId in s.active && Tells(s.active[e.flowId], user, start, last, touched)
    ensures var t := Next(s, user, Lifecycle(e));
            e.flowId in t.active && Tells(t.active[e.flowId], user, start, e, Seconds(e.timestamp))
  {
  }

  lemma TouchedRow(s: Store, user: string, f: FlowId, at: Instant, start: FlowLifecycleEvent, last: FlowLifecycleEvent, touched: Stamp)
    requires f in s.active && Tells(s.active[f], user, start, last, touched)
    ensures var t := Next(s, user, UpdateActivity(f, at));
            f in t.active && Tells(t.active[f], user, start, last, Seconds(at))
  {
  }

  /** The flow's steps `j`, `k` and `l` of `front` still serve after a step that does not touch it. */
  lemma SameSteps(steps: seq<Step>, f: FlowId, j: int, k: int, l: int)
    requires steps != [] && !Touches(Last(steps), f) && !Ends(Last(steps), f)
    requires Opened(Front(steps), f, j) && LastActivation(Front(steps), f, k) && LastTouch(Front(steps), f, l)
    ensures Opened(steps, f, j) && LastActivation(steps, f, k) && LastTouch(steps, f, l)
  {
    var front := Front(steps);
    assert forall i | 0 <= i < |front| :: front[i] == steps[i];
    assert forall i | 0 <= i < |front| :: ActiveSince(steps, f, i) ==> ActiveSince(front, f, i);
  }

  lemma StillOpened(steps: seq<Step>, f: FlowId, j: int)
    requires steps != [] && !Ends(Last(steps), f) && Opened(Front(steps), f, j)
    ensures Opened(steps, f, j)
  {
    var front := Front(steps);
    assert forall i | 0 <= i < |front| :: front[i] == steps[i];
    assert forall i | 0 <= i < |front| :: ActiveSince(steps, f, i) ==> ActiveSince(front, f, i);
  }

  lemma OpenedNow(s: Store, user: string, steps: seq<Step>, f: FlowId)
    requires steps != [] && Activates(Last(steps), f) && f !in Run(s, user, Front(steps)).active
    ensures Opened(steps, f, |steps| - 1)
  {
    var front := Front(steps);
    LastWriterWins(s, user, front, f);
    assert forall i | 0 <= i < |front| :: front[i] == steps[i];
    assert forall i | 0 <= i < |front| :: ActiveSince(steps, f, i) ==> ActiveSince(front, f, i);
  }

  /**
   After any run, the row of an active flow has the daemon, workspace, names and
   registration of the event that opened it, the label and metadata of its last active
   event, and the second of its last active event or activity update.
   */
  lemma {:induction false} RowTellsEvents(user: string, steps: seq<Step>, f: FlowId) returns (j: int, k: int, l: int)
    requires f in Run(EMPTY, user, steps).active
    ensures Opened(steps, f, j) && LastActivation(steps, f, k) && LastTouch(steps, f, l)
    ensures Tells(Run(EMPTY, user, steps).active[f], user, steps[j].event, steps[k].event, TouchTime(steps[l]))
  {
    var front, last, n := Front(steps), Last(steps), |steps| - 1;
    var before := Run(EMPTY, user, front);
    Membership(before, user, last, f);
    if Activates(last, f) && f !in before.active {
      ActivatedNew(before, user, last.event);
      OpenedNow(EMPTY, user, steps, f);
      j, k, l := n, n, n;
    } else {
      j, k, l := RowTellsEvents(user, front, f);
      if Activates(last, f) {
        ActivatedAgain(before, user, last.event, front[j].event, front[k].event, TouchTime(front[l]));
        StillOpened(steps, f, j);
        k, l := n, n;
      } else if Touches(last, f) {
        TouchedRow(before, user, f, last.at, front[j].event, front[k].event, TouchTime(front[l]));
        StillOpened(steps, f, j);
        assert LastActivation(steps, f, k) by {
          assert forall i | 0 <= i < n :: front[i] == steps[i];
        }
        l := n;
      } else {
        UnnamedStep(before, user, last, f);
        SameSteps(steps, f, j, k, l);
      }
    }
  }

  /******* Audit rows *******/

  /** An audit row with the fields of an active row. */
  predicate CopiesRow(audit: AuditRow, row: FlowRow) {
    && audit.username == row.username && audit.daemonId == row.daemonId && audit.workspaceId == row.workspaceId
    && audit.flowLabel == row.flowLabel && audit.metadata == row.metadata
  }

  predicate Blank(audit: AuditRow) {
    && audit.username == "" && audit.daemonId == "" && audit.workspaceId == ""
    && audit.flowLabel == "" && audit.metadata == None
  }

  /** What an event or a reap leaves in the audit table, from the tables before and after it. */
  ghost predicate Audits(audit: AuditRow, before: Store, after: Store, step: Step) {
    match step
    case Lifecycle(e) =>
      if e.status == Active then
        audit.status == Active && e.flowId in after.active && CopiesRow(audit, after.active[e.flowId])
      else
        && audit.status == e.status
        && (if e.flowId in before.active then CopiesRow(audit, before.active[e.flowId]) else Blank(audit))
    case Reap(f, _) =>
      && audit.status == Failed
      && (if f in before.active then CopiesRow(audit, before.active[f]) else Blank(audit))
    case _ => false
  }

  lemma WrittenAudit(s: Store, user: string, step: Step)
    requires step.Reap? || KeyOf(step).Some?
    ensures Audits(AuditRowOf(s, user, step), s, Next(s, user, step), step)
  {
  }

  /** Every audit row is a copy of the active row it is about, as its first writer found or left it. */
  lemma AuditRowTells(user: string, steps: seq<Step>, i: nat, key: AuditKey)
    requires i < |steps| && WritesAudit(steps[i], key) && Unwritten(steps[..i], key)
    ensures key in Run(EMPTY, user, steps).audit
    ensures Audits(Run(EMPTY, user, steps).audit[key],
                   Run(EMPTY, user, steps[..i]), Run(EMPTY, user, steps[..i + 1]), steps[i])
  {
    FirstAuditWins(EMPTY, user, steps, i, key);
    assert Front(steps[..i + 1]) == steps[..i];
    WrittenAudit(Run(EMPTY, user, steps[..i]), user, steps[i]);
  }

  /******* Requests and responses *******/

  /** The context of a request that came by the stream: its active flow's label and names, or blanks. */
  predicate ContextTells(context: WriteContext, user: string, s: Store, f: FlowId) {
    && context.username == user
    && (f in s.active ==>
          && context.flowLabel == s.active[f].flowLabel
          && context.workspaceName == s.active[f].displayName
          && context.workspacePath == s.active[f].absPath)
    && (f !in s.active ==> context.flowLabel == "" && context.workspaceName == "" && context.workspacePath == "")
  }

  /** The stored request is the first one asked, with the context written with it or that of its flow at that moment. */
  lemma RequestRowTells(s: Store, user: string, steps: seq<Step>, i: nat, q: RequestId)
    requires q !in s.requests && i < |steps| && Asks(steps[i], q)
    requires forall k | 0 <= k < i :: !Asks(steps[k], q)
    ensures q in Run(s, user, steps).requests
    ensures var row := Run(s, user, steps).requests[q];
            && row.request == steps[i].request && row.at == Seconds(steps[i].request.timestamp)
            && (steps[i].WriteRequest? ==> row.context == steps[i].context)
            && (steps[i].Request? ==>
                  ContextTells(row.context, user, Run(s, user, steps[..i]),
                               if steps[i].request.flowId == "" then steps[i].first else steps[i].request.flowId))
  {
    FirstRequestWins(s, user, steps, i, q);
  }

  /** The stored response has the fields of the first that came in time. */
  lemma ResponseRowTells(user: string, steps: seq<Step>, j: nat, q: RequestId)
    requires AnswersInTime(steps, q, j) && forall k | 0 <= k < j :: !AnswersInTime(steps, q, k)
    ensures q in Run(EMPTY, user, steps).responses
    ensures var row, r := Run(EMPTY, user, steps).responses[q], steps[j].response;
            row.accepted == r.accepted && row.action == r.action && row.text == r.text && row.at == Seconds(r.timestamp)
  {
    FirstResponseWins(user, steps, j, q);
  }
}

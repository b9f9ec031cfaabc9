/** At-least-once delivery: what reading messages a second time does to the ledger. */
module Replay {
  import opened Rfc3339
  import opened Payload
  import opened Ledger
  import opened Registry

  /*
   A consumer that is created again is handed the stream from its oldest kept message, so
   a suffix of the log is processed a second time. Here is exactly when that changes
   nothing, which responses and audit rows reach the ledger at all, and why the event the
   reaper publishes for a flow it has ended is harmless.
   */

  /******* Requests and responses: the first one stored wins *******/

  lemma AskStep(s: Store, user: string, step: Step, q: RequestId)
    ensures q in Next(s, user, step).requests <==> q in s.requests || Asks(step, q)
  {
  }

  lemma {:induction false} RequestsStored(s: Store, user: string, steps: seq<Step>, q: RequestId)
    ensures q in Run(s, user, steps).requests <==>
            q in s.requests || exists i :: 0 <= i < |steps| && Asks(steps[i], q)
  {
    if steps == [] {
    } else {
      var front, last := Front(steps), |steps| - 1;
      RequestsStored(s, user, front, q);
      AskStep(Run(s, user, front), user, steps[last], q);
      assert forall k | 0 <= k < last :: front[k] == steps[k];
    }
  }

  /** The context a request is stored with: the flow's row as of that step. */
  function ContextAt(s: Store, user: string, steps: seq<Step>, i: nat): WriteContext
    requires i < |steps| && (steps[i].Request? || steps[i].WriteRequest?)
  {
    if steps[i].WriteRequest? then steps[i].context
    else RequestContext(Run(s, user, steps[..i]), user, steps[i].request.flowId, steps[i].first)
  }

  lemma RunSplit(s: Store, user: string, steps: seq<Step>, i: nat)
    requires i < |steps|
    ensures Run(s, user, steps) == Run(Next(Run(s, user, steps[..i]), user, steps[i]), user, steps[i + 1..])
  {
    assert steps == (steps[..i] + [steps[i]]) + steps[i + 1..];
    RunAppend(s, user, steps[..i] + [steps[i]], steps[i + 1..]);
    assert Front(steps[..i] + [steps[i]]) == steps[..i];
  }

  lemma FirstRequestWins(s: Store, user: string, steps: seq<Step>, i: nat, q: RequestId)
    requires q !in s.requests && i < |steps| && Asks(steps[i], q)
    requires forall k | 0 <= k < i :: !Asks(steps[k], q)
    ensures Lookup(Run(s, user, steps).requests, q) ==
            Some(RequestRow(ContextAt(s, user, steps, i), steps[i].request, Seconds(steps[i].request.timestamp)))
  {
    RequestsStored(s, user, steps[..i], q);
    RunSplit(s, user, steps, i);
    RowsAreKept(Next(Run(s, user, steps[..i]), user, steps[i]), user, steps[i + 1..]);
  }

  /** Step `j` answers `q` after some step asked it. */
  ghost predicate AnswersInTime(steps: seq<Step>, q: RequestId, j: int) {
    0 <= j < |steps| && Answers(steps[j], q) && exists i :: 0 <= i < j && Asks(steps[i], q)
  }

  lemma PrefixInTime(steps: seq<Step>, n: nat, q: RequestId, j: int)
    requires n <= |steps|
    ensures AnswersInTime(steps[..n], q, j) <==> j < n && AnswersInTime(steps, q, j)
  {
    if 0 <= j < n {
      assert forall i | 0 <= i < j :: steps[..n][i] == steps[i];
    }
  }

  lemma AnswerStep(s: Store, user: string, step: Step, q: RequestId)
    ensures q in Next(s, user, step).responses <==>
            q in s.responses || (Answers(step, q) && q in s.requests)
  {
  }

  /** A response is stored exactly when a storable request with its id was processed before it. */
  lemma {:induction false} ResponsesStored(user: string, steps: seq<Step>, q: RequestId)
    ensures q in Run(EMPTY, user, steps).responses <==> exists j :: AnswersInTime(steps, q, j)
  {
    if steps == [] {
    } else {
      var front, last := Front(steps), |steps| - 1;
      ResponsesStored(user, front, q);
      LastInTime(user, steps, q);
      AnswerStep(Run(EMPTY, user, front), user, steps[last], q);
      forall j ensures AnswersInTime(front, q, j) <==> j < last && AnswersInTime(steps, q, j) {
        PrefixInTime(steps, last, q, j);
      }
    }
  }

  lemma LastInTime(user: string, steps: seq<Step>, q: RequestId)
    requires steps != []
    ensures AnswersInTime(steps, q, |steps| - 1) <==>
            Answers(Last(steps), q) && q in Run(EMPTY, user, Front(steps)).requests
  {
    var front, last := Front(steps), |steps| - 1;
    RequestsStored(EMPTY, user, front, q);
    assert forall k | 0 <= k < last :: front[k] == steps[k];
  }

  lemma FirstResponseWins(user: string, steps: seq<Step>, j: nat, q: RequestId)
    requires AnswersInTime(steps, q, j) && forall k | 0 <= k < j :: !AnswersInTime(steps, q, k)
    ensures Lookup(Run(EMPTY, user, steps).responses, q) == Some(ResponseRowOf(steps[j].response))
  {
    var before := steps[..j];
    forall k ensures !AnswersInTime(before, q, k) {
      PrefixInTime(steps, j, q, k);
    }
    ResponsesStored(user, before, q);
    var i :| 0 <= i < j && Asks(steps[i], q);
    assert Asks(before[i], q);
    RequestsStored(EMPTY, user, before, q);
    RunSplit(EMPTY, user, steps, j);
    RowsAreKept(Next(Run(EMPTY, user, before), user, steps[j]), user, steps[j + 1..]);
  }

  /******* Processing messages again *******/

  predicate FromLog(step: Step) {
    step.Lifecycle? || step.Request? || step.Response? || step.Ignored?
  }

  /** One log message; a request that names no flow may find another flow listed first. */
  predicate SameMessage(a: Step, b: Step) {
    FromLog(a) && (a == b || (a.Request? && b.Request? && a.request == b.request))
  }

  ghost predicate SameMessages(a: seq<Step>, b: seq<Step>) {
    |a| == |b| && forall i | 0 <= i < |a| :: SameMessage(a[i], b[i])
  }

  ghost predicate OccursIn(steps: seq<Step>, m: Step) {
    exists j :: 0 <= j < |steps| && SameMessage(steps[j], m)
  }

  /** Everything in `again` is a log message that was processed in `steps`, at whatever place. */
  ghost predicate Processed(steps: seq<Step>, again: seq<Step>) {
    forall i | 0 <= i < |again| :: OccursIn(steps, again[i])
  }

  /** The audit key a step writes under. */
  function KeyOf(step: Step): Option<AuditKey> {
    if step.Lifecycle? && !step.event.status.OtherStatus?
    then Some(AuditKey(step.event.flowId, Seconds(step.event.timestamp)))
    else None
  }

  /** The step has nothing new for the audit and request tables. */
  predicate Recorded(s: Store, step: Step) {
    && FromLog(step)
    && (KeyOf(step).Some? ==> KeyOf(step).value in s.audit)
    && (step.Request? && Storable(step.request) ==> step.request.id in s.requests)
  }

  lemma NextRecords(s: Store, user: string, step: Step)
    requires FromLog(step)
    ensures Recorded(Next(s, user, step), step)
  {
  }

  lemma {:induction false} RunRecords(s: Store, user: string, steps: seq<Step>)
    ensures forall i | 0 <= i < |steps| && FromLog(steps[i]) :: Recorded(Run(s, user, steps), steps[i])
  {
    if steps == [] {
    } else {
      var front, t := Front(steps), Run(s, user, Front(steps));
      RunRecords(s, user, front);
      if FromLog(Last(steps)) {
        NextRecords(t, user, Last(steps));
      }
      NextGrows(t, user, Last(steps));
      assert forall i | 0 <= i < |front| :: front[i] == steps[i];
    }
  }

  lemma NothingNew(s: Store, user: string, step: Step)
    requires Recorded(s, step)
    ensures Next(s, user, step).audit == s.audit && Next(s, user, step).requests == s.requests
  {
  }

  lemma {:induction false} NothingNewRun(s: Store, user: string, steps: seq<Step>)
    requires forall i | 0 <= i < |steps| :: Recorded(s, steps[i])
    ensures Run(s, user, steps).audit == s.audit && Run(s, user, steps).requests == s.requests
    ensures forall q :: q in Run(s, user, steps).responses <==>
              q in s.responses || (q in s.requests && exists j :: 0 <= j < |steps| && Answers(steps[j], q))
  {
    if steps == [] {
    } else {
      var front, last := Front(steps), |steps| - 1;
      assert forall i | 0 <= i < last :: front[i] == steps[i];
      NothingNewRun(s, user, front);
      NothingNew(Run(s, user, front), user, steps[last]);
      forall q ensures q in Run(s, user, steps).responses <==>
              q in s.responses || (q in s.requests && exists j :: 0 <= j < |steps| && Answers(steps[j], q))
      {
        AnswerStep(Run(s, user, front), user, steps[last], q);
      }
    }
  }

  /**
   What the events and reaps of a run do to one active row, whatever the row was: leave it,
   fix it, or lay the last refresh over it (making `base` when there was none).
   */
  datatype Effect = Keep | Fix(row: Option<FlowRow>) | Refresh(base: FlowRow)

  function Applied(n: Effect, row: Option<FlowRow>): Option<FlowRow> {
    match n
    case Keep => row
    case Fix(fixed) => fixed
    case Refresh(base) =>
      if row.None? then Some(base)
      else Some(RefreshedRow(row.value, base.flowLabel, base.metadata, base.lastActivity))
  }

  function RowAfter(user: string, row: Option<FlowRow>, e: FlowLifecycleEvent): FlowRow {
    if row.None? then NewRow(user, e)
    else RefreshedRow(row.value, e.flowLabel, e.metadata, Seconds(e.timestamp))
  }

  function Then(n: Effect, user: string, step: Step, f: FlowId): Effect {
    if Ends(step, f) then Fix(None)
    else if !Activates(step, f) then n
    else match n
      case Keep => Refresh(NewRow(user, step.event))
      case Fix(row) => Fix(Some(RowAfter(user, row, step.event)))
      case Refresh(base) => Refresh(RowAfter(user, Some(base), step.event))
  }

  function EffectOf(user: string, steps: seq<Step>, f: FlowId): Effect {
    if steps == [] then Keep else Then(EffectOf(user, Front(steps), f), user, Last(steps), f)
  }

  /** A row after a step that is no activity update. */
  function RowNext(user: string, row: Option<FlowRow>, step: Step, f: FlowId): Option<FlowRow> {
    if Ends(step, f) then None else if Activates(step, f) then Some(RowAfter(user, row, step.event)) else row
  }

  lemma EffectStep(s: Store, user: string, step: Step, f: FlowId)
    requires !step.UpdateActivity?
    ensures Lookup(Next(s, user, step).active, f) == RowNext(user, Lookup(s.active, f), step, f)
  {
    if step.Lifecycle? {
      AppliedRow(s, user, step.event, f);
    }
  }

  lemma AppliedRow(s: Store, user: string, e: FlowLifecycleEvent, f: FlowId)
    ensures Lookup(ApplyEvent(s, user, e).active, f) ==
            if e.flowId != f || e.status.OtherStatus? then Lookup(s.active, f)
            else if e.status == Active then Some(RowAfter(user, Lookup(s.active, f), e))
            else None
  {
  }

  lemma ThenApplied(n: Effect, user: string, step: Step, f: FlowId, row: Option<FlowRow>)
    ensures Applied(Then(n, user, step, f), row) == RowNext(user, Applied(n, row), step, f)
  {
  }

  ghost predicate NoUpdates(steps: seq<Step>) {
    forall i | 0 <= i < |steps| :: !steps[i].UpdateActivity?
  }

  lemma {:induction false} EffectCorrect(s: Store, user: string, steps: seq<Step>, f: FlowId)
    requires NoUpdates(steps)
    ensures Lookup(Run(s, user, steps).active, f) == Applied(EffectOf(user, steps, f), Lookup(s.active, f))
  {
    if steps == [] {
    } else {
      EffectCorrect(s, user, Front(steps), f);
      EffectStep(Run(s, user, Front(steps)), user, Last(steps), f);
      ThenApplied(EffectOf(user, Front(steps), f), user, Last(steps), f, Lookup(s.active, f));
    }
  }

  /** The same row, or none, up to the activity time. */
  predicate Alike(x: Option<FlowRow>, y: Option<FlowRow>) {
    (x.Some? <==> y.Some?) && (x.Some? ==> x.value == y.value.(lastActivity := x.value.lastActivity))
  }

  lemma AlikeStep(s: Store, user: string, step: Step, f: FlowId, row: Option<FlowRow>)
    requires Alike(Lookup(s.active, f), row)
    ensures Alike(Lookup(Next(s, user, step).active, f), RowNext(user, row, step, f))
  {
    if !step.UpdateActivity? {
      EffectStep(s, user, step, f);
    }
  }

  /** In any run at all, activity updates move a row's activity time and nothing else. */
  lemma {:induction false} EffectUpToActivity(s: Store, user: string, steps: seq<Step>, f: FlowId)
    ensures Alike(Lookup(Run(s, user, steps).active, f), Applied(EffectOf(user, steps, f), Lookup(s.active, f)))
  {
    if steps == [] {
    } else {
      var row := Lookup(s.active, f);
      EffectUpToActivity(s, user, Front(steps), f);
      ThenApplied(EffectOf(user, Front(steps), f), user, Last(steps), f, row);
      AlikeStep(Run(s, user, Front(steps)), user, Last(steps), f, Applied(EffectOf(user, Front(steps), f), row));
    }
  }

  lemma AppliedTwice(n: Effect, row: Option<FlowRow>)
    ensures Applied(n, Applied(n, row)) == Applied(n, row)
  {
  }

  lemma {:induction false} SameEffect(user: string, a: seq<Step>, b: seq<Step>, f: FlowId)
    requires SameMessages(a, b)
    ensures EffectOf(user, a, f) == EffectOf(user, b, f)
  {
    if a == [] {
    } else {
      SameEffect(user, Front(a), Front(b), f);
    }
  }

  lemma SameActive(a: map<FlowId, FlowRow>, b: map<FlowId, FlowRow>)
    requires forall f :: Lookup(a, f) == Lookup(b, f)
    ensures a == b
  {
    forall f ensures f in a <==> f in b {
      assert Lookup(a, f) == Lookup(b, f);
    }
    forall f | f in a ensures a[f] == b[f] {
      assert Lookup(a, f) == Lookup(b, f);
    }
  }

  lemma ActiveReplayed(s: Store, user: string, steps: seq<Step>, again: seq<Step>)
    requires SameMessages(steps, again)
    ensures Run(Run(s, user, steps), user, again).active == Run(s, user, steps).active
  {
    var t := Run(s, user, steps);
    assert forall i | 0 <= i < |again| :: SameMessage(steps[i], again[i]);
    forall f ensures Lookup(Run(t, user, again).active, f) == Lookup(t.active, f) {
      EffectCorrect(s, user, steps, f);
      EffectCorrect(t, user, again, f);
      SameEffect(user, steps, again, f);
      AppliedTwice(EffectOf(user, steps, f), Lookup(s.active, f));
    }
    SameActive(Run(t, user, again).active, t.active);
  }

  /******* When a replay changes nothing *******/

  /** Every response to be processed again whose request is stored is stored already. */
  ghost predicate NothingUnanswered(s: Store, again: seq<Step>) {
    forall j | 0 <= j < |again| && again[j].Response? ::
      again[j].response.requestId in s.requests ==> again[j].response.requestId in s.responses
  }

  /** The row of `f` is already what the effect of `again` makes of it. */
  predicate RowStands(t: Store, user: string, again: seq<Step>, f: FlowId) {
    match EffectOf(user, again, f)
    case Keep => true
    case Fix(row) => Lookup(t.active, f) == row
    case Refresh(base) =>
      f in t.active && t.active[f] == RefreshedRow(t.active[f], base.flowLabel, base.metadata, base.lastActivity)
  }

  ghost predicate RowsStand(t: Store, user: string, again: seq<Step>) {
    forall f :: RowStands(t, user, again, f)
  }

  lemma ActiveUnchanged(t: Store, user: string, again: seq<Step>)
    requires NoUpdates(again)
    ensures Run(t, user, again).active == t.active <==> RowsStand(t, user, again)
  {
    var u := Run(t, user, again);
    forall f ensures Lookup(u.active, f) == Lookup(t.active, f) <==> RowStands(t, user, again, f) {
      EffectCorrect(t, user, again, f);
    }
    if RowsStand(t, user, again) {
      forall f ensures Lookup(u.active, f) == Lookup(t.active, f) {
        assert RowStands(t, user, again, f);
      }
      SameActive(u.active, t.active);
    }
  }

  lemma ProcessedRecorded(s: Store, user: string, steps: seq<Step>, again: seq<Step>)
    requires Processed(steps, again)
    ensures forall i | 0 <= i < |again| :: Recorded(Run(s, user, steps), again[i])
    ensures NoUpdates(again)
  {
    RunRecords(s, user, steps);
    forall i | 0 <= i < |again| ensures Recorded(Run(s, user, steps), again[i]) {
      assert OccursIn(steps, again[i]);
      var j :| 0 <= j < |steps| && SameMessage(steps[j], again[i]);
      assert Recorded(Run(s, user, steps), steps[j]);
    }
  }

  lemma ResponsesUnchanged(t: Store, user: string, again: seq<Step>)
    requires forall i | 0 <= i < |again| :: Recorded(t, again[i])
    ensures Run(t, user, again).audit == t.audit && Run(t, user, again).requests == t.requests
    ensures Run(t, user, again).responses == t.responses <==> NothingUnanswered(t, again)
  {
    var u := Run(t, user, again);
    NothingNewRun(t, user, again);
    RowsAreKept(t, user, again);
    if NothingUnanswered(t, again) {
      assert u.responses == t.responses;
    } else {
      var j :| 0 <= j < |again| && again[j].Response? && again[j].response.requestId in t.requests
               && again[j].response.requestId !in t.responses;
      assert Answers(again[j], again[j].response.requestId);
      assert u.responses != t.responses;
    }
  }

  /**
   After any run, messages of it delivered once more, any of them and in any order, change
   no table exactly when no response is unanswered and every active row stands.
   */
  lemma ReplayExactly(s: Store, user: string, steps: seq<Step>, again: seq<Step>)
    requires Processed(steps, again)
    ensures var t := Run(s, user, steps);
            Run(t, user, again) == t <==> NothingUnanswered(t, again) && RowsStand(t, user, again)
  {
    var t := Run(s, user, steps);
    ProcessedRecorded(s, user, steps, again);
    ResponsesUnchanged(t, user, again);
    ActiveUnchanged(t, user, again);
  }

  /******* What the stream keeps *******/

  /** The log's events that make `f` active or end it. */
  function About(steps: seq<Step>, f: FlowId): seq<Step> {
    if steps == [] then []
    else
      var events, last := About(Front(steps), f), Last(steps);
      if last.Lifecycle? && (Activates(last, f) || Ends(last, f)) then events + [last] else events
  }

  ghost predicate IsSuffix<T>(a: seq<T>, b: seq<T>) {
    |a| <= |b| && b[|b| - |a|..] == a
  }

  /**
   What is delivered once more: messages processed before, and of each flow's lifecycle
   events the latest ones, since the stream discards the oldest, of all or of one subject.
   */
  ghost predicate Retained(steps: seq<Step>, again: seq<Step>) {
    Processed(steps, again) && forall f :: IsSuffix(About(again, f), About(steps, f))
  }

  /** `f` was reaped, and no terminal event of it was consumed since. */
  predicate ReapPending(steps: seq<Step>, f: FlowId) {
    steps != [] &&
    var last := Last(steps);
    if last.Reap? && last.flowId == f then true
    else !Ends(last, f) && ReapPending(Front(steps), f)
  }

  /** Every reap's event was consumed before the flow became active again, and by now. */
  ghost predicate ReapsEchoed(steps: seq<Step>, f: FlowId) {
    !ReapPending(steps, f) && forall i | 0 <= i < |steps| && Activates(steps[i], f) :: !ReapPending(steps[..i], f)
  }

  ghost predicate AllReapsEchoed(steps: seq<Step>) {
    forall f :: ReapsEchoed(steps, f)
  }

  /** The second of the last active event of `f`. */
  function LastActive(steps: seq<Step>, f: FlowId): Option<Stamp> {
    if steps == [] then None
    else if Activates(Last(steps), f) then Some(Seconds(Last(steps).event.timestamp))
    else LastActive(Front(steps), f)
  }

  /** No activity update moved an active flow on from its last active event in `again`. */
  ghost predicate ActivityKept(t: Store, again: seq<Step>) {
    forall f | f in t.active && LastActive(again, f).Some? :: t.active[f].lastActivity == LastActive(again, f).value
  }

  lemma {:induction false} EffectAppend(user: string, a: seq<Step>, b: seq<Step>, f: FlowId, row: Option<FlowRow>)
    ensures Applied(EffectOf(user, a + b, f), row) == Applied(EffectOf(user, b, f), Applied(EffectOf(user, a, f), row))
  {
    if b == [] {
      assert a + b == a;
    } else {
      assert Front(a + b) == a + Front(b);
      EffectAppend(user, a, Front(b), f, row);
      ThenApplied(EffectOf(user, a + Front(b), f), user, Last(b), f, row);
      ThenApplied(EffectOf(user, Front(b), f), user, Last(b), f, Applied(EffectOf(user, a, f), row));
    }
  }

  lemma AboutAppended(events: seq<Step>, step: Step, user: string, f: FlowId)
    ensures EffectOf(user, events + [step], f) == Then(EffectOf(user, events, f), user, step, f)
  {
    assert Front(events + [step]) == events;
  }

  /** Reaps that were echoed leave no trace: the log's own events have the same effect. */
  lemma {:induction false} EffectOfAbout(user: string, steps: seq<Step>, f: FlowId)
    requires forall i | 0 <= i < |steps| && Activates(steps[i], f) :: !ReapPending(steps[..i], f)
    ensures if ReapPending(steps, f) then EffectOf(user, steps, f) == Fix(None)
            else EffectOf(user, steps, f) == EffectOf(user, About(steps, f), f)
  {
    if steps == [] {
    } else {
      var front, last := Front(steps), |steps| - 1;
      forall i | 0 <= i < last && Activates(front[i], f) ensures !ReapPending(front[..i], f) {
        assert front[i] == steps[i] && front[..i] == steps[..i];
      }
      EffectOfAbout(user, front, f);
      AboutAppended(About(front, f), steps[last], user, f);
      assert steps[..last] == front;
      assert Activates(steps[last], f) ==> !ReapPending(front, f);
    }
  }

  lemma {:induction false} NeverReaped(steps: seq<Step>, f: FlowId)
    requires forall i | 0 <= i < |steps| :: !(steps[i].Reap? && steps[i].flowId == f)
    ensures !ReapPending(steps, f)
  {
    if steps == [] {
    } else {
      assert forall i | 0 <= i < |steps| - 1 :: Front(steps)[i] == steps[i];
      NeverReaped(Front(steps), f);
    }
  }

  lemma WithoutReaps(steps: seq<Step>)
    requires forall i | 0 <= i < |steps| :: !steps[i].Reap?
    ensures AllReapsEchoed(steps)
  {
    forall f ensures ReapsEchoed(steps, f) {
      NeverReaped(steps, f);
      forall i | 0 <= i < |steps| ensures !ReapPending(steps[..i], f) {
        NeverReaped(steps[..i], f);
      }
    }
  }

  /** What an effect knows of the last active event. */
  lemma {:induction false} EffectActivity(user: string, steps: seq<Step>, f: FlowId)
    ensures match EffectOf(user, steps, f)
            case Keep => LastActive(steps, f) == None
            case Fix(row) => row.Some? ==> LastActive(steps, f) == Some(row.value.lastActivity)
            case Refresh(base) => LastActive(steps, f) == Some(base.lastActivity)
  {
    if steps == [] {
    } else {
      EffectActivity(user, Front(steps), f);
    }
  }

  /** A row that the latest events made, up to activity, stands exactly when its activity is theirs. */
  lemma StandsByActivity(t: Store, user: string, again: seq<Step>, f: FlowId, row: Option<FlowRow>)
    requires Alike(Lookup(t.active, f), Applied(EffectOf(user, again, f), row))
    ensures RowStands(t, user, again, f) <==>
            (f in t.active && LastActive(again, f).Some? ==> t.active[f].lastActivity == LastActive(again, f).value)
  {
    EffectActivity(user, again, f);
  }

  lemma RetainedRow(s: Store, user: string, steps: seq<Step>, again: seq<Step>, f: FlowId)
    requires Retained(steps, again) && ReapsEchoed(steps, f)
    ensures var t := Run(s, user, steps);
            RowStands(t, user, again, f) <==>
            (f in t.active && LastActive(again, f).Some? ==> t.active[f].lastActivity == LastActive(again, f).value)
  {
    var t, row := Run(s, user, steps), Lookup(s.active, f);
    var all, kept := About(steps, f), About(again, f);
    assert IsSuffix(kept, all);
    var dropped := all[..|all| - |kept|];
    assert all == dropped + kept;
    EffectUpToActivity(s, user, steps, f);
    EffectOfAbout(user, steps, f);
    EffectAppend(user, dropped, kept, f, row);
    ProcessedFromLog(steps, again);
    WithoutReaps(again);
    assert ReapsEchoed(again, f);
    EffectOfAbout(user, again, f);
    StandsByActivity(t, user, again, f, Applied(EffectOf(user, dropped, f), row));
  }

  lemma ProcessedFromLog(steps: seq<Step>, again: seq<Step>)
    requires Processed(steps, again)
    ensures forall i | 0 <= i < |again| :: FromLog(again[i])
  {
    forall i | 0 <= i < |again| ensures FromLog(again[i]) {
      assert OccursIn(steps, again[i]);
      var j :| 0 <= j < |steps| && SameMessage(steps[j], again[i]);
    }
  }

  /**
   After any run whose reaps were echoed, delivering the retained messages once more
   changes no table exactly when no response is unanswered and no activity was moved on.
   */
  lemma ReplayOfRetained(s: Store, user: string, steps: seq<Step>, again: seq<Step>)
    requires Retained(steps, again) && AllReapsEchoed(steps)
    ensures var t := Run(s, user, steps);
            Run(t, user, again) == t <==> NothingUnanswered(t, again) && ActivityKept(t, again)
  {
    var t := Run(s, user, steps);
    ReplayExactly(s, user, steps, again);
    forall f ensures RowStands(t, user, again, f) <==>
                     (f in t.active && LastActive(again, f).Some? ==> t.active[f].lastActivity == LastActive(again, f).value)
    {
      assert ReapsEchoed(steps, f);
      RetainedRow(s, user, steps, again, f);
    }
  }

  /** The log messages among the steps. */
  function Messages(steps: seq<Step>): seq<Step> {
    if steps == [] then []
    else if FromLog(Last(steps)) then Messages(Front(steps)) + [Last(steps)]
    else Messages(Front(steps))
  }

  lemma {:induction false} AboutMessages(steps: seq<Step>, f: FlowId)
    ensures About(Messages(steps), f) == About(steps, f)
  {
    if steps == [] {
    } else {
      AboutMessages(Front(steps), f);
      if FromLog(Last(steps)) {
        assert Front(Messages(steps)) == Messages(Front(steps)) && Last(Messages(steps)) == Last(steps);
      }
    }
  }

  lemma {:induction false} SameAbout(a: seq<Step>, b: seq<Step>, f: FlowId)
    requires SameMessages(a, b)
    ensures About(a, f) == About(b, f)
  {
    if a == [] {
    } else {
      SameAbout(Front(a), Front(b), f);
      assert SameMessage(Last(a), Last(b));
    }
  }

  lemma {:induction false} AboutAppend(a: seq<Step>, b: seq<Step>, f: FlowId)
    ensures About(a + b, f) == About(a, f) + About(b, f)
  {
    if b == [] {
      assert a + b == a;
    } else {
      assert Front(a + b) == a + Front(b);
      AboutAppend(a, Front(b), f);
    }
  }

  lemma {:induction false} MessagesOccur(steps: seq<Step>, i: nat)
    requires i < |Messages(steps)|
    ensures FromLog(Messages(steps)[i]) && exists j :: 0 <= j < |steps| && steps[j] == Messages(steps)[i]
  {
    if i < |Messages(Front(steps))| {
      MessagesOccur(Front(steps), i);
      var j :| 0 <= j < |Front(steps)| && Front(steps)[j] == Messages(steps)[i];
      assert steps[j] == Messages(steps)[i];
    } else {
      assert steps[|steps| - 1] == Messages(steps)[i];
    }
  }

  /** The messages from some step on are retained messages. */
  lemma SuffixRetained(steps: seq<Step>, k: nat, again: seq<Step>)
    requires k <= |steps| && SameMessages(Messages(steps[k..]), again)
    ensures Retained(steps, again)
  {
    var messages := Messages(steps[k..]);
    forall i | 0 <= i < |again| ensures OccursIn(steps, again[i]) {
      MessagesOccur(steps[k..], i);
      var j :| 0 <= j < |steps[k..]| && steps[k..][j] == messages[i];
      assert SameMessage(messages[i], again[i]) && steps[k + j] == messages[i];
    }
    forall f ensures IsSuffix(About(again, f), About(steps, f)) {
      assert steps == steps[..k] + steps[k..];
      AboutAppend(steps[..k], steps[k..], f);
      AboutMessages(steps[k..], f);
      SameAbout(messages, again, f);
    }
  }

  /** All messages consumed from step `k` on are delivered once more. */
  lemma ReplayOfSuffix(s: Store, user: string, steps: seq<Step>, k: nat, again: seq<Step>)
    requires k <= |steps| && SameMessages(Messages(steps[k..]), again) && AllReapsEchoed(steps)
    ensures var t := Run(s, user, steps);
            Run(t, user, again) == t <==> NothingUnanswered(t, again) && ActivityKept(t, again)
  {
    SuffixRetained(steps, k, again);
    ReplayOfRetained(s, user, steps, again);
  }

  /** Every consumed response comes after a request with its id, if one is stored at all. */
  ghost predicate RequestsComeFirst(steps: seq<Step>) {
    forall j | 0 <= j < |steps| && steps[j].Response? ::
      (exists i :: 0 <= i < |steps| && Asks(steps[i], steps[j].response.requestId))
      ==> AnswersInTime(steps, steps[j].response.requestId, j)
  }

  lemma NothingLeftUnanswered(user: string, steps: seq<Step>, again: seq<Step>)
    requires Processed(steps, again) && RequestsComeFirst(steps)
    ensures NothingUnanswered(Run(EMPTY, user, steps), again)
  {
    var t := Run(EMPTY, user, steps);
    forall i | 0 <= i < |again| && again[i].Response? && again[i].response.requestId in t.requests
      ensures again[i].response.requestId in t.responses
    {
      var q := again[i].response.requestId;
      assert OccursIn(steps, again[i]);
      var j :| 0 <= j < |steps| && SameMessage(steps[j], again[i]);
      RequestsStored(EMPTY, user, steps, q);
      ResponsesStored(user, steps, q);
      assert AnswersInTime(steps, q, j);
    }
  }

  lemma ActivityUntouched(s: Store, user: string, steps: seq<Step>, again: seq<Step>, f: FlowId)
    requires Retained(steps, again) && ReapsEchoed(steps, f) && NoUpdates(steps)
    ensures RowStands(Run(s, user, steps), user, again, f)
  {
    var all, kept := About(steps, f), About(again, f);
    assert IsSuffix(kept, all);
    var dropped := all[..|all| - |kept|];
    assert all == dropped + kept;
    EffectCorrect(s, user, steps, f);
    EffectOfAbout(user, steps, f);
    EffectAppend(user, dropped, kept, f, Lookup(s.active, f));
    ProcessedFromLog(steps, again);
    WithoutReaps(again);
    assert ReapsEchoed(again, f);
    EffectOfAbout(user, again, f);
    AppliedTwice(EffectOf(user, again, f), Applied(EffectOf(user, dropped, f), Lookup(s.active, f)));
  }

  /** With requests before their responses and no activity update, replaying retained messages is a no-op. */
  lemma ReplayIsNoOp(user: string, steps: seq<Step>, again: seq<Step>)
    requires Retained(steps, again) && AllReapsEchoed(steps) && RequestsComeFirst(steps) && NoUpdates(steps)
    ensures Run(Run(EMPTY, user, steps), user, again) == Run(EMPTY, user, steps)
  {
    ReplayExactly(EMPTY, user, steps, again);
    NothingLeftUnanswered(user, steps, again);
    forall f ensures RowStands(Run(EMPTY, user, steps), user, again, f) {
      assert ReapsEchoed(steps, f);
      ActivityUntouched(EMPTY, user, steps, again, f);
    }
  }

  /** The steps a consumer takes on the messages; `firsts` are the flows listed first meanwhile. */
  function StepsOf(ms: seq<Message>, firsts: seq<FlowId>): seq<Step>
    requires |ms| == |firsts|
  {
    seq(|ms|, i requires 0 <= i < |ms| => StepOf(ms[i], firsts[i]))
  }

  ghost predicate AllFromLog(steps: seq<Step>) {
    forall i | 0 <= i < |steps| :: FromLog(steps[i])
  }

  lemma ProcessedByThemselves(steps: seq<Step>)
    requires AllFromLog(steps)
    ensures Processed(steps, steps)
  {
    forall i | 0 <= i < |steps| ensures OccursIn(steps, steps[i]) {
      assert SameMessage(steps[i], steps[i]);
    }
  }

  /** A new consumer that receives the kept messages from position `k` on, and nothing but messages, changes nothing. */
  lemma RedeliveryIsNoOp(user: string, ms: seq<Message>, firsts: seq<FlowId>, k: nat, firstsAgain: seq<FlowId>)
    requires |ms| == |firsts| && k <= |ms| && |firstsAgain| == |ms| - k && RequestsComeFirst(StepsOf(ms, firsts))
    ensures var t := Run(EMPTY, user, StepsOf(ms, firsts));
            Run(t, user, StepsOf(ms[k..], firstsAgain)) == t
  {
    var log, again := StepsOf(ms, firsts), StepsOf(ms[k..], firstsAgain);
    SameStepsOf(ms, firsts, k, firstsAgain);
    LogSuffixRetained(log, k, again);
    WithoutReaps(log);
    ReplayIsNoOp(user, log, again);
  }

  lemma LogSuffixRetained(log: seq<Step>, k: nat, again: seq<Step>)
    requires k <= |log| && SameMessages(log[k..], again)
    ensures Retained(log, again)
  {
    forall i | 0 <= i < |again| ensures OccursIn(log, again[i]) {
      assert SameMessage(log[k..][i], again[i]) && log[k + i] == log[k..][i];
    }
    forall f ensures IsSuffix(About(again, f), About(log, f)) {
      assert log == log[..k] + log[k..];
      AboutAppend(log[..k], log[k..], f);
      SameAbout(log[k..], again, f);
    }
  }

  lemma SameStepsOf(ms: seq<Message>, firsts: seq<FlowId>, k: nat, firstsAgain: seq<FlowId>)
    requires |ms| == |firsts| && k <= |ms| && |firstsAgain| == |ms| - k
    ensures SameMessages(StepsOf(ms, firsts)[k..], StepsOf(ms[k..], firstsAgain))
    ensures AllFromLog(StepsOf(ms, firsts))
  {
    var log, again := StepsOf(ms, firsts), StepsOf(ms[k..], firstsAgain);
    forall i | 0 <= i < |again| ensures SameMessage(log[k..][i], again[i]) {
      assert log[k..][i] == StepOf(ms[k + i], firsts[k + i]) && again[i] == StepOf(ms[k + i], firstsAgain[i]);
    }
  }

  /** An activity update between an event and its redelivery is undone. */
  lemma ActivityMovesBack(user: string, e: FlowLifecycleEvent, at: Instant)
    requires e.status == Active && Seconds(at) != Seconds(e.timestamp)
    ensures var t := Run(EMPTY, user, [Lifecycle(e), UpdateActivity(e.flowId, at)]);
            && NothingUnanswered(t, [Lifecycle(e)])
            && e.flowId in t.active && t.active[e.flowId].lastActivity == Seconds(at)
            && var u := Run(t, user, [Lifecycle(e)]);
               e.flowId in u.active && u.active[e.flowId].lastActivity == Seconds(e.timestamp)
  {
    var steps := [Lifecycle(e), UpdateActivity(e.flowId, at)];
    assert Front(steps) == [Lifecycle(e)] && Front([Lifecycle(e)]) == [];
    assert Run(EMPTY, user, []) == EMPTY;
    assert Run(EMPTY, user, [Lifecycle(e)]) == Next(EMPTY, user, Lifecycle(e));
    var t := Run(EMPTY, user, steps);
    assert Run(t, user, []) == t;
    assert Run(t, user, [Lifecycle(e)]) == Next(t, user, Lifecycle(e));
  }

  /** A reaped flow comes back when its active event is delivered without a later terminal one. */
  lemma ReapedFlowReturns(t: Store, user: string, again: seq<Step>, f: FlowId, j: nat)
    requires f !in t.active && ActiveSince(again, f, j)
    ensures f in Run(t, user, again).active
  {
    LastWriterWins(t, user, again, f);
  }

  lemma ResponseDropped(user: string, r: NotificationRequest, a: NotificationResponse, first: FlowId)
    requires Storable(r) && a.requestId == r.id
    ensures var t := Run(EMPTY, user, [Response(a), Request(r, first)]);
            r.id in t.requests && r.id !in t.responses
  {
    var log := [Response(a), Request(r, first)];
    RequestsStored(EMPTY, user, log, r.id);
    ResponsesStored(user, log, r.id);
    assert Asks(log[1], r.id);
    assert forall j :: !AnswersInTime(log, r.id, j);
  }

  lemma UnansweredChanges(s: Store, user: string, log: seq<Step>, j: nat)
    requires AllFromLog(log) && j < |log| && log[j].Response?
    requires var t := Run(s, user, log); log[j].response.requestId in t.requests && log[j].response.requestId !in t.responses
    ensures Run(Run(s, user, log), user, log) != Run(s, user, log)
  {
    ProcessedByThemselves(log);
    ReplayExactly(s, user, log, log);
    assert !NothingUnanswered(Run(s, user, log), log);
  }

  /** Out of order it is not: the response dropped the first time is stored the second time. */
  lemma ReplayOutOfOrder(user: string, r: NotificationRequest, a: NotificationResponse, first: FlowId)
    requires Storable(r) && a.requestId == r.id
    ensures var log := [Response(a), Request(r, first)];
            Run(Run(EMPTY, user, log), user, log) != Run(EMPTY, user, log)
  {
    ResponseDropped(user, r, a, first);
    UnansweredChanges(EMPTY, user, [Response(a), Request(r, first)], 0);
  }

  /******* The reaper's own event *******/

  /**
   The failed event published for a reaped flow comes back through the stream. It
   changes no table exactly when the flow has not become active again meanwhile.
   */
  lemma ReapEchoAbsorbed(s: Store, user: string, f: FlowId, at: Instant, between: seq<Step>, echo: FlowLifecycleEvent)
    requires echo.flowId == f && echo.status == Failed && echo.timestamp == at
    ensures var t := Run(Next(s, user, Reap(f, at)), user, between);
            && (Next(t, user, Lifecycle(echo)) == t <==> f !in t.active)
            && ((forall k | 0 <= k < |between| :: !Activates(between[k], f)) ==> f !in t.active)
  {
    var reaped := Next(s, user, Reap(f, at));
    var t := Run(reaped, user, between);
    ReapedRow(s, user, f, at);
    RowsAreKept(reaped, user, between);
    LastWriterWins(reaped, user, between, f);
    TerminatedAgain(t, f, Seconds(at));
    assert Next(t, user, Lifecycle(echo)) == Terminated(t, f, Failed, Seconds(at));
  }

  lemma ReapedRow(s: Store, user: string, f: FlowId, at: Instant)
    ensures AuditKey(f, Seconds(at)) in Next(s, user, Reap(f, at)).audit && f !in Next(s, user, Reap(f, at)).active
  {
  }

  lemma TerminatedAgain(t: Store, f: FlowId, at: Stamp)
    requires AuditKey(f, at) in t.audit
    ensures Terminated(t, f, Failed, at) == t <==> f !in t.active
  {
    if f !in t.active {
      assert t.active - {f} == t.active;
    } else {
      assert f !in Terminated(t, f, Failed, at).active;
    }
  }

  /******* Which audit rows are recorded *******/

  /** Every lifecycle event of a known status and every reap tries to write one audit row. */
  predicate WritesAudit(step: Step, key: AuditKey) {
    KeyOf(step) == Some(key) || (step.Reap? && AuditKey(step.flowId, Seconds(step.at)) == key)
  }

  ghost predicate Unwritten(steps: seq<Step>, key: AuditKey) {
    forall i | 0 <= i < |steps| :: !WritesAudit(steps[i], key)
  }

  /** The row the step tries to write. */
  function AuditRowOf(s: Store, user: string, step: Step): AuditRow
    requires step.Reap? || KeyOf(step).Some?
  {
    match step
    case Lifecycle(e) =>
      if e.status == Active then AuditOf(RowAfter(user, Lookup(s.active, e.flowId), e), Active)
      else TerminalAudit(s, e.flowId, e.status)
    case Reap(f, _) => TerminalAudit(s, f, Failed)
  }

  lemma TerminalAuditStep(s: Store, user: string, e: FlowLifecycleEvent)
    requires e.status in {Completed, Failed}
    ensures var key := AuditKey(e.flowId, Seconds(e.timestamp));
            Next(s, user, Lifecycle(e)).audit == InsertOrIgnore(s.audit, key, TerminalAudit(s, e.flowId, e.status))
  {
  }

  lemma ActiveAuditStep(s: Store, user: string, e: FlowLifecycleEvent)
    requires e.status == Active
    ensures var key, row := AuditKey(e.flowId, Seconds(e.timestamp)), RowAfter(user, Lookup(s.active, e.flowId), e);
            Next(s, user, Lifecycle(e)).audit == InsertOrIgnore(s.audit, key, AuditOf(row, Active))
  {
  }

  lemma OtherAuditStep(s: Store, user: string, step: Step)
    requires !step.Reap? && KeyOf(step).None?
    ensures Next(s, user, step).audit == s.audit
  {
  }

  lemma AuditStep(s: Store, user: string, step: Step, key: AuditKey)
    ensures Lookup(Next(s, user, step).audit, key) ==
            if key in s.audit then Some(s.audit[key])
            else if WritesAudit(step, key) then Some(AuditRowOf(s, user, step))
            else None
  {
    if step.Reap? {
      assert Next(s, user, step).audit
          == InsertOrIgnore(s.audit, AuditKey(step.flowId, Seconds(step.at)), TerminalAudit(s, step.flowId, Failed));
    } else if KeyOf(step).None? {
      OtherAuditStep(s, user, step);
    } else if step.event.status == Active {
      ActiveAuditStep(s, user, step.event);
    } else {
      TerminalAuditStep(s, user, step.event);
    }
  }

  lemma {:induction false} AuditRecorded(s: Store, user: string, steps: seq<Step>, key: AuditKey)
    ensures key in Run(s, user, steps).audit <==> key in s.audit || !Unwritten(steps, key)
  {
    if steps == [] {
    } else {
      var front, last := Front(steps), |steps| - 1;
      AuditRecorded(s, user, front, key);
      AuditStep(Run(s, user, front), user, steps[last], key);
      assert forall k | 0 <= k < last :: front[k] == steps[k];
    }
  }

  /** The row under a key is the one its first writer tried to write. */
  lemma FirstAuditWins(s: Store, user: string, steps: seq<Step>, i: nat, key: AuditKey)
    requires key !in s.audit && i < |steps| && WritesAudit(steps[i], key) && Unwritten(steps[..i], key)
    ensures Lookup(Run(s, user, steps).audit, key) == Some(AuditRowOf(Run(s, user, steps[..i]), user, steps[i]))
  {
    AuditRecorded(s, user, steps[..i], key);
    AuditStep(Run(s, user, steps[..i]), user, steps[i], key);
    RunSplit(s, user, steps, i);
    RowsAreKept(Next(Run(s, user, steps[..i]), user, steps[i]), user, steps[i + 1..]);
  }

  /**
   After any run, a terminal event adds an audit row exactly when no earlier event or reap
   of its flow fell into the same second. The row says what the active row said and is
   kept by every later step; otherwise the audit table stays as it was.
   */
  lemma TerminalRowRecorded(user: string, before: seq<Step>, e: FlowLifecycleEvent, after: seq<Step>)
    requires e.status in {Completed, Failed}
    ensures var key, t := AuditKey(e.flowId, Seconds(e.timestamp)), Run(EMPTY, user, before);
            var u := Next(t, user, Lifecycle(e));
            && (Unwritten(before, key) <==> u.audit != t.audit)
            && (Unwritten(before, key) ==>
                  && key !in t.audit && u.audit == t.audit[key := TerminalAudit(t, e.flowId, e.status)]
                  && Lookup(Run(u, user, after).audit, key) == Some(TerminalAudit(t, e.flowId, e.status)))
  {
    var key, t := AuditKey(e.flowId, Seconds(e.timestamp)), Run(EMPTY, user, before);
    AuditRecorded(EMPTY, user, before, key);
    TerminalAuditStep(t, user, e);
    RowsAreKept(Next(t, user, Lifecycle(e)), user, after);
  }

  /** A refresh in the ending second takes the completed row's key as well. */
  lemma RefreshTakesKey(user: string, start: FlowLifecycleEvent, refresh: FlowLifecycleEvent, e: FlowLifecycleEvent)
    requires start.status == refresh.status == Active && e.status == Completed
    requires start.flowId == refresh.flowId == e.flowId
    requires Seconds(start.timestamp) != Seconds(refresh.timestamp) == Seconds(e.timestamp)
    ensures var t := Run(EMPTY, user, [Lifecycle(start), Lifecycle(refresh)]);
            Next(t, user, Lifecycle(e)).audit == t.audit
  {
    var before := [Lifecycle(start), Lifecycle(refresh)];
    assert WritesAudit(before[1], AuditKey(e.flowId, Seconds(e.timestamp)));
    TerminalRowRecorded(user, before, e, []);
  }

  /**
   With nothing but the two events, as `post` publishes them: the completed row is
   recorded exactly when the flow ends in another second than it started.
   */
  lemma CompletedRowRecorded(s: Store, user: string, start: FlowLifecycleEvent, end: FlowLifecycleEvent)
    requires start.status == Active && end.status in {Completed, Failed} && end.flowId == start.flowId && start.flowId !in s.active
    requires AuditKey(start.flowId, Seconds(start.timestamp)) !in s.audit
    requires AuditKey(end.flowId, Seconds(end.timestamp)) !in s.audit
    ensures var t := Run(s, user, [Lifecycle(start), Lifecycle(end)]);
            var row := Lookup(t.audit, AuditKey(end.flowId, Seconds(end.timestamp)));
            && start.flowId !in t.active
            && row.Some?
            && (row.value.status == end.status <==> Seconds(end.timestamp) != Seconds(start.timestamp))
  {
    var steps := [Lifecycle(start), Lifecycle(end)];
    assert Front(steps) == [Lifecycle(start)] && Front([Lifecycle(start)]) == [];
    var begun := Registered(s, start.flowId, NewRow(user, start));
    assert Run(s, user, []) == s;
    assert Run(s, user, [Lifecycle(start)]) == begun;
    assert Run(s, user, steps) == Terminated(begun, end.flowId, end.status, Seconds(end.timestamp));
  }
}

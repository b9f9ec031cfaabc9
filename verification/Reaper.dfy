/**
 The reaper's timing. A pass asks for the flows whose last activity is older than the
 grace period and terminates each of them; here a pass is placed in a run with other
 steps between passes.
 */
module Reaper {
  import opened Rfc3339
  import opened TimeUnits
  import opened Payload
  import opened Ledger
  import opened Registry

  predicate InRange(now: int, grace: int) {
    0 <= now < HORIZON_DAYS * DAY_SECONDS * SECOND && 0 <= now - grace < HORIZON_DAYS * DAY_SECONDS * SECOND
  }

  function Cutoff(now: Instant, grace: int): Stamp
    requires InRange(now, grace)
  {
    Seconds(now - grace)
  }

  /** The audit table with a failed row at `at` for each flow of `dead`, unless its key is in use. */
  function ReapedAudit(s: Store, dead: set<FlowId>, at: Stamp): map<AuditKey, AuditRow>
    requires dead <= s.active.Keys
  {
    map k | k in s.audit.Keys + (set f | f in dead :: AuditKey(f, at)) ::
      if k in s.audit then s.audit[k] else AuditOf(s.active[k.flowId], Failed)
  }

  /** All flows of `dead` terminated as failed at `at`, in whatever order. */
  function Reaped(s: Store, dead: set<FlowId>, at: Stamp): Store
    requires dead <= s.active.Keys
  {
    s.(active := s.active - dead, audit := ReapedAudit(s, dead, at))
  }

  lemma ActiveOneMore(active: map<FlowId, FlowRow>, dead: set<FlowId>, f: FlowId)
    ensures active - dead - {f} == active - (dead + {f})
  {
  }

  lemma AuditOneMore(s: Store, dead: set<FlowId>, f: FlowId, at: Stamp)
    requires dead <= s.active.Keys && f in s.active && f !in dead
    ensures InsertOrIgnore(ReapedAudit(s, dead, at), AuditKey(f, at), AuditOf(s.active[f], Failed))
         == ReapedAudit(s, dead + {f}, at)
  {
    assert (set g | g in dead + {f} :: AuditKey(g, at)) == (set g | g in dead :: AuditKey(g, at)) + {AuditKey(f, at)};
  }

  lemma ReapedOneMore(s: Store, dead: set<FlowId>, f: FlowId, at: Stamp)
    requires dead <= s.active.Keys && f in s.active && f !in dead
    ensures Terminated(Reaped(s, dead, at), f, Failed, at) == Reaped(s, dead + {f}, at)
  {
    ActiveOneMore(s.active, dead, f);
    AuditOneMore(s, dead, f, at);
  }

  lemma ReapedNone(s: Store, at: Stamp)
    ensures Reaped(s, {}, at) == s
  {
    assert s.active - {} == s.active;
  }

  /******* When a flow is selected *******/

  /** Selected means last active strictly before `now - grace`; not selected, after `now - grace - 1s`. */
  lemma SelectionBounds(row: FlowRow, last: Instant, now: Instant, grace: int)
    requires InRange(now, grace) && row.lastActivity == Seconds(last)
    ensures Stale(row, Cutoff(now, grace)) ==> last < now - grace
    ensures !Stale(row, Cutoff(now, grace)) ==> last > now - grace - SECOND
  {
  }

  datatype Timed = Pass(at: Instant, stamped: Instant) | Do(step: Step)

  ghost predicate PassesInRange(steps: seq<Timed>, grace: int) {
    forall i | 0 <= i < |steps| && steps[i].Pass? :: InRange(steps[i].at, grace)
  }

  ghost function NextTimed(s: Store, user: string, grace: int, step: Timed): Store
    requires step.Pass? ==> InRange(step.at, grace)
  {
    match step
    case Pass(at, stamped) => Reaped(s, StaleRows(s.active, Cutoff(at, grace)).Keys, Seconds(stamped))
    case Do(x) => Next(s, user, x)
  }

  ghost function RunTimed(s: Store, user: string, grace: int, steps: seq<Timed>): Store
    requires PassesInRange(steps, grace)
  {
    if steps == [] then s
    else NextTimed(RunTimed(s, user, grace, Front(steps)), user, grace, Last(steps))
  }

  /** No step other than a pass is about `f`. */
  ghost predicate Untouched(steps: seq<Timed>, f: FlowId) {
    forall i | 0 <= i < |steps| && steps[i].Do? :: !Names(steps[i].step, f)
  }

  ghost predicate Selects(step: Timed, grace: int, last: Stamp) {
    step.Pass? && InRange(step.at, grace) && last < Cutoff(step.at, grace)
  }

  ghost predicate SomeSelects(steps: seq<Timed>, grace: int, last: Stamp) {
    exists i :: 0 <= i < |steps| && Selects(steps[i], grace, last)
  }

  lemma SomeSelectsStep(steps: seq<Timed>, grace: int, last: Stamp)
    requires steps != []
    ensures SomeSelects(steps, grace, last) <==> SomeSelects(Front(steps), grace, last) || Selects(Last(steps), grace, last)
  {
    assert forall i | 0 <= i < |steps| - 1 :: Front(steps)[i] == steps[i];
  }

  /** An untouched flow keeps its row until the first pass that selects it, and is gone from then on. */
  lemma {:induction false} UntouchedUntilSelected(s: Store, user: string, grace: int, steps: seq<Timed>, f: FlowId)
    requires PassesInRange(steps, grace) && Untouched(steps, f) && f in s.active
    ensures Lookup(RunTimed(s, user, grace, steps).active, f) ==
            if SomeSelects(steps, grace, s.active[f].lastActivity) then None else Some(s.active[f])
  {
    if steps == [] {
    } else {
      var front := Front(steps);
      assert forall i | 0 <= i < |front| :: front[i] == steps[i];
      UntouchedUntilSelected(s, user, grace, front, f);
      SomeSelectsStep(steps, grace, s.active[f].lastActivity);
      UntouchedStep(RunTimed(s, user, grace, front), user, grace, Last(steps), f);
    }
  }

  lemma UntouchedStep(s: Store, user: string, grace: int, step: Timed, f: FlowId)
    requires step.Pass? ==> InRange(step.at, grace)
    requires step.Do? ==> !Names(step.step, f)
    ensures Lookup(NextTimed(s, user, grace, step).active, f) ==
            if f in s.active && Selects(step, grace, s.active[f].lastActivity) then None else Lookup(s.active, f)
  {
    if step.Do? {
      UnnamedStep(s, user, step.step, f);
    }
  }

  /** `ticks` are positions of passes in `steps`, each at most `interval` after the one before. */
  ghost predicate TicksEvery(steps: seq<Timed>, ticks: seq<nat>, interval: int) {
    && (forall k | 0 <= k < |ticks| :: ticks[k] < |steps| && steps[ticks[k]].Pass?)
    && (forall k | 0 <= k < |ticks| - 1 :: steps[ticks[k + 1]].at - steps[ticks[k]].at <= interval)
  }

  /**
   A flow left alone since `last` is terminated no later than grace + interval + 1s
   after it, and never while it is within its grace period.
   */
  lemma {:induction false} TerminatedInTime(
    s: Store, user: string, grace: int, interval: int, steps: seq<Timed>, f: FlowId, last: Instant, ticks: seq<nat>)
    returns (k: nat)
    requires PassesInRange(steps, grace) && Untouched(steps, f)
    requires f in s.active && s.active[f].lastActivity == Seconds(last)
    requires TicksEvery(steps, ticks, interval) && |ticks| > 0
    requires steps[ticks[0]].at <= last + grace + interval + SECOND
    requires last + grace + SECOND <= steps[ticks[|ticks| - 1]].at
    ensures k < |ticks| && last + grace < steps[ticks[k]].at <= last + grace + interval + SECOND
    ensures f !in RunTimed(s, user, grace, steps[..ticks[k] + 1]).active
    ensures forall n | 0 <= n <= |steps| && f !in RunTimed(s, user, grace, steps[..n]).active ::
              exists i :: 0 <= i < n && steps[i].Pass? && last < steps[i].at - grace
  {
    k := 0;
    while steps[ticks[k]].at < last + grace + SECOND
      invariant k < |ticks| && steps[ticks[k]].at <= last + grace + interval + SECOND
      decreases |ticks| - k
    {
      k := k + 1;
    }
    var n := ticks[k] + 1;
    assert steps[..n][ticks[k]] == steps[ticks[k]];
    assert Selects(steps[..n][ticks[k]], grace, Seconds(last));
    UntouchedUntilSelected(s, user, grace, steps[..n], f);
    forall n | 0 <= n <= |steps| && f !in RunTimed(s, user, grace, steps[..n]).active
      ensures exists i :: 0 <= i < n && steps[i].Pass? && last < steps[i].at - grace
    {
      UntouchedUntilSelected(s, user, grace, steps[..n], f);
      var i :| 0 <= i < n && Selects(steps[..n][i], grace, Seconds(last));
      assert steps[..n][i] == steps[i];
    }
  }
}

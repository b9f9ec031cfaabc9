/**
 A reaping pass as the code runs it: one query, and then one transaction for each flow it
 listed. Any other step may come between them. One pass ends before the next begins.
 */
module ReaperSteps {
  import opened Rfc3339
  import opened Payload
  import opened Ledger
  import opened Registry
  import opened Reaper

  datatype Move = Query(at: Instant) | Finish(flowId: FlowId, stamped: Instant) | Other(step: Step)

  /** The tables, and the listed flows that are still to be terminated. */
  datatype Reaping = Reaping(store: Store, listed: set<FlowId>)

  ghost predicate InRangeMove(move: Move, grace: int) {
    move.Query? ==> InRange(move.at, grace)
  }

  ghost predicate QueriesInRange(moves: seq<Move>, grace: int) {
    forall i | 0 <= i < |moves| :: InRangeMove(moves[i], grace)
  }

  ghost function NextMove(r: Reaping, user: string, grace: int, move: Move): Reaping
    requires InRangeMove(move, grace)
  {
    match move
    case Query(at) =>
      if r.listed == {} then r.(listed := StaleRows(r.store.active, Cutoff(at, grace)).Keys) else r
    case Finish(f, stamped) =>
      if f in r.listed then Reaping(Terminated(r.store, f, Failed, Seconds(stamped)), r.listed - {f}) else r
    case Other(step) => r.(store := Next(r.store, user, step))
  }

  ghost function RunMoves(r: Reaping, user: string, grace: int, moves: seq<Move>): Reaping
    requires QueriesInRange(moves, grace)
  {
    if moves == [] then r
    else
      assert InRangeMove(Last(moves), grace);
      NextMove(RunMoves(r, user, grace, Front(moves)), user, grace, Last(moves))
  }

  lemma PrefixInRange(moves: seq<Move>, grace: int, n: nat)
    requires n <= |moves| && QueriesInRange(moves, grace)
    ensures QueriesInRange(moves[..n], grace)
  {
  }

  /******* An uninterrupted pass *******/

  function Finishes(ids: seq<FlowId>, stamped: Instant): (moves: seq<Move>)
    ensures |moves| == |ids| && forall i | 0 <= i < |ids| :: moves[i] == Finish(ids[i], stamped)
  {
    seq(|ids|, i requires 0 <= i < |ids| => Finish(ids[i], stamped))
  }

  ghost predicate NoRepeats(ids: seq<FlowId>) {
    forall i, j | 0 <= i < j < |ids| :: ids[i] != ids[j]
  }

  function Elements(ids: seq<FlowId>): set<FlowId> {
    set f | f in ids
  }

  /** The pass after it has terminated `dead`. */
  ghost function Midway(s: Store, listed: set<FlowId>, dead: set<FlowId>, at: Stamp): Reaping
    requires dead <= s.active.Keys
  {
    Reaping(Reaped(s, dead, at), listed - dead)
  }

  lemma MidwayNone(s: Store, listed: set<FlowId>, at: Stamp)
    ensures Midway(s, listed, Elements([]), at) == Reaping(s, listed)
  {
    assert Elements([]) == {};
    ReapedNone(s, at);
  }

  lemma OneMoreFinished(s: Store, user: string, grace: int, listed: set<FlowId>, dead: set<FlowId>, f: FlowId, stamped: Instant)
    requires dead <= listed <= s.active.Keys && f in listed && f !in dead
    ensures NextMove(Midway(s, listed, dead, Seconds(stamped)), user, grace, Finish(f, stamped))
         == Midway(s, listed, dead + {f}, Seconds(stamped))
  {
    ReapedOneMore(s, dead, f, Seconds(stamped));
    assert listed - dead - {f} == listed - (dead + {f});
  }

  lemma OneMoreElement(front: seq<FlowId>, last: FlowId, stamped: Instant)
    ensures Elements(front + [last]) == Elements(front) + {last}
    ensures Finishes(front + [last], stamped) == Finishes(front, stamped) + [Finish(last, stamped)]
  {
  }

  lemma RunOneMore(r: Reaping, user: string, grace: int, moves: seq<Move>, move: Move)
    requires QueriesInRange(moves, grace) && InRangeMove(move, grace)
    ensures QueriesInRange(moves + [move], grace)
    ensures RunMoves(r, user, grace, moves + [move]) == NextMove(RunMoves(r, user, grace, moves), user, grace, move)
  {
    assert Front(moves + [move]) == moves;
  }

  lemma {:induction false} FinishedEach(s: Store, user: string, grace: int, listed: set<FlowId>, ids: seq<FlowId>, stamped: Instant)
    requires listed <= s.active.Keys && Elements(ids) <= listed && NoRepeats(ids)
    ensures QueriesInRange(Finishes(ids, stamped), grace)
    ensures RunMoves(Reaping(s, listed), user, grace, Finishes(ids, stamped)) == Midway(s, listed, Elements(ids), Seconds(stamped))
  {
    if ids == [] {
      MidwayNone(s, listed, Seconds(stamped));
    } else {
      var front, last := ids[..|ids| - 1], ids[|ids| - 1];
      assert ids == front + [last];
      OneMoreElement(front, last, stamped);
      FinishedEach(s, user, grace, listed, front, stamped);
      OneMoreFinished(s, user, grace, listed, Elements(front), last, stamped);
      RunOneMore(Reaping(s, listed), user, grace, Finishes(front, stamped), Finish(last, stamped));
    }
  }

  /** With nothing in between, query and terminations are the one-step pass, in whatever order. */
  lemma UninterruptedPass(s: Store, user: string, grace: int, at: Instant, ids: seq<FlowId>, stamped: Instant)
    requires InRange(at, grace) && NoRepeats(ids) && Elements(ids) == StaleRows(s.active, Cutoff(at, grace)).Keys
    ensures QueriesInRange(Finishes(ids, stamped), grace)
    ensures RunMoves(NextMove(Reaping(s, {}), user, grace, Query(at)), user, grace, Finishes(ids, stamped))
         == Reaping(NextTimed(s, user, grace, Pass(at, stamped)), {})
  {
    var listed := StaleRows(s.active, Cutoff(at, grace)).Keys;
    FinishedEach(s, user, grace, listed, ids, stamped);
    assert listed - Elements(ids) == {};
  }

  /******* Steps in between *******/

  /** Query `i` of the run listed `f`: it was stale as of that query. */
  ghost predicate ListedBy(r: Reaping, user: string, grace: int, moves: seq<Move>, f: FlowId, i: int)
    requires QueriesInRange(moves, grace)
  {
    && 0 <= i < |moves| && moves[i].Query? && InRange(moves[i].at, grace)
    && (PrefixInRange(moves, grace, i);
        var before := RunMoves(r, user, grace, moves[..i]);
        before.listed == {} && f in before.store.active && Stale(before.store.active[f], Cutoff(moves[i].at, grace)))
  }

  /** A flow that is to be terminated was stale as of an earlier query, whatever happened since. */
  lemma {:induction false} ListedWasStale(r: Reaping, user: string, grace: int, moves: seq<Move>, f: FlowId)
    requires QueriesInRange(moves, grace) && r.listed == {} && f in RunMoves(r, user, grace, moves).listed
    ensures exists i :: ListedBy(r, user, grace, moves, f, i)
  {
    var n := |moves| - 1;
    var front := Front(moves);
    if f in RunMoves(r, user, grace, front).listed {
      ListedWasStale(r, user, grace, front, f);
      var i :| ListedBy(r, user, grace, front, f, i);
      assert front[..i] == moves[..i] && front[i] == moves[i];
      assert ListedBy(r, user, grace, moves, f, i);
    } else {
      assert moves[..n] == front;
      assert InRangeMove(moves[n], grace);
      assert ListedBy(r, user, grace, moves, f, n);
    }
  }

  ghost predicate NotFinished(moves: seq<Move>, f: FlowId) {
    forall i | 0 <= i < |moves| :: !(moves[i].Finish? && moves[i].flowId == f)
  }

  lemma {:induction false} StaysListed(r: Reaping, user: string, grace: int, moves: seq<Move>, f: FlowId)
    requires QueriesInRange(moves, grace) && f in r.listed && NotFinished(moves, f)
    ensures f in RunMoves(r, user, grace, moves).listed
  {
    if moves == [] {
    } else {
      assert forall i | 0 <= i < |moves| - 1 :: Front(moves)[i] == moves[i];
      StaysListed(r, user, grace, Front(moves), f);
    }
  }

  /** A listed flow is terminated whatever comes in between, an activity update included. */
  lemma NothingSavesListed(r: Reaping, user: string, grace: int, between: seq<Move>, f: FlowId, stamped: Instant)
    requires QueriesInRange(between, grace) && f in r.listed && NotFinished(between, f)
    ensures var t := RunMoves(r, user, grace, between);
            && f !in NextMove(t, user, grace, Finish(f, stamped)).store.active
            && AuditKey(f, Seconds(stamped)) in NextMove(t, user, grace, Finish(f, stamped)).store.audit
  {
    StaysListed(r, user, grace, between, f);
  }

  /** An update right after the query makes the row fresh, and the flow ends all the same. */
  lemma TouchedTooLate(s: Store, user: string, grace: int, at: Instant, f: FlowId, touched: Instant, stamped: Instant)
    requires InRange(at, grace) && f in s.active && Stale(s.active[f], Cutoff(at, grace)) && touched >= at && grace >= 0
    ensures var listed := NextMove(Reaping(s, {}), user, grace, Query(at));
            var t := NextMove(listed, user, grace, Other(UpdateActivity(f, touched)));
            && f in t.store.active && !Stale(t.store.active[f], Cutoff(at, grace))
            && f !in NextMove(t, user, grace, Finish(f, stamped)).store.active
  {
  }

  ghost predicate NeverActivated(moves: seq<Move>, f: FlowId) {
    forall i | 0 <= i < |moves| && moves[i].Other? :: !Activates(moves[i].step, f)
  }

  lemma OtherKeepsEnded(s: Store, user: string, step: Step, f: FlowId)
    requires f !in s.active && !Activates(step, f)
    ensures f !in Next(s, user, step).active
  {
    Membership(s, user, step, f);
  }

  /** By the time the next pass can begin, a flow listed by this one and not registered anew is gone. */
  lemma {:induction false} GoneByNextPass(r: Reaping, user: string, grace: int, moves: seq<Move>, f: FlowId)
    requires QueriesInRange(moves, grace) && f in r.listed && NeverActivated(moves, f)
    ensures var t := RunMoves(r, user, grace, moves);
            (f in t.listed || f !in t.store.active) && (t.listed == {} ==> f !in t.store.active)
  {
    if moves == [] {
    } else {
      assert forall i | 0 <= i < |moves| - 1 :: Front(moves)[i] == moves[i];
      GoneByNextPass(r, user, grace, Front(moves), f);
      if Last(moves).Other? && f !in RunMoves(r, user, grace, Front(moves)).store.active {
        OtherKeepsEnded(RunMoves(r, user, grace, Front(moves)).store, user, Last(moves).step, f);
      }
    }
  }
}

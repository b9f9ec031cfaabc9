/**
 The ledger opens a pool of connections and turns foreign keys on for one of them. A step
 here says whether the connection it got enforces them; on another one a response is
 stored whether or not its request is.
 */
module ForeignKeys {
  import opened Rfc3339
  import opened Payload
  import opened Ledger
  import opened Registry
  import opened Replay

  datatype Placed = Placed(step: Step, enforced: bool)

  function NextOn(s: Store, user: string, p: Placed): Store {
    if p.step.Response? then WithResponseOn(s, p.step.response, p.enforced) else Next(s, user, p.step)
  }

  function RunOn(s: Store, user: string, ps: seq<Placed>): Store {
    if ps == [] then s else NextOn(RunOn(s, user, Front(ps)), user, Last(ps))
  }

  ghost predicate AllEnforced(ps: seq<Placed>) {
    forall i | 0 <= i < |ps| :: ps[i].enforced
  }

  function StepsOn(ps: seq<Placed>): (steps: seq<Step>)
    ensures |steps| == |ps| && forall i | 0 <= i < |ps| :: steps[i] == ps[i].step
  {
    seq(|ps|, i requires 0 <= i < |ps| => ps[i].step)
  }

  /** With every connection enforcing, this is the registry's run. */
  lemma {:induction false} EnforcedRun(s: Store, user: string, ps: seq<Placed>)
    requires AllEnforced(ps)
    ensures RunOn(s, user, ps) == Run(s, user, StepsOn(ps))
  {
    if ps == [] {
    } else {
      assert forall i | 0 <= i < |Front(ps)| :: Front(ps)[i] == ps[i];
      EnforcedRun(s, user, Front(ps));
      assert Front(StepsOn(ps)) == StepsOn(Front(ps));
    }
  }

  ghost predicate AskedWithin(ps: seq<Placed>, n: int, q: RequestId)
    requires n <= |ps|
  {
    exists i :: 0 <= i < n && Asks(ps[i].step, q)
  }

  /** Step `j` stores a response to `q` if none is stored yet. */
  ghost predicate Brings(ps: seq<Placed>, q: RequestId, j: int) {
    0 <= j < |ps| && Answers(ps[j].step, q) && (!ps[j].enforced || AskedWithin(ps, j, q))
  }

  lemma AskOn(s: Store, user: string, p: Placed, q: RequestId)
    ensures q in NextOn(s, user, p).requests <==> q in s.requests || Asks(p.step, q)
  {
    AskStep(s, user, p.step, q);
  }

  lemma AnswerOn(s: Store, user: string, p: Placed, q: RequestId)
    ensures q in NextOn(s, user, p).responses <==>
            q in s.responses || (Answers(p.step, q) && (!p.enforced || q in s.requests))
  {
    AnswerStep(s, user, p.step, q);
  }

  lemma {:induction false} RequestsOn(user: string, ps: seq<Placed>, q: RequestId)
    ensures q in RunOn(EMPTY, user, ps).requests <==> AskedWithin(ps, |ps|, q)
  {
    if ps == [] {
    } else {
      var front, last := Front(ps), |ps| - 1;
      RequestsOn(user, front, q);
      AskOn(RunOn(EMPTY, user, front), user, ps[last], q);
      assert forall k | 0 <= k < last :: front[k] == ps[k];
    }
  }

  lemma FrontBrings(ps: seq<Placed>, q: RequestId, j: int)
    requires ps != []
    ensures Brings(Front(ps), q, j) <==> j < |ps| - 1 && Brings(ps, q, j)
  {
    assert forall k | 0 <= k < |ps| - 1 :: Front(ps)[k] == ps[k];
  }

  lemma {:induction false} ResponsesOn(user: string, ps: seq<Placed>, q: RequestId)
    ensures q in RunOn(EMPTY, user, ps).responses <==> exists j :: Brings(ps, q, j)
  {
    if ps == [] {
    } else {
      var front, last := Front(ps), |ps| - 1;
      ResponsesOn(user, front, q);
      RequestsOn(user, front, q);
      AnswerOn(RunOn(EMPTY, user, front), user, ps[last], q);
      assert forall k | 0 <= k < last :: front[k] == ps[k];
      assert AskedWithin(front, last, q) <==> AskedWithin(ps, last, q);
      assert Brings(ps, q, last) <==> Answers(ps[last].step, q) && (!ps[last].enforced || AskedWithin(ps, last, q));
      forall j ensures Brings(front, q, j) <==> j < last && Brings(ps, q, j) {
        FrontBrings(ps, q, j);
      }
    }
  }

  /** The stored response has the fields of the first that was brought. */
  lemma {:induction false} ResponseRowOn(user: string, ps: seq<Placed>, q: RequestId, j: int)
    requires Brings(ps, q, j) && forall k | 0 <= k < j :: !Brings(ps, q, k)
    ensures q in RunOn(EMPTY, user, ps).responses
    ensures var row, r := RunOn(EMPTY, user, ps).responses[q], ps[j].step.response;
            row.accepted == r.accepted && row.action == r.action && row.text == r.text && row.at == Seconds(r.timestamp)
  {
    var front, last := Front(ps), |ps| - 1;
    var before := RunOn(EMPTY, user, front);
    ResponsesOn(user, front, q);
    RequestsOn(user, front, q);
    forall k ensures Brings(front, q, k) <==> k < last && Brings(ps, q, k) {
      FrontBrings(ps, q, k);
    }
    if j < last {
      ResponseRowOn(user, front, q, j);
      StoredStays(before, user, ps[last], q);
    } else {
      assert q !in before.responses;
      assert AskedWithin(ps, last, q) ==> AskedWithin(front, last, q) by {
        assert forall k | 0 <= k < last :: front[k] == ps[k];
      }
    }
  }

  lemma StoredStays(s: Store, user: string, p: Placed, q: RequestId)
    requires q in s.responses
    ensures q in NextOn(s, user, p).responses && NextOn(s, user, p).responses[q] == s.responses[q]
  {
    if !p.step.Response? {
      NextGrows(s, user, p.step);
    }
  }

  /** The response of step `j` went around the check, and its request never came. */
  ghost predicate Orphans(ps: seq<Placed>, j: int) {
    && 0 <= j < |ps| && ps[j].step.Response? && !ps[j].enforced
    && !AskedWithin(ps, |ps|, ps[j].step.response.requestId)
  }

  /**
   After any run every stored response has its request exactly when every response that
   was stored without the check got a storable request, before or after it.
   */
  lemma IntegrityExactly(user: string, ps: seq<Placed>)
    ensures var t := RunOn(EMPTY, user, ps);
            t.responses.Keys <= t.requests.Keys <==> forall j :: !Orphans(ps, j)
  {
    var t := RunOn(EMPTY, user, ps);
    forall q ensures q in t.requests <==> AskedWithin(ps, |ps|, q)
             ensures q in t.responses <==> exists j :: Brings(ps, q, j)
    {
      RequestsOn(user, ps, q);
      ResponsesOn(user, ps, q);
    }
    forall j | Orphans(ps, j)
      ensures ps[j].step.response.requestId in t.responses && ps[j].step.response.requestId !in t.requests
    {
      assert Brings(ps, ps[j].step.response.requestId, j);
    }
    forall q | q in t.responses && q !in t.requests
      ensures exists j :: Orphans(ps, j)
    {
      var j :| Brings(ps, q, j);
      assert Orphans(ps, j);
    }
  }
}

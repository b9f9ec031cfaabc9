/**
 Debouncing interjections: a command is processed unless the same flow and action was
 processed less than a window ago. Times are readings of the monotonic clock.
 */
module Debounce {

  function Key(flowId: string, action: string): string {
    flowId + ":" + action
  }

  predicate Allowed(times: map<string, int>, key: string, now: int, window: int) {
    !(key in times && now - times[key] < window)
  }

  class DebounceMap {
    var times: map<string, int>

    constructor ()
      ensures times == map[]
    {
      times := map[];
    }

    /** Only an accepted command moves its time on. */
    method Check(flowId: string, action: string, now: int, window: int) returns (ok: bool)
      modifies this
      ensures ok == Allowed(old(times), Key(flowId, action), now, window)
      ensures times == After(old(times), Call(flowId, action, now), window)
    {
      var key := Key(flowId, action);
      if key in times && now - times[key] < window {
        return false;
      }
      times := times[key := now];
      ok := true;
    }
  }

  /******* Runs of calls *******/

  datatype Call = Call(flowId: string, action: string, now: int)

  function KeyOf(c: Call): string {
    Key(c.flowId, c.action)
  }

  function After(times: map<string, int>, c: Call, window: int): map<string, int> {
    if Allowed(times, KeyOf(c), c.now, window) then times[KeyOf(c) := c.now] else times
  }

  function Times(calls: seq<Call>, window: int): map<string, int> {
    if calls == [] then map[] else After(Times(calls[..|calls| - 1], window), calls[|calls| - 1], window)
  }

  predicate Accepted(calls: seq<Call>, window: int, i: int)
    requires 0 <= i < |calls|
  {
    Allowed(Times(calls[..i], window), KeyOf(calls[i]), calls[i].now, window)
  }

  ghost predicate ClockForward(calls: seq<Call>) {
    forall i, j | 0 <= i <= j < |calls| :: calls[i].now <= calls[j].now
  }

  /** Call `i` is the last accepted one with this key among the first `n`. */
  ghost predicate LastAccepted(calls: seq<Call>, window: int, key: string, n: int, i: int) {
    && 0 <= i < n <= |calls| && KeyOf(calls[i]) == key && Accepted(calls, window, i)
    && forall k | i < k < n && KeyOf(calls[k]) == key :: !Accepted(calls, window, k)
  }

  lemma TimesStep(calls: seq<Call>, window: int, i: nat)
    requires i < |calls|
    ensures Times(calls[..i + 1], window) ==
            if Accepted(calls, window, i) then Times(calls[..i], window)[KeyOf(calls[i]) := calls[i].now]
            else Times(calls[..i], window)
  {
    assert calls[..i + 1][..i] == calls[..i];
  }

  /** The map remembers, for each key, the last accepted call with it. */
  lemma {:induction false} MapRemembers(calls: seq<Call>, window: int, key: string, n: nat)
    requires n <= |calls|
    ensures key in Times(calls[..n], window) ==>
              exists i :: LastAccepted(calls, window, key, n, i) && Times(calls[..n], window)[key] == calls[i].now
    ensures key !in Times(calls[..n], window) ==>
              forall i | 0 <= i < n && KeyOf(calls[i]) == key :: !Accepted(calls, window, i)
  {
    if n == 0 {
    } else {
      var last := n - 1;
      MapRemembers(calls, window, key, last);
      TimesStep(calls, window, last);
      if KeyOf(calls[last]) == key && Accepted(calls, window, last) {
        assert LastAccepted(calls, window, key, n, last);
      } else if key in Times(calls[..n], window) {
        var i :| LastAccepted(calls, window, key, last, i) && Times(calls[..last], window)[key] == calls[i].now;
        assert LastAccepted(calls, window, key, n, i);
      }
    }
  }

  /** Accepted commands for one flow and action are at least a window apart. */
  lemma AcceptedAreSpaced(calls: seq<Call>, window: int, i: nat, j: nat)
    requires ClockForward(calls) && i < j < |calls| && KeyOf(calls[i]) == KeyOf(calls[j])
    requires Accepted(calls, window, i) && Accepted(calls, window, j)
    ensures calls[j].now - calls[i].now >= window
  {
    var key := KeyOf(calls[j]);
    MapRemembers(calls, window, key, j);
    var last :| LastAccepted(calls, window, key, j, last) && Times(calls[..j], window)[key] == calls[last].now;
    assert i <= last;
  }

  /** A dropped command lies less than a window after an accepted one with its key. */
  lemma DroppedIsNearAccepted(calls: seq<Call>, window: int, j: nat) returns (i: nat)
    requires j < |calls| && !Accepted(calls, window, j)
    ensures i < j && KeyOf(calls[i]) == KeyOf(calls[j]) && Accepted(calls, window, i)
    ensures calls[j].now - calls[i].now < window
  {
    var key := KeyOf(calls[j]);
    MapRemembers(calls, window, key, j);
    i :| LastAccepted(calls, window, key, j, i) && Times(calls[..j], window)[key] == calls[i].now;
  }

  /** `picks` are positions, in order, of accepted calls with one key. */
  ghost predicate AcceptedPicks(calls: seq<Call>, window: int, key: string, picks: seq<nat>) {
    && (forall n | 0 <= n < |picks| :: picks[n] < |calls| && KeyOf(calls[picks[n]]) == key && Accepted(calls, window, picks[n]))
    && (forall n | 0 <= n < |picks| - 1 :: picks[n] < picks[n + 1])
  }

  lemma {:induction false} PicksSpread(calls: seq<Call>, window: int, key: string, picks: seq<nat>)
    requires ClockForward(calls) && AcceptedPicks(calls, window, key, picks) && |picks| > 0
    ensures calls[picks[|picks| - 1]].now - calls[picks[0]].now >= (|picks| - 1) * window
  {
    if |picks| > 1 {
      var front := picks[..|picks| - 1];
      PicksSpread(calls, window, key, front);
      AcceptedAreSpaced(calls, window, picks[|picks| - 2], picks[|picks| - 1]);
      assert (|picks| - 1) * window == (|front| - 1) * window + window;
    }
  }

  lemma QuotientBound(k: nat, span: nat, window: nat)
    requires window > 0 && k * window <= span
    ensures k <= span / window
  {
    var over := k - span / window - 1;
    assert over * window == k * window - span / window * window - window;
    assert over >= 0 ==> over * window >= 0;
  }

  /** Within any span at most floor(span / window) + 1 commands of one flow and action are accepted. */
  lemma AcceptedInSpan(calls: seq<Call>, window: nat, key: string, picks: seq<nat>, start: int, span: nat)
    requires ClockForward(calls) && window > 0 && AcceptedPicks(calls, window, key, picks)
    requires forall n | 0 <= n < |picks| :: start <= calls[picks[n]].now <= start + span
    ensures |picks| <= span / window + 1
  {
    if |picks| > 0 {
      PicksSpread(calls, window, key, picks);
      QuotientBound(|picks| - 1, span, window);
    }
  }

  /******* Keys *******/

  /** `longer` ends in a colon and `shorter`. */
  predicate Extends(longer: string, shorter: string) {
    && |longer| > |shorter|
    && longer[|longer| - |shorter|..] == shorter
    && longer[|longer| - |shorter| - 1] == ':'
  }

  lemma LongerExtends(f: string, a: string, g: string, b: string)
    requires Key(f, a) == Key(g, b) && |a| > |b|
    ensures Extends(a, b)
  {
    var k, at := Key(f, a), |f| + 1;
    assert k[at..] == a;
    assert k == Key(g, b) && k[|k| - |b|..] == b && k[|k| - |b| - 1] == ':';
    assert a[|a| - |b|..] == k[at..][|a| - |b|..] == k[|k| - |b|..];
  }

  lemma ExtensionShares(a: string, b: string)
    requires Extends(a, b)
    ensures Key("", a) == Key(":" + a[..|a| - |b| - 1], b)
  {
    var head := a[..|a| - |b| - 1];
    assert a == head + ":" + b;
  }

  lemma SameAction(f: string, a: string, g: string, b: string)
    requires Key(f, a) == Key(g, b) && |a| == |b|
    ensures f == g && a == b
  {
    var k := Key(f, a);
    assert k[..|f|] == f && k[|f| + 1..] == a;
    assert Key(g, b)[..|g|] == g && Key(g, b)[|g| + 1..] == b;
  }

  /** Different pairs with these two actions share a key, for some flows, exactly when one action extends the other. */
  lemma KeysShared(a: string, b: string)
    ensures (exists f, g :: (f != g || a != b) && Key(f, a) == Key(g, b)) <==> Extends(a, b) || Extends(b, a)
  {
    forall f, g | (f != g || a != b) && Key(f, a) == Key(g, b)
      ensures Extends(a, b) || Extends(b, a)
    {
      if |a| > |b| {
        LongerExtends(f, a, g, b);
      } else if |b| > |a| {
        LongerExtends(g, b, f, a);
      } else {
        SameAction(f, a, g, b);
      }
    }
    if Extends(a, b) {
      ExtensionShares(a, b);
    } else if Extends(b, a) {
      ExtensionShares(b, a);
    }
  }

  /** So keys of different pairs differ as long as neither action holds a colon, as the known actions do not. */
  lemma KeysDistinct(flowId: string, action: string, otherFlow: string, otherAction: string)
    requires ':' !in action && ':' !in otherAction
    ensures Key(flowId, action) == Key(otherFlow, otherAction) <==> flowId == otherFlow && action == otherAction
  {
    KeysShared(action, otherAction);
  }
}

/**
 The unified timeline: filtered requests, each joined to its response, merged with
 filtered lifecycle rows, newest first, one page of it.
 */
module History {
  import opened Rfc3339
  import opened TimeUnits
  import opened Payload
  import opened Ledger

  const DEFAULT_HISTORY_LIMIT := 50

  datatype HistoryQuery = HistoryQuery(
    workspaceId: WorkspaceId,
    flowId: FlowId,
    since: Option<Instant>,
    until: Option<Instant>,
    limit: int,
    offset: int
  )

  datatype HistoryRecord =
    | NotificationRecord(id: RequestId, request: RequestRow, response: Option<ResponseRow>)
    | LifecycleRecord(key: AuditKey, event: AuditRow)

  function RecordTimestamp(r: HistoryRecord): Stamp {
    match r
    case NotificationRecord(_, row, _) => row.at
    case LifecycleRecord(key, _) => key.at
  }

  /** The filter, in times: an absent bound does not filter, both bounds are inclusive. */
  predicate Selected(q: HistoryQuery, workspaceId: WorkspaceId, flowId: FlowId, at: Stamp) {
    && (q.workspaceId == "" || workspaceId == q.workspaceId)
    && (q.flowId == "" || flowId == q.flowId)
    && (q.since.Some? ==> Seconds(q.since.value) <= at)
    && (q.until.Some? ==> at <= Seconds(q.until.value))
  }

  predicate SelectedRequest(s: Store, q: HistoryQuery, id: RequestId)
    requires id in s.requests
  {
    var row := s.requests[id];
    Selected(q, row.request.workspaceId, row.request.flowId, row.at)
  }

  predicate SelectedEvent(s: Store, q: HistoryQuery, key: AuditKey)
    requires key in s.audit
  {
    Selected(q, s.audit[key].workspaceId, key.flowId, key.at)
  }

  /** `r` is a row of the ledger that passes the filter, a request with its stored response. */
  predicate Chosen(s: Store, q: HistoryQuery, r: HistoryRecord) {
    match r
    case NotificationRecord(id, row, response) =>
      id in s.requests && row == s.requests[id] && response == Lookup(s.responses, id) && SelectedRequest(s, q, id)
    case LifecycleRecord(key, event) =>
      key in s.audit && event == s.audit[key] && SelectedEvent(s, q, key)
  }

  /** When a request or an event at instant `t` passes: bounds name their whole second, both included. */
  lemma SelectedExactly(q: HistoryQuery, workspaceId: WorkspaceId, flowId: FlowId, t: Instant)
    ensures Selected(q, workspaceId, flowId, Seconds(t)) <==>
            && (q.workspaceId != "" ==> workspaceId == q.workspaceId)
            && (q.flowId != "" ==> flowId == q.flowId)
            && (q.since.Some? ==> q.since.value - q.since.value % SECOND <= t)
            && (q.until.Some? ==> t < q.until.value - q.until.value % SECOND + SECOND)
  {
    if q.since.Some? {
      SecondsFloor(q.since.value, t);
    }
    if q.until.Some? {
      SecondsFloor(t, q.until.value);
      NextSecond(t, q.until.value);
    }
  }

  lemma SecondsFloor(a: Instant, b: Instant)
    ensures Seconds(a) <= Seconds(b) <==> a - a % SECOND <= b
  {
    assert a - a % SECOND == Seconds(a) * SECOND;
  }

  lemma NextSecond(a: Instant, b: Instant)
    ensures Seconds(a) <= Seconds(b) <==> a < b - b % SECOND + SECOND
  {
    assert b - b % SECOND == Seconds(b) * SECOND;
  }

  ghost predicate Distinct<T>(xs: seq<T>) {
    forall i, j | 0 <= i < j < |xs| :: xs[i] != xs[j]
  }

  ghost predicate Descending(rs: seq<HistoryRecord>) {
    forall i, j | 0 <= i < j < |rs| :: RecordTimestamp(rs[i]) >= RecordTimestamp(rs[j])
  }

  /** Exactly the chosen records, each once, newest first; equal times come in any order. */
  ghost predicate IsTimeline(s: Store, q: HistoryQuery, all: seq<HistoryRecord>) {
    && Distinct(all) && Descending(all)
    && forall r :: r in all <==> Chosen(s, q, r)
  }

  /**
   Rows with equal times come in an order that SQL and the sort leave open; `rank` stands
   for it. Asking an unchanged ledger again finds the same order.
   */
  type Rank = HistoryRecord -> int

  predicate Before(x: HistoryRecord, y: HistoryRecord, rank: Rank) {
    RecordTimestamp(x) > RecordTimestamp(y) || (RecordTimestamp(x) == RecordTimestamp(y) && rank(x) < rank(y))
  }

  ghost predicate Ordered(rs: seq<HistoryRecord>, rank: Rank) {
    forall i, j | 0 <= i < j < |rs| :: Before(rs[i], rs[j], rank)
  }

  ghost predicate RanksDiffer(rs: seq<HistoryRecord>, rank: Rank) {
    forall i, j | 0 <= i < j < |rs| :: rank(rs[i]) != rank(rs[j])
  }

  /** The rank tells the chosen records apart. */
  ghost predicate RanksApart(s: Store, q: HistoryQuery, rank: Rank) {
    forall x, y | Chosen(s, q, x) && Chosen(s, q, y) && x != y :: rank(x) != rank(y)
  }

  function EffectiveLimit(limit: int): nat {
    if limit <= 0 then DEFAULT_HISTORY_LIMIT else limit
  }

  /** A query's slice of the timeline. */
  function Page<T>(all: seq<T>, offset: int, limit: int): seq<T> {
    var rest := if 0 < offset < |all| then all[offset..] else if offset >= |all| then [] else all;
    if EffectiveLimit(limit) < |rest| then rest[..EffectiveLimit(limit)] else rest
  }

  function Clamped(x: int, n: nat): nat {
    if x < 0 then 0 else if x > n then n else x
  }

  /** A page of `count` records serves `offset` and `limit` on a timeline of `total`: all that is left, or the limit. */
  predicate HasLength(count: nat, offset: int, limit: int, total: nat) {
    var left := if offset < 0 then total else if offset > total then 0 else total - offset;
    var size := if limit > 0 then limit else 50;
    count == if left < size then left else size
  }

  /******* The query *******/

  /** The filter as SQLite evaluates it, comparing the text of the times. */
  method Filter(q: HistoryQuery, workspaceId: WorkspaceId, flowId: FlowId, at: Stamp) returns (pass: bool)
    ensures pass == Selected(q, workspaceId, flowId, at)
  {
    var early, late := false, false;
    if q.since.Some? {
      early := TextLess(at, Seconds(q.since.value));
    }
    if q.until.Some? {
      late := TextLess(Seconds(q.until.value), at);
    }
    pass := (q.workspaceId == "" || workspaceId == q.workspaceId) && (q.flowId == "" || flowId == q.flowId) && !early && !late;
  }

  method InsertByTime(rs: seq<HistoryRecord>, r: HistoryRecord, rank: Rank) returns (out: seq<HistoryRecord>)
    requires Ordered(rs, rank) && forall e | e in rs :: rank(e) != rank(r)
    ensures Ordered(out, rank) && |out| == |rs| + 1
    ensures forall e :: e in out <==> e in rs || e == r
  {
    var n := 0;
    while n < |rs| && Before(rs[n], r, rank)
      invariant 0 <= n <= |rs|
      invariant forall k | 0 <= k < n :: Before(rs[k], r, rank)
    {
      n := n + 1;
    }
    out := rs[..n] + [r] + rs[n..];
    InsertedMembers(rs, n, r);
    InsertedOrdered(rs, n, r, rank);
  }

  lemma InsertedOrdered(rs: seq<HistoryRecord>, n: nat, r: HistoryRecord, rank: Rank)
    requires Ordered(rs, rank) && n <= |rs| && forall e | e in rs :: rank(e) != rank(r)
    requires forall k | 0 <= k < n :: Before(rs[k], r, rank)
    requires n < |rs| ==> !Before(rs[n], r, rank)
    ensures Ordered(rs[..n] + [r] + rs[n..], rank)
  {
    forall k | n <= k < |rs| ensures Before(r, rs[k], rank) {
      assert rs[n] in rs && rs[k] in rs;
    }
  }

  /** The records newest first. */
  method SortNewestFirst(rs: seq<HistoryRecord>, rank: Rank) returns (out: seq<HistoryRecord>)
    requires RanksDiffer(rs, rank)
    ensures Ordered(out, rank) && |out| == |rs|
    ensures forall e :: e in out <==> e in rs
  {
    out := [];
    for i := 0 to |rs|
      invariant Ordered(out, rank) && |out| == i
      invariant forall e :: e in out <==> e in rs[..i]
    {
      assert rs[..i + 1] == rs[..i] + [rs[i]];
      out := InsertByTime(out, rs[i], rank);
    }
    assert rs[..|rs|] == rs;
  }

  method Requests(db: DB, q: HistoryQuery) returns (count: nat, rs: seq<HistoryRecord>)
    ensures Distinct(rs) && count == |rs|
    ensures forall r :: r in rs <==> r.NotificationRecord? && Chosen(db.Tables(), q, r)
  {
    count, rs := 0, [];
    var rest := db.requests.Keys;
    while rest != {}
      invariant rest <= db.requests.Keys
      invariant Distinct(rs) && count == |rs|
      invariant forall r :: r in rs <==> r.NotificationRecord? && r.id !in rest && Chosen(db.Tables(), q, r)
      decreases |rest|
    {
      var id :| id in rest;
      var row := db.requests[id];
      var pass := Filter(q, row.request.workspaceId, row.request.flowId, row.at);
      if pass {
        count := count + 1;
        rs := rs + [NotificationRecord(id, row, Lookup(db.responses, id))];
      }
      rest := rest - {id};
    }
  }

  method Events(db: DB, q: HistoryQuery) returns (count: nat, rs: seq<HistoryRecord>)
    ensures Distinct(rs) && count == |rs|
    ensures forall r :: r in rs <==> r.LifecycleRecord? && Chosen(db.Tables(), q, r)
  {
    count, rs := 0, [];
    var rest := db.audit.Keys;
    while rest != {}
      invariant rest <= db.audit.Keys
      invariant Distinct(rs) && count == |rs|
      invariant forall r :: r in rs <==> r.LifecycleRecord? && r.key !in rest && Chosen(db.Tables(), q, r)
      decreases |rest|
    {
      var key :| key in rest;
      var pass := Filter(q, db.audit[key].workspaceId, key.flowId, key.at);
      if pass {
        count := count + 1;
        rs := rs + [LifecycleRecord(key, db.audit[key])];
      }
      rest := rest - {key};
    }
  }

  /** The records and the total are those of one and the same timeline. */
  ghost predicate AnswersQuery(s: Store, q: HistoryQuery, rank: Rank, records: seq<HistoryRecord>, total: nat) {
    exists all :: IsTimeline(s, q, all) && Ordered(all, rank) && records == Page(all, q.offset, q.limit) && total == |all|
  }

  method QueryHistory(db: DB, q: HistoryQuery, rank: Rank) returns (records: seq<HistoryRecord>, total: nat)
    requires RanksApart(db.Tables(), q, rank)
    ensures AnswersQuery(db.Tables(), q, rank, records, total)
    ensures HasLength(|records|, q.offset, q.limit, total)
  {
    var limit := q.limit;
    if limit <= 0 {
      limit := DEFAULT_HISTORY_LIMIT;
    }
    var asked, requests := Requests(db, q);
    var happened, events := Events(db, q);
    total := asked + happened;
    MergedRanks(db.Tables(), q, requests, events, rank);
    var all := SortNewestFirst(requests + events, rank);
    ghost var timeline := all;
    if q.offset > 0 && q.offset < |all| {
      all := all[q.offset..];
    } else if q.offset >= |all| {
      all := [];
    }
    if limit < |all| {
      all := all[..limit];
    }
    records := all;
    PageLength(timeline, q.offset, q.limit);
    assert IsTimeline(db.Tables(), q, timeline);
  }

  lemma MergedRanks(s: Store, q: HistoryQuery, requests: seq<HistoryRecord>, events: seq<HistoryRecord>, rank: Rank)
    requires Distinct(requests) && forall r :: r in requests <==> r.NotificationRecord? && Chosen(s, q, r)
    requires Distinct(events) && forall r :: r in events <==> r.LifecycleRecord? && Chosen(s, q, r)
    requires RanksApart(s, q, rank)
    ensures RanksDiffer(requests + events, rank)
  {
    var all := requests + events;
    forall i, j | 0 <= i < j < |all| ensures rank(all[i]) != rank(all[j]) {
      assert if i < |requests| then all[i] in requests else all[i] in events;
      assert if j < |requests| then all[j] in requests else all[j] in events;
      assert all[i] != all[j];
    }
  }

  /******* What a timeline is *******/

  lemma {:induction false} DistinctLength<T>(xs: seq<T>, ys: seq<T>)
    requires Distinct(xs) && Distinct(ys) && forall x :: x in xs <==> x in ys
    ensures |xs| == |ys|
  {
    DistinctSize(xs);
    DistinctSize(ys);
    assert (set x | x in xs) == (set y | y in ys);
  }

  lemma {:induction false} DistinctSize<T>(xs: seq<T>)
    requires Distinct(xs)
    ensures |set x | x in xs| == |xs|
  {
    if xs == [] {
    } else {
      var n := |xs| - 1;
      var front := xs[..n];
      DistinctSize(front);
      assert xs == front + [xs[n]];
      assert xs[n] !in front;
      assert (set x | x in xs) == (set x | x in front) + {xs[n]};
    }
  }

  /** A request that passes the filter is in the timeline once, with its response if it has one. */
  lemma RequestListedOnce(s: Store, q: HistoryQuery, all: seq<HistoryRecord>, id: RequestId)
    requires IsTimeline(s, q, all) && id in s.requests && SelectedRequest(s, q, id)
    ensures exists i :: 0 <= i < |all| && all[i] == NotificationRecord(id, s.requests[id], Lookup(s.responses, id))
    ensures forall i, j | 0 <= i < |all| && 0 <= j < |all| && all[i].NotificationRecord? && all[j].NotificationRecord?
                          && all[i].id == all[j].id == id :: i == j
  {
    assert NotificationRecord(id, s.requests[id], Lookup(s.responses, id)) in all;
    forall i | 0 <= i < |all| && all[i].NotificationRecord? && all[i].id == id
      ensures all[i] == NotificationRecord(id, s.requests[id], Lookup(s.responses, id))
    {
      assert all[i] in all;
    }
  }

  /** A timeline, record by record: which requests and events it has, with what, and in which order. */
  lemma TimelineReads(s: Store, q: HistoryQuery, all: seq<HistoryRecord>)
    requires IsTimeline(s, q, all)
    ensures forall id, row, response :: NotificationRecord(id, row, response) in all <==>
              && id in s.requests && row == s.requests[id]
              && response == (if id in s.responses then Some(s.responses[id]) else None)
              && Selected(q, row.request.workspaceId, row.request.flowId, row.at)
    ensures forall key, row :: LifecycleRecord(key, row) in all <==>
              key in s.audit && row == s.audit[key] && Selected(q, row.workspaceId, key.flowId, key.at)
    ensures forall i, j | 0 <= i < j < |all| ::
              all[i] != all[j]
              && (if all[i].NotificationRecord? then all[i].request.at else all[i].key.at)
                 >= (if all[j].NotificationRecord? then all[j].request.at else all[j].key.at)
  {
    forall id, row, response
      ensures NotificationRecord(id, row, response) in all <==>
                && id in s.requests && row == s.requests[id]
                && response == (if id in s.responses then Some(s.responses[id]) else None)
                && Selected(q, row.request.workspaceId, row.request.flowId, row.at)
    {
      assert NotificationRecord(id, row, response) in all <==> Chosen(s, q, NotificationRecord(id, row, response));
    }
    forall i, j | 0 <= i < j < |all|
      ensures RecordTimestamp(all[i]) >= RecordTimestamp(all[j])
    {
    }
  }

  ghost predicate NoTies(all: seq<HistoryRecord>) {
    forall i, j | 0 <= i < j < |all| :: RecordTimestamp(all[i]) != RecordTimestamp(all[j])
  }

  /** Two timelines of one ledger have the same length, and are equal unless times tie. */
  lemma TimelineUnique(s: Store, q: HistoryQuery, a: seq<HistoryRecord>, b: seq<HistoryRecord>)
    requires IsTimeline(s, q, a) && IsTimeline(s, q, b)
    ensures |a| == |b|
    ensures NoTies(a) ==> a == b
  {
    DistinctLength(a, b);
    if NoTies(a) {
      var rank: Rank := _ => 0;
      NoTiesOrdered(a, b);
      SameOrder(a, b, rank);
    }
  }

  lemma NoTiesOrdered(a: seq<HistoryRecord>, b: seq<HistoryRecord>)
    requires Descending(a) && NoTies(a) && Distinct(b) && Descending(b) && forall r :: r in a <==> r in b
    ensures Ordered(a, _ => 0) && Ordered(b, _ => 0)
  {
    forall i, j | 0 <= i < j < |b| ensures RecordTimestamp(b[i]) != RecordTimestamp(b[j]) {
      assert b[i] in a && b[j] in a;
    }
  }

  /** With one order for ties they are always equal. */
  lemma TimelineFixedByRank(s: Store, q: HistoryQuery, rank: Rank, a: seq<HistoryRecord>, b: seq<HistoryRecord>)
    requires IsTimeline(s, q, a) && IsTimeline(s, q, b) && Ordered(a, rank) && Ordered(b, rank)
    ensures a == b
  {
    DistinctLength(a, b);
    SameOrder(a, b, rank);
  }

  lemma {:induction false} SameOrder(a: seq<HistoryRecord>, b: seq<HistoryRecord>, rank: Rank)
    requires Ordered(a, rank) && Ordered(b, rank) && |a| == |b| && forall r :: r in a <==> r in b
    ensures a == b
  {
    if a == [] {
    } else {
      SameHead(a, b, rank);
      forall r ensures r in a[1..] <==> r in b[1..] {
        assert r in a <==> r == a[0] || r in a[1..];
        assert r in b <==> r == b[0] || r in b[1..];
        assert a[0] !in a[1..] && b[0] !in b[1..];
      }
      SameOrder(a[1..], b[1..], rank);
    }
  }

  lemma SameHead(a: seq<HistoryRecord>, b: seq<HistoryRecord>, rank: Rank)
    requires Ordered(a, rank) && Ordered(b, rank) && |a| == |b| > 0 && forall r :: r in a <==> r in b
    ensures a[0] == b[0]
  {
    assert a[0] in b && b[0] in a;
    var i :| 0 <= i < |a| && a[i] == b[0];
    var j :| 0 <= j < |b| && b[j] == a[0];
    assert i > 0 ==> Before(a[0], a[i], rank);
    assert j > 0 ==> Before(b[0], b[j], rank);
  }

  /**
   A page and a total answered for an unchanged ledger are those of its timeline, provided
   that no times tie or that ties come in the timeline's order.
   */
  lemma AnswerOfTimeline(
    s: Store, q: HistoryQuery, rank: Rank, all: seq<HistoryRecord>, records: seq<HistoryRecord>, total: nat)
    requires IsTimeline(s, q, all) && AnswersQuery(s, q, rank, records, total) && (NoTies(all) || Ordered(all, rank))
    ensures records == Page(all, q.offset, q.limit) && total == |all|
  {
    var other :| IsTimeline(s, q, other) && Ordered(other, rank) && records == Page(other, q.offset, q.limit) && total == |other|;
    TimelineUnique(s, q, all, other);
    if Ordered(all, rank) {
      TimelineFixedByRank(s, q, rank, all, other);
    }
  }

  /******* Pages *******/

  /** A page is the slice from the offset of at most the limit asked for, or of 50, whatever the numbers. */
  lemma PageIsSlice<T>(all: seq<T>, offset: int, limit: int)
    ensures var lo, size := Clamped(offset, |all|), if limit > 0 then limit else 50;
            Page(all, offset, limit) == if lo + size < |all| then all[lo..lo + size] else all[lo..]
    ensures offset <= 0 ==> Clamped(offset, |all|) == 0
    ensures 0 <= offset <= |all| ==> Clamped(offset, |all|) == offset
    ensures offset >= |all| ==> Page(all, offset, limit) == []
  {
  }

  /** It is as long as was asked for, or as what the offset leaves. */
  lemma PageLength<T>(all: seq<T>, offset: int, limit: int)
    ensures HasLength(|Page(all, offset, limit)|, offset, limit, |all|)
  {
    PageIsSlice(all, offset, limit);
  }

  /** The pages at multiples of the limit, from `offset` on. */
  function PagesFrom<T>(all: seq<T>, offset: nat, limit: int): seq<seq<T>>
    decreases |all| - offset
  {
    if offset >= |all| then [] else [Page(all, offset, limit)] + PagesFrom(all, offset + EffectiveLimit(limit), limit)
  }

  function Joined<T>(pages: seq<seq<T>>): seq<T> {
    if pages == [] then [] else pages[0] + Joined(pages[1..])
  }

  /** Consecutive pages partition the timeline. */
  lemma {:induction false} PagesPartition<T>(all: seq<T>, offset: nat, limit: int)
    requires offset <= |all|
    ensures Joined(PagesFrom(all, offset, limit)) == all[offset..]
    decreases |all| - offset
  {
    if offset < |all| {
      var next := offset + EffectiveLimit(limit);
      PageIsSlice(all, offset, limit);
      if next <= |all| {
        PagesPartition(all, next, limit);
        assert all[offset..] == all[offset..next] + all[next..];
      } else {
        assert PagesFrom(all, next, limit) == [];
      }
    }
  }

  /** Records that arrive at the front between two queries make the next page repeat as many. */
  lemma ArrivalsRepeat<T>(arrived: seq<T>, all: seq<T>, offset: nat, limit: int)
    requires |arrived| <= offset
    ensures Page(arrived + all, offset, limit) == Page(all, offset - |arrived|, limit)
  {
    var now := arrived + all;
    PageIsSlice(now, offset, limit);
    PageIsSlice(all, offset - |arrived|, limit);
    var lo := Clamped(offset, |now|);
    assert now[lo..] == all[lo - |arrived|..];
    var size := if limit > 0 then limit else 50;
    assert lo + size < |now| ==> now[lo..lo + size] == all[lo - |arrived|..lo - |arrived| + size];
  }
}

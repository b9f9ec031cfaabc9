/** The phone's history screen: pages of the timeline loaded one after another. */
module HistoryScreen {
  import opened Payload
  import opened Ledger
  import opened History

  const HISTORY_PAGE_SIZE := 25

  datatype HistoryQueryResult = HistoryQueryResult(records: seq<HistoryRecord>, total: int)

  /** The daemon's answer on an unchanged timeline. */
  function Answer(all: seq<HistoryRecord>, offset: int): HistoryQueryResult {
    HistoryQueryResult(Page(all, offset, HISTORY_PAGE_SIZE), |all|)
  }

  /** The history state after an answer: replaced, or extended when there is one to extend. */
  function Merged(existing: Option<HistoryQueryResult>, result: HistoryQueryResult, append: bool): HistoryQueryResult {
    if append && existing.Some? then HistoryQueryResult(existing.value.records + result.records, result.total) else result
  }

  /** The history state after the answers to one load and to the load-mores that followed it. */
  function LoadedFrom(existing: Option<HistoryQueryResult>, answers: seq<HistoryQueryResult>): HistoryQueryResult
    requires answers != []
  {
    var front, last := answers[..|answers| - 1], answers[|answers| - 1];
    if front == [] then Merged(existing, last, false) else Merged(Some(LoadedFrom(existing, front)), last, true)
  }

  function RecordsOf(answers: seq<HistoryQueryResult>): seq<HistoryRecord> {
    if answers == [] then [] else RecordsOf(answers[..|answers| - 1]) + answers[|answers| - 1].records
  }

  /** Whatever the daemon answered, the state has all those records in order of arrival and the latest total, and nothing of before. */
  lemma {:induction false} LoadedKeepsAll(existing: Option<HistoryQueryResult>, answers: seq<HistoryQueryResult>)
    requires answers != []
    ensures LoadedFrom(existing, answers) == HistoryQueryResult(RecordsOf(answers), answers[|answers| - 1].total)
  {
    var front := answers[..|answers| - 1];
    if front == [] {
      assert RecordsOf(front) == [];
    } else {
      LoadedKeepsAll(existing, front);
    }
  }

  function Displayed(records: seq<HistoryRecord>, showLifecycle: bool): seq<HistoryRecord> {
    if records == [] then []
    else
      var front, last := records[..|records| - 1], records[|records| - 1];
      Displayed(front, showLifecycle) + if showLifecycle || !last.LifecycleRecord? then [last] else []
  }

  lemma {:induction false} DisplayedEmpty(records: seq<HistoryRecord>, showLifecycle: bool)
    ensures Displayed(records, showLifecycle) == [] <==> forall r | r in records :: !showLifecycle && r.LifecycleRecord?
  {
    if records == [] {
    } else {
      var front, last := records[..|records| - 1], records[|records| - 1];
      DisplayedEmpty(front, showLifecycle);
      assert records == front + [last];
    }
  }

  /** The display holds the records the filter lets through, in the order of the list. */
  lemma {:induction false} DisplayedRecords(records: seq<HistoryRecord>, showLifecycle: bool) returns (at: seq<nat>)
    ensures |at| == |Displayed(records, showLifecycle)|
    ensures forall i | 0 <= i < |at| :: at[i] < |records| && Displayed(records, showLifecycle)[i] == records[at[i]]
    ensures forall i, j | 0 <= i < j < |at| :: at[i] < at[j]
    ensures forall k: nat :: k in at <==> k < |records| && (showLifecycle || records[k].NotificationRecord?)
  {
    at := [];
    if records != [] {
      var n := |records| - 1;
      at := DisplayedRecords(records[..n], showLifecycle);
      if showLifecycle || records[n].NotificationRecord? {
        at := at + [n];
      }
    }
  }

  class HistoryAdapter {
    var records: seq<HistoryRecord>
    var total: int
    var displayRecords: seq<HistoryRecord>
    var showLifecycle: bool

    ghost predicate Valid()
      reads this
    {
      displayRecords == Displayed(records, showLifecycle)
    }

    constructor ()
      ensures Valid() && records == [] && total == 0 && !showLifecycle
    {
      records, total, displayRecords, showLifecycle := [], 0, [], false;
    }

    method RebuildDisplay()
      modifies this`displayRecords
      ensures Valid()
    {
      displayRecords := [];
      for i := 0 to |records|
        invariant displayRecords == Displayed(records[..i], showLifecycle)
      {
        assert records[..i + 1][..i] == records[..i];
        if showLifecycle || !records[i].LifecycleRecord? {
          displayRecords := displayRecords + [records[i]];
        }
      }
      assert records[..|records|] == records;
    }

    method SetShowLifecycle(value: bool)
      modifies this`showLifecycle, this`displayRecords
      ensures Valid() && showLifecycle == value
    {
      showLifecycle := value;
      RebuildDisplay();
    }

    method Update(result: HistoryQueryResult)
      modifies this`records, this`total, this`displayRecords
      ensures Valid() && records == result.records && total == result.total
    {
      records, total := result.records, result.total;
      RebuildDisplay();
    }

    method Append(result: HistoryQueryResult)
      modifies this`records, this`total, this`displayRecords
      ensures Valid() && records == old(records) + result.records && total == result.total
    {
      records, total := records + result.records, result.total;
      RebuildDisplay();
    }

    function RecordCount(): nat
      reads this
    {
      |records|
    }

    predicate HasMore()
      reads this
    {
      |records| < total
    }

    function GetItemCount(): nat
      reads this
    {
      if displayRecords == [] then 1 else |displayRecords| + if HasMore() then 1 else 0
    }

    /** The position shows the row that loads more. */
    predicate IsLoadMore(position: nat)
      reads this
    {
      displayRecords != [] && position >= |displayRecords|
    }

    /** Whether the list has a row to tap: never while nothing is displayed. */
    lemma OffersMore()
      requires Valid()
      ensures (exists p: int :: 0 <= p < GetItemCount() && IsLoadMore(p))
              <==> HasMore() && exists r :: r in records && (showLifecycle || r.NotificationRecord?)
      ensures (forall r | r in records :: !showLifecycle && r.LifecycleRecord?) ==> GetItemCount() == 1
      ensures (exists r :: r in records && (showLifecycle || r.NotificationRecord?)) ==>
                GetItemCount() == |displayRecords| + if |records| < total then 1 else 0
    {
      DisplayedEmpty(records, showLifecycle);
      if displayRecords != [] && HasMore() {
        assert IsLoadMore(|displayRecords|);
      }
    }
  }

  /******* Loading more *******/

  /** The history state after opening the screen and `taps` completed load-mores. */
  function AfterTaps(all: seq<HistoryRecord>, taps: nat): HistoryQueryResult {
    if taps == 0 then Merged(None, Answer(all, 0), false)
    else
      var now := AfterTaps(all, taps - 1);
      Merged(Some(now), Answer(all, |now.records|), true)
  }

  /** The first `n` records of the timeline, as a history state. */
  function Prefix(all: seq<HistoryRecord>, n: nat): HistoryQueryResult
    requires n <= |all|
  {
    HistoryQueryResult(all[..n], |all|)
  }

  lemma NextPage(all: seq<HistoryRecord>, n: nat)
    requires n <= |all|
    ensures Merged(Some(Prefix(all, n)), Answer(all, n), true) == Prefix(all, Clamped(n + HISTORY_PAGE_SIZE, |all|))
  {
    PageIsSlice(all, n, HISTORY_PAGE_SIZE);
    assert all[..n] + all[n..Clamped(n + HISTORY_PAGE_SIZE, |all|)] == all[..Clamped(n + HISTORY_PAGE_SIZE, |all|)];
  }

  lemma FirstPage(all: seq<HistoryRecord>)
    ensures Merged(None, Answer(all, 0), false) == Prefix(all, Clamped(HISTORY_PAGE_SIZE, |all|))
  {
    PageIsSlice(all, 0, HISTORY_PAGE_SIZE);
  }

  /** Every tap shows one more page of the timeline, and nothing twice, until all of it is shown. */
  lemma {:induction false} TapsShowPrefix(all: seq<HistoryRecord>, taps: nat)
    ensures AfterTaps(all, taps) == Prefix(all, Clamped(HISTORY_PAGE_SIZE * (taps + 1), |all|))
  {
    if taps == 0 {
      FirstPage(all);
    } else {
      TapsShowPrefix(all, taps - 1);
      NextPage(all, |AfterTaps(all, taps - 1).records|);
    }
  }

  /** `k` copies of a page, one after another. */
  function Copies(page: seq<HistoryRecord>, k: nat): seq<HistoryRecord> {
    if k == 0 then [] else Copies(page, k - 1) + page
  }

  /** The state after `k` taps that all asked from the same count, because none had been answered yet. */
  function AfterOverlap(all: seq<HistoryRecord>, n: nat, k: nat): HistoryQueryResult
    requires n <= |all|
  {
    if k == 0 then Prefix(all, n) else Merged(Some(AfterOverlap(all, n, k - 1)), Answer(all, n), true)
  }

  /** The page comes once for every such tap. */
  lemma {:induction false} OverlappingTaps(all: seq<HistoryRecord>, n: nat, k: nat)
    requires n <= |all|
    ensures AfterOverlap(all, n, k).records == all[..n] + Copies(all[n..Clamped(n + HISTORY_PAGE_SIZE, |all|)], k)
    ensures AfterOverlap(all, n, k).total == |all|
  {
    PageIsSlice(all, n, HISTORY_PAGE_SIZE);
    if k == 0 {
      assert all[..n] + [] == all[..n];
    } else {
      OverlappingTaps(all, n, k - 1);
    }
  }

  lemma {:induction false} CopiesLength(page: seq<HistoryRecord>, k: nat)
    ensures |Copies(page, k)| == k * |page|
  {
    if k == 0 {
    } else {
      CopiesLength(page, k - 1);
    }
  }

  lemma {:induction false} CopiesBegin(page: seq<HistoryRecord>, k: nat)
    requires k >= 2
    ensures |Copies(page, k)| >= 2 * |page| && Copies(page, k)[..2 * |page|] == page + page
  {
    if k == 2 {
      assert Copies(page, 0) + page == page;
      assert Copies(page, 1) == page;
      assert (page + page)[..2 * |page|] == page + page;
    } else {
      CopiesBegin(page, k - 1);
      assert Copies(page, k)[..2 * |page|] == Copies(page, k - 1)[..2 * |page|];
    }
  }

  /** The next page is asked for from a count that includes the copies, so as many records are passed over. */
  lemma CountAfterOverlap(all: seq<HistoryRecord>, n: nat, k: nat)
    requires n <= |all|
    ensures |AfterOverlap(all, n, k).records| == n + k * (Clamped(n + HISTORY_PAGE_SIZE, |all|) - n)
  {
    OverlappingTaps(all, n, k);
    CopiesLength(all[n..Clamped(n + HISTORY_PAGE_SIZE, |all|)], k);
  }

  /** Several overlapping taps show no record twice exactly when everything was loaded already. */
  lemma OverlapHarmless(all: seq<HistoryRecord>, n: nat, k: nat)
    requires n <= |all| && k >= 2 && Distinct(all)
    ensures Distinct(AfterOverlap(all, n, k).records) <==> n == |all|
  {
    var m, records := Clamped(n + HISTORY_PAGE_SIZE, |all|), AfterOverlap(all, n, k).records;
    var page := all[n..m];
    OverlappingTaps(all, n, k);
    if n == |all| {
      CopiesLength(page, k);
      assert records == all;
    } else {
      CopiesBegin(page, k);
      var copies := Copies(page, k);
      assert copies[0] == (page + page)[0] == all[n];
      assert copies[|page|] == copies[..2 * |page|][|page|] == (page + page)[|page|] == all[n];
      assert records[n] == records[n + |page|];
    }
  }

  /** The first page holds something to display. */
  predicate FirstPageShows(all: seq<HistoryRecord>, showLifecycle: bool) {
    exists i :: 0 <= i < Clamped(HISTORY_PAGE_SIZE, |all|) && (showLifecycle || all[i].NotificationRecord?)
  }

  lemma ShownBeyondFirstPage(all: seq<HistoryRecord>, n: nat, showLifecycle: bool)
    requires Clamped(HISTORY_PAGE_SIZE, |all|) <= n <= |all|
    ensures FirstPageShows(all, showLifecycle) ==> Displayed(all[..n], showLifecycle) != []
    ensures n <= HISTORY_PAGE_SIZE && Displayed(all[..n], showLifecycle) != [] ==> FirstPageShows(all, showLifecycle)
  {
    var records := all[..n];
    DisplayedEmpty(records, showLifecycle);
    if FirstPageShows(all, showLifecycle) {
      var i :| 0 <= i < Clamped(HISTORY_PAGE_SIZE, |all|) && (showLifecycle || all[i].NotificationRecord?);
      assert records[i] in records;
    }
    if n <= HISTORY_PAGE_SIZE && Displayed(records, showLifecycle) != [] {
      var r :| r in records && (showLifecycle || !r.LifecycleRecord?);
      var i :| 0 <= i < n && records[i] == r;
      assert all[i] == r;
    }
  }

  /** What the screen asks for: everything, a page from `offset`. */
  function PageQuery(offset: nat): HistoryQuery {
    HistoryQuery("", "", None, None, HISTORY_PAGE_SIZE, offset)
  }

  /** `answers[k]` is the ledger's answer from the count of records the earlier answers brought. */
  ghost predicate AnswersNext(s: Store, rank: Rank, answers: seq<HistoryQueryResult>, k: int)
    requires 0 <= k < |answers|
  {
    && answers[k].total >= 0
    && AnswersQuery(s, PageQuery(LoadedCount(answers[..k])), rank, answers[k].records, answers[k].total)
  }

  ghost predicate AnswersInTurn(s: Store, rank: Rank, answers: seq<HistoryQueryResult>) {
    forall k | 0 <= k < |answers| :: AnswersNext(s, rank, answers, k)
  }

  function LoadedCount(answers: seq<HistoryQueryResult>): nat {
    if answers == [] then 0 else |Loaded(answers).records|
  }

  /** The history state after these answers, the first replacing and the others extending. */
  function Loaded(answers: seq<HistoryQueryResult>): HistoryQueryResult
    requires answers != []
  {
    var last := answers[|answers| - 1];
    if |answers| == 1 then Merged(None, last, false)
    else Merged(Some(Loaded(answers[..|answers| - 1])), last, true)
  }

  lemma SameTimelines(s: Store, offset: nat, all: seq<HistoryRecord>)
    ensures IsTimeline(s, PageQuery(offset), all) <==> IsTimeline(s, PageQuery(0), all)
  {
    assert forall r :: Chosen(s, PageQuery(offset), r) <==> Chosen(s, PageQuery(0), r);
  }

  lemma LedgerAnswer(s: Store, rank: Rank, all: seq<HistoryRecord>, offset: nat, result: HistoryQueryResult)
    requires IsTimeline(s, PageQuery(0), all) && (NoTies(all) || Ordered(all, rank)) && result.total >= 0
    requires AnswersQuery(s, PageQuery(offset), rank, result.records, result.total)
    ensures result == Answer(all, offset)
  {
    SameTimelines(s, offset, all);
    AnswerOfTimeline(s, PageQuery(offset), rank, all, result.records, result.total);
  }

  /** Answers of an unchanged ledger, each asked for from the current count, load its timeline page by page. */
  lemma {:induction false} LedgerLoadsTimeline(s: Store, rank: Rank, all: seq<HistoryRecord>, answers: seq<HistoryQueryResult>)
    requires IsTimeline(s, PageQuery(0), all) && (NoTies(all) || Ordered(all, rank))
    requires answers != [] && AnswersInTurn(s, rank, answers)
    ensures Loaded(answers) == AfterTaps(all, |answers| - 1)
  {
    var n := |answers| - 1;
    var front, last := answers[..n], answers[n];
    assert AnswersNext(s, rank, answers, n);
    LedgerAnswer(s, rank, all, LoadedCount(front), last);
    if n > 0 {
      FrontInTurn(s, rank, answers);
      LedgerLoadsTimeline(s, rank, all, front);
    }
  }

  lemma FrontInTurn(s: Store, rank: Rank, answers: seq<HistoryQueryResult>)
    requires answers != [] && AnswersInTurn(s, rank, answers)
    ensures AnswersInTurn(s, rank, answers[..|answers| - 1])
  {
    var front := answers[..|answers| - 1];
    forall k | 0 <= k < |front| ensures AnswersNext(s, rank, front, k) {
      assert AnswersNext(s, rank, answers, k) && front[..k] == answers[..k];
    }
  }

  /** The records shown when browsing ends: all of them exactly if one page is enough or the first displays something. */
  ghost predicate Browsed(all: seq<HistoryRecord>, showLifecycle: bool, records: seq<HistoryRecord>) {
    && (records == all <==> |all| <= HISTORY_PAGE_SIZE || FirstPageShows(all, showLifecycle))
    && (records != all ==> |all| >= HISTORY_PAGE_SIZE && records == all[..HISTORY_PAGE_SIZE])
  }

  /** The whole timeline of the ledger, with ties in the given order. */
  ghost predicate IsLedgerTimeline(s: Store, rank: Rank, all: seq<HistoryRecord>) {
    IsTimeline(s, PageQuery(0), all) && Ordered(all, rank) && RanksApart(s, PageQuery(0), rank)
  }

  method AskFirst(db: DB, rank: Rank) returns (result: HistoryQueryResult)
    requires RanksApart(db.Tables(), PageQuery(0), rank)
    ensures exists all :: IsLedgerTimeline(db.Tables(), rank, all) && result == Answer(all, 0)
  {
    var page, total := QueryHistory(db, PageQuery(0), rank);
    ghost var all :| IsTimeline(db.Tables(), PageQuery(0), all) && Ordered(all, rank) && page == Page(all, 0, HISTORY_PAGE_SIZE) && total == |all|;
    result := HistoryQueryResult(page, total);
    assert IsLedgerTimeline(db.Tables(), rank, all);
  }

  method AskFrom(db: DB, rank: Rank, offset: nat, ghost all: seq<HistoryRecord>) returns (result: HistoryQueryResult)
    requires IsLedgerTimeline(db.Tables(), rank, all)
    ensures result == Answer(all, offset)
  {
    RanksApartAnywhere(db.Tables(), offset, rank);
    var page, total := QueryHistory(db, PageQuery(offset), rank);
    result := HistoryQueryResult(page, total);
    LedgerAnswer(db.Tables(), rank, all, offset, result);
  }

  /**
   Tapping as long as the row is offered, each tap a query of the ledger, ends. It ends with
   the whole timeline exactly if the first page displays something or was everything;
   otherwise with the first page.
   */
  method Browse(db: DB, rank: Rank, showLifecycle: bool) returns (records: seq<HistoryRecord>)
    requires RanksApart(db.Tables(), PageQuery(0), rank)
    ensures exists all :: IsLedgerTimeline(db.Tables(), rank, all) && Browsed(all, showLifecycle, records)
  {
    var adapter := new HistoryAdapter();
    adapter.SetShowLifecycle(showLifecycle);
    var result := AskFirst(db, rank);
    ghost var all :| IsLedgerTimeline(db.Tables(), rank, all) && result == Answer(all, 0);
    var state := Merged(None, result, false);
    adapter.Update(state);
    ghost var first := Clamped(HISTORY_PAGE_SIZE, |all|);
    ghost var n := first;
    FirstPage(all);
    while adapter.displayRecords != [] && adapter.HasMore()
      invariant IsLedgerTimeline(db.Tables(), rank, all)
      invariant adapter.Valid() && fresh(adapter) && adapter.showLifecycle == showLifecycle
      invariant first <= n <= |all| && state == Prefix(all, n)
      invariant adapter.records == state.records && adapter.total == state.total
      invariant n == first || FirstPageShows(all, showLifecycle)
      decreases |all| - n
    {
      ShownBeyondFirstPage(all, n, showLifecycle);
      NextPage(all, n);
      result := AskFrom(db, rank, adapter.RecordCount(), all);
      state := Merged(Some(state), result, true);
      adapter.Update(state);
      n := Clamped(n + HISTORY_PAGE_SIZE, |all|);
    }
    ShownBeyondFirstPage(all, n, showLifecycle);
    records := adapter.records;
    assert Browsed(all, showLifecycle, records);
  }

  lemma RanksApartAnywhere(s: Store, offset: nat, rank: Rank)
    requires RanksApart(s, PageQuery(0), rank)
    ensures RanksApart(s, PageQuery(offset), rank)
  {
    assert forall r :: Chosen(s, PageQuery(offset), r) <==> Chosen(s, PageQuery(0), r);
  }
}

/** Grouping the active flows by workspace, for the heartbeat snapshot. */
module Workspace {
  import opened Rfc3339
  import opened Payload
  import opened Ledger
  import Lex

  datatype FlowInfo = FlowInfo(flowId: FlowId, flowLabel: string, metadata: Option<Metadata>, lastActivity: Stamp)

  datatype WorkspaceInfo = WorkspaceInfo(
    workspaceId: WorkspaceId, displayName: string, absPath: string, activeFlows: seq<FlowInfo>
  )

  function InfoOf(f: ListedFlow): FlowInfo {
    FlowInfo(f.flowId, f.row.flowLabel, f.row.metadata, f.row.lastActivity)
  }

  /** The flows of one workspace, in list order. */
  function FlowsOf(flows: seq<ListedFlow>, ws: WorkspaceId): (r: seq<FlowInfo>) {
    if flows == [] then []
    else
      var rest := FlowsOf(flows[..|flows| - 1], ws);
      var f := flows[|flows| - 1];
      if f.row.workspaceId == ws then rest + [InfoOf(f)] else rest
  }

  /** The first listed flow of a workspace, which names it. */
  function FirstOf(flows: seq<ListedFlow>, ws: WorkspaceId): Option<ListedFlow> {
    if flows == [] then None
    else if flows[0].row.workspaceId == ws then Some(flows[0])
    else FirstOf(flows[1..], ws)
  }

  /** `w` is the group of its workspace id: named by the first flow, holding all of them in order. */
  ghost predicate IsGroup(flows: seq<ListedFlow>, w: WorkspaceInfo) {
    var first := FirstOf(flows, w.workspaceId);
    && first.Some?
    && w.displayName == first.value.row.displayName
    && w.absPath == first.value.row.absPath
    && w.activeFlows == FlowsOf(flows, w.workspaceId)
  }

  ghost predicate DistinctIds(ws: seq<WorkspaceInfo>) {
    forall i, j | 0 <= i < j < |ws| :: ws[i].workspaceId != ws[j].workspaceId
  }

  /** `ws` holds one group for each workspace that occurs in `flows`, and nothing else. */
  ghost predicate IsGroupBy(flows: seq<ListedFlow>, ws: seq<WorkspaceInfo>) {
    && DistinctIds(ws)
    && (forall w | w in ws :: IsGroup(flows, w))
    && (forall f | f in flows :: exists w :: w in ws && w.workspaceId == f.row.workspaceId)
  }

  ghost predicate SortedByName(ws: seq<WorkspaceInfo>) {
    forall i, j | 0 <= i < j < |ws| :: !Lex.Less(ws[j].displayName, ws[i].displayName)
  }

  lemma {:induction false} FirstOfAppended(flows: seq<ListedFlow>, f: ListedFlow, ws: WorkspaceId)
    ensures FirstOf(flows + [f], ws) ==
            if FirstOf(flows, ws).Some? then FirstOf(flows, ws)
            else if f.row.workspaceId == ws then Some(f) else None
  {
    if flows != [] {
      assert (flows + [f])[1..] == flows[1..] + [f];
      FirstOfAppended(flows[1..], f, ws);
    } else {
      assert (flows + [f])[1..] == [];
    }
  }

  lemma {:induction false} FirstOfFound(flows: seq<ListedFlow>, ws: WorkspaceId)
    ensures FirstOf(flows, ws).Some? <==> exists f :: f in flows && f.row.workspaceId == ws
    ensures FirstOf(flows, ws).Some? ==> FirstOf(flows, ws).value in flows && FirstOf(flows, ws).value.row.workspaceId == ws
  {
    if flows != [] && flows[0].row.workspaceId != ws {
      FirstOfFound(flows[1..], ws);
      assert forall f :: f in flows <==> f == flows[0] || f in flows[1..];
    }
  }

  /** The groups built up in `byWorkspace` once the flows of `done` have been seen. */
  ghost predicate Building(done: seq<ListedFlow>, byWorkspace: map<WorkspaceId, WorkspaceInfo>) {
    && (forall id | id in byWorkspace :: byWorkspace[id].workspaceId == id && IsGroup(done, byWorkspace[id]))
    && (forall f | f in done :: f.row.workspaceId in byWorkspace)
  }

  lemma BuildingStep(done: seq<ListedFlow>, f: ListedFlow, was: map<WorkspaceId, WorkspaceInfo>, w: WorkspaceInfo)
    requires Building(done, was)
    requires w == if f.row.workspaceId in was
                  then was[f.row.workspaceId].(activeFlows := was[f.row.workspaceId].activeFlows + [InfoOf(f)])
                  else WorkspaceInfo(f.row.workspaceId, f.row.displayName, f.row.absPath, [InfoOf(f)])
    ensures Building(done + [f], was[f.row.workspaceId := w])
  {
    var now, all := was[f.row.workspaceId := w], done + [f];
    forall id | id in now ensures now[id].workspaceId == id && IsGroup(all, now[id]) {
      FirstOfAppended(done, f, id);
      assert all[..|all| - 1] == done;
      if id !in was {
        FirstOfFound(done, id);
        NoFlowsOf(done, id);
      }
    }
  }

  lemma {:induction false} NoFlowsOf(flows: seq<ListedFlow>, ws: WorkspaceId)
    requires FirstOf(flows, ws).None?
    ensures FlowsOf(flows, ws) == []
  {
    if flows == [] {
    } else {
      var front := flows[..|flows| - 1];
      assert flows == front + [flows[|flows| - 1]];
      FirstOfAppended(front, flows[|flows| - 1], ws);
      NoFlowsOf(front, ws);
    }
  }

  lemma NotBefore(ws: seq<WorkspaceInfo>, n: nat, k: nat, name: string)
    requires SortedByName(ws) && n <= k < |ws| && Lex.Less(name, ws[n].displayName)
    ensures !Lex.Less(ws[k].displayName, name)
  {
    if Lex.Less(ws[k].displayName, name) {
      if k == n {
        Lex.Asymmetric(name, ws[n].displayName);
      } else {
        Lex.Transitive(ws[k].displayName, name, ws[n].displayName);
      }
    }
  }

  lemma InsertedSorted(ws: seq<WorkspaceInfo>, n: nat, w: WorkspaceInfo)
    requires SortedByName(ws) && n <= |ws|
    requires forall k | 0 <= k < n :: !Lex.Less(w.displayName, ws[k].displayName)
    requires n < |ws| ==> Lex.Less(w.displayName, ws[n].displayName)
    ensures SortedByName(ws[..n] + [w] + ws[n..])
  {
    forall k | n <= k < |ws| ensures !Lex.Less(ws[k].displayName, w.displayName) {
      NotBefore(ws, n, k, w.displayName);
    }
  }

  lemma InsertedDistinct(ws: seq<WorkspaceInfo>, n: nat, w: WorkspaceInfo)
    requires DistinctIds(ws) && n <= |ws| && forall v | v in ws :: v.workspaceId != w.workspaceId
    ensures DistinctIds(ws[..n] + [w] + ws[n..])
  {
    assert forall k | 0 <= k < |ws| :: ws[k] in ws;
  }

  method InsertByName(ws: seq<WorkspaceInfo>, w: WorkspaceInfo) returns (out: seq<WorkspaceInfo>)
    requires SortedByName(ws) && DistinctIds(ws) && forall v | v in ws :: v.workspaceId != w.workspaceId
    ensures SortedByName(out) && DistinctIds(out) && forall v :: v in out <==> v in ws || v == w
  {
    var n := 0;
    while n < |ws| && !Lex.Less(w.displayName, ws[n].displayName)
      invariant 0 <= n <= |ws|
      invariant forall k | 0 <= k < n :: !Lex.Less(w.displayName, ws[k].displayName)
    {
      n := n + 1;
    }
    out := ws[..n] + [w] + ws[n..];
    InsertedMembers(ws, n, w);
    InsertedSorted(ws, n, w);
    InsertedDistinct(ws, n, w);
  }

  /** The groups of the map, in any order, sorted. */
  method ReadBack(byWorkspace: map<WorkspaceId, WorkspaceInfo>) returns (snapshot: seq<WorkspaceInfo>)
    requires forall id | id in byWorkspace :: byWorkspace[id].workspaceId == id
    ensures SortedByName(snapshot) && DistinctIds(snapshot)
    ensures forall w :: w in snapshot <==> w.workspaceId in byWorkspace && w == byWorkspace[w.workspaceId]
  {
    snapshot := [];
    var rest := byWorkspace.Keys;
    while rest != {}
      invariant rest <= byWorkspace.Keys
      invariant SortedByName(snapshot) && DistinctIds(snapshot)
      invariant forall w :: w in snapshot <==> w.workspaceId in byWorkspace && w.workspaceId !in rest && w == byWorkspace[w.workspaceId]
      decreases |rest|
    {
      var id :| id in rest;
      rest := rest - {id};
      snapshot := InsertByName(snapshot, byWorkspace[id]);
    }
  }

  lemma BuiltGroups(flows: seq<ListedFlow>, byWorkspace: map<WorkspaceId, WorkspaceInfo>, snapshot: seq<WorkspaceInfo>)
    requires Building(flows, byWorkspace) && DistinctIds(snapshot)
    requires forall w :: w in snapshot <==> w.workspaceId in byWorkspace && w == byWorkspace[w.workspaceId]
    ensures IsGroupBy(flows, snapshot)
  {
    forall f | f in flows ensures exists w :: w in snapshot && w.workspaceId == f.row.workspaceId {
      assert byWorkspace[f.row.workspaceId] in snapshot;
    }
  }

  /** The group of the flow's workspace is extended, or made when the flow is its first. */
  method AddFlow(ghost done: seq<ListedFlow>, byWorkspace: map<WorkspaceId, WorkspaceInfo>, f: ListedFlow)
    returns (next: map<WorkspaceId, WorkspaceInfo>)
    requires Building(done, byWorkspace)
    ensures Building(done + [f], next)
  {
    var id := f.row.workspaceId;
    var w := if id in byWorkspace
             then byWorkspace[id].(activeFlows := byWorkspace[id].activeFlows + [InfoOf(f)])
             else WorkspaceInfo(id, f.row.displayName, f.row.absPath, [InfoOf(f)]);
    BuildingStep(done, f, byWorkspace, w);
    next := byWorkspace[id := w];
  }

  /** Group in list order into a map, read the map back in any order, sort by display name. */
  method GroupFlows(flows: seq<ListedFlow>) returns (snapshot: seq<WorkspaceInfo>)
    ensures IsGroupBy(flows, snapshot) && SortedByName(snapshot)
  {
    var byWorkspace: map<WorkspaceId, WorkspaceInfo> := map[];
    for i := 0 to |flows|
      invariant Building(flows[..i], byWorkspace)
    {
      assert flows[..i + 1] == flows[..i] + [flows[i]];
      byWorkspace := AddFlow(flows[..i], byWorkspace, flows[i]);
    }
    assert flows[..|flows|] == flows;
    snapshot := ReadBack(byWorkspace);
    BuiltGroups(flows, byWorkspace, snapshot);
  }

  /******* What the snapshot says about a flow *******/

  lemma {:induction false} FlowsOfMembers(flows: seq<ListedFlow>, ws: WorkspaceId, x: FlowInfo)
    ensures x in FlowsOf(flows, ws) <==> exists f :: f in flows && f.row.workspaceId == ws && InfoOf(f) == x
  {
    if flows == [] {
    } else {
      var front, f := flows[..|flows| - 1], flows[|flows| - 1];
      FlowsOfMembers(front, ws, x);
      assert forall g :: g in flows <==> g in front || g == f;
    }
  }

  lemma {:induction false} FlowsOfDistinct(flows: seq<ListedFlow>, ws: WorkspaceId)
    requires forall i, j | 0 <= i < j < |flows| :: flows[i].flowId != flows[j].flowId
    ensures DistinctInfos(FlowsOf(flows, ws))
  {
    if flows == [] {
    } else {
      var front, f := flows[..|flows| - 1], flows[|flows| - 1];
      FlowsOfDistinct(front, ws);
      forall x | x in FlowsOf(front, ws) ensures x.flowId != f.flowId {
        FlowsOfMembers(front, ws, x);
      }
    }
  }

  /** The rows the snapshot was built from may since have changed their activity time only. */
  ghost predicate SameButActivity(active: map<FlowId, FlowRow>, cached: map<FlowId, FlowRow>) {
    && active.Keys == cached.Keys
    && forall f | f in active :: cached[f] == active[f].(lastActivity := cached[f].lastActivity)
  }

  /** The snapshot groups a listing of exactly the active flows. */
  ghost predicate GroupsListing(active: map<FlowId, FlowRow>, snapshot: seq<WorkspaceInfo>, listing: seq<ListedFlow>) {
    Lists(active, listing) && NewestFirst(listing) && IsGroupBy(listing, snapshot) && SortedByName(snapshot)
  }

  ghost predicate Fresh(active: map<FlowId, FlowRow>, snapshot: seq<WorkspaceInfo>) {
    exists listing :: GroupsListing(active, snapshot, listing)
  }

  /** The cache invariant: the snapshot is that of the active flows, up to activity times. */
  ghost predicate Agrees(active: map<FlowId, FlowRow>, snapshot: seq<WorkspaceInfo>) {
    exists cached :: SameButActivity(active, cached) && Fresh(cached, snapshot)
  }

  lemma ShownIsActive(rows: map<FlowId, FlowRow>, snapshot: seq<WorkspaceInfo>, listing: seq<ListedFlow>, w: WorkspaceInfo, x: FlowInfo)
    requires GroupsListing(rows, snapshot, listing) && w in snapshot && x in w.activeFlows
    ensures x.flowId in rows && x == InfoOf(ListedFlow(x.flowId, rows[x.flowId]))
    ensures rows[x.flowId].workspaceId == w.workspaceId
  {
    FlowsOfMembers(listing, w.workspaceId, x);
  }

  lemma ActiveIsShown(rows: map<FlowId, FlowRow>, snapshot: seq<WorkspaceInfo>, listing: seq<ListedFlow>, f: FlowId)
    returns (w: WorkspaceInfo, x: FlowInfo)
    requires GroupsListing(rows, snapshot, listing) && f in rows
    ensures w in snapshot && x in w.activeFlows && x.flowId == f
  {
    var e := ListedFlow(f, rows[f]);
    assert e in listing;
    w :| w in snapshot && w.workspaceId == e.row.workspaceId;
    x := InfoOf(e);
    FlowsOfMembers(listing, w.workspaceId, x);
  }

  /** `x` is shown for flow `f` in group `w` of the snapshot. */
  ghost predicate Shows(snapshot: seq<WorkspaceInfo>, w: WorkspaceInfo, x: FlowInfo, f: FlowId) {
    w in snapshot && x in w.activeFlows && x.flowId == f
  }

  /** Each active flow is shown, in the group of its workspace, with its label and metadata; no other flow is. */
  lemma SnapshotShowsFlows(active: map<FlowId, FlowRow>, snapshot: seq<WorkspaceInfo>, f: FlowId)
    requires Agrees(active, snapshot)
    ensures f in active <==> exists w, x :: Shows(snapshot, w, x, f)
    ensures forall w, x | Shows(snapshot, w, x, f) ::
              && w.workspaceId == active[f].workspaceId
              && x.flowLabel == active[f].flowLabel && x.metadata == active[f].metadata
  {
    var cached :| SameButActivity(active, cached) && Fresh(cached, snapshot);
    var listing :| GroupsListing(cached, snapshot, listing);
    forall w, x | Shows(snapshot, w, x, f)
      ensures f in active && w.workspaceId == active[f].workspaceId
      ensures x.flowLabel == active[f].flowLabel && x.metadata == active[f].metadata
    {
      ShownIsActive(cached, snapshot, listing, w, x);
    }
    if f in active {
      var w, x := ActiveIsShown(cached, snapshot, listing, f);
      assert Shows(snapshot, w, x, f);
    }
  }

  ghost predicate DistinctInfos(xs: seq<FlowInfo>) {
    forall i, j | 0 <= i < j < |xs| :: xs[i].flowId != xs[j].flowId
  }

  /** A flow is shown in one group only, and once in it. */
  lemma ShownOnce(active: map<FlowId, FlowRow>, snapshot: seq<WorkspaceInfo>, f: FlowId)
    requires Agrees(active, snapshot)
    ensures forall w, x, v, y | Shows(snapshot, w, x, f) && Shows(snapshot, v, y, f) :: w == v
    ensures forall w | w in snapshot :: DistinctInfos(w.activeFlows)
  {
    SnapshotShowsFlows(active, snapshot, f);
    var cached :| SameButActivity(active, cached) && Fresh(cached, snapshot);
    var listing :| GroupsListing(cached, snapshot, listing);
    forall w, x, v, y | Shows(snapshot, w, x, f) && Shows(snapshot, v, y, f)
      ensures w == v
    {
      assert w.workspaceId == v.workspaceId;
      SameGroup(snapshot, w, v);
    }
    forall w | w in snapshot ensures DistinctInfos(w.activeFlows) {
      assert IsGroup(listing, w);
      FlowsOfDistinct(listing, w.workspaceId);
    }
  }

  lemma SameGroup(ws: seq<WorkspaceInfo>, w: WorkspaceInfo, v: WorkspaceInfo)
    requires DistinctIds(ws) && w in ws && v in ws && w.workspaceId == v.workspaceId
    ensures w == v
  {
    var i :| 0 <= i < |ws| && ws[i] == w;
    var j :| 0 <= j < |ws| && ws[j] == v;
    assert i == j;
  }

  /******* What the groups say, field by field *******/

  /** The flow is shown in its workspace with its row's label, metadata and activity time. */
  ghost predicate ShowsRow(active: map<FlowId, FlowRow>, id: WorkspaceId, x: FlowInfo) {
    && x.flowId in active
    && id == active[x.flowId].workspaceId
    && x.flowLabel == active[x.flowId].flowLabel
    && x.metadata == active[x.flowId].metadata
    && x.lastActivity == active[x.flowId].lastActivity
  }

  ghost predicate ShowsRows(active: map<FlowId, FlowRow>, ws: seq<WorkspaceInfo>) {
    forall w, x | w in ws && x in w.activeFlows :: ShowsRow(active, w.workspaceId, x)
  }

  /** The flow gives the group its names, and no flow of its workspace was registered later. */
  ghost predicate Names(active: map<FlowId, FlowRow>, w: WorkspaceInfo, f: FlowId) {
    && f in active && active[f].workspaceId == w.workspaceId
    && w.displayName == active[f].displayName && w.absPath == active[f].absPath
    && forall g | g in active && active[g].workspaceId == w.workspaceId :: active[g].registeredAt <= active[f].registeredAt
  }

  ghost predicate NotOlder(active: map<FlowId, FlowRow>, f: FlowId, g: FlowId) {
    f in active && g in active && active[f].registeredAt >= active[g].registeredAt
  }

  ghost predicate NewestShownFirst(active: map<FlowId, FlowRow>, xs: seq<FlowInfo>) {
    forall i, j | 0 <= i < j < |xs| :: NotOlder(active, xs[i].flowId, xs[j].flowId)
  }

  /** Each group is named by a newest flow of its workspace and shows the flows newest first. */
  ghost predicate NamedByNewest(active: map<FlowId, FlowRow>, ws: seq<WorkspaceInfo>) {
    forall w | w in ws :: (exists f :: Names(active, w, f)) && NewestShownFirst(active, w.activeFlows)
  }

  lemma {:induction false} FirstIsNewest(flows: seq<ListedFlow>, ws: WorkspaceId, f: ListedFlow)
    requires NewestFirst(flows) && f in flows && f.row.workspaceId == ws
    ensures FirstOf(flows, ws).Some? && FirstOf(flows, ws).value.row.registeredAt >= f.row.registeredAt
  {
    if flows[0].row.workspaceId != ws {
      assert f in flows[1..];
      FirstIsNewest(flows[1..], ws, f);
    }
  }

  /** The shown flows were listed, in the order they are shown. */
  lemma {:induction false} FlowsOfOrder(flows: seq<ListedFlow>, ws: WorkspaceId, i: nat, j: nat) returns (k: nat, l: nat)
    requires i < j < |FlowsOf(flows, ws)|
    ensures k < l < |flows| && flows[k].flowId == FlowsOf(flows, ws)[i].flowId && flows[l].flowId == FlowsOf(flows, ws)[j].flowId
  {
    var front, f := flows[..|flows| - 1], flows[|flows| - 1];
    if j < |FlowsOf(front, ws)| {
      k, l := FlowsOfOrder(front, ws, i, j);
    } else {
      var x := FlowsOf(front, ws)[i];
      FlowsOfMembers(front, ws, x);
      var e :| e in front && e.row.workspaceId == ws && InfoOf(e) == x;
      k :| 0 <= k < |front| && front[k] == e;
      l := |flows| - 1;
    }
  }

  lemma GroupShows(rows: map<FlowId, FlowRow>, w: WorkspaceInfo, listing: seq<ListedFlow>, x: FlowInfo)
    requires Lists(rows, listing) && IsGroup(listing, w) && x in w.activeFlows
    ensures ShowsRow(rows, w.workspaceId, x)
  {
    FlowsOfMembers(listing, w.workspaceId, x);
    var f :| f in listing && f.row.workspaceId == w.workspaceId && InfoOf(f) == x;
  }

  lemma GroupOrder(rows: map<FlowId, FlowRow>, w: WorkspaceInfo, listing: seq<ListedFlow>)
    requires Lists(rows, listing) && NewestFirst(listing) && IsGroup(listing, w)
    ensures NewestShownFirst(rows, w.activeFlows)
  {
    var xs := w.activeFlows;
    forall i, j | 0 <= i < j < |xs| ensures NotOlder(rows, xs[i].flowId, xs[j].flowId) {
      var k, l := FlowsOfOrder(listing, w.workspaceId, i, j);
      assert listing[k] in listing && listing[l] in listing;
    }
  }

  lemma GroupsTell(rows: map<FlowId, FlowRow>, ws: seq<WorkspaceInfo>, listing: seq<ListedFlow>)
    requires Lists(rows, listing) && NewestFirst(listing) && IsGroupBy(listing, ws)
    ensures ShowsRows(rows, ws) && NamedByNewest(rows, ws)
  {
    forall w, x | w in ws && x in w.activeFlows ensures ShowsRow(rows, w.workspaceId, x) {
      GroupShows(rows, w, listing, x);
    }
    forall w | w in ws ensures (exists f :: Names(rows, w, f)) && NewestShownFirst(rows, w.activeFlows) {
      var f := GroupNamed(rows, w, listing);
      GroupOrder(rows, w, listing);
    }
  }

  lemma GroupNamed(rows: map<FlowId, FlowRow>, w: WorkspaceInfo, listing: seq<ListedFlow>) returns (f: FlowId)
    requires Lists(rows, listing) && NewestFirst(listing) && IsGroup(listing, w)
    ensures Names(rows, w, f)
  {
    FirstOfFound(listing, w.workspaceId);
    f := FirstOf(listing, w.workspaceId).value.flowId;
    forall g | g in rows && rows[g].workspaceId == w.workspaceId ensures rows[g].registeredAt <= rows[f].registeredAt {
      FirstIsNewest(listing, w.workspaceId, ListedFlow(g, rows[g]));
    }
  }

  /** A snapshot just rebuilt tells everything as the rows have it, activity times too. */
  lemma FreshSnapshotTells(active: map<FlowId, FlowRow>, snapshot: seq<WorkspaceInfo>)
    requires Fresh(active, snapshot)
    ensures ShowsRows(active, snapshot) && NamedByNewest(active, snapshot)
  {
    var listing :| GroupsListing(active, snapshot, listing);
    GroupsTell(active, snapshot, listing);
  }

  /** Its names and its order last until the next rebuild. */
  lemma SnapshotNames(active: map<FlowId, FlowRow>, snapshot: seq<WorkspaceInfo>)
    requires Agrees(active, snapshot)
    ensures NamedByNewest(active, snapshot)
  {
    var cached :| SameButActivity(active, cached) && Fresh(cached, snapshot);
    FreshSnapshotTells(cached, snapshot);
    NamesStay(active, cached, snapshot);
  }

  lemma NamesStay(active: map<FlowId, FlowRow>, cached: map<FlowId, FlowRow>, snapshot: seq<WorkspaceInfo>)
    requires SameButActivity(active, cached) && NamedByNewest(cached, snapshot)
    ensures NamedByNewest(active, snapshot)
  {
    forall w | w in snapshot ensures (exists f :: Names(active, w, f)) && NewestShownFirst(active, w.activeFlows) {
      var f := StillNames(active, cached, w);
      StillOrdered(active, cached, w.activeFlows);
    }
  }

  lemma StillNames(active: map<FlowId, FlowRow>, cached: map<FlowId, FlowRow>, w: WorkspaceInfo) returns (f: FlowId)
    requires SameButActivity(active, cached) && exists g :: Names(cached, w, g)
    ensures Names(active, w, f)
  {
    f :| Names(cached, w, f);
    assert forall g | g in active :: cached[g].workspaceId == active[g].workspaceId && cached[g].registeredAt == active[g].registeredAt;
  }

  lemma StillOrdered(active: map<FlowId, FlowRow>, cached: map<FlowId, FlowRow>, xs: seq<FlowInfo>)
    requires SameButActivity(active, cached) && NewestShownFirst(cached, xs)
    ensures NewestShownFirst(active, xs)
  {
    assert forall f, g | NotOlder(cached, f, g) :: NotOlder(active, f, g);
  }
}

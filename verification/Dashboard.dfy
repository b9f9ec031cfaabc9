/**
 The phone's side of the snapshot: grouping the flat flow list it asks for on connect,
 and flattening a heartbeat into the rows of the dashboard.
 */
module Dashboard {
  import opened Payload
  import opened Ledger
  import opened Workspace

  /******* Grouping the flat list *******/

  /** The workspace ids in order of first occurrence, as an insertion-ordered group-by keeps them. */
  function WorkspaceIds(flows: seq<ListedFlow>): seq<WorkspaceId> {
    if flows == [] then []
    else
      var ids := WorkspaceIds(flows[..|flows| - 1]);
      var id := flows[|flows| - 1].row.workspaceId;
      if id in ids then ids else ids + [id]
  }

  lemma {:induction false} WorkspaceIdsExact(flows: seq<ListedFlow>)
    ensures forall i, j | 0 <= i < j < |WorkspaceIds(flows)| :: WorkspaceIds(flows)[i] != WorkspaceIds(flows)[j]
    ensures forall id :: id in WorkspaceIds(flows) <==> exists f :: f in flows && f.row.workspaceId == id
  {
    if flows == [] {
    } else {
      var front, f := flows[..|flows| - 1], flows[|flows| - 1];
      WorkspaceIdsExact(front);
      assert forall g :: g in flows <==> g in front || g == f;
      assert f in flows;
    }
  }

  function GroupFor(flows: seq<ListedFlow>, id: WorkspaceId): (w: WorkspaceInfo)
    requires exists f :: f in flows && f.row.workspaceId == id
    ensures w.workspaceId == id && IsGroup(flows, w)
  {
    FirstOfFound(flows, id);
    var first := FirstOf(flows, id).value.row;
    WorkspaceInfo(id, first.displayName, first.absPath, FlowsOf(flows, id))
  }

  /** `ActiveFlowsResult.toDaemonHeartbeat().workspaces` */
  function ToWorkspaces(flows: seq<ListedFlow>): (ws: seq<WorkspaceInfo>) {
    WorkspaceIdsExact(flows);
    var ids := WorkspaceIds(flows);
    seq(|ids|, i requires 0 <= i < |ids| => assert ids[i] in ids; GroupFor(flows, ids[i]))
  }

  lemma PhoneGroupsFlows(flows: seq<ListedFlow>)
    ensures IsGroupBy(flows, ToWorkspaces(flows))
  {
    WorkspaceIdsExact(flows);
    var ids, ws := WorkspaceIds(flows), ToWorkspaces(flows);
    forall f | f in flows ensures exists w :: w in ws && w.workspaceId == f.row.workspaceId {
      assert f.row.workspaceId in ids;
      var i :| 0 <= i < |ids| && ids[i] == f.row.workspaceId;
      assert ws[i] in ws;
    }
  }

  lemma {:induction false} IdsByFirst(flows: seq<ListedFlow>, i: nat, j: nat) returns (k: nat)
    requires i < j < |WorkspaceIds(flows)|
    ensures k < |flows| && flows[k].row.workspaceId == WorkspaceIds(flows)[i]
    ensures forall l | 0 <= l <= k :: flows[l].row.workspaceId != WorkspaceIds(flows)[j]
  {
    var front := flows[..|flows| - 1];
    if j < |WorkspaceIds(front)| {
      k := IdsByFirst(front, i, j);
    } else {
      WorkspaceIdsExact(front);
      assert WorkspaceIds(front)[i] in WorkspaceIds(front);
      var f :| f in front && f.row.workspaceId == WorkspaceIds(front)[i];
      k :| 0 <= k < |front| && front[k] == f;
      assert forall l | 0 <= l <= k :: front[l] in front && front[l] == flows[l];
    }
  }

  /** The phone's groups come in the order in which their first flows are listed. */
  lemma PhoneOrder(flows: seq<ListedFlow>, i: nat, j: nat) returns (k: nat)
    requires i < j < |ToWorkspaces(flows)|
    ensures k < |flows| && flows[k].row.workspaceId == ToWorkspaces(flows)[i].workspaceId
    ensures forall l | 0 <= l <= k :: flows[l].row.workspaceId != ToWorkspaces(flows)[j].workspaceId
  {
    k := IdsByFirst(flows, i, j);
  }

  lemma {:induction false} DistinctCounts<T>(a: seq<T>, x: T)
    requires forall i, j | 0 <= i < j < |a| :: a[i] != a[j]
    ensures multiset(a)[x] == if x in a then 1 else 0
  {
    if a == [] {
    } else {
      DistinctCounts(a[1..], x);
      assert a == [a[0]] + a[1..];
    }
  }

  lemma SameElementsSameCounts<T>(a: seq<T>, b: seq<T>)
    requires forall i, j | 0 <= i < j < |a| :: a[i] != a[j]
    requires forall i, j | 0 <= i < j < |b| :: b[i] != b[j]
    requires forall x :: x in a <==> x in b
    ensures multiset(a) == multiset(b)
  {
    forall x ensures multiset(a)[x] == multiset(b)[x] {
      DistinctCounts(a, x);
      DistinctCounts(b, x);
    }
  }

  /** Any two groupings of one list are the same groups, up to the order of workspaces. */
  lemma GroupingsAgree(flows: seq<ListedFlow>, a: seq<WorkspaceInfo>, b: seq<WorkspaceInfo>)
    requires IsGroupBy(flows, a) && IsGroupBy(flows, b)
    ensures multiset(a) == multiset(b)
  {
    forall x ensures x in a <==> x in b {
      if x in a {
        GroupElsewhere(flows, a, b, x);
      }
      if x in b {
        GroupElsewhere(flows, b, a, x);
      }
    }
    SameElementsSameCounts(a, b);
  }

  lemma GroupElsewhere(flows: seq<ListedFlow>, a: seq<WorkspaceInfo>, b: seq<WorkspaceInfo>, w: WorkspaceInfo)
    requires IsGroupBy(flows, a) && IsGroupBy(flows, b) && w in a
    ensures w in b
  {
    assert IsGroup(flows, w);
    FirstOfFound(flows, w.workspaceId);
    var f := FirstOf(flows, w.workspaceId).value;
    var v :| v in b && v.workspaceId == f.row.workspaceId;
    assert IsGroup(flows, v);
  }

  ghost predicate StrictlyNewest(flows: seq<ListedFlow>) {
    forall i, j | 0 <= i < j < |flows| :: flows[i].row.registeredAt > flows[j].row.registeredAt
  }

  lemma {:induction false} SameNewest(a: seq<ListedFlow>, b: seq<ListedFlow>)
    requires StrictlyNewest(a) && StrictlyNewest(b) && forall f :: f in a <==> f in b
    ensures a == b
  {
    if a == [] {
      assert forall i | 0 <= i < |b| :: b[i] in b;
    } else {
      assert a[0] in b && b[|b| - 1] in b;
      assert b[0] in a by {
        assert b[0] in b;
      }
      var i :| 0 <= i < |a| && a[i] == b[0];
      var j :| 0 <= j < |b| && b[j] == a[0];
      assert a[0] == b[0];
      forall f ensures f in a[1..] <==> f in b[1..] {
        assert f in a <==> f == a[0] || f in a[1..];
        assert f in b <==> f == b[0] || f in b[1..];
        assert a[0] !in a[1..] && b[0] !in b[1..];
      }
      SameNewest(a[1..], b[1..]);
    }
  }

  /** The listed flows of one workspace. */
  function RowsOf(flows: seq<ListedFlow>, ws: WorkspaceId): seq<ListedFlow> {
    if flows == [] then []
    else
      var front, f := flows[..|flows| - 1], flows[|flows| - 1];
      if f.row.workspaceId == ws then RowsOf(front, ws) + [f] else RowsOf(front, ws)
  }

  function Infos(flows: seq<ListedFlow>): seq<FlowInfo> {
    seq(|flows|, i requires 0 <= i < |flows| => InfoOf(flows[i]))
  }

  lemma {:induction false} RowsOfMembers(flows: seq<ListedFlow>, ws: WorkspaceId, f: ListedFlow)
    ensures f in RowsOf(flows, ws) <==> f in flows && f.row.workspaceId == ws
  {
    if flows == [] {
    } else {
      var front, last := flows[..|flows| - 1], flows[|flows| - 1];
      RowsOfMembers(front, ws, f);
      assert f in flows <==> f in front || f == last;
    }
  }

  /** A workspace's group is read off its rows alone. */
  lemma {:induction false} GroupFromRows(flows: seq<ListedFlow>, ws: WorkspaceId)
    ensures FlowsOf(flows, ws) == Infos(RowsOf(flows, ws))
    ensures FirstOf(flows, ws) == if RowsOf(flows, ws) == [] then None else Some(RowsOf(flows, ws)[0])
  {
    if flows == [] {
    } else {
      var front, f := flows[..|flows| - 1], flows[|flows| - 1];
      assert flows == front + [f];
      GroupFromRows(front, ws);
      FirstOfAppended(front, f, ws);
    }
  }

  lemma RowsOfAppend(flows: seq<ListedFlow>, f: ListedFlow, ws: WorkspaceId)
    ensures RowsOf(flows + [f], ws) == if f.row.workspaceId == ws then RowsOf(flows, ws) + [f] else RowsOf(flows, ws)
  {
    assert (flows + [f])[..|flows|] == flows;
  }

  /** No two flows of one workspace were registered in the same second. */
  ghost predicate NoWorkspaceTies(rows: map<FlowId, FlowRow>) {
    forall f, g | f in rows && g in rows && f != g && rows[f].workspaceId == rows[g].workspaceId ::
      rows[f].registeredAt != rows[g].registeredAt
  }

  ghost predicate NoTiesIn(flows: seq<ListedFlow>, ws: WorkspaceId) {
    forall i, j | 0 <= i < j < |flows| && flows[i].row.workspaceId == flows[j].row.workspaceId == ws ::
      flows[i].row.registeredAt != flows[j].row.registeredAt
  }

  lemma ListedWithoutTies(rows: map<FlowId, FlowRow>, flows: seq<ListedFlow>, ws: WorkspaceId)
    requires Lists(rows, flows) && NoWorkspaceTies(rows)
    ensures NoTiesIn(flows, ws)
  {
    assert forall i | 0 <= i < |flows| :: flows[i] in flows;
  }

  lemma {:induction false} RowsStrictlyNewest(flows: seq<ListedFlow>, ws: WorkspaceId)
    requires NewestFirst(flows) && NoTiesIn(flows, ws)
    ensures StrictlyNewest(RowsOf(flows, ws))
  {
    if flows == [] {
    } else {
      var front, f := flows[..|flows| - 1], flows[|flows| - 1];
      RowsStrictlyNewest(front, ws);
      var rows := RowsOf(front, ws);
      forall i | 0 <= i < |rows| && f.row.workspaceId == ws ensures rows[i].row.registeredAt > f.row.registeredAt {
        RowsOfMembers(front, ws, rows[i]);
        var k :| 0 <= k < |front| && front[k] == rows[i];
        assert flows[k] == rows[i];
      }
    }
  }

  ghost predicate IsListing(active: map<FlowId, FlowRow>, flows: seq<ListedFlow>) {
    Lists(active, flows) && NewestFirst(flows)
  }

  lemma ListedExactly(active: map<FlowId, FlowRow>, flows: seq<ListedFlow>, f: ListedFlow)
    requires Lists(active, flows)
    ensures f in flows <==> f.flowId in active && f.row == active[f.flowId]
  {
  }

  lemma SameRows(active: map<FlowId, FlowRow>, a: seq<ListedFlow>, b: seq<ListedFlow>, ws: WorkspaceId)
    requires IsListing(active, a) && IsListing(active, b) && NoWorkspaceTies(active)
    ensures RowsOf(a, ws) == RowsOf(b, ws)
  {
    ListedWithoutTies(active, a, ws);
    ListedWithoutTies(active, b, ws);
    RowsStrictlyNewest(a, ws);
    RowsStrictlyNewest(b, ws);
    forall f ensures f in RowsOf(a, ws) <==> f in RowsOf(b, ws) {
      RowsOfMembers(a, ws, f);
      RowsOfMembers(b, ws, f);
      ListedExactly(active, a, f);
      ListedExactly(active, b, f);
    }
    SameNewest(RowsOf(a, ws), RowsOf(b, ws));
  }

  lemma GroupsCarryOver(active: map<FlowId, FlowRow>, a: seq<ListedFlow>, b: seq<ListedFlow>, ws: seq<WorkspaceInfo>)
    requires IsListing(active, a) && IsListing(active, b) && NoWorkspaceTies(active) && IsGroupBy(b, ws)
    ensures IsGroupBy(a, ws)
  {
    forall w | w in ws ensures IsGroup(a, w) {
      SameRows(active, a, b, w.workspaceId);
      GroupFromRows(a, w.workspaceId);
      GroupFromRows(b, w.workspaceId);
    }
    forall f | f in a ensures f in b {
      ListedExactly(active, a, f);
      ListedExactly(active, b, f);
    }
  }

  /**
   The phone groups a list of its own asking. If no two flows of one workspace were
   registered in the same second, its groups are those of the daemon's snapshot.
   */
  lemma PhoneAgreesWithDaemon(
    active: map<FlowId, FlowRow>, snapshot: seq<WorkspaceInfo>, listing: seq<ListedFlow>, phone: seq<ListedFlow>)
    requires GroupsListing(active, snapshot, listing) && IsListing(active, phone) && NoWorkspaceTies(active)
    ensures multiset(ToWorkspaces(phone)) == multiset(snapshot)
  {
    PhoneGroupsFlows(phone);
    GroupsCarryOver(active, listing, phone, ToWorkspaces(phone));
    GroupingsAgree(listing, ToWorkspaces(phone), snapshot);
  }

  /******* When ties do harm *******/

  function Swapped(flows: seq<ListedFlow>, i: nat, j: nat): (r: seq<ListedFlow>)
    requires i < j < |flows|
    ensures |r| == |flows|
  {
    flows[i := flows[j]][j := flows[i]]
  }

  lemma SwappedMembers(flows: seq<ListedFlow>, i: nat, j: nat, f: ListedFlow)
    requires i < j < |flows|
    ensures f in Swapped(flows, i, j) <==> f in flows
  {
    var r := Swapped(flows, i, j);
    if f in flows {
      var k :| 0 <= k < |flows| && flows[k] == f;
      assert r[if k == i then j else if k == j then i else k] == f;
    }
    if f in r {
      var k :| 0 <= k < |r| && r[k] == f;
      assert flows[if k == i then j else if k == j then i else k] == f;
    }
  }

  /** Two rows of the same second may as well be listed the other way round. */
  lemma SwappedListing(active: map<FlowId, FlowRow>, flows: seq<ListedFlow>, i: nat, j: nat)
    requires IsListing(active, flows) && i < j < |flows|
    requires flows[i].row.registeredAt == flows[j].row.registeredAt
    ensures IsListing(active, Swapped(flows, i, j))
  {
    forall f ensures f in Swapped(flows, i, j) <==> f in flows {
      SwappedMembers(flows, i, j, f);
    }
  }

  /** A row stands in its workspace's rows after those listed before it. */
  lemma {:induction false} RowPosition(flows: seq<ListedFlow>, ws: WorkspaceId, i: nat)
    requires i < |flows| && flows[i].row.workspaceId == ws
    ensures |RowsOf(flows[..i], ws)| < |RowsOf(flows, ws)| && RowsOf(flows, ws)[|RowsOf(flows[..i], ws)|] == flows[i]
  {
    var front, f := flows[..|flows| - 1], flows[|flows| - 1];
    if i == |flows| - 1 {
      assert flows[..i] == front;
    } else {
      assert front[..i] == flows[..i];
      RowPosition(front, ws, i);
    }
  }

  lemma SwapChangesGroup(flows: seq<ListedFlow>, i: nat, j: nat)
    requires i < j < |flows| && flows[i].row.workspaceId == flows[j].row.workspaceId
    requires flows[i].flowId != flows[j].flowId
    ensures FlowsOf(flows, flows[i].row.workspaceId) != FlowsOf(Swapped(flows, i, j), flows[i].row.workspaceId)
  {
    var ws, swapped := flows[i].row.workspaceId, Swapped(flows, i, j);
    assert swapped[..i] == flows[..i];
    RowPosition(flows, ws, i);
    RowPosition(swapped, ws, i);
    GroupFromRows(flows, ws);
    GroupFromRows(swapped, ws);
    var k := |RowsOf(flows[..i], ws)|;
    assert FlowsOf(flows, ws)[k].flowId != FlowsOf(swapped, ws)[k].flowId;
  }

  lemma DifferentGroup(a: seq<ListedFlow>, b: seq<ListedFlow>, f: ListedFlow)
    requires f in a && FlowsOf(a, f.row.workspaceId) != FlowsOf(b, f.row.workspaceId)
    ensures multiset(ToWorkspaces(a)) != multiset(ToWorkspaces(b))
  {
    PhoneGroupsFlows(a);
    PhoneGroupsFlows(b);
    var w :| w in ToWorkspaces(a) && w.workspaceId == f.row.workspaceId;
    assert IsGroup(a, w);
    assert w in ToWorkspaces(b) ==> IsGroup(b, w);
    assert w in multiset(ToWorkspaces(a)) && w !in multiset(ToWorkspaces(b));
  }

  lemma PlaceFor(flows: seq<ListedFlow>, f: ListedFlow) returns (n: nat)
    requires NewestFirst(flows)
    ensures n <= |flows| && NewestFirst(flows[..n] + [f] + flows[n..])
  {
    n := 0;
    while n < |flows| && flows[n].row.registeredAt >= f.row.registeredAt
      invariant n <= |flows| && forall k | 0 <= k < n :: flows[k].row.registeredAt >= f.row.registeredAt
    {
      n := n + 1;
    }
  }

  lemma {:induction false} SomeListing(active: map<FlowId, FlowRow>) returns (flows: seq<ListedFlow>)
    ensures IsListing(active, flows)
    decreases |active|
  {
    if active == map[] {
      flows := [];
    } else {
      var f :| f in active;
      var rest := active - {f};
      var listed := SomeListing(rest);
      var e := ListedFlow(f, active[f]);
      var n := PlaceFor(listed, e);
      ListsInserted(rest, listed, n, e);
      assert rest[f := active[f]] == active;
      flows := listed[..n] + [e] + listed[n..];
    }
  }

  ghost predicate OrderIrrelevant(active: map<FlowId, FlowRow>) {
    forall a, b | IsListing(active, a) && IsListing(active, b) :: multiset(ToWorkspaces(a)) == multiset(ToWorkspaces(b))
  }

  /**
   Two listings of the active flows always give the same groups exactly when no two flows
   of one workspace were registered in the same second.
   */
  lemma GroupsAgreeExactly(active: map<FlowId, FlowRow>)
    ensures OrderIrrelevant(active) <==> NoWorkspaceTies(active)
  {
    if NoWorkspaceTies(active) {
      forall a, b | IsListing(active, a) && IsListing(active, b)
        ensures multiset(ToWorkspaces(a)) == multiset(ToWorkspaces(b))
      {
        PhoneGroupsFlows(a);
        PhoneGroupsFlows(b);
        GroupsCarryOver(active, a, b, ToWorkspaces(b));
        GroupingsAgree(a, ToWorkspaces(a), ToWorkspaces(b));
      }
    } else {
      var f, g :| f in active && g in active && f != g && active[f].workspaceId == active[g].workspaceId
                  && active[f].registeredAt == active[g].registeredAt;
      TieDoesHarm(active, f, g);
    }
  }

  lemma TieDoesHarm(active: map<FlowId, FlowRow>, f: FlowId, g: FlowId)
    requires f in active && g in active && f != g
    requires active[f].workspaceId == active[g].workspaceId && active[f].registeredAt == active[g].registeredAt
    ensures !OrderIrrelevant(active)
  {
    var a := SomeListing(active);
    assert ListedFlow(f, active[f]) in a && ListedFlow(g, active[g]) in a;
    var k :| 0 <= k < |a| && a[k] == ListedFlow(f, active[f]);
    var l :| 0 <= l < |a| && a[l] == ListedFlow(g, active[g]);
    var i, j := if k < l then k else l, if k < l then l else k;
    SwappedListing(active, a, i, j);
    SwapChangesGroup(a, i, j);
    assert a[i] in a;
    DifferentGroup(a, Swapped(a, i, j), a[i]);
  }

  ghost predicate SameFlows(w: WorkspaceInfo, v: WorkspaceInfo) {
    w.workspaceId == v.workspaceId && multiset(w.activeFlows) == multiset(v.activeFlows)
  }

  lemma SameMembers(active: map<FlowId, FlowRow>, a: seq<ListedFlow>, b: seq<ListedFlow>, id: WorkspaceId)
    requires Lists(active, a) && Lists(active, b)
    ensures multiset(FlowsOf(a, id)) == multiset(FlowsOf(b, id))
  {
    FlowsOfDistinct(a, id);
    FlowsOfDistinct(b, id);
    forall f ensures f in a <==> f in b {
      assert f in a <==> f.flowId in active && f.row == active[f.flowId];
      assert f in b <==> f.flowId in active && f.row == active[f.flowId];
    }
    forall x ensures x in FlowsOf(a, id) <==> x in FlowsOf(b, id) {
      FlowsOfMembers(a, id, x);
      FlowsOfMembers(b, id, x);
    }
    SameElementsSameCounts(FlowsOf(a, id), FlowsOf(b, id));
  }

  /** Whatever the order of ties, every group of the snapshot is on the phone with the same flows, and no other. */
  lemma PhoneShowsSameFlows(
    active: map<FlowId, FlowRow>, snapshot: seq<WorkspaceInfo>, listing: seq<ListedFlow>, phone: seq<ListedFlow>)
    requires GroupsListing(active, snapshot, listing) && Lists(active, phone)
    ensures forall w | w in snapshot :: exists v :: v in ToWorkspaces(phone) && SameFlows(w, v)
    ensures forall v | v in ToWorkspaces(phone) :: exists w :: w in snapshot && SameFlows(w, v)
  {
    PhoneGroupsFlows(phone);
    forall w | w in snapshot ensures exists v :: v in ToWorkspaces(phone) && SameFlows(w, v) {
      var v := SameGroupElsewhere(active, listing, phone, snapshot, ToWorkspaces(phone), w);
    }
    forall v | v in ToWorkspaces(phone) ensures exists w :: w in snapshot && SameFlows(w, v) {
      var w := SameGroupElsewhere(active, phone, listing, ToWorkspaces(phone), snapshot, v);
    }
  }

  /** The phone's groups tell everything as the rows have it, too. */
  lemma PhoneTells(active: map<FlowId, FlowRow>, phone: seq<ListedFlow>)
    requires Lists(active, phone) && NewestFirst(phone)
    ensures ShowsRows(active, ToWorkspaces(phone)) && NamedByNewest(active, ToWorkspaces(phone))
  {
    PhoneGroupsFlows(phone);
    GroupsTell(active, ToWorkspaces(phone), phone);
  }

  lemma SameGroupElsewhere(
    active: map<FlowId, FlowRow>, a: seq<ListedFlow>, b: seq<ListedFlow>,
    as': seq<WorkspaceInfo>, bs: seq<WorkspaceInfo>, w: WorkspaceInfo)
    returns (v: WorkspaceInfo)
    requires Lists(active, a) && Lists(active, b) && IsGroupBy(a, as') && IsGroupBy(b, bs) && w in as'
    ensures v in bs && SameFlows(w, v) && SameFlows(v, w)
  {
    assert IsGroup(a, w);
    FirstOfFound(a, w.workspaceId);
    var f := FirstOf(a, w.workspaceId).value;
    assert ListedFlow(f.flowId, active[f.flowId]) in b;
    v :| v in bs && v.workspaceId == f.row.workspaceId;
    assert IsGroup(b, v);
    SameMembers(active, a, b, w.workspaceId);
  }

  /******* Flattening into dashboard rows *******/

  datatype Heartbeat = Heartbeat(gracePeriodMs: int, workspaces: seq<WorkspaceInfo>)

  datatype Item =
    | WorkspaceHeader(workspaceId: WorkspaceId, displayName: string, absPath: string, flowCount: nat)
    | FlowItem(flow: FlowInfo, gracePeriodMs: int)
    | EmptyState(message: string)

  function FlowItems(flows: seq<FlowInfo>, grace: int): (items: seq<Item>)
    ensures |items| == |flows|
    ensures forall i | 0 <= i < |items| :: items[i] == FlowItem(flows[i], grace)
  {
    seq(|flows|, i requires 0 <= i < |flows| => FlowItem(flows[i], grace))
  }

  function HeaderOf(w: WorkspaceInfo): Item {
    WorkspaceHeader(w.workspaceId, w.displayName, w.absPath, |w.activeFlows|)
  }

  function Flatten(ws: seq<WorkspaceInfo>, grace: int): seq<Item> {
    if ws == [] then []
    else [HeaderOf(ws[0])] + (FlowItems(ws[0].activeFlows, grace) + Flatten(ws[1..], grace))
  }

  lemma FlattenStep(ws: seq<WorkspaceInfo>, i: nat, grace: int, before: seq<Item>, items: seq<Item>)
    requires i < |ws| && items == before + [HeaderOf(ws[i])] + FlowItems(ws[i].activeFlows, grace)[..|ws[i].activeFlows|]
    ensures items + Flatten(ws[i + 1..], grace) == before + Flatten(ws[i..], grace)
  {
    var rows := FlowItems(ws[i].activeFlows, grace);
    assert ws[i..][1..] == ws[i + 1..] && rows[..|rows|] == rows;
    assert items + Flatten(ws[i + 1..], grace) == before + ([HeaderOf(ws[i])] + (rows + Flatten(ws[i + 1..], grace)));
  }

  /** A header says the id, names and size of a workspace of the heartbeat, a flow row the flow and the grace period. */
  ghost predicate RowShows(item: Item, ws: seq<WorkspaceInfo>, grace: int) {
    match item
    case WorkspaceHeader(id, name, path, n) =>
      exists w :: w in ws && w.workspaceId == id && w.displayName == name && w.absPath == path && |w.activeFlows| == n
    case FlowItem(x, g) => g == grace && exists w :: w in ws && x in w.activeFlows
    case EmptyState(_) => false
  }

  lemma {:induction false} FlattenShows(ws: seq<WorkspaceInfo>, grace: int, item: Item)
    ensures item in Flatten(ws, grace) <==> RowShows(item, ws, grace)
  {
    if ws == [] {
    } else {
      FlattenShows(ws[1..], grace, item);
      var rows := FlowItems(ws[0].activeFlows, grace);
      assert item in rows <==> item.FlowItem? && item.gracePeriodMs == grace && item.flow in ws[0].activeFlows by {
        if item.FlowItem? && item.gracePeriodMs == grace && item.flow in ws[0].activeFlows {
          var i :| 0 <= i < |rows| && ws[0].activeFlows[i] == item.flow;
          assert rows[i] == item;
        }
      }
      assert forall w :: w in ws <==> w == ws[0] || w in ws[1..];
    }
  }

  /** Two nested loops adding to one list. */
  method FromHeartbeat(heartbeat: Option<Heartbeat>) returns (items: seq<Item>)
    ensures heartbeat.None? ==> items == [EmptyState("Waiting for heartbeat\U{2026}")]
    ensures heartbeat.Some? && heartbeat.value.workspaces == [] ==> items == [EmptyState("No active workspaces")]
    ensures heartbeat.Some? && heartbeat.value.workspaces != [] ==>
              items == Flatten(heartbeat.value.workspaces, heartbeat.value.gracePeriodMs)
  {
    if heartbeat.None? {
      return [EmptyState("Waiting for heartbeat\U{2026}")];
    }
    var ws, grace := heartbeat.value.workspaces, heartbeat.value.gracePeriodMs;
    if ws == [] {
      return [EmptyState("No active workspaces")];
    }
    items := [];
    for i := 0 to |ws|
      invariant items + Flatten(ws[i..], grace) == Flatten(ws, grace)
    {
      ghost var before := items;
      items := items + [HeaderOf(ws[i])];
      var flows := ws[i].activeFlows;
      ghost var rows := FlowItems(flows, grace);
      for j := 0 to |flows|
        invariant items == before + [HeaderOf(ws[i])] + rows[..j]
      {
        items := items + [FlowItem(flows[j], grace)];
      }
      FlattenStep(ws, i, grace, before, items);
    }
    assert ws[|ws|..] == [];
  }

  /** The flows of the `n` rows from the front. */
  function FlowsIn(items: seq<Item>): seq<FlowInfo> {
    if items == [] then []
    else (if items[0].FlowItem? then [items[0].flow] else []) + FlowsIn(items[1..])
  }

  /** Reading rows back: each header claims as many of the following rows as it counts. */
  function Unflatten(items: seq<Item>): seq<WorkspaceInfo> {
    if items == [] || !items[0].WorkspaceHeader? then []
    else
      var h, n := items[0], items[0].flowCount;
      if n > |items| - 1 then []
      else [WorkspaceInfo(h.workspaceId, h.displayName, h.absPath, FlowsIn(items[1..n + 1]))] + Unflatten(items[n + 1..])
  }

  lemma {:induction false} FlowsInItems(flows: seq<FlowInfo>, grace: int)
    ensures FlowsIn(FlowItems(flows, grace)) == flows
  {
    if flows == [] {
    } else {
      assert FlowItems(flows, grace)[1..] == FlowItems(flows[1..], grace);
      FlowsInItems(flows[1..], grace);
    }
  }

  /** Flattening loses nothing: the rows determine the workspaces and their flows. */
  lemma {:induction false} FlattenRoundTrip(ws: seq<WorkspaceInfo>, grace: int)
    ensures Unflatten(Flatten(ws, grace)) == ws
  {
    if ws == [] {
    } else {
      var items, own := Flatten(ws, grace), FlowItems(ws[0].activeFlows, grace);
      assert items[1..|own| + 1] == own && items[|own| + 1..] == Flatten(ws[1..], grace);
      FlowsInItems(ws[0].activeFlows, grace);
      FlattenRoundTrip(ws[1..], grace);
    }
  }

  function CountSum(items: seq<Item>): nat {
    if items == [] then 0
    else (if items[0].WorkspaceHeader? then items[0].flowCount else 0) + CountSum(items[1..])
  }

  function GroupSizes(ws: seq<WorkspaceInfo>): nat {
    if ws == [] then 0 else |ws[0].activeFlows| + GroupSizes(ws[1..])
  }

  lemma {:induction false} CountSumSplit(a: seq<Item>, b: seq<Item>)
    ensures CountSum(a + b) == CountSum(a) + CountSum(b)
  {
    if a == [] {
      assert a + b == b;
    } else {
      assert (a + b)[1..] == a[1..] + b;
      CountSumSplit(a[1..], b);
    }
  }

  lemma {:induction false} FlowsInSplit(a: seq<Item>, b: seq<Item>)
    ensures FlowsIn(a + b) == FlowsIn(a) + FlowsIn(b)
  {
    if a == [] {
      assert a + b == b;
    } else {
      FlowsInSplit(a[1..], b);
      var own := if a[0].FlowItem? then [a[0].flow] else [];
      assert (a + b)[1..] == a[1..] + b;
      assert FlowsIn(a + b) == own + (FlowsIn(a[1..]) + FlowsIn(b));
      Associative(own, FlowsIn(a[1..]), FlowsIn(b));
    }
  }

  lemma Associative<T>(a: seq<T>, b: seq<T>, c: seq<T>)
    ensures a + (b + c) == a + b + c
  {
  }

  lemma {:induction false} FlowItemsCountNothing(flows: seq<FlowInfo>, grace: int)
    ensures CountSum(FlowItems(flows, grace)) == 0
  {
    if flows == [] {
    } else {
      assert FlowItems(flows, grace)[1..] == FlowItems(flows[1..], grace);
      FlowItemsCountNothing(flows[1..], grace);
    }
  }

  lemma {:induction false} FlattenCounts(ws: seq<WorkspaceInfo>, grace: int)
    ensures CountSum(Flatten(ws, grace)) == GroupSizes(ws) == |FlowsIn(Flatten(ws, grace))|
  {
    if ws == [] {
    } else {
      var own, rest := FlowItems(ws[0].activeFlows, grace), Flatten(ws[1..], grace);
      assert Flatten(ws, grace)[1..] == own + rest;
      CountSumSplit(own, rest);
      FlowsInSplit(own, rest);
      FlowItemsCountNothing(ws[0].activeFlows, grace);
      FlowsInItems(ws[0].activeFlows, grace);
      FlattenCounts(ws[1..], grace);
    }
  }

  /** How many of the flows are in one of the workspaces `ids`. */
  function Covered(flows: seq<ListedFlow>, ids: seq<WorkspaceId>): nat {
    if ids == [] then 0 else |FlowsOf(flows, ids[0])| + Covered(flows, ids[1..])
  }

  lemma {:induction false} CoveredStep(flows: seq<ListedFlow>, ids: seq<WorkspaceId>)
    requires flows != [] && forall i, j | 0 <= i < j < |ids| :: ids[i] != ids[j]
    ensures Covered(flows, ids) == Covered(flows[..|flows| - 1], ids) + if flows[|flows| - 1].row.workspaceId in ids then 1 else 0
  {
    if ids == [] {
    } else {
      CoveredStep(flows, ids[1..]);
      assert forall id :: id in ids <==> id == ids[0] || id in ids[1..];
    }
  }

  lemma {:induction false} CoveredAll(flows: seq<ListedFlow>, ids: seq<WorkspaceId>)
    requires forall i, j | 0 <= i < j < |ids| :: ids[i] != ids[j]
    requires forall f | f in flows :: f.row.workspaceId in ids
    ensures Covered(flows, ids) == |flows|
  {
    if flows == [] {
      CoveredNone(ids);
    } else {
      CoveredStep(flows, ids);
      assert flows[|flows| - 1] in flows;
      CoveredAll(flows[..|flows| - 1], ids);
    }
  }

  lemma {:induction false} CoveredNone(ids: seq<WorkspaceId>)
    ensures Covered([], ids) == 0
  {
    if ids == [] {
    } else {
      CoveredNone(ids[1..]);
    }
  }

  function IdsOf(ws: seq<WorkspaceInfo>): (ids: seq<WorkspaceId>)
    ensures |ids| == |ws| && forall i | 0 <= i < |ws| :: ids[i] == ws[i].workspaceId
  {
    seq(|ws|, i requires 0 <= i < |ws| => ws[i].workspaceId)
  }

  lemma {:induction false} GroupSizesCovered(flows: seq<ListedFlow>, ws: seq<WorkspaceInfo>)
    requires forall w | w in ws :: IsGroup(flows, w)
    ensures GroupSizes(ws) == Covered(flows, IdsOf(ws))
  {
    if ws == [] {
    } else {
      assert ws[0] in ws;
      assert IdsOf(ws)[1..] == IdsOf(ws[1..]);
      GroupSizesCovered(flows, ws[1..]);
    }
  }

  /** Header counts of the flattened grouping add up to the number of flows, and so do its flow rows. */
  lemma DashboardConservesFlows(flows: seq<ListedFlow>, ws: seq<WorkspaceInfo>, grace: int)
    requires IsGroupBy(flows, ws)
    ensures CountSum(Flatten(ws, grace)) == |flows|
    ensures |FlowsIn(Flatten(ws, grace))| == |flows|
  {
    FlattenCounts(ws, grace);
    GroupSizesCovered(flows, ws);
    forall f | f in flows ensures f.row.workspaceId in IdsOf(ws) {
      var w :| w in ws && w.workspaceId == f.row.workspaceId;
      var i :| 0 <= i < |ws| && ws[i] == w;
      assert IdsOf(ws)[i] == w.workspaceId;
    }
    CoveredAll(flows, IdsOf(ws));
  }
}

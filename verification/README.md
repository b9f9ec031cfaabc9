# Renotify: a verified model

Renotify lets agents and build pipelines notify a phone and ask it questions. A daemon
keeps a ledger of flows, requests and responses in SQLite, consumes a message stream, and
publishes a heartbeat with the active flows; an MCP server in the daemon parks asks and
interjections for agents; an Android client shows the result. This project models the parts
of that system whose correctness spans several functions, and proves what they promise.

Four groups of modules:

- **Ledger and registry** (`Lex`, `Decimals`, `TimeUnits`, `Rfc3339`, `Payload`, `Ledger`, `Registry`, `Routing`, `Replay`, `Rows`, `ForeignKeys`, `Reaper`, `ReaperSteps`,
  `Workspace`, `RegistryService`, `Dashboard`, `History`, `HistoryScreen`). The tables are a
  class (`DB`) of maps; every transaction is a method whose contract gives the new tables as a
  function of the old ones. The registry is a state machine over those functions, and the
  theorems are about every run of it: referential integrity, last writer wins, flows that do
  not interfere, what each row says in terms of the events that made it, replay after redelivery, the reaper's timing, the heartbeat snapshot as a
  cache of the ledger, and the paged timeline.
- **Codec and identifiers** (`Bits`, `Crockford`, `CrockfordOrder`, `CrockfordBuffers`,
  `Identifiers`). The bit loops over byte buffers compute `Encoded` and `Decode`; round trips,
  the canonical form and order preservation are proved about those.
- **Coordination in the MCP server** (`Decisions`, `Asks`, `Interjections`, `Debounce`,
  `McpServer`). Stores with channels are classes; asks, subscribers, timers, waits and stops
  are interleaved steps. A channel is a number that is open or closed, and closing a closed
  channel is the panic it is in Go.
- **Transformations** (`Utf8`, `Permissions`, `Durations`, and the grouping and flattening in
  `Workspace` and `Dashboard`).

Times are integers in nanoseconds; what the ledger stores is a `Stamp`, the whole second that
the RFC 3339 text names. SQL compares that text, so `Rfc3339.TextOrder` is what makes every
time filter in the ledger a comparison of times.

Some promises hold only under a condition. In each case the model keeps the behaviour of the
code, and the condition is proved to be exact:

- After any run, with direct writes, activity updates and reaps in it, delivering messages of it
  once more, any of them and in any order, changes nothing exactly when no replayed response
  finds a request without a response and every active row already is what the replayed events
  make of it (`Replay.ReplayExactly`). If the messages are those the stream retains, of each flow
  the latest lifecycle events, and every reap's own event was consumed, the second half says that
  no activity update moved an active flow on from its last replayed event
  (`Replay.ReplayOfRetained`). Otherwise the replay moves the activity time back
  (`Replay.ActivityMovesBack`), or brings back a reaped flow whose own failed event is not
  replayed after its active one (`Replay.ReapedFlowReturns`).
- After any run, a terminal event adds an audit row exactly when no earlier lifecycle event or
  reap of its flow fell into the same second (`Replay.TerminalRowRecorded`). A refresh in the
  ending second takes the row's key (`Replay.RefreshTakesKey`); `post` uses one time for its
  active and its completed event, so the latter never gets a row (`Replay.CompletedRowRecorded`).
- The phone reads a printed duration back exactly when it is a whole number of seconds and not
  negative (`Durations.DurationRoundTrip`).
- The process panics exactly when a subscriber handles a readable message for an ask that a
  stop has already timed out, or a stop times out an ask that was answered since the stop
  collected it (`Asks.PanicsExactlyWhenLate`). Without stops it never does.
- Loading more on the history screen reaches the whole timeline exactly when it fits one page
  or the first page displays something (`HistoryScreen.Browse`): with lifecycle rows hidden
  and a first page of nothing else, the row to tap is never shown.
- Choosing a permission label on the phone grants the suggestion it was made from exactly when
  the cut to 60 bytes splits no character and the first suggestion with that label is equal to
  it (`Permissions.ChosenLabelAllows`). The cut can make two labels equal
  (`Permissions.TruncatedLabelsCollide`). A split character is repaired on the wire, comes back
  as another text, and grants nothing (`Permissions.SplitCharacterLosesPermission`,
  `Permissions.CharacterSplit`).
- Two listings of the active flows, such as the daemon's for its snapshot and the one the phone
  asks for, always give the same groups exactly when no two flows of one workspace were
  registered in the same second (`Dashboard.GroupsAgreeExactly`). Even with such ties each
  workspace shows the same flows on both sides (`Dashboard.PhoneShowsSameFlows`).
- Two actions can share a debounce key, for some flows, exactly when one is the other with
  something and a colon put before it (`Debounce.KeysShared`); the known actions hold no colon.
- Foreign keys are switched on for one connection of the ledger's pool. After any run every
  response has its request exactly when each response stored on another connection got a
  storable request, before or after it (`ForeignKeys.IntegrityExactly`). The other modules take
  connections that enforce the key (`ForeignKeys.EnforcedRun`).

Where the code and its documentation differ, the model follows the code:

- A decision resource is documented as immutable once decided
  (`cli/internal/payload/decision.go:11`). The store itself would overwrite it: what keeps it
  unchanged is that closing its channel again panics, so in every run that does not panic the
  promise holds (`Asks.DecisionsAreFinal`).
- An ask's subscriber is described as waiting for the response to its ask
  (`cli/internal/mcpserver/subscriber.go:73-76`). It does not look at the request id of what it
  receives: the first message on the flow decides every ask that listens on that flow
  (`Asks.FirstMessageDecides`, `Asks.AnswerSpreads`), and so does the timeout of another ask.
- A stop is documented as resolving the pending decisions of its flow; it times out the
  pending decisions of all flows (`Asks.StopReachesOtherFlow`), and so leaves other flows alone
  exactly when none of their asks is pending (`Asks.StopSparesOthers`).
- A request with a priority outside low, normal and high is dropped silently by the column's
  check, and its responses with it (`Ledger.Storable`).
- Looking up the active flow with an empty id finds the first flow of the whole listing.

## Model

| member | source | states |
|---|---|---|
| `Rfc3339.CivilOf` | cli/internal/ledger/flows.go:288 | every second of years 0000 to 9999 has a valid calendar reading that counts back to it |
| `Rfc3339.ParseFormat` | cli/internal/ledger/flows.go:316-317 | a stored timestamp read back is the instant truncated to seconds |
| `Rfc3339.TextOrder` | cli/internal/ledger/flows.go:288-296 | bytewise order and equality of stored timestamps are those of the seconds they name |
| `Rfc3339.TextLess` | cli/internal/ledger/flows.go:294-296 | SQL's comparison of timestamp columns, done on the text, is the comparison of times |
| `Rfc3339.TextShape` | cli/internal/ledger/flows.go:288 | the text is the calendar reading as yyyy-mm-ddThh:mm:ssZ |
| `Rfc3339.DayOfYear` | cli/internal/ledger/flows.go:288 | days of the year follow the five-month rule from March on, with a leap day in leap years |
| `Rfc3339.UnixEpoch` | cli/internal/ledger/flows.go:288 | day 719528 begins the year 1970 |
| `Rfc3339.EndOfFebruary` | cli/internal/ledger/flows.go:288 | in every year the last second of February reads as that of the 29th or the 28th, by the Gregorian rule |
| `Ledger.DB.RegisterFlow` | cli/internal/ledger/flows.go:17-56 | fails and changes nothing if the flow is active, else adds its row and an active audit row |
| `Ledger.DB.UpdateFlowActivity` | cli/internal/ledger/flows.go:61-72 | moves the activity time of an active flow and nothing else |
| `Ledger.DB.RefreshFlow` | cli/internal/ledger/flows.go:76-127 | replaces label, metadata and activity time and audits it, or rolls back |
| `Ledger.DB.TerminateFlow` | cli/internal/ledger/flows.go:132-178 | removes the row and audits it with what the row said, blanks if there was none; an audit key in use is left alone |
| `Ledger.DB.InsertRequest` | cli/internal/ledger/requests.go:18-62 | the first storable request with an id is kept, later ones and unknown priorities change nothing |
| `Ledger.DB.CountRecentRequests` | cli/internal/ledger/requests.go:67-79 | counts the flow's requests in seconds after that of now minus the window |
| `Ledger.DB.InsertResponse` | cli/internal/ledger/responses.go:18-45 | the first response is kept; without its request it is refused on a connection that enforces the foreign key and stored on another |
| `Ledger.DB.ListActiveFlows` | cli/internal/ledger/flows.go:201-241 | exactly the flows whose id, daemon and workspace the filters name or leave open, each once, newest registration first |
| `Ledger.DB.ReapStaleFlows` | cli/internal/ledger/flows.go:287-323 | exactly the flows whose stored activity second is before that of now minus grace |
| `Ledger.DB.LookupActiveFlow` | cli/internal/ledger/flows.go:327-336 | the active flow with that id; with an empty id a newest one |
| `Registry.SuffixAfterLastDot` | cli/internal/registry/lifecycle.go:77-82 | the routing suffix is what follows the last dot |
| `Routing.TopicIsSuffix` | cli/internal/registry/lifecycle.go:77-82 | a subject is routed to a topic exactly if it is the topic or ends in a dot and the topic |
| `Routing.MessageIsTaken` | cli/internal/registry/lifecycle.go:87-181 | by the topic of its subject, a message applies its event, stores its request if the priority is known, or stores its answer if it has no error code and its request is stored; any other message changes nothing |
| `Registry.ConsistentRun` | cli/internal/registry/lifecycle.go:103-246 | after any run on connections that enforce the foreign key every response has its request, and every active flow its audit row |
| `Registry.RowsAreKept` | cli/internal/ledger/flows.go:162-169 | audit rows, requests and responses are never changed or removed by any run |
| `Registry.LastWriterWins` | cli/internal/registry/lifecycle.go:103-125 | a flow is active exactly if its last membership step was an active event, or it was active and no step ended it |
| `Registry.FlowsDoNotInterfere` | cli/internal/registry/lifecycle.go:197-246 | a flow's active row and audit rows depend only on the steps that name it |
| `Rows.RowTellsEvents` | cli/internal/registry/lifecycle.go:197-229 | after any run an active row has the daemon, workspace, names and registration of the event that opened it, the label and metadata of the last active event, and the second it was last touched |
| `Rows.AuditRowTells` | cli/internal/ledger/flows.go:162-169 | an audit row has its event's status and copies the active row, as the event left or found it, field by field, or is blank |
| `Rows.RequestRowTells` | cli/internal/registry/lifecycle.go:131-155 | a stored request is the first asked, with the context written with it or the label and names its flow had at that moment |
| `Rows.ResponseRowTells` | cli/internal/ledger/responses.go:18-45 | a stored response has the fields of the first that came in time |
| `Replay.RequestsStored` | cli/internal/registry/lifecycle.go:131-155 | a request is stored exactly if some step asked it with a storable priority |
| `Replay.FirstRequestWins` | cli/internal/ledger/requests.go:18-62 | the stored request is the first one asked, with the flow context of that moment |
| `Replay.ResponsesStored` | cli/internal/registry/lifecycle.go:160-181 | a response is stored exactly if some response came after a storable request with its id |
| `Replay.FirstResponseWins` | cli/internal/ledger/responses.go:18-45 | the stored response is the first that came in time |
| `ForeignKeys.EnforcedRun` | cli/internal/ledger/ledger.go:35-49 | when every connection enforces foreign keys the run is the registry's |
| `ForeignKeys.ResponsesOn` | cli/internal/ledger/responses.go:18-45 | a response is stored exactly if one came on a connection without the check or after its request |
| `ForeignKeys.ResponseRowOn` | cli/internal/ledger/responses.go:18-45 | the stored response has the fields of the first that came around the check or after its request |
| `ForeignKeys.IntegrityExactly` | cli/internal/ledger/ledger.go:35-49 | after any run every response has its request exactly if no response that went around the check stayed without one |
| `Replay.EffectCorrect` | cli/internal/registry/lifecycle.go:197-246 | events and reaps act on each active row as one of three effects: keep, fix, refresh |
| `Replay.ActiveReplayed` | cli/internal/registry/lifecycle.go:103-125 | running the same messages again right after leaves the active flows unchanged, from any state |
| `Replay.EffectUpToActivity` | cli/internal/ledger/flows.go:61-72 | in any run activity updates change the activity time of those rows and nothing else |
| `Replay.ReplayExactly` | cli/internal/broker/jetstream.go:222-237 | after any run, messages of it delivered again in any choice and order change no table exactly if no response with a stored request is unanswered and every active row stands |
| `Replay.ReplayOfRetained` | cli/internal/broker/jetstream.go:144-160 | with the latest lifecycle events of each flow and all reaps echoed: exactly if no response is unanswered and no activity moved on from the last replayed active event |
| `Replay.ReplayOfSuffix` | cli/internal/broker/jetstream.go:222-237 | the same for all messages consumed from some step of the run on |
| `Replay.ActivityMovesBack` | cli/internal/ledger/flows.go:61-72 | an activity update in another second than the active event is undone by its redelivery |
| `Replay.ReapedFlowReturns` | cli/internal/registry/registry.go:146-172 | a flow that is not active becomes so when a redelivered active event has no later terminal one |
| `Replay.ReplayIsNoOp` | cli/internal/broker/jetstream.go:144-160 | with requests before responses, reaps echoed and no activity update, redelivering retained messages leaves all tables unchanged |
| `Replay.RedeliveryIsNoOp` | cli/internal/registry/lifecycle.go:52-100 | the same for the raw messages a recreated consumer receives, when the run consisted of messages |
| `Replay.ReplayOutOfOrder` | cli/internal/ledger/responses.go:18-45 | with a response before its request, replay is not a no-op |
| `Replay.ReapEchoAbsorbed` | cli/internal/registry/registry.go:153-167 | the reaper's own failed event changes no table exactly if the flow is not active again |
| `Replay.FirstAuditWins` | cli/internal/ledger/flows.go:162-169 | the audit row under a key is the one its first writer tried to write, in the state of that moment |
| `Replay.TerminalRowRecorded` | cli/internal/registry/lifecycle.go:232-246 | after any run a terminal event adds a row exactly if no earlier event or reap of its flow fell into its second; the row says what the active row said and is kept by every later step; otherwise the table is unchanged |
| `Replay.RefreshTakesKey` | cli/internal/mcpserver/tool_flow.go:187-203 | a refresh in the ending second leaves the completed event without a row |
| `Replay.CompletedRowRecorded` | cli/internal/command/post.go:86-136 | for an active and a terminal event alone: the latter has its row exactly if its second differs |
| `Reaper.SelectionBounds` | cli/internal/ledger/flows.go:287-296 | selected means last active before now minus grace; not selected, after now minus grace minus one second |
| `Reaper.ReapedOneMore` | cli/internal/registry/registry.go:154-165 | terminating listed flows one by one gives the one-shot effect, in any order |
| `Reaper.UntouchedUntilSelected` | cli/internal/registry/registry.go:146-172 | a flow no step names keeps its row until the first pass that selects it and is gone from then on |
| `Reaper.TerminatedInTime` | cli/internal/registry/reaper.go:14-26 | with ticks at most an interval apart an untouched flow ends within grace + interval + 1 s, never within its grace period |
| `ReaperSteps.UninterruptedPass` | cli/internal/registry/registry.go:146-172 | query and terminations as separate steps, in any order and with nothing between, are the one-step pass |
| `ReaperSteps.ListedWasStale` | cli/internal/registry/registry.go:147-160 | in any run a flow about to be terminated was stale as of an earlier query |
| `ReaperSteps.NothingSavesListed` | cli/internal/registry/registry.go:154-165 | whatever comes between, a listed flow is terminated and audited |
| `ReaperSteps.TouchedTooLate` | cli/internal/registry/registry.go:147-167 | an activity update after the query makes the row fresh and the flow ends all the same |
| `ReaperSteps.GoneByNextPass` | cli/internal/registry/reaper.go:14-26 | before the next pass begins a listed flow that was not registered anew is gone |
| `Workspace.GroupFlows` | cli/internal/registry/workspace.go:16-65 | one group per workspace that occurs, flows in list order, named by the first flow, sorted by name |
| `Workspace.SnapshotShowsFlows` | cli/internal/registry/workspace.go:16-65 | whenever the cache invariant holds, exactly the active flows are shown, in their workspace, with their label and metadata |
| `Workspace.ShownOnce` | cli/internal/registry/workspace.go:31-48 | no flow is shown in two groups, nor twice in one |
| `Workspace.FreshSnapshotTells` | cli/internal/registry/workspace.go:31-59 | a rebuilt snapshot shows every flow with its row's label, metadata and activity time, names each group by a newest flow of its workspace, and lists newest registrations first |
| `Workspace.SnapshotNames` | cli/internal/registry/workspace.go:31-59 | names and order stay right until the next rebuild |
| `RegistryService.Service.RebuildWorkspaceSnapshot` | cli/internal/registry/workspace.go:16-65 | the snapshot becomes the grouping of exactly the active flows, with the labels, metadata and activity times of their rows, groups named by a newest flow |
| `RegistryService.Service.HandleActive` | cli/internal/registry/lifecycle.go:197-229 | a new flow gets a row with the event's daemon, workspace, label, metadata, names from the metadata and its second; an active one gets the label, metadata and activity second |
| `RegistryService.Service.HandleTerminal` | cli/internal/registry/lifecycle.go:232-246 | the specified effect of a terminal event |
| `RegistryService.Service.ProcessLifecycleEvent` | cli/internal/registry/lifecycle.go:103-125 | an event of a known status is applied, leaves an audit row and touches no other flow; any event leaves a fresh snapshot, and an undecodable body changes nothing |
| `RegistryService.Service.ProcessRequest` | cli/internal/registry/lifecycle.go:131-155 | stores a first request of a known priority with the context of its flow; an undecodable body changes nothing |
| `RegistryService.Service.ProcessResponse` | cli/internal/registry/lifecycle.go:160-181 | an answer to a stored request is stored unless there is one; an error record or an undecodable body changes nothing |
| `RegistryService.Service.ProcessMessage` | cli/internal/registry/lifecycle.go:87-100 | a message is taken as its subject's topic and its body say (see `Routing.MessageIsTaken`), which is the step of the registry it stands for |
| `RegistryService.Service.HandleInsertRequest` | cli/internal/registry/write_endpoint.go:38-52 | a request written directly is stored with its own context under the same first-wins rule |
| `RegistryService.Service.HandleInsertResponse` | cli/internal/registry/write_endpoint.go:69-77 | a response written directly has the effect of one from the stream |
| `RegistryService.Service.HandleUpdateActivity` | cli/internal/registry/write_endpoint.go:122-130 | moves the activity time; the snapshot then lags in that time only |
| `RegistryService.Service.ReapOnce` | cli/internal/registry/registry.go:146-172 | terminates exactly the flows stale at the query, announces each once as failed, keeps the snapshot in agreement |
| `Dashboard.PhoneGroupsFlows` | clients/android/app/src/main/kotlin/io/resystems/renotify/dashboard/ActiveFlowsResult.kt:39-58 | the phone's grouping of the flat list is a grouping in the daemon's sense |
| `Dashboard.GroupingsAgree` | cli/internal/registry/workspace.go:16-65 | any two groupings of a list have the same groups |
| `Dashboard.PhoneAgreesWithDaemon` | clients/android/app/src/main/kotlin/io/resystems/renotify/dashboard/ActiveFlowsResult.kt:39-58 | grouping a list of its own asking, the phone has the snapshot's groups up to workspace order, if no two flows of one workspace were registered in the same second |
| `Dashboard.GroupsAgreeExactly` | cli/internal/ledger/flows.go:201-241 | all pairs of listings of the active flows give equal groups exactly if no two flows of one workspace were registered in the same second |
| `Dashboard.PhoneShowsSameFlows` | clients/android/app/src/main/kotlin/io/resystems/renotify/dashboard/ActiveFlowsResult.kt:39-58 | in any order of ties, each workspace has the same flows on the phone as in the snapshot, and no other workspace is shown |
| `Dashboard.PhoneTells` | clients/android/app/src/main/kotlin/io/resystems/renotify/dashboard/ActiveFlowsResult.kt:39-58 | the phone's groups show every flow with its row's label, metadata and activity time, in its workspace, which a newest flow names |
| `Dashboard.PhoneOrder` | clients/android/app/src/main/kotlin/io/resystems/renotify/dashboard/ActiveFlowsResult.kt:42-58 | the phone's groups come in the order in which their first flows are listed |
| `Dashboard.FromHeartbeat` | clients/android/app/src/main/kotlin/io/resystems/renotify/dashboard/DashboardItem.kt:49-82 | a header and then the flows of each workspace, or the message for an empty state |
| `Dashboard.FlattenRoundTrip` | clients/android/app/src/main/kotlin/io/resystems/renotify/dashboard/DashboardItem.kt:49-82 | the rows determine the workspaces and their flows |
| `Dashboard.FlattenShows` | clients/android/app/src/main/kotlin/io/resystems/renotify/dashboard/DashboardItem.kt:49-82 | a row is there exactly if it is a workspace's header with its id, names and number of flows, or a flow of a workspace with the grace period |
| `Dashboard.DashboardConservesFlows` | clients/android/app/src/main/kotlin/io/resystems/renotify/dashboard/DashboardItem.kt:49-82 | header counts and flow rows both add up to the number of flows |
| `History.Filter` | cli/internal/ledger/history.go:84-87 | the SQL filter on text selects by time, both bounds inclusive, an absent bound not at all |
| `History.SelectedExactly` | cli/internal/ledger/history.go:30-46 | a time passes the bounds exactly if it is not before the whole second of since and before the end of that of until |
| `History.SortNewestFirst` | cli/internal/ledger/history.go:137-139 | the same records newest first, ties in the order given |
| `History.QueryHistory` | cli/internal/ledger/history.go:24-156 | for any order of ties: a page of a timeline of exactly the filtered records, as long as the limit asked for or what the offset leaves, and the timeline's length as the total |
| `History.RequestListedOnce` | cli/internal/ledger/history.go:72-103 | a filtered request is in the timeline once, joined to its stored response if any |
| `History.TimelineReads` | cli/internal/ledger/history.go:70-139 | record by record: a timeline holds the selected requests with their stored responses and the selected events, each once, newest first |
| `History.TimelineUnique` | cli/internal/ledger/history.go:137-139 | two timelines of one ledger have the same length, and are equal unless times tie |
| `History.TimelineFixedByRank` | cli/internal/ledger/history.go:137-139 | with one order of ties two timelines of one ledger are equal |
| `History.AnswerOfTimeline` | cli/internal/ledger/history.go:24-156 | any answer on an unchanged ledger is the page and the length of its timeline, if times do not tie or ties keep their order |
| `History.PageIsSlice` | cli/internal/ledger/history.go:142-149 | a page is the slice from the clamped offset of at most the limit asked for, or of 50 when none is, for every offset and limit, negative or zero too |
| `History.PageLength` | cli/internal/ledger/history.go:142-149 | a page has the smaller of what the offset leaves and the limit |
| `History.PagesPartition` | cli/internal/ledger/history.go:142-149 | consecutive pages joined are the timeline |
| `History.ArrivalsRepeat` | cli/internal/ledger/history.go:142-149 | after k arrivals the page at an offset is the old page k earlier |
| `HistoryScreen.HistoryAdapter.Update` | clients/android/app/src/main/kotlin/io/resystems/renotify/dashboard/HistoryAdapter.kt:53-59 | replaces records and total and filters the display accordingly |
| `HistoryScreen.HistoryAdapter.OffersMore` | clients/android/app/src/main/kotlin/io/resystems/renotify/dashboard/HistoryAdapter.kt:82-96 | the row to load more exists exactly if more is known and something is displayed |
| `HistoryScreen.LoadedKeepsAll` | clients/android/app/src/main/kotlin/io/resystems/renotify/nats/NatsService.kt:309-351 | after a load and any load-mores the state has the records of all answers in order and the total of the latest |
| `HistoryScreen.DisplayedRecords` | clients/android/app/src/main/kotlin/io/resystems/renotify/dashboard/HistoryAdapter.kt:74-80 | the display holds exactly the records the switch lets through, in the order of the list |
| `HistoryScreen.TapsShowPrefix` | clients/android/app/src/main/kotlin/io/resystems/renotify/nats/NatsService.kt:309-351 | on one timeline each completed load-more extends the shown prefix by one page |
| `HistoryScreen.LedgerLoadsTimeline` | clients/android/app/src/main/kotlin/io/resystems/renotify/nats/NatsService.kt:309-351 | answers of an unchanged ledger, each asked for from the current count, load exactly that prefix of its timeline |
| `HistoryScreen.OverlappingTaps` | clients/android/app/src/main/kotlin/io/resystems/renotify/MainActivity.kt:590-594 | taps made before the first is answered bring the same page once each |
| `HistoryScreen.OverlapHarmless` | clients/android/app/src/main/kotlin/io/resystems/renotify/MainActivity.kt:590-594 | two or more such taps show no record twice exactly if everything was loaded already |
| `HistoryScreen.CountAfterOverlap` | clients/android/app/src/main/kotlin/io/resystems/renotify/dashboard/HistoryAdapter.kt:69-70 | the next page is asked for from a count that includes the copies |
| `HistoryScreen.Browse` | clients/android/app/src/main/kotlin/io/resystems/renotify/MainActivity.kt:590-594 | tapping while offered, each tap a query of the ledger, ends, with the whole timeline exactly if it fits a page or the first page displays something |
| `Bits.BitsOr` | cli/internal/crockford/base32.go:108-120 | setting a bit in a number changes that bit of its sequence only |
| `Crockford.DecodeOfEncode` | cli/internal/crockford/base32.go:18-105 | decoding an encoded bit prefix gives its bits followed by zeros |
| `Crockford.DecodeOfEncodedBytes` | cli/internal/crockford/base32.go:18-105 | whole bytes come back unchanged with only zero bytes after them |
| `Crockford.EncodeOfDecode` | cli/internal/crockford/base32.go:86-105 | encoding what was decoded gives the canonical spelling |
| `Crockford.HyphensIgnored` | cli/internal/crockford/base32.go:87 | inserting a hyphen anywhere does not change what a text decodes to |
| `Crockford.ConfusablesDecodeAlike` | cli/internal/crockford/base32.go:66-81 | changing case or swapping I, L, 1 and O, 0 does not change what a text decodes to |
| `Crockford.DecodeInjective` | cli/internal/crockford/base32.go:86-105 | texts have one canonical spelling exactly if they decode alike at equal length |
| `CrockfordOrder.EncodedOrder` | cli/internal/crockford/base32.go:26-60 | encoded bit prefixes are ordered, and equal, as the bits are |
| `CrockfordOrder.EncodeMonotone` | cli/internal/crockford/base32.go:26-60 | for equal lengths string order is byte order, both ways |
| `CrockfordOrder.EncodePrefixMonotone` | cli/internal/crockford/base32.go:26-60 | over a bit prefix the order is never reversed |
| `CrockfordBuffers.ExtractBits` | cli/internal/crockford/base32.go:46-60 | five bits from an offset, zeros past the limit |
| `CrockfordBuffers.EncodeBits` | cli/internal/crockford/base32.go:26-42 | the buffer loop computes the encoding, or fails when bits are missing |
| `CrockfordBuffers.InitDecodeMap` | cli/internal/crockford/base32.go:66-81 | the table gives every byte its value as a symbol, or -1 |
| `CrockfordBuffers.SetBits` | cli/internal/crockford/base32.go:108-120 | exactly the five bits at the offset are ORed in, those past the end dropped |
| `CrockfordBuffers.DecodeText` | cli/internal/crockford/base32.go:86-105 | the buffer loop computes the decoding, or reports the first invalid symbol |
| `Identifiers.FlowIdOrder` | cli/internal/state/flowid.go:17-21 | flow ids sort, and are equal, as the raw UUIDs |
| `Identifiers.NotificationIdOrder` | cli/internal/state/flowid.go:28-32 | 80-bit ids never reverse the order and are equal exactly if those bits are |
| `Identifiers.FlowIdDecodes` | cli/internal/state/flowid.go:17-21 | a flow id is its prefix and 26 characters that decode to the UUID |
| `Identifiers.NotificationIdDecodes` | cli/internal/state/flowid.go:28-32 | a notification id is its prefix and 16 characters that decode to the first ten bytes of the UUID |
| `Identifiers.IdsAreChronological` | cli/internal/state/flowid.go:12-32 | ids of a later millisecond sort later, whatever the random bits |
| `Identifiers.PhoneAcceptsCanonical` | clients/android/app/src/main/kotlin/io/resystems/renotify/pairing/ProvisioningPayload.kt:27-28 | the phone's character class accepts exactly the texts spelled canonically up to case |
| `Identifiers.TokensAgree` | clients/android/app/src/main/kotlin/io/resystems/renotify/pairing/ProvisioningPayload.kt:96-113 | every generated token passes the phone's validation and decodes to its random bytes |
| `Identifiers.GenerateDeviceToken` | cli/internal/state/deviceid.go:30-40 | the token is the prefix and the 256-bit encoding, and is valid |
| `Identifiers.GenerateDeviceId` | cli/internal/state/deviceid.go:16-26 | the id is its prefix and 65 bits in 13 characters |
| `Decisions.DecisionStore.Register` | cli/internal/mcpserver/decisions.go:37-46 | adds a pending decision with a channel of its own |
| `Decisions.DecisionStore.Resolve` | cli/internal/mcpserver/decisions.go:50-69 | copies the answer, closes the channel, changes nothing when the id is unknown |
| `Decisions.DecisionStore.ResolveTimeout` | cli/internal/mcpserver/decisions.go:73-88 | decides without fields, closes the channel |
| `Decisions.DecisionStore.HandleResponse` | cli/internal/mcpserver/subscriber.go:117-160 | an error record times out, an answer resolves, anything else changes nothing |
| `Decisions.DecisionStore.ResolvePending` | cli/internal/mcpserver/interject.go:220-241 | times out every pending decision and touches no other |
| `Decisions.DecisionStore.FinishAwait` | cli/internal/mcpserver/tool_await.go:74-86 | woken on the channel of the id, the stored decision, which is taken; timed out, an empty decided one and an unchanged store |
| `Decisions.SubscriberMap.CancelForFlow` | cli/internal/mcpserver/subscriber.go:52-61 | cancels and forgets exactly the given ids |
| `Decisions.SubscriberMap.CancelAll` | cli/internal/mcpserver/subscriber.go:64-71 | cancels and forgets all |
| `Asks.SessionInvariant` | cli/internal/mcpserver/decisions.go:37-110 | in every run a decision exists exactly if it was asked for, its channel is closed exactly if it is taken, and it is taken exactly if it was answered or a stop reached it |
| `Asks.PanicsExactlyWhenLate` | cli/internal/mcpserver/interject.go:220-241 | a run panics exactly if a readable message is handled after a stop reached its ask, or a stop reaches an ask answered since it was collected |
| `Asks.NoStopNoPanic` | cli/internal/mcpserver/decisions.go:65-67 | without stops no channel is closed twice in any interleaving |
| `Asks.AnswerAndStopPanic` | cli/internal/mcpserver/interject.go:226-240 | with an answer sent and the ask collected by a stop, handling the one and reaching the other panics in either order |
| `Asks.UninterruptedStop` | cli/internal/mcpserver/interject.go:220-241 | collecting and then timing out one by one, in any order, equals timing out all at once when nothing comes between |
| `Asks.StopSparesOthers` | cli/internal/mcpserver/interject.go:216-233 | a stop of a flow leaves all asks of other flows alone exactly if every pending ask was of that flow |
| `Asks.StopReachesOtherFlow` | cli/internal/mcpserver/interject.go:216-233 | with an ask pending on each of two flows, stopping decides both without fields |
| `Asks.ResolvedOnce` | cli/internal/mcpserver/subscriber.go:77-160 | a decision is taken at most once, and exactly once if it is taken |
| `Asks.PendingReads` | cli/internal/mcpserver/decisions.go:37-46 | in any run a decision not yet taken has no fields |
| `Asks.AnsweredReads` | cli/internal/mcpserver/subscriber.go:117-138 | in any run, stops or not, an answered decision says what the message says that its subscriber handled |
| `Asks.StoppedReads` | cli/internal/mcpserver/decisions.go:73-88 | in any run a stopped decision has no fields and the time of the stop |
| `Asks.TimerKept` | cli/internal/mcpserver/timeout.go:21-61 | in any run an ask has its timer until it expires or the decision is taken, and timers are of asks alone |
| `Asks.ExpiryTells` | cli/internal/mcpserver/timeout.go:30-55 | an expired timer gives the error record to every subscriber on the flow and to no other |
| `Asks.ExpiryDecides` | cli/internal/mcpserver/timeout.go:13-16 | handled before any answer it decides the ask without fields, and no other ask |
| `Asks.DecisionsAreFinal` | cli/internal/mcpserver/decisions.go:50-88 | a taken decision never changes and a decision keeps its channel |
| `Asks.AwaitNeverMisses` | cli/internal/mcpserver/tool_await.go:43-87 | the channel an await took is closed exactly if the decision is taken, whenever that happened |
| `Asks.FirstMessageDecides` | cli/internal/mcpserver/subscriber.go:93-160 | without stops a subscriber's unread messages are those heard, and once it ended it followed the first or gave up |
| `Asks.DecisionIsFirstMessage` | cli/internal/mcpserver/subscriber.go:93-160 | without stops a taken decision says what the first message heard on its flow says |
| `Asks.AnswerSpreads` | cli/internal/mcpserver/subscriber.go:117-138 | one answer decides every ask that listens on the flow with nothing unread, and no other |
| `Interjections.InterjectionStore.AppendItem` | cli/internal/mcpserver/interjections.go:62-75 | queues the item, closes the flow's channel and gives it another; unknown flows are ignored |
| `Interjections.InterjectionStore.DrainFlow` | cli/internal/mcpserver/interjections.go:80-92 | returns the queue and empties it |
| `Interjections.InterjectionStore.FinishAwait` | cli/internal/mcpserver/tool_interject.go:114-127 | woken, a drain; timed out, nothing taken |
| `Interjections.WellFormedRun` | cli/internal/mcpserver/interjections.go:41-131 | in every run each flow has an open channel of its own, so closing never panics |
| `Interjections.ItemsConserved` | cli/internal/mcpserver/interjections.go:62-92 | between registration and removal the drained batches and the queue are all appended items in order |
| `Interjections.QueueSinceRegistration` | cli/internal/mcpserver/interjections.go:41-47 | a registration starts with an empty queue: the batches and the queue are what was appended since |
| `Interjections.StartsEmpty` | cli/internal/mcpserver/interjections.go:41-47 | a registration makes an open channel that no flow has, a removal forgets the flow, and no step touches another flow |
| `Interjections.WokenExactlyWhenFed` | cli/internal/mcpserver/interjections.go:62-75 | a taken channel is closed exactly if an append reached the flow before it was registered anew or removed |
| `Interjections.ParkedWaiter` | cli/internal/mcpserver/tool_interject.go:88-128 | a waiter is still parked exactly if nothing was appended since it took the channel; what was appended before is drained or queued |
| `Interjections.AppendBetweenDoesNotWake` | cli/internal/mcpserver/tool_interject.go:94-101 | an item appended between drain and taking the channel is kept and wakes nobody |
| `Debounce.DebounceMap.Check` | cli/internal/mcpserver/interject.go:34-49 | accepts unless the key was accepted less than a window ago; only acceptance is remembered |
| `Debounce.AcceptedAreSpaced` | cli/internal/mcpserver/interject.go:34-49 | accepted commands of one key are a window apart |
| `Debounce.DroppedIsNearAccepted` | cli/internal/mcpserver/interject.go:44-46 | a dropped command lies less than a window after an accepted one |
| `Debounce.AcceptedInSpan` | cli/internal/mcpserver/interject.go:34-49 | at most floor(span / window) + 1 are accepted in any span |
| `Debounce.KeysDistinct` | cli/internal/mcpserver/interject.go:41 | keys of different flow and action differ if actions hold no colon |
| `Debounce.KeysShared` | cli/internal/mcpserver/interject.go:41 | different pairs with two given actions share a key, for some flows, exactly if one action is the other after a colon |
| `McpServer.Server.ProcessInterjection` | cli/internal/mcpserver/interject.go:104-150 | debounces, queues stop, note and pause, settles decisions on a stop, ignores the rest |
| `McpServer.CommandEffects` | cli/internal/mcpserver/interject.go:104-150 | field by field: a recent command changes nothing; another is remembered, a stop or note queued as it is and a pause as a request to pause, and only a stop decides what is pending, without fields |
| `McpServer.Server.HandleStop` | cli/internal/mcpserver/interject.go:154-193 | queues the item and times out all pending decisions |
| `McpServer.QueueHoldsKept` | cli/internal/mcpserver/interject.go:104-150 | over any run a flow's queue grows by exactly the surviving known commands for it, in order |
| `McpServer.StopSettlesAll` | cli/internal/mcpserver/interject.go:220-241 | over deliveries alone, decisions are untouched until a stop survives debouncing; then none is pending |
| `McpServer.PendingExactly` | cli/internal/mcpserver/interject.go:220-241 | with asks between the deliveries, a decision is pending exactly if it was asked, or pending at first, with no surviving stop since |
| `Permissions.LabelsAreDistinctive` | cli/internal/command/dispatch.go:650-687 | no label is Deny or Allow once or longer than 60 bytes |
| `Permissions.LabelsAreOffered` | cli/internal/command/dispatch.go:633-646 | exactly the labels of suggestions are offered |
| `Permissions.LabelReads` | cli/internal/command/dispatch.go:650-687 | only rule additions have a label: the first rule's tool with its content, in the wording of the destination, cut to 57 bytes and dots beyond 60 |
| `Permissions.LabelNamesRule` | cli/internal/command/dispatch.go:661-687 | labels below 60 bytes for one destination and tool are equal only if the rules' contents are |
| `Permissions.LabelsInOrder` | cli/internal/command/dispatch.go:633-646 | the labels are those of the suggestions that can be offered, in their order |
| `Permissions.ChooseOffer` | cli/internal/command/dispatch.go:204-219 | a choice with Allow once and Deny before the labels if any suggestion can be offered, else Allow and Deny |
| `Utf8.RepairedExactly` | cli/internal/broker/publish.go:16-17 | encoding as JSON leaves UTF-8 alone and changes, and lengthens, anything else |
| `Utf8.RepairedValid` | cli/internal/broker/publish.go:16-17 | a repaired text is UTF-8, the replacement is U+FFFD |
| `Utf8.ValidExactly` | cli/internal/broker/publish.go:16-17 | a text is UTF-8 exactly if it encodes some sequence of scalar values |
| `Utf8.CutValid` | cli/internal/command/dispatch.go:609-614 | a prefix of UTF-8 is UTF-8 exactly if the cut is not before a continuation byte |
| `Permissions.LabelSurvivesWire` | cli/internal/command/dispatch.go:609-614 | a label comes back as offered exactly if its text has at most 60 bytes or byte 57 is no continuation byte |
| `Permissions.MatchedLabelAllows` | cli/internal/command/dispatch.go:692-702 | an action equal to a label allows with the first suggestion bearing it |
| `Permissions.ChosenLabelAllows` | cli/internal/command/dispatch.go:317-356 | choosing an offered label on the phone allows; it grants its suggestion exactly if the cut splits no character and the first so labelled is equal to it; a split character grants none |
| `Permissions.SplitCharacterLosesPermission` | cli/internal/command/dispatch.go:609-614 | a suggestion whose cut splits a character, offered alone, is never granted |
| `Permissions.CharacterSplit` | cli/internal/command/dispatch.go:609-614 | there is such a suggestion for every tool text of 50 bytes before a two-byte character |
| `Permissions.DistinctLabelsInvert` | cli/internal/command/dispatch.go:692-702 | a label no earlier suggestion bears gives back its suggestion |
| `Permissions.ShortLabelsInvert` | cli/internal/command/dispatch.go:692-702 | among rules of one destination and tool with different contents, choosing a label below 60 bytes grants exactly its suggestion |
| `Permissions.FixedChoices` | cli/internal/command/dispatch.go:317-356 | the fixed choices carry no permission, and only an offered label does |
| `Permissions.TruncatedLabelsCollide` | cli/internal/command/dispatch.go:609-614 | two long rules can share a label, and the second then grants the first |
| `Permissions.MatchSuggestion` | cli/internal/command/dispatch.go:692-702 | the first suggestion with the label |
| `Permissions.HandlePermissionResponse` | cli/internal/command/dispatch.go:286-363 | an error record or an undecodable reply ends the flow as failed without a decision; any other completes it, denied exactly on Deny or an empty action that is not accepted, with a permission exactly for an offered label, the first suggestion that bears it |
| `Permissions.ChooseDecision` | cli/internal/command/dispatch.go:317-356 | the same for a decoded response alone |
| `Durations.ParseGoDuration` | clients/android/app/src/main/kotlin/io/resystems/renotify/dashboard/DaemonHeartbeat.kt:130-146 | the loop computes the left-to-right total of all matches, with Long wrap-around |
| `Durations.DurationRoundTrip` | cli/internal/heartbeat/publisher.go:132-133 | a printed duration reads back exactly if it is a non-negative number of whole seconds |
| `Durations.PrintedSeconds` | cli/internal/heartbeat/publisher.go:132-133 | whole seconds print as seconds, minutes and seconds, or hours, minutes and seconds, with a sign before if negative |
| `Durations.FractionExact` | cli/internal/heartbeat/publisher.go:132-133 | the digits after the point are the remainder, without zeros at the end |
| `Durations.TokenReads` | clients/android/app/src/main/kotlin/io/resystems/renotify/dashboard/DaemonHeartbeat.kt:134-143 | a number with its unit counts as its product modulo 2^64, and as nothing when it is too long for a Long |
| `Durations.HalfSecondMisread` | clients/android/app/src/main/kotlin/io/resystems/renotify/dashboard/DaemonHeartbeat.kt:134 | 500ms is read as 500 minutes |

## Left out

- Races inside a handler: each handler, transaction and store method is one atomic step, except a stop, which collects and times out in separate steps; a snapshot rebuilt by the reaper while the consumer rebuilds it is not modelled.
- Which pooled connection a step gets: `ForeignKeys` leaves it open; the theorems of `Replay` are for connections that enforce the foreign key.
- Orders that SQL and `sort.Slice` leave open: rows with equal times come in any order. For the history that order is the parameter `Rank`; that an unchanged ledger keeps it between queries is a hypothesis wherever times tie.
- JSON encoding and decoding repair every text that is not UTF-8; the model follows that for permission labels only, taking decoded suggestions to be UTF-8 (`Permissions.WellEncoded`).
- A ledger that changes between history pages, beyond `History.ArrivalsRepeat`.
- The message stream's own deduplication, retention and acknowledgement: the model takes any sequence of messages and the redelivery of any processed ones.
- Reaper.TerminatedInTime: takes the query and the terminations of a pass as one step; `ReaperSteps` has them apart, without the time bound.
- JSON, SQL statements and nullable columns: decoded records are given, metadata is a map, NULL text is the empty string.
- The interjections table, `SearchActiveFlows` and `InsertLifecycleEvent`: single inserts and one more filter.
- `EncodeBits` with a negative bit count, and `Encode`, which is `EncodeBits` over all bits.
- Crockford.Decode: a character above 255 stands for a byte the table maps to -1; multi-byte text is not split into bytes.
- Durations.ParseGoDuration: digits are ASCII digits; the platform's other decimal digits are not modelled.
- Android view binding, positions of expanded items, and the flow-scoped history list.
- The failed lifecycle event and the resource notifications sent beside a timeout or a stop; the ledger's side of a lifecycle event is in `Registry`.
- Asks.UniqueIds is a hypothesis of the theorems on asks: notification ids are 80 bits of a fresh UUID.
- `DecisionStore.Remove` and `CancelForFlow` are modelled as operations but are no steps of a run, since nothing calls them.
- Presence, connection backoff, pairing transport, certificates, the HTTP server, configuration and subject strings.

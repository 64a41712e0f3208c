# Verified models of the monitoring server

A monitoring server in two implementations, a Go core (`internal/`) and a Next.js application (`web/`), works
on one database.  This project models the parts of both that hold real state, protocols and arithmetic, and
proves what they keep over every run, every interleaving and every input.  `dafny verify dfyconfig.toml`
checks all of it.

| file | component |
|---|---|
| `Rollup`, `RollupSoundness`, `RollupExactness`, `RollupMeans`, `RollupHours`, `RollupWindows`, `RollupWitnesses`, `MetricTables` | the metric rollup raw → 5 min → 1 h: the Go watermark policy (insert only) and the web sliding window (overwrite) |
| `Hub`, `HubSafety`, `HubLoop` | the WebSocket hub: event loop, readers, writers, bounded buffers, evictions |
| `Alerts`, `AlertHistories`, `AlertWindows`, `Cooldowns`, `WebAlerts` | rule alerts: fire, cooldown, auto-resolve, operator ack and resolve, in both engines |
| `Outages` | the offline check, which opens and closes alerts and incidents together |
| `Racks`, `RackPage` | rack placement, and what the rack page derives from it |
| `Capacity` | the least-squares fit of the capacity page |
| `Pool`, `FanOut` | the LLM worker pool and the agent poll fan-out |
| `Organizations` | the organisation forest |
| `Logins` | the lockout of both login handlers |
| `SyslogParser` | the syslog line parser |
| `MacParser`, `Nsshow` | the Cisco address table and Brocade name server parsers |
| `Options`, `Spans`, `Scanning` | shared: optional values, points a gap apart, character runs and decimals |

How things are modelled.  A SQL table is a map or a sequence of rows, and a statement is one step on it.  A
handler or job that updates rows is a method of a class that holds its tables; its contract equates the new
tables with a specification function of the old ones, and the invariants, round trips and whole-run claims are
proved about that function.  A concurrent protocol is a state machine whose runs are all the interleavings of
its goroutines' steps; for the hub, `HubLoop` shows that the loop's own code takes exactly those steps.  The
two syslog expressions and the Cisco row expression are hand-written matchers, each proved to yield groups
exactly when the text is made of them.

Where the code does something other than its surroundings suggest, the code is modelled and the difference is
proved:

- the Go rollup freezes a row at its first write, so the row of the bucket in progress stays partial
  (`GoFreezesPartialRow` is such a run, `GoRowExact` says exactly when a row is right), and from an empty table a
  second run may add rows (`GoNotIdempotentFromEmpty`, `GoRerun`);
- the web rollup's strict lower bound drops the boundary samples of a bucket on its second visit
  (`WebDropsBoundarySample`), and its inclusive upper bound writes a row for the bucket in progress, of its boundary
  samples alone (`WebWritesOpenBucket`); `EveryRowExactly` says for every history of both engines from empty tables,
  late samples and open buckets included, exactly when a 5-minute row is right;
- the web hourly window overwrites an old hour with what is left of its rows (`WebOverwritesHour`), and the Go hourly
  watermark cuts off the first row of an asset whose samples of an hour are rolled up after that hour was written
  for another asset (`GoCutsHour`); `EveryHourExactly` says for every history exactly when an hourly row is right;
- both hourly rollups average averages, which is the mean exactly when counts and averages are uncorrelated over
  the rows of the hour (`HourExactly`, and `UnevenHourDiffers` for an hour where they are not);
- the Go `Action` has no status guard, so acking a resolved alert hides its resolution from the cooldown
  (`AckHidesResolution`), and an operator can resolve an acked alert between the evaluator's check and its insert
  (`ResolveBeforeInsert`); `CooldownExactly` and `PlayCooldownExactly` say exactly when the cooldown holds;
- on an account that both login handlers see the count can pass five (`GoLocksPastFive`); the bound on comparisons
  still holds (`AnyComparisons`);
- `update_unit` without an asset clears it, also on a one-step move (`MoveExactly`), and neither sizes nor a
  rack's new height are checked (`HandleKeepsExactly`);
- re-parenting an organisation only refuses the organisation itself, so a parent can be put below its own child
  (`ParentBelowChild`, `MoveKeepsAcyclicExactly`, `MoveKeepsDepthExactly`);
- a syslog program with a colon after its first character, or ending in a bracketed number, is cut short
  (`Parse3164Back`);
- two name server listings cannot always be parsed apart (`NsshowSplitsExactly`).

## Model

| member | source | states |
|---|---|---|
| `Rollup.FloorFiveIsFloor` | internal/scheduler/aggregation.go:37-38 | the hour-plus-minutes bucket formula is the floor to a multiple of five minutes |
| `Rollup.FloorFiveUnique` | internal/scheduler/aggregation.go:37-38 | a time belongs to an aligned bucket exactly when it lies in its five minutes |
| `Rollup.GroupsMembers` | internal/scheduler/aggregation.go:35-48 | the grouped query has a row for a key exactly when a sample of the bucket passes the filter |
| `Rollup.Watermark` | internal/scheduler/aggregation.go:45-47 | max(bucket) is attained and bounds every bucket; the fallback applies exactly to the empty table |
| `RollupSoundness.AggregateSound` | internal/scheduler/aggregation.go:39-43 | a group's maximum is attained by a sample and its average lies between two samples |
| `RollupSoundness.CombineSound` | internal/scheduler/aggregation.go:67-75 | an average of averages still lies between raw samples, and the maximum is still attained |
| `RollupSoundness.SlotsCoverHour` | internal/scheduler/aggregation.go:67-79 | the five-minute buckets of an hour partition the hour's samples |
| `RollupSoundness.HourGroupsIsGroupBy` | internal/scheduler/aggregation.go:67-79 | every 5-minute row that passes the filter enters the group of its hour |
| `RollupSoundness.StepSound` | web/src/lib/alert-engine.ts:255-303 | every ingest, tick and rollup statement of either engine keeps both tables sound |
| `RollupSoundness.RunSound` | internal/scheduler/aggregation.go:30-90 | soundness is an invariant of every history, both engines mixed, at any clock times |
| `RollupSoundness.ReachableSound` | internal/scheduler/aggregation.go:30-90 | from empty tables every reachable row has 1 ≤ count ≤ samples of its bucket, an attained maximum and a bounded average |
| `RollupSoundness.TotalBound` | internal/scheduler/aggregation.go:43 | the counts of a table sum to at most the samples its buckets cover |
| `RollupSoundness.TotalExact` | web/src/lib/alert-engine.ts:268 | if every row counts its whole bucket, the counts sum to exactly the samples covered |
| `RollupSoundness.CountsNeverExceedSamples` | internal/scheduler/aggregation.go:30-59 | in every reachable store no sample is counted in two rows of a table |
| `RollupMeans.AggregateOrderFree` | internal/scheduler/aggregation.go:39-48 | a row depends on which samples its group holds, not on their order |
| `RollupMeans.MeanExactly` | internal/scheduler/aggregation.go:39-42 | the average is the one value from which the samples' deviations cancel |
| `RollupMeans.SlotsAreTheHour` | internal/scheduler/aggregation.go:67-79 | the samples of the twelve buckets are exactly those of the hour, each once |
| `RollupMeans.HourConserved` | internal/scheduler/aggregation.go:67-79 | from complete rows, all in the window, the hourly count and maximum are exact and the rows together weigh what the samples sum to |
| `RollupMeans.HourExactly` | web/src/lib/alert-engine.ts:285-296 | from such rows the hourly row is the aggregate of the hour's raw samples if and only if counts and averages are uncorrelated over them |
| `RollupMeans.HourExactWhenEven` | web/src/lib/alert-engine.ts:285-296 | so it is when those rows count equally many samples |
| `RollupHours.HourGroupsExactly` | internal/scheduler/aggregation.go:67-79 | the hourly query has a row exactly for the hours with a 5-minute row in the window |
| `RollupHours.WebHourExactly` | web/src/lib/alert-engine.ts:282-303 | the web statement writes an hour whose rows are complete and in the window with exact count and maximum, and exactly right if and only if counts and averages are uncorrelated |
| `RollupHours.KeptCounts` | internal/scheduler/aggregation.go:67-79 | what a window keeps of an hour's rows counts at most the hour's samples, and all of them exactly when every row is complete and in the window |
| `RollupHours.WrittenExactly` | web/src/lib/alert-engine.ts:285-296 | what an hourly statement writes is the aggregate of the hour's samples if and only if its window cuts off none of the hour's rows, these are complete, and counts and averages are uncorrelated |
| `RollupHours.WebHourAfter` | web/src/lib/alert-engine.ts:282-303 | whether any hour is right after a web run, exactly: untouched outside the window, and as written inside |
| `RollupHours.GoHourAfter` | internal/scheduler/aggregation.go:62-80 | whether any hour is right after a Go run, exactly: untouched once it has a row or has none past the watermark, and as written otherwise |
| `RollupHours.GoHourExactly` | internal/scheduler/aggregation.go:62-80 | an hour with samples and no row yet is written right if and only if some of its rows are past the watermark, none is cut off, all are complete, and counts and averages are uncorrelated |
| `RollupHours.GoHoursFrozen` | internal/scheduler/aggregation.go:76-80 | over any run Go hourly rows never change and max(bucket) never decreases |
| `RollupHours.GoHourRowExact` | internal/scheduler/aggregation.go:62-80 | a Go hourly row is the aggregate of its hour later if and only if it was when written and no sample of the hour came since |
| `RollupHours.StepDecides` | internal/scheduler/aggregation.go:31-49 | every step keeps that a 5-minute row counting its whole bucket is the full recomputation |
| `RollupHours.EveryHourExactly` | web/src/lib/alert-engine.ts:282-303 | over every history of both engines from empty tables, when an hourly row is the aggregate of its raw samples, exactly |
| `RollupExactness.WindowExact` | web/src/lib/alert-engine.ts:270-272 | a window yields the full recomputation exactly when it sees the whole bucket |
| `RollupExactness.FirstVisitCompletes` | web/src/lib/alert-engine.ts:258-279 | the web run in the five minutes after a bucket closed computes it in full |
| `RollupExactness.RevisitKeepsComplete` | web/src/lib/alert-engine.ts:270-278 | a later web run keeps a complete row complete exactly when its lower bound does not split the bucket |
| `RollupExactness.BehindForever` | web/src/lib/alert-engine.ts:270-278 | a row that lost samples out of the window's reach is never repaired, by either engine |
| `RollupExactness.StepExact` | web/src/lib/alert-engine.ts:258-279 | whether a row is complete after a sample, a web run or a Go run, exactly, from whether it was before |
| `RollupExactness.RowsExactly` | internal/scheduler/aggregation.go:31-49 | over every history of both engines from any sound tables, when a row equals the full recomputation, exactly, whether its bucket is open or closed |
| `RollupExactness.EveryRowExactly` | web/src/lib/alert-engine.ts:258-279 | over every history of both engines from empty tables, samples late or not, when a row equals the full recomputation, exactly |
| `RollupExactness.ClosedRowsExactly` | web/src/lib/alert-engine.ts:270-278 | for a bucket closed at the start a web run decides by its lower bound alone |
| `RollupExactness.ClosedRowExact` | web/src/lib/alert-engine.ts:258-279 | without late samples a closed complete row stays complete if and only if no web run splits its bucket, whatever Go runs do |
| `RollupExactness.WebRowExact` | web/src/lib/alert-engine.ts:258-279 | visited on time and without late samples, a row equals the full recomputation at a later time if and only if no web run split it |
| `RollupWitnesses.WebDropsBoundarySample` | web/src/lib/alert-engine.ts:270-278 | a run from empty tables in which a complete row of two samples loses the one on the boundary |
| `RollupWitnesses.WebWritesOpenBucket` | web/src/lib/alert-engine.ts:271 | a run from empty tables in which the row of the bucket in progress is written of its boundary sample alone |
| `RollupWitnesses.WebOverwritesHour` | web/src/lib/alert-engine.ts:294-302 | a run from empty tables in which an exact hourly row is overwritten with what is left of its rows in the window |
| `RollupWitnesses.UnevenHourDiffers` | web/src/lib/alert-engine.ts:288 | a run from empty tables with all 5-minute rows right and an hourly average of 2.5 where the mean is 3 |
| `RollupWitnesses.GoCutsHour` | internal/scheduler/aggregation.go:76-78 | a run from empty tables in which the hourly watermark of one asset cuts off the first row of another, and the hourly row written is wrong though its 5-minute rows are right |
| `RollupWitnesses.GoFreezesPartialRow` | internal/scheduler/aggregation.go:45-49 | a run from empty tables in which the row of the bucket in progress never takes in a later sample |
| `RollupExactness.ScheduledRunExact` | web/src/lib/alert-engine.ts:258-279 | on the five-minute schedule, with no boundary and no late samples, every closed bucket is exact and all counts sum to all samples |
| `RollupExactness.GoRowsFrozen` | internal/scheduler/aggregation.go:45-49 | over any run Go rows never change and max(bucket) never decreases |
| `RollupExactness.GoAdds` | internal/scheduler/aggregation.go:44-49 | a Go run adds a row exactly for the unwritten buckets with a sample past the watermark |
| `RollupExactness.GoAddsExact` | internal/scheduler/aggregation.go:44-49 | an added row is the full recomputation exactly when the watermark cuts off none of its bucket |
| `RollupExactness.GoRerun` | internal/scheduler/aggregation.go:45-49 | when a second run with no new sample changes the table, exactly |
| `RollupExactness.GoIdempotent` | internal/scheduler/aggregation.go:45-49 | from a non-empty table a second run with no new sample changes nothing |
| `RollupWitnesses.GoNotIdempotentFromEmpty` | internal/scheduler/aggregation.go:46 | a run from empty tables after which a second Go run with no new sample adds a row: the one-hour fallback is reopened by the new watermark |
| `RollupExactness.GoRowExact` | internal/scheduler/aggregation.go:31-49 | a Go row equals the full recomputation later if and only if it did when written and no sample of its bucket came since |
| `RollupWindows.WebFiveReads` | web/src/lib/alert-engine.ts:258-279 | the web run aggregates the samples of a bucket that are less than 600 s old and not past the start of the bucket in progress, and leaves a bucket without any alone |
| `RollupWindows.GoFiveReads` | internal/scheduler/aggregation.go:31-49 | the Go run adds a row for a bucket that has none, of its samples later than the newest bucket, or than an hour ago where the table is empty |
| `RollupWindows.WebHourReads` | web/src/lib/alert-engine.ts:282-303 | the web run combines the rows of an hour whose bucket is less than 7200 s old and not past the start of the hour in progress, and leaves an hour without any alone |
| `RollupWindows.WebHourInProgress` | web/src/lib/alert-engine.ts:294-295 | the hour in progress is written from its first 5-minute row alone, and left alone without one |
| `RollupWindows.GoHourReads` | internal/scheduler/aggregation.go:62-80 | the Go run adds a row for an hour that has none, of its rows later than the newest hour, or than a day ago where the table is empty |
| `MetricTables.Tables.Insert` | internal/handler/metrics.go:106-113 | ingest appends one sample and touches no aggregate |
| `MetricTables.Tables.GoAggregate5m` | internal/scheduler/aggregation.go:30-59 | in place, the Go 5-minute statement |
| `MetricTables.Tables.GoAggregate1h` | internal/scheduler/aggregation.go:62-90 | in place, the Go hourly statement |
| `MetricTables.Tables.GoAggregate` | internal/scheduler/aggregation.go:11-27 | the Go job is both statements in turn, and keeps sound tables sound |
| `MetricTables.Tables.WebAggregate` | web/src/lib/alert-engine.ts:255-307 | the web job is both statements in turn, the second on the rows of the first, and keeps sound tables sound |
| `MetricTables.MaxBucket` | internal/scheduler/aggregation.go:46 | the loop over the rows finds the watermark |
| `Hub.IsSubscribedExact` | internal/websocket/hub.go:240-258 | a topic matches exactly a subscription to itself or to the non-empty text before its first colon |
| `HubSafety.OfferKeeps` | internal/websocket/hub.go:94-105 | one turn of the dispatch loop keeps the invariant: buffers bounded, offers in dispatch order, a missed message leads to an eviction |
| `HubSafety.UnregisterKeeps` | internal/websocket/hub.go:77-84 | repeated and racing unregister requests close a channel once |
| `HubSafety.StepKeeps` | internal/websocket/hub.go:68-155 | every step of every goroutine keeps the invariant |
| `HubSafety.RunKeeps` | internal/websocket/hub.go:68-155 | every interleaving keeps the invariant |
| `HubSafety.ChannelsSafe` | internal/websocket/hub.go:68-109 | over every interleaving no send or close follows a close, a channel closes once, exactly when its client registered and left, and holds at most 256 messages |
| `HubSafety.TopicsAreReplayed` | internal/websocket/hub.go:164-189 | over every interleaving a client's subscriptions are what its own messages made them |
| `HubSafety.AcceptsOrdered` | internal/websocket/hub.go:95-103 | what a client accepts is an in-order subsequence of what it was offered and of what matched |
| `HubSafety.DeliveryExact` | internal/websocket/hub.go:86-106 | over every interleaving a client is offered exactly the messages dispatched while registered, accepts all that matched exactly when its buffer had room at each of these, and is evicted if it missed one |
| `HubSafety.StepPosts` | internal/websocket/hub.go:86-118 | a step changes what was dispatched and what waits only by a broadcast met with fewer than 256 waiting, which goes last |
| `HubSafety.DispatchedInOrder` | internal/websocket/hub.go:86-118 | over every run what was dispatched followed by what waits is what was broadcast, in that order, less the messages that met 256 waiting and those that do not encode |
| `HubSafety.OfferGives` | internal/websocket/hub.go:94-104 | an offer puts its message last in the client's channel exactly when the client subscribes to it and fewer than 256 are there, and asks for an eviction exactly when it does and 256 are |
| `HubSafety.ReceivesExactly` | internal/websocket/hub.go:94-104 | over every run a client receives, in order, exactly the messages that reach it, by its subscriptions at the time, while fewer than 256 are in its channel |
| `HubLoop.EventLoop.TakeRegister` | internal/websocket/hub.go:71-75 | the register case takes one Register step |
| `HubLoop.EventLoop.TakeUnregister` | internal/websocket/hub.go:77-84 | the unregister case takes one Unregister step, whether or not the client is still registered |
| `HubLoop.EventLoop.TakeBroadcast` | internal/websocket/hub.go:86-106 | the broadcast case, clients visited in any order, is a possible run of dispatch steps and ends in the state of that run |
| `HubLoop.EventLoop.BeginDispatch` | internal/websocket/hub.go:86-91 | a message that does not encode is taken and dropped |
| `HubLoop.EventLoop.OfferClient` | internal/websocket/hub.go:94-105 | one turn: send when subscribed and room, request eviction when full, else nothing |
| `HubLoop.EventLoop.SubscribeTo` | internal/websocket/hub.go:224-228 | adds one topic of one client |
| `HubLoop.EventLoop.UnsubscribeFrom` | internal/websocket/hub.go:231-235 | removes one topic of one client |
| `HubLoop.EventLoop.Send` | internal/websocket/hub.go:112-118 | appends to the queue, or drops when 256 are waiting |
| `Alerts.CheckWindow` | internal/scheduler/alert_eval.go:117-130 | two counts decide whether the window is non-empty and every sample in it breaches |
| `AlertWindows.OneReading` | internal/scheduler/alert_eval.go:117-130 | a single reading triggers a rule exactly when it is the asset's, no earlier than the window, not NULL and on the operator's side of the threshold |
| `AlertWindows.TriggeredJoins` | internal/scheduler/alert_eval.go:117-130 | a window is triggered exactly when it is not empty and so is each part of it that is not empty |
| `AlertWindows.RaisingKeeps` | internal/scheduler/alert_eval.go:117-130 | raising the readings keeps a > or >= rule triggered, lowering them a < or <= rule |
| `AlertWindows.OperatorsOppose` | internal/scheduler/alert_eval.go:117-130 | on any window = is both >= and <=, and > excludes <= as < excludes >= |
| `AlertWindows.OneReadingFires` | internal/scheduler/alert_eval.go:113-161 | a pair without an active alert fires on one reading exactly when that is in the last duration seconds and breaches and no resolution of the pair is younger than the cooldown |
| `AlertWindows.TickTouches` | internal/scheduler/alert_eval.go:64-177 | a tick touches no row but those of the pairs of rules with a known metric: it resolves active ones and appends, both at this time |
| `Alerts.FindActive` | internal/scheduler/alert_eval.go:134-139 | finds an active alert of the pair exactly when there is one |
| `Alerts.AlertStore.LastResolved` | internal/scheduler/alert_eval.go:144-151 | the newest resolution alone decides, for every time and cooldown, whether the pair is in cooldown |
| `Alerts.AlertStore.EvaluateRule` | internal/scheduler/alert_eval.go:113-180 | in place, the loop over one rule's assets: fire, suppress or auto-resolve |
| `Alerts.AlertStore.Evaluate` | internal/scheduler/alert_eval.go:64-72 | in place, the loop over all rules, an unknown metric skipped |
| `Alerts.AlertStore.GoAction` | internal/handler/alerts.go:125-147 | acks or resolves whatever the status |
| `Alerts.AlertStore.WebAction` | web/src/app/api/alerts/route.ts:88-116 | refuses a request without an id, acks only an active alert, resolves only an active or acked one |
| `AlertWindows.GoActionsExactly` | internal/handler/alerts.go:138-141 | the Go actions change the one row, whatever its status; an ack keeps the resolution time, a second resolution moves it |
| `AlertWindows.WebActionsExactly` | web/src/app/api/alerts/route.ts:97-112 | the web actions change the one row: an ack an active alert only, a resolution an active or an acked one, and a row already resolved keeps its time |
| `Alerts.EvaluatePairSettles` | internal/scheduler/alert_eval.go:130-176 | one evaluation keeps at most one active alert and settles its pair |
| `Alerts.EvaluatePairFrame` | internal/scheduler/alert_eval.go:130-176 | and leaves every other pair as settled as it was |
| `Alerts.EvaluateAssetsSettles` | internal/scheduler/alert_eval.go:115-177 | a rule's loop settles all its assets and disturbs no other rule |
| `Alerts.TickSettles` | internal/scheduler/alert_eval.go:64-177 | after a tick an active alert implies a non-empty, all-breaching window, and a triggered pair without one is in cooldown |
| `AlertHistories.MoveKeeps` | internal/scheduler/alert_eval.go:115-176 | every query, update and operator action keeps at most one active alert a pair |
| `AlertHistories.NeverTwoActive` | internal/scheduler/alert_eval.go:115-176 | with operators between any two queries there are never two active alerts of a pair |
| `AlertHistories.UninterruptedIsEvaluatePair` | internal/scheduler/alert_eval.go:115-176 | an iteration nothing interrupts does to the table what the one-step evaluation says |
| `Cooldowns.FireSpacedExactly` | internal/scheduler/alert_eval.go:141-161 | a firing is a cooldown after every earlier resolution of its pair exactly when the table shows no recent one, of any status |
| `Cooldowns.OverlookedIsHidden` | internal/scheduler/alert_eval.go:144-151 | what the cooldown query overlooks is exactly a recent resolution that was acked since |
| `Cooldowns.CooldownExactly` | internal/scheduler/alert_eval.go:141-161 | over every history each alert fires at least the cooldown after every earlier resolution of its pair if and only if no firing overlooks one that was acked since |
| `Cooldowns.FiresAfterCooldown` | internal/scheduler/alert_eval.go:141-161 | so it is where no resolved alert is acked |
| `Cooldowns.AckHidesResolution` | internal/handler/alerts.go:138-141 | a history in which acking a resolved alert makes the pair fire again at once |
| `Cooldowns.MoveExactly` | internal/scheduler/alert_eval.go:115-176 | every query, update and operator action keeps the log and the table in step, and only an insert can break the spacing |
| `Cooldowns.PlayExactly` | internal/scheduler/alert_eval.go:115-176 | the spacing over any interleaving, read off the table at the inserts |
| `Cooldowns.RecentSlipped` | internal/scheduler/alert_eval.go:144-151 | a recent resolution at an insert was made since the passed cooldown query or was acked when the query looked |
| `Cooldowns.PlayCooldownExactly` | internal/scheduler/alert_eval.go:141-161 | with operators between any two queries the spacing holds if and only if at no insert has an alert of the pair been recently resolved that was resolved since the cooldown query or acked when it looked |
| `Cooldowns.PlayFiringRate` | internal/scheduler/alert_eval.go:141-176 | without acks, operators resolving between any two queries, a pair fires at most L div cooldown + 1 times in any span L |
| `Cooldowns.ResolveBeforeInsert` | internal/scheduler/alert_eval.go:144-160 | an interleaving in which an operator resolves an acked alert between the check and the insert, which fires at once |
| `AlertHistories.FiringRate` | internal/scheduler/alert_eval.go:141-176 | the same rate over whole evaluations |
| `AlertHistories.WebStepKeeps` | web/src/lib/alert-engine.ts:98-123 | the web check and insert, with operators in between, keep active alerts of a pair a cooldown apart |
| `AlertHistories.WebActiveApart` | web/src/lib/alert-engine.ts:96-123 | over every web run two still-active alerts of a pair fired at least a cooldown apart |
| `AlertHistories.InsertsAsChecked` | web/src/lib/alert-engine.ts:98-123 | whatever operators do in between, the insert appends an alert exactly when the check found no alert of the pair still active and younger than the cooldown |
| `AlertHistories.RowFollowsOperators` | web/src/app/api/alerts/route.ts:97-112 | over every web run a row's status is what the operators made of it, and a resolved row stays as it is |
| `WebAlerts.WebEngine.RunAlertEvaluation` | web/src/lib/alert-engine.ts:49-139 | in place, the loops over rules and latest metrics |
| `AlertWindows.EnginesAgree` | web/src/lib/alert-engine.ts:38-47 | both engines judge a value alike by each of the five operators, and the web engine lets nothing breach any other |
| `AlertWindows.ExceedsBySign` | web/src/lib/alert-engine.ts:38-47 | the sign of value minus threshold decides each operator |
| `WebAlerts.LatestIsNewest` | web/src/lib/alert-engine.ts:57-66 | what the metrics query leaves of an asset is a newest row of it, and there is one if it has any younger than five minutes |
| `WebAlerts.NewestDecides` | web/src/lib/alert-engine.ts:57-96 | a rule is judged by a newest reading of the asset, by one of them if several are simultaneous |
| `WebAlerts.SoleNewestDecides` | web/src/lib/alert-engine.ts:57-96 | and exactly by the newest where none are simultaneous |
| `WebAlerts.AllPairsMembers` | web/src/lib/alert-engine.ts:74-96 | the pairs considered are exactly those whose latest metric breaches an applicable rule |
| `WebAlerts.TickFiresExactly` | web/src/lib/alert-engine.ts:92-123 | a pair gains an alert, and only one, exactly when it breaches and has no active alert younger than the cooldown; nothing else changes |
| `AlertWindows.TickGainsExactly` | web/src/lib/alert-engine.ts:72-123 | a pair gains an alert, and only one, exactly when the latest row of its asset concerns a rule of that id (its own asset, or its type, or any; a column that is not NULL; the operator's side of the threshold) and no still active alert of the pair was fired less than the cooldown ago |
| `WebAlerts.NoCooldownFiresAll` | web/src/lib/alert-engine.ts:99-107 | without a positive cooldown every breach fires |
| `WebAlerts.TickIsWebRun` | web/src/lib/alert-engine.ts:92-123 | a tick is a run of the interleavable checks and inserts |
| `Outages.Monitor.RunOfflineCheck` | web/src/lib/alert-engine.ts:141-252 | in place, the three phases of the check, rows in any order |
| `Outages.CheckOfflineExactly` | web/src/lib/alert-engine.ts:149-156 | after a check an asset is offline exactly when it was, or is monitored and was never heard of or not for more than the threshold's minutes; nothing else of it changes |
| `Outages.OfflineExactly` | web/src/lib/alert-engine.ts:141-156 | over any run an asset is offline exactly by the last that decided it: a report, a failed poll, or, if it is monitored, a check more than its threshold after the last report or without any |
| `Outages.SilentGoesOffline` | web/src/lib/alert-engine.ts:149-156 | a monitored asset that has just reported is offline after a check exactly when more than the threshold's minutes have passed |
| `Outages.OperatorsExactly` | web/src/app/api/alerts/route.ts:97-112 | another alert is appended active, an ack takes an active alert only, a resolution any |
| `Outages.CheckRowsExactly` | web/src/lib/alert-engine.ts:158-248 | a check appends active outage alerts and open incidents of the assets it takes offline alone, resolves the active outage alerts of those online and closes incidents of theirs, and changes no other row or column |
| `Outages.CheckCounts` | web/src/lib/alert-engine.ts:149-248 | the exact number of outage alerts and open incidents of every asset after a check |
| `Outages.RecoversExactly` | web/src/lib/alert-engine.ts:230-241 | an online asset is left without an open incident exactly when it had at most one |
| `Outages.RunAtMostOne` | web/src/lib/alert-engine.ts:141-252 | over all runs no asset has two unresolved incidents or two active outage alerts |
| `Outages.CheckOutcome` | web/src/lib/alert-engine.ts:149-248 | after each check online assets have neither, and an asset just taken offline has one of each |
| `Racks.RackStore.PostUnit` | web/src/app/api/rack/route.ts:69-100 | in place, create_unit with all its refusals |
| `Racks.RackStore.PutUnit` | web/src/app/api/rack/route.ts:125-166 | in place, update_unit with all its refusals; an omitted asset is cleared |
| `Racks.RackStore.PostRack` | web/src/app/api/rack/route.ts:58-67 | in place, create_rack |
| `Racks.RackStore.PutRack` | web/src/app/api/rack/route.ts:113-123 | in place, update_rack; the height is not checked |
| `Racks.RackStore.Delete` | web/src/app/api/rack/route.ts:172-190 | in place; a rack takes its units with it |
| `Racks.CreatedExactly` | web/src/app/api/rack/route.ts:69-100 | which of its five answers a create gets, by the slots of the rack and the units in them, and it changes nothing unless accepted |
| `Racks.UpdatedExactly` | web/src/app/api/rack/route.ts:125-166 | which of its five answers an update gets, likewise, its own slots not counted |
| `Racks.RelabelsExactly` | web/src/app/api/rack/route.ts:147-156 | in any table an update that gives no place is refused only for its range |
| `Racks.RackAnswers` | web/src/app/api/rack/route.ts:58-190 | a rack needs a name to be created and an id to be updated, and neither an update nor a delete tells whether its row exists |
| `Racks.PlacesAfter` | web/src/app/api/rack/route.ts:51-190 | which unit is in which slot after any request: only the created, updated and deleted units, and those of a deleted rack, change theirs |
| `Racks.LabelsAfter` | web/src/app/api/rack/route.ts:94-163 | names and assets after any request: those given are stored, a name not given stays, an asset not given is cleared |
| `Racks.HeightsAfter` | web/src/app/api/rack/route.ts:58-123 | rack heights after any request: 42 for a new rack that gives none, and as given by an update |
| `Racks.Numbered` | web/src/app/api/rack/route.ts:61-99 | racks and units are numbered from one as their creates are accepted, and no number is used again |
| `Racks.ClashIsSharedSlot` | web/src/app/api/rack/route.ts:85-91 | for sizes of at least one the overlap query finds a row exactly when two units share a slot |
| `Racks.ClashWithoutSharedSlot` | web/src/app/api/rack/route.ts:85-91 | for size zero it can find one that shares none |
| `Racks.CreateKeepsExactly` | web/src/app/api/rack/route.ts:75-97 | an accepted create keeps the placement exactly when its size is at least one |
| `Racks.UpdateKeepsExactly` | web/src/app/api/rack/route.ts:129-164 | an accepted update keeps the placement exactly when its size is at least one |
| `Racks.HandleKeepsExactly` | web/src/app/api/rack/route.ts:51-190 | every request keeps the placement exactly when it is careful about sizes and heights, or changes nothing |
| `Racks.RunKeepsPlacement` | web/src/app/api/rack/route.ts:51-190 | placement is an invariant of every run of careful requests |
| `Racks.ReachablePlaced` | web/src/app/api/rack/route.ts:51-190 | in every such run units lie within their racks and no two share a slot |
| `RackPage.CollectOccupied` | web/src/app/(dashboard)/rack/page.tsx:90-93 | the nested loops collect exactly the slots some unit fills |
| `RackPage.EmptySlots` | web/src/app/(dashboard)/rack/page.tsx:151-154 | the slots drawn empty are those within the rack that are not occupied, from the top down |
| `RackPage.OccupiedSize` | web/src/app/(dashboard)/rack/page.tsx:87-93 | the occupied slots of disjoint units number the sum of their sizes |
| `RackPage.CountsAgree` | web/src/app/(dashboard)/rack/page.tsx:87-93 | occupied = used ≤ total, and empty = total - used |
| `RackPage.CreateExactlyOnEmpty` | web/src/app/api/rack/route.ts:80-92 | a 1-U create succeeds exactly on the slots shown empty |
| `RackPage.MoveExactly` | web/src/app/(dashboard)/rack/page.tsx:380-393 | a one-step move is accepted exactly when its single new slot exists and is free, and otherwise answered by which of the two fails; it shifts the unit by one, clears its asset and keeps the placement |
| `Capacity.DenomPositive` | web/src/app/(dashboard)/assets/capacity/page.tsx:73 | the denominator is n²(n² - 1)/12, positive from two points on |
| `Capacity.ResidualsVanish` | web/src/app/(dashboard)/assets/capacity/page.tsx:65-78 | the residuals sum to zero and are orthogonal to the index |
| `Capacity.LeastSquares` | web/src/app/(dashboard)/assets/capacity/page.tsx:65-78 | no line has a smaller squared error, and only the fitted one attains it |
| `Capacity.ExactOnLines` | web/src/app/(dashboard)/assets/capacity/page.tsx:65-78 | on exactly linear data the fit is that line |
| `Capacity.FewPoints` | web/src/app/(dashboard)/assets/capacity/page.tsx:65-68 | through fewer than two points the line is level, at the one value or at zero |
| `Pool.StepKeeps` | internal/llm/pool.go:32-52 | every step of a submitted call keeps the slot count and the state of its channel |
| `Pool.PoolSafe` | internal/llm/pool.go:19-52 | at most the constructor's workers (one if not positive) are in flight, the semaphore counts the holders, each channel gets at most one value, before its one close, and only a cancelled call gets the cancellation error |
| `Pool.AnsweredExactly` | internal/llm/pool.go:39-48 | over every run a call gets the cancellation error exactly if its goroutine gave up, and the provider's result exactly if that returned |
| `Pool.GivesUpExactly` | internal/llm/pool.go:39-44 | a call can give up, whether or not a slot is free, exactly from the end of its context until it has taken a slot or given up |
| `Pool.TakesSlotExactly` | internal/llm/pool.go:19-45 | in every reachable state a call can take a slot exactly when it is waiting and fewer calls hold one than the pool has workers: no slot is ever lost |
| `Pool.NeverStuck` | internal/llm/pool.go:35-49 | some goroutine can move exactly while some call is not finished |
| `Pool.MoveUsesWork` | internal/llm/pool.go:35-49 | every move uses up some of the work left |
| `Pool.MovesAreBounded` | internal/llm/pool.go:35-49 | a run of moves is no longer than the work it starts from |
| `Pool.AllAnswered` | internal/llm/pool.go:32-52 | where no goroutine can move, every call has got exactly one result and its channel is closed |
| `Pool.EveryCallAnswered` | internal/llm/pool.go:32-52 | from any reachable state, under any schedule, that point comes after boundedly many moves |
| `FanOut.StepKeeps` | internal/scheduler/agent_poll.go:68-84 | every step keeps the slot count, the WaitGroup and the poll counts |
| `FanOut.FanOutSafe` | internal/scheduler/agent_poll.go:68-85 | at most five polls in flight; when Wait has returned every target was polled exactly once and no slot is held |
| `FanOut.SpawnsExactly` | internal/scheduler/agent_poll.go:68-82 | in every reachable state the next goroutine can start exactly when fewer than five targets hold a slot: no slot is ever lost |
| `FanOut.NeverStuck` | internal/scheduler/agent_poll.go:68-85 | some goroutine can move exactly until Wait returns |
| `FanOut.StepUsesOne` | internal/scheduler/agent_poll.go:68-85 | every step uses up exactly one unit of the work left |
| `FanOut.ReturnsExactly` | internal/scheduler/agent_poll.go:68-85 | under any schedule Wait returns after exactly 5n + 1 steps, and until then a step is possible |
| `Organizations.OrgTable.DepthQuery` | web/src/app/api/organizations/route.ts:51-59 | the recursive query returns the length of the parent chain exactly when that ends |
| `Organizations.OrgTable.Post` | web/src/app/api/organizations/route.ts:37-73 | in place, create with its refusals; a missing parent uses up an id, a parent on a cycle gets no answer |
| `Organizations.OrgTable.Put` | web/src/app/api/organizations/route.ts:76-99 | in place, update with its refusals |
| `Organizations.OrgTable.Remove` | web/src/app/api/organizations/route.ts:102-118 | in place; children become roots and the row stays, inactive |
| `Organizations.CreatedExactly` | web/src/app/api/organizations/route.ts:37-73 | which answer a create gets in a forest: accepted for a root or below an existing organisation not on the third level, and then nothing else changes |
| `Organizations.UpdatedExactly` | web/src/app/api/organizations/route.ts:76-99 | which answer an update gets in any table; it sets the parent given and no other row or column |
| `Organizations.ThreeLevels` | web/src/app/api/organizations/route.ts:50-62 | three levels can be made from the empty table, and a fourth is refused |
| `Organizations.LongChainRepeats` | web/src/app/api/organizations/route.ts:52-57 | a chain longer than the number of rows runs into a cycle |
| `Organizations.AcyclicIsAllEnd` | web/src/app/api/organizations/route.ts:52-57 | the depth query ends from every row exactly when the parent links have no cycle |
| `Organizations.HandleKeepsForest` | web/src/app/api/organizations/route.ts:50-70 | create and delete keep the forest, and in a forest the query ends |
| `Organizations.DeleteDetaches` | web/src/app/api/organizations/route.ts:110-115 | a deleted organisation is nobody's ancestor any more; all other links and flags stay |
| `Organizations.RunKeepsForest` | web/src/app/api/organizations/route.ts:37-118 | over every run of creates and deletes |
| `Organizations.ReachableForest` | web/src/app/api/organizations/route.ts:37-118 | such a run leaves no cycle, no chain over three and a query that ends |
| `Organizations.MoveKeepsAcyclicExactly` | web/src/app/api/organizations/route.ts:87-96 | re-parenting keeps the links acyclic exactly when the new parent is outside the moved subtree |
| `Organizations.MoveKeepsDepthExactly` | web/src/app/api/organizations/route.ts:87-96 | it keeps every chain within three exactly when the parent's depth and the subtree's height allow it |
| `Organizations.UpdateKeepsForestExactly` | web/src/app/api/organizations/route.ts:76-99 | when the update handler keeps the forest, exactly |
| `Organizations.ParentBelowChild` | web/src/app/api/organizations/route.ts:87-96 | the self-parent check does not prevent a cycle, after which a create below it has no end |
| `Logins.User.WebLogin` | web/src/app/api/auth/route.ts:11-82 | in place, the web handler with its reset of a lock that ran out |
| `Logins.User.GoLogin` | internal/handler/auth.go:34-91 | in place, the Go handler, which does not reset |
| `Logins.LockRunsOut` | web/src/app/api/auth/route.ts:31-66 | from its lock time on neither handler answers an active account as locked: the right password is welcome and clears it, a wrong one is counted, by the web handler from one again |
| `Logins.LockedExactly` | web/src/app/api/auth/route.ts:11-82 | over any run in order of time, to both handlers, a request of an active account is answered as locked exactly when less than 1800 s have passed since the last wrong answer from the fifth on, with no success since, and otherwise welcomed exactly when the password is right |
| `Logins.LockFromFive` | internal/handler/auth.go:66-91 | after every request to either handler a lock time is set exactly from five failures on |
| `Logins.WebLockIsFive` | web/src/app/api/auth/route.ts:31-66 | where the web handler gets all requests, exactly when failed_attempts is 5 |
| `Logins.GoLocksPastFive` | internal/handler/auth.go:76-80 | not so on an account both handlers see: the Go handler locks again at six |
| `Logins.StepSpends` | web/src/app/api/auth/route.ts:31-62 | a failed comparison is paid for by the budget of the rest of the span |
| `Logins.RunSpends` | internal/handler/auth.go:66-86 | a run without success compares at most its budget |
| `Logins.AnyComparisons` | web/src/app/api/auth/route.ts:31-66 | at most 5·(L div 30 min + 1) comparisons in any success-free span L of any run, whichever handlers get the requests |
| `Logins.GoComparisons` | internal/handler/auth.go:66-91 | at most 5 + L div 30 min where the Go handler gets the requests of the span |
| `Logins.GoCountsEveryFailure` | internal/handler/auth.go:74-91 | the Go count is the number of wrong passwords compared since the last success, whatever locks ran out |
| `SyslogParser.TrimBack` | internal/syslog/parser.go:35 | trimming removes exactly the blanks around a line |
| `SyslogParser.Match5424Exactly` | internal/syslog/parser.go:29 | the RFC 5424 matcher yields groups exactly when the line is made of them |
| `SyslogParser.Match3164Exactly` | internal/syslog/parser.go:30 | the RFC 3164 matcher yields groups exactly when the line is made of them and the program is the shortest readable |
| `SyslogParser.ShortestExactly` | internal/syslog/parser.go:30 | the lazy program group stops early exactly at a later colon, or at a bracketed number at the end with no other after it |
| `SyslogParser.Parse5424Back` | internal/syslog/parser.go:34-60 | parsing undoes printing in the form of section 6 of RFC 5424, whatever the gaps and surrounding blanks |
| `SyslogParser.NoDigitNever5424` | internal/syslog/parser.go:29 | a line whose timestamp does not start with a digit is never taken as RFC 5424 |
| `SyslogParser.Parse3164Back` | internal/syslog/parser.go:62-90 | parsing undoes printing in the form of section 4.1 of RFC 3164 exactly for the programs that can be read whole |
| `SyslogParser.PriorityBack` | internal/syslog/parser.go:42-44 | facility and severity come back from 8·facility + severity |
| `SyslogParser.ParsedPriority` | internal/syslog/parser.go:42-44 | every parsed message has 0 ≤ severity < 8 and 8·facility + severity is the number read, capped at the largest int |
| `SyslogParser.RefusedExactly` | internal/syslog/parser.go:34-92 | a line is refused as empty exactly when it is all blank, and as unrecognised exactly when something is left that has neither form |
| `SyslogParser.SpacesAreBlanks` | internal/syslog/parser.go:29-35 | the spaces of the expressions are the blanks that trimming knows but for the vertical tab |
| `SyslogParser.RawParsesAgain` | internal/syslog/parser.go:34-60 | the stored raw line parses to the message it is stored with |
| `MacParser.NormalizeMacIdempotent` | web/src/lib/mac-parser.ts:23-30 | normalising twice is normalising once |
| `MacParser.NormalizeMacSeesDigits` | web/src/lib/mac-parser.ts:23-30 | two spellings agree exactly when their hex digits do, or neither has twelve |
| `MacParser.ColonsAt` | web/src/lib/mac-parser.ts:29 | a colon after every pair, the digits in order |
| `Scanning.ClassesByAlphabet` | web/src/lib/mac-parser.ts:69-71 | the digit, hex digit and word classes are those letters of the alphabets |
| `Scanning.DigitsInOrder` | internal/syslog/parser.go:42 | each decimal digit stands for its place among the ten |
| `MacParser.LowerByAlphabet` | web/src/lib/mac-parser.ts:27 | every capital becomes the small letter at its place in the alphabet, and nothing else changes |
| `MacParser.StaticInAnyCase` | web/src/lib/mac-parser.ts:79 | a kind reads as static exactly when it is that word, in small letters, capitals or both |
| `MacParser.UsableByDigits` | web/src/lib/mac-parser.ts:33-40 | usable addresses are all but zero, broadcast and the three group blocks |
| `MacParser.LinesConcat` | web/src/lib/mac-parser.ts:64 | splitting distributes over joining by a newline |
| `MacParser.MatchRowExactly` | web/src/lib/mac-parser.ts:69-72 | the row matcher yields groups exactly when the line is a row of them |
| `MacParser.ParseCiscoMac` | web/src/lib/mac-parser.ts:62-83 | the loop collects the entries of the lines in order |
| `MacParser.CiscoDistributes` | web/src/lib/mac-parser.ts:62-83 | parsing distributes over joining texts by a newline |
| `MacParser.CiscoTableBack` | web/src/lib/mac-parser.ts:62-83 | a printed table is read back as exactly its usable rows, in order |
| `Nsshow.ParseBrocadeNsshow` | web/src/lib/mac-parser.ts:197-224 | the loop reports the names with the port it carries |
| `Nsshow.NsshowDistributes` | web/src/lib/mac-parser.ts:197-224 | parsing distributes over joining listings, with the current port carried over |
| `Nsshow.NsshowSplitsExactly` | web/src/lib/mac-parser.ts:200-221 | when two listings may be parsed apart, exactly |
| `Nsshow.CarriedPortIsNearest` | web/src/lib/mac-parser.ts:200-221 | every name is reported under the port line nearest before it, and none without one |
| `Nsshow.PortRowBack` | web/src/lib/mac-parser.ts:204-208 | the port expression reads a printed port line |
| `Nsshow.PortIndexExactly` | web/src/lib/mac-parser.ts:204 | the port expression matches a line exactly when a port marker stands somewhere in it |
| `Nsshow.NameRowPort` | web/src/lib/mac-parser.ts:204-214 | whether a name line is taken for a port line is decided by what follows its address |
| `Nsshow.NameRowBack` | web/src/lib/mac-parser.ts:211-214 | the name expression reads every printed name line, in either case |
| `Nsshow.ReportsExactly` | web/src/lib/mac-parser.ts:211-221 | a report gives the address in small letters and its port, and says target exactly when that word stands somewhere in the line, in either case |
| `Nsshow.LeftmostIsRead` | web/src/lib/mac-parser.ts:204-211 | of several port markers or names in a line the leftmost is read |
| `Nsshow.ListingBack` | web/src/lib/mac-parser.ts:197-224 | a printed listing, with no port marker after an address, is read back in full, every name under the port of its block |

## Left out

- SQL beyond one atomic step per statement: transactions, connection pools, errors of the database, NULL arithmetic.
  A query with LIMIT 1 returns one particular row; where the choice matters (the active alert a racing evaluator
  finds) it is left open.
- Races between a handler's check and its write in the rack, organisation and login handlers: each request is one
  step there.  The alert evaluators, the hub, the pool and the fan-out are interleaved.
- More than one Go evaluator at a time, and a Go and a web evaluator on one alert table, where a pair can have two
  active alerts.
- The Go organisation handlers (`internal/handler/organizations.go`), which check no depth and no self-parent and
  detach no children; where they are used too the forest claims do not hold.
- Columns of the metric tables other than cpu, which are aggregated alike, and the BIGINT rounding of some of them.
- Floating point: averages, thresholds and the fit are over reals.
- RollupExactness.ScheduledRunExact: assumes the schedule, no boundary samples and no late ones, because the window
  drops or misses others; `EveryRowExactly` has the exact condition for every history.
- RollupExactness.WebRowExact: for the buckets that get no sample after they were visited; `EveryRowExactly` has
  the others.
- RollupHours.WebHourExactly: for an hour whose rows are complete and all in the window; `WebHourAfter` has the
  others.
- Goroutines of the hub, the pool and the fan-out as objects: their interleavings are over a value state; only the
  hub's own methods are also given in place.  Ping timers, write errors and read limits are reader exits or
  omitted drains.
- Cooldowns.CooldownExactly: evaluations are single steps there; `PlayCooldownExactly` has the evaluator's queries
  one by one.
- Cooldowns.FiresAfterCooldown: where no resolved alert is acked; `CooldownExactly` has the exact condition.
- WebAlerts.TickFiresExactly: for a positive cooldown; `NoCooldownFiresAll` has the other case.
- Outages.RunAtMostOne: incidents of several assets, re-opened incidents, and rule alerts whose title holds the
  outage marker are not among the events.
- Racks.RunKeepsPlacement: sizes below one and a height below an occupied slot are excluded, because the handlers
  accept them; `HandleKeepsExactly` says they are the only exceptions.
- Racks.CreatedExactly: for sizes of at least one in a placed table, where a clash is a shared slot; the contract of
  `RackStore.PostUnit` covers any.
- Racks.UpdatedExactly: likewise; the contract of `RackStore.PutUnit` covers any.
- Organizations.CreatedExactly: in a forest; the contract of `OrgTable.Post` covers any table.
- Logins.LockedExactly: for requests handled in order of time.
- Labels, types and descriptions of racks and organisations beyond what the handlers check.
- Non-ASCII text in the parsers, the reading of timestamps and their wall-clock fallbacks in the syslog parser, and
  VLAN numbers too large for a double.
- `Classify` and the pattern table of the syslog parser: patterns are data of a foreign expression engine.
- `calcRisk`, `buildItems` and its days-to-full figure, which divides a per-sample slope by the sample count again.
- The Juniper, FortiGate, ARP, CSV and switchshow parsers and vendor detection: further expressions of the same kind.
- Password hashing, tokens, cookies, notifications, LLM providers, HTTP and UI plumbing, list and report handlers.

# Telemetry pipeline: model and proofs

The repository is a telemetry pipeline: agents measure hosts and send batches to a collector, the
collector publishes messages to a JetStream stream, an aggregator stores them in PostgreSQL, and an
API and a dashboard read them back.  This project models the algorithms and protocols behind that
path and proves what they keep, over every input and every run.

| file | what it models |
|---|---|
| `Telemetry.dfy` | values shared by all stages; how a remote call can end (confirmed, refused, or done but unconfirmed) |
| `TraceForest.dfy` | the trace view: a forest built from arbitrary parent links and rendered recursively |
| `Storage.dfy` | the tables, the inserts with the unique index on span IDs, the retention filter |
| `Delivery.dfy` | publish, deliver, insert, ack or nak, redeliver, crash, expire, retain: any number of workers interleaved |
| `Collector.dfy` | the collector's gRPC calls, publishing batch by batch |
| `Pipeline.dfy` | agents, collector, stream, aggregator and trace view put together |
| `AgentAlerts.dfy` | failure counter and interval status with one sender |
| `AgentInterleaving.dfy` | the same state shared by four interleaved senders and the heartbeat goroutine |
| `AgentSoloSend.dfy` | an uninterrupted send of the interleaved agent against the sequential one |
| `AgentHeartbeats.dfy` | the heartbeats of the interleaved agent and the log entries between them |
| `Latches.dfy` | high-usage warnings: latches for CPU, memory and each mount |
| `NetRates.dfy` | network rates from 64-bit counters |
| `Queries.dfy` | the metrics and services queries as relations between a table and its admissible answers |
| `Retention.dfy` | the cleanup function and its effect on the queries |
| `SseWindows.dfy` | the live metric stream as a sequence of query windows |
| `Charts.dfy` | the dashboard's chart buffers |
| `Thresholds.dfy` | the settings row, the API's write-through copy, the agents' polled copies |

Objects that the source updates in place are classes whose methods are proved against functions of
the old state; the properties are lemmas about those functions.  Concurrent parts (delivery, the
agent's senders, overlapping PUTs) are state machines: `Enabled` and `Apply` give one step, `Run`
a whole run, and `EveryRun` carries the invariants.  The uninterrupted method and the steps of the
machine are tied together by `Delivery.HandlerIsSteps` and `AgentSoloSend.SoloSend`.

Clocks, random IDs, sensor readings, decoding results and the outcome of every remote call are
parameters or nondeterministic steps.  Table rows remember the stream position of the message that
led to them; that position, the `Track` record of a message and the event history of the agent
exist only to state the properties.

## What the proofs found

- Rendering a trace ends exactly if no chain of nested calls comes back to a span
  (`TraceForest.RenderingEndsIff`).  Distinct span IDs, which the unique index guarantees, are enough
  for that (`TraceForest.NestingBounded`); with a repeated ID the recursion can nest without end
  (`TraceForest.RepeatedIdNestsForever`).
- The span count announced above a trace equals the number of spans shown exactly if no parent chain
  enters a cycle (`TraceForest.AnnouncedCountIsRight`); a span that names itself as its parent is
  announced and not shown (`TraceForest.SelfLinkedSpanHidden`).
- A metric or log is stored exactly once if no acknowledgement is lost and the message is never
  delivered while a worker is still on it (`Delivery.OneRowIfOneAtATime`).  The second condition is
  needed: the consumer sets no limit on it, and with the two replicas of
  `deployments/k8s/aggregator.yaml` a slow handler's message can be stored twice although every
  acknowledgement arrives (`Delivery.TwoRowsWithoutLoss`).
- A span whose insert succeeded but whose acknowledgement was lost is refused by the unique index on
  each redelivery, and the message is negatively acknowledged for as long as the row stays: so it goes
  in every run with a lost acknowledgement (`Delivery.LossIffStuck`, `Delivery.LostAckNeverHeals`).  When a stored span can still be acknowledged
  is settled exactly, with the row staying (`Delivery.AckableIffHeld`) and with a cleanup in between
  (`Delivery.StuckUntilCleanup`).
- A success that read the failure counter before the third failure can reset it after the error was
  logged; the error then has no recovery line (`AgentInterleaving.RecoveryCanBeLost`).  The exact
  condition is `AgentInterleaving.RecoveryIffLateRead`.  With one sender at a time the intended
  behaviour holds (`AgentAlerts.SingleSenderLog`).
- The failure counter is a 32-bit word.  A streak logs its two warnings and one error and nothing more
  exactly below 2^31 failures (`AgentAlerts.WarningsStopUntilWrap`).
- The stream handler's comment promises new batches every three seconds, but rows can be missed for
  good: exactly those that no successful query finds, stored and within its window, before the limit of
  1000 rows (`SseWindows.MissedForGood`, `SseWindows.AlwaysSentIff`).  It happens to rows stored late
  and to rows stamped between the end of the snapshot query and the first `since`, with every query
  succeeding (`SseWindows.LateRowNeverSent`, `SseWindows.GapRowNeverSent`).
- The store's comment calls thresholds persisted, but its copy and the settings row can differ: exactly
  if the last save that took effect carried another triple than the one last put or loaded at the
  replica (`Thresholds.AgreeIffLastWritesEqual`).  Overlapping PUTs at one replica and failed saves
  bring that about, and so does every PUT of another triple at the other of the two API replicas of
  `deployments/k8s/api.yaml` (`Thresholds.StaleReplica`).
- Opening a metric stream clears the charts but not the received rate that waits for its sent rate, so
  a rate of the server viewed before can enter the network chart.  It shows exactly while a sent rate
  was charted before the first received rate and fewer than sixty points have followed
  (`Charts.OldRateLeaksIff`).

## Model

| member | source | states |
|---|---|---|
| TraceForest.TraceView.Index | cmd/api/static/index.html:992-993 | one childless node per span ID, a later row replacing an earlier one |
| TraceForest.LaterReplaces | cmd/api/static/index.html:993 | of rows with one span ID the last one counts |
| TraceForest.TraceView.Link | cmd/api/static/index.html:994-1001 | each span joins the children of its parent, in list order, or the roots |
| TraceForest.TraceView.Load | cmd/api/static/index.html:991-1001 | both loops together build the forest of the list |
| TraceForest.TraceView.Show | cmd/api/static/index.html:991-1039 | for a list without repeated span IDs, the listing the lemmas below speak of; in it the children of one parent, and the spans without a listed parent, stand in list order |
| TraceForest.BuildConsistent | cmd/api/static/index.html:991-1001 | child lists and roots are exactly the inverse of the parent links, without repetitions |
| TraceForest.ListOrder | cmd/api/static/index.html:995-1001 | the children of one parent are linked in list order, and so are the roots |
| TraceForest.RootOrCycle | cmd/api/static/index.html:995-1001 | a parent chain ends at a root exactly if it visits no span twice |
| TraceForest.PathBound | cmd/api/static/index.html:1036 | no path of nested calls is longer than the number of nodes, so rendering terminates |
| TraceForest.NestingBounded | cmd/api/static/index.html:1020-1039 | with distinct IDs nested calls never go deeper than the number of spans |
| TraceForest.RenderingEndsIff | cmd/api/static/index.html:1020-1039 | for any list, repeated IDs included, rendering ends exactly if no chain of nested calls comes back to a node |
| TraceForest.RepeatedIdNestsForever | cmd/api/static/index.html:1020-1039 | a list with a repeated ID for which calls nest arbitrarily deep |
| TraceForest.ListingCounts | cmd/api/static/index.html:1020-1039 | a span is shown at depth k once if k parent links lead to a root, and otherwise not at depth k |
| TraceForest.ShownOnceOrNever | cmd/api/static/index.html:1020-1039 | a span is shown exactly once if its chain ends, at the length of the chain, and never if the chain enters a cycle |
| TraceForest.ShownSpansDistinct | cmd/api/static/index.html:1039 | no two rows of a listing show the same span |
| TraceForest.AnnouncedCountIsRight | cmd/api/static/index.html:1043 | the listing has as many rows as announced exactly if no chain enters a cycle, and never more |
| TraceForest.SelfLinkedSpanHidden | cmd/api/static/index.html:995-997 | a single span that names itself as its parent is in the list and not in the listing |
| TraceForest.SpanShape | cmd/api/static/index.html:1020-1038 | a span's block starts with the span, shows its children one level deeper in list order, and nests everything under its parent |
| TraceForest.ShownInListOrder | cmd/api/static/index.html:997-1036 | from the list alone: of two spans with the same listed parent, or without one, the earlier is shown before the later |
| TraceForest.ListingShape | cmd/api/static/index.html:1039 | the top rows are the roots in order, deeper rows are nested under their parents, and all rows show spans of the list |
| TraceForest.IndentationGivesParents | cmd/api/static/index.html:1022 | each indented row has exactly one enclosing row, the one of its parent span; a row is at the top exactly if its span names no parent or one that is not listed |
| Storage.InsertCounts | internal/storage/repository.go:121-129 | an insert adds one row of its message exactly if it took effect, and no row of another message |
| Storage.InsertKeepsWellFormed | migrations/000001_init.up.sql:48 | no insert ever makes two rows with one span ID |
| Storage.KeepMeaning | migrations/000002_retention.up.sql:14-21 | the rows kept are exactly those not older than the cutoff, and no message gains rows |
| Storage.KeepKeepsWellFormed | migrations/000002_retention.up.sql:14-21 | retention keeps tables well formed |
| Delivery.Aggregator.InsertMetric | internal/storage/repository.go:121-129 | the row is appended if the statement took effect; an error is returned unless that was confirmed |
| Delivery.Aggregator.InsertLog | internal/storage/repository.go:160-168 | the same for log entries |
| Delivery.Aggregator.InsertSpan | internal/storage/repository.go:205-215 | the same for spans, refused when the span ID is already in the table |
| Delivery.Aggregator.ConsumeMetric | cmd/aggregator/consumer.go:82-119 | the message's point is stored and acked like a log; after a confirmed insert of a traced metric a span of the aggregator is added, with the trace and the parent that the message names |
| Delivery.Aggregator.ConsumeLog | cmd/aggregator/consumer.go:125-144 | the message's entry is stored as it is unless the insert fails, and acked exactly if that was confirmed |
| Delivery.Aggregator.ConsumeSpan | cmd/aggregator/consumer.go:150-172 | the message's span is stored as it is unless its ID is taken or the insert fails, and acked exactly if that was confirmed |
| Delivery.HandlerIsSteps | internal/nats/jetstream.go:84-90 | uninterrupted, the worker's steps have the effect and the decision of one handler call |
| Delivery.EveryRun | internal/nats/jetstream.go:72-98 | in every run workers are on published messages, rows go back to messages, and the books of each message balance |
| Delivery.AckedIsStored | internal/nats/jetstream.go:84-90 | an acknowledged message does not decode or has a row that is there or was deleted by retention |
| Delivery.RowsAccountedFor | cmd/aggregator/consumer.go:81-147 | in every run, rows there and deleted equal the inserts that took effect, each of which ended in an arrived ack, in a lost one, or is in a worker's hands |
| Delivery.OneRowIfOneAtATime | internal/nats/jetstream.go:84-90 | if a message is never delivered while a worker is on it, then once acked it has one row, there or deleted, more than it lost acks: exactly one if none was lost |
| Delivery.TwoRowsWithoutLoss | internal/nats/jetstream.go:73-79 | a run of two workers that have the same metric at once, in which no ack is lost and two rows are stored |
| Delivery.UndecodableNeverStored | cmd/aggregator/consumer.go:84-87 | a message that does not decode never leads to a row |
| Delivery.EveryRowTraces | cmd/aggregator/consumer.go:89-95 | every stored row goes back to a published message and holds what it says |
| Delivery.RowContents | cmd/aggregator/consumer.go:89-116 | in every run, field by field: a metric, log or span row is the content of its message, and an aggregator span has the trace and the parent its metric message names, service "aggregator" and status "ok" |
| Delivery.ExtrasBounded | cmd/aggregator/consumer.go:102-117 | aggregator spans never outnumber the stored metric rows of their message, and only traced messages have any |
| Delivery.SpanStoredOnce | migrations/000001_init.up.sql:48 | no run stores two rows with one span ID, and a span message has at most one row |
| Delivery.LossIffStuck | internal/nats/jetstream.go:84-90 | in every run, a span message whose row was not deleted has lost an ack exactly if its row is there and the message stays behind |
| Delivery.StuckHasLoss | internal/nats/jetstream.go:84-90 | a span message that stays behind has lost an acknowledgement exactly if a row was stored for it |
| Delivery.StuckStep | cmd/aggregator/consumer.go:155-170 | each redelivery of such a message is nacked and changes no table, and no step frees it while the row remains |
| Delivery.StuckForever | cmd/aggregator/consumer.go:149-175 | along every continuation in which the row remains, the message is never acknowledged |
| Delivery.LostAckNeverHeals | cmd/aggregator/consumer.go:149-175 | in every run with a lost ack, no continuation in which the row stays acknowledges the span |
| Delivery.StuckIsReachable | internal/nats/jetstream.go:84-90 | a run of one worker in which a span is stored, its ack is lost, and the message stays behind |
| Delivery.AckableIffHeld | internal/nats/jetstream.go:84-90 | while the row stays, some continuation acks a stored span message exactly if a worker that stored it is about to |
| Delivery.StuckUntilCleanup | cmd/aggregator/consumer.go:149-175 | without that restriction, a message that stays behind can be acked exactly if a worker has it or it can still be delivered: a cleanup may delete the row |
| Collector.GrpcServer.Publish | internal/nats/jetstream.go:61-68 | the message is appended if publishing took effect; an error is returned unless that was confirmed |
| Collector.GrpcServer.SendMetrics | cmd/collector/grpc_server.go:29-79 | appends the metrics in order, field by field, up to the first failure; then, if the metadata name a trace and the batch is not empty, one collector span, whose ID every message of the batch carries |
| Collector.GrpcServer.SendLogs | cmd/collector/grpc_server.go:105-121 | appends the entries in order, field by field, all of them or up to the first failing one |
| Collector.GrpcServer.SendSpans | cmd/collector/grpc_server.go:123-142 | appends the spans in order, field by field, all of them or up to the first failing one |
| Pipeline.BatchMessagesAllowed | cmd/collector/grpc_server.go:41-76 | whatever the collector's call appends for a traced batch is one of the pipeline's publish steps for that batch |
| Pipeline.EveryRun | cmd/collector/grpc_server.go:34-76 | in every run each span is a heartbeat, a collector span of its batch or an aggregator span under its batch's span ID, and IDs serve one purpose only |
| Pipeline.MessageSource | cmd/collector/grpc_server.go:41-76 | every message of the stream was published by a step of the run |
| Pipeline.HeartbeatsAsSent | cmd/agent/collector.go:113-126 | in every run a stored heartbeat is one that an agent sent, with its session, status and the sixty seconds it covers |
| Pipeline.AnswerMeaning | internal/storage/repository.go:218-243 | the spans returned for a trace have distinct IDs and are spans of the pipeline |
| Pipeline.LinkTarget | cmd/agent/collector.go:302 | the ID drawn for an agent call is the ID of no span, and the ID drawn for a batch only that of a collector span |
| Pipeline.SpanDepth | cmd/aggregator/consumer.go:103-106 | one parent link leads from an aggregator span to a root if its batch's collector span is listed; every other span is a root |
| Pipeline.StoredIffListed | internal/storage/repository.go:218-225 | the collector span of an aggregator span's batch is in the table exactly if the query for the trace returns it |
| Pipeline.IndentedUnderBatchSpan | cmd/aggregator/consumer.go:103-106 | an indented line of a session is an aggregator span and stands under the line of its batch's collector span |
| Pipeline.SessionForest | cmd/api/static/index.html:991-1039 | in every run the view of a session shows every stored span exactly once: heartbeats and collector spans at the top, aggregator spans one level deep exactly if the table holds their batch's collector span, and then under its line |
| AgentAlerts.Raise | cmd/agent/collector.go:50-59 | raising takes the maximum of the severities |
| AgentAlerts.WordWraps | cmd/agent/collector.go:31 | the counter after n increments is n as a 32-bit word in two's complement |
| AgentAlerts.SystemCollector.RaiseStatus | cmd/agent/collector.go:50-59 | the status rises to the more severe level |
| AgentAlerts.SystemCollector.PopStatus | cmd/agent/collector.go:62-68 | returns the status and resets it |
| AgentAlerts.SystemCollector.SendLog | cmd/agent/collector.go:327-330 | logs the line, and raises the status for warnings and errors |
| AgentAlerts.SystemCollector.Send | cmd/agent/collector.go:301-325 | counter, status and logged lines after one send, in each of its cases |
| AgentAlerts.SystemCollector.SendMany | cmd/agent/collector.go:301-325 | the log of a sequence of sends is its log trace |
| AgentAlerts.StreakTrace | cmd/agent/collector.go:303-317 | n failures from a reset counter log min(n, 2) warnings and one error from three on |
| AgentAlerts.LongStreakWarnsAgain | cmd/agent/collector.go:303-312 | from 2^31 failures on the log of a streak has a fourth line, a warning with the wrapped count |
| AgentAlerts.SingleSenderLog | cmd/agent/collector.go:301-325 | with one sender the log is the lines of the streaks, with one recovery line carrying n after each closed streak of n of at least three, exactly if every streak stays below 2^31 failures |
| AgentAlerts.OneStreak | cmd/agent/collector.go:303-321 | for instance, three or more failures and a success log two warnings, one error and one recovery line, with their counts |
| AgentAlerts.OutcomesAreStreaks | cmd/agent/collector.go:301-325 | every sequence of outcomes is a sequence of streaks, so nothing is left out |
| AgentAlerts.WarningsStopUntilWrap | cmd/agent/collector.go:303-312 | the log of a streak from a reset counter is its two warnings and one error exactly below 2^31 failures |
| AgentInterleaving.WordsStep | cmd/agent/collector.go:301-325 | every step keeps counter and status equal to what the history says |
| AgentInterleaving.LogsUniqueStep | cmd/agent/collector.go:303-317 | every step keeps each numbered failure with at most one log line or pending sender |
| AgentInterleaving.RecoveriesStep | cmd/agent/collector.go:318-324 | every step keeps the recovery lines of a sender in strictly increasing epochs |
| AgentInterleaving.EveryRun | cmd/agent/collector.go:72-81 | every interleaving satisfies all these invariants |
| AgentInterleaving.FailuresCountUp | cmd/agent/collector.go:303 | failures between two resets see 1, 2, 3, ... as 32-bit words |
| AgentInterleaving.FailureLineMeaning | cmd/agent/collector.go:305-312 | in an epoch of fewer than 2^31 failures a warning belongs to failure one or two and an error to failure three |
| AgentInterleaving.OneErrorPerEpoch | cmd/agent/collector.go:307-309 | such an epoch logs at most one error |
| AgentInterleaving.TwoWarningsPerEpoch | cmd/agent/collector.go:305-306 | such an epoch logs at most two warnings |
| AgentInterleaving.RecoveryNeedsThirdFailure | cmd/agent/collector.go:318-321 | a recovery line implies a failure that saw three in the epoch of its read, before the read |
| AgentInterleaving.RecoveriesPerEpoch | cmd/agent/collector.go:318-321 | two recovery lines of one epoch come from different senders |
| AgentInterleaving.FourRecoveriesPerEpoch | cmd/agent/collector.go:318-321 | each epoch has at most four recovery lines |
| AgentInterleaving.RecoveryIffLateRead | cmd/agent/collector.go:318-324 | at rest, an epoch has a recovery line exactly if some success read the counter after its third failure |
| AgentInterleaving.RecoveryCanBeLost | cmd/agent/collector.go:318-324 | a run in which an error is followed by a success and never by a recovery line |
| AgentSoloSend.SoloSend | cmd/agent/collector.go:301-325 | an uninterrupted send of the machine has the counter, the status and the lines of the sequential one |
| AgentHeartbeats.HeartbeatIsWorst | cmd/agent/collector.go:106-120 | a heartbeat carries the worst level logged since the previous one, and is ok exactly if no warning or error was |
| AgentHeartbeats.CountedOnce | cmd/agent/collector.go:62-68 | in every run, as soon as a heartbeat follows a log entry, exactly one heartbeat accounts for it, and that one is at least as severe |
| Latches.UsageMonitor.StreamUsage | cmd/agent/collector.go:138-158 | the warnings of a polling loop are those of one latch over the readings that did not fail |
| Latches.UsageMonitor.StreamDisk | cmd/agent/collector.go:194-237 | the warnings of the disk loop are those of the map of latches |
| Latches.UsageMonitor.ObservePartitions | cmd/agent/collector.go:207-232 | one poll's partitions, one after the other |
| Latches.LatchMeaning | cmd/agent/collector.go:151-157 | the latch is set exactly if some warning was not followed by a reading below the threshold |
| Latches.WarningsMeaning | cmd/agent/collector.go:151-154 | a reading is warned about exactly if it reaches its first threshold with the latch open, and the warnings carry those usage values in order |
| Latches.WarningsSeparated | cmd/agent/collector.go:182-188 | two warnings are separated by a reading found strictly below its threshold, however thresholds change |
| Latches.WarningsAreCrossings | cmd/agent/collector.go:151-157 | with a fixed threshold the warnings are exactly the upward crossings |
| Latches.MountsIndependent | cmd/agent/collector.go:221-231 | each mount has the latch and the warnings of a single latch fed its own readings |
| Latches.JoinedMeaning | cmd/agent/collector.go:207 | the partitions of the polls are read list by list, in order, and none is left out |
| NetRates.NetSnapshot | cmd/agent/collector.go:283-295 | a snapshot holds the interfaces except the loopback, or nothing on an error |
| NetRates.NoLoopback | cmd/agent/collector.go:288-292 | the loopback is never in a snapshot, every other interface is, with its last counters |
| Telemetry.SomesMeaning | cmd/agent/collector.go:251-254 | of a sequence of polls exactly those that did not fail count, in order |
| NetRates.RatesOf | cmd/agent/collector.go:269-274 | the totals are the current counters; each rate times the seconds elapsed is the increment of its own counter |
| NetRates.NetMonitor.ComputeRates | cmd/agent/collector.go:263-275 | rates for exactly the interfaces in both snapshots |
| NetRates.NetMonitor.SendRates | cmd/agent/collector.go:255-278 | one batch, unless no time has passed or no interface is shared |
| NetRates.NetMonitor.Advance | cmd/agent/collector.go:251-279 | one more successful snapshot adds the batch for it and the previous one |
| NetRates.NetMonitor.StreamNetwork | cmd/agent/collector.go:241-281 | the batches are those of the successive successful snapshots |
| NetRates.NothingLost | cmd/agent/collector.go:255-279 | for an interface that stays, rate times elapsed over all batches plus the skipped increments are all increments |
| NetRates.IncrementsTelescope | cmd/agent/collector.go:272-273 | all increments add up to last minus first counter modulo 2^64 |
| NetRates.IncrementExactIff | cmd/agent/collector.go:272-273 | an increment is the true difference exactly if that is from 0 to 2^64 - 1 |
| NetRates.RatesAddUp | cmd/agent/collector.go:241-281 | rates and skipped increments together are the true bytes moved between first and last successful snapshot, wrapped or not |
| Queries.SelectMeaning | internal/storage/repository.go:136 | the rows selected are exactly those of the service within the range |
| Queries.AnswerShape | internal/storage/repository.go:133-138 | an answer holds points of the service in the time range, newest first, at most 1000 of them, and all if there are fewer |
| Queries.AnswerComplete | internal/storage/repository.go:133-138 | a matching row is in every answer if fewer than 1000 other matching rows are as new, however many the window holds |
| Queries.AlwaysAnsweredIff | internal/storage/repository.go:133-138 | that condition is exact: otherwise some admissible answer leaves the row out |
| Queries.SometimesAnsweredIff | internal/storage/repository.go:133-138 | a matching row is in some answer exactly if fewer than 1000 matching rows are strictly newer |
| Queries.MetricsAnswerExists | internal/storage/repository.go:133-138 | every table has an admissible answer to every metrics query |
| Queries.LastSeenFromLatest | internal/storage/repository.go:96 | the maximum over one row per metric is the maximum over all rows of the service, both ways |
| Queries.StatFromLatest | internal/storage/repository.go:98-100 | a statistic is the value of a newest row of its metric, or zero without one |
| Queries.HostFromLatest | internal/storage/repository.go:97 | the host is the largest host label of newest rows, one per metric, or empty if none has one |
| Queries.QueryRefinesSimple | internal/storage/repository.go:86-118 | each answer of the two-stage query meets the simple specification: one entry per service, the one seen last first, time over all rows, values and host of newest rows |
| Queries.ServicesAnswerIff | internal/storage/repository.go:86-118 | the two-stage query gives exactly the lists with one entry per service, seen last first, whose time is over all rows and whose statistics and host are those of one newest row per metric |
| Queries.ServicesAnswerExists | internal/storage/repository.go:86-118 | every table has an answer |
| Retention.Database.CleanupOldTelemetry | migrations/000002_retention.up.sql:9-23 | metrics and logs stay exactly if their timestamp, spans if their start time, is not before now minus the days; each count is the number of rows deleted |
| Retention.KeepAndOld | migrations/000002_retention.up.sql:14-21 | deleted and remaining rows together are the rows before |
| Retention.CleanupTwice | migrations/000002_retention.up.sql:14-21 | two cleanups amount to one at the later cutoff, and a repeat at the same cutoff deletes nothing |
| Retention.PointsOfKeep | migrations/000002_retention.up.sql:14 | cleaning the table and reading its points commute |
| Retention.AnswersUnchangedIff | internal/storage/repository.go:133-138 | a metrics query has the same admissible answers before and after exactly if no matching row is older than the cutoff or at least 1000 kept rows match |
| Retention.LateWindowsUnaffected | internal/storage/repository.go:133-138 | windows that start at or after the cutoff have the same admissible answers |
| Retention.ServicesAfterCleanup | internal/storage/repository.go:86-103 | a service goes away exactly if it was last seen before the cutoff, otherwise its last time is unchanged, and none appears |
| Retention.StatsAfterCleanup | internal/storage/repository.go:98-100 | a statistic keeps its admissible values if its newest row stays, and otherwise can only be zero |
| Retention.FirstStageCommutes | internal/storage/repository.go:88-93 | the first stages of the services query after a cleanup are exactly those before it without their old rows |
| Retention.ServicesCommute | internal/storage/repository.go:86-118 | the answers after a cleanup, with times, statistics and hosts, are exactly the summaries of what it leaves of a first stage before it |
| SseWindows.Stream.PushMetrics | cmd/api/sse.go:91-107 | one query over its range, then an event, a keep-alive, or nothing on an error |
| SseWindows.Stream.Tick | cmd/api/sse.go:47-50 | one tick asks the next window, writes its result and moves since on |
| SseWindows.Stream.StreamMetrics | cmd/api/sse.go:36-52 | the time ranges asked, clock reading by clock reading, and the events written up to any tick |
| SseWindows.EventNames | cmd/api/sse.go:37-49 | every event with rows holds what one query returned, named "snapshot" for the first query and "update" for the others; only the first such event can be a snapshot |
| SseWindows.EventWritten | cmd/api/sse.go:97-106 | every query that returned rows has such an event |
| SseWindows.UpdatesCover | cmd/api/sse.go:38-50 | every instant from the first since to the last query end is in an update window |
| SseWindows.ExactCoverage | cmd/api/sse.go:36-51 | an instant is covered exactly if it is in the whole range and not between snapshot end and first since |
| SseWindows.NeighboursShare | cmd/api/sse.go:48-50 | neighbouring updates share exactly the instants from a tick's reading to its query's end |
| SseWindows.DistantShare | cmd/api/sse.go:48-50 | updates further apart share an instant exactly if the clock stood still between them |
| SseWindows.AtMostTwice | cmd/api/sse.go:47-50 | if the clock advances between push and tick, no instant is in three updates |
| SseWindows.EveryRowDelivered | cmd/api/sse.go:91-107 | each row from the first since on is sent if the last query that covers it succeeds, finds it stored and is not crowded by newer rows |
| SseWindows.AlwaysSentIff | cmd/api/sse.go:91-107 | whatever rows the queries choose among ties, a row is sent up to a tick exactly if some successful query finds it, stored and within its window, with fewer than 1000 others as new |
| SseWindows.DeliveredIffWritten | cmd/api/sse.go:91-107 | a row is in some event of the stream exactly if some query returned it |
| SseWindows.DeliveredIsCovered | cmd/api/sse.go:92 | only stored rows of the service inside the window are delivered |
| SseWindows.MissedForGood | cmd/api/sse.go:36-51 | whatever rows the queries choose, a row is never sent exactly if no successful query, ever, finds it with fewer than 1000 strictly newer rows |
| SseWindows.OneChance | cmd/api/sse.go:36-51 | a row stamped in the gap, or strictly between neighbouring windows with its one query failed or too early, is never delivered |
| SseWindows.LateRowNeverSent | cmd/api/sse.go:47-50 | a clock and tables for which a row stored after the first tick's query is never sent though every query succeeds |
| SseWindows.GapRowNeverSent | cmd/api/sse.go:36-38 | the same for a row in the gap behind the snapshot, stored before the first tick |
| Charts.Chart.PushPt | cmd/api/static/index.html:672-680 | one push: append to labels and datasets, then drop the oldest of each if over sixty |
| Charts.Chart.ShiftAll | cmd/api/static/index.html:677 | every dataset loses its first value |
| Charts.ToFixed2 | cmd/api/static/index.html:674 | a charted value is within half a hundredth of the row's value, halves away from zero |
| Charts.PushShows | cmd/api/static/index.html:672-680 | a chart that shows the last points shows the last points with the new one, at most sixty |
| Charts.Dashboard.AddToCharts | cmd/api/static/index.html:866-878 | a CPU, memory or disk row adds a point with its time and value to its own chart; a sent rate adds one with the waiting received rate, received first, both in KiB; nothing else changes |
| Charts.Dashboard.ProcessRows | cmd/api/static/index.html:833-847 | exactly the charted rows of the event are added |
| Charts.Dashboard.OpenMetricStream | cmd/api/static/index.html:799-805 | all charts are blank, the waiting received rate stays |
| Charts.PickFirst | cmd/api/static/index.html:838-842 | the first row of each metric and second |
| Charts.PickLatest | cmd/api/static/index.html:844-846 | the last row of each metric, in the order in which the metrics were met |
| Charts.SortRowsMeaning | cmd/api/static/index.html:835 | sorting orders by time, keeps all rows, and keeps the order within a millisecond |
| Charts.ChartsShowLast | cmd/api/static/index.html:672-680 | from blank charts on, each chart shows the last sixty of the points added |
| Charts.PointsStep | cmd/api/static/index.html:869-871 | row by row, what is charted for CPU, memory or disk: time and value of the rows of that metric |
| Charts.NetPointsStep | cmd/api/static/index.html:872-876 | row by row, a sent rate is charted with the last received rate before it, at that one's time, received first |
| Charts.OtherNetPoints | cmd/api/static/index.html:872-876 | no other row adds a point there, except a sent rate before all received ones when a rate was waiting |
| Charts.AfterAnyEvents | cmd/api/static/index.html:801-847 | after any events since opening, labels and datasets have equal length of at most sixty and show the last points |
| Charts.UpdateChartsNewest | cmd/api/static/index.html:843-846 | an update charts one newest row for exactly the metrics in the batch |
| Charts.UpdateAddsOnePoint | cmd/api/static/index.html:843-846 | an update adds one point to the chart of a metric in the batch and none to others |
| Charts.UpdateOrder | cmd/api/static/index.html:844-846 | each charted row of an update is the last of its metric in order of time, and they come in the order in which the metrics first occur |
| Charts.SnapshotChartsEarliest | cmd/api/static/index.html:838-842 | a snapshot charts, in order of time, exactly one row of the batch per metric and second, an earliest one |
| Charts.OldRateLeaksIff | cmd/api/static/index.html:872-876 | after any events since opening, the network chart differs for an old received rate exactly if a sent rate was charted before the first received rate and fewer than sixty points were added since |
| Charts.OldRateLeaks | cmd/api/static/index.html:872-876 | a single update with a sent rate alone shows a point stamped with the old rate's time, and none without an old rate |
| Thresholds.SettingsTable.Save | internal/storage/repository.go:25-38 | the row holds the new triple if the statement took effect |
| Thresholds.SettingsTable.constructor | migrations/000003_settings.up.sql:7-9 | the row starts as the default triple |
| Thresholds.ThresholdStore.constructor | cmd/api/thresholds.go:29-43 | the store starts with the row if that is readable and positive, otherwise with the default |
| Thresholds.ThresholdStore.HandleSet | cmd/api/thresholds.go:55-77 | store, row and response after one PUT, accepted exactly within 1 to 100 |
| Thresholds.AgentThresholds.Fetch | cmd/agent/config_poller.go:35-61 | the agent takes a positive answer whole, otherwise nothing changes |
| Thresholds.KnownStep | cmd/api/thresholds.go:68-70 | every step keeps all triples within range and known |
| Thresholds.EveryTripleKnown | cmd/api/thresholds.go:29-77 | over all PUTs, failed saves, restarts and polls, every triple is the default or one whole accepted PUT, within range |
| Thresholds.StoreAndRowAgree | cmd/api/thresholds.go:68-76 | with any number of replicas and no overlap at one replica, its store and the row agree from its last effective save, or its last restart that read the row, until the next write of either |
| Thresholds.AgreeAfterWrite | cmd/api/thresholds.go:68-76 | in particular they agree right after each save that took effect and each restart that could read the row |
| Thresholds.RowIsLastSaved | internal/storage/repository.go:25-38 | in every run the row is the triple of the last save that took effect, or the default |
| Thresholds.StoreIsLastStored | cmd/api/thresholds.go:29-43 | in every run a store is the last PUT accepted there or what its last restart loaded, whichever came later |
| Thresholds.AgreeIffLastWritesEqual | cmd/api/thresholds.go:68-76 | in every run, with any overlap and any outcomes, store and row agree exactly if those two triples are equal |
| Thresholds.OtherReplicasStale | cmd/api/thresholds.go:68-70 | a store stays as it is along every continuation without a PUT at its replica and without its restart |
| Thresholds.StaleReplica | cmd/api/thresholds.go:68-76 | two replicas and one saved PUT: the other store differs from the row and stays so along all such continuations |

## Left out

- NetRates.NetMonitor.StreamNetwork: a batch is a map from interface to rates, because the source ranges over a map and leaves the order of its points open.
- SseWindows.Stream.StreamMetrics: a stream that the client closes is a run up to some tick.
- Delivery.EveryRun: publishing, delivery and expiry are free steps; scheduling by MaxAckPending, ack timeouts and the 24-hour age are not modelled, and no claim of progress is made.
- QueryLogs and the log view: the same filter, order and limit as the metrics query.
- The collation that orders host labels is a property of the database; it is a parameter of the services query, and an answer is shown to exist for every total order.
- The HTTP handlers of the collector, the rate limiter, authentication, health endpoints and query-parameter defaults.
- The agent's Telegram alerts, host name lookup and the exact text of log messages.
- Prometheus metrics and local logging of the services.
- Attributes of spans; labels and fields are carried along unread except for the host label.
- The KPI tiles, status badges, time formatting and all HTML; a chart label is the instant itself.
- JavaScript object keys: `byId` and the latest rows are plain maps, so prototype names and integer-like metric names that change the iteration order are not modelled.
- Nodes of the forest are named by span ID instead of being shared object references.
- Floating point: values and rates are reals, so rounding, NaN and infinities do not occur; byte counters are exact 64-bit words.
- Random ID generation: a newly drawn ID is assumed to be unused and not empty.
- Concurrent statements inside the database: an insert and the whole cleanup are each one step, and a day of retention has 24 hours.
- Transport by gRPC, NATS and PostgreSQL: a call is confirmed, refused, or done but unconfirmed; a payload that does not decode is a message without content.

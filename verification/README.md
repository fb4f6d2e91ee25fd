# Verified models of EveryUp

Dafny models of the parts of EveryUp whose correctness is hard to see from one
function: what the agent may lose or repeat across crashes, when alerts fire, what
the charts and quantiles of the web backend mean, and how traces are attributed.
`dafny verify dfyconfig.toml` checks everything.

## The components

**Delivery of container logs.** `LogCursors` says what a cursor of a timestamp and
a count denotes: a prefix of a log sorted by time. `BatchSplitter` is the plan of
requests made by halving a batch that is too large. `ScanState` is the invariant of
one scan, and `Collector` the agent: a class whose methods read, filter, batch,
split, send, persist and restart, with the network and the disk choosing their
outcomes and a ghost record of what Web accepted. `Agent.Valid` says that nothing is lost,
`Agent.Exact` that nothing is sent twice as long as every acceptance was followed by its
save and the first tail began on a fresh timestamp. `Interleaving` is the step
system of the three goroutines that share one snapshot and its save lock.

**Delivery of audit events.** `AuditFile` appends to, scans and reads the file;
`AuditDelivery` ships it by byte offset.

**Reading Docker's stream.** `DockerStream` gives a stream of frames a meaning and
proves two decoders against it; `DockerLines` is the assembly of lines on top, and
`DockerLog` joins them to the records the collector is handed.

**Alerts.** `Alerts` is the evaluator as one step for one key and as a class over
three maps and a table of saved rows, with a simulation that makes a restart
unobservable and theorems over whole sample sequences.

**Aggregation.** `Quantiles`, `Histograms` and `Percentiles` are the arithmetic;
`Grouping` the three ways of grouping rows into buckets, used by `HistoryCharts`,
`LogVolume` and `RequestStats`; `Incidents` the derivation of incidents from health
samples. float64 is `real` and uint64 is `nat`.

**Attribution.** `Attribution` resolves and forces service names; `TraceEnrichment`
is the filter that writes over the array it reads.

## Premises

- A container log is append-only and its timestamps do not decrease.
- Docker returns every record at or after the queried second, in order, and a
  reading may stop with an error at any record.
- `Store.Save` replaces the whole file or leaves it unchanged.
- The encoder turns a nonempty part into a nonempty request: service names and
  bodies are not blank.
- A crash is a failing step followed by a restart from the file.
- The audit file only grows, and an encoded event contains no newline.
- Saves of alert states complete in the order of their samples.
- The objects of a decoded trace payload are distinct.

## What was found

- A log line whose message is blank reaches the collector without its timestamp
  (`DockerLines.TimeNeedsMessage`). It fails the pass, and when it lies within the
  next hundred records nothing is ever sent again, whatever the container writes
  (`Collector.Agent.PassesAgain`); `Collector.Agent.Drain` gives the exact condition.
- A response cut within its first three bytes is taken for a terminal's and visited
  as a line without a timestamp (`DockerLog.HeaderVisited`), which fails the pass as an
  error would; every other cut yields a prefix of the log (`DockerLog.StreamIsPrefix`).
- When the first tail begins inside a run of equal timestamps its count starts too
  low. If the pass ends in that run, the next one begins as many records into the run
  as were sent (`Collector.Agent.FirstTwoPasses`): it repeats records
  (`LogCursors.TailInsideRun`), and may send some that are older than the tail
  (`LogCursors.TailEndsRun`).
- A first boundary that another goroutine saves and the collector then rolls back
  can be abandoned (`Interleaving.FirstBoundaryCanBeAbandoned`, and
  `Interleaving.BoundaryFinalIff` for exactly which boundaries cannot).
- A negative first histogram bound puts quantiles out of order
  (`Quantiles.QuantilesOrderedIff`).
- Map keys compare the location of a time and `Equal` does not, so the two bucket
  groupings agree only under a condition (`Grouping.GroupingsAgreeIff`, with
  `Grouping.LocationsSplitABucket` for two rows), and so does the newest-first one
  (`Grouping.NewestFirstAgreesIff`).
- `web/backend/internal/models/alert_rule.go:68` calls the duration one of
  consecutive breach; behind a cooldown the code counts breaches that are not
  (`Alerts.LaterAlertWithoutRow`). Every alert has its full row exactly for rules that
  ask for one breached sample or cool down no longer than samples are apart
  (`Alerts.AlertsInRowIff`).
- A reset inside the window makes a cumulative series count too little, whether a
  bucket shows it or not (`Histograms.HiddenResetUndercounts`);
  `Histograms.CumulativeExporterContributes` has the exact condition.

## Model

| member | source | states |
|---|---|---|
| `LogCursors.SafeGrows` | agent/internal/agent/dockerlogs.go:84-110 | A cursor that covers only accepted records still does after the log and the acceptances grow. |
| `LogCursors.PrefixStable` | agent/internal/state/store.go:32-37 | A cursor at a stamp the log has reached denotes the same prefix after the log grows. |
| `LogCursors.CursorAfterPrefix` | agent/internal/agent/dockerlogs.go:104-109 | The cursor the scan computes for record k-1 denotes exactly the first k records if and only if counting began at or before the run of equal stamps it ends in; otherwise it denotes fewer. |
| `LogCursors.ResumesAt` | agent/internal/agent/dockerlogs.go:84-110 | A scan from that cursor resumes behind record k-1, or, when counting began inside the run of equal stamps, as many records into the run as were counted. |
| `LogCursors.TailInsideRun` | agent/internal/agent/dockerlogs.go:93-109 | Three records with one stamp and a tail that begins at the second: the next pass begins at the third, which is thus sent twice. |
| `LogCursors.TailEndsRun` | agent/internal/agent/dockerlogs.go:93-109 | Eleven records with one stamp and a tail of the last: the next pass sends nine records older than the tail, and the last one again. |
| `LogCursors.CursorAfterSafe` | agent/internal/agent/dockerlogs.go:104-115 | The position stored for record k-1 covers only records up to k-1, so acknowledging it never skips one. |
| `LogCursors.CursorAfterStep` | agent/internal/agent/dockerlogs.go:104-109 | Carrying `next` over one record (restart the count at a later stamp, count up at the same one) yields the cursor of the longer prefix, however long a run of equal stamps is. |
| `LogCursors.FilterDropsPrefix` | agent/internal/agent/dockerlogs.go:84-92 | The two guards (earlier stamp; same stamp and still within the count) drop a record exactly when it belongs to the prefix the start cursor denotes. |
| `LogCursors.QueryWindowCovers` | agent/internal/discovery/docker.go:62-72 | Every record the cursor does not cover lies in the window that is asked for, one second back and cut to the second. |
| `LogCursors.QueryWindowTight` | agent/internal/discovery/docker.go:65-72 | Nothing younger than a second before the cursor is left out, and nothing two seconds older is asked for. |
| `LogCursors.QueryWindowMonotone` | agent/internal/discovery/docker.go:65-72 | A later cursor never asks for an earlier window. |
| `BatchSplitter.PlanPartitions` | agent/internal/webclient/client.go:184-213 | The requests are consecutive ranges that partition a prefix of the batch in order, none is empty, each encodes within 3 MiB, and the prefix is the whole batch exactly on success. |
| `BatchSplitter.RequestsFit` | agent/internal/webclient/client.go:186-191 | No request of the plan encodes to more than 3 MiB. |
| `BatchSplitter.PartsJoinToPrefix` | agent/internal/webclient/client.go:192-203 | The requests put together are the accepted prefix of the entries. |
| `BatchSplitter.AcknowledgedIncreases` | agent/internal/webclient/client.go:209-211 | Each acknowledgement counts strictly more than the one before, and is the length of the prefix accepted so far. |
| `BatchSplitter.PlanCompletes` | agent/internal/webclient/client.go:186-207 | If nothing fails to encode and every single entry fits, the whole batch is planned, whatever the sizes of its parts. |
| `BatchSplitter.OversizedEntryBlocks` | agent/internal/webclient/client.go:192-195 | An entry that is too large in every part that holds it is never reached: the plan stops at or before it. |
| `ScanState.SkipKeeps` | agent/internal/agent/dockerlogs.go:84-92 | Inside a scan the filter skips exactly the records before the first undelivered one, and skipping keeps the scan invariant. |
| `ScanState.CollectKeeps` | agent/internal/agent/dockerlogs.go:104-115 | Collecting a record keeps the invariant: entry i of the batch is the next record, positions[i] its cursor. |
| `ScanState.BoundaryKeeps` | agent/internal/agent/dockerlogs.go:93-101 | Persisting the first tail boundary before any delivery moves the point from which nothing may be lost to the first record seen, and keeps the invariant. |
| `ScanState.FlushKeeps` | agent/internal/agent/dockerlogs.go:61-78 | After a batch is accepted and its cursors persisted, the scan continues as if the batch had been empty. |
| `ScanState.StopIsExact` | agent/internal/agent/dockerlogs.go:61-69 | Wherever a flush stops without a gap between acceptance and save, memory and disk denote exactly the records sent so far. |
| `ScanState.ReachedIsExact` | agent/internal/agent/dockerlogs.go:84-110 | A scan that starts on a fresh stamp or from an exact cursor ends with each record below the cursor sent once. |
| `Collector.PassAdvances` | agent/internal/agent/dockerlogs.go:117-136 | The pass after one that ended at record `upto` resumes at `upto`, or before it exactly when the first tail began inside the run of equal stamps there; its query window covers where it resumes and does not move back. |
| `Collector.Agent.constructor` | agent/internal/agent/agent.go:752-793 | A start: an empty delivery history, and nothing persisted for the container. |
| `Collector.Agent.TailLimit` | agent/internal/discovery/docker.go:55-60 | The configured tail is taken as it is between 1 and 1000 lines, cut to 1000 above, and 100 when it is not positive. |
| `Collector.Agent.ReadLogsSince` | agent/internal/discovery/docker.go:50-89 | What Docker may return: without a cursor exactly the last lines up to the tail limit, with one exactly the records from the queried second on, either possibly cut short by an error; a line without a parsed timestamp is marked. |
| `Collector.Agent.Post` | agent/internal/webclient/client.go:204-208 | One request: accepted, refused, or accepted with its response lost. |
| `Collector.Agent.SaveState` | agent/internal/agent/agent.go:795-828 | The file holds the whole new snapshot, or the whole old one. |
| `Collector.Agent.OtherGoroutine` | agent/internal/agent/agent.go:795-828 | Another goroutine may save the current memory at any moment without harm. |
| `Collector.Agent.PersistLogCursor` | agent/internal/agent/dockerlogs.go:139-158 | On success memory and disk hold the cursor; on failure memory is rolled back, while the disk keeps its snapshot or, saved by another goroutine, the tentative one. |
| `Collector.Agent.SendRequest` | agent/internal/webclient/client.go:204-213 | One request that fits: entries and acknowledged count move together, and only then does the cursor. |
| `Collector.Agent.SendPart` | agent/internal/webclient/client.go:185-215 | The recursive send realizes the plan of requests up to the first failure; with no gap the state is exactly that of the accepted count. |
| `Collector.Agent.SendHalves` | agent/internal/webclient/client.go:192-203 | The right half is sent only after the whole left half was accepted. |
| `Collector.Agent.Flush` | agent/internal/agent/dockerlogs.go:61-78 | A flush sends the batch, persists after each request, keeps the scan invariant, and leaves an untouched state when nothing was accepted. |
| `Collector.Agent.Visit` | agent/internal/agent/dockerlogs.go:79-124 | One line of the scan: skipped exactly when already covered, else collected, the boundary persisted first and the batch flushed at 100 entries. |
| `Collector.Agent.VisitAll` | agent/internal/agent/dockerlogs.go:79-127 | The whole stream: stops at 500 collected records, at a line without a timestamp, or at its end. |
| `Collector.Agent.FinishScan` | agent/internal/agent/dockerlogs.go:125-136 | After the stream the rest is flushed, an empty first scan persists the time it began, and the limit is reported only then. |
| `Collector.Agent.ForwardContainerLogs` | agent/internal/agent/dockerlogs.go:39-137 | One pass sends, in order, exactly the records from the cursor on; every record from the boundary to the new cursor is delivered, the limit means exactly 500 records further, and an unparsed line ahead fails the pass. A first pass counts from the first line of the tail, or from the moment an empty log was read; a later one never moves that boundary. |
| `Collector.Agent.Drain` | agent/internal/agent/agent.go:478-485 | The backlog loop terminates from wherever it starts, and when it ends in order the whole log is delivered. Without failures it does so exactly when every line from the query window of the stored cursor on has a timestamp; for a container without a cursor, exactly when the tail and, if a second pass is needed, its window do. |
| `Collector.Agent.DrainStored` | agent/internal/agent/agent.go:478-485 | From a stored cursor the loop sends exactly the records behind it, with undelivered records as its measure. |
| `Collector.Agent.FirstTwoPasses` | agent/internal/agent/dockerlogs.go:39-137 | What two passes from no cursor send: the second resumes where the first ended, or, when the tail began inside the last run of equal stamps, as many records into that run as the first sent. |
| `Collector.Agent.PassesAgain` | agent/internal/agent/dockerlogs.go:79-83 | A line without a timestamp within the next batch: however many passes run and whatever is written between them, nothing is sent and nothing moves. |
| `Collector.Agent.Restart` | agent/internal/agent/agent.go:752-793 | A restart resumes from the durable cursor with every guarantee kept. |
| `Collector.Agent.AppendToLog` | agent/internal/agent/dockerlogs.go:39-137 | New records with nondecreasing stamps keep every guarantee. |
| `Collector.Agent.Run` | agent/internal/agent/dockerlogs.go:39-158 | Over every sequence of appends, passes, failures, saves by other goroutines and crashes, each record from the first boundary to the durable cursor was accepted; with no gap and a fresh first stamp each was sent exactly once, in order. Once it is on disk and in memory the boundary is final. |
| `Interleaving.StepKeepsInv` | agent/internal/agent/agent.go:795-828 | Every step of the check, sync and log goroutines keeps the invariant: both log cursors and both audit offsets cover only what was accepted, and the rollback value is safe too. |
| `Interleaving.RunsAreSafe` | agent/internal/agent/agent.go:302-316 | So does every interleaving of any length, whatever each save returns and wherever a crash falls; and whenever no goroutine holds the save lock the audit offset in memory is the durable one. |
| `Interleaving.StepKeepsSettled` | agent/internal/agent/dockerlogs.go:139-158 | A boundary that disk and memory agree on, and that a pending rollback would keep, stays so through every step of every goroutine. |
| `Interleaving.FirstBoundaryIsFinal` | agent/internal/agent/dockerlogs.go:139-158 | So such a boundary never changes over a whole run, whatever saves fail, crash or abandon a boundary of another container. |
| `Interleaving.AbandonBreaks` | agent/internal/agent/dockerlogs.go:150-155 | Taking back a first boundary that another goroutine saved leaves the disk with one the memory lacks. |
| `Interleaving.StepKeepsOriginsIff` | agent/internal/agent/dockerlogs.go:139-158 | While disk and memory agree on the boundaries, a step keeps them in agreement if and only if it abandons none. |
| `Interleaving.BoundaryFinalIff` | agent/internal/agent/dockerlogs.go:139-158 | Between two scans, the boundary of a container on disk is the same after every later run if and only if the memory has it too. |
| `Interleaving.FirstBoundaryCanBeAbandoned` | agent/internal/agent/dockerlogs.go:139-158 | A first boundary can be abandoned: a concrete run in which the checks save the tentative boundary, its own save fails, and a record behind it is never sent. |
| `Interleaving.DeliveryPersists` | agent/internal/agent/dockerlogs.go:139-158 | From rest, an accepted batch and a cursor over it reach the disk in five steps that change nothing else. |
| `Interleaving.SavedByAnother` | agent/internal/agent/agent.go:795-828 | A cursor set while the checks hold the save lock is taken to disk by their save, before the collector’s own. |
| `Interleaving.SyncPersists` | agent/internal/agent/agent.go:302-316 | An audit offset whose save succeeds moves in memory and on disk; after one that fails the state is exactly what it was. |
| `Interleaving.EventPersists` | agent/internal/agent/agent.go:266-316 | An event recorded, shipped and passed by the offset: the offset reaches the disk and nothing else changes. |
| `Interleaving.CrashRecovers` | agent/internal/agent/agent.go:752-793 | After a crash the memory is the snapshot on disk and every goroutine begins anew. |
| `Interleaving.ComesToRest` | agent/internal/agent/agent.go:795-828 | The two locks never deadlock: from every state that satisfies the invariant the goroutines can come to rest without a crash or a new delivery, and everything in memory is then on disk. |
| `AuditFile.EventsBetweenComplete` | agent/internal/state/audit.go:153-168 | The batch between two line boundaries holds exactly the complete well-formed lines that begin there. |
| `AuditFile.AuditLogger.Write` | agent/internal/state/audit.go:62-73 | A write may fail after any part of its bytes. |
| `AuditFile.AuditLogger.Append` | agent/internal/state/audit.go:34-76 | An appended event is a complete line of its own even behind a partial line; earlier bytes are never changed. |
| `AuditFile.AuditLogger.TailOffset` | agent/internal/state/audit.go:80-125 | The backward scan returns the beginning of the last min(limit, number of lines) lines, an unterminated piece counting as one. |
| `AuditFile.TailUnique` | agent/internal/state/audit.go:98-123 | There is only one such offset, so the block size cannot show in the result. |
| `AuditFile.AuditLogger.ReadBatch` | agent/internal/state/audit.go:129-170 | The batch is the events of the next lines in order, the offset is a line boundary, and reading stops only at the limit or before an incomplete line. |
| `AuditDelivery.OffsetSafeMeans` | agent/internal/agent/agent.go:266-300 | No complete well-formed event lies between the first checkpoint and the offset unless it was accepted. |
| `AuditDelivery.OffsetSafeAdvances` | agent/internal/agent/agent.go:284-292 | Moving the offset behind an accepted batch keeps that, and the batches join without overlap. |
| `AuditDelivery.Shipper.RecordEvent` | agent/internal/agent/agent.go:941-953 | Recording an event, even a failed one, keeps every guarantee of the offset. |
| `AuditDelivery.Shipper.SendEvents` | agent/internal/agent/agent.go:284-287 | The events sent are those between the two checkpoints; an error may hide an acceptance. |
| `AuditDelivery.Shipper.PersistAuditOffset` | agent/internal/agent/agent.go:302-316 | Memory and disk move together or not at all. |
| `AuditDelivery.Shipper.FlushWebEvents` | agent/internal/agent/agent.go:266-300 | The checkpoint never moves back, passes an event only behind an accepted batch, and without failures passes all complete lines, or at least a hundred. |
| `AuditDelivery.Shipper.Drain` | agent/internal/agent/agent.go:266-300 | Flushing at every tick empties the file: every event from the first checkpoint on is accepted, once and in file order. |
| `AuditDelivery.Shipper.Restart` | agent/internal/agent/agent.go:752-793 | A restart resumes at the durable offset. |
| `AuditDelivery.Shipper.Run` | agent/internal/agent/agent.go:266-316 | Over every sequence of appends, flushes and crashes the durable offset is a line boundary behind which no event is undelivered; without a lost save each was sent once, in file order. |
| `DockerStream.DecodeEncode` | agent/internal/discovery/logstream.go:18-38 | Decoding the frames of any payloads, empty ones included, yields the payloads joined and a clean end. |
| `DockerStream.DecodeCut` | agent/internal/discovery/logstream.go:19-37 | Any cut of such a stream yields a prefix of the payloads, is never taken for an invalid frame, and ends cleanly if and only if it falls on a frame boundary. |
| `DockerStream.EndMeans` | agent/internal/discovery/logstream.go:19-37 | A stream ends cleanly if and only if it is a sequence of frames, and is refused if and only if, behind some frames, eight bytes or more do not begin with a stream number and three zeros. |
| `DockerStream.Source.ReadFull` | agent/internal/discovery/logstream.go:21-23 | Reading a header needs all eight bytes: an end before the first is clean, an end among them is not. |
| `DockerStream.DockerStreamReader.Read` | agent/internal/discovery/logstream.go:18-38 | One read delivers the next payload bytes in order, and an end is reported only when everything was delivered and says how the stream ends. |
| `DockerStream.ReadAll` | agent/internal/discovery/logstream.go:18-38 | For every chunking of the transport and every caller buffer, what is read and how it ends depend on the stream alone. |
| `DockerStream.StripDockerStreamHeaders` | agent/internal/discovery/docker.go:612-631 | On a stream that ends at a frame boundary this decoder agrees with the incremental one; otherwise it returns the payload with a short rest, or what follows the last whole frame alone. |
| `DockerLines.BufferedReader.ReadSlice` | agent/internal/discovery/logstream.go:52-58 | A slice ends at the first newline, or is cut because the buffer is full or nothing follows; slices join to the stream. |
| `DockerLines.ReadDockerLogs` | agent/internal/discovery/logstream.go:40-73 | From the response on: each line is handed over once, in order, cut to its first 64 KiB; the unfinished last line of a stream without a clean end never is. |
| `DockerLines.FramesRecognized` | agent/internal/discovery/logstream.go:41-45 | A stream of stdout and stderr frames is read as frames, wherever it is cut but behind its first, second or third byte. |
| `DockerLines.ReadAsTheyAre` | agent/internal/discovery/logstream.go:41-46 | Bytes that do not begin with a stream number and three zeros are read as they are. |
| `DockerLines.KeptMeans` | agent/internal/discovery/logstream.go:47-55 | A line keeps all of its bytes, or its first 65536. |
| `DockerLines.CompleteLineFirst` | agent/internal/discovery/logstream.go:63-69 | A complete line is handed over before anything behind it. |
| `DockerLines.TimeNeedsMessage` | agent/internal/discovery/docker.go:591-611 | A stamped line keeps its timestamp if and only if its message is not blank: trimming takes the separating space away. |
| `DockerLines.TrimSpaceMeans` | agent/internal/discovery/docker.go:591-611 | Trimming takes away spaces, tabs and line ends at both ends, and leaves none there. |
| `DockerLog.LineShown` | agent/internal/discovery/logstream.go:50-69 | A stamped line, cut to its kept bytes, parses to its time and the kept message, or to no time when only blanks are kept. |
| `DockerLog.BlankNotParsed` | agent/internal/discovery/docker.go:591-611 | A blank line is visited as nothing, and only a blank one. |
| `DockerLog.CutShowsPrefix` | agent/internal/discovery/logstream.go:40-73 | Frames of stamped lines cut after any byte: decoder, line assembler and parser together yield the entries of exactly the lines whose frames are whole. |
| `DockerLog.StreamIsPrefix` | agent/internal/discovery/docker.go:50-89 | So whatever the transport cuts off, the collector is handed a prefix of the log, records with a blank message without their stamp, and the whole log when nothing is cut off; only a cut within the first three bytes hands it those bytes as a line without a time. |
| `DockerLog.HeaderVisited` | agent/internal/discovery/logstream.go:41-70 | One to three bytes of a frame cannot be told for one, and are visited as a line without a time. |
| `DockerLog.TerminalShown` | agent/internal/discovery/logstream.go:41-70 | The unframed log of a container with a terminal: its whole lines are visited as those of a framed one, and a cut line as far as it goes. |
| `Alerts.RuleEvaluator.constructor` | web/backend/internal/alerter/evaluator.go:28-46 | After a start the memory of every key is its saved row, or the zero state. |
| `Alerts.RuleEvaluator.EvaluateRule` | web/backend/internal/alerter/evaluator.go:70-171 | One sample takes the key through exactly one step, saves or not as the step says, and touches no other key. |
| `Alerts.CompareMeans` | web/backend/internal/alerter/evaluator.go:256-271 | GT and GTE stay breached when the value rises, LT and LTE when it falls; the strict ones fail at the threshold and the others hold; GT and LTE, LT and GTE are opposites, EQ is GTE and LTE and holds of one value, an unknown operator is GT. |
| `Alerts.MetricRead` | web/backend/internal/alerter/evaluator.go:242-253 | A metric reads the usage of its own name, whatever the others are, and an unknown one zero. |
| `Alerts.KeysApart` | web/backend/internal/alerter/evaluator.go:237-239 | Two rules and hosts share a key if and only if they are the same, when rule ids hold no colon. |
| `Alerts.RequiredCount` | web/backend/internal/alerter/evaluator.go:82-85 | The required number is how many collect intervals fit into the duration in minutes, at least one. |
| `Alerts.RuleEvaluator.SaveState` | web/backend/internal/alerter/evaluator.go:215-234 | A save makes the row of the key its state in memory, and no other row. |
| `Alerts.RuleEvaluator.LoadState` | web/backend/internal/alerter/evaluator.go:190-210 | Rows of distinct keys become the memory; every other key starts at zero. |
| `Alerts.StepSimilar` | web/backend/internal/alerter/evaluator.go:80-154 | Two states that differ only in counts at or above the required count answer alike and stay alike; a step that is not saved stays like the state saved before. |
| `Alerts.RestartUnobservable` | web/backend/internal/alerter/evaluator.go:80-234 | For every sequence of samples and restarts the alerts and recoveries are those of an evaluator that never stopped, although one branch skips the save. |
| `Alerts.RuleEvaluator.Restart` | web/backend/internal/alerter/evaluator.go:190-210 | After a restart the memory of every key is its saved row. |
| `Alerts.RuleEvaluator.Serve` | web/backend/internal/alerter/evaluator.go:50-234 | The same for the class: any number of rules and hosts evaluated in any order with restarts in between, and each key gets the outcomes of an evaluator that never stopped. |
| `Alerts.OutcomesAt` | web/backend/internal/alerter/evaluator.go:70-171 | The outcome of sample k is that of one step from the state after the first k samples. |
| `Alerts.CooldownApart` | web/backend/internal/alerter/evaluator.go:90-98 | With a clock that does not go back, two alerts of a key are at least a cooldown apart. |
| `Alerts.CooldownInSeconds` | web/backend/internal/alerter/evaluator.go:90-97 | For a rule that is its cooldown in seconds, on a clock of nanoseconds. |
| `Alerts.AlertingMeans` | web/backend/internal/alerter/evaluator.go:98-143 | The flag holds exactly when the last notification was an alert; every recovery answers an alert, and a healthy sample after an alert always sends one. |
| `Alerts.LastMeans` | web/backend/internal/alerter/evaluator.go:97-97 | The stored time is that of the last alert. |
| `Alerts.CountMeans` | web/backend/internal/alerter/evaluator.go:80-153 | The count is the number of breached samples since the last healthy one outside the cooldown. |
| `Alerts.AlertExactly` | web/backend/internal/alerter/evaluator.go:82-98 | A sample alerts if and only if it is breached, not cooling down, and the breaches since that reset reach the required number. |
| `Alerts.FirstAlert` | web/backend/internal/alerter/evaluator.go:82-98 | The first alert falls on exactly the sample at which the run of consecutive breaches reaches the required number. |
| `Alerts.MoreBreachesAlertNoLater` | web/backend/internal/alerter/evaluator.go:82-98 | A series breached wherever another one is alerts no later than that one. |
| `Alerts.DirectionOfAlerts` | web/backend/internal/alerter/evaluator.go:70-171 | So a rule against high usage alerts no later on readings that are nowhere lower, and one against low usage no later on readings that are nowhere higher. |
| `Alerts.CountIsConsecutive` | web/backend/internal/alerter/evaluator.go:145-153 | Counted from any healthy sample on, the breaches are the unbroken row before a sample if and only if none of them is followed by a healthy one. |
| `Alerts.AlertsInRowIff` | web/backend/internal/alerter/evaluator.go:80-153 | Over all runs of samples at least d apart every alert falls on a full unbroken row of breaches if and only if the rule asks for one breached sample or its cooldown is at most d. |
| `Alerts.LaterAlertWithoutRow` | web/backend/internal/alerter/evaluator.go:145-153 | A concrete second alert after a single breached sample with two required: the documented "consecutive breach" does not hold behind a cooldown. |
| `Quantiles.BucketQuantile` | web/backend/internal/database/repository_otel_metric.go:481-505 | The loop returns the interpolated quantile, zero without data or bounds, the last bound in the overflow bucket. |
| `Quantiles.RankInBucket` | web/backend/internal/database/repository_otel_metric.go:485-493 | The bucket found is the first whose cumulative count reaches the rank, and it is not empty. |
| `Quantiles.InterpolateInBucket` | web/backend/internal/database/repository_otel_metric.go:497-502 | The interpolated value lies between the edges of that bucket. |
| `Quantiles.QuantileInverts` | web/backend/internal/database/repository_otel_metric.go:481-505 | For nondecreasing bounds, the first not negative or its bucket empty, the piecewise-linear cumulative count of the result is the rank asked for in every bucket of positive width, and jumps across it in one of none. |
| `Quantiles.QuantileMonotone` | web/backend/internal/database/repository_otel_metric.go:481-505 | A higher quantile is no smaller. |
| `Quantiles.NegativeFirstBound` | web/backend/internal/database/repository_otel_metric.go:497-502 | With a negative first bound and observations below it, there are two quantiles in the wrong order. |
| `Quantiles.QuantilesOrderedIff` | web/backend/internal/database/repository_otel_metric.go:481-505 | So the quantiles are ordered if and only if the first bound is not negative or the first bucket is empty. |
| `Histograms.CumulativeDelta` | web/backend/internal/database/repository_otel_metric.go:459-476 | The difference of the last and the first snapshot, or the last one whole when a bucket went backwards or the layouts differ. |
| `Histograms.PointMeans` | web/backend/internal/database/repository_otel_metric.go:353-356 | What the last snapshot of a cumulative series says: everything observed, less what resets lost. |
| `Histograms.DeltaOfExports` | web/backend/internal/database/repository_otel_metric.go:459-476 | The difference never exceeds what a delta exporter would have sent after the first point, and equals it if and only if there was no reset, or the resets lost nothing and the difference was not taken from a nonzero first snapshot. |
| `Histograms.HiddenResetUndercounts` | web/backend/internal/database/repository_otel_metric.go:459-476 | A restart that no bucket of the last snapshot shows: twelve observed, seven counted. |
| `Histograms.AddPoint` | web/backend/internal/database/repository_otel_metric.go:348-374 | One more row leaves the maps holding the accepted points of every series. |
| `Histograms.SameSeriesIff` | web/backend/internal/database/repository_otel_metric.go:353-356 | Two rows of a layout feed one series if and only if they agree on attributes, stream and temporality and, when cumulative, on the start. |
| `Histograms.RowJoins` | web/backend/internal/database/repository_otel_metric.go:336-374 | A row whose bounds and counts decode and fit joins the series of its layout, attributes, stream and start; every other series keeps its points. |
| `Histograms.SeparateSeriesAddUp` | web/backend/internal/database/repository_otel_metric.go:348-403 | However their rows interleave, exporters that differ in attributes, stream, temporality or start are counted apart: every bucket holds what the one counts alone and what the other counts alone. |
| `Histograms.SeriesContributes` | web/backend/internal/database/repository_otel_metric.go:387-391 | Each series contributes the sum of its delta points or the difference of its snapshots, of its layout’s width. |
| `Histograms.DeltaExporterContributes` | web/backend/internal/database/repository_otel_metric.go:364-391 | A delta series contributes everything its exporter observed. |
| `Histograms.CumulativeExporterContributes` | web/backend/internal/database/repository_otel_metric.go:370-391 | A cumulative series contributes at most what its exporter observed after the first point, and all of it if and only if there was no reset, or the resets lost nothing and the difference was not taken from a nonzero first snapshot. |
| `Histograms.BucketSumAny` | web/backend/internal/database/repository_otel_metric.go:387-399 | The sum over a layout’s series does not depend on the order of Go’s map iteration. |
| `Histograms.SeriesSumAny` | web/backend/internal/database/repository_otel_metric.go:400-403 | Nor does the total. |
| `Histograms.MergeSeries` | web/backend/internal/database/repository_otel_metric.go:385-403 | Merging keeps counts: bucket by bucket the sum over the series, and in total the sum of the per-series totals. |
| `Histograms.BestLayout` | web/backend/internal/database/repository_otel_metric.go:379-410 | The layout reported holds the most observations of all, and none is reported exactly when there are no observations. |
| `Histograms.TailExemplars` | web/backend/internal/database/repository_otel_metric.go:432-454 | The result is the head of the exemplars sorted by falling value. |
| `Histograms.TailMeans` | web/backend/internal/database/repository_otel_metric.go:432-454 | What is kept is no smaller than what is left out; if any exemplar reaches P95 all kept ones do, and below the cap none that does is left out. |
| `Histograms.HistogramQuantiles` | web/backend/internal/database/repository_otel_metric.go:289-424 | The whole aggregation: truncated exactly above 50000 points, no data exactly without observations, and else the quantiles of the merged best layout with its tail exemplars, in order whenever the bounds are and the first bucket does not lie below zero or is empty. |
| `Percentiles.Percentile` | web/backend/internal/database/repository_api_request.go:520-534 | The nearest-rank percentile of the array, which is not changed. |
| `Percentiles.PercentileIs` | web/backend/internal/database/repository_api_request.go:520-534 | It is a member of the input, at least p percent of the values are at most it, and fewer than p percent are below it. |
| `Percentiles.PercentileUnique` | web/backend/internal/database/repository_api_request.go:520-534 | No other value has that property. |
| `Percentiles.PercentileMonotone` | web/backend/internal/database/repository_api_request.go:520-534 | A higher percentile is no smaller, for every pair of ranks. |
| `Grouping.FloorMonotone` | web/backend/internal/database/repository_agent.go:687-687 | Truncating to a bucket keeps the order of instants, negative ones and widths that are not positive included. |
| `Grouping.MapGroupsMean` | web/backend/internal/database/repository_agent.go:684-703 | For every interval of the width and every location that has a row the map holds one bucket, at a multiple of the width, with exactly the rows from there to one width later at that location, in order. |
| `Grouping.LastGroupsMean` | web/backend/internal/database/repository_metric.go:435-441 | On time-ordered rows extending the last bucket yields one bucket for each interval that has a row, with exactly its rows, in the order of time. |
| `Grouping.LastGroupsConserve` | web/backend/internal/database/repository_metric.go:437-441 | Extending the last bucket loses and repeats no row. |
| `Grouping.LastGroupsRise` | web/backend/internal/database/repository_metric.go:435-441 | On time-ordered rows its bucket times strictly increase. |
| `Grouping.MapGroupsConserve` | web/backend/internal/database/repository_agent.go:684-703 | The map of buckets holds every row exactly once, whatever the order and the locations of the rows. |
| `Grouping.GroupingsAgreeIff` | web/backend/internal/database/repository_agent.go:684-703 | On time-ordered rows the map-and-order grouping and the extend-last grouping give the same buckets if and only if rows of one bucket share their time location. |
| `Grouping.NewestFirstAgreesIff` | web/backend/internal/database/repository_log.go:259-297 | Grouping the rows newest first in a map and reversing the buckets gives the extend-last buckets of the rows read oldest first, with the rows of each the other way round, if and only if rows of one bucket share their time location. |
| `Grouping.LocationsSplitABucket` | web/backend/internal/database/repository_agent.go:684-703 | Two rows of one instant read with two locations: two buckets in the map, one by extending the last. |
| `HistoryCharts.GetServiceHistoryBuckets` | web/backend/internal/database/repository_agent.go:679-722 | One point for each interval of that many minutes and location that has a check: the average over its passed checks only, the share of healthy ones and their number. |
| `HistoryCharts.GetHistoryBuckets` | web/backend/internal/database/repository_metric.go:422-462 | The same for a monitor’s checks, one point for each interval that has one. |
| `HistoryCharts.HistoryChartsAgreeIff` | web/backend/internal/database/repository_metric.go:422-462 | The same checks kept by a monitor and by an agent draw the same chart if and only if the rows of each bucket share their location. |
| `LogVolume.Histogram` | web/backend/internal/database/repository_log.go:259-297 | One bucket for each interval and location that has a row, counting its rows by level, unknown levels as info; the buckets come oldest first. |
| `LogVolume.ChartIsOldestFirstIff` | web/backend/internal/database/repository_log.go:259-297 | The chart is the one of the rows read oldest first, so that nothing of the reversal shows, if and only if rows of one bucket share their time location. |
| `LogVolume.ChartConserves` | web/backend/internal/database/repository_log.go:262-290 | All counts of all buckets add up to the rows read. |
| `LogVolume.CappedChart` | web/backend/internal/database/repository_log.go:249-297 | Past the row cap the oldest buckets go missing, never the newest, whatever the locations: every bucket drawn keeps its place and its time, and its counts unless it lies at the instant of the oldest row left. |
| `RequestStats.GetRequestStats` | web/backend/internal/database/repository_api_request.go:325-405 | More than 100000 rows give no chart and say so; otherwise each interval and location that has a request is a bucket with its counts and percentiles. |
| `RequestStats.ErrorsAre` | web/backend/internal/database/repository_api_request.go:367-385 | The errors of a bucket are the rows marked as errors, each counted once. |
| `RequestStats.DurationsAre` | web/backend/internal/database/repository_api_request.go:367-385 | The durations of a bucket are those of exactly its rows with a positive one, in order. |
| `RequestStats.StatsMean` | web/backend/internal/database/repository_api_request.go:367-405 | Counts add up to the rows, each bucket has the time, the errors and the timed requests of its rows, and P50, P95 and P99 are ordered percentiles of the measured durations. |
| `Incidents.DeriveIncidents` | web/backend/internal/database/repository_agent.go:835-870 | The pass yields, in order, exactly one incident for each first unhealthy sample of a run, ended by the first healthy sample of the same service and active exactly when there is none. |
| `Incidents.AgentIncidents` | web/backend/internal/database/repository_agent.go:812-881 | The list shown is the newest incidents, sorted, within the limit; active ones last until now, and those of one service never overlap. |
| `Incidents.SecondsMean` | web/backend/internal/database/repository_agent.go:856-875 | Durations are whole seconds, truncated toward zero. |
| `Incidents.NeverOverlap` | web/backend/internal/database/repository_agent.go:835-870 | Of two runs of one service, in the order of time, the incident of the earlier is over when the later begins. |
| `Incidents.DerivedApart` | web/backend/internal/database/repository_agent.go:835-870 | So on rows in the order of the query the incidents of one service never overlap in time, and only its last one can be active. |
| `Incidents.EachUnhealthyOnce` | web/backend/internal/database/repository_agent.go:852-861 | Every unhealthy sample belongs to the run of exactly one incident. |
| `Incidents.StaysActive` | web/backend/internal/database/repository_agent.go:844-851 | A run that reaches the end of its group is closed by no sample of another service. |
| `Attribution.InstancePIDRoundTrip` | agent/internal/telemetrygateway/enrich.go:208-218 | For every host name, with colons or without, the process id behind the last colon is read back. |
| `Attribution.InstancePIDIff` | agent/internal/telemetrygateway/enrich.go:208-218 | A positive process id is read if and only if the id ends, behind its last colon, in that number, with an optional plus sign and leading zeros, within 64 bits. |
| `Attribution.FirstKnownIs` | agent/internal/telemetrygateway/enrich.go:190-204 | The address path resolves to the first address in order that the index knows, and to nothing exactly when it knows none. |
| `Attribution.Resource.ForceServiceName` | agent/internal/telemetrygateway/enrich.go:231-252 | Every service name of the resource becomes the forced one, or one is added; the flag is set exactly when the attributes changed. |
| `Attribution.ForcedMeans` | agent/internal/telemetrygateway/enrich.go:231-252 | Afterwards the resource bears that name and no other, all other attributes are as they were, and forcing changes nothing if and only if the name was already borne. |
| `Attribution.ForcedAttr` | agent/internal/telemetrygateway/enrich.go:220-227 | What any other key reads as is untouched. |
| `TraceEnrichment.ResourceSpans.Attribute` | agent/internal/telemetrygateway/enrich.go:98-126 | One resource: kept, renamed or dropped, with a flag that is set exactly when there is something to re-encode. |
| `TraceEnrichment.Filter` | agent/internal/telemetrygateway/enrich.go:94-128 | Although the kept list overwrites the list being read, it ends as the filter of the list as received; names and flag match it. |
| `TraceEnrichment.EnrichTraces` | agent/internal/telemetrygateway/enrich.go:89-139 | Undecodable bodies pass untouched, empty results are not forwarded, and original bytes are forwarded only when the filter changed nothing or re-encoding failed. |
| `TraceEnrichment.KeptInOrder` | agent/internal/telemetrygateway/enrich.go:97-128 | The result is order-preserving: exactly the attributed resources, each from its own place. |
| `TraceEnrichment.AttributedMeans` | agent/internal/telemetrygateway/enrich.go:101-127 | A sidecar resource is dropped only when it resolves to no name and else bears that name; any other bears the connection’s if known; spans and other attributes are as they were. |
| `TraceEnrichment.KnownProcessWins` | agent/internal/telemetrygateway/enrich.go:182-188 | A sidecar resource whose instance id ends in a known process id is kept under the name of that process, whatever its addresses. |
| `TraceEnrichment.FirstPeerOtherwise` | agent/internal/telemetrygateway/enrich.go:189-203 | Without a known process it bears the name of the first known server.address, in the order of scopes, spans and attributes. |
| `TraceEnrichment.DroppedIff` | agent/internal/telemetrygateway/enrich.go:101-113 | A resource is dropped if and only if it is the sidecar’s and neither its process nor any of its addresses is known. |
| `TraceEnrichment.OtherNamed` | agent/internal/telemetrygateway/enrich.go:121-127 | Any other resource is kept, under the connection’s name if it has one and unchanged if not. |
| `TraceEnrichment.NamesAre` | agent/internal/telemetrygateway/enrich.go:117-135 | The names reported are exactly those given to a kept resource. |
| `TraceEnrichment.EnrichedTwice` | agent/internal/telemetrygateway/enrich.go:89-139 | With the same indexes a second pass changes nothing and reports the same names. |

## Left out

- Collector.Agent.Drain: the backlog loop over several containers is modelled for one; the loop of the others is the same and they share no cursor.
- Collector.Agent.Run: cursors of other containers, the version 1 timestamp fallback, pruning of cursors of removed containers, and a state file that does not decode are not part of a run.
- AuditFile.AuditLogger.ReadBatch: a file that does not exist reads as an empty one, and the parser is any predicate on lines.
- DockerLines.ReadDockerLogs: a transport error during the first peek of four bytes is not modelled; a line is one value, which `DockerLog` parses to at most one entry.
- DockerLog.CutShowsPrefix: one frame holds one line; a stream cut at a frame boundary inside a line is visited with that line cut short.
- DockerLines.TimeNeedsMessage: spaces are the six ASCII ones, and the stripping of frame headers that the parser applies once more to a line that begins with byte 1 or 2 is not modelled.
- Alerts.RuleEvaluator.EvaluateRule: the composed key is taken as it is, so two rules and hosts whose names collide around the colon share a state, as in the code; notification texts, channels and the rule and state repositories are left out.
- Alerts.RestartUnobservable: saves are started as goroutines and could finish out of order; here each is done before the next sample. A rule that is edited between samples is not modelled.
- Histograms.AddPoint: the series key is a record of its parts, so a collision through an embedded NUL is not modelled; rows come in the order of the query.
- Histograms.HistogramQuantiles: uint64 sums do not wrap around and float64 does not round.
- HistoryCharts.GetHistoryBuckets: the label of a point is its instant, not its text in seconds; an average is exact, not a float64.
- Incidents.AgentIncidents: durations do not saturate at 292 years, and a stable sort stands in for sort.Slice.
- TraceEnrichment.EnrichTraces: resolvers are maps, the fallback from a thread to its process among them; whether a body decodes and encodes is a parameter; a missing resource and one without attributes are the same view.
- Text trimming, severity inference, access-log spans and the log lines written on errors: best effort beside the delivery.
- The HTTP clients, the Docker API, JSON and protobuf encoding, and SQL: only their outcomes and the order of their rows appear.
- The metrics and logs variants of attribution: the same filter with fewer cases.
- Uptime by day, status summaries and the other repository queries: sums that would add only easy members.

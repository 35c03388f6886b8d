# Verification of the gateway's core

Kafka3o is a management and data gateway in front of Kafka. Its logic sits behind a small
port (`kafka.Admin`, `kafka.Consumer`, `kafka.Producer`), and the repository ships an
in-memory cluster for that port. This project models the services and that cluster in Dafny
and proves what the gateway promises: bounded scans that resume without a gap, at-least-once
replay, an audited destructive protocol, a log whose offsets stay whole, declarative imports
that converge, plan tokens that pin down what was confirmed, and exact offset arithmetic.

Code that updates state in place is a class or a method with loops, proved against a
specification function or relation on values; the theorems are lemmas about those
specifications, so each one holds of the methods too. From this directory,
`dafny verify dfyconfig.toml` checks everything.

## Layout

- `Kafka`, `Logs`, `Maps`, `Seqs`, `Strings`, `Names`, `TpOrder`, `Decimal`: domain types,
  slices of logs, sums, sorting, separators, decimal text.
- `FakeCluster` (effects on values) and `Fake` (class `Fake`, in place): the in-memory
  cluster: produce, seed, truncate, poll, offset listings, topics, configurations, groups.
- `Codec`: record decoding and encoding. `Scan`, `ScanRunner`: the bounded scan, as a
  function of the consumer's answers and as the runner that computes it. `ScanSafety`,
  `ScanBounds`, `ScanStops`, `ScanResume`, `ScanEnd`, `ScanLatest`: its theorems against any
  consumer; `FakeFeed`, `FakeEnd`, `MessageWindow`, `WindowMeaning`: against the fake.
- `Replay`, `ReplaySafety`, `ReplayDelivery`, `ReplayLatest`, `ReplayRun`: planning, applying
  and retrying a replay, what reaches the target, latest sources, and the whole of it on the
  fake.
- `Audit`, `Destructive`, `AuditTrail`, `Bulk`, `BulkOnFake`: gates, sinks, the two-phase
  protocol and what its events say, bulk produce.
- `PlanToken`, `Reassign`, `BulkDelete`: tokens. `Reconcile`, `ReconcileSafety`,
  `ExportImport`: import and export.
- `GroupOffsets`, `GroupSafety`, `WindowCount`, `TopicRecords`, `ByteSize`: offset moves,
  lag, window counts, record deletion, byte sizes.

## How the world outside enters

- The consumer is a list of answers it will give, each with the flag that the time bound
  had expired when it came: any list, so any delivery, duplication, reordering or failure.
  A scan that has used up the list still waits.
- The producer, the audit sinks and the clock are arbitrary functions of their call's
  position. A matcher is an arbitrary pure function; JSON and UTF-8 validity are arbitrary
  predicates on bytes. SHA-256 is an arbitrary function, assumed free of collisions and of
  separator characters only where a token must tell two requests apart.
- A walk over a Go map may take any order: results that depend on it are relations.

## Where the code does less than its comments say

- A latest replay hands its items over newest first, so its cursor can pass records that
  were refused, or that the limit cut off and nobody sent, even when it succeeds
  (`ReplayLatest.SuccessPassesUnsent`). Retrying from the cursor is at-least-once exactly
  for plans that are not latest or in which every window of two records or more has at
  least limit records strictly newer than its newest (`ReplayLatest.PlanIsSafeIff`); windows
  at most one offset wide are enough, and needed for a single partition
  (`ReplayLatest.NarrowPlanIsSafe`, `ReplayLatest.WideButSafe`).
- Deleting records accepts a target below the begin offset, and the log's end moves back
  by as much. The log stays whole exactly for targets at or after begin
  (`FakeCluster.TruncationKeepsLogIff`, `FakeCluster.TruncationBelowBeginLosesOffsets`).
- A scan of an offset range that lies wholly below a begin offset, or below zero in a
  partition the topic does not have, waits until its time bound; a replay has none
  (`MessageWindow.ResolvedIsReachableIff`, `MessageWindow.RangeBelowBeginNeverEnds`).
- A time bound means the milliseconds asked for only while their product with one million
  fits 64 bits, and a negative bound resolves to no bound (`ScanBounds.AcceptedTimeIsReal`,
  `ScanBounds.HugeTimeWraps`, `ScanBounds.AcceptedBoundIsReal`).
- A byte size whose product exceeds 63 bits is not refused: it wraps, below 2^64 to a negative size
  (`ByteSize.OverflowIsNotRefused`).
- A dry run of T7, T8, T11, T12 or G5 is audited with high severity
  (`Destructive.DryRunIsInfoIff`).
- A C9 token fixes the partitions but neither the replica lists nor which of reassign,
  cancel and elect was confirmed (`Reassign.TokenFixesPartitionsOnly`).
- An import converges exactly when no desired topic has an internal topic's name
  (`ReconcileSafety.ImportConverges`).
- An import sets neither a wanted empty value that is not there nor a wanted value that is
  only the default, and never resets an override or corrects a count, so exporting again
  need not return what was desired (`ExportImport.ExportReturnsDesiredIff`,
  `ExportImport.OverridesNotSettled`).
- `Run` leaves its consumer open when there are no partitions in scope or `Assign` fails
  (`ScanRunner.Run`).
- A bound hit on the very last record reports that the end was not reached: with a limit
  alone the report is right except when the windows hold exactly the limit
  (`FakeEnd.LimitEndsIff`, `FakeEnd.LimitMetReportsMore`; for any bounds
  `FakeEnd.ReportsEndIff`).
- A latest read always reports that the end was reached, also when a bound on bytes or on
  scanned records cut it (`ScanEnd.LatestAlwaysReports`, `FakeEnd.CutLatestReportsEnd`);
  `FakeEnd.ReadsAllIff` says exactly when that is sure to be true.
- A replay's estimate counts a window that ends before it starts, as an offset past the end
  gives, as a negative number of records (`ReplayRun.EstimateIffForward`).
- A reset of a partition its topic no longer has commits offset zero, and a fixed offset is
  not checked against the log (`GroupSafety.ResetLandsInLogIff`,
  `GroupSafety.VanishedGoesToZero`).

## Model

| member | source | states |
|---|---|---|
| ScanRunner.Runner.Evaluate | internal/scan/runner.go:145-166 | One record in place: ignored unless its partition is in scope and its offset in [cursor, End); else cursor, counters, bytes and the emitted item advance as the step function says, and the bound hit, if any, is reported |
| ScanRunner.Runner.EvaluateBatch | internal/scan/runner.go:123-131 | A poll's records are evaluated in order up to and including the first that hits a bound |
| ScanRunner.Runner.PollLoop | internal/scan/runner.go:113-138 | The loop ends when the windows are exhausted, a bound is hit, time expires on an empty poll, or the poll fails; its state and end are a function of the answers received |
| ScanRunner.Runner.Drain | internal/scan/runner.go:84-101 | A latest scan's buffer is some newest-first permutation of it, cut to maxMessages, and matched becomes its length; other scans emit as they go |
| ScanRunner.SortNewestFirst | internal/scan/runner.go:93 | A newest-first permutation of the buffer |
| ScanRunner.Run | internal/scan/runner.go:34-76 | The whole run answers what the scan relation allows for the consumer's answers, and closes the consumer on every path except no partitions and a failed Assign |
| ScanStops.EndIff | internal/scan/runner.go:113-138 | Exactly how a run ends: it fails exactly when it is still open at a failing poll whose time is not up, times out exactly when it is open at a failing or an empty poll that comes too late, and waits exactly when it is open after every answer |
| ScanStops.FailsIff | internal/scan/runner.go:34-76 | A run is answered with an error exactly when its assignment was refused with it or it was open at a poll failing with it, its time not up |
| ScanStops.EmptyScopeIsAnswered | internal/scan/runner.go:41-43 | Without partitions in scope a run is answered empty, the end reached, whatever assignment or polls would say |
| ScanStops.TimeoutKeepsItems | internal/scan/runner.go:113-138 | A run whose time ran out, on a failing or an empty poll, is answered with the items read till then; unless latest it names maxTime, has not reached the end, and continues where it got to |
| ScanStops.StatsCount | internal/scan/runner.go:201-218 | An answer's counters are the evaluated records, their bytes, those the matcher skipped and the items handed over |
| ScanStops.StopNamesFirstBound | internal/scan/runner.go:186-197 | A stopped run names its message bound whenever that or the scan bound was met, and bytes otherwise |
| ScanEnd.PollShrinksRemaining | internal/scan/runner.go:123-176 | A poll carrying an in-window record strictly lowers the sum of max(0, End - cursor); no poll raises it |
| ScanEnd.UsefulPollsAreBounded | internal/scan/runner.go:113-138 | Against any consumer a run takes at most as many polls with in-window records as its windows are wide in all, less what it leaves unread |
| ScanSafety.StepKeepsConsistent | internal/scan/runner.go:145-166 | Every step keeps the scan invariant: offsets in window and ascending per partition, counters and bytes exact, matched + skipped <= scanned, scanned + remaining <= the windows' total width |
| ScanSafety.SafeAgainstAnyConsumer | internal/scan/runner.go:113-166 | Whatever Poll returns: each offset is evaluated at most once, inside [Start, End), only if delivered, ascending per partition as emitted; bytes is the exact sum; scanned is at most the windows' width |
| ScanSafety.CursorsStayInRange | internal/scan/runner.go:145-166 | A cursor stands at Start or between Start and End |
| ScanSafety.MatchedIsEmitted | internal/scan/runner.go:156-163 | matched is the number of items handed to emit |
| ScanSafety.RanFolds | internal/scan/runner.go:113-138 | A run's progress is the fold of some prefix of the delivered records, however they were batched |
| ScanBounds.AcceptedBoundIsReal | internal/service/message/bounds.go:11-30 | Refused exactly above the ceiling; otherwise in [1, ceiling] exactly when not negative |
| ScanBounds.AcceptedTimeIsReal | internal/service/message/bounds.go:34-43 | A time bound is the milliseconds asked for exactly when the product fits 64 bits, and then refused above the ceiling and real otherwise |
| ScanBounds.HugeTimeWraps | internal/service/message/bounds.go:38 | A request of 18446744073710 ms becomes under half a millisecond |
| ScanBounds.BoundsAreReal | internal/scan/runner.go:127-132 | matched, scanned and bytes stop where the spec says; a stop reason names a bound that was hit; reachedEnd means every cursor is at or past its End |
| ScanBounds.ReadIsBounded | internal/service/message/bounds.go:11-30 | With validated ranges and non-negative limits an answered run emits at most the limit's ceiling and overshoots the byte ceiling by less than its last record, latest reads included |
| ScanResume.ScanReadsTheLog | internal/scan/runner.go:113-166 | Over in-order deliveries of a log, cut anyhow, a scan evaluates and emits per partition exactly the records between Start and its final cursor |
| ScanResume.PageReadsTheLog | internal/scan/runner.go:201-209 | The same in terms of the answer alone: items are exactly what the log holds between Start and continuation |
| ScanResume.ResumeNoGapNoOverlap | internal/scan/runner.go:113-166 | Any number of non-latest runs, each resumed from the continuation before and stopped by any bound, together evaluate and emit per partition exactly the log from the first Start to the last continuation |
| ScanResume.LastContinuation | internal/scan/runner.go:169-209 | Pages that reach the end stop exactly at End, or where they started beyond it |
| ScanResume.PagingIsInvisible | internal/scan/runner.go:113-209 | Two ways of paging the same windows, one of them possibly a single unbounded run, show the same per partition once both reach the end |
| ScanResume.ReachedEndMeansIt | internal/scan/runner.go:169-176 | A non-latest answer that says it reached the end has its continuation at or past every End |
| ScanLatest.LatestWindowIsTail | internal/service/message/window.go:88-97 | A latest window without a to is the partition's last limit records, or all of them |
| ScanLatest.FirstOnesAreNew | internal/scan/runner.go:90-98 | If a buffer holds n items no older than an instant, the first n of any newest-first order are no older |
| ScanLatest.LatestIsNewest | internal/scan/runner.go:84-101 | With timestamps that do not decrease per partition and everything matching, a completed latest read emits min(limit, total) records, newest first, and no record left out of any selected partition is newer than one emitted |
| FakeFeed.DeliversExactlyOnce | internal/kafka/fake/consumer.go:35-67 | Under any interleaving of produces and polls, what a session was given of a partition is a prefix of the final log from the assigned offset on, and all of it right after a poll |
| FakeFeed.HotTopicScanReadsTheLog | internal/kafka/fake/consumer.go:35-67 | A scan over a topic being written evaluates exactly the final log's records between Start and continuation |
| FakeFeed.FirstPollExhaustsIff | internal/kafka/fake/consumer.go:47-63 | After the first poll a cursor is at its End exactly when the window is empty or its last offset is stored |
| FakeFeed.FakeScanEndsIff | internal/scan/runner.go:113-138 | On a topic at rest, with no bound hit, a scan ends with reachedEnd exactly when every window is empty or stored to its last offset, and otherwise waits however long it polls |
| FakeFeed.OnePollIsEnough | internal/scan/runner.go:113-138 | Over reachable windows a scan of the fake finishes after at most one poll |
| FakeFeed.PollLoopOnFake | internal/scan/runner.go:113-138 | The runner's loop driven by the fake itself terminates and computes the scan of at most one answer, which is a poll of the topic at the windows' starts |
| FakeFeed.RunOnFake | internal/scan/runner.go:34-76 | A whole run on the fake over reachable windows is answered after at most one poll, which is a poll of the topic at the windows' starts, and leaves the topics unchanged |
| ScanEnd.BatchReadsAllIff | internal/scan/runner.go:123-131 | When one poll brings everything in reach, no bound is hit exactly when all of it stays under the bounds, and all of it is read exactly when all but its last record do |
| FakeEnd.ReportsEndIff | internal/scan/runner.go:113-209 | For any bounds and matcher, a run on the fake over reachable windows reports reachedEnd exactly when it is latest or everything the windows hold stays under the bounds |
| FakeEnd.OnePollEnds | internal/scan/runner.go:113-138 | For one poll's order: the loop finishes, reaching the end exactly when everything fits, and has read it exactly when all but the last record read do |
| FakeEnd.LimitEndsIff | internal/scan/runner.go:186-197 | With a limit as the only bound the end is reported exactly when the windows hold fewer records than the limit, and everything is read exactly when they hold no more |
| FakeEnd.LimitMetReportsMore | internal/scan/runner.go:186-197 | One record and a limit of one: everything read, reachedEnd false |
| ScanEnd.LatestAlwaysReports | internal/scan/runner.go:201-209 | A latest answer always reports reachedEnd and no bound, whatever the consumer did, and its continuation is where it started |
| FakeEnd.ReadsAllIff | internal/scan/runner.go:113-138 | Everything in the windows is sure to be read, in whatever order the fake's session is walked, exactly when it stays under the bounds without the last record of any one partition; for a latest run this is when its report is sure to be true |
| FakeEnd.CutLatestReportsEnd | internal/scan/runner.go:201-209 | A latest read cut by maxBytes reports reachedEnd with a record unread |
| MessageWindow.ResolveWindows | internal/service/message/window.go:24-66 | NotFound for an unknown topic; otherwise one window per requested partition, or per partition of the topic when none is requested, each the resolution of from and to clamped to the end snapshot |
| WindowMeaning.WindowReads | internal/service/message/window.go:88-119 | A window holds exactly the records its from admits (all, the last limit, from an offset on, from the first at or after a time on) and its to leaves in (below an offset, before the first at or after a time) |
| WindowMeaning.WindowStands | internal/service/message/window.go:88-119 | Where it starts and ends, form by form: begin, the requested offset, the first record at or after a time or the end, clamped to the end snapshot |
| WindowMeaning.MissingPartition | internal/service/message/window.go:48-64 | A requested partition the topic does not have gets a window that ends at or below zero |
| MessageWindow.ResolvedWindow | internal/service/message/window.go:88-119 | A window never runs past the end snapshot and starts at or after begin unless an offset was asked for |
| MessageWindow.ResolvedIsReachableIff | internal/service/message/window.go:88-119 | A scan of a resolved window ends by itself exactly when the range does not lie wholly below begin, which is zero for a partition the topic does not have |
| MessageWindow.RangeBelowBeginNeverEnds | internal/service/message/replay.go:127-130 | A range wholly below begin, of an existing partition or another, keeps a scan without another bound waiting for ever |
| Codec.Base64RoundTrip | internal/scan/decode.go:98-106 | Decoding the base64 text of section 4 of RFC 4648 gives back any bytes |
| Codec.DecodeRecord | internal/scan/decode.go:53-75 | The header loop decodes every header in order; key, value and metadata as the decode function says |
| Codec.VerbatimBytes | internal/scan/decode.go:80-106 | For every bytes, format override and notion of validity, encoding the decoded text gives the same bytes |
| Codec.VerbatimHeader | internal/scan/decode.go:110-115 | The same for header values |
| Codec.ShownAs | internal/scan/decode.go:80-106 | The format asked for when the bytes are valid in it; otherwise json for valid JSON, string for other UTF-8, base64 for the rest |
| Codec.HeaderShownAs | internal/scan/decode.go:108-115 | A header value is string when it is UTF-8 and base64 otherwise, never json |
| Codec.EncodingsAccepted | internal/scan/encode.go:13-26 | json, string and no encoding take the text as it is, base64 decodes it, anything else is refused |
| Codec.ItemCarries | internal/scan/decode.go:53-75 | An item carries its record's place, time, raw key and value size and every header's key |
| Codec.DecodableIff | internal/scan/encode.go:13-26 | Newlines aside, exactly the texts of full quads decode, symbols throughout but for one or two paddings at the very end |
| FakeCluster.ProduceOnlyAppends | internal/kafka/fake/producer.go:14-46 | A batch appends to each partition, in order, exactly the requests that chose it, and changes nothing else |
| FakeCluster.ProduceAnswersEach | internal/kafka/fake/producer.go:20-44 | Request i is refused exactly when its partition is out of range, and otherwise told the partition and offset where its own bytes are stored |
| FakeCluster.ProduceStamps | internal/kafka/fake/producer.go:20-44 | A refusal is NotFound; a stored record has its own time, or what the clock says at its request |
| FakeCluster.ProduceKeepsInvariant | internal/kafka/fake/producer.go:14-46 | Producing keeps every log contiguous from begin |
| FakeCluster.TruncationKeepsLogIff | internal/kafka/fake/admin.go:433-461 | An accepted truncation keeps the log contiguous, its end, and exactly the records at or after the target, if and only if the target is at or after begin |
| FakeCluster.TruncationBelowBeginLosesOffsets | internal/kafka/fake/admin.go:433-461 | A target below begin is accepted and moves the end back by the difference |
| FakeCluster.EmptiedLogMovesBack | internal/kafka/fake/admin.go:433-461 | An empty log ending at 5 ends at 2 after a truncation to 2 |
| FakeCluster.CompactionKeepsInvariantIff | internal/kafka/fake/seed.go:122-138 | Compaction keeps the log contiguous unless it moves a non-empty log's begin back |
| FakeCluster.PollReadsEachPartition | internal/kafka/fake/consumer.go:35-67 | Whatever order the session's map is walked in, a poll gives each assigned partition's records from its cursor on |
| FakeServer.Fake.SeedTopic | internal/kafka/fake/seed.go:24-47 | The seeded topic, with offsets, partition numbers and timestamps assigned; keeps the log invariant |
| FakeCluster.SeedHolds | internal/kafka/fake/seed.go:24-47 | Seeding keeps every record's content, order and given time, in its own partition or the first when that is out of range |
| FakeServer.Fake.SeedCompactAway | internal/kafka/fake/seed.go:122-138 | The named partition begins at the offset and holds exactly its records from there on, in order; other partitions, the topic's other fields and unknown targets are left alone |
| FakeServer.Fake.Produce | internal/kafka/fake/producer.go:14-46 | NotFound without effect for an unknown topic; otherwise the batch's effect and answers, keeping the log invariant |
| FakeServer.Fake.ListStartOffsets | internal/kafka/fake/admin.go:114-128 | Every partition's begin offset |
| FakeServer.Fake.ListEndOffsets | internal/kafka/fake/admin.go:132-146 | Every partition's end offset |
| FakeServer.Fake.ListOffsetsAfterMilli | internal/kafka/fake/admin.go:151-173 | The first offset at or after the time, or the end offset, per partition |
| FakeServer.Fake.DeleteRecords | internal/kafka/fake/admin.go:423-466 | Refused, with the reason, exactly when some target names no partition or lies past its end, and then nothing changes; otherwise every named partition begins at its target and holds exactly its records from there on, every other partition, field and topic is left alone, and the cuts are reported ascending |
| FakeServer.Fake.CreatePartitions | internal/kafka/fake/admin.go:377-393 | Only to a greater total; adds empty partitions, keeping the log invariant |
| FakeServer.Fake.Assign | internal/kafka/fake/consumer.go:17-29 | Replaces the session: each assigned partition at its start offset, zero where none is given |
| FakeServer.Fake.Poll | internal/kafka/fake/consumer.go:35-67 | Every assigned partition's records from its cursor on, with cursors moved past them; the topics are untouched |
| FakeServer.Fake.CreateTopics | internal/kafka/fake/admin.go:296-330 | Each spec is answered for itself: AlreadyExists exactly when its name is taken, before or by an earlier spec that was created; accepted ones become topics of empty partitions listing each given config once; nothing else changes, and nothing at all when only validating |
| FakeServer.Fake.IncrementalAlterTopicConfigs | internal/kafka/fake/admin.go:337-370 | Sets or resets the named configs in order, first entry of a name, and nothing else |
| FakeCluster.AlterOneIs | internal/kafka/fake/admin.go:337-370 | Resetting keeps the value and makes the entry a default again; setting makes it dynamic, in place or at the end; other entries stay |
| FakeServer.Fake.DeleteTopics | internal/kafka/fake/admin.go:398-414 | Exactly the named topics go; each name is answered for itself, NotFound exactly when it was not there or came earlier in the batch |
| FakeServer.Fake.CommitGroupOffsets | internal/kafka/fake/admin.go:470-495 | Refused for an active group without effect; otherwise overlays the offsets, creating the group if absent |
| Replay.PlanReplay | internal/service/message/replay.go:67-107 | Refused for the limit, a missing topic, or a preserved partition the target lacks, exactly then; otherwise the windows and their summed estimate |
| Replay.BuildRequests | internal/service/message/replay.go:145-152 | One request per item in order, or the first encoding failure |
| Replay.Account | internal/service/message/replay.go:159-168 | Counts and moves cursors up to the first rejected result |
| Replay.ApplyReplay | internal/service/message/replay.go:121-169 | The reported outcome is the accounting of what the scan answered and the producer said: the batch failed exactly when the producer fails, and result i is rejected exactly when it rejects request i; what was sent is the encoding of the scanned items |
| Replay.ReplayOnFake | internal/service/message/replay.go:121-169 | With the fake on both sides: at most one poll, and it is the source topic's at the windows' starts; the target gains exactly the produced batch, the log invariant is kept |
| ReplayRun.ReplayRequest | internal/service/message/replay.go:67-169 | Plan then apply: a refused plan changes nothing; with preservePartition and a source that is not latest it succeeds, each target partition gains copies of exactly the source's window slice up to the cursor, in order, and nothing else changes; the slices are the whole windows when these hold no more than the limit, and reachedEnd says they hold less |
| ReplayRun.ReplayCopiesWindows | internal/service/message/replay.go:121-169 | The same of any applied plan whose partitions the target has, by whatever poll order |
| ReplayRun.KeysKeepOrder | internal/kafka/fake/producer.go:51-61 | Without preservePartition all records of a key still arrive in one partition, the one its hash chooses, in the order they were read |
| ReplayRun.EstimateIffForward | internal/service/message/replay.go:80-87 | For windows within their logs the estimate never exceeds what they hold, and equals it exactly when none ends before it starts |
| ReplaySafety.CursorIsSafe | internal/service/message/replay.go:159-168 | For every outcome vector of a non-latest replay, every window record below the reported cursor was acknowledged; a failure at index k reports k copied and its own error |
| ReplaySafety.RetryAdvances | internal/service/message/replay.go:121-169 | One more attempt from where progress stands moves nothing back, and all it passed was acknowledged |
| ReplayLatest.AttemptReports | internal/service/message/replay.go:121-169 | Success exactly when there was nothing to send or everything was taken; otherwise the producer's own failure with nothing copied, or its first refusal with what was taken before it |
| ReplayDelivery.AcknowledgedIsCopied | internal/service/message/replay.go:121-169 | When what the producer acknowledged is appended to the target, an acknowledged source record has a copy there, byte for byte |
| ReplayDelivery.AtLeastOnceInTarget | internal/service/message/replay.go:121-169 | Across any sequence of failing attempts, with others writing to the target in between, every source record from a partition's first offset to its progress has a copy in the target's log, in its own partition when that is preserved |
| ReplayDelivery.RetriedToTheEndInTarget | internal/service/message/replay.go:121-169 | Retrying until an attempt succeeds to the end puts a copy of every record of the range in the target's log |
| ReplaySafety.SuccessIsContinuation | internal/service/message/replay.go:150-168 | On success the cursor is the scan's own continuation, and copied is the number of items, within the limit |
| ReplaySafety.CopiedIsDistance | internal/service/message/replay.go:150-168 | On success, with Start at or after begin, copied is the sum of (cursor - Start) |
| ReplayLatest.AlwaysSafeIff | internal/service/message/replay.go:121-169 | Over a source at rest in time order, counting every consumer within its logs and every producer outcome that an ended request context allows, the cursor stands over acknowledged records in every attempt exactly when the source is not latest, or some window can never be read to its end, or for every window of two records or more at least limit records of all windows are strictly newer than its newest |
| ReplayLatest.PlanIsSafeIff | internal/service/message/replay.go:67-169 | For any plan: safe exactly when it is not latest or every window of two records or more has at least limit records of all windows strictly newer than its newest, so that nothing of it is sent |
| ReplayLatest.NarrowPlanIsSafe | internal/service/message/replay.go:67-169 | No window wider than one offset is enough, and with a single partition it is needed |
| ReplayLatest.WideButSafe | internal/scan/runner.go:84-101 | A plan with a window two offsets wide whose every attempt is safe |
| ReplayLatest.NotOvertakenIsUnsafe | internal/scan/runner.go:84-101 | Any other latest window of two records or more has an attempt, reading everything with one poll, whose cursor passes an unacknowledged record: its newest is taken, its oldest not |
| ReplayLatest.SuccessPassesUnsent | internal/service/message/replay.go:159-168 | A latest replay of two partitions with a limit of two that succeeds in full, with both cursors past a record never sent |
| ReplaySafety.RequestIsVerbatim | internal/service/message/replay.go:176-200 | The request built from a decoded record carries the stored key, value, headers and timestamp, and its partition when preserved |
| ReplaySafety.VerbatimReplay | internal/service/message/replay.go:95-100 | With preservePartition and the partitions planning checked, a non-latest replay onto the fake succeeds and each target partition gains exactly the source's window slice, byte for byte, in offset order |
| Audit.GatePassesIff | internal/service/gates/check.go:28-48 | Who passes the gate, exactly; a break-glass reason opens the data-plane lock to an operator and nothing else |
| Audit.Auditor.WriteAttempt | internal/audit/auditor.go:29-37 | ATTEMPT goes to the sinks in order up to the first refusal and succeeds exactly when all accepted |
| Audit.Auditor.WriteResult | internal/audit/auditor.go:43-48 | RESULT goes to every sink whatever the others answered |
| Destructive.Gateway.CheckAudited | internal/service/core/run.go:51-64 | A refusal by the gate writes a rejected RESULT; a pass writes nothing |
| Destructive.Gateway.Run | internal/service/core/destructive.go:68-114 | One call's effect on cluster, history and reply: gate, plan, dry run, confirm, ATTEMPT, apply, RESULT |
| Destructive.CallIsDisciplined | internal/service/core/destructive.go:68-114 | Apply happens at most once, only after the gate passed, outside a dry run, confirmed, and accepted as ATTEMPT by every sink; every other path leaves the cluster alone; each sink sees nothing, RESULT, ATTEMPT, or ATTEMPT then RESULT |
| AuditTrail.TrailTellsTruth | internal/service/core/destructive.go:68-133 | What every event says: a refusal is REJECTED with its code, a failed apply FAILED with the port's error, a success SUCCEEDED, a dry run says it was one, each with its severity; an ATTEMPT is the caller's event |
| AuditTrail.EverySinkIsTold | internal/service/core/destructive.go:68-114 | Each sink gets RESULT for a refusal or a dry run, ATTEMPT then RESULT for an apply, nothing for a failed plan or a mismatch |
| AuditTrail.AttemptStops | internal/audit/auditor.go:29-37 | ATTEMPT is written to the sinks in order, up to and including the first that refuses it |
| AuditTrail.ResultReachesAll | internal/audit/auditor.go:43-48 | RESULT is written to every sink in order, each with its own answer |
| AuditTrail.ReplyIff | internal/service/core/destructive.go:68-114 | Which reply a call gets; it is unaudited exactly when it would go ahead and some sink does not accept ATTEMPT in its turn, and an applied call is answered by what apply said |
| AuditTrail.GateReasons | internal/service/gates/check.go:28-48 | Which reason a refusal has, in their order |
| Destructive.RunIsDisciplined | internal/service/core/destructive.go:68-114 | The same over any sequence of calls with any plans, applies and sink failures, per event id |
| Destructive.ReadOnlyNeverChanges | internal/service/gates/check.go:28-48 | Under read-only mode no run of write commands changes the cluster, break-glass or not |
| Destructive.NoApplyNoChange | internal/service/core/destructive.go:68-114 | A run in which nothing was applied leaves the cluster as it was |
| Bulk.Validate | internal/service/message/produce.go:117-133 | An item passes exactly when all its texts encode and its partition exists |
| Bulk.BulkValidate | internal/service/core/bulk.go:41-53 | The failed list is exactly the invalid indices, ascending |
| Bulk.BulkProduce.ExecuteItem | internal/service/message/produce.go:81-97 | The closure sends the item's request and stores the answer under its own index |
| Bulk.BulkProduce.BulkExecute | internal/service/core/bulk.go:60-73 | Every item is sent once, in order; results and summary are per item; the closure's counter is the loop index |
| Bulk.BulkProduce.Produce | internal/service/core/bulk.go:84-109 | Any invalid item: nothing is sent or audited. A refused ATTEMPT: nothing is sent. Otherwise every item is sent and reported for itself, total = succeeded + failed, ATTEMPT then RESULT written |
| Bulk.BulkProduce.Reports | internal/service/message/produce.go:156-168 | A succeeded item's partition, offset and time are those captured under its index |
| Bulk.FailuresAreCounted | internal/service/core/bulk.go:60-73 | The failed count is the number of items reported failed |
| Bulk.SuccessesAreTheProducers | internal/service/message/produce.go:156-168 | Each report is about the producer's answer to the same item: its place and millisecond when stored, its own error when not |
| BulkOnFake.ReportedIsStored | internal/service/message/produce.go:81-168 | On the cluster, with others writing in between, every item validated against a topic with partitions succeeds, and the partition, offset and millisecond reported for it are where its own bytes are stored at the end |
| BulkOnFake.PlacesAreDistinct | internal/kafka/fake/producer.go:20-44 | No two succeeded items share a partition and offset, and offsets ascend with the items |
| PlanToken.DropDuplicates | internal/service/core/plantoken.go:22-29 | The in-place dedup over one backing array leaves the strictly ascending enumeration of the array's elements |
| PlanToken.Token | internal/service/core/plantoken.go:17-34 | The hash of the command and the ascending enumeration of the target set, one per line |
| PlanToken.TokensIffTargets | internal/service/core/plantoken.go:17-34 | Under a hash without collisions two tokens of a command are equal exactly when their target sets are |
| PlanToken.CanonicalIffSameTargets | internal/service/core/plantoken.go:22-32 | Two canonical texts are equal exactly when command and target set are, for newline-free parts (no target and one empty target look alike) |
| PlanToken.HashDefinition | internal/service/cluster/destructive.go:325-338 | The hashed text lists every config in ascending key order, whatever order the map was walked in |
| PlanToken.DefinitionTextIsUnique | internal/service/cluster/destructive.go:325-338 | A definition has one text |
| PlanToken.DefinitionTextIsInjective | internal/service/cluster/destructive.go:325-338 | Equal texts mean equal definitions, for keys without '=' and newline and values without newline |
| PlanToken.ReassignTargetIsInjective | internal/service/cluster/destructive.go:108-110 | Target strings are equal exactly for equal topic and partition, slashes in topic names included |
| PlanToken.ChangedTargetsNeverApply | internal/service/core/destructive.go:98-100 | A token confirmed for another target set never reaches ATTEMPT or apply, and leaves the cluster alone |
| Reassign.PlanReassign | internal/service/cluster/destructive.go:134-147 | The moves in topic and partition order, under a token over their partitions |
| Reassign.PlanCancelReassignments | internal/service/cluster/destructive.go:151-166 | One replica-less move per partition, in order, under the same kind of token |
| Reassign.PlanElect | internal/service/cluster/destructive.go:239-252 | The partitions in order, under the same kind of token |
| Reassign.TokenFixesPartitionsOnly | internal/service/cluster/destructive.go:134-166 | Two C9 tokens are equal exactly when the partition sets are, whatever the replicas and the kind of call |
| BulkDelete.ResolveTargets | internal/service/topic/delete.go:88-121 | The strictly ascending enumeration of the topics meant by the pattern, internal ones included, or by the list; refused exactly when neither is given |
| BulkDelete.PlanBulkDelete | internal/service/topic/delete.go:125-131 | Those topics under the token of their set |
| BulkDelete.ApplyBulkDelete | internal/service/topic/delete.go:136-154 | In one call exactly the existing topics of the plan go, the failed items are exactly the missing ones, and the summary counts them |
| BulkDelete.TokenFixesTargets | internal/service/topic/delete.go:125-131 | Two plans carry the same token exactly when they delete the same topics |
| Reconcile.PlanImport | internal/service/cluster/destructive.go:348-414 | Each desired topic under its verdict against the cluster, each list in name order, differing configs exactly and in order, user topics nobody desires as deletions, and the token |
| Reconcile.Diff | internal/service/cluster/destructive.go:376-393 | Exactly the keys whose value differs, ascending, from what is to what is wanted; none exactly when the listing matches |
| Reconcile.ApplyImport | internal/service/cluster/destructive.go:438-489 | Every create, then every alter, then every delete or skip, each failure failing only itself; one item per entry in order, and an exact summary |
| Reconcile.Export | internal/service/cluster/inspect.go:167-211 | The matching user topics, ascending by name, with counts cut to 32 and 16 bits and exactly the dynamic configs |
| ReconcileSafety.PlanSplitsDesired | internal/service/cluster/destructive.go:365-395 | Every plan splits the desired topics exactly into create, alter and unchanged |
| ReconcileSafety.DesiredIsRealised | internal/service/cluster/destructive.go:438-489 | After an import every desired topic that clashes with no internal one exists as desired, and one that existed keeps its log |
| ReconcileSafety.OthersAreUntouched | internal/service/cluster/destructive.go:462-486 | Internal topics and undesired topics are unchanged, save that the latter go when deletion is allowed |
| ReconcileSafety.ImportConverges | internal/service/cluster/destructive.go:348-489 | Planning again finds nothing to alter, nothing to create exactly when no desired name is an internal topic's (then everything desired is unchanged), and the same deletions, or none when deletion was allowed |
| ReconcileSafety.ClashNeverConverges | internal/service/cluster/destructive.go:442-454 | Wishing for a user topic of an internal topic's name fails with AlreadyExists, changes nothing, and is planned again |
| ReconcileSafety.OnlyClashesFail | internal/service/cluster/destructive.go:438-489 | One item per plan entry; the only failures are creations that clash with an internal topic; deletions are skipped exactly when not allowed |
| ReconcileSafety.ItemsAre | internal/service/cluster/destructive.go:438-489 | The items in plan order, each naming its topic and how it went, AlreadyExists for a clash |
| ReconcileSafety.SummaryIs | internal/service/cluster/destructive.go:438-489 | The total counts every entry attempted, skipped deletions aside; as many failed as creations clash |
| ReconcileSafety.TokenDependsOnDesired | internal/service/cluster/destructive.go:405-413 | The token is a function of the desired topics alone |
| ReconcileSafety.TokenTellsDesiredApart | internal/service/cluster/destructive.go:405-413 | Two import tokens are equal exactly when the desired definitions are the same set |
| ExportImport.ExportThenImportIsNoop | internal/service/cluster/inspect.go:167-211 | Importing an export where it came from creates and alters nothing, and its deletions are exactly the user topics the pattern left out |
| ExportImport.ExportTravels | internal/service/cluster/destructive.go:348-489 | An unfiltered export imported into a cluster without user topics exports the same again, exactly when no exported name is an internal topic's there; partition counts within 32 bits are kept |
| ExportImport.ExportsAsDesiredIff | internal/service/cluster/destructive.go:376-393 | A definition imported over an existing topic exports as it was given exactly when the counts agree, every override there is wanted, and every wanted value that compares equal is an override already |
| ExportImport.ExportReturnsDesiredIff | internal/service/cluster/destructive.go:348-489 | An import followed by an unfiltered export returns the desired definitions exactly when none clashes, no undesired user topic is left, and each exports as it was given |
| ExportImport.OverridesNotSettled | internal/service/cluster/destructive.go:376-393 | An empty value never set, a wanted value that is the default, and an override nobody wants |
| GroupOffsets.PlanReset | internal/service/group/reset.go:63-117 | Refused, and how, exactly as the checks say; otherwise the moves of exactly the scope, in order, each from the committed offset to the new one |
| GroupOffsets.ResolveScope | internal/service/group/reset.go:125-160 | Exactly the explicit partitions, else every partition of the named topics, else everything committed; refused exactly when a topic is missing or nothing is given |
| GroupOffsets.TargetsForTopic | internal/service/group/reset.go:167-191 | The mode's new offset of every partition of the topic, or why there is none |
| GroupOffsets.ApplyMoves | internal/service/group/reset.go:195-204 | Commits the plan's values, or nothing when the group is active |
| GroupOffsets.PlanCloneOffsets | internal/service/group/destructive.go:170-222 | Refused exactly for an active target or a missing source; otherwise the source's commits on the scope, each partition once in topic and partition order, with what the target has now |
| GroupOffsets.ResolveOffsetDetails | internal/service/group/service.go:155-188 | Every committed partition once, in order, with end and lag, and their sum; NotFound exactly when a topic is missing |
| GroupSafety.ResetIsExact | internal/service/group/reset.go:63-204 | Plan then apply commits the new offset on every partition in scope and leaves every other commit of every group alone |
| GroupSafety.ResetLandsAsAsked | internal/service/group/reset.go:167-191 | On existing partitions: earliest at begin, latest at the end, offset at the offset, timestamp at the first record at or after the time, with everything below older, or the end; an explicit map is committed as given |
| GroupSafety.ResetScopeIs | internal/service/group/reset.go:125-160 | A plan moves the explicit partitions, else every partition of the named topics, else everything committed, and shows each commit it replaces, zero without one |
| GroupSafety.ResetRefusals | internal/service/group/reset.go:63-160 | Which resets are refused and how, case by case |
| GroupSafety.ResetLandsInLogIff | internal/service/group/reset.go:63-191 | A reset by mode commits an offset within the partition's log exactly when the partition exists and, for a fixed offset, that offset lies within the log; a partition its topic no longer has gets zero |
| GroupSafety.VanishedGoesToZero | internal/service/group/reset.go:98-111 | A reset to latest of a vanished partition is not refused and commits zero |
| GroupSafety.CloneIsExact | internal/service/group/destructive.go:170-235 | Plan then apply copies the source's commits on the scope and changes nothing else |
| GroupSafety.CloneScopeIs | internal/service/group/destructive.go:170-222 | A plan copies the source's commits, of all topics or the named ones, and shows what each replaces |
| GroupSafety.LagAfterReset | internal/service/group/reset.go:167-191 | After latest the lag of an existing partition in scope is 0, after earliest it is end - begin, after a fixed offset within the log end - offset |
| GroupSafety.LagIsUnread | internal/service/group/service.go:155-188 | A partition's lag is the number of records at or after its commit, once that is at or past begin |
| GroupSafety.LatestLeavesNoLag | internal/service/group/service.go:155-188 | A reset to latest that names no topics leaves total lag 0 |
| GroupSafety.LagSumIsZeroIff | internal/service/group/service.go:178-186 | Total lag is at least each partition's and zero exactly when all are |
| GroupSafety.CloneEqualsSource | internal/service/group/destructive.go:170-235 | On the scope target and source stand at the same offset with the same lag, and the source has not moved |
| WindowCount.CountInWindow | internal/service/topic/count.go:31-68 | Per partition the clamped window and its count, and their sum; NotFound for an unknown topic |
| WindowCount.CountStands | internal/service/topic/count.go:52-65 | Each partition's count runs from the first record at or after one time to the first at or after the other, or stands still when the window is backwards |
| WindowCount.CountsAdd | internal/service/topic/count.go:52-65 | On any log the counts of adjacent windows add up to the joined window's |
| WindowCount.TotalsAdd | internal/service/topic/count.go:52-65 | And so do the totals |
| WindowCount.TotalNeverNegative | internal/service/topic/count.go:58-61 | No window counts less than nothing, and a backwards one counts nothing |
| WindowCount.TotalIsNumber | internal/service/topic/count.go:31-68 | With timestamps that do not decrease per partition the total is the number of records with from <= timestamp < to |
| TopicRecords.PlanDeleteRecords | internal/service/topic/delete.go:205-241 | Refused exactly for a missing topic, an unknown partition or a target past the end; otherwise one detail per target, ascending |
| TopicRecords.PlanPurge | internal/service/topic/delete.go:245-259 | The plan that cuts every partition at its end, never refused for an existing topic |
| TopicRecords.ApplyDeleteRecords | internal/service/topic/delete.go:263-278 | Cuts the named partitions as planned and leaves the others alone, or changes nothing |
| TopicRecords.PlanThenApplyCuts | internal/service/topic/delete.go:205-278 | Planned and applied, exactly the partitions asked for begin at their targets with their records from there on |
| TopicRecords.PlanCutsAsAsked | internal/service/topic/delete.go:205-278 | Plan then apply cuts exactly where it was asked to |
| TopicRecords.AffectedIsExact | internal/service/topic/delete.go:228-234 | The approximate count is exactly the number of records removed, targets below begin included |
| TopicRecords.PurgeEmptiesEverything | internal/service/topic/delete.go:245-278 | A purge leaves every partition empty with begin at its former end |
| ByteSize.UnmarshalText | internal/config/config.go:204-228 | The first matching suffix in order decides the unit; the trimmed rest is parsed, a negative number is an error, and the product wraps in 64 bits |
| ByteSize.UnitTextMeans | internal/config/config.go:204-228 | A printed number with any suffix parses to that number of that unit exactly when the product fits 64 bits, and to the wrapped product otherwise |
| ByteSize.NegativeIsRefused | internal/config/config.go:222-225 | A negative number is refused with any unit |
| ByteSize.BareNumberMeans | internal/config/config.go:214-226 | A number without a unit is a number of bytes |
| ByteSize.PaddingIsIgnored | internal/config/config.go:205 | Space around a text does not change what it parses to |
| ByteSize.UnitsAreBinary | internal/config/config.go:206-213 | K, M and G are powers of 1024 in either spelling |
| ByteSize.SizeRoundTrip | internal/config/config.go:204-245 | For every 0 <= n < 2^63 parsing the printed size gives exactly n |
| ByteSize.OverflowIsNotRefused | internal/config/config.go:226 | A product from 2^63 on comes out negative instead of being refused |
| ByteSize.LargestUnit | internal/config/config.go:234-245 | The printed unit divides the size, and no larger one that fits does |
| Decimal.IntRoundTrip | internal/config/config.go:222 | Every 64-bit integer parses back from its decimal text |
| Decimal.ParsesIff | internal/config/config.go:222 | Exactly digits with at most one sign, within 64 bits, parse |

## Left out

- HTTP handlers, DTOs, OpenAPI, start-up, telemetry, the slog and Kafka sinks: wire shapes and I/O.
- `internal/kafka/franz`: adapters over a client library; the in-memory cluster stands for the port's behaviour.
- Regular expressions, JSONPath, JSON and UTF-8 validity, SHA-256: arbitrary functions here.
- Elapsed time, event timestamps and ids, contexts, mutexes: calls happen one after another.
- Port faults inside plans and the fake's fault injection: a plan that fails on a port error changes nothing; faults of the consumer, the producer and the sinks are modelled.
- 64-bit wrap-around of offsets, counters and sums: unbounded integers, except where the text above speaks of products and conversions.
- References and slices inside the fake's topics: values in the class's maps, so aliasing between them is not expressed.
- ReplayRun.ReplayRequest: does not cover requests whose windows lie wholly below a begin offset, because their scan waits for records that never come (`MessageWindow.RangeBelowBeginNeverEnds`).
- Some walks over Go maps that only build a set: written as comprehensions; the others are loops over keys in arbitrary order.
- Broker configs, SCRAM users, quotas, quorum, log directories, throughput, list and describe calls: finite or one-branch facts.
- Applying reassignments and elections, member removal, group and single-topic deletion: one port call each.
- Drift of partition counts and replication factors between a desired and an existing topic: the code ignores it.
- Partial acceptance by the producer of a batch call that fails as a whole: the port reports one error and no results.

/** Replaying the latest records: exactly when its cursor can be retried from
    (internal/service/message/replay.go, internal/scan/runner.go). */
module ReplayLatest {
  import opened Kafka
  import opened Logs
  import opened Codec
  import opened Scan
  import opened ScanSafety
  import opened ScanResume
  import opened ScanBounds
  import opened ScanEnd
  import opened FakeCluster
  import opened FakeFeed
  import opened FakeEnd
  import opened MessageWindow
  import opened Replay
  import opened ReplaySafety
  import ScanLatest
  import ScanRunner

  /** A scan and the produce that follows share the request's context: when it ended the
      scan, it refuses the produce. */
  ghost predicate Timely(t: Try) {
    Ran(t.job, t.polls).1 == Finished(false, MaxTime) ==> t.produced.CallFailed?
  }

  /** In every attempt of this job over the source at rest, whatever the consumer does
      within its logs and whatever the producer answers, the cursor stands over
      acknowledged records. */
  ghost predicate AlwaysSafe(job: Job, source: Topic) {
    forall t: Try :: t.job == job && IsTry(t, SourceLogs(job, source)) && Timely(t) ==>
      CursorIsAcknowledged(t, SourceLogs(job, source))
  }

  ghost function SourceLogs(job: Job, source: Topic): map<int, seq<Record>> {
    LogsOf(source, job.spec.partitions.Keys)
  }

  /** What a replay scans with: no filter, and no bound but the limit. */
  ghost predicate ReplayJob(job: Job) {
    job.matcher == MATCH_ALL && job.spec.maxScanned <= 0 && job.spec.maxBytes <= 0
  }

  ghost predicate InTimeOrder(source: Topic) {
    forall p :: 0 <= p < |source.partitions| ==> ByTime(source.partitions[p].records)
  }

  ghost function NewerThan(ts: int): Record -> nat {
    (r: Record) => if r.timestamp > ts then 1 else 0
  }

  /** A window that holds two records or more is overtaken when at least limit records of
      all windows are strictly newer than its newest: nothing of it is ever sent. */
  ghost predicate Overtaken(source: Topic, windows: map<int, Window>, limit: int, p: int)
    requires p in windows
  {
    var held := Held(source, p, windows[p]);
    |held| > 1 ==> 0 < limit <= Amount(source, windows, NewerThan(held[|held| - 1].timestamp))
  }

  ghost predicate AllOvertaken(source: Topic, windows: map<int, Window>, limit: int) {
    forall p :: p in windows ==> Overtaken(source, windows, limit, p)
  }

  // ---- What a latest attempt has read ----

  // Unless its context ended first, a latest replay has read all its windows.
  lemma ReadsItAll(t: Try, logs: map<int, seq<Record>>)
    requires IsTry(t, logs) && Timely(t) && t.produced.Results? && ReplayJob(t.job) && t.job.spec.latest
    requires t.job.spec.partitions != map[]
    ensures Ran(t.job, t.polls).1 == Finished(true, NotStopped)
    ensures Exhausted(t.job.spec, Ran(t.job, t.polls).0.cursor)
  {
    hide Ran, Faithful, LogsFor, OutcomeOf, WithinBounds, Emits;
    BoundsAreReal(t.job, t.polls);
  }

  // What was read to the end was there to be read.
  lemma ReadIsReachable(job: Job, source: Topic, polls: seq<PollAnswer>)
    requires WellFormed(job.spec.topic, source)
    requires LogsFor(job.spec.partitions, SourceLogs(job, source))
    requires Faithful(job.spec.partitions, SourceLogs(job, source), DeliveredBy(polls))
    requires Exhausted(job.spec, Ran(job, polls).0.cursor)
    ensures AllReachable(source, job.spec.partitions)
  {
    hide Ran, Faithful, LowerBound, ForPartition;
    var logs := SourceLogs(job, source);
    CursorsStayInRange(job, polls);
    forall p | p in job.spec.partitions ensures Reachable(source, p, job.spec.partitions[p]) {
      var n := ScanReadUpTo(job, logs, polls, p);
      var w, k := job.spec.partitions[p], LowerBound(logs[p], Ran(job, polls).0.cursor[p]);
      if w.start < w.end {
        assert logs[p][k - 1].offset == w.end - 1;
      }
    }
  }

  // What a latest attempt that read it all holds of each window, and of all of them.
  lemma BufferIsHeld(t: Try, source: Topic)
    requires IsTry(t, SourceLogs(t.job, source)) && WellFormed(t.job.spec.topic, source)
    requires Exhausted(t.job.spec, Ran(t.job, t.polls).0.cursor)
    ensures
      var s, windows := Ran(t.job, t.polls).0, t.job.spec.partitions;
      && (forall p :: p in windows ==> ForPartition(s.evaluated, p) == Held(source, p, windows[p]))
      && forall weight :: Weigh(weight, s.evaluated) == Amount(source, windows, weight)
  {
    hide Ran, Faithful, Runs, OutcomeOf, LogsFor, WellFormed, Held, Between, ForPartition, Emissions, Amount, Exhausted;
    var s, windows := Ran(t.job, t.polls).0, t.job.spec.partitions;
    forall p | p in windows ensures ForPartition(s.evaluated, p) == Held(source, p, windows[p]) {
      ScanLatest.WindowIsRead(t.job, SourceLogs(t.job, source), t.polls, p);
      BetweenIsHeld(t.job.spec.topic, source, p, windows[p].start, windows[p].end);
    }
    ScanLatest.BufferIsEvaluated(t.job, t.polls);
    forall weight ensures Weigh(weight, s.evaluated) == Amount(source, windows, weight) {
      HeldWeighs(source, windows, s.evaluated, weight);
    }
  }

  // Counting newer items is weighing newer records.
  lemma {:induction false} NewerItems(job: Job, rs: seq<Record>, ts: int)
    requires job.matcher == MATCH_ALL
    ensures ScanLatest.CountFrom(Emissions(job, rs), ts + 1) == Weigh(NewerThan(ts), rs)
  {
    hide DecodeBytes, DecodeHeaders;
    if rs != [] {
      var n := |rs| - 1;
      NewerItems(job, rs[..n], ts);
      ScanLatest.CountJoins(Emissions(job, rs[..n]), Emission(job, rs[n]), ts + 1);
      var item := Decode(job.validity, rs[n], job.spec.format);
      assert [item][..0] == [] && ScanLatest.CountFrom([item], ts + 1) == NewerThan(ts)(rs[n]);
    }
  }

  // ---- Overtaken windows are safe ----

  // Every item of an attempt decodes a record it evaluated.
  lemma ItemComesFrom(t: Try, logs: map<int, seq<Record>>, i: nat) returns (e: Record)
    requires IsTry(t, logs) && i < |t.answer.items|
    ensures e in Ran(t.job, t.polls).0.evaluated && IsItemOf(t.answer.items[i], e)
    ensures t.answer.items[i].timestamp == e.timestamp
  {
    hide Ran, Faithful, LogsFor, OutcomeOf, Emissions, DecodeBytes, DecodeHeaders;
    var s, item := Ran(t.job, t.polls).0, t.answer.items[i];
    ScanLatest.BufferIsEvaluated(t.job, t.polls);
    if t.job.spec.latest {
      var sorted := ScanLatest.SortedBehind(t.job, t.polls, t.answer);
      assert sorted[i] == item && item in multiset(sorted);
      assert item in s.emitted;
    }
    e := EmissionComesFrom(t.job, s.evaluated, item);
  }

  // Where enough records are newer, every item is.
  lemma ItemsAreNewer(t: Try, source: Topic, ts: int, i: nat)
    requires IsTry(t, SourceLogs(t.job, source)) && WellFormed(t.job.spec.topic, source)
    requires t.job.matcher == MATCH_ALL && t.job.spec.latest && t.job.spec.partitions != map[]
    requires Exhausted(t.job.spec, Ran(t.job, t.polls).0.cursor)
    requires 0 < t.job.spec.maxMessages <= Amount(source, t.job.spec.partitions, NewerThan(ts))
    requires i < |t.answer.items|
    ensures t.answer.items[i].timestamp > ts
  {
    hide Ran, Faithful, Runs, OutcomeOf, LogsFor, WellFormed, Emissions, Amount, Exhausted, Weigh;
    hide ScanLatest.CountFrom;
    var s := Ran(t.job, t.polls).0;
    TryRuns(t, SourceLogs(t.job, source));
    var sorted := ScanLatest.SortedBehind(t.job, t.polls, t.answer);
    BufferIsHeld(t, source);
    ScanLatest.BufferIsEvaluated(t.job, t.polls);
    NewerItems(t.job, s.evaluated, ts);
    ScanLatest.FirstOnesAreNew(s.emitted, sorted, |t.answer.items|, ts + 1);
    assert t.answer.items[i] == sorted[..|t.answer.items|][i];
  }

  lemma TryRuns(t: Try, logs: map<int, seq<Record>>)
    requires IsTry(t, logs)
    ensures t.answer.Answered? && Runs(t.job, None, t.polls, t.answer)
  {
  }

  lemma HeldByTime(source: Topic, p: int, w: Window, r: Record)
    requires InTimeOrder(source) && r in Held(source, p, w)
    ensures r.timestamp <= Held(source, p, w)[|Held(source, p, w)| - 1].timestamp
  {
    var held := Held(source, p, w);
    var i :| 0 <= i < |held| && held[i] == r;
  }

  // An item of p means that at most one record of p's window could have been passed.
  lemma PassedIsItem(t: Try, source: Topic, i: nat, p: int, r: Record)
    requires IsTry(t, SourceLogs(t.job, source)) && WellFormed(t.job.spec.topic, source) && InTimeOrder(source)
    requires t.job.matcher == MATCH_ALL && t.job.spec.latest && p in t.job.spec.partitions
    requires Exhausted(t.job.spec, Ran(t.job, t.polls).0.cursor)
    requires Overtaken(source, t.job.spec.partitions, t.job.spec.maxMessages, p)
    requires i < |t.answer.items| && t.answer.items[i].partition == p
    requires r in SourceLogs(t.job, source)[p]
    requires t.job.spec.partitions[p].start <= r.offset <= t.answer.items[i].offset
    ensures IsItemOf(t.answer.items[i], r)
  {
    hide Ran, Runs, Faithful, OutcomeOf, Emissions, Between, LogsFor, WellFormed, Held, Amount, Exhausted, ForPartition;
    var s, w, log := Ran(t.job, t.polls).0, t.job.spec.partitions[p], SourceLogs(t.job, source)[p];
    var held := Held(source, p, w);
    var e := ItemComesFrom(t, SourceLogs(t.job, source), i);
    BufferIsHeld(t, source);
    InForPartition(s.evaluated, p, e);
    BetweenIsHeld(t.job.spec.topic, source, p, w.start, w.end);
    BetweenIsTheWindow(log, w.start, w.end, e);
    BetweenIsTheWindow(log, w.start, w.end, r);
    if |held| > 1 {
      HeldByTime(source, p, w, e);
      ItemsAreNewer(t, source, held[|held| - 1].timestamp, i);
      assert false;
    }
    OnlyOneFits(log, w.start, w.end, e, r);
  }

  lemma OnlyOneFits(log: seq<Record>, lo: int, hi: int, a: Record, b: Record)
    requires Ascending(log) && |Between(log, lo, hi)| <= 1
    requires a in Between(log, lo, hi) && b in Between(log, lo, hi)
    ensures a == b
  {
  }

  lemma OvertakenIsSafe(t: Try, source: Topic)
    requires IsTry(t, SourceLogs(t.job, source)) && Timely(t) && ReplayJob(t.job) && t.job.spec.latest
    requires WellFormed(t.job.spec.topic, source) && InTimeOrder(source)
    requires AllReachable(source, t.job.spec.partitions) ==>
      AllOvertaken(source, t.job.spec.partitions, t.job.spec.maxMessages)
    ensures CursorIsAcknowledged(t, SourceLogs(t.job, source))
  {
    hide Ran, Runs, Faithful, OutcomeOf, Overtaken, CursorAfter, LogsFor, WellFormed, InTimeOrder, Exhausted;
    var n, windows, logs := AccountedFor(t), t.job.spec.partitions, SourceLogs(t.job, source);
    CursorIsAccounted(t, logs);
    forall p, r | Below(windows, logs, t.outcome.cursor, p, r) ensures Acknowledged(t, r) {
      CursorAfterIs(t.answer.items[..n], Starts(windows), p);
      var i :| 0 <= i < n && t.answer.items[..n][i].partition == p
        && t.outcome.cursor[p] == t.answer.items[i].offset + 1;
      assert t.produced.results[i].Produced?;
      ReadsItAll(t, logs);
      ReadIsReachable(t.job, source, t.polls);
      PassedIsItem(t, source, i, p, r);
    }
  }

  // ---- A window that is not overtaken ----

  lemma NoBoundStops(job: Job, rs: seq<Record>)
    requires ReplayJob(job) && job.spec.latest
    ensures Batch(job, Start(job.spec), rs) == (Fold(job, rs), NotStopped)
  {
    hide Batch, Fold, Step;
    var n := BatchStopsAt(job, [], rs);
    assert Fold(job, []) == Start(job.spec) by { StartIsFold(job); }
    assert [] + rs[..n] == rs[..n] && rs[..|rs|] == rs;
  }

  /** What makes a latest attempt: the records one poll delivers, which exhaust the
      windows, and the newest-first order its drain settles on. */
  ghost predicate Scripted(job: Job, logs: map<int, seq<Record>>, rs: seq<Record>, sorted: seq<Item>) {
    && ReplayJob(job) && job.spec.latest
    && LogsFor(job.spec.partitions, logs) && Faithful(job.spec.partitions, logs, rs)
    && Fold(job, rs).evaluated != [] && Exhausted(job.spec, Fold(job, rs).cursor)
    && NewestFirst(sorted) && multiset(sorted) == multiset(Emissions(job, Fold(job, rs).evaluated))
  }

  lemma ScriptedRan(job: Job, rs: seq<Record>)
    requires ReplayJob(job) && job.spec.latest
    requires Fold(job, rs).evaluated != [] && Exhausted(job.spec, Fold(job, rs).cursor)
    ensures Ran(job, [Delivered(rs, false)]) == (Fold(job, rs), Finished(true, NotStopped))
    ensures job.spec.partitions != map[]
  {
    hide Batch, Fold, Exhausted;
    SomethingToRead(job, rs);
    NoBoundStops(job, rs);
    assert [Delivered(rs, false)][1..] == [];
    assert Loop(job, Fold(job, rs), []) == (Fold(job, rs), Finished(true, NotStopped));
  }

  // A scan that evaluates something had something to read.
  lemma SomethingToRead(job: Job, rs: seq<Record>)
    requires Fold(job, rs).evaluated != []
    ensures !Exhausted(job.spec, Start(job.spec).cursor) && job.spec.partitions != map[]
  {
    hide Step;
    assert [] + rs == rs;
    if Exhausted(job.spec, Start(job.spec).cursor) {
      StartIsFold(job);
      ExhaustedFoldStays(job, [], rs);
    }
  }

  lemma ScriptedIsTry(job: Job, logs: map<int, seq<Record>>, rs: seq<Record>, sorted: seq<Item>, preserve: bool,
                      produced: ProduceAnswer) returns (t: Try)
    requires Scripted(job, logs, rs, sorted)
    requires produced.Results? ==> |produced.results| == |CutToLimit(job.spec, sorted)|
    ensures IsTry(t, logs) && Timely(t) && t.job == job && t.produced == produced && t.preserve == preserve
    ensures t.answer.items == CutToLimit(job.spec, sorted) && t.polls == [Delivered(rs, false)]
  {
    hide Fold, Ran, Faithful, LogsFor, OutcomeOf, Emissions, Exhausted;
    var items := CutToLimit(job.spec, sorted);
    ScriptedRan(job, rs);
    OnePollDelivers(rs);
    FoldEmits(job, rs);
    assert Emits(job.spec, Fold(job, rs).emitted, items);
    var answer := Answered(FinalStats(job.spec, Fold(job, rs), |items|, true, NotStopped), items);
    t := Try(job, [Delivered(rs, false)], answer, preserve, produced,
             OutcomeOf(job.spec.partitions, preserve, answer, produced));
  }

  lemma FoldEmits(job: Job, rs: seq<Record>)
    ensures Fold(job, rs).emitted == Emissions(job, Fold(job, rs).evaluated)
  {
    hide Fold, Emissions, TotalSize, SkippedCount, Remaining, EvaluatedInWindow, CursorsInRange;
    FoldIsConsistent(job, rs);
  }

  // ---- The order that sends a window's newest as early as may be ----

  lemma {:induction false} SomeSorting(items: seq<Item>) returns (sorted: seq<Item>)
    ensures NewestFirst(sorted) && multiset(sorted) == multiset(items)
  {
    sorted := [];
    if items != [] {
      var n := |items| - 1;
      assert items == items[..n] + [items[n]];
      var rest := SomeSorting(items[..n]);
      ScanRunner.InsertKeepsOrder(rest, items[n]);
      sorted := ScanRunner.InsertByTime(rest, items[n]);
    }
  }

  // Inserted in front of its equals, an item stands right behind the strictly newer ones.
  lemma {:induction false} InsertedAt(sorted: seq<Item>, item: Item) returns (k: nat)
    requires NewestFirst(sorted)
    ensures
      var r := ScanRunner.InsertByTime(sorted, item);
      k < |r| && r[k] == item && forall i :: 0 <= i < k ==> r[i].timestamp > item.timestamp
  {
    if sorted == [] || sorted[0].timestamp <= item.timestamp {
      k := 0;
    } else {
      var j := InsertedAt(sorted[1..], item);
      k := j + 1;
    }
  }

  lemma OthersOf(buffer: seq<Item>, j: nat)
    requires j < |buffer|
    ensures multiset(buffer[..j] + buffer[j + 1..]) + multiset{buffer[j]} == multiset(buffer)
  {
    assert buffer == buffer[..j] + [buffer[j]] + buffer[j + 1..];
  }

  /** Among the newest-first orders there is one with a given item right behind the
      strictly newer ones. */
  lemma RightBehindNewer(buffer: seq<Item>, item: Item) returns (sorted: seq<Item>, k: nat)
    requires item in buffer
    ensures NewestFirst(sorted) && multiset(sorted) == multiset(buffer)
    ensures k < |sorted| && sorted[k] == item && forall i :: 0 <= i < k ==> sorted[i].timestamp > item.timestamp
    ensures k <= ScanLatest.CountFrom(buffer, item.timestamp + 1)
  {
    hide ScanLatest.CountFrom;
    var j :| 0 <= j < |buffer| && buffer[j] == item;
    OthersOf(buffer, j);
    var rest := SomeSorting(buffer[..j] + buffer[j + 1..]);
    ScanRunner.InsertKeepsOrder(rest, item);
    k := InsertedAt(rest, item);
    sorted := ScanRunner.InsertByTime(rest, item);
    NewerPrefixCounts(sorted, k, item.timestamp + 1);
    ScanLatest.CountIgnoresOrder(sorted, buffer, item.timestamp + 1);
  }

  lemma NewerPrefixCounts(sorted: seq<Item>, k: nat, ts: int)
    requires k <= |sorted| && forall i :: 0 <= i < k ==> sorted[i].timestamp >= ts
    ensures k <= ScanLatest.CountFrom(sorted, ts)
  {
    hide ScanLatest.CountFrom;
    assert sorted == sorted[..k] + sorted[k..];
    ScanLatest.CountJoins(sorted[..k], sorted[k..], ts);
    ScanLatest.CountAll(sorted[..k], ts);
  }

  // ---- An unsafe attempt ----

  /** The producer takes the first k of n requests and refuses the rest. */
  ghost function FirstOnes(n: nat, k: nat): (results: seq<ProduceResult>)
    requires k <= n
    ensures |results| == n && forall i :: 0 <= i < n ==> (results[i].Produced? <==> i < k)
  {
    seq(n, i => if i < k then Produced(0, 0, 0) else Rejected(Broker))
  }

  lemma FirstRejectedIs(results: seq<ProduceResult>, k: nat)
    requires k <= |results| && forall i :: 0 <= i < |results| ==> (results[i].Produced? <==> i < k)
    ensures FirstRejected(results) == k
  {
    var first := FirstRejected(results);
    assert first < |results| ==> results[first].Rejected? && !results[first].Produced?;
    assert k < |results| ==> !results[k].Produced?;
  }

  // Items of an attempt decode some records, one each.
  lemma {:induction false} DecodedFrom(job: Job, all: seq<Record>, items: seq<Item>) returns (rs: seq<Record>)
    requires forall item :: item in items ==> item in Emissions(job, all)
    ensures |rs| == |items| && forall i :: 0 <= i < |rs| ==> items[i] == Decode(job.validity, rs[i], job.spec.format)
  {
    hide Emissions, Decode;
    rs := [];
    if items != [] {
      var n := |items| - 1;
      var init := DecodedFrom(job, all, items[..n]);
      var r := EmissionComesFrom(job, all, items[n]);
      rs := init + [r];
    }
  }

  lemma ItemsEncode(job: Job, all: seq<Record>, sorted: seq<Item>, items: seq<Item>, preserve: bool)
    requires multiset(sorted) == multiset(Emissions(job, all)) && items <= sorted
    ensures RequestsOf(items, preserve).Ok?
  {
    hide Emissions, Decode, RequestsOf;
    forall item | item in items ensures item in Emissions(job, all) {
      assert item in multiset(sorted);
    }
    var rs := DecodedFrom(job, all, items);
    RequestsAreVerbatim(job, rs, items, preserve);
  }

  // Whatever a try emits can be encoded again.
  lemma TryEncodes(t: Try, logs: map<int, seq<Record>>)
    requires IsTry(t, logs)
    ensures RequestsOf(t.answer.items, t.preserve).Ok?
  {
    hide Ran, Faithful, LogsFor, OutcomeOf, Emissions, RequestsOf, Decode;
    if t.job.spec.partitions == map[] {
      NothingEncodes(t.preserve);
    } else if t.job.spec.latest {
      var sorted := ScanLatest.SortedBehind(t.job, t.polls, t.answer);
      ScanLatest.BufferIsEvaluated(t.job, t.polls);
      ItemsEncode(t.job, Ran(t.job, t.polls).0.evaluated, sorted, t.answer.items, t.preserve);
    } else {
      var requests := RequestsOfTry(t, logs);
    }
  }

  lemma NothingEncodes(preserve: bool)
    ensures RequestsOf([], preserve) == Ok([])
  {
  }

  /** What an attempt reports: success exactly when there was nothing to send or everything
      was taken; otherwise the producer's own failure with nothing copied, or its first
      refusal with what was taken before it. */
  lemma AttemptReports(t: Try, logs: map<int, seq<Record>>)
    requires IsTry(t, logs)
    ensures t.outcome.Done? || t.outcome.Stopped?
    ensures t.outcome.Done? <==>
      || t.answer.items == []
      || (t.produced.Results? && forall i :: 0 <= i < |t.produced.results| ==> t.produced.results[i].Produced?)
    ensures t.outcome.Done? ==>
      t.outcome.reachedEnd == t.answer.stats.reachedEnd && t.outcome.copied == |t.answer.items|
    ensures t.outcome.Stopped? && t.produced.CallFailed? ==>
      t.outcome.error == t.produced.error && t.outcome.copied == 0
    ensures t.outcome.Stopped? && t.produced.Results? ==>
      && t.outcome.copied < |t.produced.results|
      && t.produced.results[t.outcome.copied] == ProduceResult.Rejected(t.outcome.error)
      && forall i :: 0 <= i < t.outcome.copied ==> t.produced.results[i].Produced?
  {
    hide Runs, Faithful, LogsFor, RequestsOf, CursorAfter;
    TryEncodes(t, logs);
  }

  // The report of an attempt of which just the first k items were taken.
  lemma FirstOnesReport(t: Try, logs: map<int, seq<Record>>, k: nat)
    requires IsTry(t, logs) && k < |t.answer.items| && t.produced == Results(FirstOnes(|t.answer.items|, k + 1))
    requires RequestsOf(t.answer.items, t.preserve).Ok? && t.answer.items[k].partition in t.job.spec.partitions
    ensures HasCursor(t.outcome) && t.answer.items[k].partition in t.outcome.cursor
    ensures t.outcome.cursor[t.answer.items[k].partition] == t.answer.items[k].offset + 1
    ensures forall r :: Acknowledged(t, r) ==> exists i :: 0 <= i <= k && IsItemOf(t.answer.items[i], r)
  {
    hide Runs, Faithful, LogsFor, OutcomeOf, RequestsOf;
    FirstRejectedIs(t.produced.results, k + 1);
    CursorIsAccounted(t, logs);
    assert t.answer.items[..k + 1][..k] == t.answer.items[..k];
  }

  // The oldest of a window is none of the items that come no later than its newest.
  lemma OldestIsNotSent(t: Try, source: Topic, p: int, k: nat)
    requires IsTry(t, SourceLogs(t.job, source)) && WellFormed(t.job.spec.topic, source) && InTimeOrder(source)
    requires p in t.job.spec.partitions && Exhausted(t.job.spec, Ran(t.job, t.polls).0.cursor)
    requires |Held(source, p, t.job.spec.partitions[p])| > 1 && k < |t.answer.items|
    requires
      var held := Held(source, p, t.job.spec.partitions[p]);
      && IsItemOf(t.answer.items[k], held[|held| - 1])
      && forall i :: 0 <= i < k ==> t.answer.items[i].timestamp > held[|held| - 1].timestamp
    ensures
      var oldest := Held(source, p, t.job.spec.partitions[p])[0];
      forall i :: 0 <= i <= k ==> !IsItemOf(t.answer.items[i], oldest)
  {
    hide Ran, Runs, Faithful, OutcomeOf, LogsFor, WellFormed, InTimeOrder, Held, Exhausted, ForPartition, Amount;
    var w := t.job.spec.partitions[p];
    var held := Held(source, p, w);
    HeldAscends(t.job.spec.topic, source, p, w);
    forall i | 0 <= i < k && IsItemOf(t.answer.items[i], held[0]) ensures false {
      var e := ItemComesFrom(t, SourceLogs(t.job, source), i);
      BufferIsHeld(t, source);
      InForPartition(Ran(t.job, t.polls).0.evaluated, p, e);
      HeldByTime(source, p, w, e);
    }
  }

  lemma HeldAscends(name: string, source: Topic, p: int, w: Window)
    requires WellFormed(name, source)
    ensures
      var held := Held(source, p, w);
      && (forall i, j :: 0 <= i < j < |held| ==> held[i].offset < held[j].offset)
      && forall r :: r in held ==> r.partition == p && r in source.partitions[p].records && w.start <= r.offset < w.end
  {
    if 0 <= p < |source.partitions| {
      assert Contiguous(name, p, source.partitions[p]);
    }
  }

  // The drain's order: a window's newest right behind the strictly newer ones, within the limit.
  lemma EarliestOrder(job: Job, source: Topic, out: seq<Record>, after: map<int, int>, newest: Record)
      returns (sorted: seq<Item>, k: nat)
    requires ReplayJob(job) && job.spec.latest && WellFormed(job.spec.topic, source)
    requires AllReachable(source, job.spec.partitions) && IsPoll(source, Starts(job.spec.partitions), out, after)
    requires newest in Fold(job, out).evaluated
    requires !(0 < job.spec.maxMessages <= Amount(source, job.spec.partitions, NewerThan(newest.timestamp)))
    ensures NewestFirst(sorted) && multiset(sorted) == multiset(Emissions(job, Fold(job, out).evaluated))
    ensures k < |CutToLimit(job.spec, sorted)| && CutToLimit(job.spec, sorted) <= sorted
    ensures IsItemOf(sorted[k], newest) && forall i :: 0 <= i < k ==> sorted[i].timestamp > newest.timestamp
  {
    hide Fold, IsPoll, WellFormed, AllReachable, Amount, Emissions, DecodeBytes, DecodeHeaders, Weigh, NewestFirst;
    hide ScanLatest.CountFrom;
    var all := Fold(job, out).evaluated;
    ScanLatest.MatchAllEmitsAll(job, all);
    var j :| 0 <= j < |all| && all[j] == newest;
    var item := Emissions(job, all)[j];
    sorted, k := RightBehindNewer(Emissions(job, all), item);
    NewerItems(job, all, newest.timestamp);
    AmountIsEvaluated(job, source, out, after, NewerThan(newest.timestamp));
  }

  // The attempt: one poll that reads it all, and a window's newest right behind the newer ones.
  lemma EarliestTry(job: Job, source: Topic, p: int) returns (t: Try, k: nat)
    requires ReplayJob(job) && job.spec.latest && WellFormed(job.spec.topic, source)
    requires AllReachable(source, job.spec.partitions) && p in job.spec.partitions
    requires |Held(source, p, job.spec.partitions[p])| > 1
    requires !Overtaken(source, job.spec.partitions, job.spec.maxMessages, p)
    ensures t.job == job && IsTry(t, SourceLogs(job, source)) && Timely(t)
    ensures Exhausted(job.spec, Ran(job, t.polls).0.cursor)
    ensures k < |t.answer.items| && t.produced == Results(FirstOnes(|t.answer.items|, k + 1))
    ensures RequestsOf(t.answer.items, t.preserve).Ok?
    ensures
      var held := Held(source, p, job.spec.partitions[p]);
      && IsItemOf(t.answer.items[k], held[|held| - 1])
      && forall i :: 0 <= i < k ==> t.answer.items[i].timestamp > held[|held| - 1].timestamp
  {
    hide Fold, Ran, IsPoll, IsTry, Timely, WellFormed, AllReachable, Held, Amount, Emissions, NewestFirst, CutToLimit;
    hide RequestsOf, Faithful, LogsFor, Exhausted;
    var held := Held(source, p, job.spec.partitions[p]);
    var newest := held[|held| - 1];
    var out, after := SomePoll(source, Starts(job.spec.partitions));
    PollIsWhole(job, source, out, after, p, newest);
    var sorted;
    sorted, k := EarliestOrder(job, source, out, after, newest);
    var items := CutToLimit(job.spec, sorted);
    t := ScriptedIsTry(job, SourceLogs(job, source), out, sorted, false, Results(FirstOnes(|items|, k + 1)));
    ItemsEncode(job, Fold(job, out).evaluated, sorted, items, false);
    ScriptedRan(job, out);
  }

  lemma PollIsWhole(job: Job, source: Topic, out: seq<Record>, after: map<int, int>, p: int, r: Record)
    requires WellFormed(job.spec.topic, source) && AllReachable(source, job.spec.partitions)
    requires IsPoll(source, Starts(job.spec.partitions), out, after)
    requires p in job.spec.partitions && r in Held(source, p, job.spec.partitions[p])
    ensures r in Fold(job, out).evaluated && Exhausted(job.spec, Fold(job, out).cursor)
    ensures LogsFor(job.spec.partitions, SourceLogs(job, source))
    ensures Faithful(job.spec.partitions, SourceLogs(job, source), out)
  {
    hide Fold, IsPoll, WellFormed, Reachable, Held, Faithful, LogsFor, ForPartition, Batch, Ran;
    RunIsOnePoll(job, source, out, after);
    EvaluatesWhatIsHeld(job, source, out, after, p);
    InForPartition(Fold(job, out).evaluated, p, r);
    FakeIsFaithful(job.spec.topic, source, job.spec.partitions, [Delivered(out, false)]);
    OnePollDelivers(out);
  }

  /** A window of two or more that is not overtaken has an attempt whose cursor passes a
      record nobody has a copy of: its newest is taken, its oldest is not sent by then. */
  lemma NotOvertakenIsUnsafe(job: Job, source: Topic, p: int) returns (t: Try)
    requires ReplayJob(job) && job.spec.latest && WellFormed(job.spec.topic, source) && InTimeOrder(source)
    requires AllReachable(source, job.spec.partitions) && p in job.spec.partitions
    requires !Overtaken(source, job.spec.partitions, job.spec.maxMessages, p)
    ensures t.job == job && IsTry(t, SourceLogs(job, source)) && Timely(t)
    ensures !CursorIsAcknowledged(t, SourceLogs(job, source))
  {
    NotOvertakenIsWide(source, job.spec.partitions, job.spec.maxMessages, p);
    hide IsTry, Timely, WellFormed, InTimeOrder, AllReachable, Held, Overtaken, Acknowledged, RequestsOf, Exhausted;
    hide Ran;
    var k;
    t, k := EarliestTry(job, source, p);
    var w := job.spec.partitions[p];
    var held := Held(source, p, w);
    HeldAscends(job.spec.topic, source, p, w);
    assert held[|held| - 1] in held && held[0] in held;
    FirstOnesReport(t, SourceLogs(job, source), k);
    OldestIsNotSent(t, source, p, k);
    assert Below(job.spec.partitions, SourceLogs(job, source), t.outcome.cursor, p, held[0]);
  }

  lemma NotOvertakenIsWide(source: Topic, windows: map<int, Window>, limit: int, p: int)
    requires p in windows && !Overtaken(source, windows, limit, p)
    ensures |Held(source, p, windows[p])| > 1
  {
  }

  lemma TryIsAnswered(t: Try, logs: map<int, seq<Record>>)
    requires IsTry(t, logs)
    ensures t.answer.Answered?
  {
  }

  /** At-least-once retrying, per job: over a source in time order the cursor is safe in
      every attempt exactly when the source is not latest, or a window can never be read
      to its end, or every window of two or more records is overtaken. */
  lemma AlwaysSafeIff(job: Job, source: Topic)
    requires ReplayJob(job) && WellFormed(job.spec.topic, source) && InTimeOrder(source)
    ensures AlwaysSafe(job, source) <==>
      || !job.spec.latest || !AllReachable(source, job.spec.partitions)
      || AllOvertaken(source, job.spec.partitions, job.spec.maxMessages)
  {
    hide Runs, Faithful, LogsFor, OutcomeOf, CursorIsAcknowledged, Timely, Overtaken, AllReachable, ReplayJob;
    hide InTimeOrder, WellFormed;
    if !job.spec.latest || !AllReachable(source, job.spec.partitions)
       || AllOvertaken(source, job.spec.partitions, job.spec.maxMessages) {
      forall t: Try | t.job == job && IsTry(t, SourceLogs(job, source)) && Timely(t)
        ensures CursorIsAcknowledged(t, SourceLogs(job, source))
      {
        if job.spec.latest {
          OvertakenIsSafe(t, source);
        } else {
          CursorIsSafe(t, SourceLogs(job, source));
        }
      }
    } else {
      var p :| p in job.spec.partitions && !Overtaken(source, job.spec.partitions, job.spec.maxMessages, p);
      var t := NotOvertakenIsUnsafe(job, source, p);
    }
  }

  // ---- Success does not help ----

  // Two partitions of two records each, the second newer, and a limit of two.
  ghost predicate TwoByTwo(job: Job, a: seq<Record>, b: seq<Record>) {
    && ReplayJob(job) && job.spec.latest && job.spec.maxMessages == 2
    && job.spec.partitions == map[0 := Window(0, 2), 1 := Window(0, 2)]
    && IsPair(a, 0) && IsPair(b, 1)
  }

  ghost predicate IsPair(rs: seq<Record>, p: int) {
    && |rs| == 2 && rs[0].partition == rs[1].partition == p
    && rs[0].offset == 0 && rs[1].offset == 1 && rs[0].timestamp == 1 && rs[1].timestamp == 2
  }

  lemma PairIsRead(job: Job, seen: seq<Record>, rs: seq<Record>, p: int)
    requires IsPair(rs, p) && p in job.spec.partitions && job.spec.partitions[p] == Window(0, 2)
    requires p in Fold(job, seen).cursor && Fold(job, seen).cursor[p] == 0
    ensures Fold(job, seen + rs).evaluated == Fold(job, seen).evaluated + rs
    ensures Fold(job, seen + rs).cursor == Fold(job, seen).cursor[p := 2]
  {
    hide Fold, Decode;
    assert seen + rs == seen + [rs[0]] + [rs[1]];
    FoldSnoc(job, seen, rs[0]);
    FoldSnoc(job, seen + [rs[0]], rs[1]);
    assert Fold(job, seen + rs).evaluated == Fold(job, seen).evaluated + [rs[0]] + [rs[1]];
  }

  lemma PairsAreRead(job: Job, a: seq<Record>, b: seq<Record>)
    requires TwoByTwo(job, a, b)
    ensures Fold(job, a + b).evaluated == a + b && Exhausted(job.spec, Fold(job, a + b).cursor)
  {
    hide Fold;
    StartIsFold(job);
    PairIsRead(job, [], a, 0);
    assert [] + a == a;
    PairIsRead(job, a, b, 1);
  }

  lemma PairsAreFaithful(job: Job, a: seq<Record>, b: seq<Record>)
    requires TwoByTwo(job, a, b)
    ensures LogsFor(job.spec.partitions, map[0 := a, 1 := b])
    ensures Faithful(job.spec.partitions, map[0 := a, 1 := b], a + b)
  {
    hide ForPartition, LowerBound;
    ForPartitionJoins(a, b, 0);
    ForPartitionJoins(a, b, 1);
    ForPartitionOfOther(b, 0);
    ForPartitionOfOther(a, 1);
    PairIsInOrder(a, 0);
    PairIsInOrder(b, 1);
  }

  lemma PairIsInOrder(rs: seq<Record>, p: int)
    requires IsPair(rs, p)
    ensures Ascending(rs) && ForPartition(rs, p) == rs == rs[LowerBound(rs, 0)..]
  {
    ForPartitionOfOne(rs, p);
    LowerBoundAtHead(rs, 0);
  }

  // The newest two, one of each partition, then the older two.
  lemma NewestOfPairs(job: Job, a: seq<Record>, b: seq<Record>) returns (sorted: seq<Item>)
    requires TwoByTwo(job, a, b)
    ensures NewestFirst(sorted) && multiset(sorted) == multiset(Emissions(job, a + b))
    ensures |sorted| == 4 && sorted[0] == Decode(job.validity, a[1], job.spec.format)
    ensures sorted[1] == Decode(job.validity, b[1], job.spec.format)
  {
    hide DecodeBytes, DecodeHeaders, Emissions;
    var items := Emissions(job, a + b);
    ScanLatest.MatchAllEmitsAll(job, a + b);
    assert items == [items[0], items[1], items[2], items[3]];
    sorted := [items[1], items[3], items[0], items[2]];
  }

  /** A latest replay of two records a partition with a limit of two: every request is
      accepted, the replay succeeds, and both cursors have passed a record never sent. */
  lemma SuccessPassesUnsent() returns (t: Try, logs: map<int, seq<Record>>)
    ensures IsTry(t, logs) && Timely(t) && t.job.spec.latest
    ensures t.outcome.Done? && t.outcome.copied == t.job.spec.maxMessages == 2
    ensures t.produced.Results? && forall i :: 0 <= i < |t.produced.results| ==> t.produced.results[i].Produced?
    ensures forall p :: p in t.job.spec.partitions ==>
      exists r :: Below(t.job.spec.partitions, logs, t.outcome.cursor, p, r) && !Acknowledged(t, r)
  {
    hide IsTry, Timely, Acknowledged, IsPair;
    var job, a, b := SomeTwoByTwo();
    t, logs := PairsReplay(job, a, b);
    PairsArePassed(job, a, b, t.outcome.cursor);
  }

  lemma SomeTwoByTwo() returns (job: Job, a: seq<Record>, b: seq<Record>)
    ensures TwoByTwo(job, a, b)
  {
    a := [Record("src", 0, 0, 1, [], [], []), Record("src", 0, 1, 2, [], [], [])];
    b := [Record("src", 1, 0, 1, [], [], []), Record("src", 1, 1, 2, [], [], [])];
    job := Job(Spec("src", map[0 := Window(0, 2), 1 := Window(0, 2)], true, 2, 0, 0, ""),
               Validity(bytes => true, bytes => true), MATCH_ALL);
  }

  lemma PairsArePassed(job: Job, a: seq<Record>, b: seq<Record>, cursor: map<int, int>)
    requires TwoByTwo(job, a, b) && cursor == map[0 := 2, 1 := 2]
    ensures job.spec.partitions.Keys == {0, 1}
    ensures Below(job.spec.partitions, map[0 := a, 1 := b], cursor, 0, a[0])
    ensures Below(job.spec.partitions, map[0 := a, 1 := b], cursor, 1, b[0])
  {
  }

  lemma PairsReplay(job: Job, a: seq<Record>, b: seq<Record>) returns (t: Try, logs: map<int, seq<Record>>)
    requires TwoByTwo(job, a, b)
    ensures IsTry(t, logs) && Timely(t) && t.job == job && logs == map[0 := a, 1 := b]
    ensures t.outcome.Done? && t.outcome.copied == 2 && t.outcome.cursor == map[0 := 2, 1 := 2]
    ensures t.produced == Results([Produced(0, 0, 2), Produced(1, 0, 2)])
    ensures !Acknowledged(t, a[0]) && !Acknowledged(t, b[0])
  {
    hide IsTry, Timely, Fold, Faithful, Emissions, DecodeBytes, DecodeHeaders;
    logs := map[0 := a, 1 := b];
    PairsAreRead(job, a, b);
    PairsAreFaithful(job, a, b);
    var sorted := NewestOfPairs(job, a, b);
    var results := [Produced(0, 0, 2), Produced(1, 0, 2)];
    t := ScriptedIsTry(job, logs, a + b, sorted, false, Results(results));
    TryIsAnswered(t, logs);
    var sent := [a[1], b[1]];
    assert t.answer.items == sorted[..2];
    RequestsAreVerbatim(job, sent, t.answer.items, false);
    BothAccounted(t, logs, results);
  }

  lemma BothAccounted(t: Try, logs: map<int, seq<Record>>, results: seq<ProduceResult>)
    requires IsTry(t, logs) && t.produced == Results(results) && |results| == 2 && |t.answer.items| == 2
    requires results[0].Produced? && results[1].Produced? && RequestsOf(t.answer.items, t.preserve).Ok?
    requires t.answer.items[0].partition == 0 && t.answer.items[1].partition == 1
    requires t.answer.items[0].offset == t.answer.items[1].offset == 1
    requires t.job.spec.partitions == map[0 := Window(0, 2), 1 := Window(0, 2)]
    ensures t.outcome.Done? && t.outcome.copied == 2 && t.outcome.cursor == map[0 := 2, 1 := 2]
  {
    hide Runs, Faithful, LogsFor, RequestsOf;
    NoneRejected(results);
    var items := t.answer.items;
    assert items[..1][..0] == [] && items[..1][0] == items[0];
    var start := Starts(t.job.spec.partitions);
    assert CursorAfter(items[..1], start) == CursorAfter([], start)[0 := 2];
  }

  // ---- Read off the plan ----

  /** A plan over a source topic, as planning makes it. */
  ghost predicate PlannedOver(plan: Plan, source: Topic, partitions: seq<int>, from: From, to: Option<From>) {
    && plan.latest == from.Latest?
    && plan.windows == map p | p in Selected(source, partitions) :: WindowOf(source, p, from, to, plan.limit)
  }

  // A latest window lies within the log: it can be read, and its width is what it holds.
  lemma LatestWindowWidth(name: string, t: Topic, p: int, to: Option<From>, limit: int)
    requires WellFormed(name, t)
    ensures
      var w := WindowOf(t, p, Latest, to, limit);
      && Reachable(t, p, w) && |Held(t, p, w)| == (if w.start < w.end then w.end - w.start else 0)
      && (|Held(t, p, w)| > 1 ==> limit > 1)
  {
  }

  /** Retrying from the cursor is safe exactly when the plan is not latest or every window
      of two records or more is overtaken: at least limit records of all windows are
      strictly newer than its newest. */
  lemma PlanIsSafeIff(plan: Plan, validity: Validity, source: Topic, partitions: seq<int>, from: From, to: Option<From>)
    requires WellFormed(plan.sourceTopic, source) && InTimeOrder(source)
    requires PlannedOver(plan, source, partitions, from, to)
    ensures AlwaysSafe(JobOf(plan, validity), source) <==>
      !plan.latest || AllOvertaken(source, plan.windows, plan.limit)
  {
    hide AlwaysSafe, WellFormed, InTimeOrder, WindowOf, Reachable, Held, AllOvertaken;
    AlwaysSafeIff(JobOf(plan, validity), source);
    if plan.latest {
      forall p | p in plan.windows ensures Reachable(source, p, plan.windows[p]) {
        LatestWindowWidth(plan.sourceTopic, source, p, to, plan.limit);
      }
    }
  }

  ghost predicate Narrow(windows: map<int, Window>) {
    forall p :: p in windows ==> windows[p].end - windows[p].start <= 1
  }

  /** No window wider than one offset is enough, and with a single partition it is needed. */
  lemma NarrowPlanIsSafe(plan: Plan, validity: Validity, source: Topic, partitions: seq<int>, from: From,
                         to: Option<From>)
    requires WellFormed(plan.sourceTopic, source) && InTimeOrder(source)
    requires PlannedOver(plan, source, partitions, from, to)
    ensures Narrow(plan.windows) ==> AlwaysSafe(JobOf(plan, validity), source)
    ensures |plan.windows| == 1 ==>
      (AlwaysSafe(JobOf(plan, validity), source) <==> !plan.latest || Narrow(plan.windows))
  {
    hide AlwaysSafe, WellFormed, InTimeOrder, WindowOf, Held, Amount;
    PlanIsSafeIff(plan, validity, source, partitions, from, to);
    if plan.latest {
      forall p | p in plan.windows
        ensures |Held(source, p, plan.windows[p])| > 1 <==> plan.windows[p].end - plan.windows[p].start > 1
      {
        LatestWindowWidth(plan.sourceTopic, source, p, to, plan.limit);
      }
      if |plan.windows| == 1 && !Narrow(plan.windows) {
        var p :| p in plan.windows && plan.windows[p].end - plan.windows[p].start > 1;
        NothingElseIsNewer(source, plan.windows, p);
      }
    }
  }

  // Two partitions with one new record each, and a third with two old ones.
  ghost predicate OldPair(job: Job, source: Topic) {
    && ReplayJob(job) && job.spec.latest && job.spec.maxMessages == 2
    && job.spec.partitions == map[0 := Window(0, 1), 1 := Window(0, 1), 2 := Window(0, 2)]
    && WellFormed(job.spec.topic, source) && InTimeOrder(source) && |source.partitions| == 3
    && (forall p :: 0 <= p < 3 ==> source.partitions[p].begin == 0)
    && |source.partitions[0].records| == |source.partitions[1].records| == 1 && |source.partitions[2].records| == 2
    && source.partitions[0].records[0].timestamp == source.partitions[1].records[0].timestamp == 10
    && source.partitions[2].records[1].timestamp == 2
  }

  /** A limit of two sends only the new ones: every attempt is safe, though one window is
      two offsets wide. */
  lemma WideButSafe() returns (job: Job, source: Topic)
    ensures OldPair(job, source) && AlwaysSafe(job, source) && !Narrow(job.spec.partitions)
  {
    job, source := SomeOldPair();
    hide AlwaysSafe;
    PairIsOvertaken(job, source);
    AlwaysSafeIff(job, source);
    assert job.spec.partitions[2].end == 2;
  }

  lemma SomeOldPair() returns (job: Job, source: Topic)
    ensures OldPair(job, source)
  {
    job := Job(Spec("src", map[0 := Window(0, 1), 1 := Window(0, 1), 2 := Window(0, 2)], true, 2, 0, 0, ""),
               Validity(bytes => true, bytes => true), MATCH_ALL);
    var new0, new1 := Record("src", 0, 0, 10, [], [], []), Record("src", 1, 0, 10, [], [], []);
    var old0, old1 := Record("src", 2, 0, 1, [], [], []), Record("src", 2, 1, 2, [], [], []);
    source := Topic(false, 1, [Partition(0, [new0]), Partition(0, [new1]), Partition(0, [old0, old1])], []);
  }

  lemma PairIsOvertaken(job: Job, source: Topic)
    requires OldPair(job, source)
    ensures AllOvertaken(source, job.spec.partitions, job.spec.maxMessages)
  {
    hide Amount, Weigh, WellFormed, InTimeOrder;
    var windows := job.spec.partitions;
    var held := Held(source, 2, windows[2]);
    assert held == source.partitions[2].records;
    TwoAreNewer(source, windows);
    forall p | p in windows ensures Overtaken(source, windows, 2, p) {
    }
  }

  lemma TwoAreNewer(source: Topic, windows: map<int, Window>)
    requires windows == map[0 := Window(0, 1), 1 := Window(0, 1), 2 := Window(0, 2)] && |source.partitions| == 3
    requires forall p :: 0 <= p < 2 ==>
      && source.partitions[p].begin == 0 && |source.partitions[p].records| == 1
      && source.partitions[p].records[0].timestamp == 10
    ensures Amount(source, windows, NewerThan(2)) >= 2
  {
    hide Total;
    var weights := map p | p in windows :: Weigh(NewerThan(2), Held(source, p, windows[p]));
    OneIsNewer(source, 0);
    OneIsNewer(source, 1);
    TotalWithout(weights, 0);
    TotalWithout(weights - {0}, 1);
    TotalNonNegative(weights - {0} - {1});
  }

  lemma OneIsNewer(source: Topic, p: int)
    requires 0 <= p < |source.partitions|
    requires source.partitions[p].begin == 0 && |source.partitions[p].records| == 1
    requires source.partitions[p].records[0].timestamp == 10
    ensures Weigh(NewerThan(2), Held(source, p, Window(0, 1))) == 1
  {
    var held := Held(source, p, Window(0, 1));
    assert held == source.partitions[p].records && held[..0] == [];
  }

  // In a window of its own nothing is newer than the newest.
  lemma NothingElseIsNewer(source: Topic, windows: map<int, Window>, p: int)
    requires InTimeOrder(source) && p in windows && |windows| == 1 && Held(source, p, windows[p]) != []
    ensures
      var held := Held(source, p, windows[p]);
      Amount(source, windows, NewerThan(held[|held| - 1].timestamp)) == 0
  {
    hide Held, InTimeOrder;
    var held := Held(source, p, windows[p]);
    var ts := held[|held| - 1].timestamp;
    var weights := map q | q in windows :: Weigh(NewerThan(ts), Held(source, q, windows[q]));
    forall r | r in held ensures r.timestamp <= ts {
      HeldByTime(source, p, windows[p], r);
    }
    NoneIsNewer(held, ts);
    OnlyKey(windows, p);
    TotalZero(weights);
  }

  lemma OnlyKey(windows: map<int, Window>, p: int)
    requires p in windows && |windows| == 1
    ensures forall q :: q in windows ==> q == p
  {
    assert |windows.Keys - {p}| == 0;
  }

  lemma {:induction false} NoneIsNewer(rs: seq<Record>, ts: int)
    requires forall r :: r in rs ==> r.timestamp <= ts
    ensures Weigh(NewerThan(ts), rs) == 0
  {
    if rs != [] {
      NoneIsNewer(rs[..|rs| - 1], ts);
    }
  }
}

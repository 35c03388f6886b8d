/** What a replay promises: at-least-once delivery across retries, an exact account of
    a success, and verbatim copies (section 9.3 of the functional specification). */
module ReplaySafety {
  import opened Kafka
  import opened Logs
  import opened Codec
  import opened Scan
  import opened ScanSafety
  import opened ScanResume
  import opened FakeCluster
  import opened Replay
  import ScanBounds
  import ScanLatest

  /** One replay attempt: the scan, what the producer would answer, and the report. */
  datatype Try = Try(job: Job, polls: seq<PollAnswer>, answer: Answer, preserve: bool, produced: ProduceAnswer,
                     outcome: Outcome)

  ghost predicate IsTry(t: Try, logs: map<int, seq<Record>>) {
    && t.job.matcher == MATCH_ALL
    && LogsFor(t.job.spec.partitions, logs) && Faithful(t.job.spec.partitions, logs, DeliveredBy(t.polls))
    && Runs(t.job, None, t.polls, t.answer) && t.answer.Answered?
    && (t.produced.Results? ==> |t.produced.results| == |t.answer.items|)
    && t.outcome == OutcomeOf(t.job.spec.partitions, t.preserve, t.answer, t.produced)
  }

  /** The producer acknowledged a copy of the record. */
  ghost predicate Acknowledged(t: Try, r: Record) {
    && t.answer.Answered? && t.produced.Results? && |t.produced.results| == |t.answer.items|
    && exists i :: 0 <= i < |t.answer.items| && IsItemOf(t.answer.items[i], r) && t.produced.results[i].Produced?
  }

  ghost predicate IsItemOf(item: Item, r: Record) {
    item.partition == r.partition && item.offset == r.offset
  }

  ghost predicate HasCursor(outcome: Outcome) { outcome.Done? || outcome.Stopped? }

  ghost predicate Below(windows: map<int, Window>, logs: map<int, seq<Record>>, cursor: map<int, int>, p: int,
                        r: Record)
  {
    p in windows && p in logs && p in cursor && r in logs[p] && windows[p].start <= r.offset < cursor[p]
  }

  /** Every record of the windows below the reported cursor was acknowledged. */
  ghost predicate CursorIsAcknowledged(t: Try, logs: map<int, seq<Record>>)
    requires LogsFor(t.job.spec.partitions, logs)
  {
    HasCursor(t.outcome) ==>
      forall p, r :: Below(t.job.spec.partitions, logs, t.outcome.cursor, p, r) ==> Acknowledged(t, r)
  }

  // The cursor after some items stands just behind the last of its partition.
  lemma {:induction false} CursorAfterIs(items: seq<Item>, start: map<int, int>, p: int)
    requires p in start
    ensures p in CursorAfter(items, start)
    ensures
      || CursorAfter(items, start)[p] == start[p]
      || exists i :: 0 <= i < |items| && items[i].partition == p && CursorAfter(items, start)[p] == items[i].offset + 1
  {
    if items != [] {
      var init := items[..|items| - 1];
      CursorAfterIs(init, start, p);
      if items[|items| - 1].partition != p && CursorAfter(init, start)[p] != start[p] {
        var i :| 0 <= i < |init| && init[i].partition == p && CursorAfter(init, start)[p] == init[i].offset + 1;
        assert items[i] == init[i];
      }
    }
  }

  // ---- Items in log order ----

  ghost predicate Among(items: seq<Item>, r: Record) {
    exists j :: 0 <= j < |items| && IsItemOf(items[j], r)
  }

  /** An item's offset is in its window, and every earlier record of its partition's
      window is an earlier item. */
  ghost predicate ItemInOrder(items: seq<Item>, i: nat, windows: map<int, Window>, logs: map<int, seq<Record>>)
    requires i < |items|
  {
    var p := items[i].partition;
    && p in windows && p in logs && windows[p].start <= items[i].offset
    && forall r :: r in logs[p] && windows[p].start <= r.offset <= items[i].offset ==> Among(items[..i + 1], r)
  }

  ghost predicate InLogOrder(items: seq<Item>, windows: map<int, Window>, logs: map<int, seq<Record>>) {
    forall i :: 0 <= i < |items| ==> ItemInOrder(items, i, windows, logs)
  }

  /** A non-latest replay emits what it evaluated, in that order. */
  lemma ItemsAreEvaluated(t: Try, logs: map<int, seq<Record>>)
    requires IsTry(t, logs) && !t.job.spec.latest
    ensures
      var s := Ran(t.job, t.polls).0;
      && t.answer.items == Emissions(t.job, s.evaluated) && t.answer.stats.continuation == s.cursor
  {
    hide Emissions, Faithful, LogsFor, OutcomeOf;
    ScanLatest.BufferIsEvaluated(t.job, t.polls);
  }

  lemma ItemsInLogOrder(t: Try, logs: map<int, seq<Record>>)
    requires IsTry(t, logs) && !t.job.spec.latest
    ensures InLogOrder(t.answer.items, t.job.spec.partitions, logs)
  {
    hide Ran, Emissions, Runs, OutcomeOf, ItemInOrder, Faithful;
    var rs := Ran(t.job, t.polls).0.evaluated;
    ItemsAreEvaluated(t, logs);
    ScanLatest.MatchAllEmitsAll(t.job, rs);
    forall i | 0 <= i < |t.answer.items| ensures ItemInOrder(t.answer.items, i, t.job.spec.partitions, logs) {
      EvaluatedInLogOrder(t.job, logs, t.polls, i);
      DecodedInOrder(t.job, rs, t.answer.items, i, logs);
    }
  }

  // A record and everything before it in its window, evaluated no later.
  ghost predicate RecordInOrder(rs: seq<Record>, i: nat, windows: map<int, Window>, logs: map<int, seq<Record>>)
    requires i < |rs|
  {
    var p := rs[i].partition;
    && p in windows && p in logs && windows[p].start <= rs[i].offset
    && forall r :: r in logs[p] && windows[p].start <= r.offset <= rs[i].offset ==> r in rs[..i + 1]
  }

  lemma DecodedInOrder(job: Job, rs: seq<Record>, items: seq<Item>, i: nat, logs: map<int, seq<Record>>)
    requires |items| == |rs| && i < |rs| && RecordInOrder(rs, i, job.spec.partitions, logs)
    requires forall j :: 0 <= j < |rs| ==> items[j] == Decode(job.validity, rs[j], job.spec.format)
    ensures ItemInOrder(items, i, job.spec.partitions, logs)
  {
    hide DecodeBytes, DecodeHeaders;
    var p := items[i].partition;
    forall r | r in logs[p] && job.spec.partitions[p].start <= r.offset <= items[i].offset
      ensures Among(items[..i + 1], r)
    {
      var j :| 0 <= j < i + 1 && rs[..i + 1][j] == r;
      assert IsItemOf(items[..i + 1][j], r);
    }
  }

  // Offsets ascend per partition, so an earlier record of the log was evaluated earlier.
  lemma EvaluatedInLogOrder(job: Job, logs: map<int, seq<Record>>, polls: seq<PollAnswer>, i: nat)
    requires LogsFor(job.spec.partitions, logs) && Faithful(job.spec.partitions, logs, DeliveredBy(polls))
    requires i < |Ran(job, polls).0.evaluated|
    ensures RecordInOrder(Ran(job, polls).0.evaluated, i, job.spec.partitions, logs)
  {
    hide Ran, Faithful, Emissions, TotalSize, SkippedCount, Remaining, DeliveredBy;
    var s := Ran(job, polls).0;
    SafeAgainstAnyConsumer(job, polls);
    assert s.evaluated[i] in s.evaluated;
    var p := s.evaluated[i].partition;
    ScanReadsTheLog(job, logs, polls, p);
    forall r | r in logs[p] && job.spec.partitions[p].start <= r.offset <= s.evaluated[i].offset
      ensures r in s.evaluated[..i + 1]
    {
      hide Consistent;
      EarlierWasEvaluated(job.spec.partitions, s.cursor, s.evaluated, logs[p], p, i, r);
    }
  }

  lemma EarlierWasEvaluated(windows: map<int, Window>, cursor: map<int, int>, rs: seq<Record>, log: seq<Record>,
                            p: int, i: nat, r: Record)
    requires EvaluatedInWindow(windows, cursor, rs) && i < |rs| && rs[i].partition == p && p in windows && p in cursor
    requires Ascending(log) && (forall other :: other in log ==> other.partition == p)
    requires ForPartition(rs, p) == Between(log, windows[p].start, cursor[p])
    requires r in log && windows[p].start <= r.offset <= rs[i].offset
    ensures r in rs[..i + 1]
  {
    hide Between, ForPartition;
    assert rs[i] in rs;
    BetweenIsTheWindow(log, windows[p].start, cursor[p], r);
    InForPartition(rs, p, r);
    var j :| 0 <= j < |rs| && rs[j] == r;
    assert j <= i;
    assert rs[..i + 1][j] == r;
  }

  // Cursors over items in log order: keys stay, nothing moves below its start, and
  // every window record below the cursor is one of the items.
  lemma {:induction false} CursorOverItems(items: seq<Item>, windows: map<int, Window>, logs: map<int, seq<Record>>)
    requires InLogOrder(items, windows, logs)
    ensures
      var cursor := CursorAfter(items, Starts(windows));
      && cursor.Keys == windows.Keys
      && (forall p :: p in windows ==> windows[p].start <= cursor[p])
      && forall p, r :: Below(windows, logs, cursor, p, r) ==> Among(items, r)
  {
    if items != [] {
      var n := |items| - 1;
      var init, cursor := items[..n], CursorAfter(items, Starts(windows));
      PrefixInLogOrder(items, n, windows, logs);
      CursorOverItems(init, windows, logs);
      assert ItemInOrder(items, n, windows, logs) && items[..n + 1] == items;
      forall p, r | Below(windows, logs, cursor, p, r) ensures Among(items, r) {
        if p != items[n].partition {
          assert Below(windows, logs, CursorAfter(init, Starts(windows)), p, r);
          AmongPrefix(items, n, r);
        }
      }
    }
  }

  lemma AmongPrefix(items: seq<Item>, n: nat, r: Record)
    requires n <= |items| && Among(items[..n], r)
    ensures Among(items, r)
  {
    var j :| 0 <= j < n && IsItemOf(items[..n][j], r);
    assert IsItemOf(items[j], r);
  }

  lemma PrefixInLogOrder(items: seq<Item>, n: nat, windows: map<int, Window>, logs: map<int, seq<Record>>)
    requires InLogOrder(items, windows, logs) && n <= |items|
    ensures InLogOrder(items[..n], windows, logs)
  {
    forall i | 0 <= i < n ensures ItemInOrder(items[..n], i, windows, logs) {
      assert ItemInOrder(items, i, windows, logs);
      assert items[..n][i] == items[i] && items[..n][..i + 1] == items[..i + 1];
    }
  }

  // ---- One attempt ----

  // How many results the report accounts for.
  ghost function AccountedFor(t: Try): nat {
    if t.produced.Results? && t.answer.Answered? && t.answer.items != [] && RequestsOf(t.answer.items, t.preserve).Ok?
    then FirstRejected(t.produced.results) else 0
  }

  lemma CursorIsAccounted(t: Try, logs: map<int, seq<Record>>)
    requires IsTry(t, logs)
    ensures AccountedFor(t) <= |t.answer.items|
    ensures HasCursor(t.outcome)
    ensures t.outcome.cursor == CursorAfter(t.answer.items[..AccountedFor(t)], Starts(t.job.spec.partitions))
    ensures t.outcome.copied == AccountedFor(t)
    ensures forall i :: 0 <= i < AccountedFor(t) ==> t.produced.Results? && t.produced.results[i].Produced?
  {
    hide Runs, Faithful, LogsFor, RequestsOf;
    assert t.answer.items[..|t.answer.items|] == t.answer.items;
  }

  // A failure after some copies is the first refusal.
  lemma StopsAtFirstRefusal(t: Try, logs: map<int, seq<Record>>)
    requires IsTry(t, logs)
    ensures t.outcome.Stopped? && t.outcome.copied > 0 ==>
      && t.produced.Results? && t.outcome.copied < |t.produced.results|
      && t.produced.results[t.outcome.copied] == Rejected(t.outcome.error)
  {
    hide Runs, Faithful, LogsFor, RequestsOf, CursorAfter;
  }

  /** Whatever the producer answers, a non-latest replay's cursor stands only over
      acknowledged records. A failure at index k reports exactly k copied. */
  lemma CursorIsSafe(t: Try, logs: map<int, seq<Record>>)
    requires IsTry(t, logs) && !t.job.spec.latest
    ensures CursorIsAcknowledged(t, logs) && HasCursor(t.outcome)
    ensures t.outcome.cursor.Keys == t.job.spec.partitions.Keys
    ensures forall p :: p in t.job.spec.partitions ==> t.job.spec.partitions[p].start <= t.outcome.cursor[p]
    ensures t.outcome.Stopped? && t.outcome.copied > 0 ==>
      && t.produced.Results? && t.outcome.copied < |t.produced.results|
      && t.produced.results[t.outcome.copied] == Rejected(t.outcome.error)
  {
    hide Runs, Faithful, OutcomeOf, InLogOrder, RequestsOf, FirstRejected, CursorAfter;
    StopsAtFirstRefusal(t, logs);
    var n, windows := AccountedFor(t), t.job.spec.partitions;
    ItemsInLogOrder(t, logs);
    CursorIsAccounted(t, logs);
    PrefixInLogOrder(t.answer.items, n, windows, logs);
    CursorOverItems(t.answer.items[..n], windows, logs);
    forall p, r | Below(windows, logs, t.outcome.cursor, p, r) ensures Acknowledged(t, r) {
      KeptIsAcknowledged(t, n, r);
    }
  }

  lemma KeptIsAcknowledged(t: Try, n: nat, r: Record)
    requires t.answer.Answered? && n <= |t.answer.items| && Among(t.answer.items[..n], r)
    requires n > 0 ==> t.produced.Results? && |t.produced.results| == |t.answer.items|
    requires forall i :: 0 <= i < n ==> t.produced.results[i].Produced?
    ensures Acknowledged(t, r)
  {
    var j :| 0 <= j < n && IsItemOf(t.answer.items[..n][j], r);
    assert IsItemOf(t.answer.items[j], r);
  }

  // ---- Retries ----

  /** The caller's record of how far each partition has come. */
  ghost function ProgressAfter(tries: seq<Try>, first: map<int, int>): map<int, int> {
    if tries == [] then first else
      var last := tries[|tries| - 1];
      ProgressAfter(tries[..|tries| - 1], first) + if HasCursor(last.outcome) then last.outcome.cursor else map[]
  }

  ghost predicate StartsAt(t: Try, progress: map<int, int>) {
    forall p :: p in t.job.spec.partitions ==> p in progress && t.job.spec.partitions[p].start == progress[p]
  }

  /** Each attempt takes some of the partitions, each from where its progress stands. */
  ghost predicate Retries(tries: seq<Try>, first: map<int, int>, logs: map<int, seq<Record>>) {
    forall i :: 0 <= i < |tries| ==>
      IsTry(tries[i], logs) && !tries[i].job.spec.latest && StartsAt(tries[i], ProgressAfter(tries[..i], first))
  }

  ghost predicate AcknowledgedBySome(tries: seq<Try>, r: Record) {
    exists i :: 0 <= i < |tries| && Acknowledged(tries[i], r)
  }

  // One more attempt: nothing goes back, and what the cursor passed was acknowledged.
  ghost predicate Advances(t: Try, progress: map<int, int>, logs: map<int, seq<Record>>) {
    HasCursor(t.outcome) &&
    var after := progress + t.outcome.cursor;
    && after.Keys == progress.Keys
    && (forall p :: p in progress ==> progress[p] <= after[p])
    && forall p, r :: p in progress && p in logs && r in logs[p] && progress[p] <= r.offset < after[p] ==>
         Acknowledged(t, r)
  }

  lemma RetryAdvances(t: Try, progress: map<int, int>, logs: map<int, seq<Record>>)
    requires IsTry(t, logs) && !t.job.spec.latest && StartsAt(t, progress)
    ensures Advances(t, progress, logs)
  {
    hide IsTry, Acknowledged;
    CursorIsSafe(t, logs);
    var after := progress + t.outcome.cursor;
    forall p | p in t.outcome.cursor ensures p in progress {
      assert p in t.job.spec.partitions;
    }
    forall p, r | p in progress && p in logs && r in logs[p] && progress[p] <= r.offset < after[p]
      ensures Acknowledged(t, r)
    {
      assert Below(t.job.spec.partitions, logs, t.outcome.cursor, p, r);
    }
  }

  ghost predicate AllAdvance(tries: seq<Try>, first: map<int, int>, logs: map<int, seq<Record>>) {
    forall i :: 0 <= i < |tries| ==> Advances(tries[i], ProgressAfter(tries[..i], first), logs)
  }

  lemma RetriesAdvance(tries: seq<Try>, first: map<int, int>, logs: map<int, seq<Record>>)
    requires Retries(tries, first, logs)
    ensures AllAdvance(tries, first, logs)
  {
    forall i | 0 <= i < |tries| ensures Advances(tries[i], ProgressAfter(tries[..i], first), logs) {
      RetryAdvances(tries[i], ProgressAfter(tries[..i], first), logs);
    }
  }

  ghost predicate Delivers(tries: seq<Try>, first: map<int, int>, logs: map<int, seq<Record>>) {
    var reached := ProgressAfter(tries, first);
    && reached.Keys == first.Keys
    && (forall p :: p in first ==> first[p] <= reached[p])
    && forall p, r :: p in first && p in logs && r in logs[p] && first[p] <= r.offset < reached[p] ==>
         AcknowledgedBySome(tries, r)
  }

  lemma DeliversOneMore(init: seq<Try>, last: Try, first: map<int, int>, logs: map<int, seq<Record>>)
    requires Delivers(init, first, logs) && Advances(last, ProgressAfter(init, first), logs)
    ensures Delivers(init + [last], first, logs)
  {
    hide Acknowledged, AcknowledgedBySome;
    ProgressOneMore(init, last, first);
    forall p, r | p in first && p in logs && r in logs[p]
      && first[p] <= r.offset < ProgressAfter(init + [last], first)[p]
      ensures AcknowledgedBySome(init + [last], r)
    {
      if r.offset < ProgressAfter(init, first)[p] {
        StillAcknowledged(init, last, r);
      } else {
        NowAcknowledged(init, last, r);
      }
    }
  }

  lemma ProgressOneMore(init: seq<Try>, last: Try, first: map<int, int>)
    ensures ProgressAfter(init + [last], first) ==
      ProgressAfter(init, first) + if HasCursor(last.outcome) then last.outcome.cursor else map[]
  {
    assert (init + [last])[..|init|] == init;
  }

  lemma StillAcknowledged(init: seq<Try>, last: Try, r: Record)
    requires AcknowledgedBySome(init, r)
    ensures AcknowledgedBySome(init + [last], r)
  {
    hide Acknowledged;
    var i :| 0 <= i < |init| && Acknowledged(init[i], r);
    assert (init + [last])[i] == init[i];
  }

  lemma NowAcknowledged(init: seq<Try>, last: Try, r: Record)
    requires Acknowledged(last, r)
    ensures AcknowledgedBySome(init + [last], r)
  {
    hide Acknowledged;
    assert (init + [last])[|init|] == last;
  }

  lemma {:induction false} AdvancesAddUp(tries: seq<Try>, first: map<int, int>, logs: map<int, seq<Record>>)
    requires AllAdvance(tries, first, logs)
    ensures Delivers(tries, first, logs)
  {
    hide Delivers, Advances;
    if tries == [] {
      NothingTried(first, logs);
    } else {
      var n := |tries| - 1;
      AllButLastAdvance(tries, first, logs);
      AdvancesAddUp(tries[..n], first, logs);
      DeliversOneMore(tries[..n], tries[n], first, logs);
      assert tries[..n] + [tries[n]] == tries;
    }
  }

  lemma NothingTried(first: map<int, int>, logs: map<int, seq<Record>>)
    ensures Delivers([], first, logs)
  {
  }

  lemma AllButLastAdvance(tries: seq<Try>, first: map<int, int>, logs: map<int, seq<Record>>)
    requires AllAdvance(tries, first, logs) && tries != []
    ensures AllAdvance(tries[..|tries| - 1], first, logs)
  {
    hide Advances, ProgressAfter;
    var init := tries[..|tries| - 1];
    forall i | 0 <= i < |init| ensures Advances(init[i], ProgressAfter(init[..i], first), logs) {
      assert init[i] == tries[i] && init[..i] == tries[..i];
    }
  }

  /** At least once: however the attempts failed, no progress is lost, and every record
      from a partition's first offset up to its progress was acknowledged by some attempt. */
  lemma AtLeastOnce(tries: seq<Try>, first: map<int, int>, logs: map<int, seq<Record>>)
    requires Retries(tries, first, logs)
    ensures Delivers(tries, first, logs)
  {
    RetriesAdvance(tries, first, logs);
    AdvancesAddUp(tries, first, logs);
  }

  /** Retrying until an attempt succeeds to the end therefore delivers the whole range. */
  lemma RetriedToTheEnd(tries: seq<Try>, last: Try, first: map<int, int>, logs: map<int, seq<Record>>, p: int,
                        r: Record)
    requires Retries(tries + [last], first, logs) && last.outcome.Done? && last.outcome.reachedEnd
    requires p in first && p in last.job.spec.partitions && p in logs
    requires r in logs[p] && first[p] <= r.offset < last.job.spec.partitions[p].end
    ensures AcknowledgedBySome(tries + [last], r)
  {
    AtLeastOnce(tries + [last], first, logs);
    assert (tries + [last])[..|tries|] == tries && (tries + [last])[|tries|] == last;
    SuccessReachesEnd(last, logs, p);
  }

  lemma SuccessReachesEnd(t: Try, logs: map<int, seq<Record>>, p: int)
    requires IsTry(t, logs) && !t.job.spec.latest && t.outcome.Done? && t.outcome.reachedEnd
    requires p in t.job.spec.partitions
    ensures p in t.outcome.cursor && t.job.spec.partitions[p].end <= t.outcome.cursor[p]
  {
    hide Runs, Faithful, LogsFor, OutcomeOf;
    SuccessIsContinuation(t, logs);
    ReachedEndMeansIt(Page(t.job, t.polls, t.answer), logs, p);
  }

  // ---- Success ----

  lemma {:induction false} FoldCursorIsLast(job: Job, rs: seq<Record>)
    requires job.matcher == MATCH_ALL
    ensures Fold(job, rs).cursor == CursorAfter(Fold(job, rs).emitted, Starts(job.spec.partitions))
  {
    if rs != [] {
      FoldCursorIsLast(job, rs[..|rs| - 1]);
      var s := Fold(job, rs[..|rs| - 1]);
      assert (s.emitted + [Decode(job.validity, rs[|rs| - 1], job.spec.format)])[..|s.emitted|] == s.emitted;
    }
  }

  /** A success reports the scan's own continuation and end, and stays within limit. */
  lemma SuccessIsContinuation(t: Try, logs: map<int, seq<Record>>)
    requires IsTry(t, logs) && !t.job.spec.latest && t.outcome.Done?
    ensures t.outcome.cursor == t.answer.stats.continuation
    ensures t.outcome.reachedEnd == t.answer.stats.reachedEnd
    ensures t.outcome.copied == |t.answer.items|
    ensures t.job.spec.maxMessages > 0 ==> t.outcome.copied <= t.job.spec.maxMessages
  {
    hide Ran, Runs, Faithful, LogsFor, Emissions, Fold;
    SuccessAccounts(t, logs);
    ItemsAreEvaluated(t, logs);
    var seen := RanFolds(t.job, t.polls);
    FoldCursorIsLast(t.job, seen);
    ScanLatest.BufferIsEvaluated(t.job, t.polls);
    ScanBounds.BoundsAreReal(t.job, t.polls);
    MatchedIsEmitted(t.job, t.polls);
  }

  lemma SuccessAccounts(t: Try, logs: map<int, seq<Record>>)
    requires IsTry(t, logs) && t.outcome.Done?
    ensures t.outcome.cursor == CursorAfter(t.answer.items, Starts(t.job.spec.partitions))
    ensures t.outcome.reachedEnd == t.answer.stats.reachedEnd && t.outcome.copied == |t.answer.items|
  {
    hide Runs, Faithful, LogsFor, RequestsOf;
  }

  /** In a contiguous log read from begin or later, what was copied is the distance the
      cursor moved. */
  lemma ReadDistance(name: string, p: int, part: Partition, w: Window, n: nat, cursor: int, evaluated: seq<Record>)
    requires Contiguous(name, p, part) && Ascending(part.records) && part.begin <= w.start
    requires ReadUpTo(part.records, w.start, w.end, n, cursor, evaluated)
    ensures |evaluated| == cursor - w.start
  {
    LowerBoundIsPosition(name, p, part, w.start);
    LowerBoundIsPosition(name, p, part, cursor);
  }

  ghost function Moved(windows: map<int, Window>, cursor: map<int, int>): map<int, int>
    requires cursor.Keys == windows.Keys
  {
    map p | p in windows :: cursor[p] - windows[p].start
  }

  lemma EvaluatedIsDistance(job: Job, name: string, logs: map<int, seq<Record>>, part: Partition,
                            polls: seq<PollAnswer>, p: int)
    requires LogsFor(job.spec.partitions, logs) && Faithful(job.spec.partitions, logs, DeliveredBy(polls))
    requires p in job.spec.partitions && logs[p] == part.records
    requires Contiguous(name, p, part) && part.begin <= job.spec.partitions[p].start
    ensures
      var s := Ran(job, polls).0;
      p in s.cursor && |ForPartition(s.evaluated, p)| == s.cursor[p] - job.spec.partitions[p].start
  {
    hide Ran, Faithful, ReadUpTo;
    var s := Ran(job, polls).0;
    var n := ScanReadUpTo(job, logs, polls, p);
    ReadDistance(name, p, part, job.spec.partitions[p], n, s.cursor[p], ForPartition(s.evaluated, p));
  }

  ghost predicate LogsOfParts(name: string, parts: map<int, Partition>, windows: map<int, Window>,
                              logs: map<int, seq<Record>>)
  {
    forall p :: p in windows ==>
      && p in parts && p in logs && logs[p] == parts[p].records
      && Contiguous(name, p, parts[p]) && parts[p].begin <= windows[p].start
  }

  lemma EvaluatedByPartition(job: Job, polls: seq<PollAnswer>)
    ensures
      var s := Ran(job, polls).0;
      s.cursor.Keys == job.spec.partitions.Keys && |s.evaluated| == Total(Sizes(job.spec.partitions.Keys, s.evaluated))
  {
    hide Ran, Emissions, Total, ForPartition;
    CursorsStayInRange(job, polls);
    ScanLatest.BufferIsEvaluated(job, polls);
    SizeByPartition(job.spec.partitions.Keys, Ran(job, polls).0.evaluated);
  }

  lemma EvaluatedTotals(job: Job, name: string, parts: map<int, Partition>, logs: map<int, seq<Record>>,
                        polls: seq<PollAnswer>)
    requires LogsFor(job.spec.partitions, logs) && Faithful(job.spec.partitions, logs, DeliveredBy(polls))
    requires LogsOfParts(name, parts, job.spec.partitions, logs)
    ensures
      var s := Ran(job, polls).0;
      s.cursor.Keys == job.spec.partitions.Keys && |s.evaluated| == Total(Moved(job.spec.partitions, s.cursor))
  {
    hide Ran, Faithful, Total, ForPartition;
    var s, windows := Ran(job, polls).0, job.spec.partitions;
    EvaluatedByPartition(job, polls);
    forall p | p in windows ensures |ForPartition(s.evaluated, p)| == s.cursor[p] - windows[p].start {
      EvaluatedIsDistance(job, name, logs, parts[p], polls, p);
    }
    SizesAreMoves(windows, s.cursor, s.evaluated);
  }

  lemma SizesAreMoves(windows: map<int, Window>, cursor: map<int, int>, rs: seq<Record>)
    requires cursor.Keys == windows.Keys
    requires forall p :: p in windows ==> |ForPartition(rs, p)| == cursor[p] - windows[p].start
    ensures Sizes(windows.Keys, rs) == Moved(windows, cursor)
  {
  }

  /** A success copied exactly as many records as its cursors moved, in all. */
  lemma CopiedIsDistance(t: Try, name: string, parts: map<int, Partition>, logs: map<int, seq<Record>>)
    requires IsTry(t, logs) && !t.job.spec.latest && t.outcome.Done?
    requires LogsOfParts(name, parts, t.job.spec.partitions, logs)
    ensures t.outcome.cursor.Keys == t.job.spec.partitions.Keys
    ensures t.outcome.copied == Total(Moved(t.job.spec.partitions, t.outcome.cursor))
  {
    hide Ran, Runs, Faithful, Total, Emissions, OutcomeOf;
    SuccessIsContinuation(t, logs);
    ItemsAreEvaluated(t, logs);
    ScanLatest.MatchAllEmitsAll(t.job, Ran(t.job, t.polls).0.evaluated);
    EvaluatedTotals(t.job, name, parts, logs, t.polls);
  }

  // ---- Verbatim copies ----

  lemma {:induction false} HeadersAreVerbatim(v: Validity, hs: seq<Header>)
    ensures RequestHeaders(DecodeHeaders(v, hs)) == Ok(hs)
  {
    hide EncodeValue, DecodeHeaderValue;
    if hs != [] {
      var n := |hs| - 1;
      HeadersAreVerbatim(v, hs[..n]);
      VerbatimHeader(v, hs[n]);
      assert DecodeHeaders(v, hs)[..n] == DecodeHeaders(v, hs[..n]);
      assert hs == hs[..n] + [Header(hs[n].key, hs[n].value)];
    }
  }

  /** The request a decoded record is replayed with carries the stored bytes. */
  lemma RequestIsVerbatim(job: Job, r: Record, preserve: bool)
    ensures RequestOf(Decode(job.validity, r, job.spec.format), preserve)
      == Ok(ProduceRequest(r.key, r.value, r.headers, if preserve then Some(r.partition) else None, r.timestamp))
  {
    VerbatimBytes(job.validity, r.key, job.spec.format);
    VerbatimBytes(job.validity, r.value, job.spec.format);
    HeadersAreVerbatim(job.validity, r.headers);
  }

  ghost function CopyOf(r: Record, preserve: bool): ProduceRequest {
    ProduceRequest(r.key, r.value, r.headers, if preserve then Some(r.partition) else None, r.timestamp)
  }

  lemma {:induction false} RequestsAreVerbatim(job: Job, rs: seq<Record>, items: seq<Item>, preserve: bool)
    requires |items| == |rs|
    requires forall i :: 0 <= i < |rs| ==> items[i] == Decode(job.validity, rs[i], job.spec.format)
    ensures RequestsOf(items, preserve).Ok? && |RequestsOf(items, preserve).value| == |rs|
    ensures forall i :: 0 <= i < |rs| ==> RequestsOf(items, preserve).value[i] == CopyOf(rs[i], preserve)
  {
    hide Decode, RequestOf;
    if rs != [] {
      var n := |rs| - 1;
      RequestsAreVerbatim(job, rs[..n], items[..n], preserve);
      RequestIsVerbatim(job, rs[n], preserve);
    }
  }

  /** The same message: content byte for byte, and the timestamp unless it was zero. */
  ghost predicate SameMessage(copy: Record, r: Record) {
    && copy.key == r.key && copy.value == r.value && copy.headers == r.headers
    && (r.timestamp != ZERO_TIME ==> copy.timestamp == r.timestamp)
  }

  ghost predicate Copies(copies: seq<Record>, rs: seq<Record>) {
    |copies| == |rs| && forall i :: 0 <= i < |rs| ==> SameMessage(copies[i], rs[i])
  }

  lemma {:induction false} AppendedCopies(name: string, target: Topic, rs: seq<Record>, requests: seq<ProduceRequest>,
                                          clock: nat -> int, p: int)
    requires |requests| == |rs| && forall i :: 0 <= i < |rs| ==> requests[i] == CopyOf(rs[i], true)
    requires 0 <= p < |target.partitions|
    ensures Copies(Appended(name, target, requests, clock, p), ForPartition(rs, p))
  {
    if rs != [] {
      var n := |rs| - 1;
      AppendedCopies(name, target, rs[..n], requests[..n], clock, p);
      assert ChosenPartition(target, requests[n]) == rs[n].partition;
    }
  }

  lemma {:induction false} NoneRejected(results: seq<ProduceResult>)
    requires forall i :: 0 <= i < |results| ==> results[i].Produced?
    ensures FirstRejected(results) == |results|
  {
    if results != [] {
      NoneRejected(results[1..]);
    }
  }

  // The requests of a non-latest replay are its evaluated records, verbatim.
  lemma RequestsOfTry(t: Try, logs: map<int, seq<Record>>) returns (requests: seq<ProduceRequest>)
    requires IsTry(t, logs) && !t.job.spec.latest
    ensures RequestsOf(t.answer.items, t.preserve) == Ok(requests)
    ensures
      var rs := Ran(t.job, t.polls).0.evaluated;
      |requests| == |rs| == |t.answer.items| && forall i :: 0 <= i < |rs| ==> requests[i] == CopyOf(rs[i], t.preserve)
  {
    hide Ran, Runs, Faithful, LogsFor, OutcomeOf, Emissions, RequestsOf, Decode;
    var rs := Ran(t.job, t.polls).0.evaluated;
    ItemsAreEvaluated(t, logs);
    ScanLatest.MatchAllEmitsAll(t.job, rs);
    RequestsAreVerbatim(t.job, rs, t.answer.items, t.preserve);
    requests := RequestsOf(t.answer.items, t.preserve).value;
  }

  /** Verbatim: with preservePartition and enough target partitions, which planning has
      checked, a non-latest replay onto the fake succeeds, and every target partition
      gains exactly the source partition's window slice, message for message, in order. */
  lemma VerbatimReplay(t: Try, logs: map<int, seq<Record>>, name: string, target: Topic, clock: nat -> int)
    requires IsTry(t, logs) && !t.job.spec.latest && t.preserve && t.answer.items != []
    requires forall p :: p in t.job.spec.partitions && logs[p] != [] ==> 0 <= p < |target.partitions|
    requires RequestsOf(t.answer.items, true).Ok? ==>
      t.produced == Results(ProduceAll(name, target, RequestsOf(t.answer.items, true).value, clock).1)
    ensures t.outcome.Done? && RequestsOf(t.answer.items, true).Ok?
    ensures forall p :: p in t.job.spec.partitions && 0 <= p < |target.partitions| && p in t.outcome.cursor ==>
      Copies(Appended(name, target, RequestsOf(t.answer.items, true).value, clock, p),
             Between(logs[p], t.job.spec.partitions[p].start, t.outcome.cursor[p]))
  {
    var requests := VerbatimSucceeds(t, logs, name, target, clock);
    forall p | p in t.job.spec.partitions && 0 <= p < |target.partitions| && p in t.outcome.cursor
      ensures Copies(Appended(name, target, requests, clock, p),
                     Between(logs[p], t.job.spec.partitions[p].start, t.outcome.cursor[p]))
    {
      VerbatimPartition(t, logs, name, target, requests, clock, p);
    }
  }

  lemma VerbatimSucceeds(t: Try, logs: map<int, seq<Record>>, name: string, target: Topic, clock: nat -> int)
      returns (requests: seq<ProduceRequest>)
    requires IsTry(t, logs) && !t.job.spec.latest && t.preserve && t.answer.items != []
    requires forall p :: p in t.job.spec.partitions && logs[p] != [] ==> 0 <= p < |target.partitions|
    requires RequestsOf(t.answer.items, true).Ok? ==>
      t.produced == Results(ProduceAll(name, target, RequestsOf(t.answer.items, true).value, clock).1)
    ensures RequestsOf(t.answer.items, true) == Ok(requests)
    ensures
      var s := Ran(t.job, t.polls).0;
      && t.outcome.Done? && t.outcome.cursor == s.cursor
      && |requests| == |s.evaluated|
      && forall i :: 0 <= i < |s.evaluated| ==> requests[i] == CopyOf(s.evaluated[i], true)
  {
    requests := RequestsOfTry(t, logs);
    AllAccepted(t, logs, name, target, requests, clock);
    NoneRejected(t.produced.results);
    CursorIsAccounted(t, logs);
    SuccessIsContinuation(t, logs);
    ItemsAreEvaluated(t, logs);
  }

  lemma VerbatimPartition(t: Try, logs: map<int, seq<Record>>, name: string, target: Topic,
                          requests: seq<ProduceRequest>, clock: nat -> int, p: int)
    requires LogsFor(t.job.spec.partitions, logs) && Faithful(t.job.spec.partitions, logs, DeliveredBy(t.polls))
    requires p in t.job.spec.partitions && 0 <= p < |target.partitions|
    requires
      var rs := Ran(t.job, t.polls).0.evaluated;
      |requests| == |rs| && forall i :: 0 <= i < |rs| ==> requests[i] == CopyOf(rs[i], true)
    ensures
      var s := Ran(t.job, t.polls).0;
      && p in s.cursor
      && Copies(Appended(name, target, requests, clock, p),
                Between(logs[p], t.job.spec.partitions[p].start, s.cursor[p]))
  {
    hide Ran, Faithful, Appended, Emissions;
    ScanReadsTheLog(t.job, logs, t.polls, p);
    AppendedCopies(name, target, Ran(t.job, t.polls).0.evaluated, requests, clock, p);
  }

  lemma AllAccepted(t: Try, logs: map<int, seq<Record>>, name: string, target: Topic,
                    requests: seq<ProduceRequest>, clock: nat -> int)
    requires IsTry(t, logs)
    requires forall p :: p in t.job.spec.partitions && logs[p] != [] ==> 0 <= p < |target.partitions|
    requires
      var rs := Ran(t.job, t.polls).0.evaluated;
      |requests| == |rs| && forall i :: 0 <= i < |rs| ==> requests[i] == CopyOf(rs[i], true)
    ensures forall result :: result in ProduceAll(name, target, requests, clock).1 ==> result.Produced?
  {
    hide Ran, Runs, Faithful, OutcomeOf, ProduceAll, Appended, Emissions;
    var rs := Ran(t.job, t.polls).0.evaluated;
    ProduceOnlyAppends(name, target, requests, clock);
    forall i | 0 <= i < |requests| ensures ProduceAll(name, target, requests, clock).1[i].Produced? {
      EvaluatedInLogOrder(t.job, logs, t.polls, i);
      ScanReadsTheLog(t.job, logs, t.polls, rs[i].partition);
      InForPartition(rs, rs[i].partition, rs[i]);
      ProduceAnswersEach(name, target, requests, clock, i);
    }
  }
}

/** What a session on the fake cluster delivers while the topic is being written, and
    when a scan over it ends (internal/kafka/fake/consumer.go, internal/scan/runner.go). */
module FakeFeed {
  import opened Kafka
  import opened Logs
  import opened FakeCluster
  import opened Scan
  import opened ScanSafety
  import opened ScanResume
  import opened ScanRunner
  import opened FakeServer
  import opened Maps
  import opened ScanBounds

  // ---- Interleaved produce and poll ----

  /** A topic, a session's cursors over it, and all the session has been given. */
  datatype Feed = Feed(topic: Topic, cursor: map<int, int>, seen: seq<Record>)

  ghost predicate ProduceStep(name: string, a: Feed, b: Feed) {
    exists rs, clock :: b == a.(topic := ProduceAll(name, a.topic, rs, clock).0)
  }

  ghost predicate PollStep(a: Feed, b: Feed) {
    exists out :: IsPoll(a.topic, a.cursor, out, b.cursor) && b.topic == a.topic && b.seen == a.seen + out
  }

  /** Any interleaving of produces and polls after an Assign at start. */
  ghost predicate Interleaves(name: string, start: map<int, int>, trace: seq<Feed>) {
    && trace != [] && WellFormed(name, trace[0].topic) && trace[0].cursor == start && trace[0].seen == []
    && forall i :: 0 < i < |trace| ==> ProduceStep(name, trace[i - 1], trace[i]) || PollStep(trace[i - 1], trace[i])
  }

  // One partition of a feed: what was delivered is the log from start to the cursor.
  ghost predicate FedUpTo(name: string, p: int, f: Feed, start: int, cursor: int) {
    if 0 <= p < |f.topic.partitions| then
      var part := f.topic.partitions[p];
      && Contiguous(name, p, part) && Ascending(part.records)
      && start <= cursor && (cursor == start || cursor <= part.End())
      && ForPartition(f.seen, p) == Between(part.records, start, cursor)
    else cursor == start && ForPartition(f.seen, p) == []
  }

  lemma GrowthKeepsWindow(name: string, p: int, part: Partition, grown: Partition, lo: int, hi: int)
    requires Contiguous(name, p, part) && Contiguous(name, p, grown)
    requires Ascending(part.records) && Ascending(grown.records)
    requires part.begin == grown.begin && part.records <= grown.records && hi <= part.End()
    ensures Between(grown.records, lo, hi) == Between(part.records, lo, hi)
  {
    BetweenIsSlice(name, p, part, lo, hi);
    BetweenIsSlice(name, p, grown, lo, hi);
    if lo < hi {
      PrefixSlice(part.records, grown.records, Position(part, lo), Position(part, hi));
      assert Position(grown, lo) == Position(part, lo) && Position(grown, hi) == Position(part, hi);
    }
  }

  lemma PrefixSlice(a: seq<Record>, b: seq<Record>, i: nat, j: nat)
    requires a <= b && i <= j <= |a|
    ensures a[i..j] == b[i..j]
  {
  }

  lemma ChunkIsWindow(name: string, t: Topic, p: int, cursor: int)
    requires WellFormed(name, t) && 0 <= p < |t.partitions| && Ascending(t.partitions[p].records)
    ensures PollChunk(t, p, cursor) == Between(t.partitions[p].records, cursor, t.partitions[p].End())
    ensures PollChunk(t, p, cursor) == t.partitions[p].records[LowerBound(t.partitions[p].records, cursor)..]
    ensures PollChunk(t, p, cursor) != [] ==> cursor < t.partitions[p].End()
  {
    BetweenIsSlice(name, p, t.partitions[p], cursor, t.partitions[p].End());
    LowerBoundIsPosition(name, p, t.partitions[p], cursor);
  }

  lemma ProduceKeepsFed(name: string, a: Feed, b: Feed, p: int, start: int, cursor: int)
    requires WellFormed(name, a.topic) && ProduceStep(name, a, b) && FedUpTo(name, p, a, start, cursor)
    ensures WellFormed(name, b.topic) && b.cursor == a.cursor && FedUpTo(name, p, b, start, cursor)
  {
    var rs, clock :| b == a.(topic := ProduceAll(name, a.topic, rs, clock).0);
    ProduceKeepsInvariant(name, a.topic, rs, clock);
    ProduceOnlyAppends(name, a.topic, rs, clock);
    if 0 <= p < |a.topic.partitions| {
      ContiguousAscends(name, p, b.topic.partitions[p]);
      if cursor != start {
        GrowthKeepsWindow(name, p, a.topic.partitions[p], b.topic.partitions[p], start, cursor);
      }
    }
  }

  lemma PollKeepsFed(name: string, a: Feed, b: Feed, p: int, start: int)
    requires WellFormed(name, a.topic) && PollStep(a, b) && p in a.cursor && FedUpTo(name, p, a, start, a.cursor[p])
    ensures p in b.cursor && FedUpTo(name, p, b, start, b.cursor[p])
    ensures 0 <= p < |b.topic.partitions| ==>
      ForPartition(b.seen, p) == b.topic.partitions[p].records[LowerBound(b.topic.partitions[p].records, start)..]
  {
    var out :| IsPoll(a.topic, a.cursor, out, b.cursor) && b.topic == a.topic && b.seen == a.seen + out;
    PollReadsEachPartition(name, a.topic, a.cursor, out, b.cursor, p);
    ForPartitionJoins(a.seen, out, p);
    if 0 <= p < |a.topic.partitions| {
      ChunkIsWindow(name, a.topic, p, start);
      ChunkContinues(name, a.topic, p, start, a.cursor[p]);
    } else {
      assert a.seen + out == b.seen;
    }
  }

  // A chunk read at a cursor continues what was read from start up to it.
  lemma ChunkContinues(name: string, t: Topic, p: int, start: int, c: int)
    requires WellFormed(name, t) && 0 <= p < |t.partitions| && Ascending(t.partitions[p].records)
    requires start <= c && (c == start || c <= t.partitions[p].End())
    ensures
      var part, next := t.partitions[p], PollCursor(t, p, c);
      && start <= next && (next == start || next <= part.End())
      && Between(part.records, start, c) + PollChunk(t, p, c) == Between(part.records, start, next)
      && Between(part.records, start, next) == Between(part.records, start, part.End())
  {
    ChunkIsWindow(name, t, p, c);
    WindowsMeet(name, p, t.partitions[p], start, c);
  }

  // Up to a cursor, then from it to the end, is everything from the start.
  lemma WindowsMeet(name: string, p: int, part: Partition, start: int, c: int)
    requires Contiguous(name, p, part) && Ascending(part.records)
    requires start <= c && (c == start || c <= part.End())
    ensures Between(part.records, start, c) + Between(part.records, c, part.End()) ==
      Between(part.records, start, part.End())
    ensures part.records == [] ==> Between(part.records, start, c) == []
  {
    if c <= part.End() {
      BetweenJoins(part.records, start, c, part.End());
    }
  }

  lemma {:induction false} AlwaysFed(name: string, start: map<int, int>, trace: seq<Feed>, p: int)
    requires Interleaves(name, start, trace) && p in start
    ensures
      var last := trace[|trace| - 1];
      WellFormed(name, last.topic) && p in last.cursor && FedUpTo(name, p, last, start[p], last.cursor[p])
  {
    var n := |trace| - 1;
    if n == 0 {
      if 0 <= p < |trace[0].topic.partitions| {
        ContiguousAscends(name, p, trace[0].topic.partitions[p]);
      }
    } else {
      AlwaysFed(name, start, trace[..n], p);
      if ProduceStep(name, trace[n - 1], trace[n]) {
        ProduceKeepsFed(name, trace[n - 1], trace[n], p, start[p], trace[n - 1].cursor[p]);
      } else {
        PollKeepsFed(name, trace[n - 1], trace[n], p, start[p]);
      }
    }
  }

  /** Exactly once, in order: under any interleaving of produces and polls, what a
      session has been given of a partition is a prefix of the final log from the
      assigned offset on, and right after a poll it is all of it. */
  lemma DeliversExactlyOnce(name: string, start: map<int, int>, trace: seq<Feed>, p: int)
    requires Interleaves(name, start, trace) && p in start
    requires 0 <= p < |trace[|trace| - 1].topic.partitions|
    ensures
      var last := trace[|trace| - 1];
      var log := last.topic.partitions[p].records;
      && Ascending(log) && InOrder(log, start[p], last.seen, p)
      && (|trace| > 1 && PollStep(trace[|trace| - 2], last) ==>
            ForPartition(last.seen, p) == log[LowerBound(log, start[p])..])
  {
    var last := trace[|trace| - 1];
    AlwaysFed(name, start, trace, p);
    FedIsInOrder(name, p, last, start[p], last.cursor[p]);
    if |trace| > 1 && PollStep(trace[|trace| - 2], last) {
      assert trace[..|trace| - 1][|trace| - 2] == trace[|trace| - 2];
      AlwaysFed(name, start, trace[..|trace| - 1], p);
      PollKeepsFed(name, trace[|trace| - 2], last, p, start[p]);
    }
  }

  lemma FedIsInOrder(name: string, p: int, f: Feed, start: int, cursor: int)
    requires 0 <= p < |f.topic.partitions| && FedUpTo(name, p, f, start, cursor)
    ensures InOrder(f.topic.partitions[p].records, start, f.seen, p)
  {
    if cursor > start {
      LowerBoundMonotone(f.topic.partitions[p].records, start, cursor);
    }
  }

  /** So a scan over a topic that is being written still reads the log: between start
      and continuation it evaluates exactly the records the final log holds. */
  lemma HotTopicScanReadsTheLog(job: Job, name: string, trace: seq<Feed>, polls: seq<PollAnswer>, p: int)
    requires Interleaves(name, Starts(job.spec.partitions), trace) && p in job.spec.partitions
    requires DeliveredBy(polls) == trace[|trace| - 1].seen
    requires 0 <= p < |trace[|trace| - 1].topic.partitions|
    ensures
      var log, s := trace[|trace| - 1].topic.partitions[p].records, Ran(job, polls).0;
      && Ascending(log) && p in s.cursor
      && ForPartition(s.evaluated, p) == Between(log, job.spec.partitions[p].start, s.cursor[p])
  {
    DeliversExactlyOnce(name, Starts(job.spec.partitions), trace, p);
    var log := trace[|trace| - 1].topic.partitions[p].records;
    var seen := RanFolds(job, polls);
    PrefixStaysInOrder(log, job.spec.partitions[p].start, DeliveredBy(polls), seen, p);
    FoldReadsTheLog(job, log, seen, p);
    hide ReadUpTo;
    ReadUpToIsBetween(log, job.spec.partitions[p].start, job.spec.partitions[p].end, |ForPartition(seen, p)|,
                      Ran(job, polls).0.cursor[p], ForPartition(Ran(job, polls).0.evaluated, p));
  }

  // ---- When a scan over a topic at rest ends ----

  /** The window is empty, or its last offset is stored. */
  ghost predicate Reachable(t: Topic, p: int, w: Window) {
    w.start >= w.end
    || (0 <= p < |t.partitions| && t.partitions[p].begin < w.end <= t.partitions[p].End())
  }

  ghost predicate AllReachable(t: Topic, windows: map<int, Window>) {
    forall p :: p in windows ==> Reachable(t, p, windows[p])
  }

  // Having read a contiguous log from start on, the cursor passes end iff end is stored.
  lemma ReadToEndIff(name: string, p: int, part: Partition, w: Window, cursor: int, evaluated: seq<Record>)
    requires Contiguous(name, p, part) && Ascending(part.records)
    requires ReadUpTo(part.records, w.start, w.end, |part.records| - LowerBound(part.records, w.start), cursor,
                      evaluated)
    requires cursor == w.start || cursor <= w.end
    ensures cursor >= w.end <==> w.start >= w.end || part.begin < w.end <= part.End()
  {
    LowerBoundIsPosition(name, p, part, w.start);
    LowerBoundIsPosition(name, p, part, cursor);
  }

  lemma FirstPollExhaustsIff(job: Job, t: Topic, out: seq<Record>, after: map<int, int>, p: int)
    requires WellFormed(job.spec.topic, t) && p in job.spec.partitions
    requires IsPoll(t, Starts(job.spec.partitions), out, after)
    ensures p in Fold(job, out).cursor
    ensures Fold(job, out).cursor[p] >= job.spec.partitions[p].end <==> Reachable(t, p, job.spec.partitions[p])
  {
    var w, name := job.spec.partitions[p], job.spec.topic;
    PollReadsEachPartition(name, t, Starts(job.spec.partitions), out, after, p);
    FoldCursors(job, out);
    if 0 <= p < |t.partitions| {
      var part := t.partitions[p];
      ContiguousAscends(name, p, part);
      ChunkIsWindow(name, t, p, w.start);
      FoldReadsTheLog(job, part.records, out, p);
      ReadToEndIff(name, p, part, w, Fold(job, out).cursor[p], ForPartition(Fold(job, out).evaluated, p));
    } else {
      FoldReadsTheLog(job, [], out, p);
    }
  }

  lemma FoldCursors(job: Job, rs: seq<Record>)
    ensures CursorsInRange(job.spec.partitions, Fold(job, rs).cursor)
  {
    FoldIsConsistent(job, rs);
  }

  /** On a topic at rest a scan whose bounds are not hit ends exactly when every
      window's last offset is stored, and then after at most one poll, with reachedEnd. */
  lemma FakeScanEndsIff(job: Job, t: Topic, out: seq<Record>, after: map<int, int>, more: nat)
    requires WellFormed(job.spec.topic, t) && IsPoll(t, Starts(job.spec.partitions), out, after)
    requires Batch(job, Start(job.spec), out).1 == NotStopped
    ensures
      var polls := [Delivered(out, false)] + seq(more, i => Delivered([], false));
      Ran(job, polls).1 ==
        if AllReachable(t, job.spec.partitions) then Finished(true, NotStopped) else Waiting
  {
    hide Batch, Step, WellFormed, IsPoll;
    var start, idle := Start(job.spec), seq(more, i => Delivered([], false));
    var polls := [Delivered(out, false)] + idle;
    assert polls[1..] == idle;
    assert start == Fold(job, []);
    var n := BatchFolds(job, [], out);
    assert [] + out[..n] == out;
    FoldIsConsistent(job, out);
    forall p | p in job.spec.partitions
      ensures Fold(job, out).cursor[p] >= job.spec.partitions[p].end <==> Reachable(t, p, job.spec.partitions[p])
    {
      FirstPollExhaustsIff(job, t, out, after, p);
    }
    IdlePollsChangeNothing(job, Fold(job, out), more);
  }

  lemma {:induction false} IdlePollsChangeNothing(job: Job, s: Progress, more: nat)
    ensures Loop(job, s, seq(more, i => Delivered([], false))) ==
      (s, if Exhausted(job.spec, s.cursor) then Finished(true, NotStopped) else Waiting)
  {
    var idle := seq(more, i => Delivered([], false));
    if more > 0 {
      IdlePollsChangeNothing(job, s, more - 1);
      assert idle[1..] == seq(more - 1, i => Delivered([], false));
    }
  }

  ghost predicate Unbounded(spec: Spec) {
    spec.maxMessages <= 0 && spec.maxScanned <= 0 && spec.maxBytes <= 0
  }

  // The one poll a scan of reachable windows needs.
  lemma OnePollIsEnough(job: Job, t: Topic, records: seq<Record>, after: map<int, int>)
    requires WellFormed(job.spec.topic, t) && IsPoll(t, Starts(job.spec.partitions), records, after)
    requires AllReachable(t, job.spec.partitions) && !Exhausted(job.spec, Starts(job.spec.partitions))
    ensures
      var (s, bound) := Batch(job, Start(job.spec), records);
      && Loop(job, Start(job.spec), [Delivered(records, false)]) == (s, Finished(bound == NotStopped, bound))
      && bound != MaxTime && (Unbounded(job.spec) ==> bound == NotStopped)
      && (bound == NotStopped ==> Exhausted(job.spec, s.cursor))
  {
    BatchWithinBounds(job, Start(job.spec), records);
    if Batch(job, Start(job.spec), records).1 == NotStopped {
      FakeScanEndsIff(job, t, records, after, 0);
      assert [Delivered(records, false)] + seq(0, i => Delivered([], false)) == [Delivered(records, false)];
      assert [Delivered(records, false)][1..] == [];
    }
  }

  /** What a session at the windows' starts can be answered over a topic at rest: nothing
      yet, or one poll's records. */
  ghost predicate FakeAnswers(t: Topic, windows: map<int, Window>, polls: seq<PollAnswer>) {
    polls != [] ==>
      exists out, after :: IsPoll(t, Starts(windows), out, after) && polls == [Delivered(out, false)]
  }

  /** The logs of some of a topic's partitions; one it does not have is empty. */
  ghost function LogsOf(t: Topic, selected: set<int>): map<int, seq<Record>> {
    map p | p in selected :: if 0 <= p < |t.partitions| then t.partitions[p].records else []
  }

  lemma LogsAreFor(name: string, t: Topic, windows: map<int, Window>)
    requires WellFormed(name, t)
    ensures LogsFor(windows, LogsOf(t, windows.Keys))
  {
    forall p | p in windows && 0 <= p < |t.partitions|
      ensures Ascending(t.partitions[p].records) && forall r :: r in t.partitions[p].records ==> r.partition == p
    {
      ContiguousAscends(name, p, t.partitions[p]);
    }
  }

  /** What the fake delivers is in the order of its logs. */
  lemma FakeIsFaithful(name: string, t: Topic, windows: map<int, Window>, polls: seq<PollAnswer>)
    requires WellFormed(name, t) && FakeAnswers(t, windows, polls)
    ensures LogsFor(windows, LogsOf(t, windows.Keys)) && Faithful(windows, LogsOf(t, windows.Keys), DeliveredBy(polls))
  {
    hide WellFormed, IsPoll, LowerBound, PollChunk;
    LogsAreFor(name, t, windows);
    if polls != [] {
      var out, after :| IsPoll(t, Starts(windows), out, after) && polls == [Delivered(out, false)];
      OnePollDelivers(out);
      forall p | p in windows ensures InOrder(LogsOf(t, windows.Keys)[p], windows[p].start, out, p) {
        PollReadsEachPartition(name, t, Starts(windows), out, after, p);
        ChunkIsInOrder(name, t, p, windows[p].start);
      }
    }
  }

  lemma OnePollDelivers(out: seq<Record>)
    ensures DeliveredBy([Delivered(out, false)]) == out
  {
    assert [Delivered(out, false)][1..] == [];
  }

  lemma ChunkIsInOrder(name: string, t: Topic, p: int, start: int)
    requires WellFormed(name, t)
    ensures
      var log := if 0 <= p < |t.partitions| then t.partitions[p].records else [];
      Ascending(log) && PollChunk(t, p, start) <= log[LowerBound(log, start)..]
  {
    if 0 <= p < |t.partitions| {
      ContiguousAscends(name, p, t.partitions[p]);
      ChunkIsWindow(name, t, p, start);
    }
  }

  // The poll loop against the fake.
  method PollLoopOnFake(runner: Runner, fake: Fake) returns (end: LoopEnd, ghost polls: seq<PollAnswer>)
    requires runner.Valid() && runner.View() == Start(runner.job.spec)
    requires runner.job.spec.topic in fake.topics
    requires WellFormed(runner.job.spec.topic, fake.topics[runner.job.spec.topic])
    requires AllReachable(fake.topics[runner.job.spec.topic], runner.job.spec.partitions)
    requires fake.session == Some(Session(runner.job.spec.topic, Starts(runner.job.spec.partitions)))
    modifies runner, fake`session
    ensures runner.Valid() && |polls| <= 1
    ensures FakeAnswers(fake.topics[runner.job.spec.topic], runner.job.spec.partitions, polls)
    ensures (runner.View(), end) == Loop(runner.job, Start(runner.job.spec), polls)
    ensures end.Finished? && end.stoppedBy != MaxTime
    ensures Unbounded(runner.job.spec) ==> end == Finished(true, NotStopped)
  {
    var job := runner.job;
    polls := [];
    while !Exhausted(job.spec, runner.cursor)
      invariant runner.Valid() && fake.topics == old(fake.topics) && |polls| <= 1
      invariant polls == [] ==> fake.session == old(fake.session) && runner.View() == Start(job.spec)
      invariant polls != [] ==> Exhausted(job.spec, runner.cursor)
      invariant FakeAnswers(fake.topics[job.spec.topic], job.spec.partitions, polls)
      invariant Exhausted(job.spec, runner.cursor) ==>
        (runner.View(), Finished(true, NotStopped)) == Ran(job, polls)
      decreases 1 - |polls|
    {
      var records := fake.Poll();
      OnePollIsEnough(job, fake.topics[job.spec.topic], records, fake.session.value.cursor);
      polls := [Delivered(records, false)];
      var bound := runner.EvaluateBatch(records);
      if bound != NotStopped {
        return Finished(false, bound), polls;
      }
    }
    end := Finished(true, NotStopped);
  }

  /** Run against the fake itself. When every window's last offset is stored, which is
      what resolving from and to against the cluster gives, the loop needs at most one
      poll whatever the bounds, and reports reachedEnd when there are none. */
  method RunOnFake(job: Job, fake: Fake) returns (answer: Answer, ghost polls: seq<PollAnswer>)
    requires job.spec.topic in fake.topics && fake.LogInvariant()
    requires AllReachable(fake.topics[job.spec.topic], job.spec.partitions)
    modifies fake`session
    ensures |polls| <= 1 && Runs(job, None, polls, answer) && answer.Answered?
    ensures FakeAnswers(fake.topics[job.spec.topic], job.spec.partitions, polls)
    ensures Unbounded(job.spec) ==> answer.stats.reachedEnd && answer.stats.stoppedBy == NotStopped
  {
    hide WellFormed, Reachable, IsPoll, Loop, Exhausted, Drained;
    var runner := new Runner(job);
    if |job.spec.partitions| == 0 {
      return Answered(FinalStats(job.spec, Start(job.spec), 0, true, NotStopped), []), [];
    }
    var partitions := KeysOf(job.spec.partitions);
    fake.Assign(job.spec.topic, partitions, runner.cursor);
    assert fake.session.value.cursor == Starts(job.spec.partitions);
    var end;
    end, polls := PollLoopOnFake(runner, fake);
    MatchedIsEmitted(job, polls);
    var items := runner.Drain();
    answer := Answered(
      Stats(runner.scanned, runner.matched, runner.skipped, runner.bytes,
            job.spec.latest || end.reachedEnd, if job.spec.latest then NotStopped else end.stoppedBy,
            if job.spec.latest then Starts(job.spec.partitions) else runner.cursor),
      items);
    fake.Close();
  }
}

/** What reachedEnd is worth over the fake cluster: when a scan of a topic at rest reads
    everything in its windows, and when it says so (internal/scan/runner.go). */
module FakeEnd {
  import opened Kafka
  import opened Logs
  import opened Codec
  import opened Scan
  import opened ScanSafety
  import opened ScanBounds
  import opened ScanResume
  import opened ScanEnd
  import opened FakeCluster
  import opened FakeFeed
  import ScanLatest

  // ---- Weighing records partition by partition ----

  ghost function Weigh(weight: Record -> nat, rs: seq<Record>): nat {
    if rs == [] then 0 else Weigh(weight, rs[..|rs| - 1]) + weight(rs[|rs| - 1])
  }

  ghost function Weights(weight: Record -> nat, keys: set<int>, rs: seq<Record>): map<int, int> {
    map p | p in keys :: Weigh(weight, ForPartition(rs, p))
  }

  lemma WeighSnoc(weight: Record -> nat, rs: seq<Record>, r: Record)
    ensures Weigh(weight, rs + [r]) == Weigh(weight, rs) + weight(r)
  {
    assert (rs + [r])[..|rs|] == rs;
  }

  lemma WeightsOneMore(weight: Record -> nat, keys: set<int>, rs: seq<Record>, r: Record)
    requires r.partition in keys
    ensures
      var before := Weights(weight, keys, rs);
      Weights(weight, keys, rs + [r]) == before[r.partition := before[r.partition] + weight(r)]
  {
    hide Weigh, ForPartition;
    forall p | p in keys
      ensures ForPartition(rs + [r], p) == if p == r.partition then ForPartition(rs, p) + [r] else ForPartition(rs, p)
    {
      ForPartitionSnoc(rs, r, p);
    }
    WeighSnoc(weight, ForPartition(rs, r.partition), r);
  }

  lemma ForPartitionSnoc(rs: seq<Record>, r: Record, p: int)
    ensures ForPartition(rs + [r], p) == if p == r.partition then ForPartition(rs, p) + [r] else ForPartition(rs, p)
  {
    assert (rs + [r])[..|rs|] == rs;
  }

  lemma {:induction false} WeighByPartition(weight: Record -> nat, keys: set<int>, rs: seq<Record>)
    requires forall r :: r in rs ==> r.partition in keys
    ensures Total(Weights(weight, keys, rs)) == Weigh(weight, rs)
  {
    hide ForPartition, Total;
    if rs == [] {
      NothingWeighsNothing(weight, keys);
    } else {
      var init, r := rs[..|rs| - 1], rs[|rs| - 1];
      assert rs == init + [r];
      WeighByPartition(weight, keys, init);
      var before := Weights(weight, keys, init);
      TotalUpdate(before, r.partition, before[r.partition] + weight(r));
      WeightsOneMore(weight, keys, init, r);
    }
  }

  lemma NothingWeighsNothing(weight: Record -> nat, keys: set<int>)
    ensures Total(Weights(weight, keys, [])) == 0
  {
    TotalZero(Weights(weight, keys, []));
  }

  ghost function Matched(job: Job): Record -> nat {
    r => |Emission(job, r)|
  }

  ghost function One(): Record -> nat {
    _ => 1
  }

  ghost function Size(): Record -> nat {
    r => RawSize(r)
  }

  // The three counters are weights.
  lemma {:induction false} CountersAreWeights(job: Job, rs: seq<Record>)
    ensures |Emissions(job, rs)| == Weigh(Matched(job), rs)
    ensures |rs| == Weigh(One(), rs) && TotalSize(rs) == Weigh(Size(), rs)
  {
    if rs != [] {
      CountersAreWeights(job, rs[..|rs| - 1]);
    }
  }

  // ---- What the windows hold ----

  /** The stored records of a window. */
  ghost function Held(t: Topic, p: int, w: Window): seq<Record> {
    if p < 0 || p >= |t.partitions| || w.end <= w.start then []
    else t.partitions[p].records[Position(t.partitions[p], w.start)..Position(t.partitions[p], w.end)]
  }

  /** What all windows hold, weighed. */
  ghost function Amount(t: Topic, windows: map<int, Window>, weight: Record -> nat): int {
    Total(map p | p in windows :: Weigh(weight, Held(t, p, windows[p])))
  }

  /** How many records the windows hold. */
  ghost function HeldCount(t: Topic, windows: map<int, Window>): int {
    Total(map p | p in windows :: |Held(t, p, windows[p])|)
  }

  // A slice of the log is what its window holds.
  lemma BetweenIsHeld(name: string, t: Topic, p: int, lo: int, hi: int)
    requires WellFormed(name, t)
    ensures
      var log := if 0 <= p < |t.partitions| then t.partitions[p].records else [];
      Ascending(log) && Between(log, lo, hi) == Held(t, p, Window(lo, hi))
  {
    if 0 <= p < |t.partitions| {
      ContiguousAscends(name, p, t.partitions[p]);
      BetweenIsSlice(name, p, t.partitions[p], lo, hi);
    }
  }

  // A window read up to or past its end is what it holds.
  lemma ReadIsHeld(name: string, t: Topic, p: int, w: Window, n: nat, cursor: int, evaluated: seq<Record>)
    requires WellFormed(name, t) && 0 <= p < |t.partitions| && Ascending(t.partitions[p].records)
    requires ReadUpTo(t.partitions[p].records, w.start, w.end, n, cursor, evaluated)
    requires w.end <= cursor && (cursor == w.start || cursor <= w.end)
    ensures evaluated == Held(t, p, w)
  {
    hide ReadUpTo, Between;
    ReadUpToIsBetween(t.partitions[p].records, w.start, w.end, n, cursor, evaluated);
    BetweenIsSlice(name, p, t.partitions[p], w.start, cursor);
  }

  /** A poll that reaches every window evaluates exactly what they hold. */
  lemma EvaluatesWhatIsHeld(job: Job, t: Topic, out: seq<Record>, after: map<int, int>, p: int)
    requires WellFormed(job.spec.topic, t) && p in job.spec.partitions
    requires IsPoll(t, Starts(job.spec.partitions), out, after)
    requires Reachable(t, p, job.spec.partitions[p])
    ensures ForPartition(Fold(job, out).evaluated, p) == Held(t, p, job.spec.partitions[p])
  {
    hide Fold, IsPoll, ReadUpTo, Reachable, Held, PollChunk, Contiguous, LowerBound, ForPartition;
    var w, name := job.spec.partitions[p], job.spec.topic;
    PollReadsEachPartition(name, t, Starts(job.spec.partitions), out, after, p);
    FoldCursors(job, out);
    FirstPollExhaustsIff(job, t, out, after, p);
    if 0 <= p < |t.partitions| {
      ContiguousAscends(name, p, t.partitions[p]);
      ChunkIsWindow(name, t, p, w.start);
      FoldReadsTheLog(job, t.partitions[p].records, out, p);
      ReadIsHeld(name, t, p, w, |ForPartition(out, p)|, Fold(job, out).cursor[p],
                 ForPartition(Fold(job, out).evaluated, p));
    } else {
      NoSuchPartition(job, t, out, p);
    }
  }

  lemma NoSuchPartition(job: Job, t: Topic, out: seq<Record>, p: int)
    requires p in job.spec.partitions && !(0 <= p < |t.partitions|)
    requires ForPartition(out, p) == PollChunk(t, p, job.spec.partitions[p].start)
    ensures ForPartition(Fold(job, out).evaluated, p) == Held(t, p, job.spec.partitions[p])
  {
    hide Fold;
    FoldReadsTheLog(job, [], out, p);
  }

  lemma EvaluatedInScope(job: Job, rs: seq<Record>)
    ensures forall r :: r in Fold(job, rs).evaluated ==> r.partition in job.spec.partitions
  {
    hide Fold, Emissions, TotalSize, SkippedCount, Remaining;
    FoldIsConsistent(job, rs);
  }

  // Reading what each window holds weighs what all of them hold.
  lemma HeldWeighs(t: Topic, windows: map<int, Window>, rs: seq<Record>, weight: Record -> nat)
    requires forall r :: r in rs ==> r.partition in windows
    requires forall p :: p in windows ==> ForPartition(rs, p) == Held(t, p, windows[p])
    ensures Weigh(weight, rs) == Amount(t, windows, weight)
  {
    hide Held, ForPartition;
    WeighByPartition(weight, windows.Keys, rs);
    assert Weights(weight, windows.Keys, rs) == map p | p in windows :: Weigh(weight, Held(t, p, windows[p]));
  }

  lemma AmountIsEvaluated(job: Job, t: Topic, out: seq<Record>, after: map<int, int>, weight: Record -> nat)
    requires WellFormed(job.spec.topic, t) && IsPoll(t, Starts(job.spec.partitions), out, after)
    requires AllReachable(t, job.spec.partitions)
    ensures Weigh(weight, Fold(job, out).evaluated) == Amount(t, job.spec.partitions, weight)
  {
    hide Fold, IsPoll, WellFormed, Reachable, Held, Amount;
    var windows, all := job.spec.partitions, Fold(job, out).evaluated;
    EvaluatedInScope(job, out);
    forall p | p in windows ensures ForPartition(all, p) == Held(t, p, windows[p]) {
      EvaluatesWhatIsHeld(job, t, out, after, p);
    }
    HeldWeighs(t, windows, all, weight);
  }

  /** Everything the windows hold can be read without hitting a bound. */
  ghost predicate AllFits(job: Job, t: Topic) {
    var windows := job.spec.partitions;
    var matched, scanned, bytes :=
      Amount(t, windows, Matched(job)), Amount(t, windows, One()), Amount(t, windows, Size());
    matched >= 0 && scanned >= 0 && bytes >= 0 && HitBound(job.spec, matched, scanned, bytes) == NotStopped
  }

  lemma AllFitsIff(job: Job, t: Topic, out: seq<Record>, after: map<int, int>)
    requires WellFormed(job.spec.topic, t) && IsPoll(t, Starts(job.spec.partitions), out, after)
    requires AllReachable(t, job.spec.partitions)
    ensures AllFits(job, t) <==> Fits(job, Fold(job, out).evaluated)
  {
    hide Fold, IsPoll, WellFormed, AllReachable, Amount;
    AmountIsEvaluated(job, t, out, after, Matched(job));
    AmountIsEvaluated(job, t, out, after, One());
    AmountIsEvaluated(job, t, out, after, Size());
    CountersAreWeights(job, Fold(job, out).evaluated);
  }

  // ---- What a run on the fake reports ----

  /** An answered run over a topic at rest whose windows are all reachable. */
  ghost predicate RunsOnFake(job: Job, t: Topic, polls: seq<PollAnswer>, answer: Answer) {
    && WellFormed(job.spec.topic, t) && AllReachable(t, job.spec.partitions)
    && FakeAnswers(t, job.spec.partitions, polls)
    && Runs(job, None, polls, answer) && answer.Answered?
  }

  /** The run itself: no poll when there is nothing to read, else one. */
  lemma RunIsOnePoll(job: Job, t: Topic, out: seq<Record>, after: map<int, int>)
    requires WellFormed(job.spec.topic, t) && IsPoll(t, Starts(job.spec.partitions), out, after)
    requires AllReachable(t, job.spec.partitions)
    ensures Exhausted(job.spec, Fold(job, out).cursor)
    ensures
      var (s, bound) := Batch(job, Start(job.spec), out);
      if Exhausted(job.spec, Starts(job.spec.partitions))
      then
        && Fold(job, out) == Start(job.spec)
        && Ran(job, [Delivered(out, false)]) == (Start(job.spec), Finished(true, NotStopped))
      else Ran(job, [Delivered(out, false)]) == (s, Finished(bound == NotStopped, bound))
  {
    hide Fold, IsPoll, WellFormed, Batch;
    forall p | p in job.spec.partitions
      ensures p in Fold(job, out).cursor && Fold(job, out).cursor[p] >= job.spec.partitions[p].end
    {
      FirstPollExhaustsIff(job, t, out, after, p);
    }
    if Exhausted(job.spec, Starts(job.spec.partitions)) {
      NothingToFold(job, out);
    } else {
      OnePollIsEnough(job, t, out, after);
    }
  }

  lemma NothingToFold(job: Job, out: seq<Record>)
    requires Exhausted(job.spec, Starts(job.spec.partitions))
    ensures Fold(job, out) == Start(job.spec)
  {
    assert Fold(job, []) == Start(job.spec);
    ExhaustedFoldStays(job, [], out);
    assert [] + out == out;
  }

  /** What one delivered poll makes of a run: it reports the end exactly when everything
      fits, and has read it exactly when all but the last record do. */
  lemma OnePollEnds(job: Job, t: Topic, out: seq<Record>, after: map<int, int>)
    requires WellFormed(job.spec.topic, t) && IsPoll(t, Starts(job.spec.partitions), out, after)
    requires AllReachable(t, job.spec.partitions)
    ensures
      var (s, end) := Ran(job, [Delivered(out, false)]);
      && end.Finished? && (end.reachedEnd <==> AllFits(job, t))
      && (Exhausted(job.spec, s.cursor) <==> NearlyFits(job, Fold(job, out).evaluated))
  {
    hide Fold, IsPoll, WellFormed, AllReachable, Batch, Emissions, TotalSize, AllFits, HitBound, Ran;
    RunIsOnePoll(job, t, out, after);
    AllFitsIff(job, t, out, after);
    BatchReadsAllIff(job, out);
    if Exhausted(job.spec, Starts(job.spec.partitions)) {
      UnderIsFits(job, out);
      StartIsUnder(job.spec);
    }
  }

  // A run that needed no poll is the run that gets one and needs none of it.
  lemma AsOnePoll(job: Job, t: Topic, polls: seq<PollAnswer>, answer: Answer)
    returns (out: seq<Record>, after: map<int, int>)
    requires RunsOnFake(job, t, polls, answer)
    ensures IsPoll(t, Starts(job.spec.partitions), out, after)
    ensures
      var (s, end) := Ran(job, [Delivered(out, false)]);
      && end.Finished? && answer.stats.reachedEnd == (job.spec.latest || end.reachedEnd)
      && (!job.spec.latest ==> answer.stats.continuation == s.cursor)
      && Ran(job, polls) == (s, end)
  {
    hide AllReachable, WellFormed, IsPoll, Emits;
    if polls == [] {
      out, after := SomePoll(t, Starts(job.spec.partitions));
    } else {
      out, after :| IsPoll(t, Starts(job.spec.partitions), out, after) && polls == [Delivered(out, false)];
    }
  }

  /** The report, for any bounds and any matcher: a scan of reachable windows says it
      reached the end exactly when it is a latest scan or everything the windows hold
      stays under the bounds. */
  lemma ReportsEndIff(job: Job, t: Topic, polls: seq<PollAnswer>, answer: Answer)
    requires RunsOnFake(job, t, polls, answer)
    ensures answer.stats.reachedEnd <==> job.spec.latest || AllFits(job, t)
  {
    hide AllFits, AllReachable, WellFormed, IsPoll, Ran, Fold, Runs;
    var out, after := AsOnePoll(job, t, polls, answer);
    OnePollEnds(job, t, out, after);
  }

  lemma SomePoll(t: Topic, cursor: map<int, int>) returns (out: seq<Record>, after: map<int, int>)
    ensures IsPoll(t, cursor, out, after)
  {
    var order := SomeOrder(cursor.Keys);
    out, after := ChunksInOrder(t, cursor, order), map p | p in cursor :: PollCursor(t, p, cursor[p]);
    PollExists(t, cursor, order);
  }

  lemma PollExists(t: Topic, cursor: map<int, int>, order: seq<int>)
    requires Orders(order, cursor.Keys)
    ensures IsPoll(t, cursor, ChunksInOrder(t, cursor, order), map p | p in cursor :: PollCursor(t, p, cursor[p]))
  {
  }

  lemma {:induction false} SomeOrder(keys: set<int>) returns (order: seq<int>)
    ensures Orders(order, keys)
  {
    order := [];
    if k :| k in keys {
      var rest := SomeOrder(keys - {k});
      order := rest + [k];
    }
  }

  // ---- A limit alone ----

  /** A non-latest read of everything, whose only bound is its limit, if it has one. */
  ghost predicate LimitOnly(job: Job, limit: int) {
    && job.matcher == MATCH_ALL && !job.spec.latest && job.spec.maxMessages == limit
    && job.spec.maxScanned <= 0 && job.spec.maxBytes <= 0
  }

  lemma LimitFitsIff(job: Job, limit: int, rs: seq<Record>)
    requires LimitOnly(job, limit)
    ensures Fits(job, rs) <==> limit <= 0 || |rs| < limit
  {
    hide Emissions;
    ScanLatest.MatchAllEmitsAll(job, rs);
  }

  lemma HeldCountIsEvaluated(job: Job, t: Topic, out: seq<Record>, after: map<int, int>)
    requires WellFormed(job.spec.topic, t) && IsPoll(t, Starts(job.spec.partitions), out, after)
    requires AllReachable(t, job.spec.partitions)
    ensures |Fold(job, out).evaluated| == HeldCount(t, job.spec.partitions)
  {
    hide Fold, IsPoll, WellFormed, AllReachable, Total, Held, Emissions, TotalSize, Weigh;
    var windows := job.spec.partitions;
    AmountIsEvaluated(job, t, out, after, One());
    CountersAreWeights(job, Fold(job, out).evaluated);
    forall p | p in windows ensures Weigh(One(), Held(t, p, windows[p])) == |Held(t, p, windows[p])| {
      CountersAreWeights(job, Held(t, p, windows[p]));
    }
    assert (map p | p in windows :: Weigh(One(), Held(t, p, windows[p])))
      == map p | p in windows :: |Held(t, p, windows[p])|;
  }

  /** With a limit as the only bound everything is read exactly when the windows hold no
      more than the limit, but the end is reported only when they hold less: a limit met
      by the very last record reports that there is more. */
  lemma LimitEndsIff(job: Job, t: Topic, polls: seq<PollAnswer>, answer: Answer, limit: int)
    requires RunsOnFake(job, t, polls, answer) && LimitOnly(job, limit)
    ensures answer.stats.reachedEnd <==> limit <= 0 || HeldCount(t, job.spec.partitions) < limit
    ensures Exhausted(job.spec, answer.stats.continuation) <==> limit <= 0 || HeldCount(t, job.spec.partitions) <= limit
  {
    hide AllFits, Fits, AllReachable, WellFormed, IsPoll, Ran, Fold, Runs, Exhausted, HeldCount;
    var out, after := AsOnePoll(job, t, polls, answer);
    var all := Fold(job, out).evaluated;
    OnePollEnds(job, t, out, after);
    AllFitsIff(job, t, out, after);
    HeldCountIsEvaluated(job, t, out, after);
    LimitFitsIff(job, limit, all);
    if all != [] {
      LimitFitsIff(job, limit, all[..|all| - 1]);
    }
  }

  // ---- Whatever the walk order ----

  /** The windows' contents without the last record of partition p fit. */
  ghost predicate AllButLastFits(job: Job, t: Topic, p: int)
    requires p in job.spec.partitions
  {
    var windows, held := job.spec.partitions, Held(t, p, job.spec.partitions[p]);
    held != [] ==>
      var last := held[|held| - 1];
      var matched := Amount(t, windows, Matched(job)) - |Emission(job, last)|;
      var scanned, bytes := Amount(t, windows, One()) - 1, Amount(t, windows, Size()) - RawSize(last);
      matched >= 0 && scanned >= 0 && bytes >= 0 && HitBound(job.spec, matched, scanned, bytes) == NotStopped
  }

  lemma {:induction false} LastOfItsPartition(rs: seq<Record>)
    requires rs != []
    ensures
      var last := rs[|rs| - 1];
      var own := ForPartition(rs, last.partition);
      own != [] && own[|own| - 1] == last
  {
  }

  // A delivered order tells which partition comes last.
  lemma LastHeld(job: Job, t: Topic, out: seq<Record>, after: map<int, int>) returns (p: int)
    requires WellFormed(job.spec.topic, t) && IsPoll(t, Starts(job.spec.partitions), out, after)
    requires AllReachable(t, job.spec.partitions) && Fold(job, out).evaluated != []
    ensures p in job.spec.partitions && Held(t, p, job.spec.partitions[p]) != []
    ensures p == Fold(job, out).evaluated[|Fold(job, out).evaluated| - 1].partition
    ensures NearlyFits(job, Fold(job, out).evaluated) <==> AllButLastFits(job, t, p)
  {
    hide Fold, IsPoll, WellFormed, Reachable, Held, HitBound, Emission, Emissions, TotalSize, Amount;
    var all := Fold(job, out).evaluated;
    var init, last := all[..|all| - 1], all[|all| - 1];
    p := last.partition;
    EvaluatedInScope(job, out);
    assert last in all;
    EvaluatesWhatIsHeld(job, t, out, after, p);
    LastOfItsPartition(all);
    AmountIsEvaluated(job, t, out, after, Matched(job));
    AmountIsEvaluated(job, t, out, after, One());
    AmountIsEvaluated(job, t, out, after, Size());
    assert all == init + [last];
    WeighSnoc(Matched(job), init, last);
    WeighSnoc(One(), init, last);
    WeighSnoc(Size(), init, last);
    CountersAreWeights(job, init);
  }

  // A partition walked last is read last.
  lemma WalkedLast(job: Job, t: Topic, p: int) returns (out: seq<Record>, after: map<int, int>)
    requires WellFormed(job.spec.topic, t) && AllReachable(t, job.spec.partitions)
    requires p in job.spec.partitions && Held(t, p, job.spec.partitions[p]) != []
    ensures IsPoll(t, Starts(job.spec.partitions), out, after) && Fold(job, out).evaluated != []
    ensures Fold(job, out).evaluated[|Fold(job, out).evaluated| - 1].partition == p
  {
    hide Fold, WellFormed, Reachable, Held, PollChunk, PollCursor;
    var cursor := Starts(job.spec.partitions);
    var others := SomeOrder(cursor.Keys - {p});
    PollExists(t, cursor, others + [p]);
    ChunksSnoc(t, cursor, others, p);
    var before, chunk := ChunksInOrder(t, cursor, others), PollChunk(t, p, cursor[p]);
    out, after := before + chunk, map q | q in cursor :: PollCursor(t, q, cursor[q]);
    ChunksProject(job.spec.topic, t, cursor, others, p);
    ChunkIsOwn(job.spec.topic, t, p, cursor[p]);
    EvaluatesWhatIsHeld(job, t, out, after, p);
    LastFromChunk(job, before, chunk, p);
  }

  lemma ChunkIsOwn(name: string, t: Topic, p: int, cursor: int)
    requires WellFormed(name, t)
    ensures forall r :: r in PollChunk(t, p, cursor) ==> r.partition == p
  {
    assert 0 <= p < |t.partitions| ==> Contiguous(name, p, t.partitions[p]);
  }

  lemma LastFromChunk(job: Job, before: seq<Record>, chunk: seq<Record>, p: int)
    requires ForPartition(before, p) == [] && (forall r :: r in chunk ==> r.partition == p)
    requires ForPartition(Fold(job, before + chunk).evaluated, p) != []
    ensures
      var all := Fold(job, before + chunk).evaluated;
      all != [] && all[|all| - 1].partition == p
  {
    hide Fold;
    var more := FoldAppends(job, before, chunk);
    var first := Fold(job, before).evaluated;
    EvaluatedWereSeen(job, before);
    forall r | r in first ensures r.partition != p {
      InForPartition(before, p, r);
    }
    ForPartitionOfOther(first, p);
    ForPartitionJoins(first, more, p);
    assert more[|more| - 1] in more;
  }

  lemma {:induction false} FoldAppends(job: Job, seen: seq<Record>, rs: seq<Record>) returns (more: seq<Record>)
    ensures Fold(job, seen + rs).evaluated == Fold(job, seen).evaluated + more
    ensures forall r :: r in more ==> r in rs
  {
    hide Step;
    more := [];
    if rs == [] {
      assert seen + rs == seen;
    } else {
      var n := |rs| - 1;
      assert seen + rs == seen + rs[..n] + [rs[n]];
      FoldSnoc(job, seen + rs[..n], rs[n]);
      StepGrows(job, Fold(job, seen + rs[..n]), rs[n]);
      more := FoldAppends(job, seen, rs[..n]);
      if Counts(job.spec, Fold(job, seen + rs[..n]).cursor, rs[n]) {
        more := more + [rs[n]];
      }
    }
  }

  /** Everything the windows hold is sure to be read, whatever order the session's map is
      walked in, exactly when it fits without the last record of any one partition. A
      latest scan reports the end in any case, so this is when its report is sure to be true. */
  lemma ReadsAllIff(job: Job, t: Topic)
    requires WellFormed(job.spec.topic, t) && AllReachable(t, job.spec.partitions)
    ensures
      (forall out, after :: IsPoll(t, Starts(job.spec.partitions), out, after) ==>
         Exhausted(job.spec, Ran(job, [Delivered(out, false)]).0.cursor))
      <==> forall p :: p in job.spec.partitions ==> AllButLastFits(job, t, p)
  {
    hide Fold, IsPoll, WellFormed, AllReachable, AllButLastFits, NearlyFits, Ran, Exhausted, AllFits;
    var starts := Starts(job.spec.partitions);
    if forall p :: p in job.spec.partitions ==> AllButLastFits(job, t, p) {
      forall out, after | IsPoll(t, starts, out, after)
        ensures Exhausted(job.spec, Ran(job, [Delivered(out, false)]).0.cursor)
      {
        OnePollEnds(job, t, out, after);
        if Fold(job, out).evaluated == [] {
          NothingNearlyFits(job);
        } else {
          var p := LastHeld(job, t, out, after);
        }
      }
    } else {
      var p :| p in job.spec.partitions && !AllButLastFits(job, t, p);
      NothingHeldNearlyFits(job, t, p);
      var out, after := WalkedLast(job, t, p);
      OnePollEnds(job, t, out, after);
      var q := LastHeld(job, t, out, after);
      assert q == p && IsPoll(t, starts, out, after);
    }
  }

  lemma NothingNearlyFits(job: Job)
    ensures NearlyFits(job, [])
  {
  }

  lemma NothingHeldNearlyFits(job: Job, t: Topic, p: int)
    requires p in job.spec.partitions && !AllButLastFits(job, t, p)
    ensures Held(t, p, job.spec.partitions[p]) != []
  {
  }

  // ---- Two reports at odds with what was read ----

  // One record, a limit of one: everything is read, and the end is not reported.
  lemma LimitMetReportsMore() returns (job: Job, t: Topic, polls: seq<PollAnswer>, answer: Answer)
    ensures RunsOnFake(job, t, polls, answer) && LimitOnly(job, 1)
    ensures Exhausted(job.spec, answer.stats.continuation) && !answer.stats.reachedEnd
  {
    var r := Record("t", 0, 0, 1, [], [], []);
    job := Job(Spec("t", map[0 := Window(0, 1)], false, 1, 0, 0, ""), Validity(b => true, b => true), MATCH_ALL);
    t := Topic(false, 1, [Partition(0, [r])], []);
    OnlyPartitionReaches(t, job.spec.partitions);
    polls, answer := SomeRun(job, t);
    hide Exhausted;
    OnlyPartitionHolds(t, 0, 1);
    LimitEndsIff(job, t, polls, answer, 1);
  }

  lemma OnlyPartitionReaches(t: Topic, windows: map<int, Window>)
    requires |t.partitions| == 1 && windows.Keys == {0}
    requires t.partitions[0].begin < windows[0].end <= t.partitions[0].End()
    ensures AllReachable(t, windows)
  {
  }

  lemma OnlyPartitionHolds(t: Topic, lo: int, hi: int)
    requires |t.partitions| == 1 && t.partitions[0].begin <= lo < hi <= t.partitions[0].End()
    ensures HeldCount(t, map[0 := Window(lo, hi)]) == hi - lo
  {
    var windows := map[0 := Window(lo, hi)];
    var counts := map p | p in windows :: |Held(t, p, windows[p])|;
    TotalWithout(counts, 0);
    assert counts - {0} == map[];
  }

  // A scan that is not latest is answered on the fake.
  lemma SomeRun(job: Job, t: Topic) returns (polls: seq<PollAnswer>, answer: Answer)
    requires WellFormed(job.spec.topic, t) && AllReachable(t, job.spec.partitions) && !job.spec.latest
    ensures RunsOnFake(job, t, polls, answer)
  {
    hide AllReachable, WellFormed, IsPoll, Fold, Batch, AllFits, Emissions;
    var out, after := SomePoll(t, Starts(job.spec.partitions));
    OnePollEnds(job, t, out, after);
    polls := [Delivered(out, false)];
    MatchedIsEmitted(job, polls);
    var (s, end) := Ran(job, polls);
    answer :=
      if job.spec.partitions == map[] then Answered(FinalStats(job.spec, Start(job.spec), 0, true, NotStopped), [])
      else Answered(FinalStats(job.spec, s, |s.emitted|, end.reachedEnd, end.stoppedBy), s.emitted);
  }

  // Two records of one byte, cut behind the first by a byte bound of one.
  ghost predicate CutCase(job: Job, t: Topic, first: Record, second: Record) {
    && job.spec.latest && job.spec.maxScanned <= 0 && job.spec.maxBytes == 1 && job.matcher == MATCH_ALL
    && job.spec.maxMessages > 0 && job.spec.partitions == map[0 := Window(0, 2)]
    && t.partitions == [Partition(0, [first, second])]
    && first.offset == 0 && second.offset == 1 && RawSize(first) == RawSize(second) == 1
    && first.partition == second.partition == 0 && first.topic == second.topic == job.spec.topic
  }

  lemma CutBehindFirst(job: Job, t: Topic, first: Record, second: Record)
    requires CutCase(job, t, first, second)
    ensures
      var s := Step(job, Start(job.spec), first);
      && Ran(job, [Delivered([first, second], false)]) == (s, Finished(false, MaxBytes))
      && s.cursor == map[0 := 1] && s.emitted == [Decode(job.validity, first, job.spec.format)]
  {
    hide Decode;
    var start, s, out := Start(job.spec), Step(job, Start(job.spec), first), [first, second];
    assert start.cursor == map[0 := 0] && Counts(job.spec, start.cursor, first);
    assert s.bytes == 1 && BoundAfter(job, start, first) == MaxBytes;
    assert Batch(job, start, out) == (s, MaxBytes);
    assert !Exhausted(job.spec, start.cursor);
  }

  lemma CutIsPolled(job: Job, t: Topic, first: Record, second: Record)
    requires CutCase(job, t, first, second)
    ensures WellFormed(job.spec.topic, t) && AllReachable(t, job.spec.partitions)
    ensures FakeAnswers(t, job.spec.partitions, [Delivered([first, second], false)])
  {
    hide ChunksInOrder, WellFormed, AllReachable, PollCursor;
    CutIsReachable(job, t, first, second);
    var cursor, out := Starts(job.spec.partitions), [first, second];
    assert Orders([0], cursor.Keys);
    PollExists(t, cursor, [0]);
    OnlyChunk(t, cursor, 0);
    assert PollChunk(t, 0, 0) == out[0..] == out;
  }

  lemma CutIsReachable(job: Job, t: Topic, first: Record, second: Record)
    requires CutCase(job, t, first, second)
    ensures WellFormed(job.spec.topic, t) && AllReachable(t, job.spec.partitions)
  {
  }

  lemma OnlyChunk(t: Topic, cursor: map<int, int>, p: int)
    requires p in cursor
    ensures ChunksInOrder(t, cursor, [p]) == PollChunk(t, p, cursor[p])
  {
    ChunksSnoc(t, cursor, [], p);
    assert [] + [p] == [p];
  }

  /** A latest read cut by its byte bound says it reached the end, with a record unread. */
  lemma CutLatestReportsEnd() returns (job: Job, t: Topic, polls: seq<PollAnswer>, answer: Answer)
    ensures RunsOnFake(job, t, polls, answer) && job.spec.latest && job.spec.maxBytes > 0
    ensures answer.stats.reachedEnd && !Exhausted(job.spec, Ran(job, polls).0.cursor)
  {
    var first, second := Record("t", 0, 0, 1, [], [0], []), Record("t", 0, 1, 2, [], [0], []);
    job := Job(Spec("t", map[0 := Window(0, 2)], true, 2, 0, 1, ""), Validity(b => true, b => true), MATCH_ALL);
    t := Topic(false, 1, [Partition(0, [first, second])], []);
    polls, answer := CutRun(job, t, first, second);
  }

  lemma CutRun(job: Job, t: Topic, first: Record, second: Record) returns (polls: seq<PollAnswer>, answer: Answer)
    requires CutCase(job, t, first, second)
    ensures RunsOnFake(job, t, polls, answer)
    ensures answer.stats.reachedEnd && !Exhausted(job.spec, Ran(job, polls).0.cursor)
  {
    hide Ran, Step, Decode, WellFormed, AllReachable, FakeAnswers;
    polls := [Delivered([first, second], false)];
    CutBehindFirst(job, t, first, second);
    CutIsPolled(job, t, first, second);
    var s := Step(job, Start(job.spec), first);
    assert 0 in job.spec.partitions && job.spec.partitions != map[];
    assert NewestFirst(s.emitted) && CutToLimit(job.spec, s.emitted) == s.emitted;
    answer := Answered(FinalStats(job.spec, s, 1, false, MaxBytes), s.emitted);
  }
}

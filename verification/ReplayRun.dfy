/** A whole replay on the in-memory cluster, planned and applied: what the target gains
    (internal/service/message/replay.go; section 9.3 of the functional specification). */
module ReplayRun {
  import opened Kafka
  import opened Logs
  import opened Codec
  import opened Scan
  import opened ScanSafety
  import opened ScanResume
  import opened ScanBounds
  import opened FakeCluster
  import opened FakeServer
  import opened FakeFeed
  import opened FakeEnd
  import opened MessageWindow
  import opened Replay
  import opened ReplaySafety
  import ScanLatest

  /** What applying a plan does to the topics, by whatever answer its scan got. */
  ghost predicate Applied(plan: Plan, validity: Validity, clock: nat -> int, before: map<string, Topic>,
                          after: map<string, Topic>, outcome: Outcome, polls: seq<PollAnswer>, answer: Answer)
  {
    && plan.sourceTopic in before && plan.target in before
    && RunsOnFake(JobOf(plan, validity), before[plan.sourceTopic], polls, answer)
    && var requests := RequestsOf(answer.items, plan.preserve);
       if answer.items == [] || requests.Err? then
         after == before && outcome == OutcomeOf(plan.windows, plan.preserve, answer, CallFailed(Broker))
       else
         var (target, results) := ProduceAll(plan.target, before[plan.target], requests.value, clock);
         && after == before[plan.target := target] && |results| == |answer.items|
         && outcome == OutcomeOf(plan.windows, plan.preserve, answer, Results(results))
  }

  /** A partition kept what it had and gained copies of the given records, in order. */
  ghost predicate Gains(was: Partition, now: Partition, rs: seq<Record>) {
    now.begin == was.begin && was.records <= now.records && Copies(now.records[|was.records|..], rs)
  }

  /** What a replay's cursor has passed in a window of the source. */
  ghost function Passed(source: Topic, windows: map<int, Window>, cursor: map<int, int>, p: int): seq<Record> {
    if p in windows && p in cursor then Held(source, p, Window(windows[p].start, cursor[p])) else []
  }

  /** Every target partition gained copies of exactly what the cursor passed in the source
      partition of its number; nothing else changed. */
  ghost predicate CopiedExactly(plan: Plan, before: map<string, Topic>, after: map<string, Topic>,
                                cursor: map<int, int>)
    requires plan.sourceTopic in before && plan.target in before
  {
    && after.Keys == before.Keys && after == before[plan.target := after[plan.target]]
    && var was, now := before[plan.target], after[plan.target];
       && |now.partitions| == |was.partitions| && now == was.(partitions := now.partitions)
       && forall p :: 0 <= p < |was.partitions| ==>
            Gains(was.partitions[p], now.partitions[p], Passed(before[plan.sourceTopic], plan.windows, cursor, p))
  }

  /** Partition numbers are preserved and the target has them all, as planning checks. */
  ghost predicate Preserves(plan: Plan, target: Topic) {
    plan.preserve && forall p :: p in plan.windows ==> p < |target.partitions|
  }

  // ---- The attempt behind an applied plan ----

  // What the producer would answer to the requests of a scan.
  ghost function AnswerOf(plan: Plan, target: Topic, clock: nat -> int, answer: Answer): ProduceAnswer
    requires answer.Answered?
  {
    var requests := RequestsOf(answer.items, plan.preserve);
    if requests.Err? then CallFailed(Broker)
    else Results(ProduceAll(plan.target, target, requests.value, clock).1)
  }

  ghost function TryOf(plan: Plan, validity: Validity, target: Topic, clock: nat -> int, polls: seq<PollAnswer>,
                       answer: Answer, outcome: Outcome): Try
    requires answer.Answered?
  {
    Try(JobOf(plan, validity), polls, answer, plan.preserve, AnswerOf(plan, target, clock, answer), outcome)
  }

  lemma AppliedIsTry(plan: Plan, validity: Validity, clock: nat -> int, before: map<string, Topic>,
                     after: map<string, Topic>, outcome: Outcome, polls: seq<PollAnswer>, answer: Answer)
    requires Applied(plan, validity, clock, before, after, outcome, polls, answer)
    ensures
      var source := before[plan.sourceTopic];
      IsTry(TryOf(plan, validity, before[plan.target], clock, polls, answer, outcome),
            LogsOf(source, plan.windows.Keys))
  {
    hide Runs, LogsFor, Faithful, WellFormed, FakeAnswers, AllReachable, RequestsOf, ProduceAll, Accounted;
    FakeIsFaithful(plan.sourceTopic, before[plan.sourceTopic], plan.windows, polls);
    if RequestsOf(answer.items, plan.preserve).Ok? {
      var requests := RequestsOf(answer.items, plan.preserve).value;
      ProduceOnlyAppends(plan.target, before[plan.target], requests, clock);
      OneRequestEach(answer.items, plan.preserve);
    }
  }

  lemma {:induction false} OneRequestEach(items: seq<Item>, preserve: bool)
    ensures RequestsOf(items, preserve).Ok? ==> |RequestsOf(items, preserve).value| == |items|
  {
    if items != [] {
      OneRequestEach(items[..|items| - 1], preserve);
    }
  }

  // ---- Copies on the target ----

  // One target partition: copies of what was read of its number, nothing otherwise.
  lemma GainsWhatWasRead(t: Try, source: Topic, name: string, target: Topic, requests: seq<ProduceRequest>,
                         clock: nat -> int, p: int)
    requires IsTry(t, LogsOf(source, t.job.spec.partitions.Keys)) && WellFormed(t.job.spec.topic, source)
    requires 0 <= p < |target.partitions|
    requires
      var rs := Ran(t.job, t.polls).0.evaluated;
      |requests| == |rs| && forall i :: 0 <= i < |rs| ==> requests[i] == CopyOf(rs[i], true)
    ensures
      var now := ProduceAll(name, target, requests, clock).0;
      && |now.partitions| == |target.partitions| && now == target.(partitions := now.partitions)
      && Gains(target.partitions[p], now.partitions[p],
               Passed(source, t.job.spec.partitions, Ran(t.job, t.polls).0.cursor, p))
  {
    hide Ran, IsTry, ProduceAll, Appended, Copies;
    ProduceOnlyAppends(name, target, requests, clock);
    AppendedCopies(name, target, Ran(t.job, t.polls).0.evaluated, requests, clock, p);
    ReadIsPassed(t, source, p);
    var was := target.partitions[p].records;
    assert (was + Appended(name, target, requests, clock, p))[|was|..] == Appended(name, target, requests, clock, p);
  }

  lemma ReadIsPassed(t: Try, source: Topic, p: int)
    requires IsTry(t, LogsOf(source, t.job.spec.partitions.Keys)) && WellFormed(t.job.spec.topic, source)
    ensures
      var s := Ran(t.job, t.polls).0;
      ForPartition(s.evaluated, p) == Passed(source, t.job.spec.partitions, s.cursor, p)
  {
    hide Ran, Runs, Faithful, OutcomeOf, Emissions, WellFormed;
    var s := Ran(t.job, t.polls).0;
    if p in t.job.spec.partitions {
      ScanReadsTheLog(t.job, LogsOf(source, t.job.spec.partitions.Keys), t.polls, p);
      BetweenIsHeld(t.job.spec.topic, source, p, t.job.spec.partitions[p].start, s.cursor[p]);
    } else {
      ScanLatest.BufferIsEvaluated(t.job, t.polls);
      ForPartitionOfOther(s.evaluated, p);
    }
  }

  lemma NothingGained(was: Partition)
    ensures Gains(was, was, [])
  {
  }

  lemma NothingPassed(source: Topic, windows: map<int, Window>, p: int)
    ensures Passed(source, windows, Starts(windows), p) == []
  {
  }

  lemma EmptyReplayCopies(plan: Plan, validity: Validity, clock: nat -> int, before: map<string, Topic>,
                          after: map<string, Topic>, outcome: Outcome, polls: seq<PollAnswer>, answer: Answer)
    requires Applied(plan, validity, clock, before, after, outcome, polls, answer) && answer.items == []
    ensures outcome == Done(0, Starts(plan.windows), answer.stats.reachedEnd)
    ensures CopiedExactly(plan, before, after, outcome.cursor)
  {
    hide Held, Runs, AllReachable, WellFormed, FakeAnswers;
    forall p | 0 <= p < |before[plan.target].partitions|
      ensures Gains(before[plan.target].partitions[p], before[plan.target].partitions[p],
                    Passed(before[plan.sourceTopic], plan.windows, Starts(plan.windows), p))
    {
      NothingPassed(before[plan.sourceTopic], plan.windows, p);
      NothingGained(before[plan.target].partitions[p]);
    }
  }

  lemma FullReplayCopies(plan: Plan, validity: Validity, clock: nat -> int, before: map<string, Topic>,
                         after: map<string, Topic>, outcome: Outcome, polls: seq<PollAnswer>, answer: Answer)
    requires Applied(plan, validity, clock, before, after, outcome, polls, answer) && answer.items != []
    requires !plan.latest && Preserves(plan, before[plan.target])
    ensures outcome.Done? && CopiedExactly(plan, before, after, outcome.cursor)
  {
    hide Ran, IsTry, ProduceAll, RunsOnFake, Gains, Passed, RequestsOf;
    AppliedIsWellFormed(plan, validity, clock, before, after, outcome, polls, answer);
    var source, target := before[plan.sourceTopic], before[plan.target];
    var t := TryOf(plan, validity, target, clock, polls, answer, outcome);
    AppliedIsTry(plan, validity, clock, before, after, outcome, polls, answer);
    var requests := VerbatimSucceeds(t, LogsOf(source, plan.windows.Keys), plan.target, target, clock);
    ProduceOnlyAppends(plan.target, target, requests, clock);
    forall p | 0 <= p < |target.partitions|
      ensures Gains(target.partitions[p], after[plan.target].partitions[p],
                    Passed(source, plan.windows, outcome.cursor, p))
    {
      GainsWhatWasRead(t, source, plan.target, target, requests, clock, p);
    }
  }

  lemma AppliedIsWellFormed(plan: Plan, validity: Validity, clock: nat -> int, before: map<string, Topic>,
                            after: map<string, Topic>, outcome: Outcome, polls: seq<PollAnswer>, answer: Answer)
    requires Applied(plan, validity, clock, before, after, outcome, polls, answer)
    ensures answer.Answered? && RunsOnFake(JobOf(plan, validity), before[plan.sourceTopic], polls, answer)
    ensures WellFormed(plan.sourceTopic, before[plan.sourceTopic])
  {
  }

  /** Every window record has been copied. */
  ghost predicate CopiesWhole(plan: Plan, source: Topic, cursor: map<int, int>) {
    forall p :: p in plan.windows ==> Passed(source, plan.windows, cursor, p) == Held(source, p, plan.windows[p])
  }

  lemma ExhaustedCopiesWhole(plan: Plan, source: Topic, cursor: map<int, int>)
    requires CursorsInRange(plan.windows, cursor)
    requires forall p :: p in plan.windows ==> cursor[p] >= plan.windows[p].end
    ensures CopiesWhole(plan, source, cursor)
  {
  }

  /** A planned and applied replay that preserves partition numbers always succeeds on the
      cluster. Every target partition gains copies of exactly the window slice the cursor
      passed in the source, in order, and nothing else changes; the slices are the whole
      windows when these hold no more than the limit, and the end is reported when they
      hold less. */
  lemma ReplayCopiesWindows(plan: Plan, validity: Validity, clock: nat -> int, before: map<string, Topic>,
                            after: map<string, Topic>, outcome: Outcome, polls: seq<PollAnswer>, answer: Answer)
    requires Applied(plan, validity, clock, before, after, outcome, polls, answer)
    requires !plan.latest && Preserves(plan, before[plan.target])
    ensures outcome.Done? && CursorsInRange(plan.windows, outcome.cursor)
    ensures CopiedExactly(plan, before, after, outcome.cursor)
    ensures
      var source := before[plan.sourceTopic];
      var held := HeldCount(source, plan.windows);
      && (outcome.reachedEnd <==> plan.limit <= 0 || held < plan.limit)
      && (plan.limit <= 0 || held <= plan.limit ==> CopiesWhole(plan, source, outcome.cursor))
  {
    hide Ran, IsTry, ProduceAll, RunsOnFake, CopiedExactly, CopiesWhole, RequestsOf, HeldCount, Runs, Preserves,
      AnswerOf;
    AppliedIsWellFormed(plan, validity, clock, before, after, outcome, polls, answer);
    var source := before[plan.sourceTopic];
    var t := TryOf(plan, validity, before[plan.target], clock, polls, answer, outcome);
    AppliedIsTry(plan, validity, clock, before, after, outcome, polls, answer);
    if answer.items == [] {
      EmptyReplayCopies(plan, validity, clock, before, after, outcome, polls, answer);
    } else {
      FullReplayCopies(plan, validity, clock, before, after, outcome, polls, answer);
    }
    hide Applied;
    SuccessIsContinuation(t, LogsOf(source, plan.windows.Keys));
    ItemsAreEvaluated(t, LogsOf(source, plan.windows.Keys));
    CursorsStayInRange(t.job, polls);
    LimitEndsIff(t.job, source, polls, answer, plan.limit);
    if plan.limit <= 0 || HeldCount(source, plan.windows) <= plan.limit {
      ExhaustedCopiesWhole(plan, source, outcome.cursor);
    }
  }

  // ---- Without preserved partitions ----

  /** The records of one key, in order. */
  ghost function OfKey(rs: seq<Record>, key: Bytes): seq<Record> {
    if rs == [] then [] else
      OfKey(rs[..|rs| - 1], key) + if rs[|rs| - 1].key == key then [rs[|rs| - 1]] else []
  }

  /** The one partition the fake's producer gives a key. */
  ghost function HomeOf(key: Bytes, count: nat): int
    requires count > 0
  {
    if key == [] then 0 else HashKey(key) % count
  }

  lemma OfKeySnoc(rs: seq<Record>, r: Record, key: Bytes)
    ensures OfKey(rs + [r], key) == if r.key == key then OfKey(rs, key) + [r] else OfKey(rs, key)
  {
    assert (rs + [r])[..|rs|] == rs;
  }

  lemma {:induction false} AppendedByKey(name: string, target: Topic, rs: seq<Record>, requests: seq<ProduceRequest>,
                                         clock: nat -> int, p: int, key: Bytes)
    requires |requests| == |rs| && forall i :: 0 <= i < |rs| ==> requests[i] == CopyOf(rs[i], false)
    requires 0 <= p < |target.partitions|
    ensures Copies(OfKey(Appended(name, target, requests, clock, p), key),
                   if p == HomeOf(key, |target.partitions|) then OfKey(rs, key) else [])
  {
    hide HashKey, OfKey, HomeOf;
    if rs == [] {
      NothingOfKey(key);
    } else {
      var n := |rs| - 1;
      AppendedByKey(name, target, rs[..n], requests[..n], clock, p, key);
      HomeIsChosen(target, requests[n]);
      var before, r := Appended(name, target, requests[..n], clock, p), rs[n];
      var stored := Record(name, p, target.partitions[p].End() + |before|, StampedAt(requests[n], clock(n)),
                           r.key, r.value, r.headers);
      OfKeySnoc(before, stored, key);
      OfKeySnoc(rs[..n], r, key);
      assert rs == rs[..n] + [r];
      assert Appended(name, target, requests, clock, p) ==
        if HomeOf(r.key, |target.partitions|) == p then before + [stored] else before;
    }
  }

  lemma NothingOfKey(key: Bytes)
    ensures OfKey([], key) == []
  {
  }

  lemma HomeIsChosen(t: Topic, r: ProduceRequest)
    requires r.partition.None? && t.partitions != []
    ensures ChosenPartition(t, r) == HomeOf(r.key, |t.partitions|)
  {
    hide HashKey;
    KeyDecidesPartition(t, r, t, r);
  }

  /** Without preservePartition the records of a key still keep their order: all of them
      go to the one partition the key's hash chooses, in the order they were read. */
  lemma KeysKeepOrder(plan: Plan, validity: Validity, clock: nat -> int, before: map<string, Topic>,
                      after: map<string, Topic>, outcome: Outcome, polls: seq<PollAnswer>, answer: Answer,
                      p: int, key: Bytes)
    requires Applied(plan, validity, clock, before, after, outcome, polls, answer)
    requires !plan.latest && !plan.preserve && 0 <= p < |before[plan.target].partitions|
    ensures
      var was, now := before[plan.target].partitions, after[plan.target].partitions;
      var rs := Ran(JobOf(plan, validity), polls).0.evaluated;
      && |now| == |was| && was[p].records <= now[p].records
      && Copies(OfKey(now[p].records[|was[p].records|..], key), if p == HomeOf(key, |was|) then OfKey(rs, key) else [])
  {
    hide Ran, IsTry, ProduceAll, RunsOnFake, RequestsOf, OfKey, HomeOf, Copies, Appended;
    AppliedIsWellFormed(plan, validity, clock, before, after, outcome, polls, answer);
    var source, target := before[plan.sourceTopic], before[plan.target];
    var t := TryOf(plan, validity, target, clock, polls, answer, outcome);
    AppliedIsTry(plan, validity, clock, before, after, outcome, polls, answer);
    var requests := RequestsOfTry(t, LogsOf(source, plan.windows.Keys));
    AppendedByKey(plan.target, target, Ran(t.job, polls).0.evaluated, requests, clock, p, key);
    ProduceOnlyAppends(plan.target, target, requests, clock);
    var was, added := target.partitions[p].records, Appended(plan.target, target, requests, clock, p);
    if answer.items == [] {
      NothingAppended(plan.target, target, requests, clock, p);
      assert was[|was|..] == [];
    } else {
      assert (was + added)[|was|..] == added;
    }
  }

  lemma NothingAppended(name: string, t: Topic, requests: seq<ProduceRequest>, clock: nat -> int, p: int)
    requires 0 <= p < |t.partitions| && requests == []
    ensures Appended(name, t, requests, clock, p) == []
  {
  }

  // ---- From request to copies ----

  function PlannedWindows(t: Topic, partitions: seq<int>, from: From, to: Option<From>, limit: int): map<int, Window> {
    map p | p in Selected(t, partitions) :: WindowOf(t, p, from, to, limit)
  }

  /** Plan and apply against one cluster. A request whose windows could never be read to
      their end would keep the scan waiting, so it is not considered here. */
  method ReplayRequest(fake: Fake, source: string, partitions: seq<int>, from: From, to: Option<From>, target: string,
                       preserve: bool, limit: int, range: Range, validity: Validity, clock: nat -> int)
      returns (r: Result<Outcome>, ghost plan: Plan)
    requires fake.LogInvariant()
    requires source in fake.topics && ResolveBound(limit, range).Ok? ==>
      AllReachable(fake.topics[source],
                   PlannedWindows(fake.topics[source], partitions, from, to, ResolveBound(limit, range).value))
    modifies fake
    ensures fake.LogInvariant()
    ensures r.Err? ==> fake.topics == old(fake.topics) && r.error in {BoundExceeded, NotFound, PartitionMismatch}
    ensures r.Ok? ==>
      && source in old(fake.topics) && target in old(fake.topics) && ResolveBound(limit, range) == Ok(plan.limit)
      && plan.sourceTopic == source && plan.target == target && plan.preserve == preserve
      && plan.windows == PlannedWindows(old(fake.topics)[source], partitions, from, to, plan.limit)
    ensures r.Ok? && preserve && !from.Latest? ==>
      var before, held := old(fake.topics), HeldCount(old(fake.topics)[source], plan.windows);
      && r.value.Done? && CopiedExactly(plan, before, fake.topics, r.value.cursor)
      && (r.value.reachedEnd <==> plan.limit <= 0 || held < plan.limit)
      && (plan.limit <= 0 || held <= plan.limit ==> CopiesWhole(plan, before[source], r.value.cursor))
  {
    ghost var before := fake.topics;
    var planned := PlanReplay(fake, source, partitions, from, to, target, preserve, limit, range);
    if planned.Err? {
      plan := Plan(source, target, preserve, false, limit, 0, 0, map[]);
      return Err(planned.error), plan;
    }
    plan := planned.value;
    assert fake.LogInvariant() && WellFormed(source, before[source]);
    var outcome, answer, polls := ReplayOnFake(planned.value, validity, fake, clock);
    assert Applied(plan, validity, clock, before, fake.topics, outcome, polls, answer);
    if preserve && !from.Latest? {
      ReplayCopiesWindows(plan, validity, clock, before, fake.topics, outcome, polls, answer);
    }
    return Ok(outcome), plan;
  }

  // ---- The estimate ----

  lemma {:induction false} TotalAtMost(a: map<int, int>, b: map<int, int>)
    requires a.Keys == b.Keys && forall k :: k in a ==> a[k] <= b[k]
    ensures Total(a) <= Total(b) && (Total(a) == Total(b) <==> forall k :: k in a ==> a[k] == b[k])
    decreases |a|
  {
    if k :| k in a {
      TotalWithout(a, k);
      TotalWithout(b, k);
      TotalAtMost(a - {k}, b - {k});
      assert a == (a - {k})[k := a[k]];
    }
  }

  /** The windows lie within their logs, as planning makes them unless an offset below
      begin was asked for. */
  ghost predicate WithinLogs(t: Topic, windows: map<int, Window>) {
    forall p :: p in windows ==>
      if 0 <= p < |t.partitions| then
        t.partitions[p].begin <= windows[p].start && windows[p].end <= t.partitions[p].End()
      else windows[p].end <= windows[p].start
  }

  /** A plan's estimate never exceeds what its windows hold, and is exactly that if and
      only if no window ends before it starts: such a window counts negatively. */
  lemma EstimateIffForward(name: string, t: Topic, windows: map<int, Window>)
    requires WellFormed(name, t) && WithinLogs(t, windows)
    ensures Estimate(windows) <= HeldCount(t, windows)
    ensures Estimate(windows) == HeldCount(t, windows) <==>
      forall p :: p in windows ==> windows[p].start <= windows[p].end
  {
    var widths := map p | p in windows :: windows[p].end - windows[p].start;
    var held := map p | p in windows :: |Held(t, p, windows[p])|;
    forall p | p in windows
      ensures held[p] == if windows[p].start <= windows[p].end then widths[p] else 0
    {
    }
    TotalAtMost(widths, held);
    assert (forall p :: p in widths ==> widths[p] == held[p]) <==>
      forall p :: p in windows ==> windows[p].start <= windows[p].end;
  }
}

/** A latest read shows the newest records of the whole topic
    (internal/scan/runner.go, internal/service/message/window.go). */
module ScanLatest {
  import opened Kafka
  import opened Logs
  import opened Codec
  import opened Scan
  import opened ScanSafety
  import opened ScanResume
  import opened FakeCluster
  import opened FakeFeed
  import opened MessageWindow
  import ScanBounds

  // ---- Counting the items at or after an instant ----

  ghost function CountFrom(items: seq<Item>, ts: int): nat {
    if items == [] then 0
    else CountFrom(items[..|items| - 1], ts) + if items[|items| - 1].timestamp >= ts then 1 else 0
  }

  lemma {:induction false} CountJoins(a: seq<Item>, b: seq<Item>, ts: int)
    ensures CountFrom(a + b, ts) == CountFrom(a, ts) + CountFrom(b, ts)
  {
    if b == [] {
      assert a + b == a;
    } else {
      assert (a + b)[..|a + b| - 1] == a + b[..|b| - 1];
      CountJoins(a, b[..|b| - 1], ts);
    }
  }

  lemma CountWithout(b: seq<Item>, k: nat, ts: int)
    requires k < |b|
    ensures
      var rest := b[..k] + b[k + 1..];
      && multiset(rest) == multiset(b) - multiset{b[k]}
      && CountFrom(b, ts) == CountFrom(rest, ts) + if b[k].timestamp >= ts then 1 else 0
  {
    assert b == b[..k] + [b[k]] + b[k + 1..];
    CountJoins(b[..k], b[k + 1..], ts);
    CountJoins(b[..k] + [b[k]], b[k + 1..], ts);
    CountJoins(b[..k], [b[k]], ts);
  }

  lemma {:induction false} CountIgnoresOrder(a: seq<Item>, b: seq<Item>, ts: int)
    requires multiset(a) == multiset(b)
    ensures CountFrom(a, ts) == CountFrom(b, ts)
    decreases |a|
  {
    if a == [] {
      assert |multiset(b)| == 0;
    } else {
      var n := |a| - 1;
      assert a[n] in multiset(a);
      var k :| 0 <= k < |b| && b[k] == a[n];
      CountWithout(b, k, ts);
      CountWithout(a, n, ts);
      CountIgnoresOrder(a[..n] + a[n + 1..], b[..k] + b[k + 1..], ts);
    }
  }

  lemma {:induction false} CountAtMost(items: seq<Item>, ts: int)
    ensures CountFrom(items, ts) <= |items|
  {
    if items != [] {
      CountAtMost(items[..|items| - 1], ts);
    }
  }

  lemma {:induction false} CountNone(items: seq<Item>, ts: int)
    requires forall item :: item in items ==> item.timestamp < ts
    ensures CountFrom(items, ts) == 0
  {
    if items != [] {
      CountNone(items[..|items| - 1], ts);
    }
  }

  lemma {:induction false} CountAll(items: seq<Item>, ts: int)
    requires forall item :: item in items ==> item.timestamp >= ts
    ensures CountFrom(items, ts) == |items|
  {
    if items != [] {
      CountAll(items[..|items| - 1], ts);
    }
  }

  lemma {:induction false} CountInPartition(items: seq<Item>, p: int, ts: int)
    ensures CountFrom(ItemsFor(items, p), ts) <= CountFrom(items, ts)
  {
    if items != [] {
      var init, last := items[..|items| - 1], items[|items| - 1];
      CountInPartition(init, p, ts);
      CountJoins(ItemsFor(init, p), if last.partition == p then [last] else [], ts);
    }
  }

  /** If a buffer holds n items no older than ts, the first n of any newest-first order
      of it are no older than ts. */
  lemma FirstOnesAreNew(buffer: seq<Item>, sorted: seq<Item>, n: nat, ts: int)
    requires NewestFirst(sorted) && multiset(sorted) == multiset(buffer)
    requires n <= |sorted| && n <= CountFrom(buffer, ts)
    ensures forall item :: item in sorted[..n] ==> item.timestamp >= ts
  {
    hide CountFrom;
    CountIgnoresOrder(sorted, buffer, ts);
    forall i | 0 <= i < n ensures sorted[i].timestamp >= ts {
      if sorted[i].timestamp < ts {
        assert sorted == sorted[..i] + sorted[i..];
        CountJoins(sorted[..i], sorted[i..], ts);
        CountAtMost(sorted[..i], ts);
        CountNone(sorted[i..], ts);
      }
    }
  }

  /** An item of the buffer was kept, or sorts behind everything that was. */
  lemma KeptOrBehind(buffer: seq<Item>, sorted: seq<Item>, n: nat, item: Item)
    requires NewestFirst(sorted) && multiset(sorted) == multiset(buffer) && item in buffer && n <= |sorted|
    ensures item in sorted[..n] || forall kept :: kept in sorted[..n] ==> kept.timestamp >= item.timestamp
  {
    assert item in multiset(buffer);
    var j :| 0 <= j < |sorted| && sorted[j] == item;
    if j < n {
      assert sorted[..n][j] == item;
    }
  }

  // ---- Counting by partition ----

  // Capping every summand, or not, does not matter under the same cap.
  lemma {:induction false} CappedTotal(full: map<int, int>, capped: map<int, int>, cap: nat)
    requires full.Keys == capped.Keys
    requires forall k :: k in full ==> 0 <= full[k] && capped[k] == if full[k] <= cap then full[k] else cap
    ensures 0 <= Total(capped) <= Total(full)
    ensures Total(capped) >= cap || Total(capped) == Total(full)
    decreases |full|
  {
    if k :| k in full {
      TotalWithout(full, k);
      TotalWithout(capped, k);
      CappedTotal(full - {k}, capped - {k}, cap);
    }
  }

  // ---- The theorem ----

  /** A latest read of some existing partitions, without a to, matching everything. */
  ghost predicate LatestRead(job: Job, t: Topic, selected: set<int>, limit: nat) {
    && job.spec.latest && job.spec.maxMessages == limit > 0 && job.matcher == MATCH_ALL
    && (forall p :: p in selected ==> 0 <= p < |t.partitions| && ByTime(t.partitions[p].records))
    && job.spec.partitions == map p | p in selected :: WindowOf(t, p, Latest, None, limit)
  }

  ghost predicate EmittedAs(items: seq<Item>, r: Record) {
    exists item :: item in items && item.partition == r.partition && item.offset == r.offset
  }

  /** The last limit records of a partition, or all of them. */
  ghost function Tail(part: Partition, limit: nat): seq<Record> {
    if |part.records| <= limit then part.records else part.records[|part.records| - limit..]
  }

  lemma LatestWindowIsTail(name: string, t: Topic, p: int, limit: nat)
    requires WellFormed(name, t) && 0 <= p < |t.partitions| && Ascending(t.partitions[p].records)
    ensures
      var w := WindowOf(t, p, Latest, None, limit);
      w.start <= w.end && Between(t.partitions[p].records, w.start, w.end) == Tail(t.partitions[p], limit)
  {
    var w := WindowOf(t, p, Latest, None, limit);
    BetweenIsSlice(name, p, t.partitions[p], w.start, w.end);
  }

  lemma {:induction false} MatchAllEmitsAll(job: Job, rs: seq<Record>)
    requires job.matcher == MATCH_ALL
    ensures |Emissions(job, rs)| == |rs|
    ensures forall i :: 0 <= i < |rs| ==> Emissions(job, rs)[i] == Decode(job.validity, rs[i], job.spec.format)
  {
    if rs != [] {
      MatchAllEmitsAll(job, rs[..|rs| - 1]);
    }
  }

  /** A latest read whose poll loop ran to the end over faithful deliveries. */
  ghost predicate Completed(job: Job, name: string, t: Topic, selected: set<int>, limit: nat, polls: seq<PollAnswer>) {
    && WellFormed(name, t) && LatestRead(job, t, selected, limit)
    && LogsFor(job.spec.partitions, LogsOf(t, selected))
    && Faithful(job.spec.partitions, LogsOf(t, selected), DeliveredBy(polls))
    && Ran(job, polls).1 == Finished(true, NotStopped)
  }

  // A scan that read a window to its end evaluated all it holds.
  lemma WindowIsRead(job: Job, logs: map<int, seq<Record>>, polls: seq<PollAnswer>, p: int)
    requires LogsFor(job.spec.partitions, logs) && Faithful(job.spec.partitions, logs, DeliveredBy(polls))
    requires Exhausted(job.spec, Ran(job, polls).0.cursor) && p in job.spec.partitions
    ensures
      var w := job.spec.partitions[p];
      ForPartition(Ran(job, polls).0.evaluated, p) == Between(logs[p], w.start, w.end)
  {
    hide Ran, Faithful, Emissions, ForPartition;
    ScanReadsTheLog(job, logs, polls, p);
    CursorsStayInRange(job, polls);
  }

  // The buffer holds exactly every selected partition's last records.
  lemma BufferHolds(job: Job, name: string, t: Topic, selected: set<int>, limit: nat, polls: seq<PollAnswer>, p: int)
    requires Completed(job, name, t, selected, limit, polls) && p in selected
    ensures ForPartition(Ran(job, polls).0.evaluated, p) == Tail(t.partitions[p], limit)
  {
    hide Ran, Faithful, WindowOf, Tail, Between, WellFormed, ByTime;
    ScanBounds.BoundsAreReal(job, polls);
    WindowIsRead(job, LogsOf(t, selected), polls, p);
    LatestWindowIsTail(name, t, p, limit);
  }

  lemma BufferIsEvaluated(job: Job, polls: seq<PollAnswer>)
    ensures
      var s := Ran(job, polls).0;
      && s.emitted == Emissions(job, s.evaluated)
      && forall r :: r in s.evaluated ==> r.partition in job.spec.partitions
  {
    hide Ran, Emissions;
    SafeAgainstAnyConsumer(job, polls);
  }

  lemma BufferSize(job: Job, name: string, t: Topic, selected: set<int>, limit: nat, polls: seq<PollAnswer>)
    requires Completed(job, name, t, selected, limit, polls)
    ensures
      var total, n := Total(map p | p in selected :: |t.partitions[p].records|), |Ran(job, polls).0.emitted|;
      n <= total && (n >= limit || n == total)
  {
    hide Ran, Emissions, Faithful, WellFormed, ByTime, WindowOf, Total;
    var s := Ran(job, polls).0;
    BufferIsEvaluated(job, polls);
    MatchAllEmitsAll(job, s.evaluated);
    SizeByPartition(selected, s.evaluated);
    forall p | p in selected
      ensures Sizes(selected, s.evaluated)[p] == |Tail(t.partitions[p], limit)|
    {
      BufferHolds(job, name, t, selected, limit, polls, p);
    }
    CappedTotal(map p | p in selected :: |t.partitions[p].records|, Sizes(selected, s.evaluated), limit);
  }

  // A record of the tail is in the buffer.
  lemma CandidateIsBuffered(job: Job, name: string, t: Topic, selected: set<int>, limit: nat, polls: seq<PollAnswer>,
                            r: Record)
    requires Completed(job, name, t, selected, limit, polls)
    requires r.partition in selected && r in Tail(t.partitions[r.partition], limit)
    ensures Decode(job.validity, r, job.spec.format) in Ran(job, polls).0.emitted
  {
    hide Ran, Faithful, Emissions, WellFormed, ByTime, WindowOf, Decode;
    var s := Ran(job, polls).0;
    BufferHolds(job, name, t, selected, limit, polls, r.partition);
    InForPartition(s.evaluated, r.partition, r);
    BufferIsEvaluated(job, polls);
    MatchAllEmitsAll(job, s.evaluated);
    var k :| 0 <= k < |s.evaluated| && s.evaluated[k] == r;
    assert s.emitted[k] == Decode(job.validity, r, job.spec.format);
  }

  // A partition whose tail is no older than ts contributes its whole tail to the count.
  lemma TailIsCounted(job: Job, name: string, t: Topic, selected: set<int>, limit: nat, polls: seq<PollAnswer>, p: int,
                      ts: int)
    requires Completed(job, name, t, selected, limit, polls) && p in selected
    requires forall i :: 0 <= i < |Tail(t.partitions[p], limit)| ==> Tail(t.partitions[p], limit)[i].timestamp >= ts
    ensures CountFrom(Ran(job, polls).0.emitted, ts) >= |Tail(t.partitions[p], limit)|
  {
    hide Ran, Faithful, Emissions, WellFormed, ByTime, WindowOf, CountFrom;
    var s, tail := Ran(job, polls).0, Tail(t.partitions[p], limit);
    BufferHolds(job, name, t, selected, limit, polls, p);
    BufferIsEvaluated(job, polls);
    EmissionsProject(job, s.evaluated, p);
    MatchAllEmitsAll(job, tail);
    CountAll(Emissions(job, tail), ts);
    CountInPartition(s.emitted, p, ts);
  }

  /** The true newest of the topic: when the poll loop ran to the end, a latest read
      emits as many records as exist up to limit, newest first, and no record of any
      selected partition that it left out is newer than one it emitted. */
  lemma LatestIsNewest(job: Job, name: string, t: Topic, selected: set<int>, limit: nat,
                       polls: seq<PollAnswer>, answer: Answer)
    requires Completed(job, name, t, selected, limit, polls)
    requires Runs(job, None, polls, answer) && answer.Answered?
    ensures NewestFirst(answer.items)
    ensures
      var total := Total(map p | p in selected :: |t.partitions[p].records|);
      |answer.items| == if total <= limit then total else limit
    ensures forall p, r :: p in selected && r in t.partitions[p].records ==>
      EmittedAs(answer.items, r) || forall item :: item in answer.items ==> item.timestamp >= r.timestamp
  {
    hide Ran, Faithful, WellFormed, ByTime, WindowOf, Total;
    if job.spec.partitions == map[] {
      TotalZero(map p | p in selected :: |t.partitions[p].records|);
    } else {
      var sorted := SortedBehind(job, polls, answer);
      BufferSize(job, name, t, selected, limit, polls);
      NothingNewerLeftOut(job, name, t, selected, limit, polls, sorted, |answer.items|);
    }
  }

  lemma NothingNewerLeftOut(job: Job, name: string, t: Topic, selected: set<int>, limit: nat, polls: seq<PollAnswer>,
                            sorted: seq<Item>, n: nat)
    requires Completed(job, name, t, selected, limit, polls) && n <= limit && n <= |sorted|
    requires NewestFirst(sorted) && multiset(sorted) == multiset(Ran(job, polls).0.emitted)
    ensures forall p, r :: p in selected && r in t.partitions[p].records ==>
      EmittedAs(sorted[..n], r) || forall item :: item in sorted[..n] ==> item.timestamp >= r.timestamp
  {
    hide Ran, Faithful, WellFormed, ByTime, WindowOf, LogsFor;
    forall p, r | p in selected && r in t.partitions[p].records
      ensures EmittedAs(sorted[..n], r) || forall item :: item in sorted[..n] ==> item.timestamp >= r.timestamp
    {
      LeftOutIsOlder(job, name, t, selected, limit, polls, sorted, n, p, r);
    }
  }

  lemma SameSize(a: seq<Item>, b: seq<Item>)
    requires multiset(a) == multiset(b)
    ensures |a| == |b|
  {
    assert |multiset(a)| == |a| && |multiset(b)| == |b|;
  }

  lemma SortedBehind(job: Job, polls: seq<PollAnswer>, answer: Answer) returns (sorted: seq<Item>)
    requires Runs(job, None, polls, answer) && answer.Answered? && job.spec.latest && job.spec.partitions != map[]
    ensures NewestFirst(sorted) && multiset(sorted) == multiset(Ran(job, polls).0.emitted)
    ensures |sorted| == |Ran(job, polls).0.emitted|
    ensures answer.items == CutToLimit(job.spec, sorted) == sorted[..|answer.items|]
  {
    hide Ran;
    sorted :| NewestFirst(sorted) && multiset(sorted) == multiset(Ran(job, polls).0.emitted)
      && answer.items == CutToLimit(job.spec, sorted);
    SameSize(sorted, Ran(job, polls).0.emitted);
  }

  lemma LeftOutIsOlder(job: Job, name: string, t: Topic, selected: set<int>, limit: nat, polls: seq<PollAnswer>,
                       sorted: seq<Item>, n: nat, p: int, r: Record)
    requires Completed(job, name, t, selected, limit, polls)
    requires NewestFirst(sorted) && multiset(sorted) == multiset(Ran(job, polls).0.emitted)
    requires n <= limit && n <= |sorted| && p in selected && r in t.partitions[p].records
    ensures EmittedAs(sorted[..n], r) || forall item :: item in sorted[..n] ==> item.timestamp >= r.timestamp
  {
    hide Ran, Faithful, WindowOf, LogsFor, CountFrom;
    var buffer, part := Ran(job, polls).0.emitted, t.partitions[p];
    ContiguousAscends(name, p, part);
    var k :| 0 <= k < |part.records| && part.records[k] == r;
    if k >= |part.records| - limit {
      assert r == Tail(part, limit)[k - (|part.records| - |Tail(part, limit)|)];
      CandidateIsBuffered(job, name, t, selected, limit, polls, r);
      KeptOrBehind(buffer, sorted, n, Decode(job.validity, r, job.spec.format));
    } else {
      TailIsCounted(job, name, t, selected, limit, polls, p, r.timestamp);
      FirstOnesAreNew(buffer, sorted, n, r.timestamp);
    }
  }
}

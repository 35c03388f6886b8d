/** At-least-once, all the way to the target's log (internal/service/message/replay.go;
    section 9.3 of the functional specification). */
module ReplayDelivery {
  import opened Kafka
  import opened Logs
  import opened Codec
  import opened Scan
  import opened ScanSafety
  import opened ScanResume
  import opened FakeCluster
  import opened Replay
  import opened ReplaySafety
  import ScanLatest

  /** The target may only grow between and during attempts: others write to it too. */
  ghost predicate Grows(a: Topic, b: Topic) {
    && |a.partitions| <= |b.partitions|
    && forall p :: 0 <= p < |a.partitions| ==>
         b.partitions[p].begin == a.partitions[p].begin && a.partitions[p].records <= b.partitions[p].records
  }

  /** The requests the producer acknowledged. */
  ghost function Accepted(requests: seq<ProduceRequest>, results: seq<ProduceResult>): seq<ProduceRequest>
    requires |results| == |requests|
  {
    if requests == [] then [] else
      var n := |requests| - 1;
      Accepted(requests[..n], results[..n]) + if results[n].Produced? then [requests[n]] else []
  }

  ghost predicate InRange(target: Topic, requests: seq<ProduceRequest>) {
    forall r :: r in requests ==> 0 <= ChosenPartition(target, r) < |target.partitions|
  }

  /** The target around one attempt: what the producer acknowledged was appended as one
      batch, at whatever moment; what it refused was not. */
  ghost predicate Lands(t: Try, name: string, before: Topic, after: Topic) {
    if t.answer.Answered? && t.produced.Results? && RequestsOf(t.answer.items, t.preserve).Ok?
       && |t.produced.results| == |RequestsOf(t.answer.items, t.preserve).value| then
      var accepted := Accepted(RequestsOf(t.answer.items, t.preserve).value, t.produced.results);
      exists mid, clock: nat -> int ::
        && Grows(before, mid) && InRange(mid, accepted) && Grows(ProduceAll(name, mid, accepted, clock).0, after)
    else Grows(before, after)
  }

  /** The target holds the message, in the record's own partition where that is preserved. */
  ghost predicate HasCopy(target: Topic, r: Record, preserve: bool) {
    exists p, i ::
      && 0 <= p < |target.partitions| && 0 <= i < |target.partitions[p].records|
      && SameMessage(target.partitions[p].records[i], r) && (preserve ==> p == r.partition)
  }

  lemma GrowthKeepsCopy(a: Topic, b: Topic, r: Record, preserve: bool)
    requires Grows(a, b) && HasCopy(a, r, preserve)
    ensures HasCopy(b, r, preserve)
  {
    var p, i :| 0 <= p < |a.partitions| && 0 <= i < |a.partitions[p].records|
      && SameMessage(a.partitions[p].records[i], r) && (preserve ==> p == r.partition);
    assert b.partitions[p].records[i] == a.partitions[p].records[i];
  }

  lemma {:induction false} AcceptedHasIt(requests: seq<ProduceRequest>, results: seq<ProduceResult>, j: nat)
    requires |results| == |requests| && j < |requests| && results[j].Produced?
    ensures requests[j] in Accepted(requests, results)
  {
    var n := |requests| - 1;
    if j < n {
      AcceptedHasIt(requests[..n], results[..n], j);
    }
  }

  lemma {:induction false} AcceptedAreRequests(requests: seq<ProduceRequest>, results: seq<ProduceResult>,
                                               r: ProduceRequest)
    requires |results| == |requests| && r in Accepted(requests, results)
    ensures r in requests
  {
    var n := |requests| - 1;
    if r in Accepted(requests[..n], results[..n]) {
      AcceptedAreRequests(requests[..n], results[..n], r);
    }
  }

  // A produced request that was built from a record leaves a copy of it.
  lemma ProducedIsCopied(name: string, mid: Topic, requests: seq<ProduceRequest>, clock: nat -> int,
                         request: ProduceRequest, r: Record, preserve: bool)
    requires request in requests && InRange(mid, requests) && request == CopyOf(r, preserve)
    ensures HasCopy(ProduceAll(name, mid, requests, clock).0, r, preserve)
  {
    hide ProduceAll;
    var k :| 0 <= k < |requests| && requests[k] == request;
    ProduceAnswersEach(name, mid, requests, clock, k);
    var after, result := ProduceAll(name, mid, requests, clock).0, ProduceAll(name, mid, requests, clock).1[k];
    assert IsStored(name, mid, after, request, result);
    var part := after.partitions[result.partition];
    assert SameMessage(part.records[result.offset - part.begin], r);
  }

  // The acknowledged item with a record's partition and offset was built from that record.
  lemma AcknowledgedRequest(t: Try, logs: map<int, seq<Record>>, requests: seq<ProduceRequest>, r: Record)
    returns (j: nat)
    requires IsTry(t, logs) && !t.job.spec.latest && Acknowledged(t, r)
    requires r.partition in logs && r in logs[r.partition]
    requires RequestsOf(t.answer.items, t.preserve) == Ok(requests)
    ensures j < |requests| == |t.produced.results| && t.produced.results[j].Produced?
    ensures requests[j] == CopyOf(r, t.preserve)
  {
    hide Ran, Runs, Faithful, OutcomeOf, Emissions, RequestsOf, DecodeBytes, DecodeHeaders, Between;
    j :| 0 <= j < |t.answer.items| && IsItemOf(t.answer.items[j], r) && t.produced.results[j].Produced?;
    var s := Ran(t.job, t.polls).0;
    var same := RequestsOfTry(t, logs);
    ItemsAreEvaluated(t, logs);
    ScanLatest.MatchAllEmitsAll(t.job, s.evaluated);
    EvaluatedIsTheRecord(t.job, logs, t.polls, s.evaluated[j], r);
  }

  lemma EvaluatedIsTheRecord(job: Job, logs: map<int, seq<Record>>, polls: seq<PollAnswer>, e: Record, r: Record)
    requires LogsFor(job.spec.partitions, logs) && Faithful(job.spec.partitions, logs, DeliveredBy(polls))
    requires e in Ran(job, polls).0.evaluated && e.partition == r.partition && e.offset == r.offset
    requires r.partition in logs && r in logs[r.partition]
    ensures e == r
  {
    hide Ran, Faithful, Emissions, Between;
    var s, p := Ran(job, polls).0, r.partition;
    ScanLatest.BufferIsEvaluated(job, polls);
    ScanReadsTheLog(job, logs, polls, p);
    InForPartition(s.evaluated, p, e);
    BetweenIsTheWindow(logs[p], job.spec.partitions[p].start, s.cursor[p], e);
    SameOffsetSameRecord(logs[p], e, r);
  }

  lemma SameOffsetSameRecord(log: seq<Record>, a: Record, b: Record)
    requires Ascending(log) && a in log && b in log && a.offset == b.offset
    ensures a == b
  {
    var i :| 0 <= i < |log| && log[i] == a;
    var j :| 0 <= j < |log| && log[j] == b;
    OffsetOrder(log, i, j);
    OffsetOrder(log, j, i);
  }

  /** One attempt: what it acknowledged is in the target afterwards. */
  lemma AcknowledgedIsCopied(t: Try, logs: map<int, seq<Record>>, name: string, before: Topic, after: Topic,
                             r: Record, preserve: bool)
    requires IsTry(t, logs) && !t.job.spec.latest && Acknowledged(t, r) && Lands(t, name, before, after)
    requires r.partition in logs && r in logs[r.partition] && (preserve ==> t.preserve)
    ensures HasCopy(after, r, preserve)
  {
    hide IsTry, ProduceAll, Grows, InRange, HasCopy, RequestsOf, Accepted;
    var requests := RequestsOfTry(t, logs);
    var j := AcknowledgedRequest(t, logs, requests, r);
    var accepted := Accepted(requests, t.produced.results);
    AcceptedHasIt(requests, t.produced.results, j);
    var mid, clock: nat -> int :|
      Grows(before, mid) && InRange(mid, accepted) && Grows(ProduceAll(name, mid, accepted, clock).0, after);
    ProducedIsCopied(name, mid, accepted, clock, requests[j], r, t.preserve);
    GrowthKeepsCopy(ProduceAll(name, mid, accepted, clock).0, after, r, t.preserve);
    WeakerCopy(after, r, t.preserve, preserve);
  }

  lemma WeakerCopy(target: Topic, r: Record, had: bool, preserve: bool)
    requires HasCopy(target, r, had) && (preserve ==> had)
    ensures HasCopy(target, r, preserve)
  {
  }

  lemma LandingGrows(t: Try, name: string, before: Topic, after: Topic)
    requires Lands(t, name, before, after)
    ensures Grows(before, after)
  {
    hide RequestsOf, Accepted, ProduceAll;
    if t.answer.Answered? && t.produced.Results? && RequestsOf(t.answer.items, t.preserve).Ok?
       && |t.produced.results| == |RequestsOf(t.answer.items, t.preserve).value| {
      var accepted := Accepted(RequestsOf(t.answer.items, t.preserve).value, t.produced.results);
      var mid, clock: nat -> int :|
        Grows(before, mid) && InRange(mid, accepted) && Grows(ProduceAll(name, mid, accepted, clock).0, after);
      ProduceOnlyAppends(name, mid, accepted, clock);
    }
  }

  /** The target before the first attempt and after each. */
  ghost predicate AllLand(tries: seq<Try>, name: string, states: seq<Topic>) {
    |states| == |tries| + 1 && forall i :: 0 <= i < |tries| ==> Lands(tries[i], name, states[i], states[i + 1])
  }

  lemma {:induction false} CopyStays(tries: seq<Try>, name: string, states: seq<Topic>, i: nat, r: Record,
                                     preserve: bool)
    requires AllLand(tries, name, states) && i < |states| && HasCopy(states[i], r, preserve)
    ensures HasCopy(states[|tries|], r, preserve)
    decreases |states| - i
  {
    hide Lands, HasCopy;
    if i < |tries| {
      LandingGrows(tries[i], name, states[i], states[i + 1]);
      GrowthKeepsCopy(states[i], states[i + 1], r, preserve);
      CopyStays(tries, name, states, i + 1, r, preserve);
    }
  }

  /** Each log holds its own partition's records. */
  ghost predicate OwnLogs(first: map<int, int>, logs: map<int, seq<Record>>) {
    forall p :: p in first ==> p in logs && forall r :: r in logs[p] ==> r.partition == p
  }

  /** At least once, in the target: however the attempts failed and whoever else wrote to
      it, every source record from a partition's first offset up to its progress has a
      copy there, in its own partition when every attempt preserves it. */
  lemma AtLeastOnceInTarget(tries: seq<Try>, first: map<int, int>, logs: map<int, seq<Record>>, name: string,
                            states: seq<Topic>, preserve: bool)
    requires Retries(tries, first, logs) && AllLand(tries, name, states) && OwnLogs(first, logs)
    requires preserve ==> forall i :: 0 <= i < |tries| ==> tries[i].preserve
    ensures
      var reached := ProgressAfter(tries, first);
      && reached.Keys == first.Keys
      && forall p, r :: p in first && r in logs[p] && first[p] <= r.offset < reached[p] ==>
           HasCopy(states[|tries|], r, preserve)
  {
    hide Lands, HasCopy, IsTry, ProgressAfter, Acknowledged;
    AtLeastOnce(tries, first, logs);
    var reached := ProgressAfter(tries, first);
    forall p, r | p in first && r in logs[p] && first[p] <= r.offset < reached[p]
      ensures HasCopy(states[|tries|], r, preserve)
    {
      AcknowledgedEndsUp(tries, first, logs, name, states, r, preserve);
    }
  }

  lemma AcknowledgedEndsUp(tries: seq<Try>, first: map<int, int>, logs: map<int, seq<Record>>, name: string,
                           states: seq<Topic>, r: Record, preserve: bool)
    requires Retries(tries, first, logs) && AllLand(tries, name, states) && AcknowledgedBySome(tries, r)
    requires r.partition in logs && r in logs[r.partition]
    requires preserve ==> forall i :: 0 <= i < |tries| ==> tries[i].preserve
    ensures HasCopy(states[|tries|], r, preserve)
  {
    hide Lands, HasCopy, IsTry, ProgressAfter, Acknowledged;
    var i :| 0 <= i < |tries| && Acknowledged(tries[i], r);
    AcknowledgedIsCopied(tries[i], logs, name, states[i], states[i + 1], r, preserve);
    CopyStays(tries, name, states, i + 1, r, preserve);
  }

  /** Retrying until an attempt succeeds to the end therefore puts the whole range there. */
  lemma RetriedToTheEndInTarget(tries: seq<Try>, last: Try, first: map<int, int>, logs: map<int, seq<Record>>,
                                name: string, states: seq<Topic>, preserve: bool, p: int, r: Record)
    requires Retries(tries + [last], first, logs) && last.outcome.Done? && last.outcome.reachedEnd
    requires AllLand(tries + [last], name, states) && OwnLogs(first, logs)
    requires preserve ==> forall i :: 0 <= i < |tries + [last]| ==> (tries + [last])[i].preserve
    requires p in first && p in last.job.spec.partitions
    requires r in logs[p] && first[p] <= r.offset < last.job.spec.partitions[p].end
    ensures HasCopy(states[|tries| + 1], r, preserve)
  {
    hide Lands, HasCopy, IsTry, Acknowledged;
    RetriedToTheEnd(tries, last, first, logs, p, r);
    AcknowledgedEndsUp(tries + [last], first, logs, name, states, r, preserve);
  }
}

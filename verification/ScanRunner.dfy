/** The scan runner (internal/scan/runner.go): a consumer's session, the cursor map
    and accumulator updated in place, the poll loop and the drain of a latest scan. */
module ScanRunner {
  import opened Kafka
  import opened Codec
  import opened Scan
  import ScanSafety

  // ---- sort.Slice ----

  function InsertByTime(sorted: seq<Item>, item: Item): (r: seq<Item>)
    ensures multiset(r) == multiset(sorted) + multiset{item}
  {
    if sorted == [] || sorted[0].timestamp <= item.timestamp then [item] + sorted
    else
      assert sorted == [sorted[0]] + sorted[1..];
      [sorted[0]] + InsertByTime(sorted[1..], item)
  }

  lemma {:induction false} InsertKeepsOrder(sorted: seq<Item>, item: Item)
    requires NewestFirst(sorted)
    ensures NewestFirst(InsertByTime(sorted, item))
  {
    if sorted != [] && sorted[0].timestamp > item.timestamp {
      InsertKeepsOrder(sorted[1..], item);
      var rest := InsertByTime(sorted[1..], item);
      forall i | 0 <= i < |rest| ensures rest[i].timestamp <= sorted[0].timestamp {
        assert rest[i] in multiset(rest);
        assert rest[i] in sorted[1..] || rest[i] == item;
      }
    }
  }

  /** Stands for the library's sort.Slice: callers may rely on the contract alone,
      which leaves the order of equal timestamps open. */
  method SortNewestFirst(items: seq<Item>) returns (sorted: seq<Item>)
    ensures NewestFirst(sorted) && multiset(sorted) == multiset(items)
  {
    sorted := [];
    for i := 0 to |items|
      invariant NewestFirst(sorted) && multiset(sorted) == multiset(items[..i])
    {
      assert items[..i + 1] == items[..i] + [items[i]];
      InsertKeepsOrder(sorted, items[i]);
      sorted := InsertByTime(sorted, items[i]);
    }
    assert items[..|items|] == items;
  }

  /** Any consumer, seen as the answers it will give; it may duplicate, reorder,
      invent or withhold records, and fail. */
  class Consumer {
    const assignError: Option<Error>
    const answers: seq<PollAnswer>
    var polled: nat
    var session: Option<(string, map<int, int>)>
    var closed: bool

    ghost predicate Valid() reads this { polled <= |answers| }

    constructor (assignError: Option<Error>, answers: seq<PollAnswer>)
      ensures Valid() && polled == 0 && session == None && !closed
      ensures this.assignError == assignError && this.answers == answers
    {
      this.assignError, this.answers, polled, session, closed := assignError, answers, 0, None, false;
    }

    method Assign(topic: string, startOffsets: map<int, int>) returns (error: Option<Error>)
      modifies this`session
      ensures error == assignError
      ensures session == if error.None? then Some((topic, startOffsets)) else old(session)
    {
      error := assignError;
      if error.None? { session := Some((topic, startOffsets)); }
    }

    method Poll() returns (answer: Option<PollAnswer>)
      requires Valid()
      modifies this`polled
      ensures Valid()
      ensures old(polled) == |answers| ==> answer == None && polled == old(polled)
      ensures old(polled) < |answers| ==> answer == Some(answers[old(polled)]) && polled == old(polled) + 1
    {
      if polled == |answers| { return None; }
      answer := Some(answers[polled]);
      polled := polled + 1;
    }

    method Close()
      modifies this`session, this`closed
      ensures closed && session == None
    {
      session, closed := None, true;
    }
  }

  class Runner {
    const job: Job
    var cursor: map<int, int>
    var scanned: nat
    var matched: nat
    var skipped: nat
    var bytes: nat
    var collected: seq<Item>
    ghost var evaluated: seq<Record>

    ghost predicate Valid() reads this { cursor.Keys == job.spec.partitions.Keys }

    ghost function View(): Progress reads this {
      Progress(cursor, scanned, matched, skipped, bytes, evaluated, collected)
    }

    constructor (job: Job)
      ensures Valid() && this.job == job && View() == Start(job.spec)
    {
      this.job := job;
      cursor := Starts(job.spec.partitions);
      scanned, matched, skipped, bytes, collected, evaluated := 0, 0, 0, 0, [], [];
    }

    method Evaluate(r: Record) returns (counted: bool, bound: StoppedBy)
      requires Valid()
      modifies this
      ensures Valid() && View() == Step(job, old(View()), r)
      ensures counted == Counts(job.spec, old(cursor), r) && bound == BoundAfter(job, old(View()), r)
    {
      hide Decode;
      if r.partition !in job.spec.partitions
         || r.offset < cursor[r.partition] || r.offset >= job.spec.partitions[r.partition].end {
        return false, NotStopped;
      }
      cursor := cursor[r.partition := r.offset + 1];
      scanned := scanned + 1;
      bytes := bytes + (|r.key| + |r.value|);
      evaluated := evaluated + [r];

      var decoded := DecodeRecord(job.validity, r, job.spec.format);
      var result := job.matcher(decoded);
      if result.skipped {
        skipped := skipped + 1;
      } else if result.matched {
        matched := matched + 1;
        collected := collected + [decoded];
      }
      return true, HitBound(job.spec, matched, scanned, bytes);
    }

    // The inner loop of pollLoop.
    method EvaluateBatch(records: seq<Record>) returns (bound: StoppedBy)
      requires Valid()
      modifies this
      ensures Valid() && (View(), bound) == Batch(job, old(View()), records)
    {
      assert records[0..] == records;
      for i := 0 to |records|
        invariant Valid()
        invariant Batch(job, View(), records[i..]) == Batch(job, old(View()), records)
      {
        var counted, stop := Evaluate(records[i]);
        assert records[i..][1..] == records[i + 1..];
        if counted && stop != NotStopped {
          return stop;
        }
      }
      bound := NotStopped;
    }

    method PollLoop(consumer: Consumer) returns (end: LoopEnd)
      requires Valid() && consumer.Valid()
      modifies this, consumer`polled
      ensures Valid() && consumer.Valid()
      ensures (View(), end) == Loop(job, old(View()), consumer.answers[old(consumer.polled)..])
    {
      ghost var goal := Loop(job, View(), consumer.answers[consumer.polled..]);
      while true
        invariant Valid() && consumer.Valid()
        invariant Loop(job, View(), consumer.answers[consumer.polled..]) == goal
        decreases |consumer.answers| - consumer.polled
      {
        if Exhausted(job.spec, cursor) {
          return Finished(true, NotStopped);
        }
        assert consumer.polled < |consumer.answers| ==>
          consumer.answers[consumer.polled..][1..] == consumer.answers[consumer.polled + 1..];
        var answer := consumer.Poll();
        if answer.None? {
          return Waiting;
        }
        if answer.value.PollFailed? {
          if answer.value.expired { return Finished(false, MaxTime); }
          return Failed(answer.value.error);
        }
        var bound := EvaluateBatch(answer.value.records);
        if bound != NotStopped {
          return Finished(false, bound);
        }
        if |answer.value.records| == 0 && answer.value.expired {
          return Finished(false, MaxTime);
        }
      }
    }

    method Drain() returns (items: seq<Item>)
      modifies this
      ensures Emits(job.spec, old(collected), items)
      ensures View() == old(View()).(matched := if job.spec.latest then |items| else old(matched))
    {
      if !job.spec.latest {
        return collected;
      }
      items := SortNewestFirst(collected);
      if job.spec.maxMessages > 0 && |items| > job.spec.maxMessages {
        items := items[..job.spec.maxMessages];
      }
      matched := |items|;
    }
  }

  /** Run closes the consumer on every path but two: no partitions in scope, and a
      failed Assign. */
  method Run(job: Job, consumer: Consumer) returns (answer: Answer)
    requires consumer.Valid() && consumer.polled == 0 && !consumer.closed
    modifies consumer
    ensures Runs(job, consumer.assignError, consumer.answers, answer)
    ensures consumer.closed <==>
      job.spec.partitions != map[] && consumer.assignError.None? && !answer.StillWaiting?
  {
    var runner := new Runner(job);
    if |job.spec.partitions| == 0 {
      return Answered(FinalStats(job.spec, Start(job.spec), 0, true, NotStopped), []);
    }
    var assignError := consumer.Assign(job.spec.topic, runner.cursor);
    if assignError.Some? {
      return RunFailed(assignError.value);
    }
    var end := runner.PollLoop(consumer);
    assert consumer.answers[0..] == consumer.answers;
    ghost var s := runner.View();
    match end
    case Waiting =>
      answer := StillWaiting;
    case Failed(error) =>
      consumer.Close();
      answer := RunFailed(error);
    case Finished(reachedEnd, stoppedBy) =>
      var items := runner.Drain();
      answer := Answered(
        Stats(runner.scanned, runner.matched, runner.skipped, runner.bytes,
              job.spec.latest || reachedEnd, if job.spec.latest then NotStopped else stoppedBy,
              if job.spec.latest then Starts(job.spec.partitions) else runner.cursor),
        items);
      ScanSafety.MatchedIsEmitted(job, consumer.answers);
      consumer.Close();
  }
}

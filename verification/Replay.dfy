/** Copying a message range between topics (internal/service/message/replay.go):
    a scan with no filter, one batch produced, and a cursor to retry from. */
module Replay {
  import opened Kafka
  import opened Logs
  import opened Codec
  import opened Scan
  import opened ScanRunner
  import opened FakeCluster
  import opened FakeServer
  import opened FakeFeed
  import opened MessageWindow
  import opened ScanBounds

  datatype Plan = Plan(
    sourceTopic: string, target: string, preserve: bool, latest: bool, limit: int,
    estimated: int, targetPartitions: nat, windows: map<int, Window>)

  /** What Producer.Produce answers: the call's own failure, or one result per request. */
  datatype ProduceAnswer = CallFailed(error: Error) | Results(results: seq<ProduceResult>)

  datatype Outcome =
    | Done(copied: nat, cursor: map<int, int>, reachedEnd: bool)
    | Stopped(error: Error, copied: nat, cursor: map<int, int>)  // wrapReplayFailure
    | NotStarted(error: Error)
    | Waits                                                      // the scan still waits for its consumer

  // ---- Plan ----

  ghost function Estimate(windows: map<int, Window>): int {
    Total(map p | p in windows :: windows[p].end - windows[p].start)
  }

  /** Planning refuses a target with too few partitions exactly when preservePartition
      would need one it does not have. */
  method PlanReplay(fake: Fake, source: string, partitions: seq<int>, from: From, to: Option<From>,
                    target: string, preserve: bool, limit: int, range: Range) returns (r: Result<Plan>)
    ensures ResolveBound(limit, range).Err? ==> r == Err(BoundExceeded)
    ensures ResolveBound(limit, range).Ok? && (source !in fake.topics || target !in fake.topics) ==> r == Err(NotFound)
    ensures ResolveBound(limit, range).Ok? && source in fake.topics && target in fake.topics ==>
      var t, count, resolved := fake.topics[source], |fake.topics[target].partitions|, ResolveBound(limit, range).value;
      var windows := map p | p in Selected(t, partitions) :: WindowOf(t, p, from, to, resolved);
      if preserve && exists p :: p in windows && p >= count then r == Err(PartitionMismatch)
      else r == Ok(Plan(source, target, preserve, from.Latest?, resolved, Estimate(windows), count, windows))
  {
    var bound := ResolveBound(limit, range);
    if bound.Err? {
      return Err(bound.error);
    }
    var resolved := ResolveWindows(fake, source, partitions, from, to, bound.value);
    if resolved.Err? {
      return Err(resolved.error);
    }
    var windows := resolved.value;
    var estimated, maxSource := EstimateWindows(windows);
    if target !in fake.topics {
      return Err(NotFound);
    }
    var count := |fake.topics[target].partitions|;
    if preserve && count <= maxSource {
      return Err(PartitionMismatch);
    }
    return Ok(Plan(source, target, preserve, from.Latest?, bound.value, estimated, count, windows));
  }

  method EstimateWindows(windows: map<int, Window>) returns (estimated: int, maxSource: int)
    ensures estimated == Estimate(windows)
    ensures maxSource == -1 || maxSource in windows
    ensures maxSource >= -1 && forall p :: p in windows ==> p <= maxSource || p < 0
  {
    estimated, maxSource := 0, -1;
    var todo := windows.Keys;
    ghost var summed: map<int, int> := map[];
    while exists p :: p in todo
      invariant todo <= windows.Keys && summed == map p | p in windows.Keys - todo :: windows[p].end - windows[p].start
      invariant estimated == Total(summed)
      invariant maxSource == -1 || maxSource in windows
      invariant maxSource >= -1 && forall p :: p in windows && p !in todo ==> p <= maxSource || p < 0
      decreases todo
    {
      var p :| p in todo;
      TotalInsert(summed, p, windows[p].end - windows[p].start);
      estimated := estimated + (windows[p].end - windows[p].start);
      summed := summed[p := windows[p].end - windows[p].start];
      if p > maxSource {
        maxSource := p;
      }
      todo := todo - {p};
    }
    assert summed == map p | p in windows :: windows[p].end - windows[p].start;
  }

  // ---- Requests ----

  function RequestHeaders(hs: seq<ItemHeader>): Result<seq<Header>> {
    if hs == [] then Ok([])
    else
      match RequestHeaders(hs[..|hs| - 1])
      case Err(e) => Err(e)
      case Ok(before) =>
        var h := hs[|hs| - 1];
        match EncodeValue(h.value, h.encoding)
        case Err(e) => Err(e)
        case Ok(v) => Ok(before + [Header(h.key, v)])
  }

  function RequestOf(item: Item, preserve: bool): Result<ProduceRequest> {
    match EncodeValue(item.key, item.keyEncoding)
    case Err(e) => Err(e)
    case Ok(key) =>
      match EncodeValue(item.value, item.valueEncoding)
      case Err(e) => Err(e)
      case Ok(value) =>
        match RequestHeaders(item.headers)
        case Err(e) => Err(e)
        case Ok(headers) =>
          Ok(ProduceRequest(key, value, headers, if preserve then Some(item.partition) else None, item.timestamp))
  }

  function RequestsOf(items: seq<Item>, preserve: bool): Result<seq<ProduceRequest>> {
    if items == [] then Ok([])
    else
      match RequestsOf(items[..|items| - 1], preserve)
      case Err(e) => Err(e)
      case Ok(before) =>
        match RequestOf(items[|items| - 1], preserve)
        case Err(e) => Err(e)
        case Ok(r) => Ok(before + [r])
  }

  method BuildRequests(items: seq<Item>, preserve: bool) returns (r: Result<seq<ProduceRequest>>)
    ensures r == RequestsOf(items, preserve)
    ensures r.Ok? ==> |r.value| == |items|
  {
    var requests := [];
    for i := 0 to |items|
      invariant RequestsOf(items[..i], preserve) == Ok(requests) && |requests| == i
    {
      assert items[..i + 1][..i] == items[..i];
      var request := RequestOf(items[i], preserve);
      if request.Err? {
        RequestsFailFast(items, preserve, i + 1);
        return Err(request.error);
      }
      requests := requests + [request.value];
    }
    assert items[..|items|] == items;
    return Ok(requests);
  }

  lemma {:induction false} RequestsFailFast(items: seq<Item>, preserve: bool, n: nat)
    requires n <= |items| && RequestsOf(items[..n], preserve).Err?
    ensures RequestsOf(items, preserve) == RequestsOf(items[..n], preserve)
    decreases |items|
  {
    if n == |items| {
      assert items[..n] == items;
    } else {
      assert items[..|items| - 1][..n] == items[..n];
      RequestsFailFast(items[..|items| - 1], preserve, n);
    }
  }

  // ---- Accounting ----

  /** The cursor after the given items, in order. */
  function CursorAfter(items: seq<Item>, start: map<int, int>): map<int, int> {
    if items == [] then start
    else CursorAfter(items[..|items| - 1], start)[items[|items| - 1].partition := items[|items| - 1].offset + 1]
  }

  function FirstRejected(results: seq<ProduceResult>): (k: nat)
    ensures k <= |results|
    ensures forall i :: 0 <= i < k ==> results[i].Produced?
    ensures k < |results| ==> results[k].Rejected?
  {
    if results == [] || results[0].Rejected? then 0 else 1 + FirstRejected(results[1..])
  }

  function Accounted(items: seq<Item>, results: seq<ProduceResult>, start: map<int, int>, reachedEnd: bool): Outcome
    requires |results| == |items|
  {
    var k := FirstRejected(results);
    if k < |results| then Stopped(results[k].error, k, CursorAfter(items[..k], start))
    else Done(k, CursorAfter(items, start), reachedEnd)
  }

  method Account(items: seq<Item>, results: seq<ProduceResult>, start: map<int, int>, reachedEnd: bool)
    returns (o: Outcome)
    requires |results| == |items|
    ensures o == Accounted(items, results, start, reachedEnd)
  {
    var copied, cursor := 0, start;
    for i := 0 to |results|
      invariant copied == i && cursor == CursorAfter(items[..i], start)
      invariant forall j :: 0 <= j < i ==> results[j].Produced?
    {
      if results[i].Rejected? {
        return Stopped(results[i].error, copied, cursor);
      }
      assert items[..i + 1][..i] == items[..i];
      copied := copied + 1;
      cursor := cursor[items[i].partition := items[i].offset + 1];
    }
    assert items[..|items|] == items;
    return Done(copied, cursor, reachedEnd);
  }

  /** What apply reports, given the scan's answer and what the producer would say. */
  function OutcomeOf(windows: map<int, Window>, preserve: bool, answer: Answer, produced: ProduceAnswer): Outcome
    requires answer.Answered? && produced.Results? ==> |produced.results| == |answer.items|
  {
    match answer
    case RunFailed(error) => NotStarted(error)
    case StillWaiting => Waits
    case Answered(stats, items) =>
      if items == [] then Done(0, Starts(windows), stats.reachedEnd)
      else
        match RequestsOf(items, preserve)
        case Err(e) => Stopped(e, 0, Starts(windows))
        case Ok(_) =>
          match produced
          case CallFailed(e) => Stopped(e, 0, Starts(windows))
          case Results(results) => Accounted(items, results, Starts(windows), stats.reachedEnd)
  }

  function JobOf(plan: Plan, validity: Validity): Job {
    Job(Spec(plan.sourceTopic, plan.windows, plan.latest, plan.limit, 0, 0, ""), validity, MATCH_ALL)
  }

  /** Any producer that keeps the port's promise of one result per request. */
  class Producer {
    const failure: Option<Error>
    const rejects: nat -> Option<Error>
    var sent: Option<(string, seq<ProduceRequest>)>

    constructor (failure: Option<Error>, rejects: nat -> Option<Error>)
      ensures sent == None && this.failure == failure && this.rejects == rejects
    {
      this.failure, this.rejects, sent := failure, rejects, None;
    }

    method Produce(topic: string, requests: seq<ProduceRequest>) returns (answer: ProduceAnswer)
      modifies this
      ensures sent == Some((topic, requests))
      ensures answer.CallFailed? <==> failure.Some?
      ensures answer.Results? ==>
        && |answer.results| == |requests|
        && forall i :: 0 <= i < |requests| ==> (answer.results[i].Rejected? <==> rejects(i).Some?)
    {
      sent := Some((topic, requests));
      if failure.Some? {
        return CallFailed(failure.value);
      }
      return Results(seq(|requests|, i requires 0 <= i < |requests| =>
        if rejects(i).Some? then Rejected(rejects(i).value)
        else Produced(
               if requests[i].partition.Some? then requests[i].partition.value else 0, i, requests[i].timestamp)));
    }
  }

  method ApplyReplay(plan: Plan, validity: Validity, consumer: Consumer, producer: Producer)
      returns (outcome: Outcome, ghost answer: Answer, ghost produced: ProduceAnswer)
    requires consumer.Valid() && consumer.polled == 0 && !consumer.closed && producer.sent == None
    modifies consumer, producer
    ensures Runs(JobOf(plan, validity), consumer.assignError, consumer.answers, answer)
    ensures answer.Answered? && produced.Results? ==> |produced.results| == |answer.items|
    ensures outcome == OutcomeOf(plan.windows, plan.preserve, answer, produced)
    ensures answer.RunFailed? ==> outcome == NotStarted(answer.error) && producer.sent == None
    ensures answer.StillWaiting? ==> outcome == Waits && producer.sent == None
    ensures producer.sent.Some? ==>
      && answer.Answered? && producer.sent.value.0 == plan.target
      && RequestsOf(answer.items, plan.preserve) == Ok(producer.sent.value.1)
    ensures producer.sent.Some? ==>
      && (produced.CallFailed? <==> producer.failure.Some?)
      && (produced.Results? ==>
            forall i :: 0 <= i < |produced.results| ==> (produced.results[i].Rejected? <==> producer.rejects(i).Some?))
    ensures outcome.Done? && outcome.copied > 0 ==> producer.sent.Some?
  {
    var scanned := Run(JobOf(plan, validity), consumer);
    answer, produced := scanned, CallFailed(Broker);
    if scanned.RunFailed? {
      return NotStarted(scanned.error), answer, produced;
    }
    if scanned.StillWaiting? {
      return Waits, answer, produced;
    }
    var items, cursor := scanned.items, Starts(plan.windows);
    if |items| == 0 {
      return Done(0, cursor, scanned.stats.reachedEnd), answer, produced;
    }
    var requests := BuildRequests(items, plan.preserve);
    if requests.Err? {
      return Stopped(requests.error, 0, cursor), answer, produced;
    }
    var results := producer.Produce(plan.target, requests.value);
    produced := results;
    if results.CallFailed? {
      return Stopped(results.error, 0, cursor), answer, produced;
    }
    outcome := Account(items, results.results, cursor, scanned.stats.reachedEnd);
  }

  /** Apply with the fake as both source and target. */
  method ReplayOnFake(plan: Plan, validity: Validity, fake: Fake, clock: nat -> int)
      returns (outcome: Outcome, ghost answer: Answer, ghost polls: seq<PollAnswer>)
    requires plan.sourceTopic in fake.topics && plan.target in fake.topics && fake.LogInvariant()
    requires AllReachable(fake.topics[plan.sourceTopic], plan.windows)
    modifies fake
    ensures fake.LogInvariant() && |polls| <= 1
    ensures Runs(JobOf(plan, validity), None, polls, answer) && answer.Answered?
    ensures FakeAnswers(old(fake.topics)[plan.sourceTopic], plan.windows, polls)
    ensures
      var before, requests := old(fake.topics), RequestsOf(answer.items, plan.preserve);
      if answer.items == [] || requests.Err?
      then fake.topics == before && outcome == OutcomeOf(plan.windows, plan.preserve, answer, CallFailed(Broker))
      else
        var (after, results) := ProduceAll(plan.target, before[plan.target], requests.value, clock);
        && fake.topics == before[plan.target := after]
        && |results| == |answer.items|
        && outcome == OutcomeOf(plan.windows, plan.preserve, answer, Results(results))
  {
    var scanned;
    scanned, polls := RunOnFake(JobOf(plan, validity), fake);
    answer := scanned;
    var items, cursor := scanned.items, Starts(plan.windows);
    if |items| == 0 {
      return Done(0, cursor, scanned.stats.reachedEnd), answer, polls;
    }
    var requests := BuildRequests(items, plan.preserve);
    if requests.Err? {
      return Stopped(requests.error, 0, cursor), answer, polls;
    }
    ProduceOnlyAppends(plan.target, fake.topics[plan.target], requests.value, clock);
    var results := fake.Produce(plan.target, requests.value, clock);
    outcome := Account(items, results.value, cursor, scanned.stats.reachedEnd);
  }
}

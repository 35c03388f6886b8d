/** The bounded scan (internal/scan/runner.go). The functions say what a scan
    computes from any sequence of poll answers; ScanRunner holds the runner itself,
    proved to compute exactly that. */
module Scan {
  import opened Kafka
  import opened Codec

  datatype Window = Window(start: int, end: int)

  datatype Spec = Spec(
    topic: string, partitions: map<int, Window>, latest: bool,
    maxMessages: int, maxScanned: int, maxBytes: int, format: string)

  datatype MatchResult = MatchResult(matched: bool, skipped: bool)

  const MATCH_ALL: Item -> MatchResult := (_: Item) => MatchResult(true, false)

  /** One scan request: its spec, the validity tests decoding relies on, and an
      arbitrary pure matcher. */
  datatype Job = Job(spec: Spec, validity: Validity, matcher: Item -> MatchResult)

  datatype StoppedBy = NotStopped | MaxMessages | MaxBytes | MaxTime

  /** The cursor map and the accumulator, with the history of evaluated records
      and of what was handed to the collecting emit. */
  datatype Progress = Progress(
    cursor: map<int, int>, scanned: nat, matched: nat, skipped: nat, bytes: nat,
    evaluated: seq<Record>, emitted: seq<Item>)

  /** One answer of Consumer.Poll; expired is what pollCtx.Err() says right after it. */
  datatype PollAnswer =
    | Delivered(records: seq<Record>, expired: bool)
    | PollFailed(error: Error, expired: bool)

  /** How the poll loop ends. Waiting: it has not, the consumer still owes an answer. */
  datatype LoopEnd =
    | Finished(reachedEnd: bool, stoppedBy: StoppedBy)
    | Failed(error: Error)
    | Waiting

  datatype Stats = Stats(
    scanned: nat, matched: nat, skipped: nat, bytes: nat,
    reachedEnd: bool, stoppedBy: StoppedBy, continuation: map<int, int>)

  datatype Answer = Answered(stats: Stats, items: seq<Item>) | RunFailed(error: Error) | StillWaiting

  // ---- What a scan computes ----

  function Starts(windows: map<int, Window>): map<int, int> {
    map p | p in windows :: windows[p].start
  }

  function Start(spec: Spec): Progress {
    Progress(Starts(spec.partitions), 0, 0, 0, 0, [], [])
  }

  predicate Counts(spec: Spec, cursor: map<int, int>, r: Record) {
    && r.partition in spec.partitions && r.partition in cursor
    && cursor[r.partition] <= r.offset < spec.partitions[r.partition].end
  }

  function Step(job: Job, s: Progress, r: Record): Progress {
    if !Counts(job.spec, s.cursor, r) then s
    else
      var item := Decode(job.validity, r, job.spec.format);
      var verdict := job.matcher(item);
      Progress(
        s.cursor[r.partition := r.offset + 1], s.scanned + 1,
        if !verdict.skipped && verdict.matched then s.matched + 1 else s.matched,
        if verdict.skipped then s.skipped + 1 else s.skipped,
        s.bytes + RawSize(r), s.evaluated + [r],
        if !verdict.skipped && verdict.matched then s.emitted + [item] else s.emitted)
  }

  function HitBound(spec: Spec, matched: nat, scanned: nat, bytes: nat): StoppedBy {
    if !spec.latest && spec.maxMessages > 0 && matched >= spec.maxMessages then MaxMessages
    else if spec.maxScanned > 0 && scanned >= spec.maxScanned then MaxMessages
    else if spec.maxBytes > 0 && bytes >= spec.maxBytes then MaxBytes
    else NotStopped
  }

  function BoundAfter(job: Job, s: Progress, r: Record): StoppedBy {
    var next := Step(job, s, r);
    if Counts(job.spec, s.cursor, r)
    then HitBound(job.spec, next.matched, next.scanned, next.bytes) else NotStopped
  }

  predicate Exhausted(spec: Spec, cursor: map<int, int>) {
    forall p :: p in spec.partitions && p in cursor ==> cursor[p] >= spec.partitions[p].end
  }

  function Batch(job: Job, s: Progress, rs: seq<Record>): (Progress, StoppedBy)
    decreases |rs|
  {
    if rs == [] then (s, NotStopped)
    else if BoundAfter(job, s, rs[0]) != NotStopped then (Step(job, s, rs[0]), BoundAfter(job, s, rs[0]))
    else Batch(job, Step(job, s, rs[0]), rs[1..])
  }

  function Loop(job: Job, s: Progress, polls: seq<PollAnswer>): (Progress, LoopEnd)
    decreases |polls|
  {
    if Exhausted(job.spec, s.cursor) then (s, Finished(true, NotStopped))
    else if polls == [] then (s, Waiting)
    else
      match polls[0]
      case PollFailed(error, expired) =>
        if expired then (s, Finished(false, MaxTime)) else (s, Failed(error))
      case Delivered(records, expired) =>
        var (next, bound) := Batch(job, s, records);
        if bound != NotStopped then (next, Finished(false, bound))
        else if records == [] && expired then (next, Finished(false, MaxTime))
        else Loop(job, next, polls[1..])
  }

  /** The poll loop from the start offsets on. */
  function Ran(job: Job, polls: seq<PollAnswer>): (Progress, LoopEnd) {
    Loop(job, Start(job.spec), polls)
  }

  function CutToLimit(spec: Spec, items: seq<Item>): seq<Item> {
    if spec.maxMessages > 0 && |items| > spec.maxMessages then items[..spec.maxMessages] else items
  }

  ghost predicate NewestFirst(items: seq<Item>) {
    forall i, j :: 0 <= i < j < |items| ==> items[i].timestamp >= items[j].timestamp
  }

  /** Some newest-first order of buffer, cut to maxMessages: what drain emits, given
      that sort.Slice promises no order among equal timestamps. */
  ghost predicate Drained(spec: Spec, buffer: seq<Item>, items: seq<Item>) {
    exists sorted ::
      NewestFirst(sorted) && multiset(sorted) == multiset(buffer) && items == CutToLimit(spec, sorted)
  }

  ghost predicate Emits(spec: Spec, collected: seq<Item>, items: seq<Item>) {
    if spec.latest then Drained(spec, collected, items) else items == collected
  }

  function FinalStats(spec: Spec, s: Progress, matched: nat, reachedEnd: bool, stoppedBy: StoppedBy): Stats {
    Stats(s.scanned, matched, s.skipped, s.bytes,
          spec.latest || reachedEnd, if spec.latest then NotStopped else stoppedBy,
          if spec.latest then Starts(spec.partitions) else s.cursor)
  }

  /** The whole of Run, as a relation: only a latest scan's order among equal
      timestamps is left open. */
  ghost predicate Runs(job: Job, assignError: Option<Error>, polls: seq<PollAnswer>, answer: Answer) {
    var (s, end) := Ran(job, polls);
    if job.spec.partitions == map[] then
      answer == Answered(FinalStats(job.spec, Start(job.spec), 0, true, NotStopped), [])
    else if assignError.Some? then answer == RunFailed(assignError.value)
    else
      match end
      case Failed(error) => answer == RunFailed(error)
      case Waiting => answer == StillWaiting
      case Finished(reachedEnd, stoppedBy) =>
        && answer.Answered? && Emits(job.spec, s.emitted, answer.items)
        && answer.stats == FinalStats(job.spec, s, |answer.items|, reachedEnd, stoppedBy)
  }
}

/** Scans stop at their bounds, and requests resolve to real bounds
    (internal/scan/runner.go, internal/service/message/bounds.go). */
module ScanBounds {
  import opened Kafka
  import opened Scan
  import ScanSafety

  // ---- Resolving a requested bound ----

  datatype Range = Range(def: int, ceiling: int)

  /** What configuration validation demands of every range. */
  predicate Validated(r: Range) { 0 < r.def <= r.ceiling }

  function ResolveBound(v: int, r: Range): Result<int> {
    if v == 0 then Ok(r.def)
    else if v > r.ceiling then Err(BoundExceeded)
    else Ok(v)
  }

  /** Milliseconds become nanoseconds in 64-bit arithmetic before the comparison. */
  function ResolveMaxTime(maxTimeMs: int, r: Range): Result<int> {
    if maxTimeMs == 0 then Ok(r.def)
    else
      var d := ToInt64(maxTimeMs * NANOS_PER_MILLI);
      if d > r.ceiling then Err(BoundExceeded) else Ok(d)
  }

  /** A request above the ceiling is refused; an accepted one resolves into
      [1, ceiling] exactly when it is not negative. */
  lemma AcceptedBoundIsReal(v: int, r: Range)
    requires Validated(r)
    ensures ResolveBound(v, r).Err? <==> v > r.ceiling
    ensures ResolveBound(v, r).Ok? ==> (1 <= ResolveBound(v, r).value <= r.ceiling <==> v >= 0)
    ensures ResolveBound(v, r).Ok? ==> ResolveBound(v, r).value == if v == 0 then r.def else v
  {
  }

  /** A time bound means the milliseconds asked for exactly when their product with
      one million fits 64 bits; then it is real when the request is not negative. */
  lemma AcceptedTimeIsReal(ms: int, r: Range)
    requires Validated(r) && r.ceiling < 0x8000_0000_0000_0000
    ensures ms == 0 ==> ResolveMaxTime(ms, r) == Ok(r.def)
    ensures ms != 0 && ResolveMaxTime(ms, r).Ok? ==>
      (ResolveMaxTime(ms, r).value == ms * NANOS_PER_MILLI <==>
       -0x8000_0000_0000_0000 <= ms * NANOS_PER_MILLI < 0x8000_0000_0000_0000)
    ensures 0 <= ms * NANOS_PER_MILLI < 0x8000_0000_0000_0000 ==>
      if ms * NANOS_PER_MILLI > r.ceiling then ResolveMaxTime(ms, r) == Err(BoundExceeded)
      else ResolveMaxTime(ms, r).Ok? && 1 <= ResolveMaxTime(ms, r).value <= r.ceiling
  {
  }

  // A request of 2^64 / 10^6 milliseconds, rounded up, wraps to under a millisecond.
  lemma HugeTimeWraps()
    ensures ResolveMaxTime(18446744073710, Range(10_000_000_000, 60_000_000_000)) == Ok(448384)
  {
  }

  // ---- Stopping at a bound ----

  ghost predicate Under(spec: Spec, s: Progress) {
    HitBound(spec, s.matched, s.scanned, s.bytes) == NotStopped
  }

  /** Counts never pass their bounds; bytes pass theirs by less than the last record. */
  ghost predicate WithinBounds(spec: Spec, s: Progress) {
    && (!spec.latest && spec.maxMessages > 0 ==> s.matched <= spec.maxMessages)
    && (spec.maxScanned > 0 ==> s.scanned <= spec.maxScanned)
    && (spec.maxBytes > 0 && s.bytes >= spec.maxBytes ==>
          s.evaluated != [] && s.bytes - RawSize(s.evaluated[|s.evaluated| - 1]) < spec.maxBytes)
  }

  /** A reported reason names something that happened. */
  ghost predicate Truthful(spec: Spec, s: Progress, reason: StoppedBy, polls: seq<PollAnswer>) {
    match reason
    case NotStopped => Exhausted(spec, s.cursor)
    case MaxMessages =>
      || (!spec.latest && 0 < spec.maxMessages == s.matched)
      || 0 < spec.maxScanned == s.scanned
    case MaxBytes => 0 < spec.maxBytes <= s.bytes
    case MaxTime => exists i :: 0 <= i < |polls| && polls[i].expired
  }

  lemma {:induction false} BatchWithinBounds(job: Job, s: Progress, rs: seq<Record>)
    requires Under(job.spec, s)
    ensures
      var (next, bound) := Batch(job, s, rs);
      && WithinBounds(job.spec, next)
      && bound == HitBound(job.spec, next.matched, next.scanned, next.bytes)
      && bound != MaxTime
    decreases |rs|
  {
    if rs != [] {
      var next := Step(job, s, rs[0]);
      assert WithinBounds(job.spec, next);
      if BoundAfter(job, s, rs[0]) == NotStopped {
        BatchWithinBounds(job, next, rs[1..]);
      }
    }
  }

  lemma {:induction false} LoopWithinBounds(job: Job, s: Progress, polls: seq<PollAnswer>)
    requires Under(job.spec, s)
    ensures
      var (last, end) := Loop(job, s, polls);
      && WithinBounds(job.spec, last)
      && (end.Finished? ==>
           Truthful(job.spec, last, end.stoppedBy, polls) && (end.reachedEnd <==> end.stoppedBy == NotStopped))
    decreases |polls|
  {
    if !Exhausted(job.spec, s.cursor) && polls != [] && polls[0].Delivered? {
      BatchWithinBounds(job, s, polls[0].records);
      var (next, bound) := Batch(job, s, polls[0].records);
      if bound == NotStopped && !(polls[0].records == [] && polls[0].expired) {
        LoopWithinBounds(job, next, polls[1..]);
        var (last, end) := Loop(job, next, polls[1..]);
        if end == Finished(false, MaxTime) {
          var i :| 0 <= i < |polls[1..]| && polls[1..][i].expired;
          assert polls[i + 1].expired;
        }
      }
    }
  }

  /** Bounds are real, for every job and any consumer: matched, scanned and bytes stop
      where the spec says, a reported reason is true, and a scan that says it reached
      the end did so on every partition. */
  lemma BoundsAreReal(job: Job, polls: seq<PollAnswer>)
    ensures
      var (s, end) := Ran(job, polls);
      && WithinBounds(job.spec, s)
      && (end.Finished? ==>
           Truthful(job.spec, s, end.stoppedBy, polls) && (end.reachedEnd <==> end.stoppedBy == NotStopped))
  {
    LoopWithinBounds(job, Start(job.spec), polls);
  }

  /** A whole read is bounded by its configured ceilings: whatever non-negative limits
      the caller sends, an answered run emits at most limit's ceiling records and
      overshoots the byte ceiling by less than one record; a latest read too. */
  lemma ReadIsBounded(job: Job, limit: int, maxBytes: int, limits: Range, byteLimits: Range,
                      polls: seq<PollAnswer>, answer: Answer)
    requires Validated(limits) && Validated(byteLimits) && limit >= 0 && maxBytes >= 0
    requires ResolveBound(limit, limits) == Ok(job.spec.maxMessages)
    requires ResolveBound(maxBytes, byteLimits) == Ok(job.spec.maxBytes)
    requires Runs(job, None, polls, answer) && answer.Answered?
    ensures |answer.items| == answer.stats.matched <= limits.ceiling
    ensures answer.stats.bytes < byteLimits.ceiling ||
      exists r :: r in Ran(job, polls).0.evaluated && answer.stats.bytes - RawSize(r) < byteLimits.ceiling
  {
    hide Ran;
    BoundsAreReal(job, polls);
    var s := Ran(job, polls).0;
    ScanSafety.MatchedIsEmitted(job, polls);
    if s.bytes >= job.spec.maxBytes {
      assert s.evaluated[|s.evaluated| - 1] in s.evaluated;
    }
  }
}

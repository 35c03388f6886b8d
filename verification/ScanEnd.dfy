/** When a scan stops, and what its reachedEnd is worth (internal/scan/runner.go). */
module ScanEnd {
  import opened Kafka
  import opened Logs
  import opened Scan
  import opened ScanSafety
  import opened ScanBounds
  import opened ScanResume
  import opened FakeCluster
  import opened FakeFeed

  // ---- Every useful poll brings the end closer ----

  /** Some record of a poll is still to be read. */
  ghost predicate Carries(spec: Spec, cursor: map<int, int>, rs: seq<Record>) {
    exists r :: r in rs && Counts(spec, cursor, r)
  }

  /** A poll that carries an in-window record strictly lowers what remains; no poll raises it. */
  lemma {:induction false} PollShrinksRemaining(job: Job, s: Progress, rs: seq<Record>)
    requires s.cursor.Keys == job.spec.partitions.Keys
    ensures Batch(job, s, rs).0.cursor.Keys == job.spec.partitions.Keys
    ensures
      var windows, after := job.spec.partitions, Batch(job, s, rs).0.cursor;
      && Remaining(windows, after) <= Remaining(windows, s.cursor)
      && (Carries(job.spec, s.cursor, rs) ==> Remaining(windows, after) < Remaining(windows, s.cursor))
    decreases |rs|
  {
    hide Step, Remaining;
    if rs != [] {
      StepShrinksRemaining(job, s, rs[0]);
      if BoundAfter(job, s, rs[0]) == NotStopped {
        PollShrinksRemaining(job, Step(job, s, rs[0]), rs[1..]);
      }
    }
  }

  /** How many of the polls a run takes carry an in-window record. */
  ghost function UsefulPolls(job: Job, s: Progress, polls: seq<PollAnswer>): nat
    decreases |polls|
  {
    if Exhausted(job.spec, s.cursor) || polls == [] || polls[0].PollFailed? then 0
    else
      var (next, bound) := Batch(job, s, polls[0].records);
      (if Carries(job.spec, s.cursor, polls[0].records) then 1 else 0)
      + if bound != NotStopped || (polls[0].records == [] && polls[0].expired) then 0
        else UsefulPolls(job, next, polls[1..])
  }

  /** Against any consumer, a run takes at most as many useful polls as its windows are
      wide in all; what it leaves unread is taken off that. */
  lemma {:induction false} UsefulPollsAreBounded(job: Job, s: Progress, polls: seq<PollAnswer>)
    requires s.cursor.Keys == job.spec.partitions.Keys
    ensures Loop(job, s, polls).0.cursor.Keys == job.spec.partitions.Keys
    ensures
      var windows, last := job.spec.partitions, Loop(job, s, polls).0.cursor;
      && 0 <= Remaining(windows, last)
      && UsefulPolls(job, s, polls) + Remaining(windows, last) <= Remaining(windows, s.cursor)
    decreases |polls|
  {
    hide Batch, Remaining, Carries;
    RemainingIsNonNegative(job.spec.partitions, s.cursor);
    if !Exhausted(job.spec, s.cursor) && polls != [] && polls[0].Delivered? {
      var (next, bound) := Batch(job, s, polls[0].records);
      PollShrinksRemaining(job, s, polls[0].records);
      RemainingIsNonNegative(job.spec.partitions, next.cursor);
      if bound == NotStopped && !(polls[0].records == [] && polls[0].expired) {
        UsefulPollsAreBounded(job, next, polls[1..]);
      }
    }
  }

  lemma RemainingIsNonNegative(windows: map<int, Window>, cursor: map<int, int>)
    requires cursor.Keys == windows.Keys
    ensures Remaining(windows, cursor) >= 0
  {
    TotalNonNegative(Distances(windows, cursor));
  }

  // ---- Where a poll's records stop ----

  lemma HitBoundIsMonotone(spec: Spec, m: nat, s: nat, b: nat, m2: nat, s2: nat, b2: nat)
    requires m <= m2 && s <= s2 && b <= b2 && HitBound(spec, m2, s2, b2) == NotStopped
    ensures HitBound(spec, m, s, b) == NotStopped
  {
  }

  lemma {:induction false} FoldGrows(job: Job, seen: seq<Record>, rs: seq<Record>)
    ensures
      var a, b := Fold(job, seen), Fold(job, seen + rs);
      a.matched <= b.matched && a.scanned <= b.scanned && a.bytes <= b.bytes && a.evaluated <= b.evaluated
  {
    if rs == [] {
      assert seen + rs == seen;
    } else {
      var n := |rs| - 1;
      FoldGrows(job, seen, rs[..n]);
      assert (seen + rs)[..|seen + rs| - 1] == seen + rs[..n];
      StepGrows(job, Fold(job, seen + rs[..n]), rs[n]);
    }
  }

  lemma StepGrows(job: Job, s: Progress, r: Record)
    ensures
      var b := Step(job, s, r);
      s.matched <= b.matched && s.scanned <= b.scanned && s.bytes <= b.bytes && s.evaluated <= b.evaluated
    ensures Counts(job.spec, s.cursor, r) ==> Step(job, s, r).evaluated == s.evaluated + [r]
    ensures !Counts(job.spec, s.cursor, r) ==> Step(job, s, r) == s
  {
  }

  // Where a batch stops: just behind the first counted record that takes it over a bound.
  lemma {:induction false} BatchStopsAt(job: Job, seen: seq<Record>, rs: seq<Record>) returns (n: nat)
    requires Under(job.spec, Fold(job, seen))
    ensures n <= |rs| && Batch(job, Fold(job, seen), rs).0 == Fold(job, seen + rs[..n])
    ensures Batch(job, Fold(job, seen), rs).1 == NotStopped ==> n == |rs| && Under(job.spec, Fold(job, seen + rs))
    ensures Batch(job, Fold(job, seen), rs).1 != NotStopped ==> StopsBehind(job, seen, rs, n)
    decreases |rs|
  {
    hide Step, HitBound;
    if rs == [] {
      n := 0;
      assert seen + rs[..0] == seen == seen + rs;
    } else {
      FoldSnoc(job, seen, rs[0]);
      if BoundAfter(job, Fold(job, seen), rs[0]) != NotStopped {
        n := 1;
        assert rs[..1] == [rs[0]] && seen + rs[..0] == seen;
      } else {
        StillUnder(job, Fold(job, seen), rs[0]);
        var m := BatchStopsAt(job, seen + [rs[0]], rs[1..]);
        n := m + 1;
        SplitHead(seen, rs, m);
        if m > 0 {
          SplitHead(seen, rs, m - 1);
        }
      }
    }
  }

  lemma SplitHead(seen: seq<Record>, rs: seq<Record>, m: nat)
    requires m < |rs|
    ensures seen + [rs[0]] + rs[1..][..m] == seen + rs[..m + 1] && seen + [rs[0]] + rs[1..] == seen + rs
    ensures m > 0 ==> rs[1..][m - 1] == rs[m]
  {
  }

  lemma FoldSnoc(job: Job, seen: seq<Record>, r: Record)
    ensures Fold(job, seen + [r]) == Step(job, Fold(job, seen), r)
  {
    assert (seen + [r])[..|seen|] == seen;
  }

  lemma StillUnder(job: Job, s: Progress, r: Record)
    requires Under(job.spec, s) && BoundAfter(job, s, r) == NotStopped
    ensures Under(job.spec, Step(job, s, r))
  {
  }

  ghost predicate StopsBehind(job: Job, seen: seq<Record>, rs: seq<Record>, n: nat) {
    && 0 < n <= |rs|
    && Under(job.spec, Fold(job, seen + rs[..n - 1])) && !Under(job.spec, Fold(job, seen + rs[..n]))
    && Counts(job.spec, Fold(job, seen + rs[..n - 1]).cursor, rs[n - 1])
  }

  // ---- What fits under the bounds ----

  /** Reading just these records, in any order, hits no bound. */
  ghost predicate Fits(job: Job, rs: seq<Record>) {
    HitBound(job.spec, |Emissions(job, rs)|, |rs|, TotalSize(rs)) == NotStopped
  }

  /** All but the last of them hit none. */
  ghost predicate NearlyFits(job: Job, rs: seq<Record>) {
    rs == [] || Fits(job, rs[..|rs| - 1])
  }

  lemma UnderIsFits(job: Job, rs: seq<Record>)
    ensures Under(job.spec, Fold(job, rs)) <==> Fits(job, Fold(job, rs).evaluated)
  {
    hide Emissions, TotalSize, Remaining, EvaluatedInWindow, SkippedCount, CursorsInRange;
    FoldIsConsistent(job, rs);
  }

  lemma TotalSizeGrows(a: seq<Record>, b: seq<Record>)
    requires a <= b
    ensures TotalSize(a) <= TotalSize(b)
    decreases |b|
  {
    if a != b {
      assert a <= b[..|b| - 1];
      TotalSizeGrows(a, b[..|b| - 1]);
    }
  }

  lemma FitsEarlier(job: Job, a: seq<Record>, b: seq<Record>)
    requires a <= b && Fits(job, b)
    ensures Fits(job, a)
  {
    assert b == a + b[|a|..];
    EmissionsJoin(job, a, b[|a|..]);
    TotalSizeGrows(a, b);
    HitBoundIsMonotone(job.spec, |Emissions(job, a)|, |a|, TotalSize(a), |Emissions(job, b)|, |b|, TotalSize(b));
  }

  lemma {:induction false} ExhaustedFoldStays(job: Job, seen: seq<Record>, rs: seq<Record>)
    requires Exhausted(job.spec, Fold(job, seen).cursor)
    ensures Fold(job, seen + rs) == Fold(job, seen)
  {
    if rs == [] {
      assert seen + rs == seen;
    } else {
      var n := |rs| - 1;
      ExhaustedFoldStays(job, seen, rs[..n]);
      assert seen + rs == seen + rs[..n] + [rs[n]];
      FoldSnoc(job, seen + rs[..n], rs[n]);
    }
  }

  // Nothing more evaluated, nothing changed.
  lemma {:induction false} IdleFoldStays(job: Job, seen: seq<Record>, rs: seq<Record>)
    requires Fold(job, seen + rs).evaluated == Fold(job, seen).evaluated
    ensures Fold(job, seen + rs) == Fold(job, seen)
  {
    hide Step;
    if rs == [] {
      assert seen + rs == seen;
    } else {
      var n := |rs| - 1;
      assert seen + rs == seen + rs[..n] + [rs[n]];
      FoldSnoc(job, seen + rs[..n], rs[n]);
      FoldGrows(job, seen, rs[..n]);
      StepGrows(job, Fold(job, seen + rs[..n]), rs[n]);
      IdleFoldStays(job, seen, rs[..n]);
    }
  }

  /** One poll that brings everything in reach: no bound is hit exactly when all of it
      fits, and all of it is read exactly when all but the last record do. */
  lemma BatchReadsAllIff(job: Job, out: seq<Record>)
    requires Exhausted(job.spec, Fold(job, out).cursor)
    ensures
      var (s, bound), all := Batch(job, Start(job.spec), out), Fold(job, out).evaluated;
      && (bound == NotStopped <==> Fits(job, all))
      && (Exhausted(job.spec, s.cursor) <==> NearlyFits(job, all))
  {
    hide Batch, Fold, Exhausted, HitBound, Emissions, TotalSize;
    UnderIsFits(job, []);
    UnderIsFits(job, out);
    StartIsFold(job);
    var n := BatchStopsAt(job, [], out);
    assert [] + out == out && [] + out[..n] == out[..n];
    if Batch(job, Start(job.spec), out).1 == NotStopped {
      assert out[..n] == out;
      if Fold(job, out).evaluated != [] {
        FitsEarlier(job, Fold(job, out).evaluated[..|Fold(job, out).evaluated| - 1], Fold(job, out).evaluated);
      }
    } else {
      assert [] + out[..n - 1] == out[..n - 1];
      StoppedReadsAllIff(job, out, n);
    }
  }

  lemma StartIsFold(job: Job)
    ensures Fold(job, []) == Start(job.spec) && Under(job.spec, Start(job.spec))
  {
  }

  lemma StartIsUnder(spec: Spec)
    ensures Under(spec, Start(spec))
  {
  }

  lemma StoppedReadsAllIff(job: Job, out: seq<Record>, n: nat)
    requires Exhausted(job.spec, Fold(job, out).cursor) && 0 < n <= |out|
    requires Under(job.spec, Fold(job, out[..n - 1])) && !Under(job.spec, Fold(job, out[..n]))
    requires Counts(job.spec, Fold(job, out[..n - 1]).cursor, out[n - 1])
    ensures !Fits(job, Fold(job, out).evaluated)
    ensures Exhausted(job.spec, Fold(job, out[..n]).cursor) <==> NearlyFits(job, Fold(job, out).evaluated)
  {
    hide Exhausted, HitBound, Emissions, TotalSize, Step;
    var before, read, all := Fold(job, out[..n - 1]).evaluated, Fold(job, out[..n]).evaluated, Fold(job, out).evaluated;
    assert out == out[..n] + out[n..] && out[..n] == out[..n - 1] + [out[n - 1]];
    UnderIsFits(job, out[..n - 1]);
    UnderIsFits(job, out[..n]);
    FoldSnoc(job, out[..n - 1], out[n - 1]);
    StepGrows(job, Fold(job, out[..n - 1]), out[n - 1]);
    assert read == before + [out[n - 1]] && read[..|read| - 1] == before;
    FoldGrows(job, out[..n], out[n..]);
    if Fits(job, all) {
      FitsEarlier(job, read, all);
    }
    if Exhausted(job.spec, Fold(job, out[..n]).cursor) {
      ExhaustedFoldStays(job, out[..n], out[n..]);
    } else {
      if read == all {
        IdleFoldStays(job, out[..n], out[n..]);
      }
      assert read <= all[..|all| - 1];
      if Fits(job, all[..|all| - 1]) {
        FitsEarlier(job, read, all[..|all| - 1]);
      }
    }
  }

  /** A latest answer always says that it reached the end, and continues where it started. */
  lemma LatestAlwaysReports(job: Job, polls: seq<PollAnswer>, answer: Answer)
    requires job.spec.latest && Runs(job, None, polls, answer) && answer.Answered?
    ensures answer.stats.reachedEnd && answer.stats.stoppedBy == NotStopped
    ensures answer.stats.continuation.Keys == job.spec.partitions.Keys
    ensures forall p :: p in job.spec.partitions ==>
      answer.stats.continuation[p] == job.spec.partitions[p].start
  {
    hide Ran;
  }
}

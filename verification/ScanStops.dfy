/** How a run ends: which answers of the consumer end it, with what report, and what it
    still hands over (internal/scan/runner.go). */
module ScanStops {
  import opened Kafka
  import opened Logs
  import opened Codec
  import opened Scan
  import opened ScanSafety
  import opened ScanBounds
  import opened ScanResume
  import opened ScanEnd

  /** What the first i answers delivered, folded. */
  ghost function After(job: Job, polls: seq<PollAnswer>, i: nat): Progress
    requires i <= |polls|
  {
    Fold(job, DeliveredBy(polls[..i]))
  }

  /** A poll that found nothing, after the time had run out. */
  ghost predicate IdleExpired(poll: PollAnswer) {
    poll.Delivered? && poll.records == [] && poll.expired
  }

  /** After i answers the run is still going: all of them delivered, none was idle after
      the time ran out, no bound is hit and some window is still open. */
  ghost predicate StaysOpen(job: Job, polls: seq<PollAnswer>, i: nat) {
    && i <= |polls| && (forall j :: 0 <= j < i ==> polls[j].Delivered? && !IdleExpired(polls[j]))
    && Under(job.spec, After(job, polls, i)) && !Exhausted(job.spec, After(job, polls, i).cursor)
  }

  // ---- One answer at a time ----

  ghost function Got(poll: PollAnswer): seq<Record> {
    if poll.Delivered? then poll.records else []
  }

  lemma DeliveredFirst(polls: seq<PollAnswer>)
    requires polls != []
    ensures DeliveredBy(polls) == Got(polls[0]) + DeliveredBy(polls[1..])
  {
  }

  lemma OnlyDelivered(poll: PollAnswer)
    ensures DeliveredBy([poll]) == Got(poll) && DeliveredBy([]) == []
  {
    assert [poll][1..] == [];
  }

  lemma {:induction false} DeliveredSnoc(polls: seq<PollAnswer>, poll: PollAnswer)
    ensures DeliveredBy(polls + [poll]) == DeliveredBy(polls) + Got(poll)
  {
    hide DeliveredBy, Got;
    OnlyDelivered(poll);
    if polls == [] {
      assert polls + [poll] == [poll];
    } else {
      DeliveredSnoc(polls[1..], poll);
      assert (polls + [poll])[1..] == polls[1..] + [poll];
      DeliveredFirst(polls + [poll]);
      DeliveredFirst(polls);
    }
  }

  lemma AfterOneMore(job: Job, polls: seq<PollAnswer>, i: nat)
    requires i < |polls| && polls[i].Delivered?
    ensures After(job, polls, i + 1) == Fold(job, DeliveredBy(polls[..i]) + polls[i].records)
  {
    DeliveredSnoc(polls[..i], polls[i]);
    assert polls[..i + 1] == polls[..i] + [polls[i]];
  }

  lemma NoneYet(job: Job, polls: seq<PollAnswer>)
    ensures After(job, polls, 0) == Start(job.spec) && Under(job.spec, Start(job.spec))
  {
    assert polls[..0] == [];
  }

  // A batch that leaves its run under the bounds is folded whole.
  lemma BatchStaysUnder(job: Job, seen: seq<Record>, rs: seq<Record>)
    requires Under(job.spec, Fold(job, seen))
    ensures
      var (s, bound) := Batch(job, Fold(job, seen), rs);
      && (bound == NotStopped <==> Under(job.spec, Fold(job, seen + rs)))
      && (bound == NotStopped ==> s == Fold(job, seen + rs))
  {
    hide Batch, Fold;
    var n := BatchStopsAt(job, seen, rs);
    if Batch(job, Fold(job, seen), rs).1 == NotStopped {
      assert rs[..n] == rs;
    } else if Under(job.spec, Fold(job, seen + rs)) {
      assert seen + rs == seen + rs[..n] + rs[n..];
      LaterIsOver(job, seen + rs[..n], rs[n..]);
      assert false;
    }
  }

  lemma LaterIsOver(job: Job, seen: seq<Record>, rs: seq<Record>)
    requires !Under(job.spec, Fold(job, seen))
    ensures !Under(job.spec, Fold(job, seen + rs))
  {
    hide Fold;
    FoldGrows(job, seen, rs);
  }

  // An open run was open before.
  lemma OpenBefore(job: Job, polls: seq<PollAnswer>, i: nat)
    requires StaysOpen(job, polls, i) && i > 0
    ensures StaysOpen(job, polls, i - 1)
  {
    hide Fold, Exhausted, IdleExpired, HitBound;
    AfterOneMore(job, polls, i - 1);
    var seen, rs := DeliveredBy(polls[..i - 1]), polls[i - 1].records;
    if !Under(job.spec, Fold(job, seen)) {
      LaterIsOver(job, seen, rs);
    }
    if Exhausted(job.spec, Fold(job, seen).cursor) {
      ExhaustedFoldStays(job, seen, rs);
    }
  }

  /** While a run stays open it is the loop over the answers still to come. */
  lemma {:induction false} OpenRun(job: Job, polls: seq<PollAnswer>, i: nat)
    requires StaysOpen(job, polls, i)
    ensures Ran(job, polls) == Loop(job, After(job, polls, i), polls[i..])
  {
    hide Fold, Exhausted, Batch, HitBound;
    if i == 0 {
      NoneYet(job, polls);
      assert polls[0..] == polls;
    } else {
      OpenBefore(job, polls, i);
      OpenRun(job, polls, i - 1);
      OpenStep(job, polls, i - 1);
      assert polls[i - 1..][1..] == polls[i..];
    }
  }

  // The loop's next turn, seen from an open run.
  lemma OpenStep(job: Job, polls: seq<PollAnswer>, i: nat)
    requires StaysOpen(job, polls, i) && i < |polls| && polls[i].Delivered? && !IdleExpired(polls[i])
    ensures
      var (s, bound) := Batch(job, After(job, polls, i), polls[i].records);
      && Loop(job, After(job, polls, i), polls[i..])
         == (if bound != NotStopped then (s, Finished(false, bound)) else Loop(job, s, polls[i..][1..]))
      && (bound == NotStopped <==> Under(job.spec, After(job, polls, i + 1)))
      && (bound == NotStopped ==> s == After(job, polls, i + 1))
  {
    hide Fold, Exhausted, Batch, HitBound;
    AfterOneMore(job, polls, i);
    BatchStaysUnder(job, DeliveredBy(polls[..i]), polls[i].records);
    assert polls[i..][0] == polls[i];
  }

  // ---- What ends a run ----

  /** The time is up: a failing poll says so, or an empty one comes too late. */
  ghost predicate TimesOut(poll: PollAnswer) {
    (poll.PollFailed? && poll.expired) || IdleExpired(poll)
  }

  // The end of an open run whose next answer is given.
  lemma EndsWith(job: Job, polls: seq<PollAnswer>, i: nat)
    requires StaysOpen(job, polls, i) && i < |polls|
    ensures TimesOut(polls[i]) ==> Ran(job, polls) == (After(job, polls, i), Finished(false, MaxTime))
    ensures polls[i].PollFailed? && !polls[i].expired ==>
      Ran(job, polls) == (After(job, polls, i), Failed(polls[i].error))
  {
    hide Fold, Exhausted;
    OpenRun(job, polls, i);
    assert polls[i..][0] == polls[i];
  }

  // The end of an open run that has no more answers.
  lemma EndsWaiting(job: Job, polls: seq<PollAnswer>)
    requires StaysOpen(job, polls, |polls|)
    ensures Ran(job, polls) == (After(job, polls, |polls|), Waiting)
  {
    hide Fold, Exhausted;
    OpenRun(job, polls, |polls|);
    assert polls[|polls|..] == [];
  }

  // A run that is open now and not after the next answer ends with it.
  lemma EndsHere(job: Job, polls: seq<PollAnswer>, i: nat)
    requires StaysOpen(job, polls, i) && i < |polls| && !StaysOpen(job, polls, i + 1)
    requires polls[i].Delivered? && !IdleExpired(polls[i])
    ensures
      var (s, end) := Ran(job, polls);
      && end.Finished? && (end.reachedEnd <==> end.stoppedBy == NotStopped) && end.stoppedBy != MaxTime
      && (end.reachedEnd <==> Under(job.spec, After(job, polls, i + 1)))
  {
    hide Fold, Exhausted, Batch;
    OpenRun(job, polls, i);
    OpenStep(job, polls, i);
    BatchWithinBounds(job, After(job, polls, i), polls[i].records);
  }

  // The last moment a run is open.
  lemma {:induction false} LastOpen(job: Job, polls: seq<PollAnswer>, n: nat) returns (i: nat)
    requires StaysOpen(job, polls, 0) && n <= |polls|
    ensures i <= n && StaysOpen(job, polls, i) && (i == n || !StaysOpen(job, polls, i + 1))
  {
    hide StaysOpen;
    if n == 0 || StaysOpen(job, polls, n) {
      i := n;
    } else {
      i := LastOpen(job, polls, n - 1);
    }
  }

  lemma NeverOpen(job: Job, polls: seq<PollAnswer>)
    requires !StaysOpen(job, polls, 0)
    ensures Ran(job, polls) == (Start(job.spec), Finished(true, NotStopped))
  {
    NoneYet(job, polls);
  }

  lemma OpenFromTheStart(job: Job, polls: seq<PollAnswer>, i: nat)
    requires StaysOpen(job, polls, i)
    ensures forall j :: 0 <= j <= i ==> StaysOpen(job, polls, j)
  {
    hide StaysOpen;
    if i > 0 {
      OpenBefore(job, polls, i);
      OpenFromTheStart(job, polls, i - 1);
    }
  }

  /** The run stays open up to answer i, and that answer is of the given kind. */
  ghost predicate MeetsTimeout(job: Job, polls: seq<PollAnswer>, i: nat) {
    i < |polls| && StaysOpen(job, polls, i) && TimesOut(polls[i])
  }

  ghost predicate MeetsFailure(job: Job, polls: seq<PollAnswer>, i: nat, error: Error) {
    i < |polls| && StaysOpen(job, polls, i) && polls[i] == PollFailed(error, false)
  }

  /** Exactly how a run ends. It fails exactly when it is open up to a failing poll whose
      time is not up; it times out exactly when it is open up to an answer that comes too
      late; it waits exactly when it is open after every answer. */
  lemma EndIff(job: Job, polls: seq<PollAnswer>, error: Error)
    ensures Ran(job, polls).1 == Failed(error) <==> exists i :: MeetsFailure(job, polls, i, error)
    ensures Ran(job, polls).1 == Finished(false, MaxTime) <==> exists i :: MeetsTimeout(job, polls, i)
    ensures Ran(job, polls).1 == Waiting <==> StaysOpen(job, polls, |polls|)
  {
    hide Ran, StaysOpen;
    forall i | MeetsTimeout(job, polls, i) ensures Ran(job, polls).1 == Finished(false, MaxTime) {
      EndsWith(job, polls, i);
    }
    forall i | MeetsFailure(job, polls, i, error) ensures Ran(job, polls).1 == Failed(error) {
      EndsWith(job, polls, i);
    }
    if StaysOpen(job, polls, |polls|) {
      EndsWaiting(job, polls);
    } else if !StaysOpen(job, polls, 0) {
      NeverOpen(job, polls);
    } else {
      var i := LastOpen(job, polls, |polls|);
      LastAnswer(job, polls, i);
      if polls[i].PollFailed? && polls[i].error == error && !polls[i].expired {
        assert MeetsFailure(job, polls, i, error);
      }
      if TimesOut(polls[i]) {
        assert MeetsTimeout(job, polls, i);
      }
    }
  }

  lemma LastAnswer(job: Job, polls: seq<PollAnswer>, i: nat)
    requires StaysOpen(job, polls, i) && i < |polls| && !StaysOpen(job, polls, i + 1)
    ensures
      var end := Ran(job, polls).1;
      && (end == Finished(false, MaxTime) <==> TimesOut(polls[i]))
      && (end.Failed? <==> polls[i].PollFailed? && !polls[i].expired)
      && (end.Failed? ==> polls[i] == PollFailed(end.error, false))
      && end != Waiting
  {
    hide Ran;
    EndsWith(job, polls, i);
    if polls[i].Delivered? && !IdleExpired(polls[i]) {
      EndsHere(job, polls, i);
    }
  }

  // ---- What the caller is answered ----

  /** A run fails only with its consumer's own error: a refused assignment, or the first
      failing poll of a run that was open and whose time was not up. */
  lemma FailsIff(job: Job, assignError: Option<Error>, polls: seq<PollAnswer>, answer: Answer, error: Error)
    requires Runs(job, assignError, polls, answer) && job.spec.partitions != map[]
    ensures answer == RunFailed(error) <==>
      assignError == Some(error) || (assignError == None && exists i :: MeetsFailure(job, polls, i, error))
  {
    hide Ran, Emits, MeetsFailure;
    EndIff(job, polls, error);
  }

  // Without partitions in scope there is nothing to assign or poll, and so nothing to fail.
  lemma EmptyScopeIsAnswered(job: Job, assignError: Option<Error>, polls: seq<PollAnswer>, answer: Answer)
    requires Runs(job, assignError, polls, answer) && job.spec.partitions == map[]
    ensures answer.Answered? && answer.items == [] && answer.stats.scanned == 0 && answer.stats.reachedEnd
    ensures answer.stats.stoppedBy == NotStopped && answer.stats.continuation == map[]
  {
  }

  /** A run whose time ran out is answered with everything it read till then. It says so,
      and that the end was not reached, unless it is a latest one; its continuation stands
      where it got to. */
  lemma TimeoutKeepsItems(job: Job, polls: seq<PollAnswer>, answer: Answer, i: nat)
    requires Runs(job, None, polls, answer) && job.spec.partitions != map[] && MeetsTimeout(job, polls, i)
    ensures answer.Answered?
    ensures
      var s := After(job, polls, i);
      && Emits(job.spec, Emissions(job, s.evaluated), answer.items)
      && answer.stats.scanned == |s.evaluated| && answer.stats.bytes == TotalSize(s.evaluated)
      && (!job.spec.latest ==>
            && answer.items == Emissions(job, s.evaluated) && answer.stats.continuation == s.cursor
            && answer.stats.stoppedBy == MaxTime && !answer.stats.reachedEnd)
  {
    hide Fold, Drained, Emissions, TotalSize, SkippedCount, Remaining, EvaluatedInWindow, CursorsInRange, StaysOpen;
    EndsWith(job, polls, i);
    FoldIsConsistent(job, DeliveredBy(polls[..i]));
  }

  /** What the counters of an answer count: the evaluated records, their bytes, those the
      matcher skipped, and the items handed over. */
  lemma StatsCount(job: Job, polls: seq<PollAnswer>, answer: Answer)
    requires Runs(job, None, polls, answer) && answer.Answered? && job.spec.partitions != map[]
    ensures
      var s := Ran(job, polls).0;
      && answer.stats.scanned == |s.evaluated| && answer.stats.bytes == TotalSize(s.evaluated)
      && answer.stats.skipped == SkippedCount(job, s.evaluated) && answer.stats.matched == |answer.items|
      && (!job.spec.latest ==> answer.items == Emissions(job, s.evaluated))
  {
    hide Ran, Emissions, TotalSize, SkippedCount, Remaining, EvaluatedInWindow, CursorsInRange;
    SafeAgainstAnyConsumer(job, polls);
  }

  /** Which bound a stopped run names: messages before bytes. A run that names bytes had
      met neither its message nor its scan bound. */
  lemma StopNamesFirstBound(job: Job, polls: seq<PollAnswer>)
    ensures
      var (s, end) := Ran(job, polls);
      var full := (!job.spec.latest && 0 < job.spec.maxMessages <= s.matched) || 0 < job.spec.maxScanned <= s.scanned;
      && (end == Finished(false, MaxMessages) <==> end.Finished? && end.stoppedBy !in {MaxTime, NotStopped} && full)
      && (end == Finished(false, MaxBytes) <==> end.Finished? && end.stoppedBy !in {MaxTime, NotStopped} && !full)
  {
    LoopNamesFirstBound(job, Start(job.spec), polls);
  }

  lemma {:induction false} LoopNamesFirstBound(job: Job, s: Progress, polls: seq<PollAnswer>)
    requires Under(job.spec, s)
    ensures
      var (last, end) := Loop(job, s, polls);
      && (end.Finished? && end.stoppedBy !in {MaxTime, NotStopped} ==>
            !end.reachedEnd && end.stoppedBy == NamedBound(job.spec, last))
      && (end.Finished? && end.stoppedBy in {MaxTime, NotStopped} ==> (end.reachedEnd <==> end.stoppedBy == NotStopped))
    decreases |polls|
  {
    if !Exhausted(job.spec, s.cursor) && polls != [] && polls[0].Delivered? {
      BatchWithinBounds(job, s, polls[0].records);
      var (next, bound) := Batch(job, s, polls[0].records);
      if bound == NotStopped && !(polls[0].records == [] && polls[0].expired) {
        LoopNamesFirstBound(job, next, polls[1..]);
      }
    }
  }

  ghost function NamedBound(spec: Spec, s: Progress): StoppedBy {
    if (!spec.latest && 0 < spec.maxMessages <= s.matched) || 0 < spec.maxScanned <= s.scanned then MaxMessages
    else MaxBytes
  }
}

/** What every scan keeps, whatever its consumer does. */
module ScanSafety {
  import opened Kafka
  import opened Logs
  import opened Codec
  import opened Scan

  /** What one evaluated record emits. */
  ghost function Emission(job: Job, r: Record): seq<Item> {
    var item := Decode(job.validity, r, job.spec.format);
    var verdict := job.matcher(item);
    if !verdict.skipped && verdict.matched then [item] else []
  }

  /** What the evaluated records should have emitted. */
  ghost function Emissions(job: Job, rs: seq<Record>): seq<Item> {
    if rs == [] then [] else Emissions(job, rs[..|rs| - 1]) + Emission(job, rs[|rs| - 1])
  }

  ghost function TotalSize(rs: seq<Record>): nat {
    if rs == [] then 0 else TotalSize(rs[..|rs| - 1]) + RawSize(rs[|rs| - 1])
  }

  ghost function SkippedCount(job: Job, rs: seq<Record>): nat {
    if rs == [] then 0 else
      SkippedCount(job, rs[..|rs| - 1])
      + if job.matcher(Decode(job.validity, rs[|rs| - 1], job.spec.format)).skipped then 1 else 0
  }

  ghost function Distances(windows: map<int, Window>, cursor: map<int, int>): map<int, int>
    requires cursor.Keys == windows.Keys
  {
    map p | p in windows :: if windows[p].end > cursor[p] then windows[p].end - cursor[p] else 0
  }

  /** Offsets still to be read: the sum over partitions of max(0, End - cursor). */
  ghost function Remaining(windows: map<int, Window>, cursor: map<int, int>): int
    requires cursor.Keys == windows.Keys
  {
    Total(Distances(windows, cursor))
  }

  ghost predicate CursorsInRange(windows: map<int, Window>, cursor: map<int, int>) {
    && cursor.Keys == windows.Keys
    && forall p :: p in windows ==>
         windows[p].start <= cursor[p] && (cursor[p] == windows[p].start || cursor[p] <= windows[p].end)
  }

  ghost predicate EvaluatedInWindow(windows: map<int, Window>, cursor: map<int, int>, rs: seq<Record>) {
    && (forall r :: r in rs ==>
          r.partition in windows && r.partition in cursor
          && windows[r.partition].start <= r.offset < windows[r.partition].end && r.offset < cursor[r.partition])
    && forall i, j :: 0 <= i < j < |rs| && rs[i].partition == rs[j].partition ==> rs[i].offset < rs[j].offset
  }

  ghost predicate Consistent(job: Job, s: Progress) {
    && CursorsInRange(job.spec.partitions, s.cursor)
    && EvaluatedInWindow(job.spec.partitions, s.cursor, s.evaluated)
    && s.scanned == |s.evaluated| && s.bytes == TotalSize(s.evaluated)
    && s.emitted == Emissions(job, s.evaluated) && s.matched == |s.emitted|
    && s.skipped == SkippedCount(job, s.evaluated)
    && s.matched + s.skipped <= s.scanned
    && s.scanned + Remaining(job.spec.partitions, s.cursor)
       <= Remaining(job.spec.partitions, Starts(job.spec.partitions))
  }

  lemma StartIsConsistent(job: Job)
    ensures Consistent(job, Start(job.spec))
  {
  }

  /** A counted record strictly reduces what remains; an ignored one changes nothing. */
  lemma StepShrinksRemaining(job: Job, s: Progress, r: Record)
    requires s.cursor.Keys == job.spec.partitions.Keys
    ensures Step(job, s, r).cursor.Keys == job.spec.partitions.Keys
    ensures forall p :: p in s.cursor ==> s.cursor[p] <= Step(job, s, r).cursor[p]
    ensures
      var windows := job.spec.partitions;
      if Counts(job.spec, s.cursor, r)
      then Remaining(windows, Step(job, s, r).cursor) < Remaining(windows, s.cursor)
      else Step(job, s, r) == s
  {
    if Counts(job.spec, s.cursor, r) {
      var windows, p := job.spec.partitions, r.partition;
      var before := Distances(windows, s.cursor);
      var after := Distances(windows, s.cursor[p := r.offset + 1]);
      TotalUpdate(before, p, after[p]);
      assert after == before[p := after[p]];
    }
  }

  // What one more record adds to the counters.
  lemma CountersExtend(job: Job, rs: seq<Record>, r: Record)
    ensures
      var item := Decode(job.validity, r, job.spec.format);
      var verdict := job.matcher(item);
      && TotalSize(rs + [r]) == TotalSize(rs) + RawSize(r)
      && SkippedCount(job, rs + [r]) == SkippedCount(job, rs) + (if verdict.skipped then 1 else 0)
      && Emissions(job, rs + [r]) == Emissions(job, rs) + Emission(job, r)
  {
    assert (rs + [r])[..|rs|] == rs;
  }

  lemma WindowExtends(windows: map<int, Window>, cursor: map<int, int>, rs: seq<Record>, r: Record)
    requires EvaluatedInWindow(windows, cursor, rs) && CursorsInRange(windows, cursor)
    requires r.partition in windows && cursor[r.partition] <= r.offset < windows[r.partition].end
    ensures EvaluatedInWindow(windows, cursor[r.partition := r.offset + 1], rs + [r])
  {
    forall i | 0 <= i < |rs| && rs[i].partition == r.partition ensures rs[i].offset < r.offset {
      assert rs[i] in rs;
    }
  }

  lemma RangeExtends(windows: map<int, Window>, cursor: map<int, int>, p: int, offset: int)
    requires CursorsInRange(windows, cursor) && p in windows && cursor[p] <= offset < windows[p].end
    ensures CursorsInRange(windows, cursor[p := offset + 1])
  {
  }

  lemma StepKeepsConsistent(job: Job, s: Progress, r: Record)
    requires Consistent(job, s)
    ensures Consistent(job, Step(job, s, r))
  {
    hide Consistent;
    if Counts(job.spec, s.cursor, r) {
      CountedStepKeepsConsistent(job, s, r);
    }
  }

  lemma CountedStepKeepsConsistent(job: Job, s: Progress, r: Record)
    requires Consistent(job, s) && Counts(job.spec, s.cursor, r)
    ensures Consistent(job, Step(job, s, r))
  {
    hide CursorsInRange, EvaluatedInWindow, Emissions, TotalSize, SkippedCount, Remaining, Decode;
    CursorsHaveKeys(job.spec.partitions, s.cursor);
    StepShrinksRemaining(job, s, r);
    CountersExtend(job, s.evaluated, r);
    RangeExtends(job.spec.partitions, s.cursor, r.partition, r.offset);
    WindowExtends(job.spec.partitions, s.cursor, s.evaluated, r);
  }

  lemma CursorsHaveKeys(windows: map<int, Window>, cursor: map<int, int>)
    requires CursorsInRange(windows, cursor)
    ensures cursor.Keys == windows.Keys
  {
  }

  /** Folding every record through Step, however many a run got to see. */
  ghost function Fold(job: Job, rs: seq<Record>): Progress {
    if rs == [] then Start(job.spec) else Step(job, Fold(job, rs[..|rs| - 1]), rs[|rs| - 1])
  }

  lemma {:induction false} FoldIsConsistent(job: Job, rs: seq<Record>)
    ensures Consistent(job, Fold(job, rs))
  {
    if rs == [] {
      StartIsConsistent(job);
    } else {
      FoldIsConsistent(job, rs[..|rs| - 1]);
      StepKeepsConsistent(job, Fold(job, rs[..|rs| - 1]), rs[|rs| - 1]);
    }
  }

  ghost function DeliveredBy(polls: seq<PollAnswer>): seq<Record> {
    if polls == [] then []
    else (if polls[0].Delivered? then polls[0].records else []) + DeliveredBy(polls[1..])
  }

  lemma {:induction false} BatchFolds(job: Job, seen: seq<Record>, rs: seq<Record>) returns (n: nat)
    ensures n <= |rs| && Batch(job, Fold(job, seen), rs).0 == Fold(job, seen + rs[..n])
    ensures Batch(job, Fold(job, seen), rs).1 == NotStopped ==> n == |rs|
    decreases |rs|
  {
    hide Step, BoundAfter;
    if rs == [] {
      n := 0;
      assert seen + rs[..0] == seen;
    } else {
      assert (seen + [rs[0]])[..|seen|] == seen;
      assert Fold(job, seen + [rs[0]]) == Step(job, Fold(job, seen), rs[0]);
      if BoundAfter(job, Fold(job, seen), rs[0]) != NotStopped {
        n := 1;
        assert rs[..1] == [rs[0]];
      } else {
        var m := BatchFolds(job, seen + [rs[0]], rs[1..]);
        n := m + 1;
        assert seen + [rs[0]] + rs[1..][..m] == seen + rs[..n];
      }
    }
  }

  /** A run's progress is the fold of some prefix of what the consumer delivered. */
  lemma {:induction false} LoopFolds(job: Job, seen: seq<Record>, polls: seq<PollAnswer>) returns (n: nat)
    ensures n <= |DeliveredBy(polls)|
    ensures Loop(job, Fold(job, seen), polls).0 == Fold(job, seen + DeliveredBy(polls)[..n])
    decreases |polls|
  {
    hide Batch, Step, Fold;
    n := 0;
    assert seen + DeliveredBy(polls)[..0] == seen;
    if !Exhausted(job.spec, Fold(job, seen).cursor) && polls != [] && polls[0].Delivered? {
      n := PollFolds(job, seen, polls);
    }
  }

  lemma {:induction false} PollFolds(job: Job, seen: seq<Record>, polls: seq<PollAnswer>) returns (n: nat)
    requires polls != [] && polls[0].Delivered? && !Exhausted(job.spec, Fold(job, seen).cursor)
    ensures n <= |DeliveredBy(polls)|
    ensures Loop(job, Fold(job, seen), polls).0 == Fold(job, seen + DeliveredBy(polls)[..n])
    decreases |polls|, 0
  {
    hide Batch, Step, Fold, Exhausted;
    var records, rest := polls[0].records, DeliveredBy(polls[1..]);
    n := BatchFolds(job, seen, records);
    PrefixOf(seen, records, rest, n, 0);
    if Batch(job, Fold(job, seen), records).1 == NotStopped && !(records == [] && polls[0].expired) {
      var m := LoopFolds(job, seen + records, polls[1..]);
      PrefixOf(seen, records, rest, n, m);
      n := n + m;
    }
  }

  // A prefix of two sequences in a row is one of the first, or all of it and one of the second.
  lemma PrefixOf(seen: seq<Record>, a: seq<Record>, b: seq<Record>, n: nat, m: nat)
    requires n <= |a| && m <= |b|
    ensures seen + (a + b)[..n] == seen + a[..n]
    ensures n == |a| ==> a[..n] == a && seen + a + b[..m] == seen + (a + b)[..n + m]
  {
    assert (a + b)[..n] == a[..n];
    if n == |a| {
      assert (a + b)[..n + m] == a + b[..m];
    }
  }

  lemma RanFolds(job: Job, polls: seq<PollAnswer>) returns (seen: seq<Record>)
    ensures seen <= DeliveredBy(polls) && Ran(job, polls).0 == Fold(job, seen)
  {
    hide Loop, Step;
    var n := LoopFolds(job, [], polls);
    seen := DeliveredBy(polls)[..n];
    assert [] + seen == seen;
  }

  /** Safety against any consumer: whatever Poll returns, every evaluated offset lies
      in its window and is evaluated once, in ascending order per partition, and the
      counters are exact and bounded by the windows' widths. */
  lemma SafeAgainstAnyConsumer(job: Job, polls: seq<PollAnswer>)
    ensures
      var s := Ran(job, polls).0;
      && Consistent(job, s)
      && s.scanned <= Remaining(job.spec.partitions, Starts(job.spec.partitions))
      && (forall r :: r in s.evaluated ==> r in DeliveredBy(polls))
      && OncePerOffset(s.emitted)
  {
    hide Ran, Emissions;
    var seen := RanFolds(job, polls);
    FoldIsConsistent(job, seen);
    EvaluatedWereSeen(job, seen);
    var s := Fold(job, seen);
    TotalNonNegative(Distances(job.spec.partitions, s.cursor));
    EmissionsAscend(job, s.evaluated);
  }

  /** Strictly ascending offsets within each partition. */
  ghost predicate OncePerOffset(items: seq<Item>) {
    forall i, j :: 0 <= i < j < |items| && items[i].partition == items[j].partition ==>
      items[i].offset < items[j].offset
  }

  lemma {:induction false} EvaluatedWereSeen(job: Job, rs: seq<Record>)
    ensures forall r :: r in Fold(job, rs).evaluated ==> r in rs
  {
    if rs != [] {
      EvaluatedWereSeen(job, rs[..|rs| - 1]);
    }
  }

  lemma {:induction false} EmissionComesFrom(job: Job, rs: seq<Record>, item: Item) returns (r: Record)
    requires item in Emissions(job, rs)
    ensures r in rs && item == Decode(job.validity, r, job.spec.format)
  {
    if item in Emissions(job, rs[..|rs| - 1]) {
      r := EmissionComesFrom(job, rs[..|rs| - 1], item);
    } else {
      r := rs[|rs| - 1];
    }
  }

  lemma {:induction false} EmissionsAscend(job: Job, rs: seq<Record>)
    requires forall i, j :: 0 <= i < j < |rs| && rs[i].partition == rs[j].partition ==> rs[i].offset < rs[j].offset
    ensures OncePerOffset(Emissions(job, rs))
  {
    if rs != [] {
      var last, init := rs[|rs| - 1], rs[..|rs| - 1];
      EmissionsAscend(job, init);
      var items := Emissions(job, init);
      forall i | 0 <= i < |items| && items[i].partition == last.partition ensures items[i].offset < last.offset {
        var r := EmissionComesFrom(job, init, items[i]);
      }
    }
  }

  lemma CursorsStayInRange(job: Job, polls: seq<PollAnswer>)
    ensures CursorsInRange(job.spec.partitions, Ran(job, polls).0.cursor)
  {
    hide Ran, Emissions, TotalSize;
    SafeAgainstAnyConsumer(job, polls);
  }

  lemma MatchedIsEmitted(job: Job, polls: seq<PollAnswer>)
    ensures
      var s := Ran(job, polls).0;
      s.matched == |s.emitted|
  {
    hide Ran, Emissions, TotalSize;
    SafeAgainstAnyConsumer(job, polls);
  }
}

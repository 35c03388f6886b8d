/** Resuming a scan from its continuation leaves no gap and no overlap
    (internal/scan/runner.go; section 9.2 of the functional specification). */
module ScanResume {
  import opened Kafka
  import opened Logs
  import opened Codec
  import opened Scan
  import opened ScanSafety
  import ScanBounds

  /** Each partition's log, in ascending offset order; gaps in offsets are allowed. */
  ghost predicate LogsFor(windows: map<int, Window>, logs: map<int, seq<Record>>) {
    forall p :: p in windows ==>
      p in logs && Ascending(logs[p]) && forall r :: r in logs[p] ==> r.partition == p
  }

  /** The consumer delivers, for one partition, a prefix of the log from the start
      offset on, however it is cut into batches and interleaved with other partitions. */
  ghost predicate InOrder(log: seq<Record>, start: int, rs: seq<Record>, p: int)
    requires Ascending(log)
  {
    ForPartition(rs, p) <= log[LowerBound(log, start)..]
  }

  ghost predicate Faithful(windows: map<int, Window>, logs: map<int, seq<Record>>, rs: seq<Record>)
    requires LogsFor(windows, logs)
  {
    forall p :: p in windows ==> InOrder(logs[p], windows[p].start, rs, p)
  }

  // Reading so far: the first n delivered records of the log, cut where offsets pass end.
  ghost predicate ReadUpTo(log: seq<Record>, start: int, end: int, n: nat, cursor: int, evaluated: seq<Record>)
    requires Ascending(log)
  {
    var first, k := LowerBound(log, start), LowerBound(log, cursor);
    && start <= cursor && first <= k <= first + n <= |log|
    && evaluated == log[first..k]
    && (k < first + n ==> end <= log[k].offset)
    && (cursor == start || (k > 0 && log[k - 1].offset == cursor - 1))
  }

  lemma ReadOneMore(log: seq<Record>, start: int, end: int, n: nat, cursor: int, evaluated: seq<Record>)
    requires Ascending(log) && ReadUpTo(log, start, end, n, cursor, evaluated)
    requires LowerBound(log, start) + n < |log|
    ensures
      var r := log[LowerBound(log, start) + n];
      if cursor <= r.offset < end
      then ReadUpTo(log, start, end, n + 1, r.offset + 1, evaluated + [r])
      else ReadUpTo(log, start, end, n + 1, cursor, evaluated)
  {
    hide LowerBound;
    var next := LowerBound(log, start) + n;
    var k := LowerBound(log, cursor);
    if cursor <= log[next].offset < end {
      OffsetOrder(log, k, next);
      var j := LowerBound(log, log[next].offset + 1);
      OffsetOrder(log, next, next + 1);
    }
  }

  // One step, seen from one partition.
  lemma StepProjects(job: Job, s: Progress, r: Record, p: int)
    requires s.cursor.Keys == job.spec.partitions.Keys && p in s.cursor
    ensures
      var next := Step(job, s, r);
      if r.partition == p && s.cursor[p] <= r.offset < job.spec.partitions[p].end
      then
        && next.cursor == s.cursor[p := r.offset + 1]
        && ForPartition(next.evaluated, p) == ForPartition(s.evaluated, p) + [r]
      else
        && p in next.cursor && next.cursor[p] == s.cursor[p]
        && ForPartition(next.evaluated, p) == ForPartition(s.evaluated, p)
  {
    assert (s.evaluated + [r])[..|s.evaluated|] == s.evaluated;
  }

  lemma {:induction false} FoldKeys(job: Job, rs: seq<Record>)
    ensures Fold(job, rs).cursor.Keys == job.spec.partitions.Keys
  {
    if rs != [] {
      FoldKeys(job, rs[..|rs| - 1]);
    }
  }

  lemma PrefixStaysInOrder(log: seq<Record>, start: int, rs: seq<Record>, seen: seq<Record>, p: int)
    requires Ascending(log) && InOrder(log, start, rs, p) && seen <= rs
    ensures InOrder(log, start, seen, p)
  {
    assert seen == rs[..|seen|];
    ForPartitionPrefix(rs, |seen|, p);
  }

  // What a delivered record of the partition is: the next one of the log.
  lemma NextInOrder(log: seq<Record>, start: int, rs: seq<Record>, p: int)
    requires Ascending(log) && rs != [] && rs[|rs| - 1].partition == p && InOrder(log, start, rs, p)
    ensures
      var next := LowerBound(log, start) + |ForPartition(rs[..|rs| - 1], p)|;
      next < |log| && log[next] == rs[|rs| - 1] && |ForPartition(rs, p)| == |ForPartition(rs[..|rs| - 1], p)| + 1
  {
    hide LowerBound;
    var n := |ForPartition(rs[..|rs| - 1], p)|;
    assert ForPartition(rs, p)[n] == rs[|rs| - 1];
  }

  ghost predicate FoldReads(job: Job, log: seq<Record>, rs: seq<Record>, p: int)
    requires p in job.spec.partitions && Ascending(log)
  {
    && p in Fold(job, rs).cursor
    && var w := job.spec.partitions[p];
       ReadUpTo(log, w.start, w.end, |ForPartition(rs, p)|, Fold(job, rs).cursor[p],
                ForPartition(Fold(job, rs).evaluated, p))
  }

  lemma FoldReadsOneMore(job: Job, log: seq<Record>, rs: seq<Record>, p: int)
    requires p in job.spec.partitions && Ascending(log) && rs != []
    requires InOrder(log, job.spec.partitions[p].start, rs, p) && FoldReads(job, log, rs[..|rs| - 1], p)
    ensures FoldReads(job, log, rs, p)
  {
    hide Step, ReadUpTo, LowerBound, InOrder;
    var init, r, w := rs[..|rs| - 1], rs[|rs| - 1], job.spec.partitions[p];
    var s := Fold(job, init);
    FoldKeys(job, init);
    StepProjects(job, s, r, p);
    if r.partition == p {
      NextInOrder(log, w.start, rs, p);
      ReadOneMore(log, w.start, w.end, |ForPartition(init, p)|, s.cursor[p], ForPartition(s.evaluated, p));
    }
  }

  lemma {:induction false} FoldReadsTheLog(job: Job, log: seq<Record>, rs: seq<Record>, p: int)
    requires p in job.spec.partitions && Ascending(log)
    requires InOrder(log, job.spec.partitions[p].start, rs, p)
    ensures FoldReads(job, log, rs, p)
  {
    if rs != [] {
      hide FoldReads, InOrder;
      PrefixStaysInOrder(log, job.spec.partitions[p].start, rs, rs[..|rs| - 1], p);
      FoldReadsTheLog(job, log, rs[..|rs| - 1], p);
      FoldReadsOneMore(job, log, rs, p);
    }
  }

  // The final cursor stands at start or just behind a record that was read.
  lemma ScanReadUpTo(job: Job, logs: map<int, seq<Record>>, polls: seq<PollAnswer>, p: int) returns (n: nat)
    requires LogsFor(job.spec.partitions, logs) && Faithful(job.spec.partitions, logs, DeliveredBy(polls))
    requires p in job.spec.partitions
    ensures p in Ran(job, polls).0.cursor
    ensures
      var s, w := Ran(job, polls).0, job.spec.partitions[p];
      ReadUpTo(logs[p], w.start, w.end, n, s.cursor[p], ForPartition(s.evaluated, p))
  {
    hide Ran, Fold, ReadUpTo, InOrder;
    var seen := RanFolds(job, polls);
    PrefixStaysInOrder(logs[p], job.spec.partitions[p].start, DeliveredBy(polls), seen, p);
    FoldReadsTheLog(job, logs[p], seen, p);
    n := |ForPartition(seen, p)|;
  }

  // ---- Items of one partition ----

  ghost function ItemsFor(items: seq<Item>, p: int): seq<Item> {
    if items == [] then [] else
      ItemsFor(items[..|items| - 1], p)
      + if items[|items| - 1].partition == p then [items[|items| - 1]] else []
  }

  lemma {:induction false} ItemsForJoins(a: seq<Item>, b: seq<Item>, p: int)
    ensures ItemsFor(a + b, p) == ItemsFor(a, p) + ItemsFor(b, p)
  {
    if b == [] {
      assert a + b == a;
    } else {
      assert (a + b)[..|a + b| - 1] == a + b[..|b| - 1];
      ItemsForJoins(a, b[..|b| - 1], p);
    }
  }

  lemma EmissionsSnoc(job: Job, rs: seq<Record>, r: Record)
    ensures Emissions(job, rs + [r]) == Emissions(job, rs) + Emission(job, r)
  {
    assert (rs + [r])[..|rs|] == rs;
  }

  lemma {:induction false} EmissionsProject(job: Job, rs: seq<Record>, p: int)
    ensures ItemsFor(Emissions(job, rs), p) == Emissions(job, ForPartition(rs, p))
  {
    if rs != [] {
      var init, r := rs[..|rs| - 1], rs[|rs| - 1];
      EmissionsProject(job, init, p);
      ItemsForJoins(Emissions(job, init), Emission(job, r), p);
      OwnEmission(job, r, p);
      if r.partition == p {
        assert ForPartition(rs, p) == ForPartition(init, p) + [r];
        EmissionsSnoc(job, ForPartition(init, p), r);
      } else {
        assert ForPartition(rs, p) == ForPartition(init, p);
      }
    }
  }

  lemma OwnEmission(job: Job, r: Record, p: int)
    ensures ItemsFor(Emission(job, r), p) == if r.partition == p then Emission(job, r) else []
  {
  }

  lemma {:induction false} EmissionsJoin(job: Job, a: seq<Record>, b: seq<Record>)
    ensures Emissions(job, a + b) == Emissions(job, a) + Emissions(job, b)
  {
    if b == [] {
      assert a + b == a;
    } else {
      assert (a + b)[..|a + b| - 1] == a + b[..|b| - 1];
      EmissionsJoin(job, a, b[..|b| - 1]);
    }
  }

  /** Between two offsets of a log exactly its records were evaluated, and what they
      emit was shown. */
  ghost predicate Shows(job: Job, log: seq<Record>, lo: int, hi: int, evaluated: seq<Record>, items: seq<Item>, p: int)
    requires Ascending(log)
  {
    && lo <= hi && ForPartition(evaluated, p) == Between(log, lo, hi)
    && ItemsFor(items, p) == Emissions(job, Between(log, lo, hi))
  }

  /** Between start and the final cursor a scan evaluates exactly the log. */
  lemma ScanReadsTheLog(job: Job, logs: map<int, seq<Record>>, polls: seq<PollAnswer>, p: int)
    requires LogsFor(job.spec.partitions, logs) && Faithful(job.spec.partitions, logs, DeliveredBy(polls))
    requires p in job.spec.partitions
    ensures
      var s := Ran(job, polls).0;
      && s.cursor.Keys == job.spec.partitions.Keys
      && Shows(job, logs[p], job.spec.partitions[p].start, s.cursor[p], s.evaluated, s.emitted, p)
  {
    hide Ran, Fold, Emissions, ReadUpTo, InOrder, EvaluatedInWindow, CursorsInRange;
    var n := ScanReadUpTo(job, logs, polls, p);
    ReadUpToIsBetween(logs[p], job.spec.partitions[p].start, job.spec.partitions[p].end, n, Ran(job, polls).0.cursor[p],
                      ForPartition(Ran(job, polls).0.evaluated, p));
    SafeAgainstAnyConsumer(job, polls);
    EmissionsProject(job, Ran(job, polls).0.evaluated, p);
    KeysStay(job, polls);
  }

  lemma KeysStay(job: Job, polls: seq<PollAnswer>)
    ensures Ran(job, polls).0.cursor.Keys == job.spec.partitions.Keys
  {
    hide Ran;
    CursorsStayInRange(job, polls);
  }

  lemma ReadUpToIsBetween(log: seq<Record>, start: int, end: int, n: nat, cursor: int, evaluated: seq<Record>)
    requires Ascending(log) && ReadUpTo(log, start, end, n, cursor, evaluated)
    ensures start <= cursor && evaluated == Between(log, start, cursor)
  {
  }

  lemma ShowsJoins(job: Job, log: seq<Record>, lo: int, mid: int, hi: int,
                   e1: seq<Record>, i1: seq<Item>, e2: seq<Record>, i2: seq<Item>, p: int)
    requires Ascending(log) && Shows(job, log, lo, mid, e1, i1, p) && Shows(job, log, mid, hi, e2, i2, p)
    ensures Shows(job, log, lo, hi, e1 + e2, i1 + i2, p)
  {
    hide Emissions, Between, ForPartition, ItemsFor;
    ForPartitionJoins(e1, e2, p);
    ItemsForJoins(i1, i2, p);
    BetweenJoins(log, lo, mid, hi);
    EmissionsJoin(job, Between(log, lo, mid), Between(log, mid, hi));
  }

  // ---- Pages ----

  datatype Page = Page(job: Job, polls: seq<PollAnswer>, answer: Answer)

  /** Same decoding and matching; windows and bounds may differ. */
  ghost predicate SameWork(a: Job, b: Job) {
    a.validity == b.validity && a.matcher == b.matcher && a.spec.format == b.spec.format
  }

  lemma {:induction false} SameWorkEmitsTheSame(a: Job, b: Job, rs: seq<Record>)
    requires SameWork(a, b)
    ensures Emissions(a, rs) == Emissions(b, rs)
  {
    if rs != [] {
      SameWorkEmitsTheSame(a, b, rs[..|rs| - 1]);
    }
  }

  /** An answered non-latest run over the given logs, stopped by whatever stopped it. */
  ghost predicate AnsweredPage(page: Page, logs: map<int, seq<Record>>) {
    && !page.job.spec.latest && LogsFor(page.job.spec.partitions, logs)
    && Faithful(page.job.spec.partitions, logs, DeliveredBy(page.polls))
    && Runs(page.job, None, page.polls, page.answer) && page.answer.Answered?
  }

  /** Every page after the first starts where its predecessor's continuation says. */
  ghost predicate Resumes(pages: seq<Page>, logs: map<int, seq<Record>>) {
    && pages != []
    && (forall i :: 0 <= i < |pages| ==>
          AnsweredPage(pages[i], logs) && SameWork(pages[0].job, pages[i].job)
          && pages[i].job.spec.partitions.Keys == pages[0].job.spec.partitions.Keys)
    && forall i :: 0 < i < |pages| ==>
         Starts(pages[i].job.spec.partitions) == pages[i - 1].answer.stats.continuation
  }

  ghost function AllItems(pages: seq<Page>): seq<Item> {
    if pages == [] then [] else
      AllItems(pages[..|pages| - 1])
      + if pages[|pages| - 1].answer.Answered? then pages[|pages| - 1].answer.items else []
  }

  ghost function PageEvaluated(page: Page): seq<Record> {
    Ran(page.job, page.polls).0.evaluated
  }

  ghost function AllEvaluated(pages: seq<Page>): seq<Record> {
    if pages == [] then [] else AllEvaluated(pages[..|pages| - 1]) + PageEvaluated(pages[|pages| - 1])
  }

  // What a page's answer says of its run.
  lemma PageAnswers(page: Page, logs: map<int, seq<Record>>)
    requires AnsweredPage(page, logs)
    ensures
      var (s, end) := Ran(page.job, page.polls);
      && page.answer.items == (if page.job.spec.partitions == map[] then [] else s.emitted)
      && (page.job.spec.partitions != map[] ==>
            && page.answer.stats.continuation == s.cursor
            && end == Finished(page.answer.stats.reachedEnd, page.answer.stats.stoppedBy))
  {
    hide Ran, LogsFor, Faithful;
  }

  /** What one page shows, in terms of its answer alone. */
  lemma PageReadsTheLog(page: Page, logs: map<int, seq<Record>>, p: int)
    requires AnsweredPage(page, logs) && p in page.job.spec.partitions
    ensures
      var continuation := page.answer.stats.continuation;
      && continuation.Keys == page.job.spec.partitions.Keys
      && Shows(page.job, logs[p], page.job.spec.partitions[p].start, continuation[p], PageEvaluated(page),
               page.answer.items, p)
  {
    hide Ran, Runs, Shows;
    PageAnswers(page, logs);
    ScanReadsTheLog(page.job, logs, page.polls, p);
  }

  /** No gap, no overlap: any number of runs, each resumed from the one before and
      stopped by any bound, together evaluate and emit per partition exactly the log
      between the first start and the last continuation. */
  lemma {:induction false} ResumeNoGapNoOverlap(pages: seq<Page>, logs: map<int, seq<Record>>, p: int)
    requires Resumes(pages, logs) && p in pages[0].job.spec.partitions
    ensures LogsFor(pages[0].job.spec.partitions, logs) && p in pages[|pages| - 1].answer.stats.continuation
    ensures Shows(pages[0].job, logs[p], pages[0].job.spec.partitions[p].start,
                  pages[|pages| - 1].answer.stats.continuation[p], AllEvaluated(pages), AllItems(pages), p)
  {
    hide Ran, Runs, Shows, Faithful, PageEvaluated;
    var n := |pages| - 1;
    var init, last := pages[..n], pages[n];
    PageReadsTheLog(last, logs, p);
    if n == 0 {
      assert init == [] && AllEvaluated(pages) == PageEvaluated(last);
      assert AnsweredPage(last, logs) && AllItems(pages) == [] + last.answer.items == last.answer.items;
    } else {
      ResumesInit(pages, logs);
      ResumeNoGapNoOverlap(init, logs, p);
      SameWorkShows(last.job, pages[0].job, logs[p], last.job.spec.partitions[p].start,
                    last.answer.stats.continuation[p], PageEvaluated(last), last.answer.items, p);
      PagesMeet(pages, logs, n, p);
      ShowsJoins(pages[0].job, logs[p], pages[0].job.spec.partitions[p].start, last.job.spec.partitions[p].start,
                 last.answer.stats.continuation[p], AllEvaluated(init), AllItems(init), PageEvaluated(last),
                 last.answer.items, p);
    }
  }

  lemma ResumesInit(pages: seq<Page>, logs: map<int, seq<Record>>)
    requires Resumes(pages, logs) && |pages| > 1
    ensures Resumes(pages[..|pages| - 1], logs)
  {
    hide AnsweredPage;
  }

  // A page starts where the one before it stopped.
  lemma PagesMeet(pages: seq<Page>, logs: map<int, seq<Record>>, i: nat, p: int)
    requires Resumes(pages, logs) && p in pages[0].job.spec.partitions && 0 < i < |pages|
    ensures p in pages[i].job.spec.partitions && p in pages[i - 1].answer.stats.continuation
    ensures pages[i].job.spec.partitions[p].start == pages[i - 1].answer.stats.continuation[p]
  {
    hide AnsweredPage;
    assert pages[i].job.spec.partitions.Keys == pages[0].job.spec.partitions.Keys;
    assert Starts(pages[i].job.spec.partitions)[p] == pages[i].job.spec.partitions[p].start;
  }

  lemma SameWorkShows(a: Job, b: Job, log: seq<Record>, lo: int, hi: int, evaluated: seq<Record>, items: seq<Item>,
                      p: int)
    requires Ascending(log) && SameWork(b, a) && Shows(a, log, lo, hi, evaluated, items, p)
    ensures Shows(b, log, lo, hi, evaluated, items, p)
  {
    SameWorkEmitsTheSame(b, a, Between(log, lo, hi));
  }

  ghost predicate EndsAt(pages: seq<Page>, p: int, end: int) {
    forall i :: 0 <= i < |pages| ==>
      p in pages[i].job.spec.partitions && pages[i].job.spec.partitions[p].end == end
  }

  lemma {:induction false} CursorNeverPassesEnd(pages: seq<Page>, logs: map<int, seq<Record>>, end: int, p: int)
    requires Resumes(pages, logs) && EndsAt(pages, p, end)
    ensures
      var first, last := pages[0].job.spec.partitions[p].start, pages[|pages| - 1].answer.stats.continuation;
      p in last && first <= last[p] && (last[p] == first || last[p] <= end)
  {
    hide AnsweredPage, Starts;
    var n := |pages| - 1;
    PageStaysInRange(pages[n], logs, p);
    if n > 0 {
      ResumesInit(pages, logs);
      CursorNeverPassesEnd(pages[..n], logs, end, p);
      PagesMeet(pages, logs, n, p);
    }
  }

  lemma PageStaysInRange(page: Page, logs: map<int, seq<Record>>, p: int)
    requires AnsweredPage(page, logs) && p in page.job.spec.partitions
    ensures
      var w, continuation := page.job.spec.partitions[p], page.answer.stats.continuation;
      p in continuation && w.start <= continuation[p] && (continuation[p] == w.start || continuation[p] <= w.end)
  {
    hide Ran, Runs, Faithful, LogsFor;
    PageAnswers(page, logs);
    CursorsStayInRange(page.job, page.polls);
  }

  lemma ReachedEndMeansIt(page: Page, logs: map<int, seq<Record>>, p: int)
    requires AnsweredPage(page, logs) && page.answer.stats.reachedEnd && p in page.job.spec.partitions
    ensures p in page.answer.stats.continuation
    ensures page.job.spec.partitions[p].end <= page.answer.stats.continuation[p]
  {
    hide Ran, Runs, Faithful, LogsFor;
    PageAnswers(page, logs);
    PageStaysInRange(page, logs, p);
    ScanBounds.BoundsAreReal(page.job, page.polls);
  }

  // Pages that reach the end stop exactly there, or where they started beyond it.
  lemma LastContinuation(pages: seq<Page>, logs: map<int, seq<Record>>, end: int, p: int)
    requires Resumes(pages, logs) && EndsAt(pages, p, end) && pages[|pages| - 1].answer.stats.reachedEnd
    ensures
      var first, last := pages[0].job.spec.partitions[p].start, pages[|pages| - 1].answer.stats.continuation;
      p in last && last[p] == if first <= end then end else first
  {
    hide AnsweredPage, Starts;
    CursorNeverPassesEnd(pages, logs, end, p);
    ReachedEndMeansIt(pages[|pages| - 1], logs, p);
  }

  /** Paging is invisible: two ways of cutting the same windows into resumed runs,
      one of them possibly a single unbounded run, show exactly the same per partition
      once both have reached the end. */
  lemma PagingIsInvisible(pages: seq<Page>, others: seq<Page>, logs: map<int, seq<Record>>, end: int, p: int)
    requires Resumes(pages, logs) && Resumes(others, logs) && SameWork(pages[0].job, others[0].job)
    requires EndsAt(pages, p, end) && EndsAt(others, p, end)
    requires pages[0].job.spec.partitions[p].start == others[0].job.spec.partitions[p].start
    requires others[|others| - 1].answer.stats.reachedEnd && pages[|pages| - 1].answer.stats.reachedEnd
    ensures ItemsFor(AllItems(pages), p) == ItemsFor(AllItems(others), p)
    ensures ForPartition(AllEvaluated(pages), p) == ForPartition(AllEvaluated(others), p)
  {
    hide AnsweredPage, AllItems, AllEvaluated, ItemsFor, ForPartition, Emissions, Between;
    LastContinuation(pages, logs, end, p);
    LastContinuation(others, logs, end, p);
    ResumeNoGapNoOverlap(pages, logs, p);
    ResumeNoGapNoOverlap(others, logs, p);
    var first := pages[0].job.spec.partitions[p].start;
    SameWorkEmitsTheSame(pages[0].job, others[0].job, Between(logs[p], first, if first <= end then end else first));
  }
}

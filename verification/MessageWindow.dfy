/** Resolving from and to into scan windows (internal/service/message/window.go). */
module MessageWindow {
  import opened Kafka
  import opened FakeCluster
  import opened FakeServer
  import opened Maps
  import opened Scan
  import opened FakeFeed

  datatype From = Beginning | Latest | AtOffset(offset: int) | AtTimestamp(milli: int)

  // Reading a Go map: a missing key is zero.
  function At(m: map<int, int>, p: int): int {
    if p in m then m[p] else 0
  }

  function ResolveFrom(from: From, p: int, begin: map<int, int>, timestamps: map<int, int>, end: int, limit: int): int {
    match from
    case Beginning => At(begin, p)
    case Latest => if end - limit < At(begin, p) then At(begin, p) else end - limit
    case AtOffset(offset) => offset
    case AtTimestamp(_) => At(timestamps, p)
  }

  function ResolveTo(to: From, p: int, timestamps: map<int, int>, end: int): int {
    match to
    case AtOffset(offset) => offset
    case AtTimestamp(_) => At(timestamps, p)
    case _ => end
  }

  function TimestampOffsets(t: Topic, from: From): map<int, int> {
    if from.AtTimestamp? then OffsetsAfterMilli(t, from.milli) else map[]
  }

  /** One partition's window over a topic; to = None reads to the end snapshot. */
  function WindowOf(t: Topic, p: int, from: From, to: Option<From>, limit: int): Window {
    var end := At(EndOffsets(t), p);
    var start := ResolveFrom(from, p, StartOffsets(t), TimestampOffsets(t, from), end, limit);
    var bound := if to.None? then end else ResolveTo(to.value, p, TimestampOffsets(t, to.value), end);
    Window(start, if bound < end then bound else end)
  }

  function Selected(t: Topic, partitions: seq<int>): set<int> {
    if partitions == [] then EndOffsets(t).Keys else set p | p in partitions
  }

  /** The listings a resolution works from; begin offsets only where from needs them. */
  ghost predicate AreListings(t: Topic, from: From, to: Option<From>, ends: map<int, int>, begins: map<int, int>,
                              fromTimes: map<int, int>, toTimes: map<int, int>)
  {
    && ends == EndOffsets(t) && (from.Beginning? || from.Latest? ==> begins == StartOffsets(t))
    && fromTimes == TimestampOffsets(t, from) && (to.Some? ==> toTimes == TimestampOffsets(t, to.value))
  }

  method ResolveWindows(fake: Fake, topic: string, partitions: seq<int>, from: From, to: Option<From>, limit: int)
      returns (r: Result<map<int, Window>>)
    ensures topic !in fake.topics ==> r == Err(NotFound)
    ensures topic in fake.topics ==>
      r == Ok(map p | p in Selected(fake.topics[topic], partitions) :: WindowOf(fake.topics[topic], p, from, to, limit))
    ensures topic in fake.topics ==>
      forall p :: p in r.value <==>
        if partitions == [] then 0 <= p < |fake.topics[topic].partitions| else p in partitions
  {
    var ends := fake.ListEndOffsets(topic);
    if ends.Err? {
      return Err(ends.error);
    }
    var begins, fromTimes, toTimes := FetchListings(fake, topic, from, to);
    var selected := partitions;
    if partitions == [] {
      selected := KeysOf(ends.value);
    }
    ghost var t := fake.topics[topic];
    assert forall p :: p in selected <==> p in Selected(t, partitions);
    var windows := WindowsFor(t, selected, from, to, limit, ends.value, begins, fromTimes, toTimes);
    assert windows == map p | p in Selected(t, partitions) :: WindowOf(t, p, from, to, limit);
    return Ok(windows);
  }

  method FetchListings(fake: Fake, topic: string, from: From, to: Option<From>)
      returns (begins: map<int, int>, fromTimes: map<int, int>, toTimes: map<int, int>)
    requires topic in fake.topics
    ensures AreListings(fake.topics[topic], from, to, EndOffsets(fake.topics[topic]), begins, fromTimes, toTimes)
  {
    begins, fromTimes, toTimes := map[], map[], map[];
    if from.Beginning? || from.Latest? {
      var listed := fake.ListStartOffsets(topic);
      begins := listed.value;
    }
    if from.AtTimestamp? {
      var listed := fake.ListOffsetsAfterMilli(topic, from.milli);
      fromTimes := listed.value;
    }
    if to.Some? && to.value.AtTimestamp? {
      var listed := fake.ListOffsetsAfterMilli(topic, to.value.milli);
      toTimes := listed.value;
    }
  }

  method WindowsFor(ghost t: Topic, selected: seq<int>, from: From, to: Option<From>, limit: int, ends: map<int, int>,
                    begins: map<int, int>, fromTimes: map<int, int>, toTimes: map<int, int>)
      returns (windows: map<int, Window>)
    requires AreListings(t, from, to, ends, begins, fromTimes, toTimes)
    ensures forall p :: p in windows <==> p in selected
    ensures forall p :: p in windows ==> windows[p] == WindowOf(t, p, from, to, limit)
  {
    windows := map[];
    for i := 0 to |selected|
      invariant forall p :: p in windows <==> p in selected[..i]
      invariant forall p :: p in windows ==> windows[p] == WindowOf(t, p, from, to, limit)
    {
      var p := selected[i];
      var w := ResolveOne(t, p, from, to, limit, ends, begins, fromTimes, toTimes);
      assert selected[..i + 1] == selected[..i] + [p];
      windows := windows[p := w];
    }
    assert selected[..|selected|] == selected;
  }

  // The loop's body for one partition.
  method ResolveOne(ghost t: Topic, p: int, from: From, to: Option<From>, limit: int, ends: map<int, int>,
                    begins: map<int, int>, fromTimes: map<int, int>, toTimes: map<int, int>) returns (w: Window)
    requires AreListings(t, from, to, ends, begins, fromTimes, toTimes)
    ensures w == WindowOf(t, p, from, to, limit)
  {
    var end := At(ends, p);
    var start := ResolveFrom(from, p, begins, fromTimes, end, limit);
    if to.Some? {
      var bound := ResolveTo(to.value, p, toTimes, end);
      if bound < end {
        end := bound;
      }
    }
    return Window(start, end);
  }

  /** A window resolved against a partition never runs past the end snapshot, and
      starts at or after begin unless an offset was asked for. */
  lemma ResolvedWindow(name: string, t: Topic, p: int, from: From, to: Option<From>, limit: int)
    requires WellFormed(name, t) && 0 <= p < |t.partitions|
    ensures WindowOf(t, p, from, to, limit).end <= t.partitions[p].End()
    ensures !from.AtOffset? ==> t.partitions[p].begin <= WindowOf(t, p, from, to, limit).start
  {
    if from.AtTimestamp? {
      var part := t.partitions[p];
      FirstIsWithin(part.records, from.milli * NANOS_PER_MILLI, part.End(), part.begin, part.End());
    }
  }

  /** A scan of resolved windows over a topic at rest ends by itself exactly when no
      requested offset range lies wholly below a begin offset; a partition the topic does
      not have begins, and ends, at zero. */
  lemma ResolvedIsReachableIff(name: string, t: Topic, p: int, from: From, to: Option<From>, limit: int)
    requires WellFormed(name, t)
    ensures
      var w := WindowOf(t, p, from, to, limit);
      Reachable(t, p, w) <==> !(w.start < w.end <= At(StartOffsets(t), p))
    ensures (from.AtOffset? && from.offset < At(StartOffsets(t), p)) || Reachable(t, p, WindowOf(t, p, from, to, limit))
  {
    if 0 <= p < |t.partitions| {
      ResolvedWindow(name, t, p, from, to, limit);
    }
  }

  /** Asking for offsets that lie wholly below a partition's begin makes a scan wait for
      records that never come, however long it polls, unless another bound stops it. */
  lemma RangeBelowBeginNeverEnds(job: Job, t: Topic, p: int, lo: int, hi: int, limit: int,
                                 out: seq<Record>, after: map<int, int>, more: nat)
    requires WellFormed(job.spec.topic, t) && lo < hi <= At(StartOffsets(t), p)
    requires p in job.spec.partitions
    requires job.spec.partitions[p] == WindowOf(t, p, AtOffset(lo), Some(AtOffset(hi)), limit)
    requires IsPoll(t, Starts(job.spec.partitions), out, after) && Batch(job, Start(job.spec), out).1 == NotStopped
    ensures Loop(job, Start(job.spec), [Delivered(out, false)] + seq(more, i => Delivered([], false))).1 == Waiting
  {
    FakeScanEndsIff(job, t, out, after, more);
    assert !Reachable(t, p, job.spec.partitions[p]);
  }
}

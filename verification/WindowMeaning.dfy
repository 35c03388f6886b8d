/** What the two ends of a requested range mean for the log
    (internal/service/message/window.go). */
module WindowMeaning {
  import opened Kafka
  import opened Logs
  import opened FakeCluster
  import opened Scan
  import opened MessageWindow

  // ---- The first record at or after an instant ----

  /** Whether some record up to an offset is at or after an instant. */
  ghost predicate ReachedBy(rs: seq<Record>, instant: int, offset: int) {
    exists q :: q in rs && q.offset <= offset && q.timestamp >= instant
  }

  lemma {:induction false} FirstIs(rs: seq<Record>, instant: int, otherwise: int) returns (i: nat)
    ensures i <= |rs| && forall j :: 0 <= j < i ==> rs[j].timestamp < instant
    ensures i < |rs| ==> rs[i].timestamp >= instant && FirstAtOrAfter(rs, instant, otherwise) == rs[i].offset
    ensures i == |rs| ==> FirstAtOrAfter(rs, instant, otherwise) == otherwise
  {
    if rs == [] || rs[0].timestamp >= instant {
      i := 0;
    } else {
      var k := FirstIs(rs[1..], instant, otherwise);
      i := k + 1;
    }
  }

  /** What the lookup of a time promises: everything before the offset is older, and the
      offset is the end or that of a record at or after the time. */
  ghost predicate IsFirstAt(part: Partition, milli: int, offset: int) {
    && (forall r :: r in part.records && r.offset < offset ==> r.timestamp < milli * NANOS_PER_MILLI)
    && (offset == part.End()
        || exists r :: r in part.records && r.offset == offset && r.timestamp >= milli * NANOS_PER_MILLI)
  }

  lemma OffsetAfterIsFirst(topic: string, p: int, part: Partition, milli: int)
    requires Contiguous(topic, p, part)
    ensures IsFirstAt(part, milli, OffsetAfterMilli(part, milli))
  {
    var i := FirstIs(part.records, milli * NANOS_PER_MILLI, part.End());
    if i < |part.records| {
      assert part.records[i] in part.records;
    }
  }

  // A record lies at or after that offset exactly when the time was reached by then.
  lemma AtOrAfterIff(topic: string, p: int, part: Partition, milli: int, r: Record)
    requires Contiguous(topic, p, part) && r in part.records
    ensures OffsetAfterMilli(part, milli) <= r.offset <==> ReachedBy(part.records, milli * NANOS_PER_MILLI, r.offset)
  {
    OffsetAfterIsFirst(topic, p, part, milli);
    ContiguousAscends(topic, p, part);
  }

  // ---- The forms of from and to ----

  /** Which records a from admits: all of them; the last limit; those from an offset on;
      those from the first one at or after a time on. */
  ghost predicate Admits(from: From, part: Partition, limit: int, r: Record) {
    match from
    case Beginning => true
    case Latest => part.End() - limit <= r.offset
    case AtOffset(offset) => offset <= r.offset
    case AtTimestamp(milli) => ReachedBy(part.records, milli * NANOS_PER_MILLI, r.offset)
  }

  /** Which records a to leaves in: those below an offset; those before the first one at
      or after a time; otherwise all. */
  ghost predicate StaysBelow(to: Option<From>, part: Partition, r: Record) {
    match to
    case Some(AtOffset(offset)) => r.offset < offset
    case Some(AtTimestamp(milli)) => !ReachedBy(part.records, milli * NANOS_PER_MILLI, r.offset)
    case _ => true
  }

  /** A window holds exactly the records its from admits and its to leaves in. */
  lemma WindowReads(name: string, t: Topic, p: int, from: From, to: Option<From>, limit: int)
    requires WellFormed(name, t) && 0 <= p < |t.partitions|
    ensures
      var part, w := t.partitions[p], WindowOf(t, p, from, to, limit);
      && Ascending(part.records)
      && forall r :: r in Between(part.records, w.start, w.end) <==>
           r in part.records && Admits(from, part, limit, r) && StaysBelow(to, part, r)
  {
    hide Between, OffsetAfterMilli, ReachedBy;
    var part, w := t.partitions[p], WindowOf(t, p, from, to, limit);
    ContiguousAscends(name, p, part);
    forall r ensures r in Between(part.records, w.start, w.end) <==>
      r in part.records && Admits(from, part, limit, r) && StaysBelow(to, part, r)
    {
      BetweenIsTheWindow(part.records, w.start, w.end, r);
      if r in part.records {
        StartAdmits(name, t, p, from, to, limit, r);
        EndStaysBelow(name, t, p, from, to, limit, r);
      }
    }
  }

  lemma StartAdmits(name: string, t: Topic, p: int, from: From, to: Option<From>, limit: int, r: Record)
    requires WellFormed(name, t) && 0 <= p < |t.partitions| && r in t.partitions[p].records
    ensures WindowOf(t, p, from, to, limit).start <= r.offset <==> Admits(from, t.partitions[p], limit, r)
  {
    hide OffsetAfterMilli, ReachedBy;
    ContiguousAscends(name, p, t.partitions[p]);
    if from.AtTimestamp? {
      AtOrAfterIff(name, p, t.partitions[p], from.milli, r);
    }
  }

  lemma EndStaysBelow(name: string, t: Topic, p: int, from: From, to: Option<From>, limit: int, r: Record)
    requires WellFormed(name, t) && 0 <= p < |t.partitions| && r in t.partitions[p].records
    ensures r.offset < WindowOf(t, p, from, to, limit).end <==> StaysBelow(to, t.partitions[p], r)
  {
    hide OffsetAfterMilli, ReachedBy;
    ContiguousAscends(name, p, t.partitions[p]);
    if to.Some? && to.value.AtTimestamp? {
      AtOrAfterIff(name, p, t.partitions[p], to.value.milli, r);
    }
  }

  /** Where a window starts and ends, form by form; these are the offsets a cursor shows. */
  lemma WindowStands(name: string, t: Topic, p: int, from: From, to: Option<From>, limit: int)
    requires WellFormed(name, t) && 0 <= p < |t.partitions|
    ensures
      var part, w := t.partitions[p], WindowOf(t, p, from, to, limit);
      && (from == Beginning ==> w.start == part.begin)
      && (from == Latest ==> w.start == part.begin || w.start == part.End() - limit > part.begin)
      && (forall offset :: from == AtOffset(offset) ==> w.start == offset)
      && (forall milli :: from == AtTimestamp(milli) ==> IsFirstAt(part, milli, w.start))
      && (to in {None, Some(Beginning), Some(Latest)} ==> w.end == part.End())
      && (forall offset :: to == Some(AtOffset(offset)) ==>
            w.end <= offset && w.end <= part.End() && (w.end == offset || w.end == part.End()))
      && (forall milli :: to == Some(AtTimestamp(milli)) ==> IsFirstAt(part, milli, w.end))
  {
    hide OffsetAfterMilli, IsFirstAt;
    var part := t.partitions[p];
    if from.AtTimestamp? {
      OffsetAfterIsFirst(name, p, part, from.milli);
    }
    if to.Some? && to.value.AtTimestamp? {
      OffsetAfterIsFirst(name, p, part, to.value.milli);
      OffsetAfterIsWithin(name, p, part, to.value.milli);
    }
  }

  lemma OffsetAfterIsWithin(topic: string, p: int, part: Partition, milli: int)
    requires Contiguous(topic, p, part)
    ensures part.begin <= OffsetAfterMilli(part, milli) <= part.End()
  {
    ContiguousAscends(topic, p, part);
    FirstIsWithin(part.records, milli * NANOS_PER_MILLI, part.End(), part.begin, part.End());
  }

  /** A window of a partition the topic does not have holds nothing: it ends at or below
      zero, and starts there unless an offset was asked for. */
  lemma MissingPartition(t: Topic, p: int, from: From, to: Option<From>, limit: int)
    requires !(0 <= p < |t.partitions|) && limit >= 0
    ensures WindowOf(t, p, from, to, limit).end <= 0
    ensures WindowOf(t, p, from, to, limit).start == if from.AtOffset? then from.offset else 0
  {
  }
}

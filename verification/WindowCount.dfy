/** Counting the records of a topic between two times by offsets alone
    (internal/service/topic/count.go). */
module WindowCount {
  import opened Kafka
  import opened Logs
  import opened FakeCluster
  import opened FakeServer
  import WindowMeaning

  datatype PartitionCount = PartitionCount(id: int, fromOffset: int, toOffset: int, count: int)
  datatype Count = Count(fromMilli: int, toMilli: int, total: int, partitions: seq<PartitionCount>)

  /** One partition's window: its end is clamped to the log's end, then to its start. */
  function CountOf(part: Partition, id: int, fromMilli: int, toMilli: int): PartitionCount {
    var lo, hi := OffsetAfterMilli(part, fromMilli), OffsetAfterMilli(part, toMilli);
    var end := if hi > part.End() then part.End() else hi;
    var to := if end < lo then lo else end;
    PartitionCount(id, lo, to, to - lo)
  }

  ghost function CountsOf(parts: seq<Partition>, fromMilli: int, toMilli: int): (counts: seq<PartitionCount>)
    ensures |counts| == |parts|
    ensures forall i :: 0 <= i < |parts| ==> counts[i] == CountOf(parts[i], i, fromMilli, toMilli)
  {
    seq(|parts|, i requires 0 <= i < |parts| => CountOf(parts[i], i, fromMilli, toMilli))
  }

  ghost function TotalOf(counts: seq<PartitionCount>): int {
    if counts == [] then 0 else TotalOf(counts[..|counts| - 1]) + counts[|counts| - 1].count
  }

  method CountInWindow(admin: Fake, name: string, fromMilli: int, toMilli: int) returns (r: Result<Count>)
    ensures name !in admin.topics ==> r == Err(NotFound)
    ensures name in admin.topics ==>
      var counts := CountsOf(admin.topics[name].partitions, fromMilli, toMilli);
      r == Ok(Count(fromMilli, toMilli, TotalOf(counts), counts))
  {
    var fromOffsets := admin.ListOffsetsAfterMilli(name, fromMilli);
    var toOffsets := admin.ListOffsetsAfterMilli(name, toMilli);
    var endOffsets := admin.ListEndOffsets(name);
    if fromOffsets.Err? || toOffsets.Err? || endOffsets.Err? {
      return Err(NotFound);
    }
    var partitions, total :=
      CountEach(admin.topics[name], fromMilli, toMilli, fromOffsets.value, toOffsets.value, endOffsets.value);
    return Ok(Count(fromMilli, toMilli, total, partitions));
  }

  // The loop over partition ids in ascending order.
  method CountEach(ghost t: Topic, ghost fromMilli: int, ghost toMilli: int, fromOffsets: map<int, int>,
                   toOffsets: map<int, int>, endOffsets: map<int, int>)
    returns (partitions: seq<PartitionCount>, total: int)
    requires fromOffsets == OffsetsAfterMilli(t, fromMilli) && toOffsets == OffsetsAfterMilli(t, toMilli)
    requires endOffsets == EndOffsets(t)
    ensures partitions == CountsOf(t.partitions, fromMilli, toMilli) && total == TotalOf(partitions)
  {
    total, partitions := 0, [];
    var id := 0;
    while id in fromOffsets
      invariant 0 <= id <= |t.partitions| && |partitions| == id && total == TotalOf(partitions)
      invariant forall i :: 0 <= i < id ==> partitions[i] == CountOf(t.partitions[i], i, fromMilli, toMilli)
      decreases |t.partitions| - id
    {
      hide CountOf, OffsetAfterMilli;
      var count := CountOne(t, fromMilli, toMilli, fromOffsets, toOffsets, endOffsets, id);
      TotalOneMore(partitions, count);
      partitions := partitions + [count];
      total := total + count.count;
      id := id + 1;
    }
  }

  // The loop's body for one partition.
  method CountOne(ghost t: Topic, ghost fromMilli: int, ghost toMilli: int, fromOffsets: map<int, int>,
                  toOffsets: map<int, int>, endOffsets: map<int, int>, id: int) returns (count: PartitionCount)
    requires fromOffsets == OffsetsAfterMilli(t, fromMilli) && toOffsets == OffsetsAfterMilli(t, toMilli)
    requires endOffsets == EndOffsets(t) && 0 <= id < |t.partitions|
    ensures count == CountOf(t.partitions[id], id, fromMilli, toMilli)
  {
    var lo, to := fromOffsets[id], toOffsets[id];
    if id in endOffsets && to > endOffsets[id] {
      to := endOffsets[id];
    }
    if to < lo {
      to := lo;
    }
    return PartitionCount(id, lo, to, to - lo);
  }

  lemma TotalOneMore(counts: seq<PartitionCount>, c: PartitionCount)
    ensures TotalOf(counts + [c]) == TotalOf(counts) + c.count
  {
    assert (counts + [c])[..|counts|] == counts;
  }

  // ---- Counts are additive ----

  // How many records stand before the first one at or after a time.
  ghost function Leading(rs: seq<Record>, target: int): nat {
    if rs == [] || rs[0].timestamp >= target then 0 else 1 + Leading(rs[1..], target)
  }

  lemma {:induction false} OffsetIsLeading(topic: string, p: int, part: Partition, target: int)
    requires Contiguous(topic, p, part)
    ensures FirstAtOrAfter(part.records, target, part.End()) == part.begin + Leading(part.records, target)
    ensures Leading(part.records, target) <= |part.records|
    decreases |part.records|
  {
    if part.records != [] {
      OffsetIsLeading(topic, p, Partition(part.begin + 1, part.records[1..]), target);
    }
  }

  lemma {:induction false} LeadingIsMonotone(rs: seq<Record>, a: int, b: int)
    requires a <= b
    ensures Leading(rs, a) <= Leading(rs, b)
  {
    if rs != [] {
      LeadingIsMonotone(rs[1..], a, b);
    }
  }

  lemma CountIsDifference(topic: string, p: int, part: Partition, a: int, b: int)
    requires Contiguous(topic, p, part) && a <= b
    ensures CountOf(part, p, a, b).count ==
      Leading(part.records, b * NANOS_PER_MILLI) - Leading(part.records, a * NANOS_PER_MILLI)
    ensures CountOf(part, p, b, a).count == 0
  {
    OffsetIsLeading(topic, p, part, a * NANOS_PER_MILLI);
    OffsetIsLeading(topic, p, part, b * NANOS_PER_MILLI);
    LeadingIsMonotone(part.records, a * NANOS_PER_MILLI, b * NANOS_PER_MILLI);
  }

  /** Where a partition's count starts and ends: at the first records at or after the two
      times, or, backwards, where it starts. Counts are listed by partition number. */
  lemma CountStands(topic: string, parts: seq<Partition>, a: int, b: int, p: int)
    requires 0 <= p < |parts| && Contiguous(topic, p, parts[p])
    ensures
      var c := CountsOf(parts, a, b)[p];
      && c.id == p && c.count == c.toOffset - c.fromOffset
      && WindowMeaning.IsFirstAt(parts[p], a, c.fromOffset)
      && (a <= b ==> WindowMeaning.IsFirstAt(parts[p], b, c.toOffset)) && (b <= a ==> c.toOffset == c.fromOffset)
  {
    hide WindowMeaning.IsFirstAt;
    WindowMeaning.OffsetAfterIsFirst(topic, p, parts[p], a);
    WindowMeaning.OffsetAfterIsFirst(topic, p, parts[p], b);
    OffsetIsLeading(topic, p, parts[p], a * NANOS_PER_MILLI);
    OffsetIsLeading(topic, p, parts[p], b * NANOS_PER_MILLI);
    if a <= b {
      LeadingIsMonotone(parts[p].records, a * NANOS_PER_MILLI, b * NANOS_PER_MILLI);
    } else {
      LeadingIsMonotone(parts[p].records, b * NANOS_PER_MILLI, a * NANOS_PER_MILLI);
    }
  }

  /** On any log, in whatever order its timestamps are, the counts of two adjacent
      windows add up to the count of the joined window. */
  lemma CountsAdd(topic: string, p: int, part: Partition, a: int, b: int, c: int)
    requires Contiguous(topic, p, part) && a <= b <= c
    ensures CountOf(part, p, a, b).count + CountOf(part, p, b, c).count == CountOf(part, p, a, c).count
  {
    CountIsDifference(topic, p, part, a, b);
    CountIsDifference(topic, p, part, b, c);
    CountIsDifference(topic, p, part, a, c);
  }

  /** And so do the totals. */
  lemma {:induction false} TotalsAdd(topic: string, parts: seq<Partition>, a: int, b: int, c: int)
    requires (forall p :: 0 <= p < |parts| ==> Contiguous(topic, p, parts[p])) && a <= b <= c
    ensures TotalOf(CountsOf(parts, a, b)) + TotalOf(CountsOf(parts, b, c)) == TotalOf(CountsOf(parts, a, c))
  {
    if parts != [] {
      hide CountOf, TotalOf, Contiguous;
      var n := |parts| - 1;
      TotalsAdd(topic, parts[..n], a, b, c);
      CountsAdd(topic, n, parts[n], a, b, c);
      TotalSnoc(parts, a, b);
      TotalSnoc(parts, b, c);
      TotalSnoc(parts, a, c);
    }
  }

  lemma TotalSnoc(parts: seq<Partition>, a: int, b: int)
    requires parts != []
    ensures
      var n := |parts| - 1;
      TotalOf(CountsOf(parts, a, b)) == TotalOf(CountsOf(parts[..n], a, b)) + CountOf(parts[n], n, a, b).count
  {
    assert CountsOf(parts, a, b)[..|parts| - 1] == CountsOf(parts[..|parts| - 1], a, b);
  }

  /** No window, backwards ones included, counts less than nothing; a backwards window
      counts nothing. */
  lemma {:induction false} TotalNeverNegative(topic: string, parts: seq<Partition>, a: int, b: int)
    ensures TotalOf(CountsOf(parts, a, b)) >= 0
    ensures b <= a && (forall p :: 0 <= p < |parts| ==> Contiguous(topic, p, parts[p])) ==>
      TotalOf(CountsOf(parts, a, b)) == 0
  {
    if parts != [] {
      var n := |parts| - 1;
      TotalNeverNegative(topic, parts[..n], a, b);
      TotalSnoc(parts, a, b);
      if b <= a && forall p :: 0 <= p < |parts| ==> Contiguous(topic, p, parts[p]) {
        CountIsDifference(topic, n, parts[n], b, a);
      }
    }
  }

  // ---- Counts are counts ----

  ghost function NumberIn(rs: seq<Record>, lo: int, hi: int): nat {
    if rs == [] then 0 else (if lo <= rs[0].timestamp < hi then 1 else 0) + NumberIn(rs[1..], lo, hi)
  }

  lemma {:induction false} LeadingCounts(rs: seq<Record>, lo: int, hi: int)
    requires ByTime(rs) && lo <= hi
    ensures NumberIn(rs, lo, hi) == Leading(rs, hi) - Leading(rs, lo)
  {
    if rs != [] {
      LeadingCounts(rs[1..], lo, hi);
      assert |rs| > 1 ==> rs[1..][0].timestamp >= rs[0].timestamp;
    }
  }

  ghost function NumberInAll(parts: seq<Partition>, lo: int, hi: int): nat {
    if parts == [] then 0 else NumberInAll(parts[..|parts| - 1], lo, hi) + NumberIn(parts[|parts| - 1].records, lo, hi)
  }

  /** Where timestamps never decrease within a partition, the total is the number of
      records from the first time up to, not including, the second. */
  lemma {:induction false} TotalIsNumber(topic: string, parts: seq<Partition>, a: int, b: int)
    requires forall p :: 0 <= p < |parts| ==> Contiguous(topic, p, parts[p]) && ByTime(parts[p].records)
    requires a <= b
    ensures TotalOf(CountsOf(parts, a, b)) == NumberInAll(parts, a * NANOS_PER_MILLI, b * NANOS_PER_MILLI)
  {
    if parts != [] {
      var n := |parts| - 1;
      TotalIsNumber(topic, parts[..n], a, b);
      CountIsDifference(topic, n, parts[n], a, b);
      LeadingCounts(parts[n].records, a * NANOS_PER_MILLI, b * NANOS_PER_MILLI);
      TotalSnoc(parts, a, b);
    }
  }
}

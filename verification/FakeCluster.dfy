/** The in-memory cluster behind the port (internal/kafka/fake): topics of contiguous
    partition logs, committed group offsets and one consumer session. The functions
    give each call's effect on values; class Fake performs it in place. */
module FakeCluster {
  import opened Kafka
  import opened Logs

  datatype Partition = Partition(begin: int, records: seq<Record>) {
    function End(): int { begin + |records| }
  }

  datatype ConfigSource = Default | Static | Dynamic
  datatype ConfigEntry = ConfigEntry(name: string, value: string, source: ConfigSource)

  datatype Topic = Topic(
    isInternal: bool, replicationFactor: int, partitions: seq<Partition>, configs: seq<ConfigEntry>)

  datatype Group = Group(members: nat, offsets: map<TopicPartition, int>)

  datatype ProduceRequest = ProduceRequest(
    key: Bytes, value: Bytes, headers: seq<Header>, partition: Option<int>, timestamp: int)

  datatype ProduceResult = Produced(partition: int, offset: int, timestamp: int) | Rejected(error: Error)

  datatype Session = Session(topic: string, cursor: map<int, int>)

  // ---- The log invariant ----

  /** A partition's records carry its topic and number and consecutive offsets from begin. */
  ghost predicate Contiguous(topic: string, p: int, part: Partition) {
    forall i :: 0 <= i < |part.records| ==>
      var r := part.records[i];
      r.offset == part.begin + i && r.topic == topic && r.partition == p
  }

  ghost predicate WellFormed(topic: string, t: Topic) {
    forall p :: 0 <= p < |t.partitions| ==> Contiguous(topic, p, t.partitions[p])
  }

  lemma ContiguousAscends(topic: string, p: int, part: Partition)
    requires Contiguous(topic, p, part)
    ensures Ascending(part.records)
    ensures forall r :: r in part.records ==> r.partition == p && part.begin <= r.offset < part.End()
  {
  }

  /** In a contiguous log an offset is a position. */
  ghost function Position(part: Partition, at: int): (i: nat)
    ensures i <= |part.records|
  {
    if at <= part.begin then 0 else if at >= part.End() then |part.records| else at - part.begin
  }

  lemma LowerBoundIsPosition(topic: string, p: int, part: Partition, at: int)
    requires Contiguous(topic, p, part) && Ascending(part.records)
    ensures LowerBound(part.records, at) == Position(part, at)
  {
    var k := LowerBound(part.records, at);
    assert k < |part.records| ==> at <= part.records[k].offset;
    assert 0 < k ==> part.records[k - 1].offset < at;
  }

  lemma BetweenIsSlice(topic: string, p: int, part: Partition, lo: int, hi: int)
    requires Contiguous(topic, p, part) && Ascending(part.records)
    ensures lo < hi ==> Position(part, lo) <= Position(part, hi)
    ensures Between(part.records, lo, hi) ==
      if hi <= lo then [] else part.records[Position(part, lo)..Position(part, hi)]
    ensures part.records[Position(part, lo)..] == Between(part.records, lo, part.End())
  {
    LowerBoundIsPosition(topic, p, part, lo);
    LowerBoundIsPosition(topic, p, part, hi);
    LowerBoundIsPosition(topic, p, part, part.End());
  }

  // ---- Produce ----

  // Exclusive or of two numbers' low bits.
  function Xor(a: nat, b: nat, bits: nat): nat {
    if bits == 0 then 0 else 2 * Xor(a / 2, b / 2, bits - 1) + (a + b) % 2
  }

  // The low byte is all an xor with a byte can change.
  function XorByte(h: nat, b: Byte): nat {
    h - h % 256 + Xor(h % 256, b as nat, 8)
  }

  /** 32-bit FNV-1a over the key. */
  function HashKey(key: Bytes): nat {
    if key == [] then 2166136261
    else XorByte(HashKey(key[..|key| - 1]), key[|key| - 1]) * 16777619 % 0x1_0000_0000
  }

  function PartitionOfKey(key: Bytes, count: nat): (p: int)
    requires count > 0
    ensures 0 <= p < count
  {
    HashKey(key) % count
  }

  function ChosenPartition(t: Topic, r: ProduceRequest): (p: int)
    ensures r.partition.Some? ==> p == r.partition.value
    ensures r.partition.None? && |t.partitions| > 0 ==> 0 <= p < |t.partitions|
  {
    if r.partition.Some? then r.partition.value
    else if |t.partitions| == 0 || |r.key| == 0 then 0
    else PartitionOfKey(r.key, |t.partitions|)
  }

  /** Which partition a request goes to: the one it names; without one, the first when it
      has no key, and otherwise the key's hash modulo the count, whatever else it carries. */
  lemma KeyDecidesPartition(t: Topic, r: ProduceRequest, u: Topic, q: ProduceRequest)
    ensures r.partition.Some? ==> ChosenPartition(t, r) == r.partition.value
    ensures r.partition.None? && (r.key == [] || t.partitions == []) ==> ChosenPartition(t, r) == 0
    ensures r.partition.None? && r.key != [] && t.partitions != [] ==>
      ChosenPartition(t, r) == HashKey(r.key) % |t.partitions|
    ensures r.partition == q.partition && r.key == q.key && |t.partitions| == |u.partitions| ==>
      ChosenPartition(t, r) == ChosenPartition(u, q)
  {
  }

  // The published FNV-1a hashes of the empty string and of "a".
  lemma HashIsFnv1a()
    ensures HashKey([]) == 0x811c9dc5 && HashKey([97]) == 0xe40c292c
  {
    hide XorByte, Xor;
    OffsetBasis();
    XorStep(1, 0, 0, 0);
    XorStep(3, 1, 1, 1);
    XorStep(6, 3, 2, 2);
    XorStep(12, 6, 3, 5);
    XorStep(24, 12, 4, 10);
    XorStep(49, 24, 5, 20);
    XorStep(98, 48, 6, 41);
    XorStep(197, 97, 7, 82);
    XorLowByte(0x811c9dc5, 0xc5, 97, 0xa4);
    HashSnoc([], 97);
    assert [] + [97] == [97 as Byte];
  }

  lemma OffsetBasis()
    ensures HashKey([]) == 0x811c9dc5
    ensures Xor(0, 0, 0) == 0
  {
  }

  lemma XorStep(a: nat, b: nat, bits: nat, rest: nat)
    requires Xor(a / 2, b / 2, bits) == rest
    ensures Xor(a, b, bits + 1) == 2 * rest + (a + b) % 2
  {
  }

  lemma XorLowByte(h: nat, low: nat, b: Byte, x: nat)
    requires h % 256 == low && Xor(low, b as nat, 8) == x
    ensures XorByte(h, b) == h - low + x
  {
  }

  lemma HashSnoc(key: Bytes, b: Byte)
    ensures HashKey(key + [b]) == XorByte(HashKey(key), b) * 16777619 % 0x1_0000_0000
  {
    assert (key + [b])[..|key|] == key;
  }

  function StampedAt(r: ProduceRequest, now: int): int {
    if r.timestamp == ZERO_TIME then now else r.timestamp
  }

  function ProduceOne(topic: string, t: Topic, r: ProduceRequest, now: int): (Topic, ProduceResult) {
    var p := ChosenPartition(t, r);
    if p < 0 || p >= |t.partitions| then (t, Rejected(NotFound))
    else
      var part := t.partitions[p];
      var stored := Record(topic, p, part.End(), StampedAt(r, now), r.key, r.value, r.headers);
      (t.(partitions := t.partitions[p := part.(records := part.records + [stored])]),
       Produced(p, part.End(), StampedAt(r, now)))
  }

  /** The whole batch; clock(i) is what the clock says at request i. */
  function ProduceAll(topic: string, t: Topic, rs: seq<ProduceRequest>, clock: nat -> int):
      (Topic, seq<ProduceResult>)
  {
    if rs == [] then (t, [])
    else
      var n := |rs| - 1;
      var (before, results) := ProduceAll(topic, t, rs[..n], clock);
      var (after, result) := ProduceOne(topic, before, rs[n], clock(n));
      (after, results + [result])
  }

  // What a batch adds to one partition.
  ghost function Appended(topic: string, t: Topic, rs: seq<ProduceRequest>, clock: nat -> int, p: int): seq<Record>
    requires 0 <= p < |t.partitions|
  {
    if rs == [] then [] else
      var n := |rs| - 1;
      var before := Appended(topic, t, rs[..n], clock, p);
      var r := rs[n];
      before + if ChosenPartition(t, r) == p
               then [Record(topic, p, t.partitions[p].End() + |before|, StampedAt(r, clock(n)), r.key, r.value,
                            r.headers)]
               else []
  }

  /** A batch only appends: each partition keeps its begin and its records and gains,
      in request order, the requests that chose it. */
  lemma {:induction false} ProduceOnlyAppends(topic: string, t: Topic, rs: seq<ProduceRequest>, clock: nat -> int)
    ensures
      var (after, results) := ProduceAll(topic, t, rs, clock);
      && |results| == |rs| && |after.partitions| == |t.partitions| && after == t.(partitions := after.partitions)
      && (forall p :: 0 <= p < |t.partitions| ==>
            after.partitions[p] ==
              Partition(t.partitions[p].begin, t.partitions[p].records + Appended(topic, t, rs, clock, p)))
  {
    if rs != [] {
      var n := |rs| - 1;
      ProduceOnlyAppends(topic, t, rs[..n], clock);
      var before := ProduceAll(topic, t, rs[..n], clock).0;
      var after := ProduceAll(topic, t, rs, clock).0;
      forall p | 0 <= p < |t.partitions|
        ensures after.partitions[p] ==
          Partition(t.partitions[p].begin, t.partitions[p].records + Appended(topic, t, rs, clock, p))
      {
        AppendsOne(topic, t, before, rs, clock, p);
      }
    }
  }

  lemma AppendsOne(topic: string, t: Topic, before: Topic, rs: seq<ProduceRequest>, clock: nat -> int, p: int)
    requires rs != [] && |before.partitions| == |t.partitions| && 0 <= p < |t.partitions|
    requires before.partitions[p] ==
      Partition(t.partitions[p].begin, t.partitions[p].records + Appended(topic, t, rs[..|rs| - 1], clock, p))
    ensures
      var after := ProduceOne(topic, before, rs[|rs| - 1], clock(|rs| - 1)).0;
      && |after.partitions| == |t.partitions|
      && after.partitions[p] ==
           Partition(t.partitions[p].begin, t.partitions[p].records + Appended(topic, t, rs, clock, p))
  {
    var r, added := rs[|rs| - 1], Appended(topic, t, rs[..|rs| - 1], clock, p);
    assert ChosenPartition(before, r) == ChosenPartition(t, r);
    if ChosenPartition(t, r) == p {
      var stored := Record(topic, p, t.partitions[p].End() + |added|, StampedAt(r, clock(|rs| - 1)), r.key, r.value,
                           r.headers);
      assert t.partitions[p].records + added + [stored] == t.partitions[p].records + (added + [stored]);
    } else {
      assert added + [] == added;
    }
  }

  /** Each request is answered for itself: refused exactly when its partition is out of
      range, and otherwise told where its own record is stored, verbatim. */
  lemma {:induction false} ProduceAnswersEach(topic: string, t: Topic, rs: seq<ProduceRequest>, clock: nat -> int,
                                              i: nat)
    requires i < |rs|
    ensures
      var (after, results) := ProduceAll(topic, t, rs, clock);
      |results| == |rs| && |after.partitions| == |t.partitions| && Answers(topic, t, after, rs[i], results[i])
  {
    var n := |rs| - 1;
    var before := ProduceAll(topic, t, rs[..n], clock).0;
    ProduceOnlyAppends(topic, t, rs[..n], clock);
    if i < n {
      ProduceAnswersEach(topic, t, rs[..n], clock, i);
      AnswerStands(topic, t, before, rs[n], clock(n), rs[i], ProduceAll(topic, t, rs[..n], clock).1[i]);
    } else {
      AnswersLast(topic, t, before, rs[n], clock(n));
    }
  }

  ghost predicate Answers(topic: string, t: Topic, after: Topic, r: ProduceRequest, result: ProduceResult)
    requires |after.partitions| == |t.partitions|
  {
    && (result.Rejected? <==> !(0 <= ChosenPartition(t, r) < |t.partitions|))
    && (result.Produced? ==> IsStored(topic, t, after, r, result))
  }

  // A stored record stays where it is when another request is produced.
  lemma AnswerStands(topic: string, t: Topic, before: Topic, next: ProduceRequest, now: int, r: ProduceRequest,
                     result: ProduceResult)
    requires |before.partitions| == |t.partitions| && Answers(topic, t, before, r, result)
    ensures
      var after := ProduceOne(topic, before, next, now).0;
      |after.partitions| == |t.partitions| && Answers(topic, t, after, r, result)
  {
  }

  lemma AnswersLast(topic: string, t: Topic, before: Topic, r: ProduceRequest, now: int)
    requires |before.partitions| == |t.partitions|
    requires forall p :: 0 <= p < |t.partitions| ==>
      before.partitions[p].begin == t.partitions[p].begin && |before.partitions[p].records| >= |t.partitions[p].records|
    ensures
      var (after, result) := ProduceOne(topic, before, r, now);
      |after.partitions| == |t.partitions| && Answers(topic, t, after, r, result)
  {
    assert ChosenPartition(before, r) == ChosenPartition(t, r);
  }

  ghost predicate IsStored(topic: string, t: Topic, after: Topic, r: ProduceRequest, result: ProduceResult)
    requires result.Produced? && |after.partitions| == |t.partitions|
  {
    && 0 <= result.partition == ChosenPartition(t, r) < |after.partitions|
    && var part := after.partitions[result.partition];
       && t.partitions[result.partition].End() <= result.offset < part.End() && part.begin <= result.offset
       && part.records[result.offset - part.begin]
          == Record(topic, result.partition, result.offset, result.timestamp, r.key, r.value, r.headers)
       && (r.timestamp != ZERO_TIME ==> result.timestamp == r.timestamp)
  }

  /** Answer by answer: a refusal is NotFound, and a stored record has the time it came
      with or, without one, what the clock said at its request. */
  lemma {:induction false} ProduceStamps(topic: string, t: Topic, rs: seq<ProduceRequest>, clock: nat -> int, i: nat)
    requires i < |rs|
    ensures
      var results := ProduceAll(topic, t, rs, clock).1;
      && |results| == |rs| && (results[i].Rejected? ==> results[i].error == NotFound)
      && (results[i].Produced? ==>
            results[i].timestamp == if rs[i].timestamp == ZERO_TIME then clock(i) else rs[i].timestamp)
  {
    var n := |rs| - 1;
    ProduceOnlyAppends(topic, t, rs[..n], clock);
    if i < n {
      ProduceStamps(topic, t, rs[..n], clock, i);
    }
  }

  lemma ProduceKeepsInvariant(topic: string, t: Topic, rs: seq<ProduceRequest>, clock: nat -> int)
    requires WellFormed(topic, t)
    ensures WellFormed(topic, ProduceAll(topic, t, rs, clock).0)
  {
    ProduceOnlyAppends(topic, t, rs, clock);
    forall p | 0 <= p < |t.partitions|
      ensures Contiguous(topic, p, ProduceAll(topic, t, rs, clock).0.partitions[p])
    {
      AppendedContinues(topic, t, rs, clock, p);
    }
  }

  lemma {:induction false} AppendedContinues(topic: string, t: Topic, rs: seq<ProduceRequest>, clock: nat -> int,
                                             p: int)
    requires 0 <= p < |t.partitions|
    ensures Contiguous(topic, p, Partition(t.partitions[p].End(), Appended(topic, t, rs, clock, p)))
  {
    if rs != [] {
      AppendedContinues(topic, t, rs[..|rs| - 1], clock, p);
    }
  }

  // ---- Seeding and truncation ----

  function KeptFrom(rs: seq<Record>, at: int): seq<Record> {
    if rs == [] then []
    else KeptFrom(rs[..|rs| - 1], at) + if rs[|rs| - 1].offset >= at then [rs[|rs| - 1]] else []
  }

  function Truncate(part: Partition, at: int): Partition {
    Partition(at, KeptFrom(part.records, at))
  }

  lemma {:induction false} KeptJoins(a: seq<Record>, b: seq<Record>, at: int)
    ensures KeptFrom(a + b, at) == KeptFrom(a, at) + KeptFrom(b, at)
  {
    if b == [] {
      assert a + b == a;
    } else {
      var n := |b| - 1;
      KeptJoins(a, b[..n], at);
      assert (a + b)[..|a + b| - 1] == a + b[..n];
    }
  }

  lemma {:induction false} KeepsAll(rs: seq<Record>, at: int)
    requires forall i :: 0 <= i < |rs| ==> rs[i].offset >= at
    ensures KeptFrom(rs, at) == rs
  {
    if rs != [] {
      KeepsAll(rs[..|rs| - 1], at);
      assert rs == rs[..|rs| - 1] + [rs[|rs| - 1]];
    }
  }

  lemma {:induction false} KeepsNone(rs: seq<Record>, at: int)
    requires forall i :: 0 <= i < |rs| ==> rs[i].offset < at
    ensures KeptFrom(rs, at) == []
  {
    if rs != [] {
      KeepsNone(rs[..|rs| - 1], at);
    }
  }

  lemma KeptIsSuffix(topic: string, p: int, part: Partition, at: int)
    requires Contiguous(topic, p, part)
    ensures KeptFrom(part.records, at) == part.records[Position(part, at)..]
  {
    var k := Position(part, at);
    var dropped, kept := part.records[..k], part.records[k..];
    assert part.records == dropped + kept;
    KeptJoins(dropped, kept, at);
    KeepsNone(dropped, at);
    KeepsAll(kept, at);
  }

  lemma {:induction false} KeptMembers(rs: seq<Record>, at: int, r: Record)
    ensures r in KeptFrom(rs, at) <==> r in rs && r.offset >= at
  {
    if rs != [] {
      KeptMembers(rs[..|rs| - 1], at, r);
      assert rs == rs[..|rs| - 1] + [rs[|rs| - 1]];
    }
  }

  /** DeleteRecords refuses only targets past the end. Of the accepted ones, exactly
      those at or after begin keep the log whole: contiguous, with the same end and
      every record at or after the target. */
  lemma TruncationKeepsLogIff(topic: string, p: int, part: Partition, at: int)
    requires Contiguous(topic, p, part) && at <= part.End()
    ensures
      var cut := Truncate(part, at);
      part.begin <= at <==>
        && Contiguous(topic, p, cut) && cut.End() == part.End()
        && (forall r :: r in cut.records <==> r in part.records && r.offset >= at)
  {
    if part.begin <= at {
      TruncationKeepsTail(topic, p, part, at);
    } else {
      TruncationBelowBeginLosesOffsets(topic, p, part, at);
    }
  }

  lemma TruncationKeepsTail(topic: string, p: int, part: Partition, at: int)
    requires Contiguous(topic, p, part) && part.begin <= at <= part.End()
    ensures
      var cut := Truncate(part, at);
      && Contiguous(topic, p, cut) && cut.End() == part.End()
      && (forall r :: r in cut.records <==> r in part.records && r.offset >= at)
  {
    KeptIsSuffix(topic, p, part, at);
    assert Position(part, at) == at - part.begin;
    forall r ensures r in KeptFrom(part.records, at) <==> r in part.records && r.offset >= at {
      KeptMembers(part.records, at, r);
    }
  }

  /** Compaction can also jump past the end; it keeps the invariant unless it moves a
      non-empty log's begin backwards. */
  lemma CompactionKeepsInvariantIff(topic: string, p: int, part: Partition, before: int)
    requires Contiguous(topic, p, part)
    ensures Contiguous(topic, p, Truncate(part, before)) <==> part.begin <= before || part.records == []
  {
    KeptIsSuffix(topic, p, part, before);
    if before < part.begin && part.records != [] {
      assert Truncate(part, before).records[0].offset == part.begin;
    }
  }

  /** A truncation below begin is accepted too, and moves the end back by as much: the
      offsets in between will be given out again. */
  lemma TruncationBelowBeginLosesOffsets(topic: string, p: int, part: Partition, at: int)
    requires Contiguous(topic, p, part) && at < part.begin
    ensures at <= part.End() && Truncate(part, at).records == part.records
    ensures Truncate(part, at).End() == part.End() - (part.begin - at)
  {
    KeptIsSuffix(topic, p, part, at);
  }

  // An emptied log that ended at 5 ends at 2 after a truncation to 2.
  lemma EmptiedLogMovesBack()
    ensures Truncate(Partition(5, []), 2).End() == 2 < Partition(5, []).End()
  {
  }

  function TruncateAll(t: Topic, cuts: map<int, int>): (after: Topic)
    ensures |after.partitions| == |t.partitions|
  {
    t.(partitions := seq(|t.partitions|, i requires 0 <= i < |t.partitions| =>
                         if i in cuts then Truncate(t.partitions[i], cuts[i]) else t.partitions[i]))
  }

  /** A truncation touches the named partitions alone: each begins at its target and holds
      exactly its records at or after it; a contiguous log keeps them in order. */
  ghost predicate CutsExactly(topic: string, before: Topic, after: Topic, cuts: map<int, int>) {
    && after == before.(partitions := after.partitions) && |after.partitions| == |before.partitions|
    && (forall p :: 0 <= p < |before.partitions| && p !in cuts ==> after.partitions[p] == before.partitions[p])
    && forall p :: 0 <= p < |before.partitions| && p in cuts ==>
         CutExactly(topic, p, before.partitions[p], after.partitions[p], cuts[p])
  }

  ghost predicate CutExactly(topic: string, p: int, was: Partition, now: Partition, at: int) {
    && now.begin == at && (forall r :: r in now.records <==> r in was.records && at <= r.offset)
    && (Contiguous(topic, p, was) ==> exists k :: 0 <= k <= |was.records| && now.records == was.records[k..])
  }

  lemma TruncateIsExact(topic: string, p: int, part: Partition, at: int)
    ensures CutExactly(topic, p, part, Truncate(part, at), at)
  {
    forall r ensures r in KeptFrom(part.records, at) <==> r in part.records && at <= r.offset {
      KeptMembers(part.records, at, r);
    }
    if Contiguous(topic, p, part) {
      KeptIsSuffix(topic, p, part, at);
    }
  }

  lemma TruncateAllIsExact(topic: string, t: Topic, cuts: map<int, int>)
    ensures CutsExactly(topic, t, TruncateAll(t, cuts), cuts)
  {
    hide CutExactly, Truncate;
    forall p | 0 <= p < |t.partitions| && p in cuts
      ensures CutExactly(topic, p, t.partitions[p], TruncateAll(t, cuts).partitions[p], cuts[p])
    {
      TruncateIsExact(topic, p, t.partitions[p], cuts[p]);
    }
  }

  /** Why truncation targets are refused: one names no partition, or lies past its end. */
  ghost predicate NamesNone(t: Topic, cuts: map<int, int>) {
    exists p :: p in cuts && !(0 <= p < |t.partitions|)
  }

  ghost predicate PastEnd(t: Topic, cuts: map<int, int>) {
    exists p :: p in cuts && 0 <= p < |t.partitions| && cuts[p] > t.partitions[p].End()
  }

  function SeedOne(name: string, t: Topic, r: Record, now: int): Topic
    requires t.partitions != []
  {
    var p := if r.partition < 0 || r.partition >= |t.partitions| then 0 else r.partition;
    var part := t.partitions[p];
    var stored := r.(topic := name, partition := p, offset := part.End(),
                     timestamp := if r.timestamp == ZERO_TIME then now else r.timestamp);
    t.(partitions := t.partitions[p := part.(records := part.records + [stored])])
  }

  function EmptyPartitions(n: nat): (parts: seq<Partition>)
    ensures |parts| == n && forall i :: 0 <= i < n ==> parts[i] == Partition(0, [])
  {
    seq(n, i => Partition(0, []))
  }

  function SeedAll(name: string, partitions: nat, rs: seq<Record>, clock: nat -> int): (t: Topic)
    requires partitions > 0 || rs == []
    ensures |t.partitions| == partitions && WellFormed(name, t)
  {
    if rs == [] then Topic(false, 0, EmptyPartitions(partitions), [])
    else SeedOne(name, SeedAll(name, partitions, rs[..|rs| - 1], clock), rs[|rs| - 1], clock(|rs| - 1))
  }

  /** Where a seeded record goes: its own partition, or the first when that is out of range. */
  ghost function SeededTo(rs: seq<Record>, count: nat, p: int): seq<Record> {
    if rs == [] then [] else
      var last := rs[|rs| - 1];
      SeededTo(rs[..|rs| - 1], count, p)
      + if p == (if 0 <= last.partition < count then last.partition else 0) then [last] else []
  }

  /** Seeding keeps every record's content, in order, and the time of those that have one;
      the topic is an ordinary one without configurations, its logs beginning at zero. */
  lemma {:induction false} SeedHolds(name: string, partitions: nat, rs: seq<Record>, clock: nat -> int, p: int)
    requires 0 <= p < partitions
    ensures
      var t, given := SeedAll(name, partitions, rs, clock), SeededTo(rs, partitions, p);
      && !t.isInternal && t.replicationFactor == 0 && t.configs == [] && t.partitions[p].begin == 0
      && |t.partitions[p].records| == |given|
      && forall i :: 0 <= i < |given| ==>
           var r := t.partitions[p].records[i];
           && r.key == given[i].key && r.value == given[i].value && r.headers == given[i].headers
           && (given[i].timestamp != ZERO_TIME ==> r.timestamp == given[i].timestamp)
  {
    if rs != [] {
      SeedHolds(name, partitions, rs[..|rs| - 1], clock, p);
    }
  }

  // ---- Offset listings ----

  function StartOffsets(t: Topic): map<int, int> {
    map p: int | 0 <= p < |t.partitions| :: t.partitions[p].begin
  }

  function EndOffsets(t: Topic): map<int, int> {
    map p: int | 0 <= p < |t.partitions| :: t.partitions[p].End()
  }

  function FirstAtOrAfter(rs: seq<Record>, target: int, otherwise: int): int {
    if rs == [] then otherwise
    else if rs[0].timestamp >= target then rs[0].offset
    else FirstAtOrAfter(rs[1..], target, otherwise)
  }

  lemma {:induction false} FirstIsWithin(rs: seq<Record>, instant: int, otherwise: int, low: int, high: int)
    requires low <= otherwise <= high && forall r :: r in rs ==> low <= r.offset <= high
    ensures low <= FirstAtOrAfter(rs, instant, otherwise) <= high
  {
    if rs != [] && rs[0].timestamp < instant {
      FirstIsWithin(rs[1..], instant, otherwise, low, high);
    }
  }

  function OffsetAfterMilli(part: Partition, milli: int): int {
    FirstAtOrAfter(part.records, milli * NANOS_PER_MILLI, part.End())
  }

  function OffsetsAfterMilli(t: Topic, milli: int): map<int, int> {
    map p: int | 0 <= p < |t.partitions| :: OffsetAfterMilli(t.partitions[p], milli)
  }

  // ---- Poll ----

  /** The cursors of a new session. */
  function StartingAt(partitions: seq<int>, startOffsets: map<int, int>): map<int, int> {
    map p | p in partitions :: if p in startOffsets then startOffsets[p] else 0
  }

  lemma StartsThere(partitions: seq<int>, startOffsets: map<int, int>, cursor: map<int, int>)
    requires forall p :: p in cursor <==> p in partitions
    requires forall p :: p in cursor ==> cursor[p] == if p in startOffsets then startOffsets[p] else 0
    ensures cursor == StartingAt(partitions, startOffsets)
  {
    var all := StartingAt(partitions, startOffsets);
    forall p ensures p in cursor <==> p in all {
    }
    assert cursor.Keys == all.Keys;
    forall p | p in cursor ensures cursor[p] == all[p] {
    }
  }

  /** What one poll reads of one partition, and where it leaves that partition's cursor. */
  function PollChunk(t: Topic, p: int, cursor: int): seq<Record> {
    if p < 0 || p >= |t.partitions| then []
    else
      var part := t.partitions[p];
      var start := if cursor - part.begin < 0 then 0 else cursor - part.begin;
      if start >= |part.records| then [] else part.records[start..]
  }

  function PollCursor(t: Topic, p: int, cursor: int): int {
    if PollChunk(t, p, cursor) == [] then cursor else t.partitions[p].End()
  }

  ghost function ChunksInOrder(t: Topic, cursor: map<int, int>, order: seq<int>): seq<Record>
    requires forall p :: p in order ==> p in cursor
  {
    if order == [] then []
    else
      var last := order[|order| - 1];
      ChunksInOrder(t, cursor, order[..|order| - 1]) + PollChunk(t, last, cursor[last])
  }

  ghost predicate Orders(order: seq<int>, keys: set<int>) {
    && (forall p :: p in order <==> p in keys)
    && forall i, j :: 0 <= i < j < |order| ==> order[i] != order[j]
  }

  lemma ChunksSnoc(t: Topic, cursor: map<int, int>, order: seq<int>, p: int)
    requires p in cursor && forall q :: q in order ==> q in cursor
    ensures ChunksInOrder(t, cursor, order + [p]) == ChunksInOrder(t, cursor, order) + PollChunk(t, p, cursor[p])
  {
    assert (order + [p])[..|order|] == order;
  }

  /** A poll's answer: the assigned partitions' chunks, in whatever order the session's
      map is walked, with every cursor moved past what was read. */
  ghost predicate IsPoll(t: Topic, cursor: map<int, int>, out: seq<Record>, after: map<int, int>) {
    && after == (map p | p in cursor :: PollCursor(t, p, cursor[p]))
    && exists order :: Orders(order, cursor.Keys) && out == ChunksInOrder(t, cursor, order)
  }

  // A poll part of the way through its walk: what is read, and which cursors have moved.
  ghost predicate OutSoFar(t: Topic, cursor: map<int, int>, order: seq<int>, i: nat, out: seq<Record>) {
    i <= |order| && (forall p :: p in order ==> p in cursor) && out == ChunksInOrder(t, cursor, order[..i])
  }

  ghost predicate MovedSoFar(t: Topic, cursor: map<int, int>, order: seq<int>, i: nat, moved: map<int, int>) {
    && i <= |order| && Orders(order, cursor.Keys) && moved.Keys == cursor.Keys
    && forall j :: 0 <= j < |order| ==>
         && order[j] in cursor
         && moved[order[j]] == if j < i then PollCursor(t, order[j], cursor[order[j]]) else cursor[order[j]]
  }

  lemma OutOneMore(t: Topic, cursor: map<int, int>, order: seq<int>, i: nat, out: seq<Record>)
    requires i < |order| && OutSoFar(t, cursor, order, i, out)
    ensures OutSoFar(t, cursor, order, i + 1, out + PollChunk(t, order[i], cursor[order[i]]))
  {
    ChunksSnoc(t, cursor, order[..i], order[i]);
    assert order[..i + 1] == order[..i] + [order[i]];
  }

  lemma MovedOneMore(t: Topic, cursor: map<int, int>, order: seq<int>, i: nat, moved: map<int, int>)
    requires i < |order| && MovedSoFar(t, cursor, order, i, moved)
    ensures
      var p := order[i];
      && (PollChunk(t, p, cursor[p]) != [] ==>
            0 <= p < |t.partitions| && MovedSoFar(t, cursor, order, i + 1, moved[p := t.partitions[p].End()]))
      && (PollChunk(t, p, cursor[p]) == [] ==> MovedSoFar(t, cursor, order, i + 1, moved))
  {
  }

  lemma AllRead(t: Topic, cursor: map<int, int>, order: seq<int>, out: seq<Record>, moved: map<int, int>)
    requires OutSoFar(t, cursor, order, |order|, out) && MovedSoFar(t, cursor, order, |order|, moved)
    ensures IsPoll(t, cursor, out, moved)
  {
    hide ChunksInOrder, PollCursor;
    assert order[..|order|] == order;
    forall p | p in cursor ensures moved[p] == PollCursor(t, p, cursor[p]) {
      assert p in order;
      var j :| 0 <= j < |order| && order[j] == p;
    }
  }

  lemma ChunkProjects(topic: string, t: Topic, q: int, cursor: int, p: int)
    requires WellFormed(topic, t)
    ensures ForPartition(PollChunk(t, q, cursor), p) == if p == q then PollChunk(t, q, cursor) else []
  {
    var chunk := PollChunk(t, q, cursor);
    forall r | r in chunk ensures r.partition == q {
      assert Contiguous(topic, q, t.partitions[q]);
    }
    if p == q {
      ForPartitionOfOne(chunk, p);
    } else {
      ForPartitionOfOther(chunk, p);
    }
  }

  lemma {:induction false} ChunksProject(topic: string, t: Topic, cursor: map<int, int>, order: seq<int>, p: int)
    requires WellFormed(topic, t) && forall q :: q in order ==> q in cursor
    requires forall i, j :: 0 <= i < j < |order| ==> order[i] != order[j]
    ensures ForPartition(ChunksInOrder(t, cursor, order), p) ==
      if p in order then PollChunk(t, p, cursor[p]) else []
  {
    if order != [] {
      var init, last := order[..|order| - 1], order[|order| - 1];
      assert order == init + [last];
      ChunksProject(topic, t, cursor, init, p);
      ForPartitionJoins(ChunksInOrder(t, cursor, init), PollChunk(t, last, cursor[last]), p);
      ChunkProjects(topic, t, last, cursor[last], p);
    }
  }

  /** Per partition the order of the map walk does not matter. */
  lemma PollReadsEachPartition(topic: string, t: Topic, cursor: map<int, int>, out: seq<Record>, after: map<int, int>,
                               p: int)
    requires WellFormed(topic, t) && IsPoll(t, cursor, out, after)
    ensures ForPartition(out, p) == if p in cursor then PollChunk(t, p, cursor[p]) else []
  {
    var order :| Orders(order, cursor.Keys) && out == ChunksInOrder(t, cursor, order);
    ChunksProject(topic, t, cursor, order, p);
  }

  // ---- Configurations, topics and groups ----

  datatype ConfigChange = ConfigChange(name: string, value: Option<string>)

  function IndexOf(configs: seq<ConfigEntry>, name: string): (i: int)
    ensures -1 <= i < |configs|
    ensures i >= 0 ==> configs[i].name == name
    ensures forall j :: 0 <= j < (if i < 0 then |configs| else i) ==> configs[j].name != name
  {
    if configs == [] then -1
    else if configs[0].name == name then 0
    else
      var rest := IndexOf(configs[1..], name);
      if rest < 0 then -1 else rest + 1
  }

  function AlterOne(configs: seq<ConfigEntry>, ch: ConfigChange): seq<ConfigEntry> {
    var i := IndexOf(configs, ch.name);
    match ch.value
    case Some(v) =>
      var entry := ConfigEntry(ch.name, v, Dynamic);
      if i >= 0 then configs[i := entry] else configs + [entry]
    case None =>
      if i >= 0 then configs[i := configs[i].(source := Default)] else configs
  }

  /** Resetting a configuration keeps its value and makes it a default again; setting one
      makes it dynamic, at its place or, if it is new, at the end. The others stay. */
  lemma AlterOneIs(configs: seq<ConfigEntry>, ch: ConfigChange)
    requires UniqueNames(configs)
    ensures
      var after, known := AlterOne(configs, ch), exists i :: 0 <= i < |configs| && configs[i].name == ch.name;
      && |after| == (if ch.value.None? || known then |configs| else |configs| + 1)
      && (|after| > |configs| ==> after[|configs|] == ConfigEntry(ch.name, ch.value.value, Dynamic))
      && forall j :: 0 <= j < |configs| ==>
           after[j] ==
             if configs[j].name != ch.name then configs[j]
             else ConfigEntry(ch.name, if ch.value.Some? then ch.value.value else configs[j].value,
                              if ch.value.Some? then Dynamic else Default)
  {
    var i := IndexOf(configs, ch.name);
    assert forall j :: 0 <= j < |configs| && j != i ==> configs[j].name != ch.name;
  }

  function AlterAll(configs: seq<ConfigEntry>, changes: seq<ConfigChange>): seq<ConfigEntry> {
    if changes == [] then configs
    else AlterOne(AlterAll(configs, changes[..|changes| - 1]), changes[|changes| - 1])
  }

  datatype TopicSpec = TopicSpec(name: string, partitions: int, replicationFactor: int, configs: map<string, string>)

  /** A listing of a configuration map, in whatever order the map is walked. */
  ghost predicate Lists(configs: seq<ConfigEntry>, m: map<string, string>) {
    && (forall i :: 0 <= i < |configs| ==>
          configs[i].name in m && configs[i] == ConfigEntry(configs[i].name, m[configs[i].name], Dynamic))
    && (forall name :: name in m ==> exists i :: 0 <= i < |configs| && configs[i].name == name)
    && UniqueNames(configs)
  }

  ghost predicate UniqueNames(configs: seq<ConfigEntry>) {
    forall i, j :: 0 <= i < j < |configs| ==> configs[i].name != configs[j].name
  }

  /** One spec's creation: AlreadyExists without effect, or a new topic listing its configs. */
  ghost predicate Creates(topics: map<string, Topic>, spec: TopicSpec, validateOnly: bool,
                          after: map<string, Topic>, error: Option<Error>)
    requires spec.partitions >= 0
  {
    if spec.name in topics then after == topics && error == Some(AlreadyExists)
    else if validateOnly then after == topics && error == None
    else
      && error == None && spec.name in after && Lists(after[spec.name].configs, spec.configs)
      && after == topics[spec.name :=
           Topic(false, spec.replicationFactor, EmptyPartitions(spec.partitions), after[spec.name].configs)]
  }

  /** A spec's topic as created: empty partitions, and each configuration once. */
  ghost predicate IsNew(t: Topic, spec: TopicSpec)
    requires spec.partitions >= 0
  {
    && Lists(t.configs, spec.configs)
    && t == Topic(false, spec.replicationFactor, EmptyPartitions(spec.partitions), t.configs)
  }

  /** Whether spec i of a batch is refused: its name is taken, before or by an earlier spec. */
  ghost predicate IsTaken(before: map<string, Topic>, specs: seq<TopicSpec>, validateOnly: bool, i: nat)
    requires i < |specs|
  {
    specs[i].name in before || (!validateOnly && exists j :: 0 <= j < i && specs[j].name == specs[i].name)
  }

  // Nothing that was there changes, and what is added has a spec's name.
  ghost predicate OnlyAdds(before: map<string, Topic>, specs: seq<TopicSpec>, after: map<string, Topic>) {
    && (forall name :: name in before ==> name in after && after[name] == before[name])
    && forall name :: name in after && name !in before ==> exists i :: 0 <= i < |specs| && specs[i].name == name
  }

  // Each accepted spec's topic is as it says.
  ghost predicate Builds(specs: seq<TopicSpec>, errors: seq<Option<Error>>, after: map<string, Topic>)
    requires |errors| == |specs| && forall spec :: spec in specs ==> spec.partitions >= 0
  {
    forall i :: 0 <= i < |specs| && errors[i].None? ==> specs[i].name in after && IsNew(after[specs[i].name], specs[i])
  }

  /** A batch of creations: each spec answered for itself, nothing else touched. */
  ghost predicate CreatesAll(before: map<string, Topic>, specs: seq<TopicSpec>, validateOnly: bool,
                             after: map<string, Topic>, errors: seq<Option<Error>>)
    requires forall spec :: spec in specs ==> spec.partitions >= 0
  {
    && |errors| == |specs|
    && (forall i :: 0 <= i < |specs| ==>
          errors[i] == if IsTaken(before, specs, validateOnly, i) then Some(AlreadyExists) else None)
    && OnlyAdds(before, specs, after)
    && if validateOnly then after == before else Builds(specs, errors, after)
  }

  // One more spec of a batch.
  lemma BatchOneMore(before: map<string, Topic>, specs: seq<TopicSpec>, spec: TopicSpec, validateOnly: bool,
                     mid: map<string, Topic>, errors: seq<Option<Error>>, after: map<string, Topic>,
                     error: Option<Error>)
    requires forall other :: other in specs + [spec] ==> other.partitions >= 0
    requires (forall other :: other in specs ==> other in specs + [spec]) && spec in specs + [spec]
    requires CreatesAll(before, specs, validateOnly, mid, errors) && Creates(mid, spec, validateOnly, after, error)
    ensures CreatesAll(before, specs + [spec], validateOnly, after, errors + [error])
  {
    hide Lists, OnlyAdds, Builds, IsNew, IsTaken;
    var all, n := specs + [spec], |specs|;
    forall i | 0 <= i < n ensures IsTaken(before, all, validateOnly, i) <==> IsTaken(before, specs, validateOnly, i) {
      TakenEarlier(before, specs, spec, validateOnly, i);
    }
    TakenInMid(before, specs, spec, validateOnly, mid, errors);
    AddsOneMore(before, specs, spec, validateOnly, mid, after, error);
    if !validateOnly {
      BuildsOneMore(specs, spec, mid, errors, after, error);
    }
  }

  lemma TakenEarlier(before: map<string, Topic>, specs: seq<TopicSpec>, spec: TopicSpec, validateOnly: bool, i: nat)
    requires i < |specs|
    ensures IsTaken(before, specs + [spec], validateOnly, i) <==> IsTaken(before, specs, validateOnly, i)
  {
    var all := specs + [spec];
    assert forall j :: 0 <= j <= i ==> all[j] == specs[j];
  }

  lemma AddsOneMore(before: map<string, Topic>, specs: seq<TopicSpec>, spec: TopicSpec, validateOnly: bool,
                    mid: map<string, Topic>, after: map<string, Topic>, error: Option<Error>)
    requires spec.partitions >= 0 && OnlyAdds(before, specs, mid) && Creates(mid, spec, validateOnly, after, error)
    ensures OnlyAdds(before, specs + [spec], after)
  {
    hide Lists;
    var all, n := specs + [spec], |specs|;
    forall name | name in after && name !in before ensures exists i :: 0 <= i < |all| && all[i].name == name {
      if name in mid {
        var i :| 0 <= i < n && specs[i].name == name;
        assert all[i].name == name;
      } else {
        assert all[n].name == name;
      }
    }
  }

  lemma BuildsOneMore(specs: seq<TopicSpec>, spec: TopicSpec, mid: map<string, Topic>, errors: seq<Option<Error>>,
                      after: map<string, Topic>, error: Option<Error>)
    requires |errors| == |specs| && forall other :: other in specs + [spec] ==> other.partitions >= 0
    requires forall other :: other in specs ==> other in specs + [spec]
    requires spec.partitions >= 0 && Builds(specs, errors, mid) && Creates(mid, spec, false, after, error)
    ensures Builds(specs + [spec], errors + [error], after)
  {
    hide Lists;
    var all := specs + [spec];
    forall i | 0 <= i < |all| && (errors + [error])[i].None?
      ensures all[i].name in after && IsNew(after[all[i].name], all[i])
    {
      if i < |specs| {
        assert all[i] == specs[i] && IsNew(mid[specs[i].name], specs[i]);
      }
    }
  }

  // A batch's names so far are exactly those taken for the next spec.
  lemma TakenInMid(before: map<string, Topic>, specs: seq<TopicSpec>, spec: TopicSpec, validateOnly: bool,
                   mid: map<string, Topic>, errors: seq<Option<Error>>)
    requires forall other :: other in specs ==> other.partitions >= 0
    requires CreatesAll(before, specs, validateOnly, mid, errors)
    ensures spec.name in mid <==> IsTaken(before, specs + [spec], validateOnly, |specs|)
  {
    hide Lists;
    var all := specs + [spec];
    if spec.name in mid && spec.name !in before {
      var i :| 0 <= i < |specs| && specs[i].name == spec.name;
      assert all[i].name == spec.name;
    }
    if !validateOnly && exists j :: 0 <= j < |specs| && all[j].name == spec.name {
      var j :| 0 <= j < |specs| && all[j].name == spec.name;
      EachNameExists(before, specs, validateOnly, mid, errors, j);
    }
  }

  lemma {:induction false} EachNameExists(before: map<string, Topic>, specs: seq<TopicSpec>, validateOnly: bool,
                                          after: map<string, Topic>, errors: seq<Option<Error>>, i: nat)
    requires forall spec :: spec in specs ==> spec.partitions >= 0
    requires CreatesAll(before, specs, validateOnly, after, errors) && !validateOnly && i < |specs|
    ensures specs[i].name in after
  {
    hide Lists;
    if specs[i].name !in before && errors[i].Some? {
      var j :| 0 <= j < i && specs[j].name == specs[i].name;
      EachNameExists(before, specs, validateOnly, after, errors, j);
    }
  }

  /** A batch of one is that one creation. */
  lemma BatchOfOne(before: map<string, Topic>, spec: TopicSpec, validateOnly: bool, after: map<string, Topic>,
                   errors: seq<Option<Error>>)
    requires spec.partitions >= 0 && CreatesAll(before, [spec], validateOnly, after, errors)
    ensures |errors| == 1 && Creates(before, spec, validateOnly, after, errors[0])
  {
    hide Lists;
    var specs := [spec];
    assert IsTaken(before, specs, validateOnly, 0) <==> spec.name in before;
    if spec.name in before || validateOnly {
      assert after == before;
    } else {
      assert specs[0].name in after && IsNew(after[spec.name], specs[0]);
      assert after == before[spec.name := after[spec.name]];
    }
  }

  function Committed(groups: map<string, Group>, id: string, offsets: map<TopicPartition, int>): map<string, Group> {
    var before := if id in groups then groups[id] else Group(0, map[]);
    groups[id := before.(offsets := before.offsets + offsets)]
  }
}

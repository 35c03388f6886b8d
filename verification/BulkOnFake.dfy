/** Bulk produce on the in-memory cluster: what is reported is what is stored
    (internal/service/message/produce.go, internal/kafka/fake/producer.go). */
module BulkOnFake {
  import opened Kafka
  import opened Codec
  import opened FakeCluster
  import opened Bulk
  import opened ReplayDelivery
  import Audit

  /** One call of the closure: the topic as the call finds it takes one request and gives
      its answer; others may write before and after. */
  ghost predicate Takes(name: string, before: Topic, request: ProduceRequest, answer: CallAnswer, after: Topic) {
    answer.Answered? &&
    exists mid, clock: nat -> int ::
      var (landed, results) := ProduceAll(name, mid, [request], clock);
      WellFormed(name, mid) && Grows(before, mid) && results == [answer.result] && Grows(landed, after)
  }

  /** The whole bulk call: every item's request once, in order. */
  ghost predicate TakesAll(name: string, states: seq<Topic>, items: seq<ProduceItem>, answers: seq<CallAnswer>) {
    && |states| == |items| + 1 && |answers| == |items|
    && forall i :: 0 <= i < |items| ==> Takes(name, states[i], RequestOf(items[i]), answers[i], states[i + 1])
  }

  /** The bytes an item's texts encode. */
  ghost predicate IsMessage(r: Record, item: ProduceItem) {
    && EncodeValue(item.key, item.keyEncoding) == Ok(r.key)
    && EncodeValue(item.value, item.valueEncoding) == Ok(r.value)
    && |r.headers| == |item.headers|
    && forall i :: 0 <= i < |r.headers| ==>
         && r.headers[i].key == item.headers[i].key
         && EncodeValue(item.headers[i].value, item.headers[i].encoding) == Ok(r.headers[i].value)
  }

  lemma ValidItemEncodes(item: ProduceItem, count: nat, r: Record)
    requires Valid(item, count)
    requires r.key == RequestOf(item).key && r.value == RequestOf(item).value && r.headers == RequestOf(item).headers
    ensures IsMessage(r, item)
  {
    hide EncodeValue;
    forall i | 0 <= i < |item.headers| ensures Encodes(item.headers[i].value, item.headers[i].encoding) {
      assert item.headers[i] in item.headers;
    }
  }

  /** The report's partition and offset hold the item's own message, and the report's time
      is the stored one in milliseconds: the item's, when it gave one. */
  ghost predicate Holds(t: Topic, report: ItemReport, item: ProduceItem) {
    && 0 <= report.partition < |t.partitions|
    && (item.partition.Some? ==> report.partition == item.partition.value)
    && var part := t.partitions[report.partition];
       && part.begin <= report.offset < part.End()
       && var r := part.records[report.offset - part.begin];
          && IsMessage(r, item) && r.offset == report.offset && r.partition == report.partition
          && report.timestampMs == UnixMilli(r.timestamp)
          && (item.timestampMs.Some? && item.timestampMs.value * NANOS_PER_MILLI != ZERO_TIME ==>
                report.timestampMs == item.timestampMs.value)
  }

  lemma GrowthKeepsHolding(a: Topic, b: Topic, report: ItemReport, item: ProduceItem)
    requires Grows(a, b) && Holds(a, report, item)
    ensures Holds(b, report, item)
  {
    hide IsMessage;
    var p := report.partition;
    assert b.partitions[p].records[report.offset - b.partitions[p].begin]
      == a.partitions[p].records[report.offset - a.partitions[p].begin];
  }

  lemma GrowsOn(a: Topic, b: Topic, c: Topic)
    requires Grows(a, b) && Grows(b, c)
    ensures Grows(a, c)
  {
  }

  lemma Unmoved(a: Topic)
    ensures Grows(a, a)
  {
  }

  // The reported place was past the log's end.
  ghost predicate IsNewIn(t: Topic, report: ItemReport) {
    0 <= report.partition < |t.partitions| ==> t.partitions[report.partition].End() <= report.offset
  }

  lemma StoredIsHeld(name: string, mid: Topic, item: ProduceItem, count: nat, clock: nat -> int, result: ProduceResult,
                     landed: Topic, i: nat)
    requires ProduceAll(name, mid, [RequestOf(item)], clock) == (landed, [result]) && WellFormed(name, mid)
    requires Valid(item, count) && count <= |mid.partitions|
    ensures Grows(mid, landed) && WellFormed(name, landed)
    ensures count > 0 ==> result.Produced?
    ensures result.Produced? ==>
      Holds(landed, ReportOf(i, Answered(result)), item) && IsNewIn(mid, ReportOf(i, Answered(result)))
  {
    hide ProduceAll, Valid, IsMessage, EncodeValue, TextOf;
    var requests := [RequestOf(item)];
    ProduceOnlyAppends(name, mid, requests, clock);
    ProduceAnswersEach(name, mid, requests, clock, 0);
    ProduceKeepsInvariant(name, mid, requests, clock);
    ValidIsInRange(mid, item, count);
    if result.Produced? {
      var part := landed.partitions[result.partition];
      ValidItemEncodes(item, count, part.records[result.offset - part.begin]);
    }
  }

  lemma ValidIsInRange(t: Topic, item: ProduceItem, count: nat)
    requires Valid(item, count) && count <= |t.partitions|
    ensures RequestOf(item).partition == item.partition
    ensures count > 0 ==> 0 <= ChosenPartition(t, RequestOf(item)) < |t.partitions|
    ensures item.partition.Some? ==> ChosenPartition(t, RequestOf(item)) == item.partition.value
  {
    hide EncodeValue;
  }

  // One call, as its report tells it.
  lemma CallIsHeld(name: string, before: Topic, item: ProduceItem, count: nat, answer: CallAnswer, after: Topic, i: nat)
    requires Takes(name, before, RequestOf(item), answer, after) && Valid(item, count) && count <= |before.partitions|
    ensures Grows(before, after)
    ensures count > 0 ==> ReportOf(i, answer).outcome == Audit.Succeeded
    ensures ReportOf(i, answer).outcome == Audit.Succeeded ==>
      Holds(after, ReportOf(i, answer), item) && IsNewIn(before, ReportOf(i, answer))
  {
    hide ProduceAll, Valid, Holds, IsNewIn, Grows;
    var mid, clock: nat -> int :|
      var (landed, results) := ProduceAll(name, mid, [RequestOf(item)], clock);
      WellFormed(name, mid) && Grows(before, mid) && results == [answer.result] && Grows(landed, after);
    var landed := ProduceAll(name, mid, [RequestOf(item)], clock).0;
    GrowthKeepsCount(before, mid);
    StoredIsHeld(name, mid, item, count, clock, answer.result, landed, i);
    GrowsOn(before, mid, landed);
    GrowsOn(before, landed, after);
    if answer.result.Produced? {
      GrowthKeepsHolding(landed, after, ReportOf(i, answer), item);
      NewBefore(before, mid, ReportOf(i, answer));
    }
  }

  lemma GrowthKeepsCount(a: Topic, b: Topic)
    requires Grows(a, b)
    ensures |a.partitions| <= |b.partitions|
  {
  }

  lemma NewBefore(a: Topic, b: Topic, report: ItemReport)
    requires Grows(a, b) && IsNewIn(b, report)
    ensures IsNewIn(a, report)
  {
  }

  lemma {:induction false} StatesGrow(name: string, states: seq<Topic>, items: seq<ProduceItem>,
                                      answers: seq<CallAnswer>, count: nat, i: nat, j: nat)
    requires TakesAll(name, states, items, answers) && (forall item :: item in items ==> Valid(item, count))
    requires count <= |states[0].partitions| && i <= j <= |items|
    ensures Grows(states[i], states[j]) && count <= |states[j].partitions|
    decreases j
  {
    hide Takes, Valid, Grows;
    if j > 0 {
      StatesGrow(name, states, items, answers, count, if i < j then i else j - 1, j - 1);
      assert items[j - 1] in items;
      CallIsHeld(name, states[j - 1], items[j - 1], count, answers[j - 1], states[j], j - 1);
      GrowthKeepsCount(states[j - 1], states[j]);
      if i < j {
        GrowsOn(states[i], states[j - 1], states[j]);
      }
    }
    Unmoved(states[j]);
  }

  /** What was executed, as the command reports it. */
  ghost predicate Reported(answers: seq<CallAnswer>, reports: seq<ItemReport>) {
    |reports| == |answers| && forall i :: 0 <= i < |answers| ==> reports[i] == ReportOf(i, answers[i])
  }

  /** Validated against a topic with partitions, every item succeeds; and at the end, with
      whatever others wrote in between, the partition and offset reported for each
      succeeded item hold that item's own message. */
  lemma ReportedIsStored(name: string, states: seq<Topic>, items: seq<ProduceItem>, answers: seq<CallAnswer>,
                         reports: seq<ItemReport>, count: nat, i: nat)
    requires TakesAll(name, states, items, answers) && (forall item :: item in items ==> Valid(item, count))
    requires count <= |states[0].partitions| && Reported(answers, reports) && i < |items|
    ensures count > 0 ==> reports[i].outcome == Audit.Succeeded
    ensures reports[i].outcome == Audit.Succeeded ==>
      Holds(states[|items|], reports[i], items[i]) && IsNewIn(states[i], reports[i])
  {
    hide Takes, Valid, Grows, Holds, IsNewIn;
    assert items[i] in items;
    StatesGrow(name, states, items, answers, count, 0, i);
    StatesGrow(name, states, items, answers, count, i + 1, |items|);
    CallIsHeld(name, states[i], items[i], count, answers[i], states[i + 1], i);
    if reports[i].outcome == Audit.Succeeded {
      GrowthKeepsHolding(states[i + 1], states[|items|], reports[i], items[i]);
    }
  }

  /** No two succeeded items share a place. */
  lemma PlacesAreDistinct(name: string, states: seq<Topic>, items: seq<ProduceItem>, answers: seq<CallAnswer>,
                          reports: seq<ItemReport>, count: nat, i: nat, j: nat)
    requires TakesAll(name, states, items, answers) && (forall item :: item in items ==> Valid(item, count))
    requires count <= |states[0].partitions| && Reported(answers, reports) && i < j < |items|
    requires reports[i].outcome == reports[j].outcome == Audit.Succeeded
    ensures reports[i].partition == reports[j].partition ==> reports[i].offset < reports[j].offset
  {
    hide Takes, Valid, Grows, IsMessage;
    assert items[i] in items && items[j] in items;
    StatesGrow(name, states, items, answers, count, 0, i);
    StatesGrow(name, states, items, answers, count, i + 1, j);
    CallIsHeld(name, states[i], items[i], count, answers[i], states[i + 1], i);
    GrowthKeepsHolding(states[i + 1], states[j], reports[i], items[i]);
    StatesGrow(name, states, items, answers, count, 0, j);
    CallIsHeld(name, states[j], items[j], count, answers[j], states[j + 1], j);
  }
}

/** Bulk produce: validate everything, then execute independently
    (internal/service/core/bulk.go, internal/service/message/produce.go). */
module Bulk {
  import opened Kafka
  import opened Codec
  import opened FakeCluster
  import opened Audit

  datatype ProduceItem = ProduceItem(
    key: Bytes, keyEncoding: string, value: Bytes, valueEncoding: string, headers: seq<ItemHeader>,
    partition: Option<int>, timestampMs: Option<int>)

  datatype ItemResult = ItemResult(index: nat, outcome: Disposition, error: Option<Error>)
  datatype Summary = Summary(total: nat, succeeded: nat, failed: nat)

  datatype ItemReport = ItemReport(
    index: nat, outcome: Disposition, partition: int, offset: int, timestampMs: int, error: Option<Error>)

  /** What the producer answers to a one-record call. */
  datatype CallAnswer = CallFailed(error: Error) | Answered(result: ProduceResult)

  datatype Reply =
    | Invalid(failed: seq<ItemResult>)
    | Unaudited
    | Ran(items: seq<ItemReport>, summary: Summary)

  predicate Encodes(text: Bytes, encoding: string) { EncodeValue(text, encoding).Ok? }

  /** An item is valid when all its texts encode and its partition, if given, exists. */
  predicate Valid(item: ProduceItem, count: nat) {
    && Encodes(item.key, item.keyEncoding) && Encodes(item.value, item.valueEncoding)
    && (forall h :: h in item.headers ==> Encodes(h.value, h.encoding))
    && (item.partition.Some? ==> 0 <= item.partition.value < count)
  }

  method Validate(item: ProduceItem, count: nat) returns (error: Option<Error>)
    ensures error.None? <==> Valid(item, count)
    ensures error.Some? ==> error.value == Validation
  {
    if !Encodes(item.key, item.keyEncoding) || !Encodes(item.value, item.valueEncoding) {
      return Some(Validation);
    }
    for i := 0 to |item.headers|
      invariant forall j :: 0 <= j < i ==> Encodes(item.headers[j].value, item.headers[j].encoding)
    {
      if !Encodes(item.headers[i].value, item.headers[i].encoding) {
        return Some(Validation);
      }
    }
    if item.partition.Some? && !(0 <= item.partition.value < count) {
      return Some(Validation);
    }
    return None;
  }

  /** BulkValidate: the failed list is exactly the failing indices, ascending. */
  method BulkValidate(items: seq<ProduceItem>, count: nat) returns (failed: seq<ItemResult>, ok: bool)
    ensures ok <==> forall item :: item in items ==> Valid(item, count)
    ensures ok <==> failed == []
    ensures forall i :: 0 <= i < |items| ==>
      (!Valid(items[i], count) <==> exists k :: 0 <= k < |failed| && failed[k].index == i)
    ensures forall k :: 0 <= k < |failed| ==>
      failed[k].index < |items| && failed[k].outcome == Failed && failed[k].error.Some?
    ensures forall j, k :: 0 <= j < k < |failed| ==> failed[j].index < failed[k].index
  {
    hide Encodes;
    failed := [];
    for i := 0 to |items|
      invariant ListsInvalid(items, count, i, failed)
    {
      var error := Validate(items[i], count);
      if error.Some? {
        ListsOneMore(items, count, i, failed, ItemResult(i, Failed, error));
        failed := failed + [ItemResult(i, Failed, error)];
      }
    }
    ok := failed == [];
    assert failed != [] ==> !Valid(items[failed[0].index], count);
  }

  // The failures among the first i items: each invalid one, ascending, and no other.
  ghost predicate ListsInvalid(items: seq<ProduceItem>, count: nat, i: nat, failed: seq<ItemResult>)
    requires i <= |items|
  {
    && (forall j :: 0 <= j < i && !Valid(items[j], count) ==> exists k :: 0 <= k < |failed| && failed[k].index == j)
    && (forall k :: 0 <= k < |failed| ==> IsFailure(items, count, i, failed[k]))
    && (forall j, k :: 0 <= j < k < |failed| ==> failed[j].index < failed[k].index)
  }

  ghost predicate IsFailure(items: seq<ProduceItem>, count: nat, i: nat, f: ItemResult)
    requires i <= |items|
  {
    f.index < i && !Valid(items[f.index], count) && f.outcome == Failed && f.error.Some?
  }

  lemma ListsOneMore(items: seq<ProduceItem>, count: nat, i: nat, failed: seq<ItemResult>, f: ItemResult)
    requires i < |items| && ListsInvalid(items, count, i, failed) && f.index == i && IsFailure(items, count, i + 1, f)
    ensures ListsInvalid(items, count, i + 1, failed + [f])
  {
    hide Valid;
    var after := failed + [f];
    forall j | 0 <= j < i + 1 && !Valid(items[j], count) ensures exists k :: 0 <= k < |after| && after[k].index == j {
      if j == i {
        assert after[|failed|].index == j;
      } else {
        var k :| 0 <= k < |failed| && failed[k].index == j;
        assert after[k].index == j;
      }
    }
  }

  function TextOf(text: Bytes, encoding: string): Bytes {
    match EncodeValue(text, encoding) case Ok(b) => b case Err(_) => []
  }

  function RequestOf(item: ProduceItem): ProduceRequest {
    ProduceRequest(
      TextOf(item.key, item.keyEncoding), TextOf(item.value, item.valueEncoding),
      seq(|item.headers|, i requires 0 <= i < |item.headers| =>
        Header(item.headers[i].key, TextOf(item.headers[i].value, item.headers[i].encoding))),
      item.partition,
      if item.timestampMs.Some? then item.timestampMs.value * NANOS_PER_MILLI else ZERO_TIME)
  }

  // ---- What a bulk produce reports ----

  function ErrorOf(answer: CallAnswer): Option<Error> {
    match answer
    case CallFailed(e) => Some(e)
    case Answered(Rejected(e)) => Some(e)
    case Answered(Produced(_, _, _)) => None
  }

  function UnixMilli(nanos: int): int { nanos / NANOS_PER_MILLI }

  /** Item i's report is about the producer's answer to item i and no other. */
  function ReportOf(i: nat, answer: CallAnswer): ItemReport {
    match answer
    case Answered(Produced(p, o, ts)) => ItemReport(i, Succeeded, p, o, UnixMilli(ts), None)
    case _ => ItemReport(i, Failed, 0, 0, 0, ErrorOf(answer))
  }

  function CountFailed(answers: seq<CallAnswer>): (n: nat)
    ensures n <= |answers|
  {
    if answers == [] then 0
    else CountFailed(answers[..|answers| - 1]) + if ErrorOf(answers[|answers| - 1]).Some? then 1 else 0
  }

  /** The producer service while one bulk call runs: what the closure captures. */
  class BulkProduce {
    const auditor: Auditor
    const answers: seq<CallAnswer>       // whatever the producer will answer, call by call
    var sent: seq<ProduceRequest>
    var produced: array<Option<ProduceResult>>
    var next: nat

    constructor (auditor: Auditor, answers: seq<CallAnswer>)
      ensures this.auditor == auditor && this.answers == answers && sent == [] && next == 0
      ensures fresh(produced) && produced.Length == 0
    {
      this.auditor, this.answers, sent, next := auditor, answers, [], 0;
      produced := new Option<ProduceResult>[0];
    }

    // The execute closure: it takes the next index before it calls the producer.
    method ExecuteItem(item: ProduceItem) returns (error: Option<Error>)
      requires next < |answers| && next < produced.Length && |sent| == next
      modifies this`next, this`sent, produced
      ensures next == old(next) + 1 && sent == old(sent) + [RequestOf(item)]
      ensures error == ErrorOf(answers[old(next)])
      ensures produced[old(next)] ==
        if answers[old(next)].Answered? then Some(answers[old(next)].result) else old(produced[next])
      ensures forall j :: 0 <= j < produced.Length && j != old(next) ==> produced[j] == old(produced[j])
    {
      var idx := next;
      next := next + 1;
      sent := sent + [RequestOf(item)];
      var answer := answers[idx];
      if answer.CallFailed? {
        return Some(answer.error);
      }
      produced[idx] := Some(answer.result);
      return if answer.result.Rejected? then Some(answer.result.error) else None;
    }

    // BulkExecute: one item's failure never stops the others.
    method BulkExecute(items: seq<ProduceItem>) returns (results: seq<ItemResult>, summary: Summary)
      requires next == 0 && sent == [] && produced.Length == |items| <= |answers|
      modifies this`next, this`sent, produced
      ensures next == |items| && |sent| == |items| && forall i :: 0 <= i < |items| ==> sent[i] == RequestOf(items[i])
      ensures |results| == |items|
      ensures forall i :: 0 <= i < |items| ==>
        results[i] == ItemResult(i, if ErrorOf(answers[i]).Some? then Failed else Succeeded, ErrorOf(answers[i]))
        && (answers[i].Answered? ==> produced[i] == Some(answers[i].result))
      ensures summary.total == |items| && summary.failed == CountFailed(answers[..|items|])
      ensures summary.succeeded + summary.failed == summary.total
    {
      results, summary := [], Summary(|items|, 0, 0);
      for i := 0 to |items|
        invariant next == i && |sent| == i && |results| == i
        invariant forall j :: 0 <= j < i ==> sent[j] == RequestOf(items[j])
        invariant forall j :: 0 <= j < i ==>
          results[j] == ItemResult(j, if ErrorOf(answers[j]).Some? then Failed else Succeeded, ErrorOf(answers[j]))
          && (answers[j].Answered? ==> produced[j] == Some(answers[j].result))
        invariant summary.total == |items| && summary.failed == CountFailed(answers[..i])
        invariant summary.succeeded + summary.failed == i
      {
        assert answers[..i + 1][..i] == answers[..i];
        var error := ExecuteItem(items[i]);
        if error.Some? {
          results := results + [ItemResult(i, Failed, error)];
          summary := summary.(failed := summary.failed + 1);
        } else {
          results := results + [ItemResult(i, Succeeded, None)];
          summary := summary.(succeeded := summary.succeeded + 1);
        }
      }
    }

    /** The whole command after its gate. Any invalid item: nothing executes, nothing is
        audited, and the reply lists exactly the failing items. A refused ATTEMPT: nothing
        executes. Otherwise every item executes once, in order, and is reported for itself. */
    method Produce(items: seq<ProduceItem>, count: nat, attempt: Event) returns (reply: Reply)
      requires next == 0 && sent == [] && |items| <= |answers|
      modifies this, auditor
      ensures reply.Invalid? <==> exists item :: item in items && !Valid(item, count)
      ensures reply.Invalid? ==>
        && sent == [] && auditor.history == old(auditor.history)
        && (forall i :: 0 <= i < |items| ==>
              (!Valid(items[i], count) <==> exists k :: 0 <= k < |reply.failed| && reply.failed[k].index == i))
        && forall j, k :: 0 <= j < k < |reply.failed| ==> reply.failed[j].index < reply.failed[k].index
      ensures !reply.Invalid? ==>
        var attempts := AttemptWrites(auditor.sinks, auditor.accepts, old(|auditor.history|),
                                      attempt.(phase := Attempt), 0);
        if !AllAccepted(attempts) then
          reply == Unaudited && sent == [] && auditor.history == old(auditor.history) + attempts
        else
          && reply.Ran?
          && |sent| == |items| && (forall i :: 0 <= i < |items| ==> sent[i] == RequestOf(items[i]))
          && |reply.items| == |items| && (forall i :: 0 <= i < |items| ==> reply.items[i] == ReportOf(i, answers[i]))
          && reply.summary.total == |items| == reply.summary.succeeded + reply.summary.failed
          && reply.summary.failed == CountFailed(answers[..|items|])
          && auditor.history == old(auditor.history) + attempts
             + ResultWrites(auditor.sinks, auditor.accepts, old(|auditor.history|) + |attempts|,
                            ResultEvent(attempt, if reply.summary.failed > 0 then Failed else Succeeded, None), 0)
    {
      var failed, ok := BulkValidate(items, count);
      if !ok {
        return Invalid(failed);
      }
      produced := new Option<ProduceResult>[|items|](i => None);
      var accepted := auditor.WriteAttempt(attempt);
      if !accepted {
        return Unaudited;
      }
      var results, summary := BulkExecute(items);
      auditor.WriteResult(ResultEvent(attempt, if summary.failed > 0 then Failed else Succeeded, None));
      var out := Reports(results);
      return Ran(out, summary);
    }

    // toProduceResult: a succeeded item takes partition, offset and time from what the
    // closure captured under the same index.
    method Reports(results: seq<ItemResult>) returns (out: seq<ItemReport>)
      requires |results| == produced.Length <= |answers|
      requires forall i :: 0 <= i < |results| ==>
        results[i] == ItemResult(i, if ErrorOf(answers[i]).Some? then Failed else Succeeded, ErrorOf(answers[i]))
        && (answers[i].Answered? ==> produced[i] == Some(answers[i].result))
      ensures |out| == |results| && forall i :: 0 <= i < |results| ==> out[i] == ReportOf(i, answers[i])
    {
      out := [];
      for i := 0 to |results|
        invariant |out| == i && forall j :: 0 <= j < i ==> out[j] == ReportOf(j, answers[j])
      {
        var report := ItemReport(results[i].index, results[i].outcome, 0, 0, 0, results[i].error);
        if results[i].outcome == Succeeded {
          var result := produced[i].value;
          report := report.(partition := result.partition, offset := result.offset,
                            timestampMs := UnixMilli(result.timestamp));
        }
        out := out + [report];
      }
    }
  }

  function FailedIndices(reports: seq<ItemReport>): set<int> {
    set i | 0 <= i < |reports| && reports[i].outcome == Failed
  }

  /** The summary's failed count is the number of items reported failed. */
  lemma {:induction false} FailuresAreCounted(answers: seq<CallAnswer>, reports: seq<ItemReport>)
    requires |reports| == |answers| && forall i :: 0 <= i < |answers| ==> reports[i] == ReportOf(i, answers[i])
    ensures |FailedIndices(reports)| == CountFailed(answers)
  {
    if answers != [] {
      var n := |answers| - 1;
      FailuresAreCounted(answers[..n], reports[..n]);
      FailedSnoc(reports);
      assert reports[n] == ReportOf(n, answers[n]);
    }
  }

  lemma FailedSnoc(reports: seq<ItemReport>)
    requires reports != []
    ensures
      var n := |reports| - 1;
      |FailedIndices(reports)| == |FailedIndices(reports[..n])| + if reports[n].outcome == Failed then 1 else 0
  {
    var n := |reports| - 1;
    var before := FailedIndices(reports[..n]);
    assert FailedIndices(reports) == if reports[n].outcome == Failed then before + {n} else before;
  }

  /** A succeeded item's partition and offset are the producer's for that same item, and a
      failed one's error is what the producer said to it. */
  lemma SuccessesAreTheProducers(answers: seq<CallAnswer>, reports: seq<ItemReport>, i: nat)
    requires |reports| == |answers| && forall j :: 0 <= j < |answers| ==> reports[j] == ReportOf(j, answers[j])
    requires i < |answers|
    ensures reports[i].index == i
    ensures reports[i].outcome == Succeeded <==> answers[i].Answered? && answers[i].result.Produced?
    ensures reports[i].outcome == Succeeded ==>
      && answers[i].result.partition == reports[i].partition && answers[i].result.offset == reports[i].offset
      && 0 <= answers[i].result.timestamp - reports[i].timestampMs * NANOS_PER_MILLI < NANOS_PER_MILLI
      && reports[i].error == None
    ensures reports[i].outcome != Succeeded ==>
      && reports[i].outcome == Failed && reports[i].partition == reports[i].offset == reports[i].timestampMs == 0
      && reports[i].error.Some?
      && (answers[i].CallFailed? ==> reports[i].error.value == answers[i].error)
      && (answers[i].Answered? ==> answers[i].result == ProduceResult.Rejected(reports[i].error.value))
  {
  }
}

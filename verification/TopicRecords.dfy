/** Deleting a topic's records up to given offsets, and purging it
    (internal/service/topic/delete.go). */
module TopicRecords {
  import opened Kafka
  import opened FakeCluster
  import opened FakeServer
  import opened Maps
  import opened TpOrder

  datatype Detail = Detail(partition: int, beginOffset: int, truncateTo: int, affected: int)
  datatype Plan = Plan(topic: string, partitions: seq<Detail>)

  predicate Truncatable(t: Topic, offsets: map<int, int>) {
    forall p :: p in offsets ==> 0 <= p < |t.partitions| && offsets[p] <= t.partitions[p].End()
  }

  function DetailOf(t: Topic, p: int, at: int): Detail
    requires 0 <= p < |t.partitions|
  {
    var begin := t.partitions[p].begin;
    Detail(p, begin, at, if at - begin < 0 then 0 else at - begin)
  }

  ghost predicate IsDetail(t: Topic, offsets: map<int, int>, p: int, d: Detail) {
    && p in offsets && 0 <= p < |t.partitions| && offsets[p] <= t.partitions[p].End()
    && d == DetailOf(t, p, offsets[p])
  }

  ghost predicate IsPlan(name: string, t: Topic, offsets: map<int, int>, plan: Plan)
    requires Truncatable(t, offsets)
  {
    && plan.topic == name
    && (forall i, j :: 0 <= i < j < |plan.partitions| ==> plan.partitions[i].partition < plan.partitions[j].partition)
    && (forall d :: d in plan.partitions ==>
         d.partition in offsets && d == DetailOf(t, d.partition, offsets[d.partition]))
    && (forall p :: p in offsets ==> DetailOf(t, p, offsets[p]) in plan.partitions)
  }

  method PlanDeleteRecords(admin: Fake, name: string, offsets: map<int, int>) returns (r: Result<Plan>)
    ensures name !in admin.topics ==> r == Err(NotFound)
    ensures name in admin.topics && !Truncatable(admin.topics[name], offsets) ==> r == Err(Validation)
    ensures name in admin.topics && Truncatable(admin.topics[name], offsets) ==>
      r.Ok? && IsPlan(name, admin.topics[name], offsets, r.value)
  {
    var begin := admin.ListStartOffsets(name);
    var end := admin.ListEndOffsets(name);
    if begin.Err? || end.Err? {
      return Err(NotFound);
    }
    ghost var t := admin.topics[name];
    var keys := KeysOf(offsets);
    var unsorted := seq(|keys|, i requires 0 <= i < |keys| => TopicPartition(name, keys[i]));
    forall p | p in offsets ensures TopicPartition(name, p) in unsorted {
      var i :| 0 <= i < |keys| && keys[i] == p;
      assert unsorted[i] == TopicPartition(name, p);
    }
    var tps := SortPartitions(unsorted);
    var details: seq<Detail> := [];
    for i := 0 to |tps|
      invariant |details| == i
      invariant forall j :: 0 <= j < i ==> IsDetail(t, offsets, tps[j].partition, details[j])
    {
      var p := tps[i].partition;
      assert tps[i] in tps;
      if p !in end.value || offsets[p] > end.value[p] {
        return Err(Validation);
      }
      var affected := offsets[p] - begin.value[p];
      if affected < 0 {
        affected := 0;
      }
      details := details + [Detail(p, begin.value[p], offsets[p], affected)];
    }
    PlanCovers(name, t, offsets, tps, details);
    return Ok(Plan(name, details));
  }

  lemma PlanCovers(name: string, t: Topic, offsets: map<int, int>, tps: seq<TopicPartition>, details: seq<Detail>)
    requires |details| == |tps| && forall tp :: tp in tps <==> tp.topic == name && tp.partition in offsets
    requires forall i, j :: 0 <= i < j < |tps| ==> TpLess(tps[i], tps[j])
    requires forall j :: 0 <= j < |tps| ==> IsDetail(t, offsets, tps[j].partition, details[j])
    ensures Truncatable(t, offsets) && IsPlan(name, t, offsets, Plan(name, details))
  {
    forall p | p in offsets
      ensures 0 <= p < |t.partitions| && offsets[p] <= t.partitions[p].End() && DetailOf(t, p, offsets[p]) in details
    {
      assert TopicPartition(name, p) in tps;
      var j :| 0 <= j < |tps| && tps[j] == TopicPartition(name, p);
      assert details[j] in details;
    }
    assert forall i :: 0 <= i < |tps| ==> tps[i] in tps;
  }

  /** Every partition up to its current end. */
  method PlanPurge(admin: Fake, name: string) returns (r: Result<Plan>)
    ensures name !in admin.topics ==> r == Err(NotFound)
    ensures name in admin.topics ==>
      var t := admin.topics[name];
      r.Ok? && Truncatable(t, EndOffsets(t)) && IsPlan(name, t, EndOffsets(t), r.value)
  {
    var end := admin.ListEndOffsets(name);
    if end.Err? {
      return Err(NotFound);
    }
    r := PlanDeleteRecords(admin, name, end.value);
  }

  function Cuts(details: seq<Detail>): map<int, int> {
    if details == [] then map[]
    else Cuts(details[..|details| - 1])[details[|details| - 1].partition := details[|details| - 1].truncateTo]
  }

  method ApplyDeleteRecords(admin: Fake, plan: Plan) returns (r: Result<seq<(int, int)>>)
    modifies admin`topics
    ensures plan.topic !in old(admin.topics) ==> r == Err(NotFound)
    ensures plan.topic in old(admin.topics) ==>
      (r.Ok? <==> Truncatable(old(admin.topics)[plan.topic], Cuts(plan.partitions)))
    ensures admin.topics ==
      if r.Ok? then old(admin.topics)[plan.topic := TruncateAll(old(admin.topics)[plan.topic], Cuts(plan.partitions))]
      else old(admin.topics)
    ensures r.Ok? ==>
      && plan.topic in admin.topics
      && CutsExactly(plan.topic, old(admin.topics)[plan.topic], admin.topics[plan.topic], Cuts(plan.partitions))
    ensures r.Ok? ==>
      && (forall i, j :: 0 <= i < j < |r.value| ==> r.value[i].0 < r.value[j].0)
      && forall p, at :: (p, at) in r.value <==> p in Cuts(plan.partitions) && Cuts(plan.partitions)[p] == at
  {
    var truncateTo := map[];
    for i := 0 to |plan.partitions|
      invariant truncateTo == Cuts(plan.partitions[..i])
    {
      assert plan.partitions[..i + 1][..i] == plan.partitions[..i];
      truncateTo := truncateTo[plan.partitions[i].partition := plan.partitions[i].truncateTo];
    }
    assert plan.partitions[..|plan.partitions|] == plan.partitions;
    r := admin.DeleteRecords(plan.topic, truncateTo);
  }

  // ---- What deletion does ----

  lemma {:induction false} CutsAre(details: seq<Detail>, p: int)
    ensures p in Cuts(details) <==> exists d :: d in details && d.partition == p
    ensures p in Cuts(details) ==> exists d :: d in details && d.partition == p && d.truncateTo == Cuts(details)[p]
  {
    if details != [] {
      var n := |details| - 1;
      CutsAre(details[..n], p);
      assert details == details[..n] + [details[n]];
      assert details[n] in details;
    }
  }

  /** A plan applied to the cluster it was made for cuts exactly where it was asked to. */
  lemma PlanCutsAsAsked(name: string, t: Topic, offsets: map<int, int>, plan: Plan)
    requires Truncatable(t, offsets) && IsPlan(name, t, offsets, plan)
    ensures Cuts(plan.partitions) == offsets
  {
    forall p ensures p in Cuts(plan.partitions) <==> p in offsets {
      CutsAre(plan.partitions, p);
      if p in offsets {
        assert DetailOf(t, p, offsets[p]) in plan.partitions;
      }
    }
    forall p | p in offsets ensures Cuts(plan.partitions)[p] == offsets[p] {
      CutsAre(plan.partitions, p);
    }
  }

  /** Planned and applied, a deletion touches the partitions asked for and nothing else:
      each begins at its target with exactly its records from there on. */
  lemma PlanThenApplyCuts(name: string, t: Topic, offsets: map<int, int>, plan: Plan)
    requires Truncatable(t, offsets) && IsPlan(name, t, offsets, plan)
    ensures Truncatable(t, Cuts(plan.partitions))
    ensures CutsExactly(name, t, TruncateAll(t, Cuts(plan.partitions)), offsets)
  {
    PlanCutsAsAsked(name, t, offsets, plan);
    TruncateAllIsExact(name, t, offsets);
  }

  /** The number of records a plan calls approximately affected is exactly the number
      that applying it removes, for every target it accepts. */
  lemma AffectedIsExact(name: string, t: Topic, offsets: map<int, int>, plan: Plan, d: Detail)
    requires WellFormed(name, t) && Truncatable(t, offsets) && IsPlan(name, t, offsets, plan) && d in plan.partitions
    ensures
      var before, after := t.partitions[d.partition], TruncateAll(t, Cuts(plan.partitions)).partitions[d.partition];
      && d.affected == |before.records| - |after.records| && after.begin == d.truncateTo
      && d.beginOffset == before.begin && d.partition in offsets && d.truncateTo == offsets[d.partition]
  {
    PlanCutsAsAsked(name, t, offsets, plan);
    KeptIsSuffix(name, d.partition, t.partitions[d.partition], offsets[d.partition]);
  }

  /** A purge, planned and applied on one cluster, is never refused and leaves every
      partition empty, beginning where it ended, its invariant intact. */
  lemma PurgeEmptiesEverything(name: string, t: Topic, plan: Plan)
    requires WellFormed(name, t) && Truncatable(t, EndOffsets(t)) && IsPlan(name, t, EndOffsets(t), plan)
    ensures Truncatable(t, Cuts(plan.partitions))
    ensures
      var after := TruncateAll(t, Cuts(plan.partitions));
      && WellFormed(name, after)
      && forall p :: 0 <= p < |t.partitions| ==> after.partitions[p] == Partition(t.partitions[p].End(), [])
  {
    PlanCutsAsAsked(name, t, EndOffsets(t), plan);
    forall p | 0 <= p < |t.partitions| ensures Truncate(t.partitions[p], t.partitions[p].End()).records == [] {
      KeptIsSuffix(name, p, t.partitions[p], t.partitions[p].End());
    }
  }
}

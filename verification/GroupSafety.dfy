/** Offset moves are exact, and what they do to lag (internal/service/group). */
module GroupSafety {
  import opened Kafka
  import opened FakeCluster
  import opened GroupOffsets
  import opened Logs
  import WindowMeaning

  // ---- What a plan commits ----

  lemma {:induction false} MovesMapIs(moves: seq<Move>, tp: TopicPartition)
    ensures tp in MovesMap(moves) <==> exists m :: m in moves && m.tp == tp
    ensures tp in MovesMap(moves) ==> exists m :: m in moves && m.tp == tp && m.body.after == MovesMap(moves)[tp]
  {
    if moves != [] {
      var n := |moves| - 1;
      MovesMapIs(moves[..n], tp);
      assert moves == moves[..n] + [moves[n]];
      assert moves[n] in moves;
    }
  }

  /** The group's commits afterwards: the planned value on the plan's partitions, what was
      there everywhere else; and no other group changes. */
  ghost predicate MovesExactly(before: map<string, Group>, id: string, after: map<string, Group>,
                               moved: TopicPartition -> bool, to: TopicPartition -> int)
  {
    && after.Keys == before.Keys + {id}
    && after[id].members == (if id in before then before[id].members else 0)
    && (forall other :: other in before && other != id ==> after[other] == before[other])
    && var was, now := CommittedBy(before, id), CommittedBy(after, id);
       forall tp :: if moved(tp) then tp in now && now[tp] == to(tp)
                    else (tp in now <==> tp in was) && (tp in now ==> now[tp] == was[tp])
  }

  lemma CommitMovesExactly(before: map<string, Group>, plan: OffsetPlan, moved: TopicPartition -> bool,
                           to: TopicPartition -> int)
    requires forall tp :: moved(tp) <==> exists m :: m in plan.moves && m.tp == tp
    requires forall m :: m in plan.moves ==> m.body.after == to(m.tp)
    ensures MovesExactly(before, plan.group, Committed(before, plan.group, MovesMap(plan.moves)), moved, to)
  {
    forall tp ensures tp in MovesMap(plan.moves) <==> moved(tp) {
      MovesMapIs(plan.moves, tp);
    }
    forall tp | moved(tp) ensures MovesMap(plan.moves)[tp] == to(tp) {
      MovesMapIs(plan.moves, tp);
    }
  }

  /** A reset, planned and applied on one cluster, commits the new offset of every
      partition in scope and touches no other commit of any group. */
  lemma ResetIsExact(topics: map<string, Topic>, groups: map<string, Group>, id: string, target: ResetTarget,
                     names: seq<string>, plan: OffsetPlan)
    requires IsResetPlan(topics, groups, id, target, names, plan)
    ensures MovesExactly(groups, id, Committed(groups, id, MovesMap(plan.moves)),
                         tp => InScope(topics, target, names, CommittedBy(groups, id), tp),
                         tp => NewOffset(topics, target, tp))
  {
    var committed := CommittedBy(groups, id);
    var moved := tp => InScope(topics, target, names, committed, tp);
    var to := tp => NewOffset(topics, target, tp);
    forall tp ensures moved(tp) <==> exists m :: m in plan.moves && m.tp == tp {
      if moved(tp) {
        assert MoveOf(topics, target, committed, tp) in plan.moves;
      }
    }
    CommitMovesExactly(groups, plan, moved, to);
  }

  /** A clone copies the source's commits on the scope, and only those. */
  lemma CloneIsExact(groups: map<string, Group>, target: string, source: string, names: seq<string>, plan: OffsetPlan)
    requires source in groups && IsClonePlan(groups, target, source, names, plan)
    ensures MovesExactly(groups, target, Committed(groups, target, MovesMap(plan.moves)),
                         tp => InCloneScope(groups[source].offsets, names, tp),
                         tp => At(groups[source].offsets, tp))
  {
    var from := groups[source].offsets;
    var moved := tp => InCloneScope(from, names, tp);
    var to := tp => At(from, tp);
    forall tp ensures moved(tp) <==> exists m :: m in plan.moves && m.tp == tp {
      if moved(tp) {
        assert Moving(tp, At(CommittedBy(groups, target), tp), from[tp]) in plan.moves;
      }
    }
    CommitMovesExactly(groups, plan, moved, to);
  }

  // ---- Where a reset lands ----

  /** An offset the partition still has, or its end. */
  ghost predicate WithinLog(topics: map<string, Topic>, tp: TopicPartition, offset: int) {
    Exists(topics, tp) &&
    var part := topics[tp.topic].partitions[tp.partition];
    part.begin <= offset <= part.End()
  }

  /** A reset by mode commits an offset within the log exactly on partitions that exist,
      and by fixed offset only where that offset lies within the log: it is not checked. */
  lemma ResetLandsInLogIff(topics: map<string, Topic>, groups: map<string, Group>, id: string, target: ResetTarget,
                           names: seq<string>, plan: OffsetPlan, after: map<string, Group>, tp: TopicPartition)
    requires IsResetPlan(topics, groups, id, target, names, plan) && target.offsets == map[] && KnownMode(target.mode)
    requires after == Committed(groups, id, MovesMap(plan.moves))
    requires forall name :: name in topics ==> WellFormed(name, topics[name])
    requires InScope(topics, target, names, CommittedBy(groups, id), tp)
    ensures tp in CommittedBy(after, id)
    ensures WithinLog(topics, tp, CommittedBy(after, id)[tp]) <==>
      Exists(topics, tp) && (target.mode == "offset" ==> WithinLog(topics, tp, target.offset))
    ensures !Exists(topics, tp) ==> CommittedBy(after, id)[tp] == 0
  {
    hide IsResetPlan, MovesMap, FirstAtOrAfter;
    ResetIsExact(topics, groups, id, target, names, plan);
    if Exists(topics, tp) {
      var part := topics[tp.topic].partitions[tp.partition];
      ContiguousAscends(tp.topic, tp.partition, part);
      var instant := target.timestampMs * NANOS_PER_MILLI;
      FirstIsWithin(part.records, instant, part.End(), part.begin, part.End());
    }
  }

  /** Where each mode takes an existing partition, in terms of its log: to its begin, to
      its end, to the offset asked for, or to the first record at or after the time. */
  ghost predicate LandsAsAsked(topics: map<string, Topic>, target: ResetTarget, tp: TopicPartition, offset: int)
    requires Exists(topics, tp)
  {
    var part := topics[tp.topic].partitions[tp.partition];
    && (target.mode == "earliest" ==> offset == part.begin)
    && (target.mode == "latest" ==> offset == part.End())
    && (target.mode == "offset" ==> offset == target.offset)
    && (target.mode == "timestamp" ==> WindowMeaning.IsFirstAt(part, target.timestampMs, offset))
  }

  /** After a reset by mode every existing partition in scope stands where the mode says;
      after one by explicit offsets exactly the given offsets are committed, whatever the
      mode. */
  lemma ResetLandsAsAsked(topics: map<string, Topic>, groups: map<string, Group>, id: string, target: ResetTarget,
                          names: seq<string>, plan: OffsetPlan, after: map<string, Group>)
    requires IsResetPlan(topics, groups, id, target, names, plan)
    requires after == Committed(groups, id, MovesMap(plan.moves))
    requires forall name :: name in topics ==> WellFormed(name, topics[name])
    ensures target.offsets == map[] && KnownMode(target.mode) ==>
      forall tp :: InScope(topics, target, names, CommittedBy(groups, id), tp) && Exists(topics, tp) ==>
        tp in CommittedBy(after, id) && LandsAsAsked(topics, target, tp, CommittedBy(after, id)[tp])
    ensures target.offsets != map[] ==>
      forall tp :: tp in target.offsets ==>
        tp in CommittedBy(after, id) && CommittedBy(after, id)[tp] == target.offsets[tp]
  {
    hide IsResetPlan, MovesMap, WindowMeaning.IsFirstAt;
    ResetIsExact(topics, groups, id, target, names, plan);
    var committed := CommittedBy(groups, id);
    if target.offsets == map[] && KnownMode(target.mode) {
      forall tp | InScope(topics, target, names, committed, tp) && Exists(topics, tp)
        ensures tp in CommittedBy(after, id) && LandsAsAsked(topics, target, tp, CommittedBy(after, id)[tp])
      {
        NewOffsetIsAsked(topics, target, tp);
      }
    }
  }

  lemma NewOffsetIsAsked(topics: map<string, Topic>, target: ResetTarget, tp: TopicPartition)
    requires target.offsets == map[] && KnownMode(target.mode) && Exists(topics, tp)
    requires WellFormed(tp.topic, topics[tp.topic])
    ensures LandsAsAsked(topics, target, tp, NewOffset(topics, target, tp))
  {
    hide OffsetAfterMilli, WindowMeaning.IsFirstAt;
    var part := topics[tp.topic].partitions[tp.partition];
    WindowMeaning.OffsetAfterIsFirst(tp.topic, tp.partition, part, target.timestampMs);
  }

  /** What a reset of named topics, of explicit offsets, or of neither acts on, and what its
      plan says each partition had: the group's commit, zero without one. */
  lemma ResetScopeIs(topics: map<string, Topic>, groups: map<string, Group>, id: string, target: ResetTarget,
                     names: seq<string>, plan: OffsetPlan, tp: TopicPartition)
    requires IsResetPlan(topics, groups, id, target, names, plan)
    ensures
      var moved := exists m :: m in plan.moves && m.tp == tp;
      if target.offsets != map[] then moved <==> tp in target.offsets
      else if names != [] then
        moved <==>
          tp.topic in names && tp.topic in topics && 0 <= tp.partition < |topics[tp.topic].partitions|
      else moved <==> id in groups && tp in groups[id].offsets
    ensures forall m :: m in plan.moves && m.tp == tp ==>
      m.body.before == if id in groups && tp in groups[id].offsets then groups[id].offsets[tp] else 0
  {
    hide NewOffset;
    if InScope(topics, target, names, CommittedBy(groups, id), tp) {
      assert MoveOf(topics, target, CommittedBy(groups, id), tp) in plan.moves;
    }
  }

  /** Which resets are refused, case by case. An active group always is; explicit offsets
      never are otherwise. A named topic must exist, something must be given, the mode must
      be known, and without named topics every committed topic must exist. */
  lemma ResetRefusals(topics: map<string, Topic>, groups: map<string, Group>, id: string, target: ResetTarget,
                      names: seq<string>)
    ensures
      var refusal := ResetError(topics, groups, id, target, names);
      var known := target.mode in {"earliest", "latest", "offset", "timestamp"};
      if id in groups && groups[id].members > 0 then refusal == Some(GroupActive)
      else if target.offsets != map[] then refusal == None
      else if names != [] then
        if exists name :: name in names && name !in topics then refusal == Some(NotFound)
        else if exists name :: name in names && topics[name].partitions != [] then
          refusal == if known then None else Some(Validation)
        else refusal == None
      else if id !in groups || groups[id].offsets == map[] then refusal == Some(Validation)
      else if !known then refusal == Some(Validation)
      else if exists tp :: tp in groups[id].offsets && tp.topic !in topics then refusal == Some(NotFound)
      else refusal == None
  {
    if !IsActive(groups, id) && target.offsets == map[] {
      if names != [] {
        NamedScope(topics, target, names, CommittedBy(groups, id));
      } else {
        CommittedScope(topics, target, CommittedBy(groups, id));
      }
    }
  }

  lemma NamedScope(topics: map<string, Topic>, target: ResetTarget, names: seq<string>,
                   committed: map<TopicPartition, int>)
    requires target.offsets == map[] && names != []
    ensures forall tp :: InScope(topics, target, names, committed, tp) ==>
      tp.topic in names && tp.topic in topics && topics[tp.topic].partitions != []
    ensures forall name :: name in names && name in topics && topics[name].partitions != [] ==>
      InScope(topics, target, names, committed, TopicPartition(name, 0))
  {
  }

  lemma CommittedScope(topics: map<string, Topic>, target: ResetTarget, committed: map<TopicPartition, int>)
    requires target.offsets == map[]
    ensures forall tp :: InScope(topics, target, [], committed, tp) <==> tp in committed
    ensures committed != map[] ==> exists tp :: InScope(topics, target, [], committed, tp)
  {
    if tp :| tp in committed {
      assert InScope(topics, target, [], committed, tp);
    } else {
      assert committed == map[];
    }
  }

  /** What a clone acts on and what its plan says: the source's commits, of all topics or of
      those named, each over the target's own commit. */
  lemma CloneScopeIs(groups: map<string, Group>, target: string, source: string, names: seq<string>, plan: OffsetPlan,
                     tp: TopicPartition)
    requires source in groups && IsClonePlan(groups, target, source, names, plan)
    ensures (exists m :: m in plan.moves && m.tp == tp) <==>
      tp in groups[source].offsets && (names == [] || tp.topic in names)
    ensures forall m :: m in plan.moves && m.tp == tp ==>
      && tp in groups[source].offsets && m.body.after == groups[source].offsets[tp]
      && m.body.before == if target in groups && tp in groups[target].offsets then groups[target].offsets[tp] else 0
  {
    if InCloneScope(groups[source].offsets, names, tp) {
      assert Moving(tp, At(CommittedBy(groups, target), tp), groups[source].offsets[tp]) in plan.moves;
    }
  }

  // A group committed at 7 on a partition its topic has lost: a reset to latest is not
  // refused, and commits zero there.
  lemma VanishedGoesToZero(topics: map<string, Topic>, plan: OffsetPlan, after: map<string, Group>)
    requires "t" in topics && topics["t"].partitions == [Partition(5, [])]
    requires
      var groups := map["g" := Group(0, map[TopicPartition("t", 1) := 7])];
      && IsResetPlan(topics, groups, "g", ResetTarget("latest", 0, 0, map[]), [], plan)
      && after == Committed(groups, "g", MovesMap(plan.moves))
    ensures
      var groups := map["g" := Group(0, map[TopicPartition("t", 1) := 7])];
      && ResetError(topics, groups, "g", ResetTarget("latest", 0, 0, map[]), []) == None
      && TopicPartition("t", 1) in CommittedBy(after, "g") && CommittedBy(after, "g")[TopicPartition("t", 1)] == 0
      && !WithinLog(topics, TopicPartition("t", 1), 0)
  {
    var gone, target := TopicPartition("t", 1), ResetTarget("latest", 0, 0, map[]);
    var groups := map["g" := Group(0, map[gone := 7])];
    ResetIsExact(topics, groups, "g", target, [], plan);
    assert CommittedBy(groups, "g") == map[gone := 7] && InScope(topics, target, [], CommittedBy(groups, "g"), gone);
  }

  // ---- Lag ----

  ghost predicate LagAsReset(topics: map<string, Topic>, target: ResetTarget, d: OffsetDetail) {
    Exists(topics, d.tp) ==>
      var part := topics[d.tp.topic].partitions[d.tp.partition];
      && d.end == part.End()
      && (target.mode == "latest" ==> d.lag == 0)
      && (target.mode == "earliest" ==> d.lag == d.end - part.begin == |part.records|)
      && (target.mode == "offset" && target.offset <= d.end ==> d.lag == d.end - target.offset)
  }

  lemma LagOfDetail(topics: map<string, Topic>, target: ResetTarget, tp: TopicPartition)
    requires target.offsets == map[]
    ensures LagAsReset(topics, target, DetailOf(topics, tp, NewOffset(topics, target, tp)))
    ensures forall offset :: DetailOf(topics, tp, offset).tp == tp
  {
  }

  /** The group's lag right after a reset by mode, on every partition in scope: none after
      latest, everything the log still holds after earliest. */
  lemma LagAfterReset(topics: map<string, Topic>, groups: map<string, Group>, id: string, target: ResetTarget,
                      names: seq<string>, plan: OffsetPlan, after: map<string, Group>, details: seq<OffsetDetail>)
    requires IsResetPlan(topics, groups, id, target, names, plan) && target.offsets == map[]
    requires after == Committed(groups, id, MovesMap(plan.moves)) && AreDetails(topics, CommittedBy(after, id), details)
    ensures forall d :: d in details && InScope(topics, target, names, CommittedBy(groups, id), d.tp) ==>
      LagAsReset(topics, target, d)
    ensures forall tp :: InScope(topics, target, names, CommittedBy(groups, id), tp) ==>
      exists d :: d in details && d.tp == tp
  {
    hide IsResetPlan, MovesMap, LagAsReset, NewOffset, DetailOf;
    var committed, now := CommittedBy(groups, id), CommittedBy(after, id);
    ResetIsExact(topics, groups, id, target, names, plan);
    forall d | d in details && InScope(topics, target, names, committed, d.tp) ensures LagAsReset(topics, target, d) {
      var i :| 0 <= i < |details| && details[i] == d;
      assert d == DetailOf(topics, d.tp, now[d.tp]) && now[d.tp] == NewOffset(topics, target, d.tp);
      LagOfDetail(topics, target, d.tp);
    }
    forall tp | InScope(topics, target, names, committed, tp) ensures exists d :: d in details && d.tp == tp {
      LagOfDetail(topics, target, tp);
      assert DetailOf(topics, tp, now[tp]) in details;
    }
  }

  /** A partition's lag is what is left to read: the records of its log at or after the
      committed offset, once that is at or past begin. */
  lemma LagIsUnread(topics: map<string, Topic>, committed: map<TopicPartition, int>, details: seq<OffsetDetail>,
                    d: OffsetDetail)
    requires AreDetails(topics, committed, details) && d in details
    ensures d.tp in committed && d.committed == committed[d.tp]
    ensures Exists(topics, d.tp) && WellFormed(d.tp.topic, topics[d.tp.topic]) ==>
      var part := topics[d.tp.topic].partitions[d.tp.partition];
      && d.end == part.End() && Ascending(part.records)
      && (part.begin <= d.committed ==> d.lag == |Between(part.records, d.committed, part.End())|)
      && (d.committed < part.begin ==> d.lag == |part.records| + (part.begin - d.committed))
    ensures !Exists(topics, d.tp) ==> d.end == 0 && d.lag == if d.committed < 0 then -d.committed else 0
  {
    hide Between;
    var i :| 0 <= i < |details| && details[i] == d;
    if Exists(topics, d.tp) && WellFormed(d.tp.topic, topics[d.tp.topic]) {
      var part := topics[d.tp.topic].partitions[d.tp.partition];
      ContiguousAscends(d.tp.topic, d.tp.partition, part);
      BetweenIsSlice(d.tp.topic, d.tp.partition, part, d.committed, part.End());
    }
  }

  /** A reset to latest that names no topics leaves no lag at all. */
  lemma LatestLeavesNoLag(topics: map<string, Topic>, groups: map<string, Group>, id: string, target: ResetTarget,
                          plan: OffsetPlan, after: map<string, Group>, details: seq<OffsetDetail>)
    requires IsResetPlan(topics, groups, id, target, [], plan) && target.offsets == map[] && target.mode == "latest"
    requires after == Committed(groups, id, MovesMap(plan.moves)) && AreDetails(topics, CommittedBy(after, id), details)
    ensures LagSum(details) == 0
  {
    hide IsResetPlan, MovesMap, LagSum;
    ResetIsExact(topics, groups, id, target, [], plan);
    forall i | 0 <= i < |details| ensures details[i].lag == 0 {
      var tp := details[i].tp;
      assert CommittedBy(after, id)[tp] == NewOffset(topics, target, tp);
    }
    LagSumIsZeroIff(topics, CommittedBy(after, id), details);
  }

  lemma {:induction false} LagSumBounds(details: seq<OffsetDetail>, i: nat)
    requires (forall k :: 0 <= k < |details| ==> details[k].lag >= 0) && i < |details|
    ensures 0 <= details[i].lag <= LagSum(details)
  {
    var n := |details| - 1;
    if i < n {
      LagSumBounds(details[..n], i);
    } else if n > 0 {
      LagSumBounds(details[..n], 0);
    }
  }

  lemma {:induction false} LagSumOfZeros(details: seq<OffsetDetail>)
    requires forall k :: 0 <= k < |details| ==> details[k].lag == 0
    ensures LagSum(details) == 0
  {
    if details != [] {
      LagSumOfZeros(details[..|details| - 1]);
    }
  }

  /** The total lag is never less than any partition's, and is zero exactly when every
      partition's is. */
  lemma LagSumIsZeroIff(topics: map<string, Topic>, committed: map<TopicPartition, int>, details: seq<OffsetDetail>)
    requires AreDetails(topics, committed, details)
    ensures forall i :: 0 <= i < |details| ==> 0 <= details[i].lag <= LagSum(details)
    ensures LagSum(details) == 0 <==> forall i :: 0 <= i < |details| ==> details[i].lag == 0
  {
    forall i | 0 <= i < |details| ensures 0 <= details[i].lag <= LagSum(details) {
      assert forall k :: 0 <= k < |details| ==> details[k] == DetailOf(topics, details[k].tp, committed[details[k].tp]);
      LagSumBounds(details, i);
    }
    if forall k :: 0 <= k < |details| ==> details[k].lag == 0 {
      LagSumOfZeros(details);
    }
  }

  /** After a clone the two groups stand at the same place, with the same lag, on the
      scope; and the source has not moved. */
  lemma CloneEqualsSource(topics: map<string, Topic>, groups: map<string, Group>, target: string, source: string,
                          names: seq<string>, plan: OffsetPlan, after: map<string, Group>, tp: TopicPartition)
    requires source in groups && IsClonePlan(groups, target, source, names, plan)
    requires after == Committed(groups, target, MovesMap(plan.moves)) && InCloneScope(groups[source].offsets, names, tp)
    ensures tp in CommittedBy(after, target) && tp in CommittedBy(after, source)
    ensures CommittedBy(after, target)[tp] == CommittedBy(after, source)[tp] == groups[source].offsets[tp]
    ensures DetailOf(topics, tp, CommittedBy(after, target)[tp]) == DetailOf(topics, tp, groups[source].offsets[tp])
    ensures CommittedBy(after, source) == groups[source].offsets
  {
    CloneIsExact(groups, target, source, names, plan);
    if source == target {
      assert CommittedBy(after, source) == groups[source].offsets;
    }
  }
}

/** Moving and measuring a group's committed offsets: reset, clone and lag
    (internal/service/group). */
module GroupOffsets {
  import opened Kafka
  import opened FakeCluster
  import opened FakeServer
  import opened Maps
  import opened Seqs
  import opened TpOrder

  datatype Offsets = Offsets(before: int, after: int)

  /** One partition's commit, from where it stands to where it goes. */
  type Move = Placed<Offsets>

  function Moving(tp: TopicPartition, before: int, after: int): Move {
    Placed(tp, Offsets(before, after))
  }

  // ---- Reset ----

  datatype ResetTarget = ResetTarget(mode: string, offset: int, timestampMs: int, offsets: map<TopicPartition, int>)
  datatype OffsetPlan = OffsetPlan(group: string, moves: seq<Move>)

  // A Go map read of a missing key gives zero.
  function At(offsets: map<TopicPartition, int>, tp: TopicPartition): int {
    if tp in offsets then offsets[tp] else 0
  }

  function CommittedBy(groups: map<string, Group>, id: string): map<TopicPartition, int> {
    if id in groups then groups[id].offsets else map[]
  }

  predicate IsActive(groups: map<string, Group>, id: string) {
    id in groups && groups[id].members > 0
  }

  predicate Exists(topics: map<string, Topic>, tp: TopicPartition) {
    tp.topic in topics && 0 <= tp.partition < |topics[tp.topic].partitions|
  }

  predicate KnownMode(mode: string) {
    mode == "earliest" || mode == "latest" || mode == "offset" || mode == "timestamp"
  }

  /** What a reset acts on: the partitions given explicitly, else every partition of the
      named topics, else everything the group has committed. */
  ghost predicate InScope(topics: map<string, Topic>, target: ResetTarget, names: seq<string>,
                          committed: map<TopicPartition, int>, tp: TopicPartition)
  {
    if target.offsets != map[] then tp in target.offsets
    else if names != [] then tp.topic in names && Exists(topics, tp)
    else tp in committed
  }

  /** Where a reset moves one partition. A partition its topic no longer has goes to zero. */
  function NewOffset(topics: map<string, Topic>, target: ResetTarget, tp: TopicPartition): int {
    if target.offsets != map[] then At(target.offsets, tp)
    else if !Exists(topics, tp) then 0
    else
      var part := topics[tp.topic].partitions[tp.partition];
      if target.mode == "earliest" then part.begin
      else if target.mode == "latest" then part.End()
      else if target.mode == "offset" then target.offset
      else OffsetAfterMilli(part, target.timestampMs)
  }

  /** Which resets are refused, and how. */
  ghost function ResetError(topics: map<string, Topic>, groups: map<string, Group>, id: string,
                            target: ResetTarget, names: seq<string>): Option<Error>
  {
    var committed := CommittedBy(groups, id);
    if IsActive(groups, id) then Some(GroupActive)
    else if target.offsets != map[] then None
    else if exists name :: name in names && name !in topics then Some(NotFound)
    else if names == [] && committed == map[] then Some(Validation)
    else if forall tp :: !InScope(topics, target, names, committed, tp) then None
    else if !KnownMode(target.mode) then Some(Validation)
    else if exists tp :: InScope(topics, target, names, committed, tp) && tp.topic !in topics then Some(NotFound)
    else None
  }

  ghost function MoveOf(topics: map<string, Topic>, target: ResetTarget, committed: map<TopicPartition, int>,
                        tp: TopicPartition): Move
  {
    Moving(tp, At(committed, tp), NewOffset(topics, target, tp))
  }

  /** A plan moves exactly the scope, in order, each partition from its committed offset
      (zero if none) to its new one. */
  ghost predicate IsResetPlan(topics: map<string, Topic>, groups: map<string, Group>, id: string,
                              target: ResetTarget, names: seq<string>, plan: OffsetPlan)
  {
    var committed := CommittedBy(groups, id);
    && plan.group == id && InOrder(plan.moves)
    && (forall tp :: InScope(topics, target, names, committed, tp) ==>
          MoveOf(topics, target, committed, tp) in plan.moves)
    && forall m :: m in plan.moves ==>
         InScope(topics, target, names, committed, m.tp) && m == MoveOf(topics, target, committed, m.tp)
  }

  method ResolveScope(admin: Fake, target: ResetTarget, names: seq<string>, committed: map<TopicPartition, int>)
    returns (r: Result<seq<TopicPartition>>)
    ensures target.offsets != map[] ==> r.Ok?
    ensures target.offsets == map[] ==>
      (r.Err? <==> (exists name :: name in names && name !in admin.topics) || (names == [] && committed == map[]))
    ensures r.Err? ==> r.error == if names != [] then NotFound else Validation
    ensures r.Ok? ==> forall tp :: tp in r.value <==> InScope(admin.topics, target, names, committed, tp)
  {
    if target.offsets != map[] {
      var tps := KeysOf(target.offsets);
      return Ok(tps);
    }
    if names != [] {
      r := ScopeFromTopics(admin, names);
      return;
    }
    if committed != map[] {
      var tps := KeysOf(committed);
      return Ok(tps);
    }
    return Err(Validation);
  }

  method ScopeFromTopics(admin: Fake, names: seq<string>) returns (r: Result<seq<TopicPartition>>)
    ensures r.Err? <==> exists name :: name in names && name !in admin.topics
    ensures r.Err? ==> r.error == NotFound
    ensures r.Ok? ==> forall tp :: tp in r.value <==> tp.topic in names && Exists(admin.topics, tp)
  {
    var tps: seq<TopicPartition> := [];
    for i := 0 to |names|
      invariant forall j :: 0 <= j < i ==> names[j] in admin.topics
      invariant forall tp :: tp in tps <==> tp.topic in names[..i] && Exists(admin.topics, tp)
    {
      var end := admin.ListEndOffsets(names[i]);
      if end.Err? {
        return Err(NotFound);
      }
      var ps := KeysOf(end.value);
      ghost var before := tps;
      for k := 0 to |ps|
        invariant forall tp :: tp in tps <==> tp in before || (tp.topic == names[i] && tp.partition in ps[..k])
      {
        tps := tps + [TopicPartition(names[i], ps[k])];
      }
      assert ps[..|ps|] == ps;
    }
    return Ok(tps);
  }

  // The three listings and the fixed offset, each over the topic's current partitions.
  method TargetsForTopic(admin: Fake, topic: string, target: ResetTarget) returns (r: Result<map<int, int>>)
    ensures target.offsets != map[] ==> r == Ok(map[])
    ensures target.offsets == map[] && !KnownMode(target.mode) ==> r == Err(Validation)
    ensures target.offsets == map[] && KnownMode(target.mode) && topic !in admin.topics ==> r == Err(NotFound)
    ensures target.offsets == map[] && KnownMode(target.mode) && topic in admin.topics ==>
      && r.Ok? && (forall p :: p in r.value <==> Exists(admin.topics, TopicPartition(topic, p)))
      && forall p :: p in r.value ==> r.value[p] == NewOffset(admin.topics, target, TopicPartition(topic, p))
  {
    if target.offsets != map[] {
      return Ok(map[]);
    }
    if target.mode == "earliest" {
      r := admin.ListStartOffsets(topic);
    } else if target.mode == "latest" {
      r := admin.ListEndOffsets(topic);
    } else if target.mode == "offset" {
      var end := admin.ListEndOffsets(topic);
      if end.Err? {
        return Err(NotFound);
      }
      return Ok(map p | p in end.value :: target.offset);
    } else if target.mode == "timestamp" {
      r := admin.ListOffsetsAfterMilli(topic, target.timestampMs);
    } else {
      return Err(Validation);
    }
  }

  // New offsets resolved so far: right, and complete for the topics visited.
  ghost predicate Resolves(topics: map<string, Topic>, target: ResetTarget, visited: set<string>,
                           after: map<TopicPartition, int>)
  {
    && (forall tp :: tp in after <==> tp.topic in visited && Exists(topics, tp))
    && forall tp :: tp in after ==> after[tp] == NewOffset(topics, target, tp)
  }

  method ResolveTargets(admin: Fake, tps: seq<TopicPartition>, target: ResetTarget)
    returns (r: Result<map<TopicPartition, int>>)
    ensures target.offsets != map[] || tps == [] ==> r.Ok?
    ensures target.offsets == map[] && tps != [] ==>
      (r.Err? <==> !KnownMode(target.mode) || exists tp :: tp in tps && tp.topic !in admin.topics)
    ensures r.Err? ==> r.error == if KnownMode(target.mode) then NotFound else Validation
    ensures r.Ok? && target.offsets != map[] ==> r.value == map[]
    ensures r.Ok? && target.offsets == map[] ==> Resolves(admin.topics, target, set tp | tp in tps :: tp.topic, r.value)
  {
    var byTopic := set tp | tp in tps :: tp.topic;
    var after: map<TopicPartition, int>, todo := map[], byTopic;
    while exists name :: name in todo
      invariant todo <= byTopic
      invariant target.offsets != map[] ==> after == map[]
      invariant target.offsets == map[] ==> Resolves(admin.topics, target, byTopic - todo, after)
      invariant target.offsets == map[] && todo != byTopic ==> KnownMode(target.mode)
      invariant target.offsets == map[] ==> forall name :: name in byTopic - todo ==> name in admin.topics
      decreases todo
    {
      var name :| name in todo;
      var resolved := TargetsForTopic(admin, name, target);
      if resolved.Err? {
        return Err(resolved.error);
      }
      after := after + map tp | tp in PartitionKeys(name, resolved.value.Keys) :: resolved.value[tp.partition];
      todo := todo - {name};
    }
    assert tps != [] ==> tps[0].topic in byTopic;
    assert forall tp :: tp in tps ==> tp.topic in byTopic - todo;
    return Ok(after);
  }

  function PartitionKeys(name: string, ps: set<int>): (tps: set<TopicPartition>)
    ensures forall tp :: tp in tps <==> tp.topic == name && tp.partition in ps
  {
    set p | p in ps :: TopicPartition(name, p)
  }

  lemma MovesPermute(topics: map<string, Topic>, target: ResetTarget, committed: map<TopicPartition, int>,
                     tps: seq<TopicPartition>, details: seq<Move>, sorted: seq<Move>)
    requires |details| == |tps|
    requires forall j :: 0 <= j < |tps| ==> details[j] == MoveOf(topics, target, committed, tps[j])
    requires multiset(sorted) == multiset(details)
    ensures forall tp :: tp in tps ==> MoveOf(topics, target, committed, tp) in sorted
    ensures forall m :: m in sorted ==> m.tp in tps && m == MoveOf(topics, target, committed, m.tp)
  {
    assert forall m :: m in sorted <==> m in multiset(sorted);
    assert forall m :: m in details <==> m in multiset(details);
    forall tp | tp in tps ensures MoveOf(topics, target, committed, tp) in details {
      var j :| 0 <= j < |tps| && tps[j] == tp;
      assert details[j] in details;
    }
  }

  method Details(admin: Fake, target: ResetTarget, committed: map<TopicPartition, int>,
                 tps: seq<TopicPartition>, after: map<TopicPartition, int>) returns (sorted: seq<Move>)
    requires forall tp :: tp in tps ==>
      NewOffset(admin.topics, target, tp) == if tp in after then after[tp] else At(target.offsets, tp)
    ensures InOrder(sorted)
    ensures forall tp :: tp in tps ==> MoveOf(admin.topics, target, committed, tp) in sorted
    ensures forall m :: m in sorted ==> m.tp in tps && m == MoveOf(admin.topics, target, committed, m.tp)
  {
    var details := [];
    for i := 0 to |tps|
      invariant |details| == i
      invariant forall j :: 0 <= j < i ==> details[j] == MoveOf(admin.topics, target, committed, tps[j])
    {
      var tp := tps[i];
      var v := if tp in after then after[tp] else At(target.offsets, tp);
      details := details + [Moving(tp, At(committed, tp), v)];
    }
    sorted := SortPlaced(details);
    MovesPermute(admin.topics, target, committed, tps, details, sorted);
  }

  // Resolving fails over a partition in scope.
  lemma RefusedForItsTopics(topics: map<string, Topic>, groups: map<string, Group>, id: string, target: ResetTarget,
                            names: seq<string>, committed: map<TopicPartition, int>, tps: seq<TopicPartition>,
                            error: Error)
    requires committed == CommittedBy(groups, id) && !IsActive(groups, id) && target.offsets == map[]
    requires forall tp :: tp in tps <==> InScope(topics, target, names, committed, tp)
    requires tps != [] && !(exists name :: name in names && name !in topics) && !(names == [] && committed == map[])
    requires KnownMode(target.mode) ==> exists tp :: tp in tps && tp.topic !in topics
    requires error == if KnownMode(target.mode) then NotFound else Validation
    ensures ResetError(topics, groups, id, target, names) == Some(error)
  {
    assert InScope(topics, target, names, committed, tps[0]);
    if KnownMode(target.mode) {
      var tp :| tp in tps && tp.topic !in topics;
      assert InScope(topics, target, names, committed, tp) && tp.topic !in topics;
    }
  }

  method PlanReset(admin: Fake, id: string, target: ResetTarget, names: seq<string>) returns (r: Result<OffsetPlan>)
    ensures r.Err? ==> ResetError(admin.topics, admin.groups, id, target, names) == Some(r.error)
    ensures r.Ok? ==> ResetError(admin.topics, admin.groups, id, target, names) == None
    ensures r.Ok? ==> IsResetPlan(admin.topics, admin.groups, id, target, names, r.value)
  {
    if id in admin.groups && admin.groups[id].members > 0 {
      return Err(GroupActive);
    }
    var committed := map[];
    if id in admin.groups {
      var fetched := admin.FetchGroupOffsets(id);
      committed := fetched.value;
    }
    var tps := ResolveScope(admin, target, names, committed);
    if tps.Err? {
      return Err(tps.error);
    }
    var after := ResolveTargets(admin, tps.value, target);
    if after.Err? {
      RefusedForItsTopics(admin.topics, admin.groups, id, target, names, committed, tps.value, after.error);
      return Err(after.error);
    }
    var moves := Details(admin, target, committed, tps.value, after.value);
    return Ok(OffsetPlan(id, moves));
  }

  // ---- Applying moves ----

  /** What a plan commits: a later move of a partition over an earlier one. */
  function MovesMap(moves: seq<Move>): map<TopicPartition, int> {
    if moves == [] then map[]
    else MovesMap(moves[..|moves| - 1])[moves[|moves| - 1].tp := moves[|moves| - 1].body.after]
  }

  /** ApplyReset and ApplyCloneOffsets. */
  method ApplyMoves(admin: Fake, plan: OffsetPlan) returns (r: Result<OffsetPlan>)
    modifies admin`groups
    ensures r == if IsActive(old(admin.groups), plan.group) then Err(GroupActive) else Ok(plan)
    ensures admin.groups ==
      if r.Err? then old(admin.groups) else Committed(old(admin.groups), plan.group, MovesMap(plan.moves))
  {
    var offsets := map[];
    for i := 0 to |plan.moves|
      invariant offsets == MovesMap(plan.moves[..i])
    {
      assert plan.moves[..i + 1][..i] == plan.moves[..i];
      offsets := offsets[plan.moves[i].tp := plan.moves[i].body.after];
    }
    assert plan.moves[..|plan.moves|] == plan.moves;
    var error := admin.CommitGroupOffsets(plan.group, offsets);
    if error.Some? {
      return Err(error.value);
    }
    return Ok(plan);
  }

  // ---- Clone ----

  predicate InCloneScope(source: map<TopicPartition, int>, names: seq<string>, tp: TopicPartition) {
    tp in source && (names == [] || tp.topic in names)
  }

  ghost predicate IsClonePlan(groups: map<string, Group>, target: string, source: string, names: seq<string>,
                              plan: OffsetPlan)
    requires source in groups
  {
    var from, before := groups[source].offsets, CommittedBy(groups, target);
    && plan.group == target && StrictlyInOrder(plan.moves)
    && (forall tp :: InCloneScope(from, names, tp) ==> Moving(tp, At(before, tp), from[tp]) in plan.moves)
    && forall m :: m in plan.moves ==>
         InCloneScope(from, names, m.tp) && m == Moving(m.tp, At(before, m.tp), from[m.tp])
  }

  method PlanCloneOffsets(admin: Fake, target: string, source: string, names: seq<string>)
    returns (r: Result<OffsetPlan>)
    ensures r.Err? <==> IsActive(admin.groups, target) || source !in admin.groups
    ensures r.Err? ==> r.error == if IsActive(admin.groups, target) then GroupActive else NotFound
    ensures r.Ok? ==> IsClonePlan(admin.groups, target, source, names, r.value)
  {
    if target in admin.groups && admin.groups[target].members > 0 {
      return Err(GroupActive);
    }
    var targetCommitted := map[];
    if target in admin.groups {
      var fetched := admin.FetchGroupOffsets(target);
      targetCommitted := fetched.value;
    }
    var sourceCommitted := admin.FetchGroupOffsets(source);
    if sourceCommitted.Err? {
      return Err(sourceCommitted.error);
    }
    var from := sourceCommitted.value;
    var tps := KeysOf(from);
    var details: seq<Move> := [];
    for i := 0 to |tps|
      invariant Distinct(details)
      invariant forall m :: m in details <==>
        m.tp in tps[..i] && InCloneScope(from, names, m.tp) && m == Moving(m.tp, At(targetCommitted, m.tp), from[m.tp])
    {
      if names == [] || tps[i].topic in names {
        details := details + [Moving(tps[i], At(targetCommitted, tps[i]), from[tps[i]])];
      }
    }
    assert tps[..|tps|] == tps;
    var sorted := SortPlaced(details);
    StrictWhenDistinct(details, sorted);
    assert forall m :: m in sorted <==> m in multiset(sorted);
    assert forall m :: m in details <==> m in multiset(details);
    return Ok(OffsetPlan(target, sorted));
  }

  // ---- Lag ----

  datatype OffsetDetail = OffsetDetail(tp: TopicPartition, committed: int, end: int, lag: int)

  /** A partition its topic no longer has ends at zero; a commit past the end lags zero. */
  function DetailOf(topics: map<string, Topic>, tp: TopicPartition, committed: int): OffsetDetail {
    var end := if Exists(topics, tp) then topics[tp.topic].partitions[tp.partition].End() else 0;
    OffsetDetail(tp, committed, end, if end - committed > 0 then end - committed else 0)
  }

  function LagSum(details: seq<OffsetDetail>): int {
    if details == [] then 0 else LagSum(details[..|details| - 1]) + details[|details| - 1].lag
  }

  ghost predicate AreDetails(topics: map<string, Topic>, committed: map<TopicPartition, int>,
                             details: seq<OffsetDetail>)
  {
    && (forall i, j :: 0 <= i < j < |details| ==> TpLess(details[i].tp, details[j].tp))
    && (forall i :: 0 <= i < |details| ==>
          details[i].tp in committed && details[i] == DetailOf(topics, details[i].tp, committed[details[i].tp]))
    && (forall tp :: tp in committed ==> DetailOf(topics, tp, committed[tp]) in details)
  }

  method ResolveOffsetDetails(admin: Fake, committed: map<TopicPartition, int>)
    returns (r: Result<(seq<OffsetDetail>, int)>)
    ensures r.Err? <==> exists tp :: tp in committed && tp.topic !in admin.topics
    ensures r.Err? ==> r.error == NotFound
    ensures r.Ok? ==> AreDetails(admin.topics, committed, r.value.0) && r.value.1 == LagSum(r.value.0)
  {
    var tps := KeysOf(committed);
    var endByTopic := EndsByTopic(admin, tps);
    if endByTopic.Err? {
      return Err(endByTopic.error);
    }
    var sorted := SortPartitions(tps);
    var out, totalLag := LagDetails(admin.topics, committed, sorted, endByTopic.value);
    DetailsCover(admin.topics, committed, sorted, out);
    return Ok((out, totalLag));
  }

  // The loop that fills in each partition's detail.
  method LagDetails(ghost topics: map<string, Topic>, committed: map<TopicPartition, int>, sorted: seq<TopicPartition>,
                    endByTopic: map<string, map<int, int>>) returns (out: seq<OffsetDetail>, totalLag: int)
    requires forall tp :: tp in sorted ==> tp in committed && HasEnds(topics, endByTopic, tp.topic)
    ensures |out| == |sorted| && totalLag == LagSum(out)
    ensures forall j :: 0 <= j < |sorted| ==> out[j] == DetailOf(topics, sorted[j], committed[sorted[j]])
  {
    totalLag, out := 0, [];
    for i := 0 to |sorted|
      invariant |out| == i && totalLag == LagSum(out)
      invariant forall j :: 0 <= j < i ==> out[j] == DetailOf(topics, sorted[j], committed[sorted[j]])
    {
      var tp := sorted[i];
      assert HasEnds(topics, endByTopic, tp.topic);
      var ends := endByTopic[tp.topic];
      var end := if tp.partition in ends then ends[tp.partition] else 0;
      var lag := if end - committed[tp] > 0 then end - committed[tp] else 0;
      LagSnoc(out, OffsetDetail(tp, committed[tp], end, lag));
      out := out + [OffsetDetail(tp, committed[tp], end, lag)];
      totalLag := totalLag + lag;
    }
  }

  ghost predicate HasEnds(topics: map<string, Topic>, endByTopic: map<string, map<int, int>>, name: string) {
    name in topics && name in endByTopic && endByTopic[name] == EndOffsets(topics[name])
  }

  lemma LagSnoc(details: seq<OffsetDetail>, d: OffsetDetail)
    ensures LagSum(details + [d]) == LagSum(details) + d.lag
  {
    assert (details + [d])[..|details|] == details;
  }

  lemma DetailsCover(topics: map<string, Topic>, committed: map<TopicPartition, int>,
                     sorted: seq<TopicPartition>, out: seq<OffsetDetail>)
    requires |out| == |sorted| && (forall tp :: tp in sorted <==> tp in committed)
    requires forall j :: 0 <= j < |sorted| ==> out[j] == DetailOf(topics, sorted[j], committed[sorted[j]])
    requires forall i, j :: 0 <= i < j < |sorted| ==> TpLess(sorted[i], sorted[j])
    ensures AreDetails(topics, committed, out)
  {
    forall tp | tp in committed ensures DetailOf(topics, tp, committed[tp]) in out {
      var j :| 0 <= j < |sorted| && sorted[j] == tp;
      assert out[j] in out;
    }
  }

  method EndsByTopic(admin: Fake, tps: seq<TopicPartition>) returns (r: Result<map<string, map<int, int>>>)
    ensures r.Err? <==> exists tp :: tp in tps && tp.topic !in admin.topics
    ensures r.Err? ==> r.error == NotFound
    ensures r.Ok? ==> forall tp :: tp in tps ==> HasEnds(admin.topics, r.value, tp.topic)
  {
    var endByTopic: map<string, map<int, int>> := map[];
    for i := 0 to |tps|
      invariant forall j :: 0 <= j < i ==> tps[j].topic in endByTopic
      invariant forall name :: name in endByTopic ==>
        name in admin.topics && endByTopic[name] == EndOffsets(admin.topics[name])
    {
      if tps[i].topic !in endByTopic {
        var end := admin.ListEndOffsets(tps[i].topic);
        if end.Err? {
          assert tps[i] in tps;
          return Err(end.error);
        }
        endByTopic := endByTopic[tps[i].topic := end.value];
      }
    }
    return Ok(endByTopic);
  }
}

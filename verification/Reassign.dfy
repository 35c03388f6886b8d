/** The plan tokens of partition reassignment, its cancellation and leader election
    (internal/service/cluster/destructive.go). */
module Reassign {
  import opened Kafka
  import opened PlanToken
  import opened Strings
  import opened TpOrder

  /** A partition's desired replicas; none cancels its reassignment. */
  type Move = Placed<Option<seq<int>>>
  datatype Plan = Plan(moves: seq<Move>, planToken: string)
  datatype ElectPlan = ElectPlan(preferred: bool, partitions: seq<Placed<()>>, planToken: string)

  ghost function Targets(tps: set<TopicPartition>): set<string> {
    set tp | tp in tps :: ReassignTarget(tp.topic, tp.partition)
  }

  ghost function PartitionsOf<T>(moves: seq<Placed<T>>): set<TopicPartition> {
    set m | m in moves :: m.tp
  }

  ghost function Listed(tps: seq<TopicPartition>): set<TopicPartition> { set tp | tp in tps }

  ghost predicate IsC9Token(hash: string -> string, tps: set<TopicPartition>, token: string) {
    IsToken(hash, "C9", Targets(tps), token)
  }

  method PlanReassign(hash: string -> string, moves: seq<Move>) returns (plan: Plan)
    ensures InOrder(plan.moves) && multiset(plan.moves) == multiset(moves)
    ensures IsC9Token(hash, PartitionsOf(moves), plan.planToken)
  {
    var sorted := SortPlaced(moves);
    var token := C9Token(hash, sorted);
    SamePartitions(sorted, moves);
    return Plan(sorted, token);
  }

  method PlanCancelReassignments(hash: string -> string, tps: seq<TopicPartition>) returns (plan: Plan)
    ensures InOrder(plan.moves) && |plan.moves| == |tps| && forall m :: m in plan.moves ==> m.body == None
    ensures PartitionsOf(plan.moves) == Listed(tps)
    ensures IsC9Token(hash, Listed(tps), plan.planToken)
  {
    var sorted := SortPlaced(Bare(tps));
    SamePartitions(sorted, Bare(tps));
    BarePartitions(tps);
    assert |multiset(sorted)| == |sorted| && |multiset(Bare(tps))| == |tps|;
    var token := C9Token(hash, sorted);
    var moves := seq(|sorted|, i requires 0 <= i < |sorted| => Placed(sorted[i].tp, None));
    forall m | m in sorted ensures Placed(m.tp, None) in moves {
      var i :| 0 <= i < |sorted| && sorted[i] == m;
      assert moves[i] == Placed(m.tp, None);
    }
    return Plan(moves, token);
  }

  method PlanElect(hash: string -> string, preferred: bool, tps: seq<TopicPartition>) returns (plan: ElectPlan)
    ensures plan.preferred == preferred && InOrder(plan.partitions) && multiset(plan.partitions) == multiset(Bare(tps))
    ensures IsC9Token(hash, Listed(tps), plan.planToken)
  {
    var sorted := SortPlaced(Bare(tps));
    var token := C9Token(hash, sorted);
    SamePartitions(sorted, Bare(tps));
    BarePartitions(tps);
    return ElectPlan(preferred, sorted, token);
  }

  method C9Token<T>(hash: string -> string, moves: seq<Placed<T>>) returns (token: string)
    ensures IsC9Token(hash, PartitionsOf(moves), token)
  {
    var targets: seq<string> := [];
    for i := 0 to |moves|
      invariant |targets| == i
      invariant forall j :: 0 <= j < i ==> targets[j] == ReassignTarget(moves[j].tp.topic, moves[j].tp.partition)
    {
      targets := targets + [ReassignTarget(moves[i].tp.topic, moves[i].tp.partition)];
    }
    token := Token(hash, "C9", targets);
    TargetsAre(moves, targets);
  }

  lemma TargetsAre<T>(moves: seq<Placed<T>>, targets: seq<string>)
    requires |targets| == |moves|
    requires forall j :: 0 <= j < |moves| ==> targets[j] == ReassignTarget(moves[j].tp.topic, moves[j].tp.partition)
    ensures Elements(targets) == Targets(PartitionsOf(moves))
  {
    forall j | 0 <= j < |moves| ensures targets[j] in Targets(PartitionsOf(moves)) {
      assert moves[j].tp in PartitionsOf(moves);
    }
    forall m | m in moves ensures ReassignTarget(m.tp.topic, m.tp.partition) in Elements(targets) {
      var j :| 0 <= j < |moves| && moves[j] == m;
      InElements(targets, j);
    }
  }

  lemma SamePartitions<T>(a: seq<Placed<T>>, b: seq<Placed<T>>)
    requires multiset(a) == multiset(b)
    ensures PartitionsOf(a) == PartitionsOf(b)
  {
    assert forall m :: m in a <==> m in multiset(a);
    assert forall m :: m in b <==> m in multiset(b);
  }

  lemma BarePartitions(tps: seq<TopicPartition>)
    ensures PartitionsOf(Bare(tps)) == Listed(tps)
  {
    forall tp | tp in tps ensures tp in PartitionsOf(Bare(tps)) {
      var i :| 0 <= i < |tps| && tps[i] == tp;
      assert Bare(tps)[i] in Bare(tps);
    }
  }

  /** A C9 token fixes the set of partitions, and nothing more: any two of these plans
      with the same partitions carry the same token, whatever the replica lists and
      whichever of reassign, cancel and elect they are for. */
  lemma TokenFixesPartitionsOnly(hash: string -> string, a: set<TopicPartition>, t1: string, b: set<TopicPartition>,
                                 t2: string)
    requires NoCollisions(hash) && IsC9Token(hash, a, t1) && IsC9Token(hash, b, t2)
    requires forall tp :: tp in a + b ==> Free(tp.topic, NEWLINE)
    ensures t1 == t2 <==> a == b
  {
    CommandsArePlain();
    TargetsArePlain(a);
    TargetsArePlain(b);
    TokensIffTargets(hash, "C9", Targets(a), t1, Targets(b), t2);
    TargetsTellApart(a, b);
  }

  lemma TargetsArePlain(a: set<TopicPartition>)
    requires forall tp :: tp in a ==> Free(tp.topic, NEWLINE)
    ensures Plain(Targets(a)) && Nonempty(Targets(a))
  {
    forall tp | tp in a ensures Free(ReassignTarget(tp.topic, tp.partition), NEWLINE) {
      ReassignTargetIsPlain(tp.topic, tp.partition);
    }
  }

  lemma TargetsTellApart(a: set<TopicPartition>, b: set<TopicPartition>)
    ensures Targets(a) == Targets(b) <==> a == b
  {
    if Targets(a) == Targets(b) {
      InEither(a, b);
      InEither(b, a);
    }
  }

  lemma InEither(a: set<TopicPartition>, b: set<TopicPartition>)
    requires Targets(a) <= Targets(b)
    ensures a <= b
  {
    forall tp | tp in a ensures tp in b {
      assert ReassignTarget(tp.topic, tp.partition) in Targets(b);
      var other :| other in b && ReassignTarget(other.topic, other.partition) == ReassignTarget(tp.topic, tp.partition);
      ReassignTargetIsInjective(tp.topic, tp.partition, other.topic, other.partition);
    }
  }
}

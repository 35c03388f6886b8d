/** The destructive command protocol (internal/service/core/destructive.go, run.go):
    gate, plan, dry run, confirm, ATTEMPT, apply, RESULT, over whole runs of calls. */
module Destructive {
  import opened Kafka
  import opened Audit

  /** One call: who asks for what, and the command's own plan and apply over the cluster. */
  datatype Call<!C, !P> = Call(
    caller: Caller, descriptor: Descriptor, event: Event, confirm: string, dryRun: bool,
    plan: C -> Kafka.Result<P>, apply: (C, P) -> (C, Option<Error>), target: P -> string)

  datatype Reply<+P> =
    | Refused(code: Code)
    | PlanFailed(error: Error)
    | Planned(plan: P)                    // a dry run
    | Mismatch(plan: P)
    | Unaudited
    | ApplyFailed(plan: P, error: Error)
    | Executed(plan: P)

  /** What one call does at a given point of the history: the cluster it leaves, the
      actions it takes in order, and its reply. */
  function Perform<C, P>(sinks: nat, accepts: Acceptance, policy: Policy, at: nat, cluster: C, call: Call<C, P>)
      : (C, seq<Action>, Reply<P>)
  {
    var gate := Check(call.caller, call.descriptor, policy);
    if gate.Some? then
      (cluster, ResultWrites(sinks, accepts, at,
                             RejectedEvent(call.event, call.descriptor, call.caller, gate.value), 0),
       Refused(gate.value))
    else
      match call.plan(cluster)
      case Err(e) => (cluster, [], PlanFailed(e))
      case Ok(plan) =>
        if call.dryRun then
          (cluster, ResultWrites(sinks, accepts, at, ResultEvent(call.event.(dryRun := true), Succeeded, None), 0),
           Planned(plan))
        else if call.confirm != call.target(plan) then (cluster, [], Mismatch(plan))
        else ExecutePlan(sinks, accepts, at, cluster, call, plan)
  }

  function ExecutePlan<C, P>(sinks: nat, accepts: Acceptance, at: nat, cluster: C, call: Call<C, P>, plan: P)
      : (C, seq<Action>, Reply<P>)
  {
    var attempt := call.event.(dryRun := false);
    var attempts := AttemptWrites(sinks, accepts, at, attempt.(phase := Attempt), 0);
    if !AllAccepted(attempts) then (cluster, attempts, Unaudited)
    else
      var (after, failure) := call.apply(cluster, plan);
      var done := attempts + [Applied(call.event.id)];
      var event := if failure.Some? then ResultEvent(attempt, Failed, Some(Port(failure.value)))
                   else ResultEvent(attempt, Succeeded, None);
      (after, done + ResultWrites(sinks, accepts, at + |done|, event, 0),
       if failure.Some? then ApplyFailed(plan, failure.value) else Executed(plan))
  }

  class Gateway<C> {
    const auditor: Auditor
    const policy: Policy
    var cluster: C

    constructor (auditor: Auditor, policy: Policy, cluster: C)
      ensures this.auditor == auditor && this.policy == policy && this.cluster == cluster
    {
      this.auditor, this.policy, this.cluster := auditor, policy, cluster;
    }

    method CheckAudited(caller: Caller, d: Descriptor, attempt: Event) returns (code: Option<Code>)
      modifies auditor
      ensures code == Check(caller, d, policy)
      ensures auditor.history == old(auditor.history) +
        if code.None? then []
        else ResultWrites(auditor.sinks, auditor.accepts, old(|auditor.history|),
                          RejectedEvent(attempt, d, caller, code.value), 0)
    {
      code := Check(caller, d, policy);
      if code.None? {
        return;
      }
      var result := attempt.(outcome := Rejected, error := Some(code.value),
                             severity := SeverityFor(d.id, Rejected, caller.breakGlassReason != ""));
      assert result.(phase := Result) == RejectedEvent(attempt, d, caller, code.value);
      auditor.WriteResult(result);
    }

    method Run<P>(call: Call<C, P>) returns (reply: Reply<P>)
      modifies this`cluster, auditor
      ensures
        var (after, actions, answer) :=
          Perform(auditor.sinks, auditor.accepts, policy, old(|auditor.history|), old(cluster), call);
        cluster == after && auditor.history == old(auditor.history) + actions && reply == answer
    {
      var code := CheckAudited(call.caller, call.descriptor, call.event);
      if code.Some? {
        return Refused(code.value);
      }
      var planned := call.plan(cluster);
      if planned.Err? {
        return PlanFailed(planned.error);
      }
      if call.dryRun {
        auditor.WriteResult(ResultEvent(call.event.(dryRun := true), Succeeded, None));
        return Planned(planned.value);
      }
      if call.confirm != call.target(planned.value) {
        return Mismatch(planned.value);
      }
      reply := Execute(call, planned.value);
    }

    // The confirmed, real run: ATTEMPT, apply, RESULT.
    method Execute<P>(call: Call<C, P>, plan: P) returns (reply: Reply<P>)
      modifies this`cluster, auditor
      ensures
        var (after, actions, answer) :=
          ExecutePlan(auditor.sinks, auditor.accepts, old(|auditor.history|), old(cluster), call, plan);
        cluster == after && auditor.history == old(auditor.history) + actions && reply == answer
    {
      var attempt := call.event.(dryRun := false);
      ghost var attempts :=
        AttemptWrites(auditor.sinks, auditor.accepts, |auditor.history|, attempt.(phase := Attempt), 0);
      var ok := auditor.WriteAttempt(attempt);
      if !ok {
        return Unaudited;
      }
      var (after, failure) := call.apply(cluster, plan);
      cluster := after;
      auditor.history := auditor.history + [Applied(call.event.id)];
      assert auditor.history == old(auditor.history) + (attempts + [Applied(call.event.id)]);
      var event := if failure.Some? then ResultEvent(attempt, Failed, Some(Port(failure.value)))
                   else ResultEvent(attempt, Succeeded, None);
      auditor.WriteResult(event);
      return if failure.Some? then ApplyFailed(plan, failure.value) else Executed(plan);
    }
  }

  // ---- One call ----

  ghost predicate Mutates(reply: Reply) { reply.ApplyFailed? || reply.Executed? }

  ghost predicate ProperPhases(phases: seq<Phase>) {
    phases == [] || phases == [Result] || phases == [Attempt] || phases == [Attempt, Result]
  }

  /** An apply at k was announced: every sink had accepted an ATTEMPT with its id. */
  ghost predicate Announced(sinks: nat, actions: seq<Action>, k: nat)
    requires k < |actions| && actions[k].Applied?
  {
    forall sink: nat :: sink < sinks ==> AcceptedBefore(actions, k, sink, actions[k].id)
  }

  ghost predicate AcceptedBefore(actions: seq<Action>, k: nat, sink: nat, id: string)
    requires k <= |actions|
  {
    exists j :: 0 <= j < k && actions[j].Wrote? && actions[j].sink == sink && actions[j].accepted
      && actions[j].event.phase == Attempt && actions[j].event.id == id
  }

  ghost predicate OwnActions(actions: seq<Action>, id: string) {
    forall k :: 0 <= k < |actions| ==> IdOf(actions[k]) == id
  }

  ghost function IdOf(a: Action): string { if a.Wrote? then a.event.id else a.id }

  /** Everything one call may do to the history, and when it may touch the cluster. */
  ghost predicate Disciplined(sinks: nat, actions: seq<Action>) {
    && (forall k :: 0 <= k < |actions| && actions[k].Applied? ==> Announced(sinks, actions, k))
    && forall i, j :: 0 <= i < j < |actions| && actions[i].Applied? && actions[j].Applied? ==>
         actions[i].id != actions[j].id
  }

  // The mutating path: accepted attempts, one apply, results.
  lemma AppliedPath(sinks: nat, accepts: Acceptance, at: nat, attempt: Event, result: Event)
    requires attempt.phase == Attempt && result.phase == Result && attempt.id == result.id
    requires AllAccepted(AttemptWrites(sinks, accepts, at, attempt, 0))
    ensures
      var attempts := AttemptWrites(sinks, accepts, at, attempt, 0);
      var results := ResultWrites(sinks, accepts, at + |attempts| + 1, result, 0);
      var actions := attempts + [Applied(attempt.id)] + results;
      && Disciplined(sinks, actions) && OwnActions(actions, attempt.id) && Applied(attempt.id) in actions
      && forall sink: nat :: ProperPhases(Seen(actions, sink, attempt.id))
  {
    var attempts := AttemptWrites(sinks, accepts, at, attempt, 0);
    var results := ResultWrites(sinks, accepts, at + |attempts| + 1, result, 0);
    var actions := attempts + [Applied(attempt.id)] + results;
    AttemptOnlyWrites(sinks, accepts, at, attempt, 0);
    ResultOnlyWrites(sinks, accepts, at + |attempts| + 1, result, 0);
    assert actions[|attempts|] == Applied(attempt.id);
    forall k | 0 <= k < |actions| && actions[k].Applied? ensures k == |attempts| && Announced(sinks, actions, k) {
      forall sink: nat | sink < sinks ensures AcceptedBefore(actions, k, sink, attempt.id) {
        AttemptReachedAll(sinks, accepts, at, attempt, 0, sink);
        var j :| 0 <= j < |attempts| && attempts[j] == Wrote(sink, attempt, true);
        assert actions[j] == attempts[j];
      }
    }
    forall sink: nat ensures ProperPhases(Seen(actions, sink, attempt.id)) {
      AppliedSeen(sinks, accepts, at, attempt, result, sink);
    }
  }

  lemma AppliedSeen(sinks: nat, accepts: Acceptance, at: nat, attempt: Event, result: Event, sink: nat)
    requires attempt.phase == Attempt && result.phase == Result && attempt.id == result.id
    requires AllAccepted(AttemptWrites(sinks, accepts, at, attempt, 0))
    ensures
      var attempts := AttemptWrites(sinks, accepts, at, attempt, 0);
      var results := ResultWrites(sinks, accepts, at + |attempts| + 1, result, 0);
      ProperPhases(Seen(attempts + [Applied(attempt.id)] + results, sink, attempt.id))
  {
    var attempts := AttemptWrites(sinks, accepts, at, attempt, 0);
    var results := ResultWrites(sinks, accepts, at + |attempts| + 1, result, 0);
    AttemptSeen(sinks, accepts, at, attempt, 0, sink);
    ResultSeen(sinks, accepts, at + |attempts| + 1, result, 0, sink);
    SeenJoins(attempts, [Applied(attempt.id)], sink, attempt.id);
    SeenJoins(attempts + [Applied(attempt.id)], results, sink, attempt.id);
    assert Seen([Applied(attempt.id)], sink, attempt.id) == [];
    assert Seen(attempts, sink, attempt.id) + [] == Seen(attempts, sink, attempt.id);
  }

  // Every other path only writes.
  lemma WritesAreDisciplined(sinks: nat, actions: seq<Action>, id: string)
    requires OnlyWrites(actions, id)
    ensures Disciplined(sinks, actions) && OwnActions(actions, id) && Applied(id) !in actions
  {
  }

  /** Apply happens at most once per call, only after the gate passed, outside a dry run,
      with a matching confirmation, and once every sink had accepted the ATTEMPT; any
      other path leaves the cluster as it was. Each sink sees nothing, a RESULT, an
      ATTEMPT, or an ATTEMPT and then a RESULT. */
  lemma CallIsDisciplined<C, P>(sinks: nat, accepts: Acceptance, policy: Policy, at: nat, cluster: C, call: Call<C, P>)
    ensures
      var (after, actions, reply) := Perform(sinks, accepts, policy, at, cluster, call);
      && Disciplined(sinks, actions) && OwnActions(actions, call.event.id)
      && (forall sink: nat :: ProperPhases(Seen(actions, sink, call.event.id)))
      && (Mutates(reply) <==> Applied(call.event.id) in actions)
      && (if Mutates(reply) then
            && Check(call.caller, call.descriptor, policy).None? && !call.dryRun
            && call.plan(cluster) == Ok(reply.plan) && call.confirm == call.target(reply.plan)
            && after == call.apply(cluster, reply.plan).0
          else after == cluster)
  {
    var (after, actions, reply) := Perform(sinks, accepts, policy, at, cluster, call);
    var id := call.event.id;
    if Mutates(reply) {
      var attempt := call.event.(dryRun := false);
      var failure := call.apply(cluster, reply.plan).1;
      var result := if failure.Some? then ResultEvent(attempt, Failed, Some(Port(failure.value)))
        else ResultEvent(attempt, Succeeded, None);
      AppliedPath(sinks, accepts, at, attempt.(phase := Attempt), result);
    } else {
      OtherPathsOnlyWrite(sinks, accepts, policy, at, cluster, call);
      WritesAreDisciplined(sinks, actions, id);
    }
  }

  lemma OtherPathsOnlyWrite<C, P>(sinks: nat, accepts: Acceptance, policy: Policy, at: nat, cluster: C,
                                  call: Call<C, P>)
    requires !Mutates(Perform(sinks, accepts, policy, at, cluster, call).2)
    ensures OnlyWrites(Perform(sinks, accepts, policy, at, cluster, call).1, call.event.id)
    ensures forall sink: nat ::
      ProperPhases(Seen(Perform(sinks, accepts, policy, at, cluster, call).1, sink, call.event.id))
  {
    var gate := Check(call.caller, call.descriptor, policy);
    if gate.Some? {
      var event := RejectedEvent(call.event, call.descriptor, call.caller, gate.value);
      ResultOnlyWrites(sinks, accepts, at, event, 0);
      forall sink: nat ensures ProperPhases(Seen(ResultWrites(sinks, accepts, at, event, 0), sink, call.event.id)) {
        ResultSeen(sinks, accepts, at, event, 0, sink);
      }
    } else if call.plan(cluster).Ok? && call.dryRun {
      var event := ResultEvent(call.event.(dryRun := true), Succeeded, None);
      ResultOnlyWrites(sinks, accepts, at, event, 0);
      forall sink: nat ensures ProperPhases(Seen(ResultWrites(sinks, accepts, at, event, 0), sink, call.event.id)) {
        ResultSeen(sinks, accepts, at, event, 0, sink);
      }
    } else if call.plan(cluster).Ok? && call.confirm == call.target(call.plan(cluster).value) {
      var event := call.event.(dryRun := false, phase := Attempt);
      AttemptOnlyWrites(sinks, accepts, at, event, 0);
      forall sink: nat ensures ProperPhases(Seen(AttemptWrites(sinks, accepts, at, event, 0), sink, call.event.id)) {
        AttemptSeen(sinks, accepts, at, event, 0, sink);
      }
    }
  }

  // ---- Whole runs ----

  /** A run of calls, one after another, from an empty history. */
  ghost function RunAll<C, P>(sinks: nat, accepts: Acceptance, policy: Policy, cluster: C, calls: seq<Call<C, P>>):
      (C, seq<Action>)
  {
    if calls == [] then (cluster, []) else
      var (before, history) := RunAll(sinks, accepts, policy, cluster, calls[..|calls| - 1]);
      var (after, actions, _) := Perform(sinks, accepts, policy, |history|, before, calls[|calls| - 1]);
      (after, history + actions)
  }

  ghost predicate DistinctIds<C, P>(calls: seq<Call<C, P>>) {
    forall i, j :: 0 <= i < j < |calls| ==> calls[i].event.id != calls[j].event.id
  }

  ghost predicate HasId<C, P>(calls: seq<Call<C, P>>, id: string) {
    exists i :: 0 <= i < |calls| && calls[i].event.id == id
  }

  lemma JoinDisciplined(sinks: nat, a: seq<Action>, b: seq<Action>, id: string)
    requires Disciplined(sinks, a) && Disciplined(sinks, b) && OwnActions(b, id)
    requires forall k :: 0 <= k < |a| ==> IdOf(a[k]) != id
    ensures Disciplined(sinks, a + b)
  {
    var ab := a + b;
    forall k | 0 <= k < |ab| && ab[k].Applied? ensures Announced(sinks, ab, k) {
      forall sink: nat | sink < sinks ensures AcceptedBefore(ab, k, sink, ab[k].id) {
        if k < |a| {
          assert Announced(sinks, a, k) && AcceptedBefore(a, k, sink, a[k].id);
          var j :| 0 <= j < k && a[j].Wrote? && a[j].sink == sink && a[j].accepted
            && a[j].event.phase == Attempt && a[j].event.id == a[k].id;
          assert ab[j] == a[j];
        } else {
          var m := k - |a|;
          assert Announced(sinks, b, m) && AcceptedBefore(b, m, sink, b[m].id);
          var j :| 0 <= j < m && b[j].Wrote? && b[j].sink == sink && b[j].accepted
            && b[j].event.phase == Attempt && b[j].event.id == b[m].id;
          assert ab[|a| + j] == b[j];
        }
      }
    }
    forall i, j | 0 <= i < j < |ab| && ab[i].Applied? && ab[j].Applied? ensures ab[i].id != ab[j].id {
      if i < |a| <= j {
        assert IdOf(a[i]) != id && IdOf(b[j - |a|]) == id;
      }
    }
  }

  /** The audit protocol over any run, with any plans, applies and sink failures: no
      apply without every sink's acceptance of its own ATTEMPT, at most one apply per
      event id, and per sink and id a proper sequence of phases. */
  lemma {:induction false} RunIsDisciplined<C, P>(sinks: nat, accepts: Acceptance, policy: Policy, cluster: C,
                                                  calls: seq<Call<C, P>>)
    requires DistinctIds(calls)
    ensures
      var history := RunAll(sinks, accepts, policy, cluster, calls).1;
      && Disciplined(sinks, history)
      && (forall k :: 0 <= k < |history| ==> HasId(calls, IdOf(history[k])))
      && forall sink: nat, id :: ProperPhases(Seen(history, sink, id))
  {
    if calls != [] {
      var n := |calls| - 1;
      var init, call := calls[..n], calls[n];
      RunIsDisciplined(sinks, accepts, policy, cluster, init);
      var (before, history) := RunAll(sinks, accepts, policy, cluster, init);
      CallIsDisciplined(sinks, accepts, policy, |history|, before, call);
      var actions := Perform(sinks, accepts, policy, |history|, before, call).1;
      EarlierIds(calls, history);
      OneMoreCall(sinks, history, actions, call.event.id);
      forall k | 0 <= k < |history + actions| ensures HasId(calls, IdOf((history + actions)[k])) {
        if k >= |history| {
          assert calls[n].event.id == IdOf(actions[k - |history|]);
        }
      }
    }
  }

  lemma EarlierIds<C, P>(calls: seq<Call<C, P>>, history: seq<Action>)
    requires DistinctIds(calls) && calls != []
    requires forall k :: 0 <= k < |history| ==> HasId(calls[..|calls| - 1], IdOf(history[k]))
    ensures forall k :: 0 <= k < |history| ==>
      IdOf(history[k]) != calls[|calls| - 1].event.id && HasId(calls, IdOf(history[k]))
  {
    var n := |calls| - 1;
    forall k | 0 <= k < |history| ensures IdOf(history[k]) != calls[n].event.id && HasId(calls, IdOf(history[k])) {
      assert HasId(calls[..n], IdOf(history[k]));
      var i :| 0 <= i < n && calls[..n][i].event.id == IdOf(history[k]);
      assert calls[i].event.id == IdOf(history[k]);
    }
  }

  lemma OneMoreCall(sinks: nat, history: seq<Action>, actions: seq<Action>, id: string)
    requires Disciplined(sinks, history) && Disciplined(sinks, actions) && OwnActions(actions, id)
    requires forall k :: 0 <= k < |history| ==> IdOf(history[k]) != id
    requires forall sink: nat, other :: ProperPhases(Seen(history, sink, other))
    requires forall sink: nat :: ProperPhases(Seen(actions, sink, id))
    ensures Disciplined(sinks, history + actions)
    ensures forall sink: nat, other :: ProperPhases(Seen(history + actions, sink, other))
  {
    JoinDisciplined(sinks, history, actions, id);
    forall sink: nat, other ensures ProperPhases(Seen(history + actions, sink, other)) {
      SeenJoins(history, actions, sink, other);
      if other == id {
        SeenNone(history, sink, other);
      } else {
        SeenNone(actions, sink, other);
      }
    }
  }

  lemma {:induction false} SeenNone(actions: seq<Action>, sink: nat, id: string)
    requires forall k :: 0 <= k < |actions| ==> IdOf(actions[k]) != id
    ensures Seen(actions, sink, id) == []
  {
    if actions != [] {
      SeenNone(actions[..|actions| - 1], sink, id);
    }
  }

  /** Read-only mode: no run of W commands changes the cluster or applies anything,
      break-glass or not. */
  lemma {:induction false} ReadOnlyNeverChanges<C, P>(sinks: nat, accepts: Acceptance, policy: Policy, cluster: C,
                                                      calls: seq<Call<C, P>>)
    requires policy.readOnly && forall i :: 0 <= i < |calls| ==> calls[i].descriptor.access == W
    ensures RunAll(sinks, accepts, policy, cluster, calls).0 == cluster
    ensures forall a :: a in RunAll(sinks, accepts, policy, cluster, calls).1 ==> a.Wrote? && a.event.phase == Result
  {
    if calls != [] {
      var n := |calls| - 1;
      ReadOnlyNeverChanges(sinks, accepts, policy, cluster, calls[..n]);
      var history, call := RunAll(sinks, accepts, policy, cluster, calls[..n]).1, calls[n];
      var gate := Check(call.caller, call.descriptor, policy);
      ResultsAreResults(sinks, accepts, |history|,
                        RejectedEvent(call.event, call.descriptor, call.caller, gate.value), 0);
    }
  }

  lemma {:induction false} ResultsAreResults(sinks: nat, accepts: Acceptance, at: nat, ev: Event, from: nat)
    ensures forall a :: a in ResultWrites(sinks, accepts, at, ev, from) ==> a.Wrote? && a.event == ev
    decreases sinks - from
  {
    if from < sinks {
      ResultsAreResults(sinks, accepts, at + 1, ev, from + 1);
    }
  }

  /** The cluster changes through applies alone: a run whose history holds none leaves
      it exactly as it was, whatever its calls would have done. */
  lemma {:induction false} NoApplyNoChange<C, P>(sinks: nat, accepts: Acceptance, policy: Policy, cluster: C,
                                                 calls: seq<Call<C, P>>)
    requires forall a :: a in RunAll(sinks, accepts, policy, cluster, calls).1 ==> !a.Applied?
    ensures RunAll(sinks, accepts, policy, cluster, calls).0 == cluster
  {
    if calls != [] {
      var n := |calls| - 1;
      var (before, history) := RunAll(sinks, accepts, policy, cluster, calls[..n]);
      var actions := Perform(sinks, accepts, policy, |history|, before, calls[n]).1;
      assert RunAll(sinks, accepts, policy, cluster, calls).1 == history + actions;
      NoApplyNoChange(sinks, accepts, policy, cluster, calls[..n]);
      CallIsDisciplined(sinks, accepts, policy, |history|, before, calls[n]);
    }
  }

  /** A dry run is reported INFO exactly when no break-glass reason was given and the
      command is not one whose success is always HIGH. */
  lemma DryRunIsInfoIff(attempt: Event)
    ensures ResultEvent(attempt.(dryRun := true), Succeeded, None).severity == Info <==>
      !attempt.breakGlass && attempt.commandID !in HIGH_COMMANDS
  {
  }
}

/** What the audit trail says of a call, and which reply goes with it
    (internal/service/core/destructive.go, internal/audit/event.go). */
module AuditTrail {
  import opened Kafka
  import opened Audit
  import opened Destructive

  // ---- Events, literally ----

  /** The severity an outcome is reported with. */
  ghost predicate IsSeverity(severity: Severity, commandID: string, outcome: Disposition, breakGlass: bool) {
    match severity
    case High => breakGlass || (outcome == Succeeded && commandID in {"T7", "T8", "T11", "T12", "G5"})
    case Warn => !breakGlass && outcome in {Failed, Rejected}
    case Info =>
      !breakGlass && outcome !in {Failed, Rejected}
      && (outcome == Succeeded ==> commandID !in {"T7", "T8", "T11", "T12", "G5"})
  }

  /** What every event of a call carries over from the one the caller built. */
  ghost predicate SameCall(ev: Event, base: Event) {
    ev.id == base.id && ev.commandID == base.commandID && ev.breakGlass == base.breakGlass
  }

  /** The RESULT a call writes, by its reply; the other replies write none. */
  ghost predicate TellsResult<C, P>(call: Call<C, P>, reply: Reply<P>, ev: Event) {
    && ev.phase == Result && SameCall(ev, call.event)
    && match reply
       case Refused(code) =>
         && ev.outcome == Rejected && ev.error == Some(code) && ev.dryRun == call.event.dryRun
         && ev.severity == if call.caller.breakGlassReason != "" then High else Warn
       case Planned(_) =>
         && ev.outcome == Succeeded && ev.error == call.event.error && ev.dryRun
         && IsSeverity(ev.severity, call.event.commandID, Succeeded, call.event.breakGlass)
       case ApplyFailed(_, error) =>
         && ev.outcome == Failed && ev.error == Some(Code.Port(error)) && !ev.dryRun
         && ev.severity == if call.event.breakGlass then High else Warn
       case Executed(_) =>
         && ev.outcome == Succeeded && ev.error == call.event.error && !ev.dryRun
         && IsSeverity(ev.severity, call.event.commandID, Succeeded, call.event.breakGlass)
       case _ => false
  }

  /** The ATTEMPT is the caller's own event, for a real run. */
  ghost predicate TellsAttempt(ev: Event, base: Event) {
    && ev.phase == Attempt && SameCall(ev, base) && !ev.dryRun
    && ev.outcome == base.outcome && ev.error == base.error && ev.severity == base.severity
  }

  lemma ResultsTell(sinks: nat, accepts: Acceptance, at: nat, ev: Event)
    ensures forall a :: a in ResultWrites(sinks, accepts, at, ev, 0) ==> a.Wrote? && a.event == ev
  {
    ResultsAreResults(sinks, accepts, at, ev, 0);
  }

  lemma {:induction false} AttemptsTell(sinks: nat, accepts: Acceptance, at: nat, ev: Event, from: nat)
    ensures forall a :: a in AttemptWrites(sinks, accepts, at, ev, from) ==> a.Wrote? && a.event == ev
    decreases sinks - from
  {
    if from < sinks {
      AttemptsTell(sinks, accepts, at + 1, ev, from + 1);
    }
  }

  ghost predicate TellsTruth<C, P>(call: Call<C, P>, reply: Reply<P>, actions: seq<Action>) {
    forall a :: a in actions && a.Wrote? ==>
      if a.event.phase == Result then TellsResult(call, reply, a.event) else TellsAttempt(a.event, call.event)
  }

  /** Every event a call writes tells the truth: a refusal is REJECTED with its code, a
      failed apply FAILED with the port's error, a success SUCCEEDED, and a dry run says
      that it was one. */
  lemma TrailTellsTruth<C, P>(sinks: nat, accepts: Acceptance, policy: Policy, at: nat, cluster: C, call: Call<C, P>)
    ensures
      var (after, actions, reply) := Perform(sinks, accepts, policy, at, cluster, call);
      TellsTruth(call, reply, actions)
  {
    hide AttemptWrites, ResultWrites;
    var (after, actions, reply) := Perform(sinks, accepts, policy, at, cluster, call);
    match reply
    case Refused(code) =>
      ResultsTell(sinks, accepts, at, RejectedEvent(call.event, call.descriptor, call.caller, code));
    case Planned(_) =>
      ResultsTell(sinks, accepts, at, ResultEvent(call.event.(dryRun := true), Succeeded, None));
    case PlanFailed(_) =>
    case Mismatch(_) =>
    case Unaudited =>
      AttemptsTell(sinks, accepts, at, call.event.(dryRun := false, phase := Attempt), 0);
    case _ =>
      AppliedTells(sinks, accepts, at, cluster, call, reply.plan);
  }

  lemma AppliedTells<C, P>(sinks: nat, accepts: Acceptance, at: nat, cluster: C, call: Call<C, P>, plan: P)
    ensures
      var (after, actions, reply) := ExecutePlan(sinks, accepts, at, cluster, call, plan);
      TellsTruth(call, reply, actions)
  {
    hide AttemptWrites, ResultWrites;
    var attempt := call.event.(dryRun := false);
    var attempts := AttemptWrites(sinks, accepts, at, attempt.(phase := Attempt), 0);
    var failure := call.apply(cluster, plan).1;
    AttemptsTell(sinks, accepts, at, attempt.(phase := Attempt), 0);
    if failure.Some? {
      ResultsTell(sinks, accepts, at + |attempts| + 1, ResultEvent(attempt, Failed, Some(Code.Port(failure.value))));
    } else {
      ResultsTell(sinks, accepts, at + |attempts| + 1, ResultEvent(attempt, Succeeded, None));
    }
  }

  // ---- Who is told ----

  /** What each sink is sent, by the reply: a RESULT for a refusal or a dry run, both
      phases for an apply, at most an ATTEMPT when one was not accepted, else nothing. */
  ghost predicate Told(reply: Reply, seen: seq<Phase>) {
    match reply
    case Refused(_) => seen == [Result]
    case Planned(_) => seen == [Result]
    case PlanFailed(_) => seen == []
    case Mismatch(_) => seen == []
    case Unaudited => seen == [] || seen == [Attempt]
    case ApplyFailed(_, _) => seen == [Attempt, Result]
    case Executed(_) => seen == [Attempt, Result]
  }

  lemma EverySinkIsTold<C, P>(sinks: nat, accepts: Acceptance, policy: Policy, at: nat, cluster: C, call: Call<C, P>,
                              sink: nat)
    requires sink < sinks
    ensures
      var (after, actions, reply) := Perform(sinks, accepts, policy, at, cluster, call);
      Told(reply, Seen(actions, sink, call.event.id))
  {
    hide AttemptWrites, ResultWrites, Seen;
    var (after, actions, reply) := Perform(sinks, accepts, policy, at, cluster, call);
    match reply
    case Refused(code) =>
      ResultSeen(sinks, accepts, at, RejectedEvent(call.event, call.descriptor, call.caller, code), 0, sink);
    case Planned(_) =>
      ResultSeen(sinks, accepts, at, ResultEvent(call.event.(dryRun := true), Succeeded, None), 0, sink);
    case PlanFailed(_) =>
      NothingSeen(sink, call.event.id);
    case Mismatch(_) =>
      NothingSeen(sink, call.event.id);
    case Unaudited =>
      AttemptSeen(sinks, accepts, at, call.event.(dryRun := false, phase := Attempt), 0, sink);
    case _ =>
      AppliedIsTold(sinks, accepts, at, cluster, call, reply.plan, sink);
  }

  lemma NothingSeen(sink: nat, id: string)
    ensures Seen([], sink, id) == []
  {
  }

  lemma AppliedIsTold<C, P>(sinks: nat, accepts: Acceptance, at: nat, cluster: C, call: Call<C, P>, plan: P, sink: nat)
    requires sink < sinks && Mutates(ExecutePlan(sinks, accepts, at, cluster, call, plan).2)
    ensures Seen(ExecutePlan(sinks, accepts, at, cluster, call, plan).1, sink, call.event.id) == [Attempt, Result]
  {
    hide AttemptWrites, ResultWrites, Seen, AllAccepted, SeverityFor;
    var attempt := call.event.(dryRun := false);
    var failure := call.apply(cluster, plan).1;
    var result := if failure.Some? then ResultEvent(attempt, Failed, Some(Code.Port(failure.value)))
      else ResultEvent(attempt, Succeeded, None);
    BothSeen(sinks, accepts, at, attempt.(phase := Attempt), result, sink);
  }

  lemma BothSeen(sinks: nat, accepts: Acceptance, at: nat, attempt: Event, result: Event, sink: nat)
    requires attempt.phase == Attempt && result.phase == Result && attempt.id == result.id && sink < sinks
    requires AllAccepted(AttemptWrites(sinks, accepts, at, attempt, 0))
    ensures
      var attempts := AttemptWrites(sinks, accepts, at, attempt, 0);
      var done := attempts + [Applied(attempt.id)];
      Seen(done + ResultWrites(sinks, accepts, at + |done|, result, 0), sink, attempt.id) == [Attempt, Result]
  {
    hide AttemptWrites, ResultWrites, Seen, AllAccepted;
    var attempts := AttemptWrites(sinks, accepts, at, attempt, 0);
    var done := attempts + [Applied(attempt.id)];
    var results := ResultWrites(sinks, accepts, at + |done|, result, 0);
    AttemptSeen(sinks, accepts, at, attempt, 0, sink);
    ResultSeen(sinks, accepts, at + |done|, result, 0, sink);
    SeenJoins(attempts, [Applied(attempt.id)], sink, attempt.id);
    SeenJoins(done, results, sink, attempt.id);
    NotAWrite(attempt.id, sink);
    assert [Attempt] + [] + [Result] == [Attempt, Result];
  }

  lemma NotAWrite(id: string, sink: nat)
    ensures Seen([Applied(id)], sink, id) == []
  {
    assert [Applied(id)][..0] == [];
  }

  // ---- Which reply ----

  /** A sink accepts what comes in its turn, the sinks being written to in order. */
  ghost predicate InTurn(accepts: Acceptance, base: int, sink: nat) {
    base + sink >= 0 && accepts(sink, base + sink)
  }

  /** Every ATTEMPT is accepted exactly when every sink accepts it in its turn. */
  lemma {:induction false} AllAcceptedIff(sinks: nat, accepts: Acceptance, base: int, ev: Event, from: nat)
    requires from <= sinks && base + from >= 0
    ensures AllAccepted(AttemptWrites(sinks, accepts, base + from, ev, from)) <==>
      forall sink: nat :: from <= sink < sinks ==> InTurn(accepts, base, sink)
    decreases sinks - from
  {
    if from < sinks {
      var writes := AttemptWrites(sinks, accepts, base + from, ev, from);
      if accepts(from, base + from) {
        AllAcceptedIff(sinks, accepts, base, ev, from + 1);
        FirstAccepted(Wrote(from, ev, true), AttemptWrites(sinks, accepts, base + from + 1, ev, from + 1));
      } else {
        assert !writes[0].accepted && !InTurn(accepts, base, from);
      }
    }
  }

  lemma FirstAccepted(first: Action, rest: seq<Action>)
    requires first.Wrote? && first.accepted
    ensures AllAccepted([first] + rest) <==> AllAccepted(rest)
  {
    RestAccepted([first], rest);
  }

  /** The sinks are written to in order: an ATTEMPT up to and including the first that
      refuses it, a RESULT to every one whatever the others answered. */
  lemma {:induction false} AttemptStops(sinks: nat, accepts: Acceptance, at: nat, ev: Event, from: nat)
    requires from <= sinks
    ensures
      var writes := AttemptWrites(sinks, accepts, at, ev, from);
      && |writes| <= sinks - from
      && (forall k :: 0 <= k < |writes| ==> writes[k] == Wrote(from + k, ev, accepts(from + k, at + k)))
      && (forall k :: 0 <= k < |writes| - 1 ==> writes[k].accepted)
      && (|writes| < sinks - from ==> writes != [] && !writes[|writes| - 1].accepted)
    decreases sinks - from
  {
    if from < sinks && accepts(from, at) {
      AttemptStops(sinks, accepts, at + 1, ev, from + 1);
      var rest := AttemptWrites(sinks, accepts, at + 1, ev, from + 1);
      assert forall k :: 0 < k <= |rest| ==> ([Wrote(from, ev, true)] + rest)[k] == rest[k - 1];
    }
  }

  lemma {:induction false} ResultReachesAll(sinks: nat, accepts: Acceptance, at: nat, ev: Event, from: nat)
    requires from <= sinks
    ensures
      var writes := ResultWrites(sinks, accepts, at, ev, from);
      && |writes| == sinks - from
      && forall k :: 0 <= k < |writes| ==> writes[k] == Wrote(from + k, ev, accepts(from + k, at + k))
    decreases sinks - from
  {
    if from < sinks {
      ResultReachesAll(sinks, accepts, at + 1, ev, from + 1);
    }
  }

  /** Past the gate and a plan, confirmed and for real. */
  ghost predicate GoesAhead<C, P>(policy: Policy, cluster: C, call: Call<C, P>, plan: P) {
    && Check(call.caller, call.descriptor, policy) == None && call.plan(cluster) == Ok(plan)
    && !call.dryRun && call.confirm == call.target(plan)
  }

  /** Which reply a call gets. The audit refuses it exactly when some sink does not accept
      its ATTEMPT in its turn; a call that was applied is answered by what apply said. */
  lemma ReplyIff<C, P(!new)>(sinks: nat, accepts: Acceptance, policy: Policy, at: nat, cluster: C, call: Call<C, P>)
    ensures
      var reply := Perform(sinks, accepts, policy, at, cluster, call).2;
      var heard := forall sink: nat :: sink < sinks ==> InTurn(accepts, at, sink);
      && (forall code :: reply == Refused(code) <==> Check(call.caller, call.descriptor, policy) == Some(code))
      && (reply.PlanFailed? <==> Check(call.caller, call.descriptor, policy) == None && call.plan(cluster).Err?)
      && (reply.PlanFailed? ==> call.plan(cluster) == Err(reply.error))
      && (reply.Planned? <==>
            Check(call.caller, call.descriptor, policy) == None && call.plan(cluster).Ok? && call.dryRun)
      && (reply.Mismatch? <==>
            && Check(call.caller, call.descriptor, policy) == None && call.plan(cluster).Ok? && !call.dryRun
            && call.confirm != call.target(call.plan(cluster).value))
      && (reply.Planned? || reply.Mismatch? ==> call.plan(cluster) == Ok(reply.plan))
      && (reply.Unaudited? <==> !heard && exists plan :: GoesAhead(policy, cluster, call, plan))
      && (Mutates(reply) <==> heard && exists plan :: GoesAhead(policy, cluster, call, plan))
      && (Mutates(reply) ==> GoesAhead(policy, cluster, call, reply.plan))
      && (reply.Executed? <==> Mutates(reply) && call.apply(cluster, reply.plan).1 == None)
      && (reply.ApplyFailed? ==> call.apply(cluster, reply.plan).1 == Some(reply.error))
  {
    hide AttemptWrites, ResultWrites, AllAccepted;
    AllAcceptedIff(sinks, accepts, at, call.event.(dryRun := false, phase := Attempt), 0);
    if call.plan(cluster).Ok? {
      var plan := call.plan(cluster).value;
      assert GoesAhead(policy, cluster, call, plan) || forall p :: !GoesAhead(policy, cluster, call, p);
    }
  }

  // ---- Which refusal ----

  /** The gate's reasons in their order: the tier before read-only mode, that before a
      disabled command, and the data-plane lock last. */
  lemma GateReasons(caller: Caller, d: Descriptor, policy: Policy)
    ensures Check(caller, d, policy) == Some(TierForbidden) <==> d.access == W && caller.tier != "operator"
    ensures Check(caller, d, policy) == Some(ReadOnlyMode) <==>
      d.access == W && caller.tier == "operator" && policy.readOnly
    ensures Check(caller, d, policy) == Some(OperationDisabled) <==>
      d.access == W && caller.tier == "operator" && !policy.readOnly && d.id in policy.disabled
    ensures Check(caller, d, policy) == Some(DataPlaneLocked) <==>
      && d.dataPlane && policy.dataPlaneLock && (caller.tier == "operator" ==> caller.breakGlassReason == "")
      && (d.access == W ==> caller.tier == "operator" && !policy.readOnly && d.id !in policy.disabled)
  {
  }
}

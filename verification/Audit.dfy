/** Gates, audit events and the auditor's writes (internal/service/gates/check.go,
    internal/audit/event.go, internal/audit/auditor.go). */
module Audit {
  import opened Kafka

  datatype Access = R | W
  datatype Descriptor = Descriptor(id: string, access: Access, dataPlane: bool)
  datatype Caller = Caller(tier: string, breakGlassReason: string)
  datatype Policy = Policy(readOnly: bool, dataPlaneLock: bool, disabled: set<string>)

  const OPERATOR := "operator"

  datatype Code =
    | TierForbidden | ReadOnlyMode | OperationDisabled | DataPlaneLocked
    | ConfirmationMismatch | AuditUnavailable | BulkValidationFailed | Port(error: Error)

  function Check(caller: Caller, d: Descriptor, policy: Policy): Option<Code> {
    if d.access == W && caller.tier != OPERATOR then Some(TierForbidden)
    else if d.access == W && policy.readOnly then Some(ReadOnlyMode)
    else if d.access == W && d.id in policy.disabled then Some(OperationDisabled)
    else if d.dataPlane && policy.dataPlaneLock && (caller.breakGlassReason == "" || caller.tier != OPERATOR)
    then Some(DataPlaneLocked)
    else None
  }

  /** What gets through the gate; in particular a break-glass reason opens the
      data-plane lock to an operator and nothing else. */
  lemma GatePassesIff(caller: Caller, d: Descriptor, policy: Policy)
    ensures Check(caller, d, policy).None? <==>
      && (d.access == W ==> caller.tier == OPERATOR && !policy.readOnly && d.id !in policy.disabled)
      && (d.dataPlane && policy.dataPlaneLock ==> caller.tier == OPERATOR && caller.breakGlassReason != "")
    ensures Check(caller.(breakGlassReason := ""), d, policy) !in {None, Some(DataPlaneLocked)} ==>
      Check(caller, d, policy) == Check(caller.(breakGlassReason := ""), d, policy)
  {
  }

  // ---- Events ----

  datatype Phase = Attempt | Result
  datatype Severity = Info | Warn | High
  datatype Disposition = Pending | Succeeded | Failed | Rejected

  datatype Event = Event(
    id: string, phase: Phase, severity: Severity, commandID: string, dryRun: bool,
    breakGlass: bool, outcome: Disposition, error: Option<Code>)

  const HIGH_COMMANDS := {"T7", "T8", "T11", "T12", "G5"}

  function SeverityFor(commandID: string, outcome: Disposition, breakGlass: bool): Severity {
    if breakGlass then High
    else if outcome == Rejected || outcome == Failed then Warn
    else if outcome == Succeeded && commandID in HIGH_COMMANDS then High
    else Info
  }

  function ResultEvent(attempt: Event, outcome: Disposition, error: Option<Code>): Event {
    attempt.(phase := Result, outcome := outcome,
             severity := SeverityFor(attempt.commandID, outcome, attempt.breakGlass),
             error := if error.Some? then error else attempt.error)
  }

  function RejectedEvent(attempt: Event, d: Descriptor, caller: Caller, code: Code): Event {
    attempt.(phase := Result, outcome := Rejected, error := Some(code),
             severity := SeverityFor(d.id, Rejected, caller.breakGlassReason != ""))
  }

  // ---- What happened, in order ----

  /** One write to one sink, or the one mutation of a call. */
  datatype Action = Wrote(sink: nat, event: Event, accepted: bool) | Applied(id: string)

  /** Whether a sink accepts a write, by sink and position in the whole history: any
      pattern of failures. */
  type Acceptance = (nat, nat) -> bool

  /** Attempt's writes from one sink on: in order, up to and including the first refusal. */
  function AttemptWrites(sinks: nat, accepts: Acceptance, at: nat, ev: Event, from: nat): seq<Action>
    decreases sinks - from
  {
    if from >= sinks then []
    else if !accepts(from, at) then [Wrote(from, ev, false)]
    else [Wrote(from, ev, true)] + AttemptWrites(sinks, accepts, at + 1, ev, from + 1)
  }

  /** Result's writes: every sink, whatever the others answered. */
  function ResultWrites(sinks: nat, accepts: Acceptance, at: nat, ev: Event, from: nat): seq<Action>
    decreases sinks - from
  {
    if from >= sinks then []
    else [Wrote(from, ev, accepts(from, at))] + ResultWrites(sinks, accepts, at + 1, ev, from + 1)
  }

  function AllAccepted(actions: seq<Action>): bool {
    forall k :: 0 <= k < |actions| ==> actions[k].Wrote? && actions[k].accepted
  }

  class Auditor {
    const sinks: nat
    const accepts: Acceptance
    var history: seq<Action>

    constructor (sinks: nat, accepts: Acceptance)
      ensures this.sinks == sinks && this.accepts == accepts && history == []
    {
      this.sinks, this.accepts, history := sinks, accepts, [];
    }

    method Write(sink: nat, ev: Event) returns (accepted: bool)
      modifies this
      ensures accepted == accepts(sink, old(|history|)) && history == old(history) + [Wrote(sink, ev, accepted)]
    {
      accepted := accepts(sink, |history|);
      history := history + [Wrote(sink, ev, accepted)];
    }

    method WriteAttempt(ev: Event) returns (ok: bool)
      modifies this
      ensures history == old(history) + AttemptWrites(sinks, accepts, old(|history|), ev.(phase := Attempt), 0)
      ensures ok == AllAccepted(AttemptWrites(sinks, accepts, old(|history|), ev.(phase := Attempt), 0))
    {
      var attempt := ev.(phase := Attempt);
      ghost var n, goal := |history|, AttemptWrites(sinks, accepts, |history|, attempt, 0);
      for i := 0 to sinks
        invariant history + AttemptWrites(sinks, accepts, |history|, attempt, i) == old(history) + goal
        invariant n <= |history|
        invariant forall k :: n <= k < |history| ==> history[k].Wrote? && history[k].accepted
      {
        var accepted := Write(i, attempt);
        if !accepted {
          assert history == old(history) + goal;
          assert goal[|history| - 1 - n] == history[|history| - 1];
          return false;
        }
      }
      assert history == old(history) + goal;
      assert forall k :: 0 <= k < |goal| ==> goal[k] == history[n + k];
      return true;
    }

    method WriteResult(ev: Event)
      modifies this
      ensures history == old(history) + ResultWrites(sinks, accepts, old(|history|), ev.(phase := Result), 0)
    {
      var result := ev.(phase := Result);
      ghost var goal := ResultWrites(sinks, accepts, |history|, result, 0);
      for i := 0 to sinks
        invariant history + ResultWrites(sinks, accepts, |history|, result, i) == old(history) + goal
      {
        var _ := Write(i, result);
      }
    }
  }

  // ---- One sink's view ----

  /** The phases one sink is sent under one event id. */
  ghost function Seen(actions: seq<Action>, sink: nat, id: string): seq<Phase> {
    if actions == [] then [] else
      var last := actions[|actions| - 1];
      Seen(actions[..|actions| - 1], sink, id)
      + if last.Wrote? && last.sink == sink && last.event.id == id then [last.event.phase] else []
  }

  lemma {:induction false} SeenJoins(a: seq<Action>, b: seq<Action>, sink: nat, id: string)
    ensures Seen(a + b, sink, id) == Seen(a, sink, id) + Seen(b, sink, id)
  {
    if b == [] {
      assert a + b == a;
    } else {
      assert (a + b)[..|a + b| - 1] == a + b[..|b| - 1];
      SeenJoins(a, b[..|b| - 1], sink, id);
    }
  }

  /** Attempt reaches each sink at most once, and all of them when it succeeds. */
  lemma {:induction false} AttemptSeen(sinks: nat, accepts: Acceptance, at: nat, ev: Event, from: nat, sink: nat)
    ensures
      var seen := Seen(AttemptWrites(sinks, accepts, at, ev, from), sink, ev.id);
      && (seen == [] || seen == [ev.phase])
      && (sink < from ==> seen == [])
      && (AllAccepted(AttemptWrites(sinks, accepts, at, ev, from)) && from <= sink < sinks ==> seen == [ev.phase])
    decreases sinks - from
  {
    if from < sinks && accepts(from, at) {
      var first, rest := [Wrote(from, ev, true)], AttemptWrites(sinks, accepts, at + 1, ev, from + 1);
      AttemptSeen(sinks, accepts, at + 1, ev, from + 1, sink);
      SeenJoins(first, rest, sink, ev.id);
      assert first[..0] == [];
      RestAccepted(first, rest);
    }
  }

  lemma RestAccepted(first: seq<Action>, rest: seq<Action>)
    ensures AllAccepted(first + rest) ==> AllAccepted(rest)
  {
    assert forall k :: 0 <= k < |rest| ==> rest[k] == (first + rest)[|first| + k];
  }

  lemma {:induction false} ResultSeen(sinks: nat, accepts: Acceptance, at: nat, ev: Event, from: nat, sink: nat)
    ensures Seen(ResultWrites(sinks, accepts, at, ev, from), sink, ev.id) ==
      if from <= sink < sinks then [ev.phase] else []
    decreases sinks - from
  {
    if from < sinks {
      var first, rest := [Wrote(from, ev, accepts(from, at))], ResultWrites(sinks, accepts, at + 1, ev, from + 1);
      ResultSeen(sinks, accepts, at + 1, ev, from + 1, sink);
      SeenJoins(first, rest, sink, ev.id);
      assert first[..0] == [];
    }
  }

  /** A successful attempt was accepted by every sink. */
  lemma {:induction false} AttemptReachedAll(sinks: nat, accepts: Acceptance, at: nat, ev: Event, from: nat, sink: nat)
    requires AllAccepted(AttemptWrites(sinks, accepts, at, ev, from)) && from <= sink < sinks
    ensures Wrote(sink, ev, true) in AttemptWrites(sinks, accepts, at, ev, from)
    decreases sinks - from
  {
    var writes := AttemptWrites(sinks, accepts, at, ev, from);
    assert writes[0].accepted;
    if from < sink {
      assert writes == [Wrote(from, ev, true)] + AttemptWrites(sinks, accepts, at + 1, ev, from + 1);
      assert forall k :: 0 <= k < |writes| - 1 ==> writes[1..][k] == writes[k + 1];
      AttemptReachedAll(sinks, accepts, at + 1, ev, from + 1, sink);
    }
  }

  ghost predicate OnlyWrites(actions: seq<Action>, id: string) {
    forall k :: 0 <= k < |actions| ==> actions[k].Wrote? && actions[k].event.id == id
  }

  lemma {:induction false} AttemptOnlyWrites(sinks: nat, accepts: Acceptance, at: nat, ev: Event, from: nat)
    ensures OnlyWrites(AttemptWrites(sinks, accepts, at, ev, from), ev.id)
    decreases sinks - from
  {
    if from < sinks {
      AttemptOnlyWrites(sinks, accepts, at + 1, ev, from + 1);
    }
  }

  lemma {:induction false} ResultOnlyWrites(sinks: nat, accepts: Acceptance, at: nat, ev: Event, from: nat)
    ensures OnlyWrites(ResultWrites(sinks, accepts, at, ev, from), ev.id)
    decreases sinks - from
  {
    if from < sinks {
      ResultOnlyWrites(sinks, accepts, at + 1, ev, from + 1);
    }
  }
}

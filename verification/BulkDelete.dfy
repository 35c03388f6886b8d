/** Deleting many topics under one plan token (internal/service/topic/delete.go). */
module BulkDelete {
  import opened Kafka
  import opened FakeCluster
  import opened FakeServer
  import opened Maps
  import opened Names
  import opened PlanToken
  import opened Seqs
  import opened Strings
  import Bulk

  datatype Plan = Plan(topics: seq<string>, planToken: string)

  /** The topics a request means: those matching the pattern, internal ones included, or
      else those it lists, existing or not. */
  ghost function Meant(topics: map<string, Topic>, listed: seq<string>, pattern: Option<string -> bool>): set<string> {
    if pattern.Some? then set name | name in topics && pattern.value(name) else Elements(listed)
  }

  ghost predicate IsPlan(hash: string -> string, meant: set<string>, plan: Plan) {
    && StrictlyAscending(plan.topics) && Elements(plan.topics) == meant
    && IsToken(hash, "T8", meant, plan.planToken)
  }

  method ResolveTargets(admin: Fake, listed: seq<string>, pattern: Option<string -> bool>)
    returns (r: Result<seq<string>>)
    ensures r.Err? <==> pattern.None? && listed == []
    ensures r.Err? ==> r.error == Validation
    ensures r.Ok? ==> StrictlyAscending(r.value) && Elements(r.value) == Meant(admin.topics, listed, pattern)
    ensures r.Ok? ==> forall name :: name in Elements(r.value) <==>
      if pattern.Some? then name in admin.topics && pattern.value(name) else name in listed
  {
    var unique: seq<string> := [];
    if pattern.Some? {
      unique := KeysOf(map name | name in admin.topics && pattern.value(name) :: name);
    } else if listed == [] {
      return Err(Validation);
    } else {
      var seen := {};
      for i := 0 to |listed|
        invariant Distinct(unique) && seen == Elements(unique) == Elements(listed[..i])
      {
        ElementsSnoc(listed, i);
        if listed[i] !in seen {
          assert forall k :: 0 <= k < |unique| ==> unique[k] in Elements(unique);
          unique, seen := unique + [listed[i]], seen + {listed[i]};
        }
      }
      assert listed[..|listed|] == listed;
    }
    var sorted := SortNames(unique);
    DistinctSortedAscends(unique, sorted);
    SameMultisetSameElements(unique, sorted);
    return Ok(sorted);
  }

  method PlanBulkDelete(hash: string -> string, admin: Fake, listed: seq<string>, pattern: Option<string -> bool>)
    returns (r: Result<Plan>)
    ensures r.Err? <==> pattern.None? && listed == []
    ensures r.Ok? ==> IsPlan(hash, Meant(admin.topics, listed, pattern), r.value)
  {
    var resolved := ResolveTargets(admin, listed, pattern);
    if resolved.Err? {
      return Err(resolved.error);
    }
    var token := Token(hash, "T8", resolved.value);
    return Ok(Plan(resolved.value, token));
  }

  /** One failure fails only itself: every existing topic of the plan goes, every other
      stays, and with a plan that lists each topic once the failed items are exactly the
      topics that were not there. */
  method ApplyBulkDelete(admin: Fake, plan: Plan) returns (errors: seq<Option<Error>>, summary: Bulk.Summary)
    modifies admin`topics
    ensures admin.topics == old(admin.topics) - Elements(plan.topics)
    ensures |errors| == |plan.topics|
    ensures forall i :: 0 <= i < |errors| && (Distinct(plan.topics) || plan.topics[i] !in plan.topics[..i]) ==>
      errors[i] == if plan.topics[i] in old(admin.topics) then None else Some(NotFound)
    ensures summary == Bulk.Summary(|errors|, |errors| - Failures(errors), Failures(errors))
    ensures old(admin.LogInvariant()) ==> admin.LogInvariant()
  {
    ghost var before := admin.topics;
    errors := admin.DeleteTopics(plan.topics);
    assert (set name | name in plan.topics) == Elements(plan.topics);
    summary := Bulk.Summary(|errors|, 0, 0);
    for i := 0 to |errors|
      invariant admin.topics == before - Elements(plan.topics) && (old(admin.LogInvariant()) ==> admin.LogInvariant())
      invariant summary == Bulk.Summary(|errors|, i - Failures(errors[..i]), Failures(errors[..i]))
    {
      FailuresSnoc(errors[..i], errors[i]);
      assert errors[..i + 1] == errors[..i] + [errors[i]];
      summary := if errors[i].Some? then summary.(failed := summary.failed + 1)
        else summary.(succeeded := summary.succeeded + 1);
    }
    assert errors[..|errors|] == errors;
  }

  lemma FailuresSnoc(errors: seq<Option<Error>>, error: Option<Error>)
    ensures Failures(errors + [error]) == Failures(errors) + if error.Some? then 1 else 0
  {
    assert (errors + [error])[..|errors|] == errors;
  }

  ghost function Failures(errors: seq<Option<Error>>): (n: nat)
    ensures n <= |errors|
  {
    if errors == [] then 0 else Failures(errors[..|errors| - 1]) + if errors[|errors| - 1].Some? then 1 else 0
  }

  /** Two plans carry the same token exactly when they delete the same topics. */
  lemma TokenFixesTargets(hash: string -> string, a: set<string>, p: Plan, b: set<string>, q: Plan)
    requires NoCollisions(hash) && Plain(a) && Plain(b) && Nonempty(a) && Nonempty(b)
    requires IsPlan(hash, a, p) && IsPlan(hash, b, q)
    ensures p.planToken == q.planToken <==> p.topics == q.topics
  {
    CommandsArePlain();
    TokensIffTargets(hash, "T8", a, p.planToken, b, q.planToken);
    if a == b {
      EnumerationIsUnique(p.topics, q.topics);
    }
  }
}

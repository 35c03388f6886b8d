/** Import converges, and export and import undo each other
    (internal/service/cluster/destructive.go, internal/service/cluster/inspect.go). */
module ReconcileSafety {
  import opened Kafka
  import opened FakeCluster
  import opened Seqs
  import opened Strings
  import opened Names
  import opened PlanToken
  import opened Reconcile
  import Bulk

  // ---- A plan splits what is desired ----

  lemma {:induction false} JudgedMembers(topics: map<string, Topic>, desired: seq<Desired>, v: Verdict, d: Desired)
    ensures d in Judged(topics, desired, v) <==> d in desired && Judge(topics, d) == v
  {
    if desired != [] {
      var n := |desired| - 1;
      JudgedMembers(topics, desired[..n], v, d);
      assert desired == desired[..n] + [desired[n]];
    }
  }

  lemma NamesSnoc(desired: seq<Desired>)
    requires desired != []
    ensures NamesOf(desired) == NamesOf(desired[..|desired| - 1]) + [desired[|desired| - 1].name]
    ensures Distinct(NamesOf(desired)) ==> Distinct(NamesOf(desired[..|desired| - 1]))
    ensures Distinct(NamesOf(desired)) ==> desired[|desired| - 1].name !in NamesOf(desired[..|desired| - 1])
  {
  }

  lemma {:induction false} JudgedDistinct(topics: map<string, Topic>, desired: seq<Desired>, v: Verdict)
    requires Distinct(NamesOf(desired))
    ensures Distinct(NamesOf(Judged(topics, desired, v)))
  {
    if desired != [] {
      var n := |desired| - 1;
      var before := Judged(topics, desired[..n], v);
      NamesSnoc(desired);
      JudgedDistinct(topics, desired[..n], v);
      forall i | 0 <= i < |before| ensures before[i].name != desired[n].name {
        JudgedMembers(topics, desired[..n], v, before[i]);
        MemberIsNamed(desired[..n], before[i]);
      }
    }
  }

  lemma MemberIsNamed<T>(s: seq<Named<T>>, x: Named<T>)
    requires x in s
    ensures x.name in NamesOf(s)
  {
    var i :| 0 <= i < |s| && s[i] == x;
    assert NamesOf(s)[i] == x.name;
  }

  lemma {:induction false} JudgedPartition(topics: map<string, Topic>, desired: seq<Desired>)
    ensures multiset(NamesOf(desired)) ==
      multiset(NamesOf(Judged(topics, desired, Missing))) + multiset(NamesOf(Judged(topics, desired, Differing)))
      + multiset(NamesOf(Judged(topics, desired, Matching)))
  {
    if desired != [] {
      var n := |desired| - 1;
      var d := desired[n];
      JudgedPartition(topics, desired[..n]);
      NamesSnoc(desired);
      JudgedNames(topics, desired, Missing);
      JudgedNames(topics, desired, Differing);
      JudgedNames(topics, desired, Matching);
    }
  }

  lemma JudgedNames(topics: map<string, Topic>, desired: seq<Desired>, v: Verdict)
    requires desired != []
    ensures
      var n := |desired| - 1;
      multiset(NamesOf(Judged(topics, desired, v))) ==
        multiset(NamesOf(Judged(topics, desired[..n], v)))
        + (if Judge(topics, desired[n]) == v then multiset{desired[n].name} else multiset{})
  {
    var n := |desired| - 1;
    var before, after := NamesOf(Judged(topics, desired[..n], v)), NamesOf(Judged(topics, desired, v));
    assert after == before + if Judge(topics, desired[n]) == v then [desired[n].name] else [];
  }

  /** Every plan puts every desired topic under exactly one heading, and nothing else. */
  lemma PlanSplitsDesired(topics: map<string, Topic>, desired: seq<Desired>, plan: Plan)
    requires IsPlan(topics, desired, plan)
    ensures multiset(NamesOf(plan.create)) + multiset(NamesOf(plan.alter)) + multiset(plan.same) ==
      multiset(NamesOf(desired))
  {
    JudgedPartition(topics, desired);
    NamesPermute(plan.create, Judged(topics, desired, Missing));
    var differing := Judged(topics, desired, Differing);
    var actions :| AreActions(topics, differing, actions) && multiset(plan.alter) == multiset(actions);
    NamesPermute(plan.alter, actions);
    ActionsNamed(topics, differing, actions);
  }

  lemma ActionsNamed(topics: map<string, Topic>, differing: seq<Desired>, actions: seq<AlterAction>)
    requires AreActions(topics, differing, actions)
    ensures NamesOf(actions) == NamesOf(differing)
  {
    forall i | 0 <= i < |actions| ensures NamesOf(actions)[i] == NamesOf(differing)[i] {
      assert IsAction(topics, differing[i], actions[i]);
    }
  }

  // ---- What the plan holds, entry by entry ----

  lemma CreateEntries(topics: map<string, Topic>, desired: seq<Desired>, plan: Plan)
    requires Distinct(NamesOf(desired)) && IsSplit(topics, desired, plan)
    ensures Distinct(NamesOf(plan.create))
    ensures forall d :: d in plan.create <==> d in desired && Judge(topics, d) == Missing
  {
    var missing := Judged(topics, desired, Missing);
    JudgedDistinct(topics, desired, Missing);
    NamesPermute(plan.create, missing);
    DistinctPermutes(NamesOf(missing), NamesOf(plan.create));
    forall d ensures d in plan.create <==> d in desired && Judge(topics, d) == Missing {
      SameMembers(plan.create, missing, d);
      JudgedMembers(topics, desired, Missing, d);
    }
  }

  lemma AlterEntries(topics: map<string, Topic>, desired: seq<Desired>, plan: Plan)
    requires Distinct(NamesOf(desired)) && IsSplit(topics, desired, plan)
    ensures Distinct(NamesOf(plan.alter))
  {
    var differing := Judged(topics, desired, Differing);
    var actions :| AreActions(topics, differing, actions) && multiset(plan.alter) == multiset(actions);
    JudgedDistinct(topics, desired, Differing);
    ActionsNamed(topics, differing, actions);
    NamesPermute(plan.alter, actions);
    DistinctPermutes(NamesOf(actions), NamesOf(plan.alter));
  }

  // The desired topic an alter entry is for.
  lemma AlterEntryOf(topics: map<string, Topic>, desired: seq<Desired>, plan: Plan, a: AlterAction) returns (d: Desired)
    requires IsSplit(topics, desired, plan) && a in plan.alter
    ensures d in desired && Judge(topics, d) == Differing && IsAction(topics, d, a)
  {
    var differing := Judged(topics, desired, Differing);
    var actions :| AreActions(topics, differing, actions) && multiset(plan.alter) == multiset(actions);
    SameMembers(plan.alter, actions, a);
    var i :| 0 <= i < |actions| && actions[i] == a;
    d := differing[i];
    JudgedMembers(topics, desired, Differing, d);
  }

  // The alter entry a differing desired topic has.
  lemma AlterEntryFor(topics: map<string, Topic>, desired: seq<Desired>, plan: Plan, d: Desired)
    returns (a: AlterAction)
    requires IsSplit(topics, desired, plan) && d in desired && Judge(topics, d) == Differing
    ensures a in plan.alter && IsAction(topics, d, a)
  {
    var differing := Judged(topics, desired, Differing);
    var actions :| AreActions(topics, differing, actions) && multiset(plan.alter) == multiset(actions);
    JudgedMembers(topics, desired, Differing, d);
    var i :| 0 <= i < |differing| && differing[i] == d;
    a := actions[i];
    SameMembers(plan.alter, actions, a);
  }

  // ---- Configuration listings ----

  /** No listing names a config twice: true of every topic the cluster creates, and kept
      by every alteration. */
  ghost predicate UniqueConfigs(topics: map<string, Topic>) {
    forall name :: name in topics ==> UniqueNames(topics[name].configs)
  }

  lemma {:induction false} UniqueValue(configs: seq<ConfigEntry>, k: string)
    requires UniqueNames(configs)
    ensures forall i :: 0 <= i < |configs| && configs[i].name == k ==> ValueOf(configs, k) == configs[i].value
    ensures (forall i :: 0 <= i < |configs| ==> configs[i].name != k) ==> ValueOf(configs, k) == ""
  {
    if configs != [] {
      var init := configs[..|configs| - 1];
      UniqueValue(init, k);
      assert forall i :: 0 <= i < |init| ==> init[i] == configs[i];
    }
  }

  lemma AlterOneSets(configs: seq<ConfigEntry>, name: string, v: string, k: string)
    requires UniqueNames(configs)
    ensures
      var after := AlterOne(configs, ConfigChange(name, Some(v)));
      UniqueNames(after) && ValueOf(after, k) == if k == name then v else ValueOf(configs, k)
  {
    var after := AlterOne(configs, ConfigChange(name, Some(v)));
    var i := IndexOf(configs, name);
    UniqueValue(configs, k);
    UniqueValue(after, k);
    assert i >= 0 ==> after[i].name == name && after[i].value == v;
    assert i < 0 ==> after[|configs|].name == name && after[|configs|].value == v;
    assert forall j :: 0 <= j < |configs| && j != i ==> after[j] == configs[j];
  }

  /** Altering to a list of new values sets exactly those, and keeps names unique. */
  lemma {:induction false} AlterAllSets(configs: seq<ConfigEntry>, changes: seq<Change>, k: string)
    requires UniqueNames(configs) && Distinct(NamesOf(changes))
    ensures
      var after := AlterAll(configs, ChangesOf(changes));
      UniqueNames(after) && ValueOf(after, k) == Overlay(changes, k, ValueOf(configs, k))
  {
    hide AlterOne, ValueOf, UniqueNames;
    if changes != [] {
      var n := |changes| - 1;
      assert ChangesOf(changes)[..n] == ChangesOf(changes[..n]);
      assert forall i, j :: 0 <= i < j < n ==> NamesOf(changes)[i] != NamesOf(changes)[j];
      AlterAllSets(configs, changes[..n], k);
      AlterOneSets(AlterAll(configs, ChangesOf(changes[..n])), changes[n].name, changes[n].body.to, k);
    }
  }

  // The value a list of changes leaves under a name.
  ghost function Overlay(changes: seq<Change>, k: string, otherwise: string): string {
    if changes == [] then otherwise
    else
      var last := changes[|changes| - 1];
      if last.name == k then last.body.to else Overlay(changes[..|changes| - 1], k, otherwise)
  }

  lemma {:induction false} OverlayIs(changes: seq<Change>, k: string, otherwise: string)
    requires Distinct(NamesOf(changes))
    ensures forall i :: 0 <= i < |changes| && changes[i].name == k ==>
      Overlay(changes, k, otherwise) == changes[i].body.to
    ensures k !in NamesOf(changes) ==> Overlay(changes, k, otherwise) == otherwise
  {
    if changes != [] {
      var n := |changes| - 1;
      OverlayIs(changes[..n], k, otherwise);
      assert NamesOf(changes) == NamesOf(changes[..n]) + [changes[n].name];
      assert forall i :: 0 <= i < n ==> changes[..n][i] == changes[i] && NamesOf(changes)[i] == changes[i].name;
    }
  }

  /** Applying a diff makes the listing match. */
  lemma DiffMakesMatch(configs: seq<ConfigEntry>, want: map<string, string>, changes: seq<Change>)
    requires UniqueNames(configs) && IsDiff(configs, want, changes)
    ensures UniqueNames(AlterAll(configs, ChangesOf(changes))) && Matches(AlterAll(configs, ChangesOf(changes)), want)
  {
    AscendingIsDistinct(NamesOf(changes));
    AlterAllSets(configs, changes, "");
    forall k | k in want ensures ValueOf(AlterAll(configs, ChangesOf(changes)), k) == want[k] {
      AlterAllSets(configs, changes, k);
      OverlayIs(changes, k, ValueOf(configs, k));
      if k in NamesOf(changes) {
        var i :| 0 <= i < |changes| && NamesOf(changes)[i] == k;
        assert IsChange(configs, want, changes[i]);
      } else {
        assert k !in Elements(NamesOf(changes));
        assert !Differs(configs, want, k);
      }
    }
  }

  lemma AscendingIsDistinct(s: seq<string>)
    requires StrictlyAscending(s)
    ensures Distinct(s)
  {
    forall i, j | 0 <= i < j < |s| ensures s[i] != s[j] {
      LessIsTotal(s[i], s[j]);
      LessIsTotal(s[i], s[i]);
    }
  }

  lemma ListingMatches(configs: seq<ConfigEntry>, m: map<string, string>)
    requires Lists(configs, m)
    ensures Matches(configs, m)
  {
    forall k | k in m ensures ValueOf(configs, k) == m[k] {
      UniqueValue(configs, k);
      var i :| 0 <= i < |configs| && configs[i].name == k;
    }
  }

  // ---- What applying does, topic by topic ----

  ghost predicate IsCreated(d: Desired, t: Topic)
    requires d.body.partitions >= 0
  {
    && t == Topic(false, d.body.replicationFactor, EmptyPartitions(d.body.partitions), t.configs)
    && Lists(t.configs, d.body.configs)
  }

  lemma {:induction false} CreatesEach(create: seq<Desired>, states: seq<map<string, Topic>>,
                                       errors: seq<Option<Error>>, n: nat)
    requires Creatable(create) && Distinct(NamesOf(create)) && CreatesInOrder(create, states, errors) && n <= |create|
    ensures forall name :: name in states[0] ==> name in states[n] && states[n][name] == states[0][name]
    ensures forall name :: name in states[n] ==> name in states[0] || name in NamesOf(create)[..n]
    ensures forall i :: 0 <= i < n ==> CreatedOrRefused(create[i], states[0], states[n], errors[i])
  {
    if n > 0 {
      CreatesEach(create, states, errors, n - 1);
      assert Creates(states[n - 1], SpecOf(create[n - 1]), false, states[n], errors[n - 1]);
      assert NamesOf(create)[..n] == NamesOf(create)[..n - 1] + [create[n - 1].name];
      forall i | 0 <= i < n - 1 ensures CreatedOrRefused(create[i], states[0], states[n], errors[i]) {
        assert NamesOf(create)[i] != NamesOf(create)[n - 1];
      }
    }
  }

  ghost predicate CreatedOrRefused(d: Desired, before: map<string, Topic>, after: map<string, Topic>,
                                   error: Option<Error>)
    requires d.body.partitions >= 0
  {
    if d.name in before then error == Some(AlreadyExists)
    else error == None && d.name in after && IsCreated(d, after[d.name])
  }

  lemma {:induction false} AltersEach(topics: map<string, Topic>, alter: seq<AlterAction>, name: string)
    requires Distinct(NamesOf(alter)) && name in topics
    ensures name !in NamesOf(alter) ==> AlterTopics(topics, alter)[name] == topics[name]
    ensures forall i :: 0 <= i < |alter| && alter[i].name == name ==>
      AlterTopics(topics, alter)[name] ==
        topics[name].(configs := AlterAll(topics[name].configs, ChangesOf(alter[i].body)))
  {
    if alter != [] {
      var n := |alter| - 1;
      assert NamesOf(alter) == NamesOf(alter[..n]) + [alter[n].name];
      AltersEach(topics, alter[..n], name);
      assert forall i :: 0 <= i < n ==> NamesOf(alter)[i] == alter[i].name;
    }
  }

  /** A plan of distinct names, made and applied on one cluster without faults. */
  ghost predicate Imports(before: map<string, Topic>, desired: seq<Desired>, plan: Plan,
                          after: map<string, Topic>, items: seq<Item>)
  {
    && Distinct(NamesOf(desired)) && UniqueConfigs(before) && IsPlan(before, desired, plan)
    && Creatable(plan.create) && IsApplied(before, plan, after, items)
  }

  // The cluster between the phases.
  lemma Phases(before: map<string, Topic>, desired: seq<Desired>, plan: Plan, after: map<string, Topic>,
               items: seq<Item>)
    returns (created: map<string, Topic>, altered: map<string, Topic>, errors: seq<Option<Error>>)
    requires Distinct(NamesOf(desired)) && IsSplit(before, desired, plan)
    requires Creatable(plan.create) && IsApplied(before, plan, after, items)
    ensures altered == AlterTopics(created, plan.alter) && Distinct(NamesOf(plan.alter)) && altered.Keys == created.Keys
    ensures |errors| == |plan.create| && Finishes(created, plan, errors, after, items)
    ensures forall name :: name in before ==> name in created && created[name] == before[name]
    ensures forall name :: name in created ==> name in before || name in NamesOf(plan.create)
    ensures forall i :: 0 <= i < |plan.create| ==> CreatedOrRefused(plan.create[i], before, created, errors[i])
  {
    hide Creates, Lists, IsSplit;
    var states, es :| CreatesInOrder(plan.create, states, es) && states[0] == before
      && Finishes(states[|plan.create|], plan, es, after, items);
    errors, created := es, states[|plan.create|];
    altered := AlterTopics(created, plan.alter);
    CreateEntries(before, desired, plan);
    AlterEntries(before, desired, plan);
    CreatesEach(plan.create, states, errors, |plan.create|);
    assert NamesOf(plan.create)[..|plan.create|] == NamesOf(plan.create);
  }

  ghost predicate Clashes(before: map<string, Topic>, d: Desired) {
    d.name in before && before[d.name].isInternal
  }

  // Only differing topics have alter entries.
  lemma NotAltered(topics: map<string, Topic>, desired: seq<Desired>, plan: Plan, name: string)
    requires Distinct(NamesOf(desired)) && IsSplit(topics, desired, plan)
    requires forall d :: d in desired && d.name == name ==> Judge(topics, d) != Differing
    ensures name !in NamesOf(plan.alter)
  {
    forall i | 0 <= i < |plan.alter| ensures plan.alter[i].name != name {
      var d := AlterEntryOf(topics, desired, plan, plan.alter[i]);
    }
  }

  lemma DistinctNamesOneEach(desired: seq<Desired>, d: Desired, e: Desired)
    requires Distinct(NamesOf(desired)) && d in desired && e in desired && d.name == e.name
    ensures d == e
  {
    var i :| 0 <= i < |desired| && desired[i] == d;
    var j :| 0 <= j < |desired| && desired[j] == e;
    assert NamesOf(desired)[i] == NamesOf(desired)[j];
  }

  /** Just the differing configurations were set. */
  ghost predicate AlteredTo(configs: seq<ConfigEntry>, want: map<string, string>, after: seq<ConfigEntry>) {
    exists changes :: IsDiff(configs, want, changes) && after == AlterAll(configs, ChangesOf(changes))
  }

  lemma NothingDiffers(configs: seq<ConfigEntry>, want: map<string, string>)
    requires Matches(configs, want)
    ensures AlteredTo(configs, want, configs)
  {
    var none: seq<Change> := [];
    assert IsDiff(configs, want, none) && AlterAll(configs, ChangesOf(none)) == configs;
  }

  ghost predicate Realised(before: map<string, Topic>, d: Desired, after: map<string, Topic>) {
    && IsUser(after, d.name) && Matches(after[d.name].configs, d.body.configs) && UniqueNames(after[d.name].configs)
    && (d.name in before ==>
          && after[d.name] == before[d.name].(configs := after[d.name].configs)
          && AlteredTo(before[d.name].configs, d.body.configs, after[d.name].configs))
    && (d.name !in before ==> d.body.partitions >= 0 && IsCreated(d, after[d.name]))
  }

  /** Every desired topic that does not clash with an internal one is there afterwards,
      as desired; one that was there before keeps its log. */
  lemma DesiredIsRealised(before: map<string, Topic>, desired: seq<Desired>, plan: Plan,
                          after: map<string, Topic>, items: seq<Item>, d: Desired)
    requires Imports(before, desired, plan, after, items) && d in desired && !Clashes(before, d)
    ensures Realised(before, d, after)
  {
    match Judge(before, d)
    case Missing => MissingIsRealised(before, desired, plan, after, items, d);
    case Differing => DifferingIsRealised(before, desired, plan, after, items, d);
    case Matching => MatchingIsRealised(before, desired, plan, after, items, d);
  }

  lemma DesiredIsKept(topics: map<string, Topic>, desired: seq<Desired>, plan: Plan, d: Desired)
    requires IsPlan(topics, desired, plan) && d in desired
    ensures d.name !in Elements(plan.delete)
  {
    MemberIsNamed(desired, d);
  }

  lemma MissingIsRealised(before: map<string, Topic>, desired: seq<Desired>, plan: Plan,
                  after: map<string, Topic>, items: seq<Item>, d: Desired)
    requires Imports(before, desired, plan, after, items) && d in desired && Judge(before, d) == Missing
    requires !Clashes(before, d)
    ensures Realised(before, d, after)
  {
    var created, altered, errors := Phases(before, desired, plan, after, items);
    DesiredIsKept(before, desired, plan, d);
    CreateEntries(before, desired, plan);
    var i :| 0 <= i < |plan.create| && plan.create[i] == d;
    assert CreatedOrRefused(plan.create[i], before, created, errors[i]);
    OthersNotDiffering(before, desired, d);
    NotAltered(before, desired, plan, d.name);
    AltersEach(created, plan.alter, d.name);
    ListingMatches(created[d.name].configs, d.body.configs);
  }

  lemma DifferingIsRealised(before: map<string, Topic>, desired: seq<Desired>, plan: Plan,
                  after: map<string, Topic>, items: seq<Item>, d: Desired)
    requires Imports(before, desired, plan, after, items) && d in desired && Judge(before, d) == Differing
    ensures Realised(before, d, after)
  {
    var created, altered, errors := Phases(before, desired, plan, after, items);
    DesiredIsKept(before, desired, plan, d);
    var a := AlterEntryFor(before, desired, plan, d);
    var i :| 0 <= i < |plan.alter| && plan.alter[i] == a;
    AltersEach(created, plan.alter, d.name);
    DiffMakesMatch(before[d.name].configs, d.body.configs, a.body);
  }

  lemma MatchingIsRealised(before: map<string, Topic>, desired: seq<Desired>, plan: Plan,
                  after: map<string, Topic>, items: seq<Item>, d: Desired)
    requires Imports(before, desired, plan, after, items) && d in desired && Judge(before, d) == Matching
    ensures Realised(before, d, after)
  {
    var created, altered, errors := Phases(before, desired, plan, after, items);
    DesiredIsKept(before, desired, plan, d);
    OthersNotDiffering(before, desired, d);
    NotAltered(before, desired, plan, d.name);
    NothingDiffers(before[d.name].configs, d.body.configs);
    AltersEach(created, plan.alter, d.name);
  }

  lemma OthersNotDiffering(topics: map<string, Topic>, desired: seq<Desired>, d: Desired)
    requires Distinct(NamesOf(desired)) && d in desired && Judge(topics, d) != Differing
    ensures forall e :: e in desired && e.name == d.name ==> Judge(topics, e) != Differing
  {
    forall e | e in desired && e.name == d.name ensures e == d {
      DistinctNamesOneEach(desired, d, e);
    }
  }

  /** Internal topics and topics nobody desires are untouched, save that the latter go
      when deletion is allowed. */
  lemma OthersAreUntouched(before: map<string, Topic>, desired: seq<Desired>, plan: Plan,
                           after: map<string, Topic>, items: seq<Item>, name: string)
    requires Imports(before, desired, plan, after, items)
    requires name !in NamesOf(desired) || (name in before && before[name].isInternal)
    ensures name in after <==> name in before && (before[name].isInternal || !plan.allowDelete)
    ensures name in after ==> after[name] == before[name]
  {
    var created, altered, errors := Phases(before, desired, plan, after, items);
    assert name in plan.delete <==> name in Elements(plan.delete);
    assert name in NamesOf(desired) <==> name in Elements(NamesOf(desired));
    if name in before {
      NotAltered(before, desired, plan, name);
      AltersEach(created, plan.alter, name);
    } else {
      CreateNamesAreDesired(before, desired, plan, name);
    }
  }

  lemma CreateNamesAreDesired(topics: map<string, Topic>, desired: seq<Desired>, plan: Plan, name: string)
    requires Distinct(NamesOf(desired)) && IsSplit(topics, desired, plan) && name !in NamesOf(desired)
    ensures name !in NamesOf(plan.create)
  {
    CreateEntries(topics, desired, plan);
    forall i | 0 <= i < |plan.create| ensures plan.create[i].name != name {
      assert plan.create[i] in plan.create;
      MemberIsNamed(desired, plan.create[i]);
    }
  }

  // ---- Convergence ----

  lemma JudgedAfter(before: map<string, Topic>, desired: seq<Desired>, plan: Plan,
                    after: map<string, Topic>, items: seq<Item>, d: Desired)
    requires Imports(before, desired, plan, after, items) && d in desired
    ensures Judge(after, d) == if Clashes(before, d) then Missing else Matching
  {
    if Clashes(before, d) {
      OthersAreUntouched(before, desired, plan, after, items, d.name);
    } else {
      DesiredIsRealised(before, desired, plan, after, items, d);
    }
  }

  ghost predicate NoClash(before: map<string, Topic>, desired: seq<Desired>) {
    forall d :: d in desired ==> !Clashes(before, d)
  }

  /** After an import, planning it again finds nothing to alter, nothing left to delete
      that deleting was allowed for, and nothing to create, the last exactly when no
      desired topic has an internal topic's name; then every desired topic is unchanged. */
  lemma ImportConverges(before: map<string, Topic>, desired: seq<Desired>, plan: Plan,
                        after: map<string, Topic>, items: seq<Item>, again: Plan)
    requires Imports(before, desired, plan, after, items) && IsPlan(after, desired, again)
    ensures again.alter == []
    ensures again.create == [] <==> NoClash(before, desired)
    ensures NoClash(before, desired) ==> multiset(again.same) == multiset(NamesOf(desired))
    ensures again.delete == if plan.allowDelete then [] else plan.delete
    ensures UniqueConfigs(after)
  {
    NothingToAlter(before, desired, plan, after, items, again);
    CreateOnlyClashes(before, desired, plan, after, items, again);
    PlanSplitsDesired(after, desired, again);
    DeletesLeft(before, desired, plan, after, items, again);
    ConfigsStayUnique(before, desired, plan, after, items);
  }

  // One internal topic, and the wish for a user topic of its name.
  lemma ClashPlan(topics: map<string, Topic>, d: Desired, allowDelete: bool, token: string)
    requires topics.Keys == {d.name} && topics[d.name].isInternal
    ensures IsPlan(topics, [d], Plan([d], [], [], [], allowDelete, token))
  {
    hide Judged, Less, Matches;
    JudgedOne(topics, d, Missing);
    JudgedOne(topics, d, Differing);
    JudgedOne(topics, d, Matching);
    ClashSplit(topics, d, Plan([d], [], [], [], allowDelete, token));
    assert UserTopics(topics) == {} && Elements([]) == {};
  }

  lemma JudgedOne(topics: map<string, Topic>, d: Desired, v: Verdict)
    ensures Judged(topics, [d], v) == if Judge(topics, d) == v then [d] else []
  {
    assert [d][..0] == [];
  }

  lemma ClashSplit(topics: map<string, Topic>, d: Desired, plan: Plan)
    requires plan.create == [d] && plan.alter == [] && plan.same == []
    requires Judged(topics, [d], Missing) == [d]
    requires Judged(topics, [d], Differing) == [] && Judged(topics, [d], Matching) == []
    ensures IsSplit(topics, [d], plan)
  {
    hide Judged, Less;
    assert AreActions(topics, [], []);
    assert NamesOf<Definition>([]) == [];
  }

  /** Importing it fails with AlreadyExists, changes nothing, and is planned again for ever. */
  lemma ClashNeverConverges(d: Desired, internal: Topic, allowDelete: bool, token: string)
    returns (plan: Plan, items: seq<Item>)
    requires internal.isInternal && UniqueNames(internal.configs) && d.body.partitions >= 0
    ensures
      var topics := map[d.name := internal];
      && Imports(topics, [d], plan, topics, items) && IsPlan(topics, [d], plan)
      && plan.create == [d] && items == [Created(d.name, Some(AlreadyExists))]
  {
    var topics := map[d.name := internal];
    plan, items := Plan([d], [], [], [], allowDelete, token), [Created(d.name, Some(AlreadyExists))];
    ClashPlan(topics, d, allowDelete, token);
    ClashApplies(topics, d, plan, items);
  }

  lemma ClashApplies(topics: map<string, Topic>, d: Desired, plan: Plan, items: seq<Item>)
    requires d.name in topics && d.body.partitions >= 0
    requires plan.create == [d] && plan.alter == [] && plan.delete == []
    requires items == [Created(d.name, Some(AlreadyExists))]
    ensures Creatable(plan.create) && IsApplied(topics, plan, topics, items)
  {
    var states, errors := [topics, topics], [Some(AlreadyExists)];
    assert CreatesInOrder([d], states, errors);
    assert [d][..0] == [] && errors[..0] == [];
    assert CreateItems([d], errors) == [Created(d.name, Some(AlreadyExists))];
    assert topics - (set name | name in plan.delete) == topics;
    assert Finishes(states[1], plan, errors, topics, items);
  }

  lemma NothingToAlter(before: map<string, Topic>, desired: seq<Desired>, plan: Plan,
                       after: map<string, Topic>, items: seq<Item>, again: Plan)
    requires Imports(before, desired, plan, after, items) && IsPlan(after, desired, again)
    ensures again.alter == []
  {
    if again.alter != [] {
      var d := AlterEntryOf(after, desired, again, again.alter[0]);
      JudgedAfter(before, desired, plan, after, items, d);
      assert false;
    }
  }

  lemma CreateOnlyClashes(before: map<string, Topic>, desired: seq<Desired>, plan: Plan,
                          after: map<string, Topic>, items: seq<Item>, again: Plan)
    requires Imports(before, desired, plan, after, items) && IsPlan(after, desired, again)
    ensures again.create == [] <==> NoClash(before, desired)
  {
    CreateEntries(after, desired, again);
    if again.create != [] {
      JudgedAfter(before, desired, plan, after, items, again.create[0]);
    }
    forall d | d in desired && Clashes(before, d) ensures d in again.create {
      JudgedAfter(before, desired, plan, after, items, d);
    }
  }

  lemma DeletesLeft(before: map<string, Topic>, desired: seq<Desired>, plan: Plan,
                    after: map<string, Topic>, items: seq<Item>, again: Plan)
    requires Imports(before, desired, plan, after, items) && IsPlan(after, desired, again)
    ensures again.delete == if plan.allowDelete then [] else plan.delete
  {
    forall name ensures name in Elements(again.delete) <==> !plan.allowDelete && name in Elements(plan.delete) {
      if name in Elements(NamesOf(desired)) {
        assert name !in Elements(plan.delete);
      } else {
        OthersAreUntouched(before, desired, plan, after, items, name);
      }
    }
    assert forall x :: x in Elements([]) <==> false;
    EnumerationIsUnique(again.delete, if plan.allowDelete then [] else plan.delete);
  }

  lemma ConfigsStayUnique(before: map<string, Topic>, desired: seq<Desired>, plan: Plan,
                          after: map<string, Topic>, items: seq<Item>)
    requires Imports(before, desired, plan, after, items)
    ensures UniqueConfigs(after)
  {
    forall name | name in after ensures UniqueNames(after[name].configs) {
      if name in NamesOf(desired) && !(name in before && before[name].isInternal) {
        var i :| 0 <= i < |desired| && NamesOf(desired)[i] == name;
        DesiredIsRealised(before, desired, plan, after, items, desired[i]);
      } else {
        OthersAreUntouched(before, desired, plan, after, items, name);
      }
    }
  }

  lemma TokenParts(hash: string -> string, desired: seq<Desired>, token: string) returns (targets: seq<string>)
    requires IsImportToken(hash, desired, token)
    ensures AreTargets(hash, desired, targets) && IsToken(hash, "C12", Elements(targets), token)
  {
    hide IsToken, AreTargets;
    targets :| AreTargets(hash, desired, targets) && IsToken(hash, "C12", Elements(targets), token);
  }

  /** The token depends on what is desired alone: not on the cluster, nor on the order
      in which any map was walked. */
  lemma TokenDependsOnDesired(hash: string -> string, desired: seq<Desired>, t1: string, t2: string)
    requires IsImportToken(hash, desired, t1) && IsImportToken(hash, desired, t2)
    ensures t1 == t2
  {
    hide IsToken, IsTarget, IsImportToken;
    var a := TokenParts(hash, desired, t1);
    var b := TokenParts(hash, desired, t2);
    forall i | 0 <= i < |a| ensures a[i] == b[i] {
      TargetIsUnique(hash, desired[i], a[i], b[i]);
    }
    assert a == b;
    TokenIsUnique(hash, "C12", Elements(a), t1, t2);
  }

  lemma TargetIsUnique(hash: string -> string, d: Desired, a: string, b: string)
    requires IsTarget(hash, d, a) && IsTarget(hash, d, b)
    ensures a == b
  {
    var g :| IsDigest(hash, d.body, g) && a == ImportTarget(d.name, g);
    var h :| IsDigest(hash, d.body, h) && b == ImportTarget(d.name, h);
    var x :| IsDefinitionText(d.body, x) && g == hash(x);
    var y :| IsDefinitionText(d.body, y) && h == hash(y);
    hide IsDefinitionText;
    DefinitionTextIsUnique(d.body, x, y);
  }

  /** SHA-256 as the token needs it: no collisions, and digests of plain characters. */
  ghost predicate TellsApart(hash: string -> string) {
    && NoCollisions(hash)
    && (forall x :: Free(hash(x), '=') && Free(hash(x), NEWLINE))
  }

  ghost predicate PlainDesired(desired: seq<Desired>) {
    forall d :: d in desired ==> Free(d.name, NEWLINE) && PlainConfigs(d.body)
  }

  /** Two submissions get the same token exactly when they desire the same topics with
      the same definitions, in whatever order and however often. */
  lemma TokenTellsDesiredApart(hash: string -> string, a: seq<Desired>, b: seq<Desired>, t1: string, t2: string)
    requires TellsApart(hash) && PlainDesired(a) && PlainDesired(b)
    requires IsImportToken(hash, a, t1) && IsImportToken(hash, b, t2)
    ensures t1 == t2 <==> forall d :: d in a <==> d in b
  {
    hide IsImportToken, IsToken;
    var s := TokenParts(hash, a, t1);
    var t := TokenParts(hash, b, t2);
    TargetsArePlain(hash, a, s);
    TargetsArePlain(hash, b, t);
    CommandsArePlain();
    TokensIffTargets(hash, "C12", Elements(s), t1, Elements(t), t2);
    TargetsIffDesired(hash, a, s, b, t);
  }

  lemma TargetsIffDesired(hash: string -> string, a: seq<Desired>, s: seq<string>, b: seq<Desired>, t: seq<string>)
    requires TellsApart(hash) && PlainDesired(a) && PlainDesired(b)
    requires AreTargets(hash, a, s) && AreTargets(hash, b, t)
    ensures Elements(s) == Elements(t) <==> forall d :: d in a <==> d in b
  {
    if forall d :: d in a <==> d in b {
      SameTargets(hash, a, s, b, t);
      SameTargets(hash, b, t, a, s);
    }
    if Elements(s) == Elements(t) {
      SameDesired(hash, a, s, b, t);
      SameDesired(hash, b, t, a, s);
    }
  }

  lemma TargetsArePlain(hash: string -> string, a: seq<Desired>, s: seq<string>)
    requires TellsApart(hash) && PlainDesired(a) && AreTargets(hash, a, s)
    ensures Plain(Elements(s)) && Nonempty(Elements(s))
  {
    hide IsDefinitionText, PlainConfigs;
    forall i | 0 <= i < |s| ensures Free(s[i], NEWLINE) && s[i] != "" {
      assert a[i] in a;
      var digest :| IsDigest(hash, a[i].body, digest) && s[i] == ImportTarget(a[i].name, digest);
    }
  }

  lemma SameTargets(hash: string -> string, a: seq<Desired>, s: seq<string>, b: seq<Desired>, t: seq<string>)
    requires AreTargets(hash, a, s) && AreTargets(hash, b, t) && forall d :: d in a ==> d in b
    ensures Elements(s) <= Elements(t)
  {
    forall i | 0 <= i < |s| ensures s[i] in Elements(t) {
      assert a[i] in b;
      var j :| 0 <= j < |b| && b[j] == a[i];
      TargetIsUnique(hash, a[i], s[i], t[j]);
    }
  }

  lemma SameDesired(hash: string -> string, a: seq<Desired>, s: seq<string>, b: seq<Desired>, t: seq<string>)
    requires TellsApart(hash) && PlainDesired(a) && PlainDesired(b)
    requires AreTargets(hash, a, s) && AreTargets(hash, b, t) && Elements(s) <= Elements(t)
    ensures forall d :: d in a ==> d in b
  {
    forall i | 0 <= i < |a| ensures a[i] in b {
      InElements(s, i);
      assert s[i] in Elements(t);
      var j :| 0 <= j < |t| && t[j] == s[i];
      assert a[i] in a && b[j] in b;
      TargetIsInjective(hash, a[i], b[j], s[i]);
    }
  }

  lemma TargetIsInjective(hash: string -> string, d: Desired, e: Desired, target: string)
    requires TellsApart(hash) && PlainConfigs(d.body) && PlainConfigs(e.body)
    requires IsTarget(hash, d, target) && IsTarget(hash, e, target)
    ensures d == e
  {
    var g :| IsDigest(hash, d.body, g) && target == ImportTarget(d.name, g);
    var h :| IsDigest(hash, e.body, h) && target == ImportTarget(e.name, h);
    var x :| IsDefinitionText(d.body, x) && g == hash(x);
    var y :| IsDefinitionText(e.body, y) && h == hash(y);
    hide IsDefinitionText, PlainConfigs;
    ImportTargetIsInjective(d.name, g, e.name, h);
    DefinitionTextIsInjective(d.body, e.body, x);
  }

  // ---- Every item succeeds ----

  lemma {:induction false} CreateItemsAt(create: seq<Desired>, errors: seq<Option<Error>>, i: nat)
    requires |errors| == |create|
    ensures |CreateItems(create, errors)| == |create|
    ensures i < |create| ==> CreateItems(create, errors)[i] == Created(create[i].name, errors[i])
  {
    if create != [] {
      CreateItemsAt(create[..|create| - 1], errors[..|create| - 1], i);
    }
  }

  lemma {:induction false} AlterItemsAt(topics: map<string, Topic>, alter: seq<AlterAction>, i: nat)
    ensures |AlterItems(topics, alter)| == |alter|
    ensures i < |alter| ==>
      AlterItems(topics, alter)[i] == Altered(alter[i].name, if alter[i].name in topics then None else Some(NotFound))
  {
    if alter != [] {
      AlterItemsAt(topics, alter[..|alter| - 1], i);
    }
  }

  lemma {:induction false} DeleteItemsAt(topics: map<string, Topic>, delete: seq<string>, allowDelete: bool, i: nat)
    requires Distinct(delete) && forall n :: n in delete ==> n in topics
    ensures |DeleteItems(topics, delete, allowDelete)| == |delete|
    ensures i < |delete| ==>
      DeleteItems(topics, delete, allowDelete)[i] ==
        if allowDelete then Deleted(delete[i], None) else Skipped(delete[i])
  {
    if delete != [] {
      DeleteItemsAt(topics, delete[..|delete| - 1], allowDelete, i);
    }
  }

  lemma ItemsAt(created: map<string, Topic>, plan: Plan, errors: seq<Option<Error>>,
                after: map<string, Topic>, items: seq<Item>, i: nat)
    requires |errors| == |plan.create| && Finishes(created, plan, errors, after, items)
    requires Distinct(plan.delete) && forall n :: n in plan.delete ==> n in created
    ensures |items| == |plan.create| + |plan.alter| + |plan.delete|
    ensures i < |plan.create| ==> items[i] == Created(plan.create[i].name, errors[i])
    ensures |plan.create| <= i < |plan.create| + |plan.alter| ==>
      var a := plan.alter[i - |plan.create|];
      items[i] == Altered(a.name, if a.name in created then None else Some(NotFound))
    ensures |plan.create| + |plan.alter| <= i < |items| ==>
      var name := plan.delete[i - |plan.create| - |plan.alter|];
      items[i] == if plan.allowDelete then Deleted(name, None) else Skipped(name)
  {
    var a, b := |plan.create|, |plan.create| + |plan.alter|;
    var altered := AlterTopics(created, plan.alter);
    assert altered.Keys == created.Keys;
    CreateItemsAt(plan.create, errors, i);
    AlterItemsAt(created, plan.alter, if i >= a then i - a else 0);
    DeleteItemsAt(altered, plan.delete, plan.allowDelete, if i >= b then i - b else 0);
  }

  /** One item per entry of the plan, and the only ones that fail are creations that
      clash with an internal topic. */
  lemma OnlyClashesFail(before: map<string, Topic>, desired: seq<Desired>, plan: Plan,
                        after: map<string, Topic>, items: seq<Item>, i: nat)
    requires Imports(before, desired, plan, after, items)
    ensures |items| == |plan.create| + |plan.alter| + |plan.delete|
    ensures i < |items| ==> (ErrorOf(items[i]).Some? <==> i < |plan.create| && Clashes(before, plan.create[i]))
    ensures i < |items| ==> (items[i].Skipped? <==> i >= |plan.create| + |plan.alter| && !plan.allowDelete)
  {
    var created, altered, errors := Phases(before, desired, plan, after, items);
    AscendingIsDistinct(plan.delete);
    assert forall n :: n in plan.delete ==> n in Elements(plan.delete);
    ItemsAt(created, plan, errors, after, items, i);
    if i < |plan.create| {
      CreateFailsIffClash(before, desired, plan, created, errors[i], plan.create[i]);
    } else if i < |plan.create| + |plan.alter| {
      var d := AlterEntryOf(before, desired, plan, plan.alter[i - |plan.create|]);
    }
  }

  /** The items, in plan order: each names its topic and says how it went. */
  lemma ItemsAre(before: map<string, Topic>, desired: seq<Desired>, plan: Plan,
                 after: map<string, Topic>, items: seq<Item>, i: nat)
    requires Imports(before, desired, plan, after, items) && i < |items|
    ensures |items| == |plan.create| + |plan.alter| + |plan.delete|
    ensures i < |plan.create| ==>
      items[i] == Created(plan.create[i].name, if Clashes(before, plan.create[i]) then Some(AlreadyExists) else None)
    ensures |plan.create| <= i < |plan.create| + |plan.alter| ==>
      items[i] == Altered(plan.alter[i - |plan.create|].name, None)
    ensures |plan.create| + |plan.alter| <= i ==>
      var name := plan.delete[i - |plan.create| - |plan.alter|];
      items[i] == if plan.allowDelete then Deleted(name, None) else Skipped(name)
  {
    var created, altered, errors := Phases(before, desired, plan, after, items);
    AscendingIsDistinct(plan.delete);
    assert forall n :: n in plan.delete ==> n in Elements(plan.delete);
    ItemsAt(created, plan, errors, after, items, i);
    if i < |plan.create| {
      CreateFailsIffClash(before, desired, plan, created, errors[i], plan.create[i]);
    } else if i < |plan.create| + |plan.alter| {
      var d := AlterEntryOf(before, desired, plan, plan.alter[i - |plan.create|]);
    }
  }

  ghost function Failures(items: seq<Item>): set<int> {
    set i | 0 <= i < |items| && ErrorOf(items[i]).Some?
  }

  lemma {:induction false} FailedIs(items: seq<Item>)
    ensures Failed(items) == |Failures(items)|
  {
    if items != [] {
      var n := |items| - 1;
      FailedIs(items[..n]);
      assert Failures(items) == if ErrorOf(items[n]).Some? then Failures(items[..n]) + {n} else Failures(items[..n]);
    }
  }

  lemma {:induction false} AttemptedIs(items: seq<Item>, n: nat)
    requires n <= |items| && forall i :: 0 <= i < |items| ==> (items[i].Skipped? <==> i >= n)
    ensures Attempted(items) == n
  {
    if items != [] {
      AttemptedIs(items[..|items| - 1], if n < |items| then n else n - 1);
    }
  }

  /** The summary: every creation and alteration, and the deletions when they are allowed,
      were attempted; as many failed as creations clash, and the rest succeeded. */
  lemma SummaryIs(before: map<string, Topic>, desired: seq<Desired>, plan: Plan,
                  after: map<string, Topic>, items: seq<Item>, summary: Bulk.Summary)
    requires Imports(before, desired, plan, after, items) && Tallies(items, summary)
    ensures summary.total == |plan.create| + |plan.alter| + if plan.allowDelete then |plan.delete| else 0
    ensures summary.failed == |set i | 0 <= i < |plan.create| && Clashes(before, plan.create[i])|
    ensures summary.succeeded == summary.total - summary.failed
  {
    hide Imports, Clashes, Attempted, Failed;
    FailedIs(items);
    ItemsCount(before, desired, plan, after, items);
    var n := |plan.create| + |plan.alter| + if plan.allowDelete then |plan.delete| else 0;
    forall i | 0 <= i < |items|
      ensures items[i].Skipped? <==> i >= n
      ensures ErrorOf(items[i]).Some? <==> i < |plan.create| && Clashes(before, plan.create[i])
    {
      ItemsAre(before, desired, plan, after, items, i);
    }
    AttemptedIs(items, n);
    assert Failures(items) == set i | 0 <= i < |plan.create| && Clashes(before, plan.create[i]);
  }

  lemma ItemsCount(before: map<string, Topic>, desired: seq<Desired>, plan: Plan,
                   after: map<string, Topic>, items: seq<Item>)
    requires Imports(before, desired, plan, after, items)
    ensures |items| == |plan.create| + |plan.alter| + |plan.delete|
  {
    OnlyClashesFail(before, desired, plan, after, items, 0);
  }

  lemma CreateFailsIffClash(before: map<string, Topic>, desired: seq<Desired>, plan: Plan, created: map<string, Topic>,
                            error: Option<Error>, d: Desired)
    requires Distinct(NamesOf(desired)) && IsSplit(before, desired, plan) && d in plan.create
    requires d.body.partitions >= 0 && CreatedOrRefused(d, before, created, error)
    ensures error == if Clashes(before, d) then Some(AlreadyExists) else None
  {
    CreateEntries(before, desired, plan);
  }
}

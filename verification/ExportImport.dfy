/** Export and import undo each other (internal/service/cluster/inspect.go,
    internal/service/cluster/destructive.go). */
module ExportImport {
  import opened Kafka
  import opened FakeCluster
  import opened Seqs
  import opened Strings
  import opened Names
  import opened Reconcile
  import opened ReconcileSafety

  // ---- Overrides ----

  lemma {:induction false} OverridesAreEntries(configs: seq<ConfigEntry>, k: string)
    requires UniqueNames(configs)
    ensures k in Overrides(configs) <==>
      exists i :: 0 <= i < |configs| && configs[i].name == k && configs[i].source == Dynamic
    ensures k in Overrides(configs) ==> Overrides(configs)[k] == ValueOf(configs, k)
  {
    if configs != [] {
      var n := |configs| - 1;
      OverridesAreEntries(configs[..n], k);
      assert forall i :: 0 <= i < n ==> configs[..n][i] == configs[i] && configs[i].name != configs[n].name;
    }
  }

  lemma ListingOverrides(configs: seq<ConfigEntry>, m: map<string, string>)
    requires Lists(configs, m)
    ensures Overrides(configs) == m
  {
    ListingMatches(configs, m);
    forall k ensures k in Overrides(configs) <==> k in m {
      OverridesAreEntries(configs, k);
    }
    forall k | k in m ensures Overrides(configs)[k] == m[k] {
      OverridesAreEntries(configs, k);
    }
  }

  // ---- Importing an export where it came from ----

  lemma ExportedMatches(topics: map<string, Topic>, pattern: string -> bool, exported: seq<Desired>, d: Desired)
    requires UniqueConfigs(topics) && IsExport(topics, pattern, exported) && d in exported
    ensures Judge(topics, d) == Matching && pattern(d.name)
  {
    var i :| 0 <= i < |exported| && exported[i] == d;
    assert NamesOf(exported)[i] in Elements(NamesOf(exported));
    var configs := topics[d.name].configs;
    forall k | k in Overrides(configs) ensures ValueOf(configs, k) == Overrides(configs)[k] {
      OverridesAreEntries(configs, k);
    }
  }

  /** Importing an export into the cluster it came from changes nothing: all of it is
      unchanged, and the only candidates for deletion are the user topics the export's
      pattern left out. */
  lemma ExportThenImportIsNoop(topics: map<string, Topic>, pattern: string -> bool,
                               exported: seq<Desired>, plan: Plan)
    requires UniqueConfigs(topics) && IsExport(topics, pattern, exported) && IsPlan(topics, exported, plan)
    ensures plan.create == [] && plan.alter == [] && plan.same == NamesOf(exported)
    ensures Elements(plan.delete) == (set name | name in topics && !topics[name].isInternal && !pattern(name))
  {
    AscendingIsDistinct(NamesOf(exported));
    CreateEntries(topics, exported, plan);
    if plan.create != [] {
      assert plan.create[0] in plan.create;
      ExportedMatches(topics, pattern, exported, plan.create[0]);
      assert false;
    }
    if plan.alter != [] {
      var d := AlterEntryOf(topics, exported, plan, plan.alter[0]);
      ExportedMatches(topics, pattern, exported, d);
      assert false;
    }
    PlanSplitsDesired(topics, exported, plan);
    SameIsAll(exported, plan);
  }

  lemma SameIsAll(exported: seq<Desired>, plan: Plan)
    requires StrictlyAscending(NamesOf(exported)) && Sorted(plan.same) && plan.create == [] && plan.alter == []
    requires multiset(NamesOf(plan.create)) + multiset(NamesOf(plan.alter)) + multiset(plan.same) ==
      multiset(NamesOf(exported))
    ensures plan.same == NamesOf(exported)
  {
    assert multiset(plan.same) == multiset(NamesOf(exported));
    AscendingIsDistinct(NamesOf(exported));
    DistinctSortedAscends(NamesOf(exported), plan.same);
    SameMultisetSameElements(NamesOf(exported), plan.same);
    EnumerationIsUnique(plan.same, NamesOf(exported));
  }

  // ---- Importing an export elsewhere ----

  /** An unfiltered export of one cluster, imported into another that has no user topic,
      makes a cluster whose own export is the same, exactly when no exported topic has
      the name of an internal topic there. */
  lemma ExportTravels(origin: map<string, Topic>, exported: seq<Desired>,
                      before: map<string, Topic>, plan: Plan, after: map<string, Topic>, items: seq<Item>,
                      all: string -> bool, again: seq<Desired>)
    requires (forall name :: all(name)) && IsExport(origin, all, exported)
    requires UserTopics(before) == {} && Imports(before, exported, plan, after, items)
    requires IsExport(after, all, again)
    ensures again == exported <==> NoClash(before, exported)
    ensures NoClash(before, exported) ==>
      forall d :: d in exported ==> d.name in origin && KeepsCount(origin, after, d.name)
  {
    ExportedNames(origin, exported, before, plan, after, items, all, again);
    if NoClash(before, exported) {
      NoneWasThere(before, exported);
      forall d | d in exported ensures d.name in origin && Travels(origin, d, after) {
        EachTravels(origin, exported, before, plan, after, items, d, all);
      }
      SameExport(origin, exported, after, all, again);
    } else {
      var d :| d in exported && Clashes(before, d);
      MemberIsNamed(exported, d);
      assert d.name !in Elements(NamesOf(again));
    }
  }

  ghost predicate Travels(origin: map<string, Topic>, d: Desired, after: map<string, Topic>)
    requires d.name in origin
  {
    d.name in after && DefinitionOf(after[d.name]) == d.body && KeepsCount(origin, after, d.name)
  }

  lemma SameExport(origin: map<string, Topic>, exported: seq<Desired>, after: map<string, Topic>, all: string -> bool,
                   again: seq<Desired>)
    requires StrictlyAscending(NamesOf(exported))
    requires forall d :: d in exported ==> d.name in origin && Travels(origin, d, after)
    requires IsExport(after, all, again) && Elements(NamesOf(again)) == Elements(NamesOf(exported))
    ensures again == exported
  {
    EnumerationIsUnique(NamesOf(again), NamesOf(exported));
    assert |again| == |NamesOf(again)| == |exported|;
    forall i | 0 <= i < |exported| ensures again[i] == exported[i] {
      assert exported[i] in exported && NamesOf(again)[i] == NamesOf(exported)[i];
    }
  }

  lemma NoneWasThere(before: map<string, Topic>, exported: seq<Desired>)
    requires UserTopics(before) == {} && NoClash(before, exported)
    ensures Elements(NamesOf(exported)) - before.Keys == Elements(NamesOf(exported))
  {
    forall i | 0 <= i < |exported| ensures NamesOf(exported)[i] !in before {
      assert exported[i] in exported && exported[i].name !in UserTopics(before);
    }
  }

  lemma EachTravels(origin: map<string, Topic>, exported: seq<Desired>,
                    before: map<string, Topic>, plan: Plan, after: map<string, Topic>, items: seq<Item>, d: Desired,
                    all: string -> bool)
    requires IsExport(origin, all, exported) && d in exported
    requires UserTopics(before) == {} && Imports(before, exported, plan, after, items) && !Clashes(before, d)
    ensures d.name in origin && Travels(origin, d, after)
  {
    assert d.name !in UserTopics(before);
    var i :| 0 <= i < |exported| && exported[i] == d;
    DesiredIsRealised(before, exported, plan, after, items, d);
    CreatedExportsAsIs(origin, d, after);
  }

  ghost predicate KeepsCount(origin: map<string, Topic>, after: map<string, Topic>, name: string)
    requires name in origin
  {
    name in after && (|origin[name].partitions| < 0x8000_0000 ==> |after[name].partitions| == |origin[name].partitions|)
  }

  lemma ExportedNames(origin: map<string, Topic>, exported: seq<Desired>,
                      before: map<string, Topic>, plan: Plan, after: map<string, Topic>, items: seq<Item>,
                      all: string -> bool, again: seq<Desired>)
    requires (forall name :: all(name)) && IsExport(origin, all, exported)
    requires UserTopics(before) == {} && Imports(before, exported, plan, after, items)
    requires IsExport(after, all, again)
    ensures Elements(NamesOf(again)) == Elements(NamesOf(exported)) - before.Keys
  {
    forall name ensures name in Elements(NamesOf(again)) <==> name in Elements(NamesOf(exported)) - before.Keys {
      NameTravels(exported, before, plan, after, items, name);
      assert all(name);
    }
  }

  lemma NameTravels(exported: seq<Desired>, before: map<string, Topic>, plan: Plan,
                    after: map<string, Topic>, items: seq<Item>, name: string)
    requires UserTopics(before) == {} && Imports(before, exported, plan, after, items)
    ensures IsUser(after, name) <==> name in Elements(NamesOf(exported)) && name !in before
  {
    assert name in before ==> name !in UserTopics(before);
    if name in NamesOf(exported) && name !in before {
      var i :| 0 <= i < |exported| && NamesOf(exported)[i] == name;
      DesiredIsRealised(before, exported, plan, after, items, exported[i]);
    } else {
      OthersAreUntouched(before, exported, plan, after, items, name);
    }
  }

  // A topic created from an exported definition exports as that definition.
  lemma CreatedExportsAsIs(origin: map<string, Topic>, d: Desired, after: map<string, Topic>)
    requires d.name in origin && d.body == DefinitionOf(origin[d.name])
    requires d.name in after && d.body.partitions >= 0 && IsCreated(d, after[d.name])
    ensures DefinitionOf(after[d.name]) == d.body && KeepsCount(origin, after, d.name)
  {
    ListingOverrides(after[d.name].configs, d.body.configs);
  }

  // ---- Importing over user topics ----

  /** When altering a listing to what is wanted leaves exactly that as its overrides: no
      other override is there, and what already has its wanted value, by default or, for
      the empty value, by not being there, is an override already. */
  ghost predicate SettlesOverrides(configs: seq<ConfigEntry>, want: map<string, string>) {
    && (forall k :: k in Overrides(configs) ==> k in want)
    && forall k :: k in want ==> Differs(configs, want, k) || k in Overrides(configs)
  }

  // An empty value never set, a default of the wanted value, and an override nobody wants.
  lemma OverridesNotSettled()
    ensures !SettlesOverrides([], map["k" := ""])
    ensures !SettlesOverrides([ConfigEntry("k", "v", Default)], map["k" := "v"])
    ensures !SettlesOverrides([ConfigEntry("k", "v", Dynamic)], map[])
  {
    var byDefault, stale := [ConfigEntry("k", "v", Default)], [ConfigEntry("k", "v", Dynamic)];
    assert byDefault[..0] == [] && stale[..0] == [];
    assert "k" !in Overrides([]) && !Differs([], map["k" := ""], "k");
    assert "k" !in Overrides(byDefault) && !Differs(byDefault, map["k" := "v"], "k");
    assert "k" in Overrides(stale);
  }

  lemma AlterOneOverrides(configs: seq<ConfigEntry>, name: string, v: string, k: string)
    requires UniqueNames(configs)
    ensures k in Overrides(AlterOne(configs, ConfigChange(name, Some(v)))) <==> k == name || k in Overrides(configs)
  {
    var after := AlterOne(configs, ConfigChange(name, Some(v)));
    var i := IndexOf(configs, name);
    AlterOneSets(configs, name, v, k);
    OverridesAreEntries(configs, k);
    OverridesAreEntries(after, k);
    assert i >= 0 ==> after[i] == ConfigEntry(name, v, Dynamic);
    assert i < 0 ==> after[|configs|] == ConfigEntry(name, v, Dynamic);
    assert forall j :: 0 <= j < |configs| && j != i ==> after[j] == configs[j];
  }

  lemma {:induction false} AlterAllOverrides(configs: seq<ConfigEntry>, changes: seq<Change>, k: string)
    requires UniqueNames(configs) && Distinct(NamesOf(changes))
    ensures k in Overrides(AlterAll(configs, ChangesOf(changes))) <==> k in NamesOf(changes) || k in Overrides(configs)
  {
    hide AlterOne, Overrides, UniqueNames;
    if changes != [] {
      var n := |changes| - 1;
      assert ChangesOf(changes)[..n] == ChangesOf(changes[..n]);
      assert NamesOf(changes) == NamesOf(changes[..n]) + [changes[n].name];
      AlterAllOverrides(configs, changes[..n], k);
      AlterAllSets(configs, changes[..n], k);
      AlterOneOverrides(AlterAll(configs, ChangesOf(changes[..n])), changes[n].name, changes[n].body.to, k);
    }
  }

  lemma AlteredOverrides(configs: seq<ConfigEntry>, want: map<string, string>, after: seq<ConfigEntry>, k: string)
    requires UniqueNames(configs) && AlteredTo(configs, want, after)
    ensures k in Overrides(after) <==> Differs(configs, want, k) || k in Overrides(configs)
  {
    hide Overrides, UniqueNames, AlterAll;
    var changes :| IsDiff(configs, want, changes) && after == AlterAll(configs, ChangesOf(changes));
    AscendingIsDistinct(NamesOf(changes));
    AlterAllOverrides(configs, changes, k);
    if k in NamesOf(changes) {
      var i :| 0 <= i < |changes| && NamesOf(changes)[i] == k;
      assert IsChange(configs, want, changes[i]);
    }
    assert k in Elements(NamesOf(changes)) <==> k in NamesOf(changes);
  }

  lemma SettledIff(configs: seq<ConfigEntry>, want: map<string, string>, after: seq<ConfigEntry>)
    requires UniqueNames(configs) && AlteredTo(configs, want, after) && UniqueNames(after) && Matches(after, want)
    ensures Overrides(after) == want <==> SettlesOverrides(configs, want)
  {
    hide Overrides, UniqueNames, ValueOf, AlteredTo;
    forall k ensures k in Overrides(after) <==> Differs(configs, want, k) || k in Overrides(configs) {
      AlteredOverrides(configs, want, after, k);
    }
    forall k | k in want && k in Overrides(after) ensures Overrides(after)[k] == want[k] {
      OverridesAreEntries(after, k);
    }
    if SettlesOverrides(configs, want) {
      forall k ensures k in Overrides(after) <==> k in want {
      }
    }
  }

  /** When importing a definition leaves a topic that exports as it: its counts fit the
      export and, if the topic was there, are its own already; and its overrides settle. */
  ghost predicate ExportsAs(before: map<string, Topic>, d: Desired) {
    if d.name in before then
      var t := before[d.name];
      && ToInt32(|t.partitions|) == d.body.partitions && ToInt16(t.replicationFactor) == d.body.replicationFactor
      && SettlesOverrides(t.configs, d.body.configs)
    else
      && ToInt32(d.body.partitions) == d.body.partitions
      && ToInt16(d.body.replicationFactor) == d.body.replicationFactor
  }

  lemma ExportsAsDesiredIff(before: map<string, Topic>, desired: seq<Desired>, plan: Plan,
                            after: map<string, Topic>, items: seq<Item>, d: Desired)
    requires Imports(before, desired, plan, after, items) && d in desired && !Clashes(before, d)
    ensures IsUser(after, d.name)
    ensures DefinitionOf(after[d.name]) == d.body <==> ExportsAs(before, d)
  {
    hide Overrides, IsPlan, IsApplied, Lists, Matches, UniqueNames, SettlesOverrides;
    DesiredIsRealised(before, desired, plan, after, items, d);
    if d.name in before {
      SettledIff(before[d.name].configs, d.body.configs, after[d.name].configs);
    } else {
      ListingOverrides(after[d.name].configs, d.body.configs);
    }
  }

  // What an unfiltered export holds: every user topic's definition.
  lemma ExportHolds(topics: map<string, Topic>, all: string -> bool, exported: seq<Desired>, name: string, d: Desired)
    requires (forall n :: all(n)) && IsExport(topics, all, exported)
    ensures d in exported <==> IsUser(topics, d.name) && d.body == DefinitionOf(topics[d.name])
    ensures IsUser(topics, name) ==> Named(name, DefinitionOf(topics[name])) in exported
  {
    hide Overrides, StrictlyAscending;
    if d in exported {
      MemberIsNamed(exported, d);
      assert d.name in Elements(NamesOf(exported));
    }
    NameIsHeld(topics, all, exported, name);
    NameIsHeld(topics, all, exported, d.name);
  }

  lemma NameIsHeld(topics: map<string, Topic>, all: string -> bool, exported: seq<Desired>, name: string)
    requires (forall n :: all(n)) && IsExport(topics, all, exported)
    ensures IsUser(topics, name) ==> Named(name, DefinitionOf(topics[name])) in exported
  {
    hide DefinitionOf, StrictlyAscending;
    if IsUser(topics, name) {
      assert all(name) && name in Elements(NamesOf(exported));
      var i :| 0 <= i < |exported| && NamesOf(exported)[i] == name;
      assert exported[i] == Named(name, DefinitionOf(topics[name]));
    }
  }

  /** An import followed by an unfiltered export returns what was desired exactly when no
      desired name is an internal topic's, no undesired user topic is left standing, and
      every definition exports as it was given. */
  lemma ExportReturnsDesiredIff(before: map<string, Topic>, desired: seq<Desired>, plan: Plan,
                                after: map<string, Topic>, items: seq<Item>, all: string -> bool, again: seq<Desired>)
    requires (forall name :: all(name)) && Imports(before, desired, plan, after, items) && IsExport(after, all, again)
    ensures (forall d :: d in again <==> d in desired) <==>
      && NoClash(before, desired) && (plan.allowDelete || plan.delete == [])
      && forall d :: d in desired ==> ExportsAs(before, d)
  {
    hide Imports, IsExport, DefinitionOf, ExportsAs;
    if forall d :: d in again <==> d in desired {
      ReturnedMeans(before, desired, plan, after, items, all, again);
    } else if NoClash(before, desired) && (plan.allowDelete || plan.delete == []) {
      var d :| d in again <==> d !in desired;
      NotReturned(before, desired, plan, after, items, all, again, d);
    }
  }

  lemma ReturnedMeans(before: map<string, Topic>, desired: seq<Desired>, plan: Plan, after: map<string, Topic>,
                      items: seq<Item>, all: string -> bool, again: seq<Desired>)
    requires (forall name :: all(name)) && Imports(before, desired, plan, after, items) && IsExport(after, all, again)
    requires forall d :: d in again <==> d in desired
    ensures NoClash(before, desired) && (plan.allowDelete || plan.delete == [])
    ensures forall d :: d in desired ==> ExportsAs(before, d)
  {
    hide IsExport, DefinitionOf, ExportsAs, IsApplied, IsSplit, UniqueConfigs;
    forall d | d in desired ensures !Clashes(before, d) && ExportsAs(before, d) {
      ExportHolds(after, all, again, d.name, d);
      if Clashes(before, d) {
        OthersAreUntouched(before, desired, plan, after, items, d.name);
      } else {
        ExportsAsDesiredIff(before, desired, plan, after, items, d);
      }
    }
    if !plan.allowDelete && plan.delete != [] {
      var name := plan.delete[0];
      assert name in Elements(plan.delete);
      var left := Named(name, DefinitionOf(before[name]));
      OthersAreUntouched(before, desired, plan, after, items, name);
      ExportHolds(after, all, again, name, left);
      MemberIsNamed(desired, left);
    }
  }

  // A definition on one side only was not exported as it was given.
  lemma NotReturned(before: map<string, Topic>, desired: seq<Desired>, plan: Plan, after: map<string, Topic>,
                    items: seq<Item>, all: string -> bool, again: seq<Desired>, d: Desired)
    requires (forall name :: all(name)) && Imports(before, desired, plan, after, items) && IsExport(after, all, again)
    requires NoClash(before, desired) && (plan.allowDelete || plan.delete == []) && (d in again <==> d !in desired)
    ensures exists e :: e in desired && !ExportsAs(before, e)
  {
    hide IsExport, DefinitionOf, ExportsAs, IsApplied, IsSplit, UniqueConfigs;
    ExportHolds(after, all, again, d.name, d);
    if d.name in NamesOf(desired) {
      var i :| 0 <= i < |desired| && NamesOf(desired)[i] == d.name;
      ExportsAsDesiredIff(before, desired, plan, after, items, desired[i]);
      if d in desired {
        DistinctNamesOneEach(desired, d, desired[i]);
      }
    } else {
      if d in desired {
        MemberIsNamed(desired, d);
      }
      NoneIsLeft(before, desired, plan, after, items, d.name);
    }
  }

  lemma NoneIsLeft(before: map<string, Topic>, desired: seq<Desired>, plan: Plan, after: map<string, Topic>,
                   items: seq<Item>, name: string)
    requires Imports(before, desired, plan, after, items) && name !in NamesOf(desired)
    requires plan.allowDelete || plan.delete == []
    ensures !IsUser(after, name)
  {
    hide IsApplied, IsSplit, UniqueConfigs;
    OthersAreUntouched(before, desired, plan, after, items, name);
    assert name !in Elements(NamesOf(desired));
    assert IsUser(before, name) ==> name in Elements(plan.delete);
  }
}

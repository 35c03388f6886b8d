/** Declarative import and export of topics (internal/service/cluster/destructive.go,
    internal/service/cluster/inspect.go) against the fake cluster. */
module Reconcile {
  import opened Kafka
  import opened FakeCluster
  import opened FakeServer
  import opened Seqs
  import opened Strings
  import opened Maps
  import opened Names
  import opened PlanToken
  import Bulk

  type Desired = Named<Definition>

  datatype FromTo = FromTo(from: string, to: string)
  type Change = Named<FromTo>
  type AlterAction = Named<seq<Change>>

  datatype Plan = Plan(
    create: seq<Desired>, alter: seq<AlterAction>, delete: seq<string>, same: seq<string>,
    allowDelete: bool, planToken: string)

  // ---- What a plan says ----

  /** A lookup by name in a config listing: the last entry of that name, and the empty
      value when there is none. */
  function ValueOf(configs: seq<ConfigEntry>, name: string): string {
    if configs == [] then ""
    else
      var last := configs[|configs| - 1];
      if last.name == name then last.value else ValueOf(configs[..|configs| - 1], name)
  }

  predicate Matches(configs: seq<ConfigEntry>, want: map<string, string>) {
    forall k :: k in want ==> ValueOf(configs, k) == want[k]
  }

  datatype Verdict = Missing | Differing | Matching

  predicate IsUser(topics: map<string, Topic>, name: string) {
    name in topics && !topics[name].isInternal
  }

  function Judge(topics: map<string, Topic>, d: Desired): Verdict {
    if !IsUser(topics, d.name) then Missing
    else if Matches(topics[d.name].configs, d.body.configs) then Matching
    else Differing
  }

  ghost function Judged(topics: map<string, Topic>, desired: seq<Desired>, v: Verdict): seq<Desired> {
    if desired == [] then []
    else
      var n := |desired| - 1;
      Judged(topics, desired[..n], v) + if Judge(topics, desired[n]) == v then [desired[n]] else []
  }

  /** Exactly the keys that differ, in ascending order, each from what it is to what is wanted. */
  ghost predicate IsDiff(configs: seq<ConfigEntry>, want: map<string, string>, changes: seq<Change>) {
    && StrictlyAscending(NamesOf(changes))
    && (forall i :: 0 <= i < |changes| ==> IsChange(configs, want, changes[i]))
    && (forall k :: Differs(configs, want, k) ==> k in Elements(NamesOf(changes)))
  }

  ghost predicate Differs(configs: seq<ConfigEntry>, want: map<string, string>, k: string) {
    k in want && ValueOf(configs, k) != want[k]
  }

  ghost predicate IsChange(configs: seq<ConfigEntry>, want: map<string, string>, c: Change) {
    Differs(configs, want, c.name) && c.body == FromTo(ValueOf(configs, c.name), want[c.name])
  }

  ghost predicate AreActions(topics: map<string, Topic>, differing: seq<Desired>, actions: seq<AlterAction>) {
    && |actions| == |differing|
    && forall i :: 0 <= i < |actions| ==> IsAction(topics, differing[i], actions[i])
  }

  ghost predicate IsAction(topics: map<string, Topic>, d: Desired, a: AlterAction) {
    a.name == d.name && d.name in topics && IsDiff(topics[d.name].configs, d.body.configs, a.body)
  }

  ghost function UserTopics(topics: map<string, Topic>): set<string> {
    set name | name in topics && !topics[name].isInternal
  }

  /** One desired topic's part of the token: its name and the hash of its definition. */
  ghost predicate IsTarget(hash: string -> string, d: Desired, target: string) {
    exists digest :: IsDigest(hash, d.body, digest) && target == ImportTarget(d.name, digest)
  }

  ghost predicate AreTargets(hash: string -> string, desired: seq<Desired>, targets: seq<string>) {
    |targets| == |desired| && forall i :: 0 <= i < |desired| ==> IsTarget(hash, desired[i], targets[i])
  }

  ghost predicate IsImportToken(hash: string -> string, desired: seq<Desired>, token: string) {
    exists targets: seq<string> :: AreTargets(hash, desired, targets) && IsToken(hash, "C12", Elements(targets), token)
  }

  /** The plan for a cluster: every desired topic under its verdict, every list in name
      order, and the existing user topics nobody desires. */
  ghost predicate IsPlan(topics: map<string, Topic>, desired: seq<Desired>, plan: Plan) {
    && IsSplit(topics, desired, plan)
    && StrictlyAscending(plan.delete) && Elements(plan.delete) == UserTopics(topics) - Elements(NamesOf(desired))
  }

  ghost predicate IsSplit(topics: map<string, Topic>, desired: seq<Desired>, plan: Plan) {
    && Sorted(NamesOf(plan.create)) && multiset(plan.create) == multiset(Judged(topics, desired, Missing))
    && Sorted(NamesOf(plan.alter))
    && (exists actions ::
         AreActions(topics, Judged(topics, desired, Differing), actions) && multiset(plan.alter) == multiset(actions))
    && Sorted(plan.same) && multiset(plan.same) == multiset(NamesOf(Judged(topics, desired, Matching)))
  }

  // ---- PlanImport ----

  // The by-name map: a later entry of the same name overwrites an earlier one.
  method IndexByName(configs: seq<ConfigEntry>) returns (byName: map<string, string>)
    ensures forall k :: ValueOf(configs, k) == if k in byName then byName[k] else ""
  {
    byName := map[];
    for i := 0 to |configs|
      invariant forall k :: ValueOf(configs[..i], k) == if k in byName then byName[k] else ""
    {
      assert configs[..i + 1][..i] == configs[..i];
      byName := byName[configs[i].name := configs[i].value];
    }
    assert configs[..|configs|] == configs;
  }

  method Diff(configs: seq<ConfigEntry>, want: map<string, string>) returns (changes: seq<Change>)
    ensures IsDiff(configs, want, changes)
    ensures changes == [] <==> Matches(configs, want)
    ensures forall i :: 0 <= i < |changes| ==>
      && changes[i].name in want && changes[i].body.to == want[changes[i].name]
      && changes[i].body.from == ValueOf(configs, changes[i].name)
  {
    var byName := IndexByName(configs);
    var found: seq<Change>, todo := [], want.Keys;
    while exists k :: k in todo
      invariant todo <= want.Keys && IsPartialDiff(configs, want, want.Keys - todo, found)
      decreases todo
    {
      var k :| k in todo;
      var from := if k in byName then byName[k] else "";
      DiffStep(configs, want, todo, found, k);
      if from != want[k] {
        found := found + [Named(k, FromTo(from, want[k]))];
      }
      todo := todo - {k};
    }
    changes := SortByName(found);
    SortedDiff(configs, want, found, changes);
  }

  // The changes found so far, over the keys already visited.
  ghost predicate IsPartialDiff(configs: seq<ConfigEntry>, want: map<string, string>, done: set<string>,
                                found: seq<Change>)
  {
    && Distinct(NamesOf(found))
    && (forall i :: 0 <= i < |found| ==> found[i].name in done && IsChange(configs, want, found[i]))
    && (forall k :: k in done && Differs(configs, want, k) ==> k in Elements(NamesOf(found)))
  }

  lemma DiffStep(configs: seq<ConfigEntry>, want: map<string, string>, todo: set<string>, found: seq<Change>, k: string)
    requires todo <= want.Keys && k in todo && IsPartialDiff(configs, want, want.Keys - todo, found)
    ensures
      var from, done := ValueOf(configs, k), want.Keys - (todo - {k});
      && (from == want[k] ==> IsPartialDiff(configs, want, done, found))
      && (from != want[k] ==> IsPartialDiff(configs, want, done, found + [Named(k, FromTo(from, want[k]))]))
  {
    var done := want.Keys - todo;
    assert want.Keys - (todo - {k}) == done + {k};
    assert forall i :: 0 <= i < |found| ==> found[i].name != k;
    if ValueOf(configs, k) != want[k] {
      OneMoreChange(configs, want, done, found, Named(k, FromTo(ValueOf(configs, k), want[k])));
    }
  }

  lemma OneMoreChange(configs: seq<ConfigEntry>, want: map<string, string>, done: set<string>, found: seq<Change>,
                      c: Change)
    requires IsPartialDiff(configs, want, done, found) && c.name !in done && IsChange(configs, want, c)
    ensures IsPartialDiff(configs, want, done + {c.name}, found + [c])
  {
    assert NamesOf(found + [c]) == NamesOf(found) + [c.name];
    assert forall x :: x in NamesOf(found) + [c.name] <==> x in NamesOf(found) || x == c.name;
    assert forall i :: 0 <= i < |found| ==> (found + [c])[i] == found[i] && NamesOf(found)[i] == found[i].name;
  }

  lemma SortedDiff(configs: seq<ConfigEntry>, want: map<string, string>, found: seq<Change>, changes: seq<Change>)
    requires IsPartialDiff(configs, want, want.Keys, found)
    requires Sorted(NamesOf(changes)) && multiset(changes) == multiset(found)
    ensures IsDiff(configs, want, changes)
    ensures changes == [] <==> Matches(configs, want)
  {
    NamesPermute(changes, found);
    DistinctSortedAscends(NamesOf(found), NamesOf(changes));
    SameMultisetSameElements(NamesOf(changes), NamesOf(found));
    forall i | 0 <= i < |changes| ensures IsChange(configs, want, changes[i]) {
      SameMembers(changes, found, changes[i]);
    }
    if changes == [] {
      assert Elements(NamesOf(changes)) == {};
      assert forall k :: k in want ==> !Differs(configs, want, k);
    } else {
      assert IsChange(configs, want, changes[0]);
    }
  }

  method PlanImport(hash: string -> string, admin: Fake, desired: seq<Desired>, allowDelete: bool) returns (plan: Plan)
    ensures IsPlan(admin.topics, desired, plan) && plan.allowDelete == allowDelete
    ensures IsImportToken(hash, desired, plan.planToken)
  {
    var create, alter, same := Split(admin, desired);
    var delete := Undesired(admin, desired);
    var token := ImportToken(hash, desired);
    plan := Plan(create, alter, delete, same, allowDelete, token);
  }

  method Split(admin: Fake, desired: seq<Desired>)
    returns (create: seq<Desired>, alter: seq<AlterAction>, same: seq<string>)
    ensures IsSplit(admin.topics, desired, Plan(create, alter, [], same, false, ""))
  {
    ghost var topics := admin.topics;
    create, alter, same := [], [], [];
    for i := 0 to |desired|
      invariant create == Judged(topics, desired[..i], Missing)
      invariant AreActions(topics, Judged(topics, desired[..i], Differing), alter)
      invariant same == NamesOf(Judged(topics, desired[..i], Matching))
    {
      assert desired[..i + 1][..i] == desired[..i];
      var d := desired[i];
      if d.name !in admin.topics || admin.topics[d.name].isInternal {
        create := create + [d];
        continue;
      }
      var changes := Diff(admin.topics[d.name].configs, d.body.configs);
      if changes == [] {
        same := same + [d.name];
        continue;
      }
      alter := alter + [Named(d.name, changes)];
    }
    assert desired[..|desired|] == desired;
    create := SortByName(create);
    alter := SortByName(alter);
    same := SortNames(same);
  }

  method Undesired(admin: Fake, desired: seq<Desired>) returns (delete: seq<string>)
    ensures StrictlyAscending(delete) && Elements(delete) == UserTopics(admin.topics) - Elements(NamesOf(desired))
  {
    var wanted: set<string> := {};
    for i := 0 to |desired|
      invariant wanted == Elements(NamesOf(desired)[..i])
    {
      ElementsSnoc(NamesOf(desired), i);
      wanted := wanted + {desired[i].name};
    }
    assert NamesOf(desired)[..|desired|] == NamesOf(desired);
    var listed := map name | name in admin.topics && !admin.topics[name].isInternal && name !in wanted :: name;
    var names := KeysOf(listed);
    delete := SortNames(names);
    DistinctSortedAscends(names, delete);
    SameMultisetSameElements(names, delete);
  }

  method ImportToken(hash: string -> string, desired: seq<Desired>) returns (token: string)
    ensures IsImportToken(hash, desired, token)
  {
    hide IsDigest, IsToken;
    var targets: seq<string> := [];
    for i := 0 to |desired|
      invariant |targets| == i
      invariant forall j :: 0 <= j < i ==> IsTarget(hash, desired[j], targets[j])
    {
      var digest := HashDefinition(hash, desired[i].body);
      assert IsTarget(hash, desired[i], ImportTarget(desired[i].name, digest));
      targets := targets + [ImportTarget(desired[i].name, digest)];
    }
    token := Token(hash, "C12", targets);
  }

  // ---- ApplyImport ----

  datatype Item =
    | Created(name: string, error: Option<Error>)
    | Altered(name: string, error: Option<Error>)
    | Deleted(name: string, error: Option<Error>)
    | Skipped(name: string)

  function SpecOf(d: Desired): TopicSpec {
    TopicSpec(d.name, d.body.partitions, d.body.replicationFactor, d.body.configs)
  }

  function ChangesOf(changes: seq<Change>): seq<ConfigChange> {
    seq(|changes|, i requires 0 <= i < |changes| => ConfigChange(changes[i].name, Some(changes[i].body.to)))
  }

  ghost predicate Creatable(create: seq<Desired>) {
    forall i :: 0 <= i < |create| ==> create[i].body.partitions >= 0
  }

  /** One create call after the other; a refused one does not stop the rest. */
  ghost predicate CreatesInOrder(create: seq<Desired>, states: seq<map<string, Topic>>, errors: seq<Option<Error>>)
    requires Creatable(create)
  {
    && |states| == |create| + 1 && |errors| == |create|
    && forall i :: 0 <= i < |create| ==> Creates(states[i], SpecOf(create[i]), false, states[i + 1], errors[i])
  }

  function AlterTopic(topics: map<string, Topic>, a: AlterAction): map<string, Topic> {
    if a.name !in topics then topics
    else topics[a.name := topics[a.name].(configs := AlterAll(topics[a.name].configs, ChangesOf(a.body)))]
  }

  function AlterTopics(topics: map<string, Topic>, alter: seq<AlterAction>): (after: map<string, Topic>)
    ensures after.Keys == topics.Keys
  {
    if alter == [] then topics else AlterTopic(AlterTopics(topics, alter[..|alter| - 1]), alter[|alter| - 1])
  }

  function ErrorOf(item: Item): Option<Error> {
    if item.Skipped? then None else item.error
  }

  function Attempted(items: seq<Item>): nat {
    if items == [] then 0
    else Attempted(items[..|items| - 1]) + if items[|items| - 1].Skipped? then 0 else 1
  }

  function Failed(items: seq<Item>): (n: nat)
    ensures n <= Attempted(items)
  {
    if items == [] then 0
    else Failed(items[..|items| - 1]) + if ErrorOf(items[|items| - 1]).Some? then 1 else 0
  }

  ghost predicate Tallies(items: seq<Item>, summary: Bulk.Summary) {
    summary == Bulk.Summary(Attempted(items), Attempted(items) - Failed(items), Failed(items))
  }

  function Tally(summary: Bulk.Summary, error: Option<Error>): Bulk.Summary {
    if error.Some? then Bulk.Summary(summary.total + 1, summary.succeeded, summary.failed + 1)
    else Bulk.Summary(summary.total + 1, summary.succeeded + 1, summary.failed)
  }

  lemma TallyOne(items: seq<Item>, item: Item, summary: Bulk.Summary)
    requires Tallies(items, summary)
    ensures Tallies(items + [item], if item.Skipped? then summary else Tally(summary, item.error))
  {
    assert (items + [item])[..|items|] == items;
  }

  function CreateItems(create: seq<Desired>, errors: seq<Option<Error>>): seq<Item>
    requires |errors| == |create|
  {
    if create == [] then []
    else
      var n := |create| - 1;
      CreateItems(create[..n], errors[..n]) + [Created(create[n].name, errors[n])]
  }

  function AlterItems(topics: map<string, Topic>, alter: seq<AlterAction>): seq<Item> {
    if alter == [] then []
    else
      var n := |alter| - 1;
      AlterItems(topics, alter[..n])
        + [Altered(alter[n].name, if alter[n].name in topics then None else Some(NotFound))]
  }

  function DeleteItems(topics: map<string, Topic>, delete: seq<string>, allowDelete: bool): seq<Item> {
    if delete == [] then []
    else
      var n := |delete| - 1;
      var gone := delete[n] !in topics || delete[n] in delete[..n];
      DeleteItems(topics, delete[..n], allowDelete)
      + [if allowDelete then Deleted(delete[n], if gone then Some(NotFound) else None) else Skipped(delete[n])]
  }

  // One create call with one spec; its error is the result's own.
  method CreateDesired(admin: Fake, d: Desired) returns (error: Option<Error>)
    requires d.body.partitions >= 0
    modifies admin`topics
    ensures Creates(old(admin.topics), SpecOf(d), false, admin.topics, error)
    ensures old(admin.LogInvariant()) ==> admin.LogInvariant()
  {
    hide CreatesAll, Creates;
    ghost var before := admin.topics;
    var results := admin.CreateTopics([SpecOf(d)], false);
    BatchOfOne(before, SpecOf(d), false, admin.topics, results);
    error := results[0];
  }

  method ApplyCreates(admin: Fake, create: seq<Desired>)
    returns (items: seq<Item>, summary: Bulk.Summary, ghost states: seq<map<string, Topic>>,
             ghost errors: seq<Option<Error>>)
    requires Creatable(create)
    modifies admin`topics
    ensures CreatesInOrder(create, states, errors) && states[0] == old(admin.topics) && states[|create|] == admin.topics
    ensures items == CreateItems(create, errors) && Tallies(items, summary)
    ensures old(admin.LogInvariant()) ==> admin.LogInvariant()
  {
    hide Creates;
    items, summary := [], Bulk.Summary(0, 0, 0);
    states, errors := [admin.topics], [];
    for i := 0 to |create|
      invariant |errors| == i && CreatesInOrder(create[..i], states, errors)
      invariant states[0] == old(admin.topics) && states[i] == admin.topics
      invariant items == CreateItems(create[..i], errors) && Tallies(items, summary)
      invariant old(admin.LogInvariant()) ==> admin.LogInvariant()
    {
      var error := CreateDesired(admin, create[i]);
      CreatesOneMore(create, i, states, errors, admin.topics, error);
      states, errors := states + [admin.topics], errors + [error];
      TallyOne(items, Created(create[i].name, error), summary);
      items := items + [Created(create[i].name, error)];
      summary := Tally(summary, error);
    }
    assert create[..|create|] == create;
  }

  lemma CreatesOneMore(create: seq<Desired>, i: nat, states: seq<map<string, Topic>>, errors: seq<Option<Error>>,
                       after: map<string, Topic>, error: Option<Error>)
    requires Creatable(create) && i < |create| && CreatesInOrder(create[..i], states, errors)
    requires Creates(states[i], SpecOf(create[i]), false, after, error)
    ensures CreatesInOrder(create[..i + 1], states + [after], errors + [error])
    ensures CreateItems(create[..i + 1], errors + [error]) ==
      CreateItems(create[..i], errors) + [Created(create[i].name, error)]
  {
    assert create[..i + 1][..i] == create[..i];
    assert (errors + [error])[..i] == errors;
  }

  method ApplyAlters(admin: Fake, alter: seq<AlterAction>, before: seq<Item>, tally: Bulk.Summary)
    returns (items: seq<Item>, summary: Bulk.Summary)
    requires Tallies(before, tally)
    modifies admin`topics
    ensures admin.topics == AlterTopics(old(admin.topics), alter)
    ensures items == before + AlterItems(old(admin.topics), alter) && Tallies(items, summary)
    ensures old(admin.LogInvariant()) ==> admin.LogInvariant()
  {
    items, summary := before, tally;
    for i := 0 to |alter|
      invariant admin.topics == AlterTopics(old(admin.topics), alter[..i])
      invariant items == before + AlterItems(old(admin.topics), alter[..i]) && Tallies(items, summary)
      invariant old(admin.LogInvariant()) ==> admin.LogInvariant()
    {
      assert alter[..i + 1][..i] == alter[..i];
      var error := admin.IncrementalAlterTopicConfigs(alter[i].name, ChangesOf(alter[i].body));
      TallyOne(items, Altered(alter[i].name, error), summary);
      items := items + [Altered(alter[i].name, error)];
      summary := Tally(summary, error);
    }
    assert alter[..|alter|] == alter;
  }

  function Without(topics: map<string, Topic>, delete: seq<string>, allowDelete: bool): map<string, Topic> {
    if allowDelete then topics - (set name | name in delete) else topics
  }

  // One delete call with one name; its error is the result's own.
  method DeleteNamed(admin: Fake, name: string) returns (error: Option<Error>)
    modifies admin`topics
    ensures error == if name in old(admin.topics) then None else Some(NotFound)
    ensures admin.topics == old(admin.topics) - {name}
    ensures old(admin.LogInvariant()) ==> admin.LogInvariant()
  {
    var names := [name];
    var results := admin.DeleteTopics(names);
    assert (set n | n in names) == {name};
    error := results[0];
  }

  method ApplyDeletes(admin: Fake, delete: seq<string>, allowDelete: bool, before: seq<Item>, tally: Bulk.Summary)
    returns (items: seq<Item>, summary: Bulk.Summary)
    requires Tallies(before, tally)
    modifies admin`topics
    ensures admin.topics == Without(old(admin.topics), delete, allowDelete)
    ensures items == before + DeleteItems(old(admin.topics), delete, allowDelete) && Tallies(items, summary)
    ensures old(admin.LogInvariant()) ==> admin.LogInvariant()
  {
    ghost var topics := admin.topics;
    items, summary := before, tally;
    for i := 0 to |delete|
      invariant admin.topics == Without(topics, delete[..i], allowDelete)
      invariant items == before + DeleteItems(topics, delete[..i], allowDelete) && Tallies(items, summary)
      invariant old(admin.LogInvariant()) ==> admin.LogInvariant()
    {
      DeleteOne(topics, delete, i, allowDelete, before);
      if !allowDelete {
        TallyOne(items, Skipped(delete[i]), summary);
        items := items + [Skipped(delete[i])];
        continue;
      }
      var error := DeleteNamed(admin, delete[i]);
      TallyOne(items, Deleted(delete[i], error), summary);
      items := items + [Deleted(delete[i], error)];
      summary := Tally(summary, error);
    }
    assert delete[..|delete|] == delete;
  }

  lemma DeleteOne(topics: map<string, Topic>, delete: seq<string>, i: nat, allowDelete: bool, before: seq<Item>)
    requires i < |delete|
    ensures
      var now := Without(topics, delete[..i], allowDelete);
      && Without(topics, delete[..i + 1], allowDelete) == (if allowDelete then now - {delete[i]} else now)
      && var error := if delete[i] in now then None else Some(NotFound);
         before + DeleteItems(topics, delete[..i + 1], allowDelete) ==
           before + DeleteItems(topics, delete[..i], allowDelete)
           + [if allowDelete then Deleted(delete[i], error) else Skipped(delete[i])]
  {
    assert delete[..i + 1] == delete[..i] + [delete[i]];
    assert delete[..i + 1][..i] == delete[..i];
  }

  /** Creates, then alters, then deletes: the cluster each leaves to the next, and one
      item per entry of the plan, in plan order. */
  ghost predicate IsApplied(before: map<string, Topic>, plan: Plan, after: map<string, Topic>, items: seq<Item>)
    requires Creatable(plan.create)
  {
    exists states, errors :: CreatesInOrder(plan.create, states, errors) && states[0] == before
      && Finishes(states[|plan.create|], plan, errors, after, items)
  }

  ghost predicate Finishes(created: map<string, Topic>, plan: Plan, errors: seq<Option<Error>>,
                           after: map<string, Topic>, items: seq<Item>)
    requires |errors| == |plan.create|
  {
    var altered := AlterTopics(created, plan.alter);
    && after == Without(altered, plan.delete, plan.allowDelete)
    && items == CreateItems(plan.create, errors) + AlterItems(created, plan.alter)
                + DeleteItems(altered, plan.delete, plan.allowDelete)
  }

  method ApplyImport(admin: Fake, plan: Plan) returns (items: seq<Item>, summary: Bulk.Summary)
    requires Creatable(plan.create)
    modifies admin`topics
    ensures IsApplied(old(admin.topics), plan, admin.topics, items)
    ensures Tallies(items, summary)
    ensures old(admin.LogInvariant()) ==> admin.LogInvariant()
  {
    ghost var states, errors;
    items, summary, states, errors := ApplyCreates(admin, plan.create);
    items, summary := ApplyAlters(admin, plan.alter, items, summary);
    items, summary := ApplyDeletes(admin, plan.delete, plan.allowDelete, items, summary);
    assert Finishes(states[|plan.create|], plan, errors, admin.topics, items);
  }

  // ---- Export ----

  /** The values set dynamically, a later entry of a name over an earlier one. */
  function Overrides(configs: seq<ConfigEntry>): map<string, string> {
    if configs == [] then map[]
    else
      var c := configs[|configs| - 1];
      var before := Overrides(configs[..|configs| - 1]);
      if c.source == Dynamic then before[c.name := c.value] else before
  }

  /** A topic as its definition; the counts pass through 32 and 16 bits. */
  function DefinitionOf(t: Topic): Definition {
    Definition(ToInt32(|t.partitions|), ToInt16(t.replicationFactor), Overrides(t.configs))
  }

  ghost predicate IsExport(topics: map<string, Topic>, pattern: string -> bool, exported: seq<Desired>) {
    && StrictlyAscending(NamesOf(exported))
    && Elements(NamesOf(exported)) == (set name | name in topics && !topics[name].isInternal && pattern(name))
    && forall i :: 0 <= i < |exported| ==>
      exported[i].name in topics && exported[i].body == DefinitionOf(topics[exported[i].name])
  }

  method Export(admin: Fake, pattern: string -> bool) returns (exported: seq<Desired>)
    ensures IsExport(admin.topics, pattern, exported)
  {
    var listed := map name | name in admin.topics && !admin.topics[name].isInternal && pattern(name) :: name;
    var found := KeysOf(listed);
    var matched := SortNames(found);
    DistinctSortedAscends(found, matched);
    SameMultisetSameElements(found, matched);
    exported := [];
    for i := 0 to |matched|
      invariant |exported| == i
      invariant forall j :: 0 <= j < i ==>
        matched[j] in admin.topics && exported[j] == Named(matched[j], DefinitionOf(admin.topics[matched[j]]))
    {
      InElements(matched, i);
      var t := admin.topics[matched[i]];
      var overrides := map[];
      for k := 0 to |t.configs|
        invariant overrides == Overrides(t.configs[..k])
      {
        assert t.configs[..k + 1][..k] == t.configs[..k];
        if t.configs[k].source == Dynamic {
          overrides := overrides[t.configs[k].name := t.configs[k].value];
        }
      }
      assert t.configs[..|t.configs|] == t.configs;
      exported := exported + [Named(matched[i],
                                    Definition(ToInt32(|t.partitions|), ToInt16(t.replicationFactor), overrides))];
    }
    assert NamesOf(exported) == matched;
  }
}

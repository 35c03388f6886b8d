/** Plan tokens (internal/service/core/plantoken.go) and the definition hash and target
    texts they are built from (internal/service/cluster/destructive.go). The hash itself
    is an arbitrary function. */
module PlanToken {
  import opened Strings
  import opened Decimal
  import opened Maps
  import Kafka
  import Audit
  import Destructive

  const NEWLINE := '\n'

  /** The canonical text: the command, then the strictly ascending enumeration of the
      target set, one per line. */
  ghost predicate IsCanonical(command: string, targets: set<string>, text: string) {
    exists unique :: StrictlyAscending(unique) && Elements(unique) == targets && text == Lines(command, unique)
  }

  ghost function Lines(command: string, unique: seq<string>): string {
    command + [NEWLINE] + Join(unique, NEWLINE)
  }

  /** The hash of the canonical text. */
  ghost predicate IsToken(hash: string -> string, command: string, targets: set<string>, token: string) {
    exists text :: IsCanonical(command, targets, text) && token == hash(text)
  }

  /** Sorts a copy, then drops duplicates in place: the kept targets are written over the
      front of the very array the loop is still reading. */
  method Token(hash: string -> string, command: string, targets: seq<string>) returns (token: string)
    ensures IsToken(hash, command, Elements(targets), token)
  {
    var sorted := new string[|targets|](i requires 0 <= i < |targets| => targets[i]);
    assert sorted[..] == targets;
    SortStrings(sorted);
    ghost var full := sorted[..];
    SameMultisetSameElements(full, targets);
    var kept := DropDuplicates(sorted);
    var canonical := command + [NEWLINE] + Join(sorted[..kept], NEWLINE);
    assert IsCanonical(command, Elements(targets), canonical);
    token := hash(canonical);
  }

  method DropDuplicates(sorted: array<string>) returns (kept: nat)
    requires Sorted(sorted[..])
    modifies sorted
    ensures kept <= sorted.Length
    ensures StrictlyAscending(sorted[..kept]) && Elements(sorted[..kept]) == Elements(old(sorted[..]))
  {
    ghost var full, unique := sorted[..], [];
    var prev := "";
    kept := 0;
    for i := 0 to sorted.Length
      invariant kept == |unique| <= i && |full| == sorted.Length
      invariant forall k :: i <= k < sorted.Length ==> sorted[k] == full[k]
      invariant forall k :: 0 <= k < kept ==> sorted[k] == unique[k]
      invariant Deduped(unique, full, i)
      invariant i > 0 ==> prev == full[i - 1]
    {
      var t := sorted[i];
      DedupStep(unique, full, i);
      if i == 0 || t != prev {
        sorted[kept] := t;
        kept, unique := kept + 1, unique + [t];
      }
      prev := t;
    }
    assert full[..sorted.Length] == full && sorted[..kept] == unique;
  }

  /** The distinct elements of the first i of a sorted sequence, in order. */
  ghost predicate Deduped(kept: seq<string>, full: seq<string>, i: nat)
    requires i <= |full|
  {
    && StrictlyAscending(kept) && Elements(kept) == Elements(full[..i])
    && (i > 0 ==> kept != [] && kept[|kept| - 1] == full[i - 1])
  }

  lemma DedupStep(kept: seq<string>, full: seq<string>, i: nat)
    requires Sorted(full) && i < |full| && Deduped(kept, full, i)
    ensures Deduped(if i == 0 || full[i] != full[i - 1] then kept + [full[i]] else kept, full, i + 1)
  {
    ElementsSnoc(full, i);
    if i == 0 || full[i] != full[i - 1] {
      AppendLarger(kept, full[i], full, i);
    }
  }

  lemma ElementsSnoc(s: seq<string>, i: nat)
    requires i < |s|
    ensures Elements(s[..i + 1]) == Elements(s[..i]) + {s[i]}
    ensures i > 0 ==> s[i - 1] in Elements(s[..i])
  {
    assert s[..i + 1] == s[..i] + [s[i]];
    assert i > 0 ==> s[..i][i - 1] == s[i - 1];
  }

  // The next distinct element of a sorted sequence is larger than everything kept.
  lemma AppendLarger(kept: seq<string>, t: string, full: seq<string>, i: nat)
    requires Sorted(full) && i < |full| && t == full[i]
    requires StrictlyAscending(kept) && Elements(kept) == Elements(full[..i])
    requires i > 0 ==> kept != [] && kept[|kept| - 1] == full[i - 1] != t
    ensures StrictlyAscending(kept + [t]) && Elements(kept + [t]) == Elements(full[..i]) + {t}
  {
    forall k | 0 <= k < |kept| ensures Less(kept[k], t) {
      InElements(kept, k);
      var j :| 0 <= j < i && full[j] == kept[k];
      LessIsTotal(kept[k], t);
      LessIsTotal(full[i - 1], t);
      LessIsTotal(kept[k], full[i - 1]);
      if kept[k] != full[i - 1] {
        LessIsTransitive(kept[k], full[i - 1], t);
      }
    }
    assert forall x :: x in kept + [t] <==> x in kept || x == t;
  }

  ghost predicate Plain(targets: set<string>) {
    forall t :: t in targets ==> Free(t, NEWLINE)
  }

  /** Canonical texts tell command and target set apart, exactly: newline-free parts give
      equal texts iff command and set agree, save that no target at all and one empty
      target look the same. */
  lemma CanonicalIffSameTargets(c1: string, s1: set<string>, text1: string, c2: string, s2: set<string>, text2: string)
    requires IsCanonical(c1, s1, text1) && IsCanonical(c2, s2, text2)
    requires Free(c1, NEWLINE) && Free(c2, NEWLINE) && Plain(s1) && Plain(s2)
    ensures text1 == text2 <==> c1 == c2 && (s1 == s2 || (s1 <= {""} && s2 <= {""}))
  {
    var u1 :| StrictlyAscending(u1) && Elements(u1) == s1 && text1 == Lines(c1, u1);
    var u2 :| StrictlyAscending(u2) && Elements(u2) == s2 && text2 == Lines(c2, u2);
    EnumerationIsFree(u1);
    EnumerationIsFree(u2);
    BlankIff(u1);
    BlankIff(u2);
    JoinIsInjective(u1, u2, NEWLINE);
    if text1 == text2 {
      FirstSeparator(c1, c2, NEWLINE, Join(u1, NEWLINE), Join(u2, NEWLINE));
    }
    if s1 == s2 {
      EnumerationIsUnique(u1, u2);
    }
  }

  lemma EnumerationIsFree(u: seq<string>)
    requires Plain(Elements(u))
    ensures AllFree(u, NEWLINE)
  {
    forall i | 0 <= i < |u| ensures Free(u[i], NEWLINE) {
      InElements(u, i);
    }
  }

  lemma BlankIff(u: seq<string>)
    requires StrictlyAscending(u)
    ensures Blank(u) <==> Elements(u) <= {""}
  {
    if Elements(u) <= {""} {
      InElements(u, 0);
      InElements(u, 1);
      LessIsTotal("", "");
      assert |u| == 1 ==> u == [u[0]];
    }
  }

  ghost predicate NoCollisions(hash: string -> string) {
    forall x, y :: hash(x) == hash(y) ==> x == y
  }

  ghost predicate Nonempty(targets: set<string>) { "" !in targets }

  lemma CanonicalIsUnique(command: string, targets: set<string>, x: string, y: string)
    requires IsCanonical(command, targets, x) && IsCanonical(command, targets, y)
    ensures x == y
  {
    var u :| StrictlyAscending(u) && Elements(u) == targets && x == Lines(command, u);
    var v :| StrictlyAscending(v) && Elements(v) == targets && y == Lines(command, v);
    EnumerationIsUnique(u, v);
  }

  // The commands whose tokens are compared here.
  lemma CommandsArePlain()
    ensures Free("T8", NEWLINE) && Free("C9", NEWLINE) && Free("C12", NEWLINE)
  {
  }

  /** Under a hash without collisions two tokens of a command are equal exactly when
      their target sets are. */
  lemma TokensIffTargets(hash: string -> string, command: string, s: set<string>, t1: string, t: set<string>,
                         t2: string)
    requires NoCollisions(hash) && Free(command, NEWLINE) && Plain(s) && Plain(t) && Nonempty(s) && Nonempty(t)
    requires IsToken(hash, command, s, t1) && IsToken(hash, command, t, t2)
    ensures t1 == t2 <==> s == t
  {
    var x :| IsCanonical(command, s, x) && t1 == hash(x);
    var y :| IsCanonical(command, t, y) && t2 == hash(y);
    hide IsCanonical;
    CanonicalIffSameTargets(command, s, x, command, t, y);
    if s != t {
      OnlyEmptyIsBlank(s, t);
    }
  }

  lemma OnlyEmptyIsBlank(a: set<string>, b: set<string>)
    requires Nonempty(a) && Nonempty(b) && a != b
    ensures !(a <= {""} && b <= {""})
  {
  }

  lemma TokenIsUnique(hash: string -> string, command: string, targets: set<string>, t1: string, t2: string)
    requires IsToken(hash, command, targets, t1) && IsToken(hash, command, targets, t2)
    ensures t1 == t2
  {
    var x :| IsCanonical(command, targets, x) && t1 == hash(x);
    var y :| IsCanonical(command, targets, y) && t2 == hash(y);
    hide IsCanonical;
    CanonicalIsUnique(command, targets, x, y);
  }

  // ---- C9 targets ----

  function ReassignTarget(topic: string, partition: int): string {
    topic + "/" + FormatInt(partition)
  }

  /** A topic name may itself hold slashes: the last one is the separator. */
  lemma ReassignTargetIsInjective(t1: string, p1: int, t2: string, p2: int)
    ensures ReassignTarget(t1, p1) == ReassignTarget(t2, p2) <==> t1 == t2 && p1 == p2
  {
    if ReassignTarget(t1, p1) == ReassignTarget(t2, p2) {
      FormatIsPlain(p1);
      FormatIsPlain(p2);
      LastSeparator(t1, t2, '/', FormatInt(p1), FormatInt(p2));
      FormatIsInjective(p1, p2);
    }
  }

  lemma ReassignTargetIsPlain(topic: string, partition: int)
    requires Free(topic, NEWLINE)
    ensures Free(ReassignTarget(topic, partition), NEWLINE)
  {
    FormatIsPlain(partition);
  }

  // ---- C12 definitions ----

  datatype Definition = Definition(partitions: int, replicationFactor: int, configs: map<string, string>)

  ghost function ConfigLines(keys: seq<string>, configs: map<string, string>): string
    requires AllIn(keys, configs)
  {
    if keys == [] then ""
    else ConfigLines(keys[..|keys| - 1], configs) + ConfigLine(keys[|keys| - 1], configs[keys[|keys| - 1]])
  }

  function ConfigLine(k: string, v: string): string {
    k + "=" + v + [NEWLINE]
  }

  function Heading(d: Definition): string {
    FormatInt(d.partitions) + [NEWLINE] + FormatInt(d.replicationFactor) + [NEWLINE]
  }

  /** The text that is hashed: counts, then every config in ascending key order. */
  ghost predicate IsDefinitionText(d: Definition, text: string) {
    exists keys :: StrictlyAscending(keys) && Elements(keys) == d.configs.Keys
      && text == Heading(d) + ConfigLines(keys, d.configs)
  }

  ghost predicate IsDigest(hash: string -> string, d: Definition, digest: string) {
    exists text :: IsDefinitionText(d, text) && digest == hash(text)
  }

  /** The keys come off the map in any order; the text does not depend on it. */
  method HashDefinition(hash: string -> string, d: Definition) returns (digest: string)
    ensures IsDigest(hash, d, digest)
  {
    var keys := KeysOf(d.configs);
    assert Elements(keys) == d.configs.Keys;
    var sorted := new string[|keys|](i requires 0 <= i < |keys| => keys[i]);
    assert sorted[..] == keys;
    SortStrings(sorted);
    SameMultisetSameElements(sorted[..], keys);
    DistinctSortedAscends(keys, sorted[..]);
    var b := WriteLines(Heading(d), sorted, d.configs);
    assert IsDefinitionText(d, b);
    digest := hash(b);
  }

  method WriteLines(heading: string, sorted: array<string>, configs: map<string, string>) returns (b: string)
    requires Elements(sorted[..]) == configs.Keys
    ensures AllIn(sorted[..], configs) && b == heading + ConfigLines(sorted[..], configs)
  {
    ghost var full := sorted[..];
    b := heading;
    assert full[..0] == [];
    for i := 0 to sorted.Length
      invariant AllIn(full[..i], configs)
      invariant b == heading + ConfigLines(full[..i], configs)
    {
      LinesSnoc(full, i, configs);
      b := b + ConfigLine(sorted[i], configs[sorted[i]]);
    }
    assert full[..sorted.Length] == full;
  }

  ghost predicate AllIn(keys: seq<string>, configs: map<string, string>) {
    forall k :: k in keys ==> k in configs
  }

  lemma LinesSnoc(keys: seq<string>, i: nat, configs: map<string, string>)
    requires i < |keys| && Elements(keys) == configs.Keys && AllIn(keys[..i], configs)
    ensures keys[i] in configs && AllIn(keys[..i + 1], configs)
    ensures ConfigLines(keys[..i + 1], configs) ==
      ConfigLines(keys[..i], configs) + ConfigLine(keys[i], configs[keys[i]])
  {
    InElements(keys, i);
    assert keys[..i + 1] == keys[..i] + [keys[i]];
    assert keys[..i + 1][..i] == keys[..i];
  }

  ghost predicate PlainLine(k: string, v: string) {
    Free(k, '=') && Free(k, NEWLINE) && Free(v, NEWLINE)
  }

  /** Keys without '=' and newline, values without newline. */
  ghost predicate PlainConfigs(d: Definition) {
    forall k :: k in d.configs ==> PlainLine(k, d.configs[k])
  }

  lemma DefinitionTextIsUnique(d: Definition, a: string, b: string)
    requires IsDefinitionText(d, a) && IsDefinitionText(d, b)
    ensures a == b
  {
    var k1 :| StrictlyAscending(k1) && Elements(k1) == d.configs.Keys && a == Heading(d) + ConfigLines(k1, d.configs);
    var k2 :| StrictlyAscending(k2) && Elements(k2) == d.configs.Keys && b == Heading(d) + ConfigLines(k2, d.configs);
    EnumerationIsUnique(k1, k2);
  }

  lemma {:induction false} LinesJoin(a: seq<string>, b: seq<string>, configs: map<string, string>)
    requires AllIn(a, configs) && AllIn(b, configs)
    ensures ConfigLines(a + b, configs) == ConfigLines(a, configs) + ConfigLines(b, configs)
  {
    hide ConfigLine;
    if b == [] {
      assert a + b == a;
    } else {
      var n := |b| - 1;
      assert (a + b)[..|a + b| - 1] == a + b[..n];
      LinesJoin(a, b[..n], configs);
    }
  }

  // Config lines read off front to back.
  lemma LinesFromFront(keys: seq<string>, configs: map<string, string>)
    requires keys != [] && AllIn(keys, configs)
    ensures AllIn(keys[1..], configs)
    ensures ConfigLines(keys, configs) == ConfigLine(keys[0], configs[keys[0]]) + ConfigLines(keys[1..], configs)
  {
    hide ConfigLine;
    assert keys == [keys[0]] + keys[1..] && [keys[0]][..0] == [];
    LinesJoin([keys[0]], keys[1..], configs);
  }

  ghost predicate PlainLines(keys: seq<string>, configs: map<string, string>) {
    forall k :: k in keys ==> k in configs && PlainLine(k, configs[k])
  }

  lemma LineSplits(k1: string, v1: string, rest1: string, k2: string, v2: string, rest2: string)
    requires PlainLine(k1, v1) && PlainLine(k2, v2)
    requires ConfigLine(k1, v1) + rest1 == ConfigLine(k2, v2) + rest2
    ensures k1 == k2 && v1 == v2 && rest1 == rest2
  {
    var x, y := k1 + "=" + v1, k2 + "=" + v2;
    assert ConfigLine(k1, v1) + rest1 == x + [NEWLINE] + rest1;
    assert ConfigLine(k2, v2) + rest2 == y + [NEWLINE] + rest2;
    FirstSeparator(x, y, NEWLINE, rest1, rest2);
    FirstSeparator(k1, k2, '=', v1, v2);
  }

  lemma {:induction false} LinesAreInjective(k1: seq<string>, m1: map<string, string>, k2: seq<string>,
                                             m2: map<string, string>)
    requires PlainLines(k1, m1) && PlainLines(k2, m2) && ConfigLines(k1, m1) == ConfigLines(k2, m2)
    ensures k1 == k2 && forall k :: k in k1 ==> m1[k] == m2[k]
    decreases |k1|
  {
    if k1 != [] { LinesFromFront(k1, m1); }
    if k2 != [] { LinesFromFront(k2, m2); }
    if k1 != [] && k2 != [] {
      LineSplits(k1[0], m1[k1[0]], ConfigLines(k1[1..], m1), k2[0], m2[k2[0]], ConfigLines(k2[1..], m2));
      LinesAreInjective(k1[1..], m1, k2[1..], m2);
      assert k1 == [k1[0]] + k1[1..] && k2 == [k2[0]] + k2[1..];
    }
  }

  /** Equal definition texts mean equal definitions. */
  lemma DefinitionTextIsInjective(d: Definition, e: Definition, text: string)
    requires IsDefinitionText(d, text) && IsDefinitionText(e, text) && PlainConfigs(d) && PlainConfigs(e)
    ensures d == e
  {
    hide Heading, ConfigLine, Less;
    var k1 :| StrictlyAscending(k1) && Elements(k1) == d.configs.Keys
      && text == Heading(d) + ConfigLines(k1, d.configs);
    var k2 :| StrictlyAscending(k2) && Elements(k2) == e.configs.Keys
      && text == Heading(e) + ConfigLines(k2, e.configs);
    HeadingSplits(d, ConfigLines(k1, d.configs), e, ConfigLines(k2, e.configs));
    assert forall k :: k in k1 ==> k in Elements(k1);
    assert forall k :: k in k2 ==> k in Elements(k2);
    LinesAreInjective(k1, d.configs, k2, e.configs);
    assert d.configs.Keys == e.configs.Keys;
  }

  lemma HeadingSplits(d: Definition, restD: string, e: Definition, restE: string)
    requires Heading(d) + restD == Heading(e) + restE
    ensures d.partitions == e.partitions && d.replicationFactor == e.replicationFactor && restD == restE
  {
    var p, q := FormatInt(d.partitions), FormatInt(e.partitions);
    var r, s := FormatInt(d.replicationFactor), FormatInt(e.replicationFactor);
    FormatIsPlain(d.partitions);
    FormatIsPlain(e.partitions);
    FormatIsPlain(d.replicationFactor);
    FormatIsPlain(e.replicationFactor);
    assert Heading(d) + restD == p + [NEWLINE] + (r + [NEWLINE] + restD);
    assert Heading(e) + restE == q + [NEWLINE] + (s + [NEWLINE] + restE);
    FirstSeparator(p, q, NEWLINE, r + [NEWLINE] + restD, s + [NEWLINE] + restE);
    FirstSeparator(r, s, NEWLINE, restD, restE);
    FormatIsInjective(d.partitions, e.partitions);
    FormatIsInjective(d.replicationFactor, e.replicationFactor);
  }

  function ImportTarget(name: string, digest: string): string {
    name + "=" + digest
  }

  lemma ImportTargetIsInjective(n1: string, h1: string, n2: string, h2: string)
    requires Free(h1, '=') && Free(h2, '=')
    ensures ImportTarget(n1, h1) == ImportTarget(n2, h2) <==> n1 == n2 && h1 == h2
  {
    if ImportTarget(n1, h1) == ImportTarget(n2, h2) {
      LastSeparator(n1, n2, '=', h1, h2);
    }
  }

  // ---- Tokens guard apply ----

  /** A token obtained for one target set never gets a call past its confirmation once
      the plan's target set has changed. */
  lemma ChangedTargetsNeverApply<C, P>(
      sinks: nat, accepts: Audit.Acceptance, policy: Audit.Policy, at: nat, cluster: C, call: Destructive.Call<C, P>,
      hash: string -> string, command: string, seen: set<string>, now: set<string>)
    requires NoCollisions(hash) && Free(command, NEWLINE) && Plain(seen) && Plain(now)
    requires Nonempty(seen) && Nonempty(now)
    requires seen != now && IsToken(hash, command, seen, call.confirm)
    requires call.plan(cluster).Ok? ==> IsToken(hash, command, now, call.target(call.plan(cluster).value))
    ensures
      var (after, actions, reply) := Destructive.Perform(sinks, accepts, policy, at, cluster, call);
      && after == cluster && !Destructive.Mutates(reply) && Audit.Applied(call.event.id) !in actions
      && forall a :: a in actions ==> a.Wrote? && a.event.phase == Audit.Result
  {
    hide IsToken, Plain;
    if call.plan(cluster).Ok? {
      TokensIffTargets(hash, command, seen, call.confirm, now, call.target(call.plan(cluster).value));
    }
    Destructive.CallIsDisciplined(sinks, accepts, policy, at, cluster, call);
    var gate := Audit.Check(call.caller, call.descriptor, policy);
    if gate.Some? {
      Destructive.ResultsAreResults(sinks, accepts, at,
                                    Audit.RejectedEvent(call.event, call.descriptor, call.caller, gate.value), 0);
    } else if call.dryRun {
      Destructive.ResultsAreResults(sinks, accepts, at,
                                    Audit.ResultEvent(call.event.(dryRun := true), Audit.Succeeded, Kafka.None), 0);
    }
  }
}

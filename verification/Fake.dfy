/** The fake cluster in place (internal/kafka/fake): every method performs exactly the
    effect FakeCluster gives it, and keeps the log invariant wherever that effect does. */
module FakeServer {
  import opened Kafka
  import opened FakeCluster
  import opened Maps

  class Fake {
    var topics: map<string, Topic>
    var groups: map<string, Group>
    var session: Option<Session>

    /** Every partition of every topic is a contiguous log. */
    ghost predicate LogInvariant() reads this {
      forall name :: name in topics ==> WellFormed(name, topics[name])
    }

    constructor ()
      ensures LogInvariant() && topics == map[] && groups == map[] && session == None
    {
      topics, groups, session := map[], map[], None;
    }

    // ---- Seeding ----

    method SeedTopic(name: string, partitions: nat, records: seq<Record>, clock: nat -> int)
      requires partitions > 0 || records == []
      modifies this`topics
      ensures topics == old(topics)[name := SeedAll(name, partitions, records, clock)]
      ensures old(LogInvariant()) ==> LogInvariant()
    {
      var t := Topic(false, 0, EmptyPartitions(partitions), []);
      for i := 0 to |records|
        invariant t == SeedAll(name, partitions, records[..i], clock)
      {
        assert records[..i + 1][..i] == records[..i];
        t := SeedOne(name, t, records[i], clock(i));
      }
      assert records[..|records|] == records;
      topics := topics[name := t];
    }

    method SeedCompactAway(topic: string, partition: int, beforeOffset: int)
      modifies this`topics
      ensures topics ==
        if topic in old(topics) && 0 <= partition < |old(topics)[topic].partitions|
        then old(topics)[topic := TruncateAll(old(topics)[topic], map[partition := beforeOffset])]
        else old(topics)
      ensures topic in old(topics) && 0 <= partition < |old(topics)[topic].partitions| ==>
        topic in topics && CutsExactly(topic, old(topics)[topic], topics[topic], map[partition := beforeOffset])
      ensures old(LogInvariant())
        && (topic in old(topics) && 0 <= partition < |old(topics)[topic].partitions|
            ==> old(topics)[topic].partitions[partition].begin <= beforeOffset)
        ==> LogInvariant()
    {
      if topic !in topics || partition < 0 || partition >= |topics[topic].partitions| {
        return;
      }
      var t := topics[topic];
      var kept := KeepFrom(t.partitions[partition].records, beforeOffset);
      var after := t.(partitions := t.partitions[partition := Partition(beforeOffset, kept)]);
      assert after.partitions == TruncateAll(t, map[partition := beforeOffset]).partitions;
      topics := topics[topic := after];
      TruncateAllIsExact(topic, t, map[partition := beforeOffset]);
      if old(LogInvariant()) && t.partitions[partition].begin <= beforeOffset {
        CompactionKeepsInvariantIff(topic, partition, t.partitions[partition], beforeOffset);
      }
    }

    // The copying loop of SeedCompactAway and DeleteRecords.
    static method KeepFrom(records: seq<Record>, at: int) returns (kept: seq<Record>)
      ensures kept == KeptFrom(records, at)
    {
      kept := [];
      for i := 0 to |records|
        invariant kept == KeptFrom(records[..i], at)
      {
        assert records[..i + 1][..i] == records[..i];
        if records[i].offset >= at {
          kept := kept + [records[i]];
        }
      }
      assert records[..|records|] == records;
    }

    // ---- Producer ----

    method Produce(topic: string, records: seq<ProduceRequest>, clock: nat -> int)
      returns (r: Result<seq<ProduceResult>>)
      modifies this`topics
      ensures topic !in old(topics) ==> r == Err(NotFound) && topics == old(topics)
      ensures topic in old(topics) ==>
        var (after, results) := ProduceAll(topic, old(topics)[topic], records, clock);
        r == Ok(results) && topics == old(topics)[topic := after]
      ensures old(LogInvariant()) ==> LogInvariant()
    {
      if topic !in topics {
        return Err(NotFound);
      }
      ghost var t := topics[topic];
      var out := [];
      for i := 0 to |records|
        invariant topic in topics && topics == old(topics)[topic := topics[topic]]
        invariant (topics[topic], out) == ProduceAll(topic, t, records[..i], clock)
      {
        assert records[..i + 1][..i] == records[..i];
        var (after, result) := ProduceOne(topic, topics[topic], records[i], clock(i));
        topics := topics[topic := after];
        out := out + [result];
      }
      assert records[..|records|] == records;
      if old(LogInvariant()) {
        ProduceKeepsInvariant(topic, t, records, clock);
      }
      return Ok(out);
    }

    // ---- Offset listings ----

    method ListStartOffsets(topic: string) returns (r: Result<map<int, int>>)
      ensures r == if topic in topics then Ok(StartOffsets(topics[topic])) else Err(NotFound)
    {
      if topic !in topics {
        return Err(NotFound);
      }
      var t, out := topics[topic], map[];
      for i := 0 to |t.partitions|
        invariant out == map p: int | 0 <= p < i :: t.partitions[p].begin
      {
        out := out[i := t.partitions[i].begin];
      }
      return Ok(out);
    }

    method ListEndOffsets(topic: string) returns (r: Result<map<int, int>>)
      ensures r == if topic in topics then Ok(EndOffsets(topics[topic])) else Err(NotFound)
    {
      if topic !in topics {
        return Err(NotFound);
      }
      var t, out := topics[topic], map[];
      for i := 0 to |t.partitions|
        invariant out == map p: int | 0 <= p < i :: t.partitions[p].End()
      {
        out := out[i := t.partitions[i].End()];
      }
      return Ok(out);
    }

    method ListOffsetsAfterMilli(topic: string, milli: int) returns (r: Result<map<int, int>>)
      ensures r == if topic in topics then Ok(OffsetsAfterMilli(topics[topic], milli)) else Err(NotFound)
    {
      if topic !in topics {
        return Err(NotFound);
      }
      var t, out := topics[topic], map[];
      for i := 0 to |t.partitions|
        invariant out == map p: int | 0 <= p < i :: OffsetAfterMilli(t.partitions[p], milli)
      {
        var part := t.partitions[i];
        var offset, k := part.End(), 0;
        while k < |part.records|
          invariant 0 <= k <= |part.records| && offset == part.End()
          invariant FirstAtOrAfter(part.records[k..], milli * NANOS_PER_MILLI, part.End()) ==
            OffsetAfterMilli(part, milli)
        {
          if part.records[k].timestamp >= milli * NANOS_PER_MILLI {
            offset := part.records[k].offset;
            break;
          }
          k := k + 1;
        }
        out := out[i := offset];
      }
      return Ok(out);
    }

    // ---- Truncation and partitions ----

    /** Nothing changes unless every target is acceptable; which bad target is reported
        depends on the walk over the map. */
    method DeleteRecords(topic: string, cuts: map<int, int>) returns (r: Result<seq<(int, int)>>)
      modifies this`topics
      ensures topic !in old(topics) ==> r == Err(NotFound)
      ensures topic in old(topics) ==>
        (r.Ok? <==> forall p :: p in cuts ==>
          0 <= p < |old(topics)[topic].partitions| && cuts[p] <= old(topics)[topic].partitions[p].End())
      ensures topic in old(topics) && r.Err? ==>
        || (r.error == NotFound && NamesNone(old(topics)[topic], cuts))
        || (r.error == Broker && PastEnd(old(topics)[topic], cuts))
      ensures topics == if r.Ok? then old(topics)[topic := TruncateAll(old(topics)[topic], cuts)] else old(topics)
      ensures r.Ok? ==> topic in topics && CutsExactly(topic, old(topics)[topic], topics[topic], cuts)
      ensures r.Ok? ==>
        && (forall i, j :: 0 <= i < j < |r.value| ==> r.value[i].0 < r.value[j].0)
        && forall p, at :: (p, at) in r.value <==> p in cuts && cuts[p] == at
      ensures old(LogInvariant()) && topic in old(topics)
        && (forall p :: p in cuts && 0 <= p < |old(topics)[topic].partitions| ==>
              old(topics)[topic].partitions[p].begin <= cuts[p])
        ==> LogInvariant()
    {
      if topic !in topics {
        return Err(NotFound);
      }
      var t := topics[topic];
      var refused := FirstRefused(t, cuts);
      if refused.Some? {
        return Err(refused.value);
      }
      var after, out := CutAll(t, cuts);
      topics := topics[topic := after];
      TruncateAllIsExact(topic, t, cuts);
      forall p | 0 <= p < |t.partitions| && p in cuts && old(LogInvariant()) && t.partitions[p].begin <= cuts[p]
        ensures Contiguous(topic, p, Truncate(t.partitions[p], cuts[p]))
      {
        CompactionKeepsInvariantIff(topic, p, t.partitions[p], cuts[p]);
      }
      return Ok(out);
    }

    // The validating walk of DeleteRecords.
    static method FirstRefused(t: Topic, cuts: map<int, int>) returns (refused: Option<Error>)
      ensures refused.None? <==> forall p :: p in cuts ==> 0 <= p < |t.partitions| && cuts[p] <= t.partitions[p].End()
      ensures refused.Some? ==>
        (refused.value == NotFound && NamesNone(t, cuts)) || (refused.value == Broker && PastEnd(t, cuts))
    {
      var keys := KeysOf(cuts);
      for i := 0 to |keys|
        invariant forall j :: 0 <= j < i ==>
          0 <= keys[j] < |t.partitions| && cuts[keys[j]] <= t.partitions[keys[j]].End()
      {
        var p := keys[i];
        assert p in cuts;
        if p < 0 || p >= |t.partitions| {
          return Some(NotFound);
        }
        if cuts[p] > t.partitions[p].End() {
          return Some(Broker);
        }
      }
      assert forall p :: p in cuts ==> p in keys;
      return None;
    }

    // The cutting loop of DeleteRecords.
    static method CutAll(t: Topic, cuts: map<int, int>) returns (after: Topic, out: seq<(int, int)>)
      requires forall p :: p in cuts ==> 0 <= p < |t.partitions|
      ensures after == TruncateAll(t, cuts)
      ensures forall i, j :: 0 <= i < j < |out| ==> out[i].0 < out[j].0
      ensures forall p, at :: (p, at) in out <==> p in cuts && cuts[p] == at
    {
      var parts := [];
      out := [];
      for p := 0 to |t.partitions|
        invariant |parts| == p && forall q :: 0 <= q < p ==> parts[q] == TruncateAll(t, cuts).partitions[q]
        invariant forall i :: 0 <= i < |out| ==> out[i].0 < p
        invariant forall i, j :: 0 <= i < j < |out| ==> out[i].0 < out[j].0
        invariant forall q, at :: (q, at) in out <==> q < p && q in cuts && cuts[q] == at
      {
        if p in cuts {
          var kept := KeepFrom(t.partitions[p].records, cuts[p]);
          parts, out := parts + [Partition(cuts[p], kept)], out + [(p, cuts[p])];
        } else {
          parts := parts + [t.partitions[p]];
        }
      }
      assert parts == TruncateAll(t, cuts).partitions;
      after := t.(partitions := parts);
    }

    method CreatePartitions(topic: string, total: int) returns (error: Option<Error>)
      modifies this`topics
      ensures error == if topic !in old(topics) then Some(NotFound)
                       else if total <= |old(topics)[topic].partitions| then Some(Broker) else None
      ensures topics == if error.Some? then old(topics) else
        old(topics)[topic := old(topics)[topic].(partitions :=
          old(topics)[topic].partitions + EmptyPartitions(total - |old(topics)[topic].partitions|))]
      ensures old(LogInvariant()) ==> LogInvariant()
    {
      if topic !in topics {
        return Some(NotFound);
      }
      var t := topics[topic];
      if total <= |t.partitions| {
        return Some(Broker);
      }
      topics := topics[topic := t.(partitions := t.partitions + EmptyPartitions(total - |t.partitions|))];
      return None;
    }

    // ---- Consumer ----

    // A partition without a start offset starts at zero, as a Go map read gives it.
    method Assign(topic: string, partitions: seq<int>, startOffsets: map<int, int>)
      modifies this`session
      ensures session == Some(Session(topic, StartingAt(partitions, startOffsets)))
      ensures forall p :: p in session.value.cursor <==> p in partitions
      ensures forall p :: p in partitions ==>
        session.value.cursor[p] == if p in startOffsets then startOffsets[p] else 0
    {
      var cursor: map<int, int> := map[];
      for i := 0 to |partitions|
        invariant forall p :: p in cursor <==> p in partitions[..i]
        invariant forall p :: p in cursor ==> cursor[p] == if p in startOffsets then startOffsets[p] else 0
      {
        var p := partitions[i];
        cursor := cursor[p := if p in startOffsets then startOffsets[p] else 0];
      }
      assert partitions[..|partitions|] == partitions;
      StartsThere(partitions, startOffsets, cursor);
      session := Some(Session(topic, cursor));
    }

    method Poll() returns (out: seq<Record>)
      modifies this`session
      ensures session.Some? <==> old(session).Some?
      ensures session.None? || old(session).value.topic !in topics ==> out == [] && session == old(session)
      ensures session.Some? && old(session).value.topic in topics ==>
        && session.value.topic == old(session).value.topic
        && IsPoll(topics[session.value.topic], old(session).value.cursor, out, session.value.cursor)
    {
      out := [];
      if session.None? || session.value.topic !in topics {
        return;
      }
      var topic, moved := session.value.topic, map[];
      out, moved := ReadAll(topics[topic], session.value.cursor);
      session := Some(Session(topic, moved));
    }

    // Poll's loop: the assigned partitions in the order the session's map is walked.
    static method ReadAll(t: Topic, cursor: map<int, int>) returns (out: seq<Record>, moved: map<int, int>)
      ensures IsPoll(t, cursor, out, moved)
    {
      var order := KeysOf(cursor);
      out, moved := [], cursor;
      for i := 0 to |order|
        invariant OutSoFar(t, cursor, order, i, out) && MovedSoFar(t, cursor, order, i, moved)
      {
        var p := order[i];
        var chunk := ReadFrom(t, p, cursor[p]);
        OutOneMore(t, cursor, order, i, out);
        MovedOneMore(t, cursor, order, i, moved);
        out := out + chunk;
        if chunk != [] {
          moved := moved[p := t.partitions[p].End()];
        }
      }
      AllRead(t, cursor, order, out, moved);
    }

    // The body of Poll's loop, for one assigned partition.
    static method ReadFrom(t: Topic, p: int, cursor: int) returns (chunk: seq<Record>)
      ensures chunk == PollChunk(t, p, cursor)
    {
      if p < 0 || p >= |t.partitions| {
        return [];
      }
      var part := t.partitions[p];
      var start := cursor - part.begin;
      if start < 0 {
        start := 0;
      }
      if start >= |part.records| {
        return [];
      }
      return part.records[start..];
    }

    method Close()
      modifies this`session
      ensures session == None
    {
      session := None;
    }

    // ---- Topics and configurations ----

    // Walks a configuration map in whatever order.
    static method ListConfigs(m: map<string, string>) returns (configs: seq<ConfigEntry>)
      ensures Lists(configs, m)
    {
      configs := [];
      var todo := m.Keys;
      while exists name :: name in todo
        invariant todo <= m.Keys && Lists(configs, m - todo)
        decreases todo
      {
        var name :| name in todo;
        ghost var before, done := configs, m - todo;
        todo := todo - {name};
        configs := configs + [ConfigEntry(name, m[name], Dynamic)];
        forall other | other in m - todo ensures exists i :: 0 <= i < |configs| && configs[i].name == other {
          if other == name {
            assert configs[|before|].name == name;
          } else {
            assert other in done;
            var i :| 0 <= i < |before| && before[i].name == other;
            assert configs[i].name == other;
          }
        }
      }
      assert m - todo == m;
    }

    method CreateTopics(specs: seq<TopicSpec>, validateOnly: bool) returns (errors: seq<Option<Error>>)
      requires forall spec :: spec in specs ==> spec.partitions >= 0
      modifies this`topics
      ensures CreatesAll(old(topics), specs, validateOnly, topics, errors)
      ensures old(LogInvariant()) ==> LogInvariant()
    {
      errors := [];
      for i := 0 to |specs|
        invariant CreatesAll(old(topics), specs[..i], validateOnly, topics, errors)
        invariant old(LogInvariant()) ==> LogInvariant()
      {
        ghost var mid := topics;
        var error := CreateOne(specs[i], validateOnly);
        assert specs[..i + 1] == specs[..i] + [specs[i]];
        BatchOneMore(old(topics), specs[..i], specs[i], validateOnly, mid, errors, topics, error);
        errors := errors + [error];
      }
      assert specs[..|specs|] == specs;
    }

    // The body of CreateTopics' loop, for one spec.
    method CreateOne(spec: TopicSpec, validateOnly: bool) returns (error: Option<Error>)
      requires spec.partitions >= 0
      modifies this`topics
      ensures Creates(old(topics), spec, validateOnly, topics, error)
      ensures old(LogInvariant()) ==> LogInvariant()
    {
      if spec.name in topics {
        return Some(AlreadyExists);
      }
      var configs := ListConfigs(spec.configs);
      if !validateOnly {
        topics := topics[spec.name := Topic(false, spec.replicationFactor, EmptyPartitions(spec.partitions), configs)];
      }
      return None;
    }

    method IncrementalAlterTopicConfigs(topic: string, changes: seq<ConfigChange>) returns (error: Option<Error>)
      modifies this`topics
      ensures error == if topic in old(topics) then None else Some(NotFound)
      ensures topics == if topic !in old(topics) then old(topics) else
        old(topics)[topic := old(topics)[topic].(configs := AlterAll(old(topics)[topic].configs, changes))]
      ensures old(LogInvariant()) ==> LogInvariant()
    {
      if topic !in topics {
        return Some(NotFound);
      }
      ghost var t := topics[topic];
      var configs := topics[topic].configs;
      for k := 0 to |changes|
        invariant topics == old(topics) && configs == AlterAll(t.configs, changes[..k])
      {
        assert changes[..k + 1][..k] == changes[..k];
        var ch := changes[k];
        var idx := FindConfig(configs, ch.name);
        if ch.value.Some? {
          var entry := ConfigEntry(ch.name, ch.value.value, Dynamic);
          if idx >= 0 {
            configs := configs[idx := entry];
          } else {
            configs := configs + [entry];
          }
        } else if idx >= 0 {
          configs := configs[idx := configs[idx].(source := Default)];
        }
      }
      assert changes[..|changes|] == changes;
      topics := topics[topic := topics[topic].(configs := configs)];
      return None;
    }

    static method FindConfig(configs: seq<ConfigEntry>, name: string) returns (idx: int)
      ensures idx == IndexOf(configs, name)
    {
      idx := -1;
      var i := 0;
      while i < |configs|
        invariant 0 <= i <= |configs| && idx == -1
        invariant forall j :: 0 <= j < i ==> configs[j].name != name
      {
        if configs[i].name == name {
          idx := i;
          break;
        }
        i := i + 1;
      }
    }

    method DeleteTopics(names: seq<string>) returns (errors: seq<Option<Error>>)
      modifies this`topics
      ensures topics == old(topics) - (set name | name in names)
      ensures |errors| == |names|
      ensures forall i :: 0 <= i < |names| ==>
        errors[i] == if names[i] in old(topics) && names[i] !in names[..i] then None else Some(NotFound)
      ensures old(LogInvariant()) ==> LogInvariant()
    {
      errors := [];
      for i := 0 to |names|
        invariant topics == old(topics) - (set name | name in names[..i]) && |errors| == i
        invariant forall j :: 0 <= j < i ==>
          errors[j] == if names[j] in old(topics) && names[j] !in names[..j] then None else Some(NotFound)
      {
        assert names[..i + 1] == names[..i] + [names[i]];
        if names[i] !in topics {
          errors := errors + [Some(NotFound)];
          continue;
        }
        topics := topics - {names[i]};
        errors := errors + [None];
      }
      assert names[..|names|] == names;
    }

    // ---- Groups ----

    method FetchGroupOffsets(id: string) returns (r: Result<map<TopicPartition, int>>)
      ensures r == if id in groups then Ok(groups[id].offsets) else Err(NotFound)
    {
      return if id in groups then Ok(groups[id].offsets) else Err(NotFound);
    }

    method CommitGroupOffsets(id: string, offsets: map<TopicPartition, int>) returns (error: Option<Error>)
      modifies this`groups
      ensures error == if id in old(groups) && old(groups)[id].members > 0 then Some(GroupActive) else None
      ensures groups == if error.Some? then old(groups) else Committed(old(groups), id, offsets)
    {
      if id in groups && groups[id].members > 0 {
        return Some(GroupActive);
      }
      var g := if id in groups then groups[id] else Group(0, map[]);
      groups := groups[id := g.(offsets := g.offsets + offsets)];
      return None;
    }
  }
}

/** Values placed on topic partitions, in topic and partition order: the services'
    sort.Slice by topic, then partition. */
module TpOrder {
  import opened Kafka
  import opened Seqs
  import opened Strings

  datatype Placed<+T> = Placed(tp: TopicPartition, body: T)

  predicate TpLess(a: TopicPartition, b: TopicPartition) {
    if a.topic != b.topic then Less(a.topic, b.topic) else a.partition < b.partition
  }

  ghost predicate InOrder<T>(s: seq<Placed<T>>) {
    forall i, j :: 0 <= i < j < |s| ==> !TpLess(s[j].tp, s[i].tp)
  }

  function InsertPlaced<T>(s: seq<Placed<T>>, x: Placed<T>): (r: seq<Placed<T>>)
    ensures multiset(r) == multiset(s) + multiset{x}
  {
    if s == [] || !TpLess(s[0].tp, x.tp) then [x] + s
    else
      assert s == [s[0]] + s[1..];
      [s[0]] + InsertPlaced(s[1..], x)
  }

  lemma TpNotLessChains(a: TopicPartition, b: TopicPartition, c: TopicPartition)
    requires !TpLess(b, a) && !TpLess(c, b)
    ensures !TpLess(c, a)
  {
    LessIsTotal(a.topic, b.topic);
    LessIsTotal(b.topic, c.topic);
    LessIsTotal(a.topic, c.topic);
    if Less(a.topic, b.topic) && Less(b.topic, c.topic) {
      LessIsTransitive(a.topic, b.topic, c.topic);
    }
  }

  lemma {:induction false} InsertKeepsOrder<T>(s: seq<Placed<T>>, x: Placed<T>)
    requires InOrder(s)
    ensures InOrder(InsertPlaced(s, x))
  {
    if s == [] {
    } else if !TpLess(s[0].tp, x.tp) {
      forall i | 0 <= i < |s| ensures !TpLess(s[i].tp, x.tp) {
        TpNotLessChains(x.tp, s[0].tp, s[i].tp);
      }
    } else {
      InsertKeepsOrder(s[1..], x);
      var rest := InsertPlaced(s[1..], x);
      LessIsTotal(s[0].tp.topic, x.tp.topic);
      forall i | 0 <= i < |rest| ensures !TpLess(rest[i].tp, s[0].tp) {
        assert rest[i] in multiset(rest);
        assert rest[i] in s[1..] || rest[i] == x;
      }
    }
  }

  method SortPlaced<T>(s: seq<Placed<T>>) returns (sorted: seq<Placed<T>>)
    ensures InOrder(sorted) && multiset(sorted) == multiset(s)
  {
    sorted := [];
    for i := 0 to |s|
      invariant InOrder(sorted) && multiset(sorted) == multiset(s[..i])
    {
      assert s[..i + 1] == s[..i] + [s[i]];
      InsertKeepsOrder(sorted, s[i]);
      sorted := InsertPlaced(sorted, s[i]);
    }
    assert s[..|s|] == s;
  }

  /** Each partition once, in order. */
  ghost predicate StrictlyInOrder<T>(s: seq<Placed<T>>) {
    forall i, j :: 0 <= i < j < |s| ==> TpLess(s[i].tp, s[j].tp)
  }

  lemma StrictWhenDistinct<T>(s: seq<Placed<T>>, sorted: seq<Placed<T>>)
    requires Distinct(s) && InOrder(sorted) && multiset(sorted) == multiset(s)
    requires forall i, j :: 0 <= i < |s| && 0 <= j < |s| && s[i].tp == s[j].tp ==> s[i] == s[j]
    ensures StrictlyInOrder(sorted)
  {
    DistinctPermutes(s, sorted);
    forall i, j | 0 <= i < j < |sorted| ensures TpLess(sorted[i].tp, sorted[j].tp) {
      SameMembers(sorted, s, sorted[i]);
      SameMembers(sorted, s, sorted[j]);
      var k :| 0 <= k < |s| && s[k] == sorted[i];
      var l :| 0 <= l < |s| && s[l] == sorted[j];
      LessIsTotal(sorted[i].tp.topic, sorted[j].tp.topic);
    }
  }

  // ---- Bare partitions ----

  function Bare(tps: seq<TopicPartition>): (s: seq<Placed<()>>)
    ensures |s| == |tps| && forall i :: 0 <= i < |tps| ==> s[i] == Placed(tps[i], ())
  {
    seq(|tps|, i requires 0 <= i < |tps| => Placed(tps[i], ()))
  }

  method SortPartitions(tps: seq<TopicPartition>) returns (sorted: seq<TopicPartition>)
    requires Distinct(tps)
    ensures forall tp :: tp in sorted <==> tp in tps
    ensures forall i, j :: 0 <= i < j < |sorted| ==> TpLess(sorted[i], sorted[j])
  {
    var s := SortPlaced(Bare(tps));
    SortedBare(tps, s);
    sorted := seq(|s|, i requires 0 <= i < |s| => s[i].tp);
    forall tp | tp in tps ensures tp in sorted {
      var i :| 0 <= i < |s| && s[i].tp == tp;
      assert sorted[i] == tp;
    }
  }

  lemma SortedBare(tps: seq<TopicPartition>, s: seq<Placed<()>>)
    requires Distinct(tps) && InOrder(s) && multiset(s) == multiset(Bare(tps))
    ensures forall i :: 0 <= i < |s| ==> s[i].tp in tps
    ensures forall tp :: tp in tps ==> exists i :: 0 <= i < |s| && s[i].tp == tp
    ensures forall i, j :: 0 <= i < j < |s| ==> TpLess(s[i].tp, s[j].tp)
  {
    var bare := Bare(tps);
    DistinctPermutes(bare, s);
    forall i | 0 <= i < |s| ensures s[i] in bare {
      SameMembers(s, bare, s[i]);
    }
    forall tp | tp in tps ensures Placed(tp, ()) in s {
      var i :| 0 <= i < |tps| && tps[i] == tp;
      assert bare[i] == Placed(tp, ());
      SameMembers(s, bare, bare[i]);
    }
    forall i, j | 0 <= i < j < |s| ensures TpLess(s[i].tp, s[j].tp) {
      LessIsTotal(s[i].tp.topic, s[j].tp.topic);
      assert s[i] in bare && s[j] in bare;
    }
  }
}

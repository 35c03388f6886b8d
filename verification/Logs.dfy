/** Record logs: slices by offset, projection to one partition, and sums over
    finite maps. Every statement about scans, replay and the fake cluster is
    phrased with these. */
module Logs {
  import opened Kafka

  ghost predicate Ascending(log: seq<Record>) {
    forall i, j :: 0 <= i < j < |log| ==> log[i].offset < log[j].offset
  }

  /** Timestamps never decrease along the log. */
  ghost predicate ByTime(rs: seq<Record>) {
    forall i, j :: 0 <= i < j < |rs| ==> rs[i].timestamp <= rs[j].timestamp
  }

  lemma OffsetOrder(log: seq<Record>, i: int, j: int)
    requires Ascending(log)
    ensures 0 <= i < j < |log| ==> log[i].offset < log[j].offset
  {
  }

  /** The index of the first record at or after an offset. */
  ghost function LowerBound(log: seq<Record>, at: int): (i: nat)
    requires Ascending(log)
    ensures i <= |log|
    ensures forall j :: 0 <= j < i ==> log[j].offset < at
    ensures forall j :: i <= j < |log| ==> at <= log[j].offset
  {
    if log == [] then 0
    else if log[|log| - 1].offset < at then |log|
    else LowerBound(log[..|log| - 1], at)
  }

  lemma LowerBoundAtHead(log: seq<Record>, at: int)
    requires Ascending(log) && log != [] && at <= log[0].offset
    ensures LowerBound(log, at) == 0
  {
  }

  /** The records whose offset lies in [lo, hi), in order. */
  ghost function Between(log: seq<Record>, lo: int, hi: int): seq<Record>
    requires Ascending(log)
  {
    if hi <= lo then [] else
      assert LowerBound(log, lo) <= LowerBound(log, hi) by { LowerBoundMonotone(log, lo, hi); }
      log[LowerBound(log, lo)..LowerBound(log, hi)]
  }

  lemma LowerBoundMonotone(log: seq<Record>, lo: int, hi: int)
    requires Ascending(log) && lo <= hi
    ensures LowerBound(log, lo) <= LowerBound(log, hi)
  {
    var i := LowerBound(log, hi);
    assert i < |log| ==> lo <= log[i].offset;
  }

  /** Between means what its name says: exactly the log's records in the window. */
  lemma BetweenIsTheWindow(log: seq<Record>, lo: int, hi: int, r: Record)
    requires Ascending(log)
    ensures r in Between(log, lo, hi) <==> r in log && lo <= r.offset < hi
  {
    if lo < hi {
      hide LowerBound;
      var first, past := LowerBound(log, lo), LowerBound(log, hi);
      LowerBoundMonotone(log, lo, hi);
      if r in log && lo <= r.offset < hi {
        var i :| 0 <= i < |log| && log[i] == r;
        assert log[first..past][i - first] == r;
      }
      if r in log[first..past] {
        var k :| 0 <= k < past - first && log[first..past][k] == r;
        assert log[first + k] == r;
      }
    }
  }

  /** Adjacent windows join without a gap or an overlap. */
  lemma BetweenJoins(log: seq<Record>, lo: int, mid: int, hi: int)
    requires Ascending(log) && lo <= mid <= hi
    ensures Between(log, lo, mid) + Between(log, mid, hi) == Between(log, lo, hi)
  {
    LowerBoundMonotone(log, lo, mid);
    LowerBoundMonotone(log, mid, hi);
  }

  /** The records of one partition, in order. */
  function ForPartition(rs: seq<Record>, p: int): seq<Record> {
    if rs == [] then [] else
      var last := rs[|rs| - 1];
      ForPartition(rs[..|rs| - 1], p) + if last.partition == p then [last] else []
  }

  lemma {:induction false} ForPartitionJoins(a: seq<Record>, b: seq<Record>, p: int)
    ensures ForPartition(a + b, p) == ForPartition(a, p) + ForPartition(b, p)
  {
    if b == [] {
      assert a + b == a;
    } else {
      assert (a + b)[..|a + b| - 1] == a + b[..|b| - 1];
      ForPartitionJoins(a, b[..|b| - 1], p);
    }
  }

  lemma ForPartitionPrefix(rs: seq<Record>, n: nat, p: int)
    requires n <= |rs|
    ensures ForPartition(rs[..n], p) <= ForPartition(rs, p)
  {
    assert rs == rs[..n] + rs[n..];
    ForPartitionJoins(rs[..n], rs[n..], p);
  }

  lemma {:induction false} ForPartitionOfOne(rs: seq<Record>, p: int)
    requires forall r :: r in rs ==> r.partition == p
    ensures ForPartition(rs, p) == rs
  {
    if rs != [] {
      ForPartitionOfOne(rs[..|rs| - 1], p);
      assert rs == rs[..|rs| - 1] + [rs[|rs| - 1]];
    }
  }

  lemma {:induction false} ForPartitionOfOther(rs: seq<Record>, p: int)
    requires forall r :: r in rs ==> r.partition != p
    ensures ForPartition(rs, p) == []
  {
    if rs != [] {
      ForPartitionOfOther(rs[..|rs| - 1], p);
    }
  }

  lemma {:induction false} InForPartition(rs: seq<Record>, p: int, r: Record)
    ensures r in ForPartition(rs, p) <==> r in rs && r.partition == p
  {
    if rs != [] {
      InForPartition(rs[..|rs| - 1], p, r);
      assert rs == rs[..|rs| - 1] + [rs[|rs| - 1]];
    }
  }

  // Sums over the values of a finite map, in whatever order.

  ghost function Total(m: map<int, int>): int {
    if k :| k in m then m[k] + Total(m - {k}) else 0
  }

  lemma {:induction false} TotalWithout(m: map<int, int>, k: int)
    requires k in m
    ensures Total(m) == m[k] + Total(m - {k})
    decreases |m|
  {
    var first :| first in m && Total(m) == m[first] + Total(m - {first});
    if first != k {
      TotalWithout(m - {first}, k);
      TotalWithout(m - {k}, first);
      assert m - {first} - {k} == m - {k} - {first};
    }
  }

  lemma TotalUpdate(m: map<int, int>, k: int, v: int)
    requires k in m
    ensures Total(m[k := v]) == Total(m) - m[k] + v
  {
    TotalWithout(m, k);
    TotalWithout(m[k := v], k);
    assert m[k := v] - {k} == m - {k};
  }

  lemma TotalInsert(m: map<int, int>, k: int, v: int)
    requires k !in m
    ensures Total(m[k := v]) == Total(m) + v
  {
    TotalWithout(m[k := v], k);
    assert m[k := v] - {k} == m;
  }

  lemma {:induction false} TotalNonNegative(m: map<int, int>)
    requires forall k :: k in m ==> m[k] >= 0
    ensures Total(m) >= 0
    decreases |m|
  {
    if k :| k in m {
      TotalWithout(m, k);
      TotalNonNegative(m - {k});
    }
  }

  // Counting records partition by partition.

  ghost function Sizes(keys: set<int>, rs: seq<Record>): map<int, int> {
    map p | p in keys :: |ForPartition(rs, p)|
  }

  lemma {:induction false} SizeByPartition(keys: set<int>, rs: seq<Record>)
    requires forall r :: r in rs ==> r.partition in keys
    ensures Total(Sizes(keys, rs)) == |rs|
  {
    if rs == [] {
      TotalZero(Sizes(keys, rs));
    } else {
      var init, r := rs[..|rs| - 1], rs[|rs| - 1];
      SizeByPartition(keys, init);
      var before := Sizes(keys, init);
      TotalUpdate(before, r.partition, before[r.partition] + 1);
      assert Sizes(keys, rs) == before[r.partition := before[r.partition] + 1];
    }
  }

  lemma {:induction false} TotalZero(m: map<int, int>)
    requires forall k :: k in m ==> m[k] == 0
    ensures Total(m) == 0
    decreases |m|
  {
    if k :| k in m {
      TotalWithout(m, k);
      TotalZero(m - {k});
    }
  }
}

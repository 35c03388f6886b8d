/** Values with a name, and sorting them by it: what the services do with sort.Slice. */
module Names {
  import opened Seqs
  import opened Strings

  datatype Named<+T> = Named(name: string, body: T)

  ghost function NamesOf<T>(s: seq<Named<T>>): (names: seq<string>)
    ensures |names| == |s| && forall i :: 0 <= i < |s| ==> names[i] == s[i].name
  {
    seq(|s|, i requires 0 <= i < |s| => s[i].name)
  }

  function InsertByName<T>(sorted: seq<Named<T>>, x: Named<T>): (r: seq<Named<T>>)
    ensures multiset(r) == multiset(sorted) + multiset{x}
  {
    if sorted == [] || !Less(sorted[0].name, x.name) then [x] + sorted
    else
      assert sorted == [sorted[0]] + sorted[1..];
      [sorted[0]] + InsertByName(sorted[1..], x)
  }

  lemma {:induction false} InsertInsertsName<T>(sorted: seq<Named<T>>, x: Named<T>)
    ensures NamesOf(InsertByName(sorted, x)) == Insert(NamesOf(sorted), x.name)
  {
    hide Less;
    if sorted == [] || !Less(sorted[0].name, x.name) {
      NamesCons(x, sorted);
    } else {
      InsertInsertsName(sorted[1..], x);
      assert NamesOf(sorted)[1..] == NamesOf(sorted[1..]);
      NamesCons(sorted[0], InsertByName(sorted[1..], x));
    }
  }

  lemma NamesCons<T>(x: Named<T>, s: seq<Named<T>>)
    ensures NamesOf([x] + s) == [x.name] + NamesOf(s)
  {
  }

  method SortByName<T>(s: seq<Named<T>>) returns (sorted: seq<Named<T>>)
    ensures Sorted(NamesOf(sorted)) && multiset(sorted) == multiset(s)
  {
    sorted := [];
    for i := 0 to |s|
      invariant Sorted(NamesOf(sorted)) && multiset(sorted) == multiset(s[..i])
    {
      assert s[..i + 1] == s[..i] + [s[i]];
      InsertInsertsName(sorted, s[i]);
      InsertKeepsSorted(NamesOf(sorted), s[i].name);
      sorted := InsertByName(sorted, s[i]);
    }
    assert s[..|s|] == s;
  }

  method SortNames(s: seq<string>) returns (sorted: seq<string>)
    ensures Sorted(sorted) && multiset(sorted) == multiset(s)
  {
    var a := new string[|s|](i requires 0 <= i < |s| => s[i]);
    assert a[..] == s;
    SortStrings(a);
    return a[..];
  }

  /** Permuting named values permutes their names. */
  lemma {:induction false} NamesPermute<T>(s: seq<Named<T>>, t: seq<Named<T>>)
    requires multiset(s) == multiset(t)
    ensures multiset(NamesOf(s)) == multiset(NamesOf(t))
    decreases |s|
  {
    assert |multiset(s)| == |s| && |multiset(t)| == |t|;
    if s != [] {
      var rest, others, x := TakeSame(s, t);
      NamesPermute(rest, others);
      Cancel(multiset(NamesOf(s)), multiset(NamesOf(t)), x);
    }
  }

  // Two permutations of each other each lose one occurrence of the same value.
  lemma TakeSame<T>(s: seq<Named<T>>, t: seq<Named<T>>) returns (rest: seq<Named<T>>, others: seq<Named<T>>, x: string)
    requires multiset(s) == multiset(t) && s != []
    ensures |rest| < |s| && multiset(rest) == multiset(others)
    ensures x in multiset(NamesOf(s)) && multiset(NamesOf(rest)) == multiset(NamesOf(s)) - multiset{x}
    ensures x in multiset(NamesOf(t)) && multiset(NamesOf(others)) == multiset(NamesOf(t)) - multiset{x}
  {
    var k := Find(t, s[0], s);
    x := s[0].name;
    rest := TakeOut(s, 0);
    others := TakeOut(t, k);
  }

  lemma Find<T>(t: seq<T>, x: T, s: seq<T>) returns (k: nat)
    requires multiset(s) == multiset(t) && x in s
    ensures k < |t| && t[k] == x
  {
    assert x in multiset(t);
    k :| k < |t| && t[k] == x;
  }

  lemma Cancel(a: multiset<string>, b: multiset<string>, x: string)
    requires x in a && x in b && a - multiset{x} == b - multiset{x}
    ensures a == b
  {
    assert a == (a - multiset{x}) + multiset{x};
    assert b == (b - multiset{x}) + multiset{x};
  }

  lemma TakeOut<T>(t: seq<Named<T>>, k: nat) returns (rest: seq<Named<T>>)
    requires k < |t|
    ensures |rest| < |t| && multiset(rest) == multiset(t) - multiset{t[k]}
    ensures t[k].name in multiset(NamesOf(t))
    ensures multiset(NamesOf(rest)) == multiset(NamesOf(t)) - multiset{t[k].name}
  {
    rest := t[..k] + t[k + 1..];
    RemoveAt(t, k);
    RemoveAt(NamesOf(t), k);
    assert NamesOf(rest) == NamesOf(t)[..k] + NamesOf(t)[k + 1..];
  }
}

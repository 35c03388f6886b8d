/** Byte-wise string order, sorting and joining, as Go's sort.Strings, strings.Join and
    strconv.FormatInt do it. */
module Strings {
  import opened Seqs

  // ---- Order ----

  predicate Less(a: string, b: string)
    decreases |a|
  {
    if b == [] then false
    else if a == [] then true
    else a[0] < b[0] || (a[0] == b[0] && Less(a[1..], b[1..]))
  }

  lemma {:induction false} LessIsTotal(a: string, b: string)
    ensures !Less(a, a)
    ensures Less(a, b) || a == b || Less(b, a)
    ensures !(Less(a, b) && Less(b, a))
    decreases |a| + |b|
  {
    if a != [] && b != [] {
      LessIsTotal(a[1..], b[1..]);
      assert a == [a[0]] + a[1..] && b == [b[0]] + b[1..];
    }
    if a != [] {
      LessIsTotal(a[1..], []);
    }
  }

  lemma {:induction false} LessIsTransitive(a: string, b: string, c: string)
    requires Less(a, b) && Less(b, c)
    ensures Less(a, c)
    decreases |a|
  {
    if a != [] && a[0] == b[0] == c[0] {
      LessIsTransitive(a[1..], b[1..], c[1..]);
    }
  }

  ghost predicate StrictlyAscending(s: seq<string>) {
    forall i, j :: 0 <= i < j < |s| ==> Less(s[i], s[j])
  }

  ghost predicate Sorted(s: seq<string>) {
    forall i, j :: 0 <= i < j < |s| ==> !Less(s[j], s[i])
  }

  ghost function Elements(s: seq<string>): set<string> { set x | x in s }

  lemma InElements(s: seq<string>, i: int)
    ensures 0 <= i < |s| ==> s[i] in Elements(s)
  {
  }

  /** A set has one strictly ascending enumeration. */
  lemma {:induction false} EnumerationIsUnique(a: seq<string>, b: seq<string>)
    requires StrictlyAscending(a) && StrictlyAscending(b) && Elements(a) == Elements(b)
    ensures a == b
    decreases |a|
  {
    if a == [] {
      InElements(b, 0);
    } else {
      assert a[0] in Elements(a);
      HeadIsLeast(a, b);
      HeadIsLeast(b, a);
      LessIsTotal(a[0], b[0]);
      TailElements(a);
      TailElements(b);
      EnumerationIsUnique(a[1..], b[1..]);
      assert a == [a[0]] + a[1..] && b == [b[0]] + b[1..];
    }
  }

  lemma HeadIsLeast(a: seq<string>, b: seq<string>)
    requires StrictlyAscending(a) && a != [] && Elements(a) == Elements(b)
    ensures b != [] && !Less(b[0], a[0])
  {
    assert a[0] in Elements(b);
    assert b[0] in Elements(a);
    var i :| 0 <= i < |a| && a[i] == b[0];
    LessIsTotal(a[0], b[0]);
  }

  lemma TailElements(a: seq<string>)
    requires StrictlyAscending(a) && a != []
    ensures Elements(a[1..]) == Elements(a) - {a[0]}
  {
    LessIsTotal(a[0], a[0]);
    assert a == [a[0]] + a[1..];
  }

  lemma SameMultisetSameElements(a: seq<string>, b: seq<string>)
    requires multiset(a) == multiset(b)
    ensures Elements(a) == Elements(b)
  {
    assert forall x :: x in a <==> x in multiset(a);
    assert forall x :: x in b <==> x in multiset(b);
  }

  lemma DistinctSortedAscends(s: seq<string>, t: seq<string>)
    requires Distinct(s) && multiset(t) == multiset(s) && Sorted(t)
    ensures StrictlyAscending(t)
  {
    DistinctPermutes(s, t);
    forall i, j | 0 <= i < j < |t| ensures Less(t[i], t[j]) {
      LessIsTotal(t[i], t[j]);
    }
  }

  // ---- sort.Strings ----

  function Insert(sorted: seq<string>, x: string): (r: seq<string>)
    ensures multiset(r) == multiset(sorted) + multiset{x}
  {
    if sorted == [] || !Less(sorted[0], x) then [x] + sorted
    else
      assert sorted == [sorted[0]] + sorted[1..];
      [sorted[0]] + Insert(sorted[1..], x)
  }

  lemma {:induction false} InsertKeepsSorted(sorted: seq<string>, x: string)
    requires Sorted(sorted)
    ensures Sorted(Insert(sorted, x))
  {
    var r := Insert(sorted, x);
    if sorted == [] {
    } else if !Less(sorted[0], x) {
      forall i | 0 <= i < |sorted| ensures !Less(sorted[i], x) {
        NotLessChains(sorted[i], sorted[0], x, i);
      }
    } else {
      InsertKeepsSorted(sorted[1..], x);
      var rest := Insert(sorted[1..], x);
      LessIsTotal(sorted[0], x);
      forall i | 0 <= i < |rest| ensures !Less(rest[i], sorted[0]) {
        assert rest[i] in multiset(rest);
        assert rest[i] in sorted[1..] || rest[i] == x;
      }
    }
  }

  lemma NotLessChains(a: string, b: string, x: string, i: nat)
    requires !Less(b, x) && (i == 0 ==> a == b) && (i > 0 ==> !Less(a, b))
    ensures !Less(a, x)
  {
    LessIsTotal(a, b);
    LessIsTotal(b, x);
    if Less(a, x) && Less(x, b) {
      LessIsTransitive(a, x, b);
    }
  }

  /** Stands for the library's sort.Strings, in place. */
  method SortStrings(a: array<string>)
    modifies a
    ensures Sorted(a[..]) && multiset(a[..]) == multiset(old(a[..]))
  {
    var sorted: seq<string> := [];
    for i := 0 to a.Length
      invariant Sorted(sorted) && multiset(sorted) == multiset(a[..i]) && |sorted| == i && a[..] == old(a[..])
    {
      assert a[..i + 1] == a[..i] + [a[i]];
      InsertKeepsSorted(sorted, a[i]);
      sorted := Insert(sorted, a[i]);
      assert |multiset(sorted)| == |sorted|;
    }
    assert a[..a.Length] == a[..];
    for i := 0 to a.Length
      invariant a[..i] == sorted[..i]
    {
      a[i] := sorted[i];
    }
    assert a[..] == sorted;
  }

  // ---- Splitting at separators ----

  ghost predicate Free(s: string, c: char) { c !in s }

  // How much text stands before the first separator, and after the last.
  ghost function BeforeFirst(s: string, c: char): nat {
    if s == [] || s[0] == c then 0 else 1 + BeforeFirst(s[1..], c)
  }

  ghost function AfterLast(s: string, c: char): nat {
    if s == [] || s[|s| - 1] == c then 0 else 1 + AfterLast(s[..|s| - 1], c)
  }

  lemma {:induction false} BeforeFirstIs(x: string, c: char, rest: string)
    requires Free(x, c)
    ensures BeforeFirst(x + [c] + rest, c) == |x|
  {
    if x != [] {
      BeforeFirstIs(x[1..], c, rest);
      assert (x + [c] + rest)[1..] == x[1..] + [c] + rest;
    }
  }

  lemma {:induction false} AfterLastIs(x: string, c: char, last: string)
    requires Free(last, c)
    ensures AfterLast(x + [c] + last, c) == |last|
  {
    if last != [] {
      var n := |last| - 1;
      AfterLastIs(x, c, last[..n]);
      assert (x + [c] + last)[..|x + [c] + last| - 1] == x + [c] + last[..n];
    }
  }

  /** Text is cut at its first separator in one way only. */
  lemma FirstSeparator(x: string, y: string, c: char, restX: string, restY: string)
    requires Free(x, c) && Free(y, c) && x + [c] + restX == y + [c] + restY
    ensures x == y && restX == restY
  {
    var text := x + [c] + restX;
    BeforeFirstIs(x, c, restX);
    BeforeFirstIs(y, c, restY);
    assert x == text[..|x|] && y == text[..|y|];
    assert restX == text[|x| + 1..] && restY == text[|y| + 1..];
  }

  /** And at its last. */
  lemma LastSeparator(x: string, y: string, c: char, lastX: string, lastY: string)
    requires Free(lastX, c) && Free(lastY, c) && x + [c] + lastX == y + [c] + lastY
    ensures x == y && lastX == lastY
  {
    var text := x + [c] + lastX;
    AfterLastIs(x, c, lastX);
    AfterLastIs(y, c, lastY);
    assert x == text[..|x|] && y == text[..|y|];
    assert lastX == text[|x| + 1..] && lastY == text[|y| + 1..];
  }

  function Join(s: seq<string>, c: char): string {
    if s == [] then ""
    else if |s| == 1 then s[0]
    else s[0] + [c] + Join(s[1..], c)
  }

  ghost predicate AllFree(s: seq<string>, c: char) { forall i :: 0 <= i < |s| ==> Free(s[i], c) }

  /** No part at all, or a single empty one. */
  ghost predicate Blank(s: seq<string>) { s == [] || s == [""] }

  lemma JoinHasSeparator(s: seq<string>, c: char)
    requires AllFree(s, c)
    ensures c in Join(s, c) <==> |s| > 1
  {
    if |s| > 1 {
      assert Join(s, c)[|s[0]|] == c;
    }
  }

  /** Joining separator-free parts loses nothing, except that no part and one empty part
      look the same. */
  lemma {:induction false} JoinIsInjective(a: seq<string>, b: seq<string>, c: char)
    requires AllFree(a, c) && AllFree(b, c)
    ensures Join(a, c) == Join(b, c) <==> a == b || (Blank(a) && Blank(b))
    decreases |a|
  {
    JoinHasSeparator(a, c);
    JoinHasSeparator(b, c);
    if Join(a, c) == Join(b, c) && |a| > 1 {
      FirstSeparator(a[0], b[0], c, Join(a[1..], c), Join(b[1..], c));
      JoinIsInjective(a[1..], b[1..], c);
      JoinOfRest(a, b, c);
    }
    assert |a| == 1 ==> a == [a[0]];
    assert |b| == 1 ==> b == [b[0]];
  }

  // Equal tails that are not empty lists are equal.
  lemma JoinOfRest(a: seq<string>, b: seq<string>, c: char)
    requires |a| > 1 && |b| > 1 && a[0] == b[0]
    requires a[1..] == b[1..] || (Blank(a[1..]) && Blank(b[1..]))
    ensures a == b
  {
    assert a == [a[0]] + a[1..] && b == [b[0]] + b[1..];
  }
}

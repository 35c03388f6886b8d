/** Byte sizes in configuration text (internal/config/config.go): a 64-bit count printed
    with its largest exact binary unit, and parsed from a number with a unit. */
module ByteSize {
  import opened Decimal
  import opened Kafka

  const KIB := 0x400
  const MIB := 0x10_0000
  const GIB := 0x4000_0000

  datatype Unit = Unit(suffix: string, mult: nat)

  // Tried in this order: every suffix ends in "B", the last one.
  const UNITS := [
    Unit("GiB", GIB), Unit("MiB", MIB), Unit("KiB", KIB),
    Unit("GB", GIB), Unit("MB", MIB), Unit("KB", KIB),
    Unit("B", 1)]

  // ---- Printing ----

  function LargestUnit(n: int): (u: Unit)
    ensures u in UNITS && u.mult > 0 && n % u.mult == 0
    ensures forall v :: v in {KIB, MIB, GIB} && v > u.mult ==> n < v || n % v != 0
  {
    assert UNITS[0] in UNITS && UNITS[1] in UNITS && UNITS[2] in UNITS && UNITS[6] in UNITS;
    if n >= GIB && n % GIB == 0 then UNITS[0]
    else if n >= MIB && n % MIB == 0 then UNITS[1]
    else if n >= KIB && n % KIB == 0 then UNITS[2]
    else UNITS[6]
  }

  function String(n: int): string {
    FormatInt(n / LargestUnit(n).mult) + LargestUnit(n).suffix
  }

  // ---- Parsing ----

  predicate IsSpace(c: char) {
    '\t' <= c <= '\r' || c == ' ' || c == '\U{85}' || c == '\U{A0}' || c == '\U{1680}'
    || '\U{2000}' <= c <= '\U{200A}' || c == '\U{2028}' || c == '\U{2029}' || c == '\U{202F}'
    || c == '\U{205F}' || c == '\U{3000}'
  }

  function TrimLeft(s: string): string {
    if s != [] && IsSpace(s[0]) then TrimLeft(s[1..]) else s
  }

  function TrimRight(s: string): string {
    if s != [] && IsSpace(s[|s| - 1]) then TrimRight(s[..|s| - 1]) else s
  }

  function TrimSpace(s: string): string {
    TrimRight(TrimLeft(s))
  }

  predicate HasSuffix(s: string, suffix: string) {
    |suffix| <= |s| && s[|s| - |suffix|..] == suffix
  }

  /** A text reads as a number of units: what is left of its suffix, trimmed, and the
      multiplier of the first unit that matches; no unit means plain bytes. */
  ghost predicate Reads(s: string, number: string, mult: nat) {
    || (exists i :: 0 <= i < |UNITS| && IsFirst(s, i)
          && number == TrimSpace(s[..|s| - |UNITS[i].suffix|]) && mult == UNITS[i].mult)
    || (number == s && mult == 1 && forall i :: 0 <= i < |UNITS| ==> !HasSuffix(s, UNITS[i].suffix))
  }

  ghost predicate IsFirst(s: string, i: nat)
    requires i < |UNITS|
  {
    HasSuffix(s, UNITS[i].suffix) && forall j :: 0 <= j < i ==> !HasSuffix(s, UNITS[j].suffix)
  }

  /** A negative or unreadable number is an error; the product wraps in 64 bits. */
  function Scaled(number: string, mult: nat): Option<int> {
    match ParseInt(number)
    case None => None
    case Some(n) => if n < 0 then None else Some(ToInt64(n * mult))
  }

  /** A text's size, or none when it is not one. */
  ghost predicate Parses(text: string, size: Option<int>) {
    exists number, mult :: Reads(TrimSpace(text), number, mult) && size == Scaled(number, mult)
  }

  method UnmarshalText(text: string) returns (size: Option<int>)
    ensures Parses(text, size)
  {
    var s := TrimSpace(text);
    ghost var whole := s;
    var mult := 1;
    var i := 0;
    while i < |UNITS|
      invariant 0 <= i <= |UNITS|
      invariant s == whole && mult == 1
      invariant forall j :: 0 <= j < i ==> !HasSuffix(whole, UNITS[j].suffix)
    {
      var u := UNITS[i];
      if HasSuffix(s, u.suffix) {
        mult := u.mult;
        s := TrimSpace(s[..|s| - |u.suffix|]);
        assert IsFirst(whole, i);
        break;
      }
      i := i + 1;
    }
    assert Reads(whole, s, mult);
    size := Scaled(s, mult);
  }

  // ---- Printed sizes parse back ----

  /** A printed number with any unit's suffix parses to that number of that unit,
      exactly when the product fits 64 bits; otherwise the product wraps. */
  lemma UnitTextMeans(q: nat, u: Unit, size: Option<int>)
    requires q <= MAX_INT64 && u in UNITS && Parses(FormatInt(q) + u.suffix, size)
    ensures size == Some(ToInt64(q * u.mult))
    ensures size == Some(q * u.mult) <==> q * u.mult <= MAX_INT64
  {
    var number, mult :| Reads(TrimSpace(FormatInt(q) + u.suffix), number, mult) && size == Scaled(number, mult);
    hide Reads, TrimSpace, Scaled;
    var k :| 0 <= k < |UNITS| && UNITS[k] == u;
    FormatIsPlain(q);
    IntRoundTrip(q);
    ReadsItsUnit(FormatInt(q), k, u, number, mult);
    ScaledMeans(number, mult, q);
  }

  lemma ScaledMeans(number: string, mult: nat, q: nat)
    requires ParseInt(number) == Some(q)
    ensures Scaled(number, mult) == Some(ToInt64(q * mult))
    ensures Scaled(number, mult) == Some(q * mult) <==> q * mult <= MAX_INT64
  {
  }

  // A suffix is "B", a prefix letter and "B", or a prefix letter and "iB".
  ghost predicate Shaped(suffix: string) {
    && 1 <= |suffix| <= 3 && suffix[|suffix| - 1] == 'B'
    && (|suffix| > 1 ==> suffix[0] == 'G' || suffix[0] == 'M' || suffix[0] == 'K')
    && (|suffix| == 3 ==> suffix[1] == 'i')
  }

  lemma UnitsAreShaped(k: nat)
    requires k < |UNITS|
    ensures Shaped(UNITS[k].suffix) && (|UNITS[k].suffix| == 1 <==> k == |UNITS| - 1)
  {
  }

  lemma SuffixesDiffer(i: nat, k: nat)
    requires i < |UNITS| && k < |UNITS| && |UNITS[i].suffix| == |UNITS[k].suffix|
    requires UNITS[i].suffix[0] == UNITS[k].suffix[0]
    ensures i == k
  {
  }

  lemma ReadsItsUnit(digits: string, k: nat, u: Unit, number: string, mult: nat)
    requires digits != [] && (forall i :: 0 <= i < |digits| ==> IsDigit(digits[i]) || digits[i] == '-')
    requires k < |UNITS| && u == UNITS[k] && Reads(TrimSpace(digits + u.suffix), number, mult)
    ensures number == digits && mult == u.mult
  {
    hide HasSuffix, TrimSpace, Reads;
    UnitsAreShaped(k);
    EndsAreNotSpace(digits);
    EndsAreNotSpace(digits + u.suffix);
    forall i | 0 <= i < |UNITS| && HasSuffix(digits + u.suffix, UNITS[i].suffix) ensures i == k || i == |UNITS| - 1 {
      SuffixIsOwnOrLast(digits, k, i);
    }
    FirstIsItsOwn(digits, k, u, number, mult);
  }

  lemma SuffixIsOwnOrLast(digits: string, k: nat, i: nat)
    requires digits != [] && (IsDigit(digits[|digits| - 1]) || digits[|digits| - 1] == '-')
    requires k < |UNITS| && i < |UNITS| && HasSuffix(digits + UNITS[k].suffix, UNITS[i].suffix)
    ensures i == k || i == |UNITS| - 1
  {
    hide HasSuffix;
    UnitsAreShaped(k);
    UnitsAreShaped(i);
    OnlyItsSuffix(digits, UNITS[k].suffix, UNITS[i].suffix);
    if |UNITS[i].suffix| != 1 {
      SuffixesDiffer(i, k);
    }
  }

  lemma FirstIsItsOwn(digits: string, k: nat, u: Unit, number: string, mult: nat)
    requires k < |UNITS| && u == UNITS[k] && Reads(digits + u.suffix, number, mult) && TrimSpace(digits) == digits
    requires forall i :: 0 <= i < |UNITS| && HasSuffix(digits + u.suffix, UNITS[i].suffix) ==>
      i == k || i == |UNITS| - 1
    ensures number == digits && mult == u.mult
  {
    hide TrimSpace;
    var t := digits + u.suffix;
    assert t[|t| - |u.suffix|..] == u.suffix && t[..|t| - |u.suffix|] == digits;
    assert HasSuffix(t, u.suffix);
  }

  lemma EndsAreNotSpace(s: string)
    requires s != [] && !IsSpace(s[0]) && !IsSpace(s[|s| - 1])
    ensures TrimSpace(s) == s
  {
  }

  lemma OnlyItsSuffix(digits: string, u: string, v: string)
    requires digits != [] && (IsDigit(digits[|digits| - 1]) || digits[|digits| - 1] == '-')
    requires Shaped(u) && Shaped(v) && HasSuffix(digits + u, v)
    ensures |v| == 1 || (|v| == |u| && v[0] == u[0])
  {
    var t := digits + u;
    SuffixAt(t, v, 2);
    SuffixAt(t, v, 3);
    assert |u| > 1 ==> t[|t| - 2] == u[|u| - 2];
    assert |u| == 1 ==> t[|t| - 2] == digits[|digits| - 1];
    assert |u| == 3 ==> t[|t| - 3] == u[0];
  }

  lemma SuffixAt(t: string, v: string, back: nat)
    ensures HasSuffix(t, v) && 1 <= back <= |v| ==> t[|t| - back] == v[|v| - back]
  {
    if HasSuffix(t, v) && 1 <= back <= |v| {
      assert t[|t| - |v|..][|v| - back] == v[|v| - back];
    }
  }

  /** A negative number is refused with any unit. */
  lemma NegativeIsRefused(q: int, u: Unit, size: Option<int>)
    requires -MAX_INT64 <= q < 0 && u in UNITS && Parses(FormatInt(q) + u.suffix, size)
    ensures size == None
  {
    var number, mult :| Reads(TrimSpace(FormatInt(q) + u.suffix), number, mult) && size == Scaled(number, mult);
    hide Reads, TrimSpace;
    var k :| 0 <= k < |UNITS| && UNITS[k] == u;
    FormatIsPlain(q);
    IntRoundTrip(q);
    ReadsItsUnit(FormatInt(q), k, u, number, mult);
  }

  /** A number without a unit is a number of bytes. */
  lemma BareNumberMeans(q: nat, size: Option<int>)
    requires q <= MAX_INT64 && Parses(FormatInt(q), size)
    ensures size == Some(q)
  {
    var digits := FormatInt(q);
    var number, mult :| Reads(TrimSpace(digits), number, mult) && size == Scaled(number, mult);
    hide TrimSpace;
    FormatIsPlain(q);
    IntRoundTrip(q);
    EndsAreNotSpace(digits);
    forall i | 0 <= i < |UNITS| ensures !HasSuffix(digits, UNITS[i].suffix) {
      UnitsAreShaped(i);
      SuffixAt(digits, UNITS[i].suffix, 1);
    }
    ScaledMeans(number, mult, q);
  }

  ghost predicate AllSpace(s: string) { forall i :: 0 <= i < |s| ==> IsSpace(s[i]) }

  lemma {:induction false} LeftPadding(a: string, s: string)
    requires AllSpace(a)
    ensures TrimLeft(a + s) == TrimLeft(s)
  {
    if a == [] {
      assert a + s == s;
    } else {
      LeftPadding(a[1..], s);
      assert (a + s)[1..] == a[1..] + s;
    }
  }

  lemma {:induction false} RightPadding(s: string, b: string)
    requires AllSpace(b)
    ensures TrimRight(s + b) == TrimRight(s)
  {
    if b == [] {
      assert s + b == s;
    } else {
      var n := |b| - 1;
      RightPadding(s, b[..n]);
      assert (s + b)[..|s + b| - 1] == s + b[..n];
    }
  }

  lemma {:induction false} TrimLeftOf(s: string, b: string)
    requires AllSpace(b)
    ensures TrimLeft(s + b) == TrimLeft(s) + b || (TrimLeft(s) == [] && TrimLeft(s + b) == [])
  {
    if s == [] {
      LeftPadding(b, []);
      assert s + b == b + [];
    } else if IsSpace(s[0]) {
      TrimLeftOf(s[1..], b);
      assert (s + b)[1..] == s[1..] + b;
    }
  }

  /** Space around a text does not matter. */
  lemma PaddingIsIgnored(a: string, text: string, b: string, size: Option<int>)
    requires AllSpace(a) && AllSpace(b)
    ensures Parses(a + text + b, size) <==> Parses(text, size)
  {
    hide Reads, Scaled;
    assert a + text + b == a + (text + b);
    LeftPadding(a, text + b);
    TrimLeftOf(text, b);
    RightPadding(TrimLeft(text), b);
    assert TrimSpace(a + text + b) == TrimSpace(text);
  }

  /** The units are binary with either spelling. */
  lemma UnitsAreBinary(u: Unit)
    requires u in UNITS
    ensures u.suffix in {"B", "KB", "MB", "GB", "KiB", "MiB", "GiB"}
    ensures u.mult == if u.suffix[0] == 'K' then 1024 else if u.suffix[0] == 'M' then 1024 * 1024
                      else if u.suffix[0] == 'G' then 1024 * 1024 * 1024 else 1
  {
  }

  /** For every size that fits 64 bits, the parser undoes the printer. */
  lemma SizeRoundTrip(n: nat, size: Option<int>)
    requires n <= MAX_INT64 && Parses(String(n), size)
    ensures size == Some(n)
  {
    hide Parses;
    var u := LargestUnit(n);
    Exact(n, u.mult);
    UnitTextMeans(n / u.mult, u, size);
  }

  lemma Exact(n: nat, m: int)
    requires m > 0 && n % m == 0
    ensures 0 <= n / m <= n && n / m * m == n
  {
    var q := n / m;
    assert n == q * m;
    Product(q, m);
  }

  lemma Product(q: int, m: int)
    requires m > 0
    ensures q < 0 ==> q * m < 0
    ensures q >= 0 ==> q <= q * m
  {
    assert q < 0 ==> (-q) * m > 0;
    assert q >= 0 ==> q * (m - 1) >= 0;
  }

  /** A product past 63 bits is not refused: it comes out negative. 2^33 GiB is the least
      such number of GiB. */
  lemma OverflowIsNotRefused(q: nat, u: Unit, size: Option<int>)
    requires q <= MAX_INT64 && u in UNITS && Parses(FormatInt(q) + u.suffix, size)
    requires MAX_INT64 < q * u.mult < 0x1_0000_0000_0000_0000
    ensures size == Some(q * u.mult - 0x1_0000_0000_0000_0000)
  {
    hide Parses;
    UnitTextMeans(q, u, size);
    WrapsOnce(q * u.mult);
  }

  lemma WrapsOnce(x: int)
    requires MAX_INT64 < x < 0x1_0000_0000_0000_0000
    ensures ToInt64(x) == x - 0x1_0000_0000_0000_0000
  {
  }
}

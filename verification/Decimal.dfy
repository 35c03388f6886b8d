/** Decimal printing and parsing of integers, as strconv.FormatInt and ParseInt (base 10). */
module Decimal {
  import opened Kafka

  function Digits(n: nat): (s: string)
    ensures s != [] && forall i :: 0 <= i < |s| ==> '0' <= s[i] <= '9'
  {
    var digit := '0' + (n % 10) as char;
    if n < 10 then [digit] else Digits(n / 10) + [digit]
  }

  function FormatInt(n: int): (s: string) {
    if n < 0 then "-" + Digits(-n) else Digits(n)
  }

  predicate IsDigit(c: char) { '0' <= c <= '9' }

  function DigitValue(c: char): (v: int)
    ensures IsDigit(c) ==> 0 <= v < 10
  {
    c as int - '0' as int
  }

  function ParseDigits(s: string): Option<nat> {
    if s == [] then None
    else
      var last := s[|s| - 1];
      if !IsDigit(last) then None
      else if |s| == 1 then Some(DigitValue(last))
      else
        match ParseDigits(s[..|s| - 1])
        case None => None
        case Some(v) => Some(v * 10 + DigitValue(last))
  }

  const MAX_INT64 := 0x7fff_ffff_ffff_ffff

  /** ParseInt(s, 10, 64): an optional sign, digits, and the 64-bit range. */
  function ParseInt(s: string): Option<int> {
    if s == [] then None
    else
      var negative := s[0] == '-';
      match ParseDigits(if s[0] == '-' || s[0] == '+' then s[1..] else s)
      case None => None
      case Some(magnitude) =>
        var value: int := magnitude;
        var v := if negative then -value else value;
        if -MAX_INT64 - 1 <= v <= MAX_INT64 then Some(v) else None
  }

  lemma {:induction false} DigitsRoundTrip(n: nat)
    ensures ParseDigits(Digits(n)) == Some(n)
  {
    var s, digit := Digits(n), '0' + (n % 10) as char;
    assert IsDigit(digit) && DigitValue(digit) == n % 10;
    if n >= 10 {
      DigitsRoundTrip(n / 10);
      assert s[..|s| - 1] == Digits(n / 10);
    }
  }

  /** Every printed 64-bit integer parses back to itself. */
  lemma IntRoundTrip(n: int)
    requires -MAX_INT64 - 1 <= n <= MAX_INT64
    ensures ParseInt(FormatInt(n)) == Some(n)
  {
    DigitsRoundTrip(if n < 0 then -n else n);
    assert n < 0 ==> FormatInt(n)[1..] == Digits(-n);
  }

  lemma FormatIsInjective(m: int, n: int)
    requires FormatInt(m) == FormatInt(n)
    ensures m == n
  {
    DigitsRoundTrip(if m < 0 then -m else m);
    DigitsRoundTrip(if n < 0 then -n else n);
    assert m < 0 ==> FormatInt(m)[0] == '-' && FormatInt(m)[1..] == Digits(-m);
    assert n < 0 ==> FormatInt(n)[0] == '-' && FormatInt(n)[1..] == Digits(-n);
  }

  /** Printed integers hold digits and a sign, nothing else. */
  lemma FormatIsPlain(n: int)
    ensures FormatInt(n) != [] && forall i :: 0 <= i < |FormatInt(n)| ==>
      IsDigit(FormatInt(n)[i]) || FormatInt(n)[i] == '-'
  {
  }

  lemma {:induction false} DigitsParseIff(s: string)
    ensures ParseDigits(s).Some? <==> s != [] && forall c :: c in s ==> IsDigit(c)
  {
    if |s| > 1 {
      DigitsParseIff(s[..|s| - 1]);
      assert s == s[..|s| - 1] + [s[|s| - 1]];
    }
  }

  /** What parses: digits with at most one sign in front, whose value fits 64 bits; only a
      minus makes it negative. */
  lemma ParsesIff(s: string)
    ensures
      var digits := if s != [] && s[0] in {'-', '+'} then s[1..] else s;
      && (ParseInt(s).Some? ==>
            && digits != [] && (forall c :: c in digits ==> IsDigit(c))
            && -0x8000_0000_0000_0000 <= ParseInt(s).value < 0x8000_0000_0000_0000
            && (ParseInt(s).value < 0 ==> s[0] == '-') && (s[0] == '-' ==> ParseInt(s).value <= 0))
      && (digits != [] && (forall c :: c in digits ==> IsDigit(c)) && ParseInt(s) == None ==>
            ParseDigits(digits).Some? && ParseDigits(digits).value >= 0x8000_0000_0000_0000)
  {
    if s != [] {
      DigitsParseIff(if s[0] == '-' || s[0] == '+' then s[1..] else s);
    }
  }
}

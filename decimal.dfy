/**
  Decimal text as the record code uses it: `std::to_string` on integers, and
  `std::stoul` / `std::stol` in base 10 for the numeric column matches.
*/
module Decimal {
  import opened Wrappers

  predicate IsDigit(ch: char) {
    '0' <= ch <= '9'
  }

  predicate AllDigits(s: string) {
    forall i :: 0 <= i < |s| ==> IsDigit(s[i])
  }

  function DigitChar(d: nat): (ch: char)
    requires d < 10
    ensures IsDigit(ch)
  {
    ('0' as int + d) as char
  }

  function DigitValue(ch: char): (d: nat)
    requires IsDigit(ch)
    ensures d < 10 && DigitChar(d) == ch
  {
    ch as int - '0' as int
  }

  /** `std::to_string` of a non-negative value: digits, no leading zero. */
  function NatToString(n: nat): (s: string)
    ensures |s| >= 1 && AllDigits(s)
    ensures s[0] == '0' <==> n == 0
    decreases n
  {
    if n < 10 then [DigitChar(n)] else NatToString(n / 10) + [DigitChar(n % 10)]
  }

  /** `std::to_string` of a signed value: a '-' only for negative values. */
  function IntToString(i: int): (s: string)
    ensures |s| >= 1
    ensures s[0] == '-' <==> i < 0
  {
    if i < 0 then "-" + NatToString(-i) else NatToString(i)
  }

  /** The value of a run of decimal digits, most significant first. */
  function DigitsValue(s: string): nat
    requires AllDigits(s)
  {
    if s == [] then 0 else DigitsValue(s[..|s| - 1]) * 10 + DigitValue(s[|s| - 1])
  }

  /** The length of the run of digits that starts the text. */
  function LeadingDigits(s: string): nat
  {
    if s == [] || !IsDigit(s[0]) then 0 else 1 + LeadingDigits(s[1..])
  }

  /** `LeadingDigits` measures a run of digits that the text does not continue. */
  lemma {:induction false} LeadingDigitsRun(s: string)
    ensures LeadingDigits(s) <= |s| && AllDigits(s[..LeadingDigits(s)])
    ensures LeadingDigits(s) < |s| ==> !IsDigit(s[LeadingDigits(s)])
  {
    if s != [] && IsDigit(s[0]) {
      LeadingDigitsRun(s[1..]);
      var k := LeadingDigits(s);
      assert s[..k] == [s[0]] + s[1..][..k - 1];
    }
  }

  /**
    Parses the longest run of digits at the start of the text; text after the
    run is ignored, and text that does not start with a digit is a failure.
  */
  function ParseDigits(s: string): (r: Option<nat>)
    ensures r.None? <==> s == [] || !IsDigit(s[0])
  {
    LeadingDigitsRun(s);
    var k := LeadingDigits(s);
    if k == 0 then None else Some(DigitsValue(s[..k]))
  }

  /**
    `std::stoul(s)` in base 10: an optional '+' sign, then digits. The text
    parses exactly when it starts with a digit or with '+' and a digit.
  */
  function ParseUnsigned(s: string): (r: Option<nat>)
    ensures r.Some? <==> (|s| > 0 && IsDigit(s[0])) || (|s| > 1 && s[0] == '+' && IsDigit(s[1]))
  {
    if |s| > 0 && s[0] == '+' then ParseDigits(s[1..]) else ParseDigits(s)
  }

  /**
    `std::stol(s)` in base 10: an optional '+' or '-' sign, then digits. The
    text parses exactly when it starts with a digit or with a sign and a
    digit, and a negative value needs the '-'.
  */
  function ParseSigned(s: string): (r: Option<int>)
    ensures r.Some? <==> (|s| > 0 && IsDigit(s[0])) || (|s| > 1 && (s[0] == '+' || s[0] == '-') && IsDigit(s[1]))
    ensures r.Some? && r.value < 0 ==> s[0] == '-'
  {
    if |s| > 0 && s[0] == '-' then
      match ParseDigits(s[1..])
      case None => None
      case Some(v) => Some(-(v as int))
    else if |s| > 0 && s[0] == '+' then
      match ParseDigits(s[1..])
      case None => None
      case Some(v) => Some(v)
    else
      match ParseDigits(s)
      case None => None
      case Some(v) => Some(v)
  }

  lemma {:induction false} DigitsValueOfNatToString(n: nat)
    ensures DigitsValue(NatToString(n)) == n
    decreases n
  {
    var s := NatToString(n);
    if n < 10 {
      assert s[..|s| - 1] == [];
    } else {
      assert s[..|s| - 1] == NatToString(n / 10);
      DigitsValueOfNatToString(n / 10);
    }
  }

  lemma {:induction false} LeadingDigitsOfDigitRun(s: string, rest: string)
    requires AllDigits(s)
    requires rest == [] || !IsDigit(rest[0])
    ensures LeadingDigits(s + rest) == |s|
    decreases |s|
  {
    if s != [] {
      assert (s + rest)[1..] == s[1..] + rest;
      LeadingDigitsOfDigitRun(s[1..], rest);
    } else {
      assert s + rest == rest;
    }
  }

  /** Parsing the decimal form of n, followed by any non-digit text, gives n back. */
  lemma ParseDigitsRoundTrip(n: nat, rest: string)
    requires rest == [] || !IsDigit(rest[0])
    ensures ParseDigits(NatToString(n) + rest) == Some(n)
  {
    var s := NatToString(n);
    LeadingDigitsOfDigitRun(s, rest);
    assert (s + rest)[..|s|] == s;
    DigitsValueOfNatToString(n);
  }

  /** `stoul(to_string(n) + rest) == n` when rest does not continue the digits. */
  lemma ParseUnsignedRoundTrip(n: nat, rest: string)
    requires rest == [] || !IsDigit(rest[0])
    ensures ParseUnsigned(NatToString(n) + rest) == Some(n)
  {
    ParseDigitsRoundTrip(n, rest);
  }

  /** A '-' followed by the digits of n and non-digit text parses to -n. */
  lemma ParseSignedNegative(n: nat, rest: string)
    requires rest == [] || !IsDigit(rest[0])
    ensures ParseSigned("-" + NatToString(n) + rest) == Some(-(n as int))
  {
    var s := "-" + NatToString(n) + rest;
    assert s[1..] == NatToString(n) + rest;
    ParseDigitsRoundTrip(n, rest);
  }

  /** `stol(to_string(i) + rest) == i` when rest does not continue the digits. */
  lemma ParseSignedRoundTrip(i: int, rest: string)
    requires rest == [] || !IsDigit(rest[0])
    ensures ParseSigned(IntToString(i) + rest) == Some(i)
  {
    if i < 0 {
      ParseSignedNegative(-i, rest);
    } else {
      var s := NatToString(i) + rest;
      assert IsDigit(s[0]);
      ParseDigitsRoundTrip(i, rest);
    }
  }

  /**
    Text that is empty, or starts with neither a sign nor a digit, never
    parses. This covers whitespace-led text such as " 7" too, where the model
    differs from `stoul` and `stol`: they skip leading whitespace, the model
    does not.
  */
  lemma ParseRejectsNonNumeric(s: string)
    requires s == [] || (!IsDigit(s[0]) && s[0] != '+' && s[0] != '-')
    ensures ParseUnsigned(s) == None && ParseSigned(s) == None
  {
  }
}

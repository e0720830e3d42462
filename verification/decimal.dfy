/** Decimal text: std::to_string for integers and the std::stoull / std::stol /
    std::stoll parsers (strtoull / strtol in base 10) that read it back. */
module Decimal {
  import opened Wrappers

  const U64_LIMIT: nat := 0x1_0000_0000_0000_0000
  const I64_MAX: int := 0x7FFF_FFFF_FFFF_FFFF
  const I64_MIN: int := -0x8000_0000_0000_0000
  const I32_MAX: int := 0x7FFF_FFFF
  const I32_MIN: int := -0x8000_0000

  predicate IsDigit(c: char) {
    '0' <= c <= '9'
  }

  /** isspace in the C locale. */
  predicate IsSpace(c: char) {
    c == ' ' || c == '\t' || c == '\n' || c == '\r' || c == 11 as char || c == 12 as char
  }

  function DigitChar(d: nat): (c: char)
    requires d < 10
    ensures IsDigit(c)
  {
    ['0', '1', '2', '3', '4', '5', '6', '7', '8', '9'][d]
  }

  function DigitValue(c: char): (d: nat)
    requires IsDigit(c)
    ensures d < 10
  {
    (c as int - '0' as int) as nat
  }

  lemma DigitRoundTrip(d: nat)
    requires d < 10
    ensures DigitValue(DigitChar(d)) == d
  {
  }

  /** std::to_string of a non-negative integer. */
  function NatToText(n: nat): (s: string)
    ensures 0 < |s|
    ensures forall i :: 0 <= i < |s| ==> IsDigit(s[i])
    decreases n
  {
    if n < 10 then [DigitChar(n)] else NatToText(n / 10) + [DigitChar(n % 10)]
  }

  /** std::to_string of a signed integer. */
  function IntToText(i: int): (s: string)
    ensures 0 < |s|
  {
    if i < 0 then "-" + NatToText(-i) else NatToText(i)
  }

  /** The number a run of digits denotes. */
  function DigitsValue(d: string): nat
    requires forall i :: 0 <= i < |d| ==> IsDigit(d[i])
  {
    if |d| == 0 then 0 else DigitsValue(d[..|d| - 1]) * 10 + DigitValue(d[|d| - 1])
  }

  /** The number of leading digit characters. */
  function DigitRun(s: string): (n: nat)
    ensures n <= |s|
    ensures forall i :: 0 <= i < n ==> IsDigit(s[i])
    ensures n < |s| ==> !IsDigit(s[n])
  {
    if |s| == 0 || !IsDigit(s[0]) then 0 else 1 + DigitRun(s[1..])
  }

  /** The number of leading white-space characters. */
  function SpaceRun(s: string): (n: nat)
    ensures n <= |s|
    ensures n < |s| ==> !IsSpace(s[n])
  {
    if |s| == 0 || !IsSpace(s[0]) then 0 else 1 + SpaceRun(s[1..])
  }

  /** What strtoull / strtol read in base 10: white space, an optional sign
      and a non-empty run of digits (anything after the digits is ignored).
      None when there is no digit, which std::sto* reports as
      std::invalid_argument. */
  function ScanNumber(s: string): (r: Option<(bool, nat)>)
  {
    var t := s[SpaceRun(s)..];
    var negative := |t| > 0 && t[0] == '-';
    var u := if |t| > 0 && (t[0] == '-' || t[0] == '+') then t[1..] else t;
    var n := DigitRun(u);
    if n == 0 then None else Some((negative, DigitsValue(u[..n])))
  }

  /** std::stoull: out of range when the magnitude exceeds 2^64 - 1; a minus
      sign negates in unsigned arithmetic. */
  function ParseU64(s: string): (r: Option<nat>)
    ensures r.Some? ==> r.value < U64_LIMIT
  {
    match ScanNumber(s)
      case None => None
      case Some((negative, magnitude)) =>
        if magnitude >= U64_LIMIT then None
        else if negative then Some((U64_LIMIT - magnitude) % U64_LIMIT)
        else Some(magnitude)
  }

  /** std::stol / std::stoll on a 64-bit platform. */
  function ParseI64(s: string): (r: Option<int>)
    ensures r.Some? ==> I64_MIN <= r.value <= I64_MAX
  {
    match ScanNumber(s)
      case None => None
      case Some((negative, magnitude)) =>
        var v: int := if negative then 0 - magnitude as int else magnitude as int;
        if v < I64_MIN || v > I64_MAX then None else Some(v)
  }

  lemma {:induction false} NatToTextValue(n: nat)
    ensures DigitsValue(NatToText(n)) == n
    decreases n
  {
    var s := NatToText(n);
    if n < 10 {
      assert s[..0] == [];
      DigitRoundTrip(n);
    } else {
      NatToTextValue(n / 10);
      assert s[..|s| - 1] == NatToText(n / 10);
      DigitRoundTrip(n % 10);
    }
  }

  lemma ScanNatToText(n: nat)
    ensures ScanNumber(NatToText(n)) == Some((false, n))
  {
    var s := NatToText(n);
    assert !IsSpace(s[0]);
    assert SpaceRun(s) == 0;
    assert s[0..] == s;
    DigitRunAll(s);
    assert s[..|s|] == s;
    NatToTextValue(n);
  }

  lemma {:induction false} DigitRunAll(s: string)
    requires forall i :: 0 <= i < |s| ==> IsDigit(s[i])
    ensures DigitRun(s) == |s|
  {
    if |s| > 0 {
      DigitRunAll(s[1..]);
    }
  }

  /** Reading back what std::to_string wrote recovers every value below 2^64. */
  lemma ParseU64RoundTrip(n: nat)
    requires n < U64_LIMIT
    ensures ParseU64(NatToText(n)) == Some(n)
  {
    ScanNatToText(n);
  }

  /** std::stol(std::to_string(i)) == i for every 64-bit signed i. */
  lemma ParseI64RoundTrip(i: int)
    requires I64_MIN <= i <= I64_MAX
    ensures ParseI64(IntToText(i)) == Some(i)
  {
    if i < 0 {
      var s := IntToText(i);
      var d := NatToText(-i);
      assert s == "-" + d;
      assert !IsSpace(s[0]);
      assert SpaceRun(s) == 0;
      assert s[0..] == s;
      assert s[1..] == d;
      DigitRunAll(d);
      assert d[..|d|] == d;
      NatToTextValue(-i);
    } else {
      ScanNatToText(i);
    }
  }

  /** std::stoi: std::strtol, then out of range unless the value fits an int. */
  function ParseI32(s: string): (r: Option<int>)
    ensures r.Some? ==> I32_MIN <= r.value <= I32_MAX
    ensures r.Some? ==> ParseI64(s) == r
  {
    match ParseI64(s)
    case None => None
    case Some(v) => if v < I32_MIN || v > I32_MAX then None else Some(v)
  }

  /** std::to_string of a bool, which is promoted to int. */
  function BoolText(b: bool): (s: string)
    ensures ParseI32(s) == Some(if b then 1 else 0)
  {
    ParseU64RoundTrip(if b then 1 else 0);
    NatToText(if b then 1 else 0)
  }
}

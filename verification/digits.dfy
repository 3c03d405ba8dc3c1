/**
 * Decimal digit runs: the leading-integer parse that `parseInt(s)` and the
 * `/^\d+/` match perform, and the `${n}` formatting of a non-negative integer.
 */
module Digits {
  import opened Wrappers

  /** `\d` and the digits `parseInt` accepts: ASCII '0' to '9' only. */
  predicate IsDigit(c: char) {
    '0' <= c <= '9'
  }

  predicate AllDigits(s: string) {
    forall i :: 0 <= i < |s| ==> IsDigit(s[i])
  }

  function DigitValue(c: char): (d: nat)
    requires IsDigit(c)
    ensures d < 10
  {
    c as int - '0' as int
  }

  function DigitChar(d: nat): (c: char)
    requires d < 10
    ensures IsDigit(c) && DigitValue(c) == d
  {
    ('0' as int + d) as char
  }

  /** The number a run of digits spells, most significant digit first. */
  function DigitsValue(s: string): (v: nat)
    requires AllDigits(s)
    ensures v == 0 <==> forall i :: 0 <= i < |s| ==> s[i] == '0'
  {
    if s == [] then 0
    else
      var init := s[..|s| - 1];
      assert forall i :: 0 <= i < |init| ==> init[i] == s[i];
      10 * DigitsValue(init) + DigitValue(s[|s| - 1])
  }

  /** What `/^\d+/` matches in `s`: its longest prefix made of digits (empty when there is no match). */
  function LeadingDigits(s: string): (d: string)
    ensures d <= s && AllDigits(d)
    ensures |d| < |s| ==> !IsDigit(s[|d|])
  {
    if s != [] && IsDigit(s[0]) then [s[0]] + LeadingDigits(s[1..]) else []
  }

  /**
   * `parseInt(s)` on unsigned decimal text: the value of the leading digit
   * run, or None (JavaScript's NaN) when `s` does not start with a digit.
   */
  function ParseLeadingInt(s: string): (r: Option<nat>)
    ensures r.None? <==> s == [] || !IsDigit(s[0])
  {
    var d := LeadingDigits(s);
    if d == [] then None else Some(DigitsValue(d))
  }

  /** `${n}` for a non-negative integer: its decimal digits without leading zeros. */
  function NatToString(n: nat): (s: string)
    ensures s != [] && AllDigits(s) && DigitsValue(s) == n
    ensures s[0] == '0' ==> s == "0"
  {
    if n < 10 then [DigitChar(n)]
    else
      var p := NatToString(n / 10);
      var s := p + [DigitChar(n % 10)];
      assert s[..|s| - 1] == p;
      s
  }

  /** The template `${n}px` that `all` writes for every entry it can resolve. */
  function Px(n: nat): (s: string)
    ensures |s| >= 3 && s[|s| - 2..] == "px"
    ensures AllDigits(s[..|s| - 2]) && DigitsValue(s[..|s| - 2]) == n
  {
    var digits := NatToString(n);
    var s := digits + "px";
    assert s[..|s| - 2] == digits;
    s
  }

  /** A digit run followed by something that is not a digit is exactly what `/^\d+/` matches. */
  lemma {:induction false} LeadingDigitsOfRun(d: string, rest: string)
    requires AllDigits(d)
    requires rest == [] || !IsDigit(rest[0])
    ensures LeadingDigits(d + rest) == d
  {
    if d == [] {
      assert d + rest == rest;
    } else {
      assert (d + rest)[1..] == d[1..] + rest;
      LeadingDigitsOfRun(d[1..], rest);
    }
  }

  /** Any text that starts with a digit run parses to that run's value, whatever follows it. */
  lemma ParseLeadingIntOfRun(d: string, rest: string)
    requires d != [] && AllDigits(d)
    requires rest == [] || !IsDigit(rest[0])
    ensures ParseLeadingInt(d + rest) == Some(DigitsValue(d))
  {
    LeadingDigitsOfRun(d, rest);
  }

  /** Reading the number back from `${n}px` gives `n`, and the text ends in "px". */
  lemma PxRoundTrip(n: nat)
    ensures ParseLeadingInt(Px(n)) == Some(n)
    ensures Px(n)[|Px(n)| - 2..] == "px"
  {
    ParseLeadingIntOfRun(NatToString(n), "px");
  }

  /** The digits of a value read back out of a digit run are that run, once its leading zeros are gone. */
  lemma {:induction false} NatToStringOfDigits(s: string)
    requires s != [] && AllDigits(s)
    requires s[0] == '0' ==> s == "0"
    ensures NatToString(DigitsValue(s)) == s
  {
    var last := s[|s| - 1];
    var init := s[..|s| - 1];
    if init == [] {
      assert s == [last];
    } else {
      assert init[0] == s[0];
      LeadingDigitPositive(init);
      NatToStringOfDigits(init);
      var n := DigitsValue(s);
      assert n / 10 == DigitsValue(init) && n % 10 == DigitValue(last);
      assert s == init + [last];
    }
  }

  /** A digit run that does not start with '0' denotes a positive number. */
  lemma {:induction false} LeadingDigitPositive(s: string)
    requires s != [] && AllDigits(s) && s[0] != '0'
    ensures DigitsValue(s) > 0
  {
    if |s| > 1 {
      assert s[..|s| - 1][0] == s[0];
      LeadingDigitPositive(s[..|s| - 1]);
    }
  }
}

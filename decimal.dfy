/**
 * ASCII decimal numerals: the text-to-integer conversion the integer validator
 * relies on (Python's int() on a string) and the integer-to-text conversion used
 * for the `max` request parameter (Python's str() on an int).
 */
module Decimal {
  import opened Wrappers

  predicate IsDigit(c: char) {
    '0' <= c <= '9'
  }

  predicate IsDigits(s: string) {
    forall i :: 0 <= i < |s| ==> IsDigit(s[i])
  }

  function DigitValue(c: char): (d: nat)
    requires IsDigit(c)
    ensures d < 10
  {
    (c as int) - ('0' as int)
  }

  function DigitChar(d: nat): (c: char)
    requires d < 10
    ensures IsDigit(c) && DigitValue(c) == d
  {
    (d + '0' as int) as char
  }

  /** The value of a string of digits, most significant first; leading zeros are allowed. */
  function DigitsValue(s: string): (n: nat)
    requires IsDigits(s)
  {
    if |s| == 0 then 0 else 10 * DigitsValue(s[..|s| - 1]) + DigitValue(s[|s| - 1])
  }

  /** The text after a leading '+' or '-', if there is one. */
  function Unsigned(s: string): (u: string) {
    if |s| > 0 && (s[0] == '+' || s[0] == '-') then s[1..] else s
  }

  /** The numerals accepted: an optional '+' or '-' followed by at least one ASCII digit. */
  predicate IsNumeral(s: string) {
    |Unsigned(s)| > 0 && IsDigits(Unsigned(s))
  }

  /** The one text str() gives for each integer: no '+', no leading zero, no "-0". */
  predicate IsCanonical(s: string) {
    && IsNumeral(s)
    && s[0] != '+'
    && (Unsigned(s)[0] == '0' ==> Unsigned(s) == "0" && s[0] != '-')
  }

  /** Text to integer; None where Python's int() raises ValueError. */
  function ParseInt(s: string): (r: Option<int>)
    ensures r.Some? <==> IsNumeral(s)
    ensures r.Some? ==> r.value == (if s[0] == '-' then -1 else 1) * DigitsValue(Unsigned(s))
  {
    if |s| > 0 && (s[0] == '+' || s[0] == '-') then
      var body := s[1..];
      if |body| > 0 && IsDigits(body) then
        var magnitude: int := DigitsValue(body);
        Some(if s[0] == '-' then -magnitude else magnitude)
      else None
    else if |s| > 0 && IsDigits(s) then Some(DigitsValue(s))
    else None
  }

  /** The canonical decimal form of a natural number: digits only, no leading zero. */
  function NatToDigits(n: nat): (s: string)
    ensures |s| > 0 && IsDigits(s) && DigitsValue(s) == n
    ensures s[0] == '0' ==> s == "0"
    decreases n
  {
    if n < 10 then [DigitChar(n)]
    else
      var prefix := NatToDigits(n / 10);
      var s := prefix + [DigitChar(n % 10)];
      assert s[..|s| - 1] == prefix;
      s
  }

  /** Python's str() on an int: a '-' for negative numbers, then the canonical digits. */
  function IntToString(i: int): (s: string)
    ensures IsCanonical(s)
    ensures ParseInt(s) == Some(i)
    ensures s[0] == '-' <==> i < 0
  {
    if i < 0 then
      var s := "-" + NatToDigits(-i);
      assert s[1..] == NatToDigits(-i);
      s
    else NatToDigits(i)
  }

  /** Digits that do not start with '0' stand for a positive number. */
  lemma {:induction false} LeadingDigitPositive(d: string)
    requires |d| > 0 && IsDigits(d) && d[0] != '0'
    ensures DigitsValue(d) >= 1
  {
    if |d| > 1 {
      LeadingDigitPositive(d[..|d| - 1]);
    }
  }

  /** Digits without a superfluous leading zero are the canonical digits of their value. */
  lemma {:induction false} CanonicalDigits(d: string)
    requires |d| > 0 && IsDigits(d) && (d[0] == '0' ==> d == "0")
    ensures NatToDigits(DigitsValue(d)) == d
  {
    var last := d[|d| - 1];
    if |d| == 1 {
      assert d == [last];
      assert DigitChar(DigitValue(last)) == last;
    } else {
      var prefix := d[..|d| - 1];
      assert prefix[0] == d[0];
      LeadingDigitPositive(prefix);
      CanonicalDigits(prefix);
      var high, low := DigitsValue(prefix), DigitValue(last);
      assert DigitsValue(d) == 10 * high + low;
      assert (10 * high + low) / 10 == high && (10 * high + low) % 10 == low;
      assert NatToDigits(10 * high + low) == NatToDigits(high) + [DigitChar(low)];
      assert DigitChar(low) == last;
      assert d == prefix + [last];
    }
  }

  /**
   * Every canonical numeral is what str() prints for the integer it stands
   * for; with IntToString's contract, str() is a bijection between the
   * integers and the canonical numerals.
   */
  lemma CanonicalRoundTrip(s: string)
    requires IsCanonical(s)
    ensures ParseInt(s).Some? && IntToString(ParseInt(s).value) == s
  {
    CanonicalDigits(Unsigned(s));
    if s[0] == '-' {
      LeadingDigitPositive(Unsigned(s));
      assert s == "-" + Unsigned(s);
    }
  }

  /** Text that contains a character other than a sign or a digit is never a numeral. */
  lemma NonDigitRefused(s: string, k: nat)
    requires k < |s| && !IsDigit(s[k]) && s[k] != '+' && s[k] != '-'
    ensures ParseInt(s) == None
  {
  }
}

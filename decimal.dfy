/**
 * Decimal text and integers: Python's `int(text)` as used on the `id` and
 * `views_count` cells, and `str(n)` as used when a record is written.
 * The text accepted is ASCII: an optional `+` or `-` followed by one or
 * more digits `0`..`9`, leading zeros allowed.
 */
module Decimal {
  import opened Wrappers

  predicate IsDigit(c: char) { '0' <= c <= '9' }

  predicate AllDigits(s: string) { forall i :: 0 <= i < |s| ==> IsDigit(s[i]) }

  function DigitValue(c: char): (d: nat)
    requires IsDigit(c)
    ensures d < 10
  {
    (c as int) - ('0' as int)
  }

  function DigitChar(d: nat): (c: char)
    requires d < 10
    ensures IsDigit(c) && DigitValue(c) == d
  {
    (('0' as int) + d) as char
  }

  /** The value of a digit string, most significant digit first. */
  function DigitsValue(s: string): nat
    requires AllDigits(s)
    decreases |s|
  {
    if s == [] then 0 else DigitsValue(s[..|s| - 1]) * 10 + DigitValue(s[|s| - 1])
  }

  /** The text after one optional leading sign. */
  function Magnitude(s: string): string
  {
    if |s| > 0 && (s[0] == '+' || s[0] == '-') then s[1..] else s
  }

  /** Text `int` accepts: an optional sign followed by one or more digits. */
  predicate IsDecimalText(s: string)
  {
    |Magnitude(s)| > 0 && AllDigits(Magnitude(s))
  }

  /** `int(s)`: None where Python raises ValueError. */
  function ParseInt(s: string): (r: Option<int>)
    ensures r.Some? ==> |s| > 0 && (IsDigit(s[0]) || s[0] == '-' || s[0] == '+')
  {
    if |s| > 1 && (s[0] == '-' || s[0] == '+') && AllDigits(s[1..]) then
      Some(if s[0] == '-' then 0 - DigitsValue(s[1..]) as int else DigitsValue(s[1..]))
    else if |s| > 0 && AllDigits(s) then
      Some(DigitsValue(s))
    else
      None
  }

  /** `int` accepts exactly the decimal texts, and gives a negative value only after a '-'. */
  lemma ParseIntAccepts(s: string)
    ensures ParseInt(s).Some? <==> IsDecimalText(s)
    ensures ParseInt(s).Some? && ParseInt(s).value < 0 ==> s[0] == '-'
  {
  }

  /** A leading zero does not change a digit string's value. */
  lemma {:induction false} ZeroPrefixValue(s: string)
    requires AllDigits(s)
    ensures AllDigits("0" + s) && DigitsValue("0" + s) == DigitsValue(s)
    decreases |s|
  {
    var z := "0" + s;
    assert AllDigits(z) by {
      forall i | 0 <= i < |z| ensures IsDigit(z[i]) {
        if i > 0 { assert z[i] == s[i - 1]; }
      }
    }
    if s != [] {
      var init := s[..|s| - 1];
      ZeroPrefixValue(init);
      assert z[..|z| - 1] == "0" + init;
      assert z[|z| - 1] == s[|s| - 1];
    }
  }

  /** `int` reads text `str` never writes: a leading `+` or leading zeros leave the value unchanged. */
  lemma NonCanonicalText(s: string)
    requires |s| > 0 && AllDigits(s)
    ensures ParseInt("0" + s) == ParseInt(s)
    ensures ParseInt("+" + s) == ParseInt(s)
    ensures ParseInt("-" + s) == Some(0 - ParseInt(s).value)
  {
    ZeroPrefixValue(s);
    ParseIntAccepts(s);
    assert ("+" + s)[1..] == s && ("-" + s)[1..] == s;
  }

  /** Text with a stray character inside, a second sign or no digit at all is refused. */
  lemma NonDecimalRejected()
    ensures ParseInt("") == None && ParseInt("-") == None && ParseInt("+") == None
    ensures ParseInt("1x") == None && ParseInt("1.5") == None && ParseInt("--1") == None
  {
    ParseIntAccepts("1x");
    ParseIntAccepts("1.5");
    ParseIntAccepts("--1");
    assert !IsDigit('x') && !IsDigit('.') && !IsDigit('-');
    assert "1x"[1] == 'x' && "1.5"[1] == '.' && "--1"[1..][0] == '-';
  }

  /** `str(n)` for n >= 0: shortest digit string, no leading zero. */
  function NatToString(n: nat): (s: string)
    ensures |s| > 0 && AllDigits(s)
    ensures s[0] == '0' ==> n == 0
    decreases n
  {
    if n < 10 then [DigitChar(n)] else NatToString(n / 10) + [DigitChar(n % 10)]
  }

  /** `str(n)`: a minus sign for negative values, then the digits. */
  function IntToString(n: int): (s: string)
    ensures |s| > 0
    ensures s[0] == '-' <==> n < 0
  {
    if n < 0 then "-" + NatToString(-n) else NatToString(n)
  }

  lemma {:induction false} NatToStringValue(n: nat)
    ensures DigitsValue(NatToString(n)) == n
    decreases n
  {
    var s := NatToString(n);
    if n >= 10 {
      NatToStringValue(n / 10);
      assert s[..|s| - 1] == NatToString(n / 10);
    }
  }

  /** Writing an integer with `str` and reading it back with `int` gives it back. */
  lemma IntRoundTrip(n: int)
    ensures ParseInt(IntToString(n)) == Some(n)
  {
    if n < 0 {
      NatToStringValue(-n);
      assert IntToString(n)[1..] == NatToString(-n);
    } else {
      NatToStringValue(n);
    }
  }

  /** Distinct integers have distinct texts, so text equality on `str(id)` is id equality. */
  lemma IntToStringInjective(a: int, b: int)
    ensures IntToString(a) == IntToString(b) ==> a == b
  {
    IntRoundTrip(a);
    IntRoundTrip(b);
  }

  /** `int` accepts text that `str` never produces: "01" reads as 1 but is not `str(1)`. */
  lemma LeadingZeroReadsAsOne()
    ensures ParseInt("01") == Some(1)
    ensures IntToString(1) == "1" != "01"
  {
    assert AllDigits("01") && "01"[..1] == "0" && "0"[..0] == "";
    assert DigitsValue("0") == 0;
    assert DigitsValue("01") == 1;
    assert DigitChar(1) == '1';
  }
}

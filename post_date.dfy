/**
 * The `post_date` validator shared by the serializers and the pydantic
 * `Video` schemas: the text must match `^\d{4}-\d{2}-\d{2}$` and must then
 * parse with `datetime.strptime(value, "%Y-%m-%d")`. Together these accept
 * exactly the `full-date` of section 5.6 of RFC 3339 with the day limits of
 * section 5.7, except that year 0000 is refused (Python's smallest year is 1).
 */
module PostDate {
  import opened Wrappers
  import opened Decimal

  /** The one message both failure paths raise. */
  const InvalidDateMessage := "post_date must be a valid date in YYYY-MM-DD format"

  /** Exactly the ten characters `\d{4}-\d{2}-\d{2}`. */
  predicate HasDateShape(s: string)
  {
    |s| == 10 && s[4] == '-' && s[7] == '-' &&
    forall i :: 0 <= i < 10 && i != 4 && i != 7 ==> IsDigit(s[i])
  }

  /** `re.match(r"^\d{4}-\d{2}-\d{2}$", s)`: Python's `$` also matches just before one final newline. */
  predicate MatchesPattern(s: string)
    ensures MatchesPattern(s) ==> |s| >= 10 && HasDateShape(s[..10])
    ensures MatchesPattern(s) ==> |s| == 10 || (|s| == 11 && s[10] == '\n')
  {
    HasDateShape(s) || (|s| == 11 && s[10] == '\n' && HasDateShape(s[..10]))
  }

  /** The number written by two digit characters. */
  function TwoDigitValue(a: char, b: char): (n: nat)
    requires IsDigit(a) && IsDigit(b)
    ensures n < 100
  {
    10 * DigitValue(a) + DigitValue(b)
  }

  /** `%Y`: the four digits as one number. */
  function Year(s: string): nat
    requires HasDateShape(s)
  {
    100 * TwoDigitValue(s[0], s[1]) + TwoDigitValue(s[2], s[3])
  }

  function Month(s: string): nat
    requires HasDateShape(s)
  {
    TwoDigitValue(s[5], s[6])
  }

  function Day(s: string): nat
    requires HasDateShape(s)
  {
    TwoDigitValue(s[8], s[9])
  }

  /** The Gregorian rule: every fourth year, except centuries not divisible by 400. */
  predicate IsLeapYear(y: int)
  {
    y % 4 == 0 && (y % 100 != 0 || y % 400 == 0)
  }

  function DaysInMonth(y: int, m: int): (n: int)
    requires 1 <= m <= 12
    ensures 28 <= n <= 31
    ensures n == 29 <==> m == 2 && IsLeapYear(y)
  {
    if m == 2 then (if IsLeapYear(y) then 29 else 28)
    else if m == 4 || m == 6 || m == 9 || m == 11 then 30
    else 31
  }

  /**
   * `datetime.strptime(s, "%Y-%m-%d")` on text that passed the pattern:
   * the month must be 01..12, the day must exist in that month and the year
   * must be at least 1; a trailing newline is left unconverted and refused.
   */
  predicate StrptimeAccepts(s: string)
    requires MatchesPattern(s)
    ensures StrptimeAccepts(s) ==> |s| == 10
    ensures HasDateShape(s) && 1 <= Year(s) && Month(s) == 2 && Day(s) == 29 ==> (StrptimeAccepts(s) <==> IsLeapYear(Year(s)))
  {
    HasDateShape(s) && 1 <= Year(s) && 1 <= Month(s) <= 12 && 1 <= Day(s) <= DaysInMonth(Year(s), Month(s))
  }

  /** `validate_post_date` / `validate_date_format`: the value unchanged, or the validation error. */
  function ValidatePostDate(s: string): (r: Result<string, string>)
    ensures r.Success? ==> r.value == s && HasDateShape(s)
    ensures r.Failure? ==> r.error == InvalidDateMessage
  {
    if !MatchesPattern(s) then Failure(InvalidDateMessage)
    else if !StrptimeAccepts(s) then Failure(InvalidDateMessage)
    else Success(s)
  }

  predicate IsValidPostDate(s: string)
  {
    ValidatePostDate(s).Success?
  }

  // An independent description of the accepted text: the zero-padded
  // rendering of a real calendar date.

  function Pad2(n: nat): (s: string)
    requires n < 100
    ensures |s| == 2
  {
    [DigitChar(n / 10), DigitChar(n % 10)]
  }

  function Pad4(n: nat): (s: string)
    requires n < 10000
    ensures |s| == 4
  {
    Pad2(n / 100) + Pad2(n % 100)
  }

  function RenderDate(y: nat, m: nat, d: nat): (s: string)
    requires y < 10000 && m < 100 && d < 100
    ensures |s| == 10
  {
    Pad4(y) + "-" + Pad2(m) + "-" + Pad2(d)
  }

  predicate IsCalendarDate(y: int, m: int, d: int)
  {
    1 <= y <= 9999 && 1 <= m <= 12 && 1 <= d <= DaysInMonth(y, m)
  }

  ghost predicate IsFullDate(s: string)
  {
    exists y: nat, m: nat, d: nat :: IsCalendarDate(y, m, d) && s == RenderDate(y, m, d)
  }

  lemma Pad2Value(n: nat)
    requires n < 100
    ensures IsDigit(Pad2(n)[0]) && IsDigit(Pad2(n)[1]) && TwoDigitValue(Pad2(n)[0], Pad2(n)[1]) == n
  {
  }

  lemma Pad2OfValue(a: char, b: char)
    requires IsDigit(a) && IsDigit(b)
    ensures Pad2(TwoDigitValue(a, b)) == [a, b]
  {
    var n := TwoDigitValue(a, b);
    assert n / 10 == DigitValue(a) && n % 10 == DigitValue(b);
    DigitCharValue(a);
    DigitCharValue(b);
  }

  lemma Hundreds(h: nat, l: nat)
    requires l < 100
    ensures (100 * h + l) / 100 == h && (100 * h + l) % 100 == l
  {
  }

  lemma DigitCharValue(c: char)
    requires IsDigit(c)
    ensures DigitChar(DigitValue(c)) == c
  {
  }

  /** Reading the fields back from a rendered date gives the numbers rendered. */
  lemma RenderedFields(y: nat, m: nat, d: nat)
    requires y < 10000 && m < 100 && d < 100
    ensures HasDateShape(RenderDate(y, m, d))
    ensures Year(RenderDate(y, m, d)) == y
    ensures Month(RenderDate(y, m, d)) == m
    ensures Day(RenderDate(y, m, d)) == d
  {
    var s := RenderDate(y, m, d);
    var hi, lo, pm, pd := Pad2(y / 100), Pad2(y % 100), Pad2(m), Pad2(d);
    Pad2Value(y / 100);
    Pad2Value(y % 100);
    Pad2Value(m);
    Pad2Value(d);
    assert s == hi + lo + "-" + pm + "-" + pd;
    assert s[0] == hi[0] && s[1] == hi[1] && s[2] == lo[0] && s[3] == lo[1];
    assert s[5] == pm[0] && s[6] == pm[1] && s[8] == pd[0] && s[9] == pd[1];
    assert s[4] == '-' && s[7] == '-';
  }

  /** Text of the date shape is the rendering of its own fields. */
  lemma ShapeIsRendered(s: string)
    requires HasDateShape(s)
    ensures Year(s) < 10000 && Month(s) < 100 && Day(s) < 100
    ensures s == RenderDate(Year(s), Month(s), Day(s))
  {
    var h, l := TwoDigitValue(s[0], s[1]), TwoDigitValue(s[2], s[3]);
    Hundreds(h, l);
    Pad2OfValue(s[0], s[1]);
    Pad2OfValue(s[2], s[3]);
    Pad2OfValue(s[5], s[6]);
    Pad2OfValue(s[8], s[9]);
    assert Pad4(Year(s)) == s[..4];
    assert Pad2(Month(s)) == s[5..7];
    assert Pad2(Day(s)) == s[8..];
    assert s == s[..4] + "-" + s[5..7] + "-" + s[8..];
  }

  /** The validator accepts exactly the renderings of real dates in years 0001..9999. */
  lemma ValidatorAcceptsFullDates(s: string)
    ensures IsValidPostDate(s) <==> IsFullDate(s)
  {
    if IsValidPostDate(s) {
      ShapeIsRendered(s);
      assert IsCalendarDate(Year(s), Month(s), Day(s));
    }
    if IsFullDate(s) {
      var y: nat, m: nat, d: nat :| IsCalendarDate(y, m, d) && s == RenderDate(y, m, d);
      RenderedFields(y, m, d);
    }
  }

  /** 29 February is accepted exactly in leap years. */
  lemma LeapDay(y: nat)
    requires 1 <= y <= 9999
    ensures IsValidPostDate(RenderDate(y, 2, 29)) <==> IsLeapYear(y)
  {
    RenderedFields(y, 2, 29);
  }

  /** 30 February never exists. */
  lemma ImpossibleDayRejected()
    ensures !IsValidPostDate("2025-02-30")
  {
    assert HasDateShape("2025-02-30") && Month("2025-02-30") == 2 && Day("2025-02-30") == 30;
  }

  lemma RealDatesAccepted()
    ensures ValidatePostDate("2025-02-28") == Success("2025-02-28")
    ensures IsValidPostDate("2024-02-29") && IsValidPostDate("2000-02-29")
  {
    assert HasDateShape("2025-02-28") && Year("2025-02-28") == 2025 && Month("2025-02-28") == 2 && Day("2025-02-28") == 28;
    assert HasDateShape("2024-02-29") && Year("2024-02-29") == 2024 && Month("2024-02-29") == 2 && Day("2024-02-29") == 29;
    assert HasDateShape("2000-02-29") && Year("2000-02-29") == 2000 && Month("2000-02-29") == 2 && Day("2000-02-29") == 29;
  }

  lemma BadFieldsRejected()
    ensures !IsValidPostDate("1900-02-29")
    ensures !IsValidPostDate("2025-13-01") && !IsValidPostDate("2025-04-31")
    ensures !IsValidPostDate("0000-01-01")
  {
    assert HasDateShape("1900-02-29") && Year("1900-02-29") == 1900 && Month("1900-02-29") == 2 && Day("1900-02-29") == 29;
    assert HasDateShape("2025-13-01") && Month("2025-13-01") == 13;
    assert HasDateShape("2025-04-31") && Month("2025-04-31") == 4 && Day("2025-04-31") == 31;
    assert HasDateShape("0000-01-01") && Year("0000-01-01") == 0;
  }

  lemma MalformedRejected()
    ensures ValidatePostDate("invalid-date") == Failure(InvalidDateMessage)
    ensures MatchesPattern("2025-01-01\n") && !IsValidPostDate("2025-01-01\n")
  {
    assert !IsDigit("invalid-date"[0]);
    assert "2025-01-01\n"[..10] == "2025-01-01";
    assert HasDateShape("2025-01-01");
  }

  /** Shape-valid but impossible dates are refused; real ones pass unchanged. */
  lemma Examples()
    ensures !IsValidPostDate("2025-02-30")
    ensures ValidatePostDate("2025-02-28") == Success("2025-02-28")
    ensures IsValidPostDate("2024-02-29") && IsValidPostDate("2000-02-29")
    ensures !IsValidPostDate("1900-02-29")
    ensures !IsValidPostDate("2025-13-01") && !IsValidPostDate("2025-04-31")
    ensures !IsValidPostDate("0000-01-01")
    ensures ValidatePostDate("invalid-date") == Failure(InvalidDateMessage)
    ensures MatchesPattern("2025-01-01\n") && !IsValidPostDate("2025-01-01\n")
  {
    ImpossibleDayRejected();
    RealDatesAccepted();
    BadFieldsRejected();
    MalformedRejected();
  }
}

/** The display formatters `format_time` and `format_date` (generate.py).
    `format_date` parses with `datetime.strptime(date_str, "%Y-%m-%d")`,
    modelled here by the regular expression Python's `_strptime` builds for
    that format and by the calendar check `datetime` applies afterwards, and
    prints with the fixed English form `<day> <Month> <year>`. */
module Formatting {
  import opened Types
  import opened Text
  import Pattern

  /** `format_time(time_str)`: the first two dot-separated fields joined by a
      colon; fewer than two fields is an `IndexError`. */
  function FormatTime(t: string): Result<string> {
    var parts := Split(t, '.');
    if |parts| < 2 then Failure(IndexError) else Success(parts[0] + ":" + parts[1])
  }

  /** The time fails to format exactly when it has no dot. */
  lemma FormatTimeFails(t: string)
    ensures FormatTime(t).Failure? <==> '.' !in t
    ensures FormatTime(t).Failure? ==> FormatTime(t).error == IndexError
  {
    if '.' !in t {
      SplitWhole(t, '.');
    } else {
      var i := FirstDot(t);
      assert t == t[..i] + ['.'] + t[i + 1..];
      SplitAt(t[..i], '.', t[i + 1..]);
    }
  }

  lemma {:induction false} FirstDot(t: string) returns (i: nat)
    requires '.' in t
    ensures i < |t| && t[i] == '.' && forall j :: 0 <= j < i ==> t[j] != '.'
  {
    if t[0] == '.' {
      i := 0;
    } else {
      var m :| 0 <= m < |t| && t[m] == '.';
      assert t[1..][m - 1] == '.';
      var k := FirstDot(t[1..]);
      i := k + 1;
      forall j | 0 <= j < i ensures t[j] != '.' {
        if j > 0 { assert t[j] == t[1..][j - 1]; }
      }
    }
  }

  /** The first two dot-free fields are what the time shows, whatever follows
      them after a further dot. */
  lemma FormatTimeFields(a: string, b: string, rest: string)
    requires '.' !in a && '.' !in b
    requires rest == [] || rest[0] == '.'
    ensures FormatTime(a + "." + b + rest) == Success(a + ":" + b)
  {
    assert a + "." + b + rest == a + ['.'] + (b + rest);
    SplitAt(a, '.', b + rest);
    if rest == [] {
      assert b + rest == b;
      SplitWhole(b, '.');
    } else {
      assert b + rest == b + ['.'] + rest[1..];
      SplitAt(b, '.', rest[1..]);
    }
  }

  /** For a time the file-name pattern accepts, `HH.MM.SS` becomes `HH:MM`:
      five characters, leading zeros kept. */
  lemma FormatTimeOfPatternTime(t: string)
    requires Pattern.IsTime(t)
    ensures FormatTime(t) == Success(t[..2] + ":" + t[3..5])
    ensures |FormatTime(t).value| == 5
  {
    assert t == t[..2] + "." + t[3..5] + t[5..];
    FormatTimeFields(t[..2], t[3..5], t[5..]);
  }

  lemma FormatTimeExample(t: string)
    requires t == "14.30.00"
    ensures FormatTime(t) == Success("14:30")
  {
    FormatTimeOfPatternTime(t);
    assert t[..2] == "14" && t[3..5] == "30";
    assert "14" + ":" + "30" == "14:30";
  }

  // ---- format_date ----

  const MonthNames: seq<string> := ["January", "February", "March", "April", "May", "June",
    "July", "August", "September", "October", "November", "December"]

  predicate IsLeapYear(y: nat) { y % 4 == 0 && (y % 100 != 0 || y % 400 == 0) }

  function DaysInMonth(y: nat, m: nat): nat
    requires 1 <= m <= 12
  {
    if m == 2 then (if IsLeapYear(y) then 29 else 28)
    else if m == 4 || m == 6 || m == 9 || m == 11 then 30
    else 31
  }

  /** A date `datetime` can represent. */
  predicate ValidDate(y: nat, m: nat, d: nat) {
    1 <= y <= 9999 && 1 <= m <= 12 && 1 <= d <= DaysInMonth(y, m)
  }

  /** `%m`: `1[0-2]|0[1-9]|[1-9]` starting at `i`, followed by the `-` of the
      format. Gives the month and the position after the dash. */
  function MonthField(s: string, i: nat): Option<(nat, nat)> {
    if i + 2 < |s| && s[i] == '1' && '0' <= s[i + 1] <= '2' && s[i + 2] == '-' then
      Some((10 + DigitValue(s[i + 1]), i + 3))
    else if i + 2 < |s| && s[i] == '0' && '1' <= s[i + 1] <= '9' && s[i + 2] == '-' then
      Some((DigitValue(s[i + 1]), i + 3))
    else if i + 1 < |s| && '1' <= s[i] <= '9' && s[i + 1] == '-' then
      Some((DigitValue(s[i]), i + 2))
    else None
  }

  /** `%d`: the first of `3[01]|[12]\d|0[1-9]|[1-9]| [1-9]` that matches at
      `j`. Gives the day and the position after it. */
  function DayField(s: string, j: nat): Option<(nat, nat)> {
    if j + 1 < |s| && s[j] == '3' && (s[j + 1] == '0' || s[j + 1] == '1') then
      Some((30 + DigitValue(s[j + 1]), j + 2))
    else if j + 1 < |s| && (s[j] == '1' || s[j] == '2') && IsDigit(s[j + 1]) then
      Some((10 * DigitValue(s[j]) + DigitValue(s[j + 1]), j + 2))
    else if j + 1 < |s| && s[j] == '0' && '1' <= s[j + 1] <= '9' then
      Some((DigitValue(s[j + 1]), j + 2))
    else if j < |s| && '1' <= s[j] <= '9' then
      Some((DigitValue(s[j]), j + 1))
    else if j + 1 < |s| && s[j] == ' ' && '1' <= s[j + 1] <= '9' then
      Some((DigitValue(s[j + 1]), j + 2))
    else None
  }

  /** `datetime.strptime(s, "%Y-%m-%d")`: the format's regular expression
      must match from the start and consume the whole string, and the numbers
      must form a date `datetime` accepts; anything else is a `ValueError`. */
  function StrptimeYmd(s: string): (r: Result<(nat, nat, nat)>)
    ensures r.Success? ==> ValidDate(r.value.0, r.value.1, r.value.2)
    ensures r.Failure? ==> r.error == ValueError
  {
    if !(|s| >= 5 && AllDigits(s[..4]) && s[4] == '-') then Failure(ValueError)
    else
      var year := DigitsValue(s[..4]);
      match MonthField(s, 5)
      case None => Failure(ValueError)
      case Some((month, j)) =>
        match DayField(s, j)
        case None => Failure(ValueError)
        case Some((day, end)) =>
          if end != |s| then Failure(ValueError)
          else if !ValidDate(year, month, day) then Failure(ValueError)
          else Success((year, month, day))
  }

  /** `%Y`: the year as four digits. */
  function YearText(y: nat): string
    requires y < 10000
  {
    [DigitChar(y / 10 / 10 / 10), DigitChar(y / 10 / 10 % 10), DigitChar(y / 10 % 10), DigitChar(y % 10)]
  }

  /** `format_date(date_str)`: `%-d %B %Y`, the day without a leading zero,
      the English month name and the year. */
  function FormatDate(s: string): Result<string> {
    match StrptimeYmd(s)
    case Failure(e) => Failure(e)
    case Success((y, m, d)) => Success(NatToString(d) + " " + MonthNames[m - 1] + " " + YearText(y))
  }

  /** The numbers a pattern-accepted date spells. */
  function YearOf(d: string): nat requires Pattern.IsDate(d) { DigitsValue(d[..4]) }
  function MonthOf(d: string): nat requires Pattern.IsDate(d) { DigitsValue(d[5..7]) }
  function DayOf(d: string): nat requires Pattern.IsDate(d) { DigitsValue(d[8..10]) }

  lemma TwoDigits(s: string)
    requires |s| == 2 && AllDigits(s)
    ensures DigitsValue(s) == 10 * DigitValue(s[0]) + DigitValue(s[1])
  {
    var hi := s[..1];
    assert hi[..0] == [] && hi[0] == s[0];
    assert DigitsValue(hi) == DigitValue(s[0]);
  }

  lemma DivTen(x: nat, e: nat)
    requires e < 10
    ensures (x * 10 + e) / 10 == x && (x * 10 + e) % 10 == e
  {
  }

  lemma YearDigits(s: string)
    requires |s| == 4 && AllDigits(s)
    ensures DigitsValue(s) < 10000 && YearText(DigitsValue(s)) == s
  {
    var a, b, c, e := DigitValue(s[0]), DigitValue(s[1]), DigitValue(s[2]), DigitValue(s[3]);
    var v := DigitsValue(s);
    FourDigits(s);
    DivTen((a * 10 + b) * 10 + c, e);
    DivTen(a * 10 + b, c);
    DivTen(a, b);
    assert v / 10 / 10 / 10 == a && v / 10 / 10 % 10 == b && v / 10 % 10 == c && v % 10 == e;
    assert YearText(v) == [DigitChar(a), DigitChar(b), DigitChar(c), DigitChar(e)];
    assert s == [s[0], s[1], s[2], s[3]];
  }

  lemma FourDigits(s: string)
    requires |s| == 4 && AllDigits(s)
    ensures DigitsValue(s)
      == ((DigitValue(s[0]) * 10 + DigitValue(s[1])) * 10 + DigitValue(s[2])) * 10 + DigitValue(s[3])
  {
    var s3 := s[..3];
    var s2 := s3[..2];
    var s1 := s2[..1];
    assert s1[..0] == [] && s1[0] == s[0] && s2[1] == s[1] && s3[2] == s[2];
    assert DigitsValue(s1) == DigitValue(s[0]);
    assert DigitsValue(s2) == DigitValue(s[0]) * 10 + DigitValue(s[1]);
    assert DigitsValue(s3) == DigitsValue(s2) * 10 + DigitValue(s[2]);
  }

  /** The month field of a pattern-accepted date parses exactly when it is 01 to 12. */
  lemma MonthOfPatternDate(d: string)
    requires Pattern.IsDate(d)
    ensures MonthField(d, 5).Some? <==> 1 <= MonthOf(d) <= 12
    ensures MonthField(d, 5).Some? ==> MonthField(d, 5).value == (MonthOf(d), 8)
  {
    TwoDigits(d[5..7]);
  }

  /** The day field of a pattern-accepted date parses up to the end exactly
      when it is 01 to 31; a larger day leaves a digit unconverted. */
  lemma DayOfPatternDate(d: string)
    requires Pattern.IsDate(d)
    ensures (DayField(d, 8).Some? && DayField(d, 8).value.1 == 10) <==> 1 <= DayOf(d) <= 31
    ensures DayField(d, 8).Some? && DayField(d, 8).value.1 == 10 ==> DayField(d, 8).value.0 == DayOf(d)
  {
    TwoDigits(d[8..10]);
  }

  /** Date formatting and its error case: a date the file-name pattern
      accepts formats exactly when it is a real calendar date (year from 1,
      month 1 to 12, day within the month's length, leap years counted), as
      the day without leading zero, the English month name and the year as
      written; otherwise `strptime` raises `ValueError`. */
  lemma FormatDateOfPatternDate(d: string)
    requires Pattern.IsDate(d)
    ensures FormatDate(d).Success? <==> ValidDate(YearOf(d), MonthOf(d), DayOf(d))
    ensures FormatDate(d).Failure? ==> FormatDate(d).error == ValueError
    ensures FormatDate(d).Success? ==>
      FormatDate(d).value == NatToString(DayOf(d)) + " " + MonthNames[MonthOf(d) - 1] + " " + d[..4]
    ensures FormatDate(d).Success? ==> FormatDate(d).value[0] != '0'
  {
    assert d[..4] == [d[0], d[1], d[2], d[3]];
    assert AllDigits(d[..4]);
    YearDigits(d[..4]);
    MonthOfPatternDate(d);
    DayOfPatternDate(d);
  }

  lemma FormatDateExample(d: string)
    requires d == "2024-03-05"
    ensures FormatDate(d) == Success("5 March 2024")
  {
    ExampleDateNumbers(d);
    FormatDateOfPatternDate(d);
    ExampleDateWords(d);
  }

  lemma ExampleDateNumbers(d: string)
    requires d == "2024-03-05"
    ensures Pattern.IsDate(d) && YearOf(d) == 2024 && MonthOf(d) == 3 && DayOf(d) == 5
  {
    assert Pattern.IsDate(d);
    TwoDigits(d[5..7]);
    TwoDigits(d[8..10]);
    assert YearOf(d) == 2024 by {
      assert d[..4] == [d[0], d[1], d[2], d[3]];
      FourDigits(d[..4]);
    }
  }

  lemma ExampleDateWords(d: string)
    requires d == "2024-03-05"
    ensures NatToString(5) + " " + MonthNames[2] + " " + d[..4] == "5 March 2024"
  {
    assert NatToString(5) == "5";
    assert MonthNames[2] == "March";
    assert d[..4] == "2024";
  }

  /** Month 13 and 30 February pass the file-name pattern but not `strptime`. */
  lemma FormatDateRejects(d: string, e: string)
    requires d == "2024-13-01" && e == "2024-02-30"
    ensures FormatDate(d) == Failure(ValueError)
    ensures FormatDate(e) == Failure(ValueError)
  {
    FormatDateOfPatternDate(d);
    TwoDigits(d[5..7]);
    FormatDateOfPatternDate(e);
    TwoDigits(e[5..7]);
    TwoDigits(e[8..10]);
  }
}

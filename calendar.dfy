/**
 * Calendar days as integers. Day 0 is 1970-01-01 (a Thursday), so pandas'
 * `dayofweek` (Monday = 0) of day d is (d + 3) mod 7. This module gives the
 * proleptic Gregorian date of a day number and back, the calendar features of
 * the preprocessing stage, and the `YYYY-MM-DD` text that the lookup endpoint
 * answers with (`strftime("%Y-%m-%d")`).
 */
module Calendar {
  import opened Base

  datatype Date = Date(year: int, month: int, day: int)

  predicate IsLeapYear(y: int) {
    y % 4 == 0 && (y % 100 != 0 || y % 400 == 0)
  }

  function DaysInYear(y: int): int {
    if IsLeapYear(y) then 366 else 365
  }

  function DaysInMonth(y: int, m: int): int
    requires 1 <= m <= 12
  {
    if m == 2 then (if IsLeapYear(y) then 29 else 28)
    else if m == 4 || m == 6 || m == 9 || m == 11 then 30
    else 31
  }

  predicate ValidDate(c: Date) {
    1 <= c.month <= 12 && 1 <= c.day <= DaysInMonth(c.year, c.month)
  }

  /** Days of year y before the first day of month m (for m = 13, the whole year). */
  function DaysBeforeMonth(y: int, m: int): int
    requires 1 <= m <= 13
  {
    [0, 31, 59, 90, 120, 151, 181, 212, 243, 273, 304, 334, 365][m - 1]
      + (if m > 2 && IsLeapYear(y) then 1 else 0)
  }

  lemma DaysBeforeMonthStep(y: int, m: int)
    requires 1 <= m <= 12
    ensures DaysBeforeMonth(y, m + 1) == DaysBeforeMonth(y, m) + DaysInMonth(y, m)
    ensures DaysBeforeMonth(y, 1) == 0 && DaysBeforeMonth(y, 13) == DaysInYear(y)
  {
  }

  /** The day number of 1 January of year y. */
  function YearStart(y: int): int
    decreases if y < 1970 then 1970 - y else y - 1970
  {
    if y == 1970 then 0
    else if y > 1970 then YearStart(y - 1) + DaysInYear(y - 1)
    else YearStart(y + 1) - DaysInYear(y)
  }

  lemma YearStartStep(y: int)
    ensures YearStart(y + 1) == YearStart(y) + DaysInYear(y)
  {
  }

  /** The day number of a calendar date. */
  function DayNumber(c: Date): int
    requires ValidDate(c)
  {
    YearStart(c.year) + DaysBeforeMonth(c.year, c.month) + c.day - 1
  }

  /** From (year y, day r of it counted from 0, r possibly beyond the year) to the year that holds it. */
  function YearForward(y: int, r: int): (p: (int, int))
    requires r >= 0
    ensures 0 <= p.1 < DaysInYear(p.0)
    decreases r
  {
    if r < DaysInYear(y) then (y, r) else YearForward(y + 1, r - DaysInYear(y))
  }

  /** As YearForward for a day r < 0 before 1 January of year y. */
  function YearBackward(y: int, r: int): (p: (int, int))
    requires r < 0
    ensures 0 <= p.1 < DaysInYear(p.0)
    decreases -r
  {
    var r' := r + DaysInYear(y - 1);
    if r' >= 0 then (y - 1, r') else YearBackward(y - 1, r')
  }

  /** The date of day r (counted from 0) of year y, searching from month m on. */
  function MonthOf(y: int, m: int, r: int): (c: Date)
    requires 1 <= m <= 12 && 0 <= r && DaysBeforeMonth(y, m) + r < DaysInYear(y)
    ensures ValidDate(c) && c.year == y
    decreases 12 - m
  {
    DaysBeforeMonthStep(y, m);
    if r < DaysInMonth(y, m) then Date(y, m, r + 1)
    else MonthOf(y, m + 1, r - DaysInMonth(y, m))
  }

  /** The calendar date of a day number. */
  function ToDate(d: int): (c: Date)
    ensures ValidDate(c)
  {
    var p := if d >= 0 then YearForward(1970, d) else YearBackward(1970, d);
    DaysBeforeMonthStep(p.0, 1);
    MonthOf(p.0, 1, p.1)
  }

  lemma {:induction false} YearForwardSound(y: int, r: int)
    requires r >= 0
    ensures YearStart(YearForward(y, r).0) + YearForward(y, r).1 == YearStart(y) + r
    decreases r
  {
    YearStartStep(y);
    if r >= DaysInYear(y) {
      YearForwardSound(y + 1, r - DaysInYear(y));
    }
  }

  lemma {:induction false} YearBackwardSound(y: int, r: int)
    requires r < 0
    ensures YearStart(YearBackward(y, r).0) + YearBackward(y, r).1 == YearStart(y) + r
    decreases -r
  {
    YearStartStep(y - 1);
    var r' := r + DaysInYear(y - 1);
    if r' < 0 {
      YearBackwardSound(y - 1, r');
    }
  }

  lemma {:induction false} MonthOfSound(y: int, m: int, r: int)
    requires 1 <= m <= 12 && 0 <= r && DaysBeforeMonth(y, m) + r < DaysInYear(y)
    ensures DaysBeforeMonth(y, MonthOf(y, m, r).month) + MonthOf(y, m, r).day - 1 == DaysBeforeMonth(y, m) + r
    decreases 12 - m
  {
    DaysBeforeMonthStep(y, m);
    if r >= DaysInMonth(y, m) {
      MonthOfSound(y, m + 1, r - DaysInMonth(y, m));
    }
  }

  /** Every day number is the day number of its own calendar date. */
  lemma DayNumberOfDate(d: int)
    ensures DayNumber(ToDate(d)) == d
  {
    var p := if d >= 0 then YearForward(1970, d) else YearBackward(1970, d);
    if d >= 0 {
      YearForwardSound(1970, d);
    } else {
      YearBackwardSound(1970, d);
    }
    DaysBeforeMonthStep(p.0, 1);
    MonthOfSound(p.0, 1, p.1);
  }

  lemma {:induction false} YearStartGrows(y1: int, y2: int)
    requires y1 < y2
    ensures YearStart(y1) + DaysInYear(y1) <= YearStart(y2)
    decreases y2 - y1
  {
    YearStartStep(y1);
    if y1 + 1 < y2 {
      YearStartGrows(y1 + 1, y2);
    }
  }

  /** Distinct valid dates have distinct day numbers. */
  lemma DayNumberInjective(c1: Date, c2: Date)
    requires ValidDate(c1) && ValidDate(c2) && DayNumber(c1) == DayNumber(c2)
    ensures c1 == c2
  {
    DaysBeforeMonthStep(c1.year, c1.month);
    DaysBeforeMonthStep(c2.year, c2.month);
    if c1.year < c2.year {
      YearStartGrows(c1.year, c2.year);
      assert false;
    } else if c2.year < c1.year {
      YearStartGrows(c2.year, c1.year);
      assert false;
    }
    if c1.month < c2.month {
      DaysBeforeMonthStep(c1.year, c2.month - 1);
      assert false;
    } else if c2.month < c1.month {
      DaysBeforeMonthStep(c1.year, c1.month - 1);
      assert false;
    }
  }

  /** The date of the day number of a valid date is that date. */
  lemma DateOfDayNumber(c: Date)
    requires ValidDate(c)
    ensures ToDate(DayNumber(c)) == c
  {
    DayNumberOfDate(DayNumber(c));
    DayNumberInjective(ToDate(DayNumber(c)), c);
  }

  // ---------------------------------------------------------------------
  // Calendar features (`df.index.dayofweek`, `df.index.month`)
  // ---------------------------------------------------------------------

  /** `dayofweek`: Monday is 0 and Sunday is 6; 1970-01-01 was a Thursday. */
  function DayOfWeek(d: int): (w: int)
    ensures 0 <= w <= 6
    ensures d == 0 ==> w == 3
  {
    (d + 3) % 7
  }

  /** The weekday advances by one each day and repeats every seven days. */
  lemma DayOfWeekAdvances(d: int)
    ensures DayOfWeek(d + 1) == (DayOfWeek(d) + 1) % 7
    ensures DayOfWeek(d + 7) == DayOfWeek(d)
  {
  }

  /** `month`: 1 for January through 12 for December. */
  function MonthOfDay(d: int): (m: int)
    ensures 1 <= m <= 12
  {
    ToDate(d).month
  }

  // ---------------------------------------------------------------------
  // `YYYY-MM-DD` text
  // ---------------------------------------------------------------------

  function Digit(n: int): char
    requires 0 <= n <= 9
  {
    "0123456789"[n]
  }

  predicate IsDigit(c: char) {
    '0' <= c <= '9'
  }

  predicate AllDigits(s: string) {
    forall i :: 0 <= i < |s| ==> IsDigit(s[i])
  }

  /** The decimal digits of n, padded with leading zeros to at least `width` characters. */
  function Digits(n: nat, width: nat): (s: string)
    ensures |s| >= 1 && AllDigits(s)
    decreases n, width
  {
    if n < 10 && width <= 1 then [Digit(n)]
    else Digits(n / 10, if width > 0 then width - 1 else 0) + [Digit(n % 10)]
  }

  /** The number a string of decimal digits spells. */
  function ValueOf(s: string): nat
    requires AllDigits(s)
  {
    if |s| == 0 then 0
    else ValueOf(s[..|s| - 1]) * 10 + (s[|s| - 1] as int - '0' as int)
  }

  function Pow10(w: nat): nat {
    if w == 0 then 1 else 10 * Pow10(w - 1)
  }

  /** A digit character stands for its own value. */
  lemma DigitValue(d: int)
    requires 0 <= d <= 9
    ensures Digit(d) as int - '0' as int == d
  {
  }

  /** Padded digits read back as the number they were made from. */
  lemma {:induction false} DigitsValue(n: nat, width: nat)
    ensures ValueOf(Digits(n, width)) == n
    decreases n, width
  {
    var s := Digits(n, width);
    if n < 10 && width <= 1 {
      assert s[..0] == [];
      DigitValue(n);
    } else {
      var w' := if width > 0 then width - 1 else 0;
      DigitsValue(n / 10, w');
      assert s[..|s| - 1] == Digits(n / 10, w');
      DigitValue(n % 10);
    }
  }

  /** Padding to `width` uses exactly `width` characters when the number fits in them. */
  lemma {:induction false} DigitsWidth(n: nat, width: nat)
    requires width >= 1 && n < Pow10(width)
    ensures |Digits(n, width)| == width
    decreases width
  {
    if !(n < 10 && width <= 1) {
      assert width >= 2;
      assert n / 10 < Pow10(width - 1);
      DigitsWidth(n / 10, width - 1);
    }
  }

  /** Padded digits read back as the number they were made from, using exactly `width` characters when it fits. */
  lemma DigitsRoundTrip(n: nat, width: nat)
    ensures ValueOf(Digits(n, width)) == n
    ensures width >= 1 && n < Pow10(width) ==> |Digits(n, width)| == width
  {
    DigitsValue(n, width);
    if width >= 1 && n < Pow10(width) {
      DigitsWidth(n, width);
    }
  }

  /** A string of `width` digits is the padded text of the number it spells. */
  lemma {:induction false} ValueOfRoundTrip(s: string)
    requires |s| >= 1 && AllDigits(s)
    ensures Digits(ValueOf(s), |s|) == s
    decreases |s|
  {
    var init, last := s[..|s| - 1], s[|s| - 1];
    assert s == init + [last];
    var n := ValueOf(s);
    var d := last as int - '0' as int;
    assert n == ValueOf(init) * 10 + d;
    LastDigit(ValueOf(init), d);
    CharOfDigit(last);
    if |s| == 1 {
      assert Digits(n, 1) == [Digit(d)];
    } else {
      ValueOfRoundTrip(init);
      assert Digits(n, |s|) == Digits(ValueOf(init), |init|) + [Digit(d)];
    }
  }

  /** Appending a digit d to a number v: dividing by ten gives v back, the remainder is d. */
  lemma LastDigit(v: nat, d: int)
    requires 0 <= d <= 9
    ensures (v * 10 + d) / 10 == v && (v * 10 + d) % 10 == d
  {
  }

  /** A digit character is the digit of its own value. */
  lemma CharOfDigit(c: char)
    requires IsDigit(c)
    ensures 0 <= c as int - '0' as int <= 9 && Digit(c as int - '0' as int) == c
  {
  }

  /** The year as `strftime("%Y")` writes it: at least four digits. */
  function YearText(y: int): string {
    if y < 0 then "-" + Digits(-y, 4) else Digits(y, 4)
  }

  /** `strftime("%Y-%m-%d")` of a day. */
  function FormatIso(d: int): string {
    var c := ToDate(d);
    YearText(c.year) + "-" + Digits(c.month, 2) + "-" + Digits(c.day, 2)
  }

  /** For a four-digit year the text has the shape `DDDD-DD-DD`. */
  lemma FormatIsoShape(d: int)
    requires 0 <= ToDate(d).year <= 9999
    ensures |FormatIso(d)| == 10 && FormatIso(d)[4] == '-' && FormatIso(d)[7] == '-'
    ensures AllDigits(FormatIso(d)[..4]) && AllDigits(FormatIso(d)[5..7]) && AllDigits(FormatIso(d)[8..])
  {
    FormatIsoParts(d);
  }

  /** The three fields of the text of a day with a four-digit year, each at its fixed place. */
  lemma FormatIsoParts(d: int)
    requires 0 <= ToDate(d).year <= 9999
    ensures var c, s := ToDate(d), FormatIso(d);
      && |s| == 10 && s[4] == '-' && s[7] == '-'
      && s[..4] == Digits(c.year, 4) && s[5..7] == Digits(c.month, 2) && s[8..] == Digits(c.day, 2)
  {
    var c := ToDate(d);
    DigitsWidth(c.year, 4);
    DigitsWidth(c.month, 2);
    DigitsWidth(c.day, 2);
    var y, m, dd := Digits(c.year, 4), Digits(c.month, 2), Digits(c.day, 2);
    var s := FormatIso(d);
    assert s == y + "-" + m + "-" + dd;
  }

  /** Reads a `YYYY-MM-DD` date; anything else, or a day that does not exist, is rejected. */
  function ParseIso(s: string): Option<int> {
    if |s| == 10 && s[4] == '-' && s[7] == '-' && AllDigits(s[..4]) && AllDigits(s[5..7]) && AllDigits(s[8..]) then
      var c := Date(ValueOf(s[..4]), ValueOf(s[5..7]), ValueOf(s[8..]));
      if ValidDate(c) then Some(DayNumber(c)) else None
    else None
  }

  /** Reading back the formatted date of a four-digit year gives the same day. */
  lemma ParseFormatted(d: int)
    requires 0 <= ToDate(d).year <= 9999
    ensures ParseIso(FormatIso(d)) == Some(d)
  {
    var c := ToDate(d);
    FormatIsoParts(d);
    DigitsValue(c.year, 4);
    DigitsValue(c.month, 2);
    DigitsValue(c.day, 2);
    DayNumberOfDate(d);
  }

  /** Every date the parser accepts is written back exactly as it was given. */
  lemma FormatParsed(s: string)
    requires ParseIso(s).Some?
    ensures FormatIso(ParseIso(s).value) == s
  {
    var y, m, dd := s[..4], s[5..7], s[8..];
    assert s == y + "-" + m + "-" + dd;
    var c := Date(ValueOf(y), ValueOf(m), ValueOf(dd));
    assert ParseIso(s) == Some(DayNumber(c));
    DateOfDayNumber(c);
    ValueOfRoundTrip(y);
    ValueOfRoundTrip(m);
    ValueOfRoundTrip(dd);
    assert FormatIso(DayNumber(c)) == Digits(c.year, 4) + "-" + Digits(c.month, 2) + "-" + Digits(c.day, 2);
  }
}

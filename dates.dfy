/** Calendar dates as the JavaScript Date object presents them in local time:
    a full year, a 0-based month (getMonth) and a day of the month (getDate), in
    the proleptic Gregorian calendar. A date is numbered by its day count from
    0001-01-01 (day 0, a Monday), which gives the weekday (getDay, 0 = Sunday),
    and stepping a date by whole days (setDate(getDate() + k)) moves the day count
    by k. formatDate turns a date into the `YYYY-MM-DD` key that schedules are
    stored under; ParseDate reads such a key back. */
module Dates {
  import opened Lists
  import opened Text

  datatype Date = Date(year: int, month: int, day: int)
  {
    /** A date a JavaScript Date can stand for: month 0..11, day within the month. */
    predicate Valid()
    {
      0 <= month < 12 && 1 <= day <= DaysInMonth(year, month)
    }
  }

  predicate IsLeapYear(y: int)
  {
    y % 4 == 0 && (y % 100 != 0 || y % 400 == 0)
  }

  function YearLength(y: int): int
  {
    if IsLeapYear(y) then 366 else 365
  }

  /** Days in the 0-based month `m` of year `y`. */
  function DaysInMonth(y: int, m: int): int
  {
    if m == 1 then (if IsLeapYear(y) then 29 else 28)
    else if m == 3 || m == 5 || m == 8 || m == 10 then 30
    else 31
  }

  /** Days of year `y` that precede the 1st of the 0-based month `m` (0 <= m <= 12). */
  function DaysBeforeMonth(y: int, m: int): int
    requires 0 <= m <= 12
  {
    var leap := if IsLeapYear(y) && m >= 2 then 1 else 0;
    [0, 31, 59, 90, 120, 151, 181, 212, 243, 273, 304, 334, 365][m] + leap
  }

  /** Days from 0001-01-01 to the 1st of January of year `y`. */
  function DaysBeforeYear(y: int): int
  {
    365 * (y - 1) + (y - 1) / 4 - (y - 1) / 100 + (y - 1) / 400
  }

  /** The year `new Date(year, month, day)` builds: a year from 0 to 99 is read
      as 1900 + year, any other year as itself. */
  function FullYear(year: int): int
  {
    if 0 <= year <= 99 then 1900 + year else year
  }

  /** The day count of a date: 0001-01-01 is day 0. */
  function DayNumber(d: Date): int
    requires d.Valid()
  {
    DaysBeforeYear(d.year) + DaysBeforeMonth(d.year, d.month) + d.day - 1
  }

  /** getDay(): 0 for Sunday through 6 for Saturday. Day 0 is a Monday. */
  function Weekday(d: Date): (w: int)
    requires d.Valid()
    ensures 0 <= w < 7
  {
    (DayNumber(d) + 1) % 7
  }

  /** The day after `d` (setDate(getDate() + 1)). */
  function NextDay(d: Date): Date
  {
    if d.day < DaysInMonth(d.year, d.month) then Date(d.year, d.month, d.day + 1)
    else if d.month < 11 then Date(d.year, d.month + 1, 1)
    else Date(d.year + 1, 0, 1)
  }

  /** The day before `d` (setDate(getDate() - 1)). */
  function PrevDay(d: Date): Date
  {
    if d.day > 1 then Date(d.year, d.month, d.day - 1)
    else if d.month > 0 then Date(d.year, d.month - 1, DaysInMonth(d.year, d.month - 1))
    else Date(d.year - 1, 11, 31)
  }

  lemma MonthStep(y: int, m: int)
    requires 0 <= m < 12
    ensures DaysBeforeMonth(y, m + 1) == DaysBeforeMonth(y, m) + DaysInMonth(y, m)
  {
  }

  /** The Gregorian leap-year count: one more year of 366 days per leap year. */
  lemma YearStep(y: int)
    ensures DaysBeforeYear(y + 1) == DaysBeforeYear(y) + YearLength(y)
  {
    DivStep4(y - 1);
    DivStep100(y - 1);
    DivStep400(y - 1);
    CenturyDivisibility(y);
  }

  lemma DivStep4(a: int)
    ensures (a + 1) / 4 == a / 4 + (if (a + 1) % 4 == 0 then 1 else 0)
  {
  }

  lemma DivStep100(a: int)
    ensures (a + 1) / 100 == a / 100 + (if (a + 1) % 100 == 0 then 1 else 0)
  {
  }

  lemma DivStep400(a: int)
    ensures (a + 1) / 400 == a / 400 + (if (a + 1) % 400 == 0 then 1 else 0)
  {
  }

  lemma CenturyDivisibility(y: int)
    ensures y % 400 == 0 ==> y % 100 == 0
    ensures y % 100 == 0 ==> y % 4 == 0
  {
  }

  /** Stepping forward one day adds one to the day count. */
  lemma NextDayNumber(d: Date)
    requires d.Valid()
    ensures NextDay(d).Valid() && DayNumber(NextDay(d)) == DayNumber(d) + 1
  {
    if d.day == DaysInMonth(d.year, d.month) {
      MonthStep(d.year, d.month);
      if d.month == 11 {
        YearStep(d.year);
      }
    }
  }

  /** Stepping back one day subtracts one from the day count. */
  lemma PrevDayNumber(d: Date)
    requires d.Valid()
    ensures PrevDay(d).Valid() && DayNumber(PrevDay(d)) == DayNumber(d) - 1
  {
    if d.day == 1 {
      if d.month > 0 {
        MonthStep(d.year, d.month - 1);
      } else {
        YearStep(d.year - 1);
        MonthStep(d.year - 1, 11);
      }
    }
  }

  /** `d` moved by `k` whole days, as setDate(getDate() + k) does. */
  function AddDays(d: Date, k: int): (r: Date)
    requires d.Valid()
    ensures r.Valid() && DayNumber(r) == DayNumber(d) + k
    decreases if k < 0 then -k else k
  {
    if k == 0 then d
    else if k > 0 then
      var p := AddDays(d, k - 1);
      NextDayNumber(p);
      NextDay(p)
    else
      var p := AddDays(d, k + 1);
      PrevDayNumber(p);
      PrevDay(p)
  }

  lemma DaysBeforeMonthBounds(y: int, m: int, day: int)
    requires 0 <= m < 12 && 1 <= day <= DaysInMonth(y, m)
    ensures 0 <= DaysBeforeMonth(y, m) + day - 1 < YearLength(y)
  {
  }

  /** Months of one year occupy disjoint ranges of day counts. */
  lemma DaysBeforeMonthMonotone(y: int, m1: int, m2: int)
    requires 0 <= m1 < m2 <= 12
    ensures DaysBeforeMonth(y, m1) + DaysInMonth(y, m1) <= DaysBeforeMonth(y, m2)
  {
  }

  lemma {:induction false} DaysBeforeYearMonotone(y1: int, y2: int)
    requires y1 <= y2
    ensures DaysBeforeYear(y1) + 365 * (y2 - y1) <= DaysBeforeYear(y2)
    decreases y2 - y1
  {
    if y1 < y2 {
      DaysBeforeYearMonotone(y1, y2 - 1);
      YearStep(y2 - 1);
    }
  }

  /** The day count of a date lies within its year's range of day counts. */
  lemma DayNumberInYear(d: Date)
    requires d.Valid()
    ensures DaysBeforeYear(d.year) <= DayNumber(d) < DaysBeforeYear(d.year + 1)
  {
    DaysBeforeMonthBounds(d.year, d.month, d.day);
    YearStep(d.year);
  }

  /** Dates with the same day count lie in the same year. */
  lemma SameDayNumberSameYear(a: Date, b: Date)
    requires a.Valid() && b.Valid()
    requires DayNumber(a) == DayNumber(b)
    ensures a.year == b.year
  {
    if a.year < b.year {
      EarlierYearSmallerNumber(a, b);
    } else if b.year < a.year {
      EarlierYearSmallerNumber(b, a);
    }
  }

  /** A date of an earlier year has a smaller day count. */
  lemma EarlierYearSmallerNumber(a: Date, b: Date)
    requires a.Valid() && b.Valid() && a.year < b.year
    ensures DayNumber(a) < DayNumber(b)
  {
    DayNumberInYear(a);
    DayNumberInYear(b);
    DaysBeforeYearMonotone(a.year + 1, b.year);
  }

  /** Different dates have different day counts: the day count is a faithful
      numbering of the calendar. */
  lemma DayNumberInjective(a: Date, b: Date)
    requires a.Valid() && b.Valid()
    requires DayNumber(a) == DayNumber(b)
    ensures a == b
  {
    SameDayNumberSameYear(a, b);
    DaysBeforeMonthBounds(a.year, a.month, a.day);
    DaysBeforeMonthBounds(b.year, b.month, b.day);
    if a.month < b.month {
      DaysBeforeMonthMonotone(a.year, a.month, b.month);
    } else if b.month < a.month {
      DaysBeforeMonthMonotone(a.year, b.month, a.month);
    }
  }

  /** Two dates with the same month number but different years are far apart. */
  lemma SameMonthOtherYearFarApart(a: Date, b: Date)
    requires a.Valid() && b.Valid()
    requires a.month == b.month && a.year < b.year
    ensures DayNumber(b) - DayNumber(a) > 300
  {
    DaysBeforeYearMonotone(a.year + 1, b.year);
    YearStep(a.year);
  }

  // ---------------------------------------------------------------- formatDate

  /** `${year}`: the decimal text of the year, with a minus sign for a negative year. */
  function YearText(y: int): string
  {
    if y < 0 then "-" + NatText(-y) else NatText(y)
  }

  /** formatDate: `${year}-${month + 1 padded to 2}-${day padded to 2}`. */
  function FormatDate(d: Date): string
    requires d.Valid()
  {
    YearText(d.year) + "-" + Pad2(d.month + 1) + "-" + Pad2(d.day)
  }

  /** The year part of a date key: optional minus sign, then digits. */
  function ParseYear(t: string): Option<int>
  {
    if |t| >= 2 && t[0] == '-' && AllDigits(t[1..]) then Some(0 - ParseNat(t[1..]))
    else if |t| >= 1 && AllDigits(t) then Some(ParseNat(t))
    else None
  }

  /** Reads a `Y-MM-DD` key back into a date; None for anything formatDate could
      not have produced. */
  function ParseDate(s: string): Option<Date>
  {
    if |s| < 7 then None
    else
      var y, mm, dd := s[..|s| - 6], s[|s| - 5..|s| - 3], s[|s| - 2..];
      if s[|s| - 6] != '-' || s[|s| - 3] != '-' || !AllDigits(mm) || !AllDigits(dd) then None
      else
        match ParseYear(y)
        case None => None
        case Some(year) =>
          var d := Date(year, ParseNat(mm) - 1, ParseNat(dd));
          if d.Valid() then Some(d) else None
  }

  lemma YearTextRoundTrip(y: int)
    ensures |YearText(y)| >= 1 && ParseYear(YearText(y)) == Some(y)
  {
    if y < 0 {
      NegativeYearRoundTrip(y);
    } else {
      NonNegativeYearRoundTrip(y);
    }
  }

  lemma NegativeYearRoundTrip(y: int)
    requires y < 0
    ensures |YearText(y)| >= 2 && ParseYear(YearText(y)) == Some(y)
  {
    var t := YearText(y);
    assert t[0] == '-' && t[1..] == NatText(-y);
    ParseNatText(-y);
  }

  lemma NonNegativeYearRoundTrip(y: int)
    requires y >= 0
    ensures |YearText(y)| >= 1 && ParseYear(YearText(y)) == Some(y)
  {
    var t := YearText(y);
    assert t == NatText(y) && IsDigit(t[0]);
    ParseNatText(y);
  }

  /** The three parts of a `Y-MM-DD` key sit where ParseDate looks for them. */
  lemma KeyParts(y: string, mm: string, dd: string)
    requires |mm| == 2 && |dd| == 2
    ensures var s := y + "-" + mm + "-" + dd;
      |s| == |y| + 6 && s[..|s| - 6] == y && s[|s| - 5..|s| - 3] == mm && s[|s| - 2..] == dd &&
      s[|s| - 6] == '-' && s[|s| - 3] == '-'
  {
  }

  /** ParseDate reads a key assembled from parts that each read back correctly. */
  lemma ParseDateOfParts(y: string, mm: string, dd: string, d: Date)
    requires d.Valid() && |y| >= 1 && ParseYear(y) == Some(d.year)
    requires |mm| == 2 && AllDigits(mm) && ParseNat(mm) == d.month + 1
    requires |dd| == 2 && AllDigits(dd) && ParseNat(dd) == d.day
    ensures ParseDate(y + "-" + mm + "-" + dd) == Some(d)
  {
    KeyParts(y, mm, dd);
  }

  /** Reading a formatted date back gives the date. */
  lemma FormatDateRoundTrip(d: Date)
    requires d.Valid()
    ensures ParseDate(FormatDate(d)) == Some(d)
  {
    var y, mm, dd := YearText(d.year), Pad2(d.month + 1), Pad2(d.day);
    YearTextRoundTrip(d.year);
    Pad2RoundTrip(d.month + 1);
    Pad2RoundTrip(d.day);
    ParseDateOfParts(y, mm, dd, d);
  }

  /** formatDate never gives two different dates the same key. */
  lemma FormatDateInjective(a: Date, b: Date)
    requires a.Valid() && b.Valid()
    requires FormatDate(a) == FormatDate(b)
    ensures a == b
  {
    FormatDateRoundTrip(a);
    FormatDateRoundTrip(b);
  }

  /** Different days get different keys. */
  lemma DistinctDaysDistinctKeys(a: Date, b: Date)
    requires a.Valid() && b.Valid()
    requires DayNumber(a) != DayNumber(b)
    ensures FormatDate(a) != FormatDate(b)
  {
    if FormatDate(a) == FormatDate(b) {
      FormatDateInjective(a, b);
    }
  }

  /** For the years 1000..9999 the key has the fixed `YYYY-MM-DD` shape of the
      full-date production of RFC 3339, section 5.6: ten characters, digits
      everywhere except the dashes at positions 4 and 7. */
  lemma FormatDateFullDate(d: Date)
    requires d.Valid() && 1000 <= d.year <= 9999
    ensures |FormatDate(d)| == 10
    ensures forall i :: 0 <= i < 10 && i != 4 && i != 7 ==> IsDigit(FormatDate(d)[i])
    ensures FormatDate(d)[4] == '-' && FormatDate(d)[7] == '-'
  {
    NatTextLength(d.year);
    Pad2RoundTrip(d.month + 1);
    Pad2RoundTrip(d.day);
    var y, mm, dd := YearText(d.year), Pad2(d.month + 1), Pad2(d.day);
    var s := FormatDate(d);
    assert s == y + "-" + mm + "-" + dd;
    forall i | 0 <= i < 10 && i != 4 && i != 7 ensures IsDigit(s[i]) {
      if i < 4 { assert s[i] == y[i]; }
      else if i < 7 { assert s[i] == mm[i - 5]; }
      else { assert s[i] == dd[i - 8]; }
    }
  }

  /** 1 March 2024 is a Friday. */
  lemma March2024StartsOnFriday()
    ensures Weekday(Date(2024, 2, 1)) == 5
  {
  }

  /** 1 January 1970 is a Thursday. */
  lemma Epoch1970IsThursday()
    ensures Weekday(Date(1970, 0, 1)) == 4
  {
  }
}

/** Proleptic Gregorian calendar arithmetic on day numbers, where day 0 is
    1970-01-01 (the Unix epoch). This is what the time dimension needs from a
    millisecond timestamp: year, month, day, weekday (Monday = 0) and the ISO
    8601 week number (section 4.1.4 of ISO 8601:2004: week 1 is the week that
    holds the year's first Thursday, weeks run Monday to Sunday). */
module Calendar {

  datatype Date = Date(year: int, month: int, day: int)

  predicate IsLeap(y: int) {
    y % 4 == 0 && (y % 100 != 0 || y % 400 == 0)
  }

  function DaysInYear(y: int): int {
    if IsLeap(y) then 366 else 365
  }

  function DaysInMonth(y: int, m: int): int
    requires 1 <= m <= 12
  {
    if m == 2 then (if IsLeap(y) then 29 else 28)
    else if m == 4 || m == 6 || m == 9 || m == 11 then 30
    else 31
  }

  predicate ValidDate(d: Date) {
    1 <= d.month <= 12 && 1 <= d.day <= DaysInMonth(d.year, d.month)
  }

  /** Days of year y before the first day of month m. */
  function DaysBeforeMonth(y: int, m: int): int
    requires 1 <= m <= 12
  {
    [0, 31, 59, 90, 120, 151, 181, 212, 243, 273, 304, 334][m - 1]
      + (if m > 2 && IsLeap(y) then 1 else 0)
  }

  /** The month table agrees with the month lengths: each month starts where
      the previous one ends, and December ends where the year ends. */
  lemma DaysBeforeMonthStep(y: int, m: int)
    requires 1 <= m <= 12
    ensures m < 12 ==> DaysBeforeMonth(y, m + 1) == DaysBeforeMonth(y, m) + DaysInMonth(y, m)
    ensures m == 12 ==> DaysBeforeMonth(y, m) + DaysInMonth(y, m) == DaysInYear(y)
  {
  }

  /** Later months start later: month m1 ends no later than month m2 starts. */
  lemma DaysBeforeMonthMonotone(y: int, m1: int, m2: int)
    requires 1 <= m1 < m2 <= 12
    ensures DaysBeforeMonth(y, m1) + DaysInMonth(y, m1) <= DaysBeforeMonth(y, m2)
  {
    DaysBeforeMonthStep(y, m1);
  }

  /** Leap years among the years 1 .. y-1 (with floor division, so that the
      count also extends below year 1 and differences stay right). */
  function LeapsBefore(y: int): int {
    (y - 1) / 4 - (y - 1) / 100 + (y - 1) / 400
  }

  /** Day number of January 1 of year y. */
  function YearStart(y: int): int {
    365 * (y - 1970) + LeapsBefore(y) - LeapsBefore(1970)
  }

  /** Division by the calendar's constants: x == k * q + r with 0 <= r < k
      determines x / k and x % k. */
  lemma DivModOf(x: int, k: int, q: int, r: int)
    requires k == 4 || k == 100 || k == 400 || k == 7
    requires 0 <= r < k && x == k * q + r
    ensures x / k == q && x % k == r
  {
  }

  /** Going from y - 1 to y, the count of multiples of k grows by one
      exactly when y is a multiple of k. */
  lemma FloorStep(y: int, k: int)
    requires k == 4 || k == 100 || k == 400
    ensures y / k - (y - 1) / k == if y % k == 0 then 1 else 0
  {
    var q, r := (y - 1) / k, (y - 1) % k;
    if r == k - 1 {
      DivModOf(y, k, q + 1, 0);
    } else {
      DivModOf(y, k, q, r + 1);
    }
  }

  /** YearStart is the day count of the calendar: it is 0 in 1970 and each
      year starts where the previous one, of DaysInYear days, ends. These two
      facts determine YearStart for every year. */
  lemma YearStartStep(y: int)
    ensures YearStart(1970) == 0
    ensures YearStart(y + 1) == YearStart(y) + DaysInYear(y)
  {
    FloorStep(y, 4);
    FloorStep(y, 100);
    FloorStep(y, 400);
    if y % 400 == 0 {
      DivModOf(y, 100, 4 * (y / 400), 0);
    }
    if y % 100 == 0 {
      DivModOf(y, 4, 25 * (y / 100), 0);
    }
  }

  /** Years are at least 365 days long, so earlier years start earlier. */
  lemma {:induction false} YearStartMonotone(a: int, b: int)
    requires a < b
    ensures YearStart(a) + DaysInYear(a) <= YearStart(b)
    ensures YearStart(a) + 365 * (b - a) <= YearStart(b)
    decreases b - a
  {
    YearStartStep(a);
    if a + 1 < b {
      YearStartMonotone(a + 1, b);
    }
  }

  /** Day number of a date. */
  function DayNumber(d: Date): int
    requires ValidDate(d)
  {
    YearStart(d.year) + DaysBeforeMonth(d.year, d.month) + d.day - 1
  }

  /** Every date lies inside its year. */
  lemma DayNumberInYear(d: Date)
    requires ValidDate(d)
    ensures YearStart(d.year) <= DayNumber(d) < YearStart(d.year + 1)
  {
    YearStartStep(d.year);
    DaysBeforeMonthStep(d.year, d.month);
    if d.month < 12 {
      DaysBeforeMonthMonotone(d.year, d.month, 12);
      DaysBeforeMonthStep(d.year, 12);
    }
  }

  /** A day number lies in exactly one year. */
  lemma YearUnique(n: int, y1: int, y2: int)
    requires YearStart(y1) <= n < YearStart(y1 + 1)
    requires YearStart(y2) <= n < YearStart(y2 + 1)
    ensures y1 == y2
  {
    if y1 < y2 {
      YearStartMonotone(y1, y2);
      YearStartStep(y1);
    } else if y2 < y1 {
      YearStartMonotone(y2, y1);
      YearStartStep(y2);
    }
  }

  /** The date at offset doy (0-based) into year y, searching the months
      downwards from month m. */
  function FindMonth(y: int, doy: int, m: int): (d: Date)
    requires 1 <= m <= 12
    requires 0 <= doy < DaysBeforeMonth(y, m) + DaysInMonth(y, m)
    ensures ValidDate(d) && d.year == y && d.month <= m
    ensures DaysBeforeMonth(y, d.month) + d.day - 1 == doy
    decreases m
  {
    if doy >= DaysBeforeMonth(y, m) then
      Date(y, m, doy - DaysBeforeMonth(y, m) + 1)
    else
      DaysBeforeMonthStep(y, m - 1);
      FindMonth(y, doy, m - 1)
  }

  /** The year holding day n and n's offset into it, by splitting the days
      since 0001-01-01 into 400-year cycles (146097 days), centuries (36524
      days, the last one of a cycle one day longer), 4-year groups (1461
      days, the last one of a century a day shorter except in the cycle's
      last century) and single years (365 days, the last one of a group a day
      longer). */
  function YearOfDay(n: int): (r: (int, int))
    ensures 0 <= r.1 < DaysInYear(r.0)
    ensures YearStart(r.0) + r.1 == n
  {
    var z := n + 719162;
    var era := z / 146097;
    var r400 := z % 146097;
    var c := if r400 / 36524 < 3 then r400 / 36524 else 3;
    var r100 := r400 - 36524 * c;
    var q := r100 / 1461;
    var r4 := r100 % 1461;
    var a := if r4 / 365 < 3 then r4 / 365 else 3;
    var doy := r4 - 365 * a;
    var y := 400 * era + 100 * c + 4 * q + a + 1;
    assert 0 <= c <= 3 && 0 <= q <= 24 && 0 <= a <= 3 && 0 <= doy <= 365;
    assert c < 3 ==> r100 <= 36523;
    assert a < 3 ==> doy <= 364;
    CycleLeapYears(era, c, q, a);
    assert doy == 365 ==> IsLeap(y) by {
      if doy == 365 {
        assert a == 3 && r4 == 1460;
        LeapOfCycleYear(era, c, q, r100);
      }
    }
    (y, doy)
  }

  /** The leap years before a year given by its place in the 400-year cycle. */
  lemma CycleLeapYears(era: int, c: int, q: int, a: int)
    requires 0 <= c <= 3 && 0 <= q <= 24 && 0 <= a <= 3
    ensures YearStart(400 * era + 100 * c + 4 * q + a + 1)
         == 146097 * era + 36524 * c + 1461 * q + 365 * a - 719162
  {
    var x := 400 * era + 100 * c + 4 * q + a;
    DivModOf(x, 4, 100 * era + 25 * c + q, a);
    DivModOf(x, 100, 4 * era + c, 4 * q + a);
    DivModOf(x, 400, era, 100 * c + 4 * q + a);
    DivModOf(1969, 4, 492, 1);
    DivModOf(1969, 100, 19, 69);
    DivModOf(1969, 400, 4, 369);
  }

  /** The last year of a 4-year group is a leap year, unless it ends a century
      other than the last one of the cycle; a group that long only fits in
      the last century. */
  lemma LeapOfCycleYear(era: int, c: int, q: int, r100: int)
    requires 0 <= c <= 3 && 0 <= q <= 24
    requires r100 == 1461 * q + 1460
    requires c < 3 ==> r100 <= 36523
    ensures IsLeap(400 * era + 100 * c + 4 * q + 4)
  {
    var y := 400 * era + 100 * c + 4 * q + 4;
    DivModOf(y, 4, 100 * era + 25 * c + q + 1, 0);
    if q == 24 {
      assert c == 3;
      DivModOf(y, 400, era + 1, 0);
    } else {
      DivModOf(y, 100, 4 * era + c, 4 * q + 4);
    }
  }

  /** The calendar date of day number n. */
  function CivilFromDays(n: int): (d: Date)
    ensures ValidDate(d)
  {
    var (y, doy) := YearOfDay(n);
    DaysBeforeMonthStep(y, 12);
    FindMonth(y, doy, 12)
  }

  /** CivilFromDays names the day it is given. */
  lemma CivilFromDaysCorrect(n: int)
    ensures DayNumber(CivilFromDays(n)) == n
  {
  }

  /** A valid date is the only one with its day number: CivilFromDays
      inverts DayNumber. */
  lemma CivilFromDaysUnique(d: Date)
    requires ValidDate(d)
    ensures CivilFromDays(DayNumber(d)) == d
  {
    CivilFromDaysCorrect(DayNumber(d));
    DayNumberUnique(d, CivilFromDays(DayNumber(d)));
  }

  /** Distinct valid dates have distinct day numbers. */
  lemma DayNumberUnique(d1: Date, d2: Date)
    requires ValidDate(d1) && ValidDate(d2)
    requires DayNumber(d1) == DayNumber(d2)
    ensures d1 == d2
  {
    DayNumberInYear(d1);
    DayNumberInYear(d2);
    YearUnique(DayNumber(d1), d1.year, d2.year);
    var y := d1.year;
    if d1.month < d2.month {
      DaysBeforeMonthMonotone(y, d1.month, d2.month);
    } else if d2.month < d1.month {
      DaysBeforeMonthMonotone(y, d2.month, d1.month);
    }
  }

  /** Weekday of day n, Monday = 0; 1970-01-01 was a Thursday. */
  function Weekday(n: int): (w: int)
    ensures 0 <= w <= 6
  {
    (n + 3) % 7
  }

  /** ISO week number from the 1-based day of the year, the weekday
      (Monday = 0), the day of the month and whether the previous year was a
      leap year, by the ordinal-date formula a date library uses: with the
      corrections for days whose week belongs to the previous year (week 52
      or 53) or to the next one (week 1). */
  function OrdinalWeek(doy: int, dow: int, day: int, prevLeap: bool): int {
    var w := (doy - 1) - dow + 3;
    if w >= 0 then
      var week := w / 7 + 1;
      if week == 53 && 31 - day + dow < 3 then 1 else week
    else if w > -2 || (w == -2 && prevLeap) then 53
    else 52
  }

  /** The ordinal-date formula applied to a date and its weekday. */
  function DateWeek(d: Date, dow: int): int
    requires ValidDate(d)
  {
    OrdinalWeek(DaysBeforeMonth(d.year, d.month) + d.day, dow, d.day, IsLeap(d.year - 1))
  }

  /** ISO week number of day n, as the time dimension computes it. */
  function IsoWeek(n: int): int {
    DateWeek(CivilFromDays(n), Weekday(n))
  }

  /** The ISO 8601 week number of day n, by its definition: weeks run
      Monday to Sunday and belong to the year that holds their Thursday;
      week w of a year is the one whose Thursday is 7 * (w - 1) to
      7 * w - 1 days after the year's first day. */
  ghost predicate IsIsoWeek(n: int, week: int) {
    var th := n - Weekday(n) + 3;
    exists y :: InYear(th, y) && week == (th - YearStart(y)) / 7 + 1
  }

  /** Day n lies in year y. */
  predicate InYear(n: int, y: int) {
    YearStart(y) <= n < YearStart(y + 1)
  }

  /** A day has one ISO week number. */
  lemma IsoWeekUnique(n: int, w1: int, w2: int)
    requires IsIsoWeek(n, w1) && IsIsoWeek(n, w2)
    ensures w1 == w2
  {
    var th := n - Weekday(n) + 3;
    var y1 :| InYear(th, y1) && w1 == (th - YearStart(y1)) / 7 + 1;
    var y2 :| InYear(th, y2) && w2 == (th - YearStart(y2)) / 7 + 1;
    ThursdayWeekUnique(th, y1, y2, w1, w2);
  }

  lemma ThursdayWeekUnique(th: int, y1: int, y2: int, w1: int, w2: int)
    requires InYear(th, y1) && w1 == (th - YearStart(y1)) / 7 + 1
    requires InYear(th, y2) && w2 == (th - YearStart(y2)) / 7 + 1
    ensures w1 == w2
  {
    YearUnique(th, y1, y2);
  }

  /** The three cases of the ordinal-date formula for the 1-based day doy of
      a year of L days: the Thursday of the week (w days after the start of
      the year) falls in the previous year, in this year or in the next one. */
  lemma OrdinalWeekCases(doy: int, dow: int, day: int, prevLeap: bool, L: int)
    requires 0 <= dow <= 6 && 1 <= doy <= L
    requires L == 365 || L == 366
    requires doy > L - 31 ==> day == doy - (L - 31)
    ensures var w := (doy - 1) - dow + 3;
      var week := OrdinalWeek(doy, dow, day, prevLeap);
      && (w < 0 ==> week == (w + if prevLeap then 366 else 365) / 7 + 1)
      && (0 <= w < L ==> week == w / 7 + 1)
      && (L <= w ==> week == (w - L) / 7 + 1)
      && 1 <= week <= 53
  {
  }

  /** The formula computes the ISO week, and ISO weeks are numbered 1..53. */
  lemma IsoWeekCorrect(n: int)
    ensures IsIsoWeek(n, IsoWeek(n))
    ensures 1 <= IsoWeek(n) <= 53
  {
    CivilFromDaysCorrect(n);
    DateWeekCorrect(CivilFromDays(n), n);
  }

  /** The formula, applied to a valid date, gives the ISO week of its day
      number. */
  lemma DateWeekCorrect(d: Date, n: int)
    requires ValidDate(d) && DayNumber(d) == n
    ensures IsIsoWeek(n, DateWeek(d, Weekday(n)))
    ensures 1 <= DateWeek(d, Weekday(n)) <= 53
  {
    var y := d.year;
    var dow := Weekday(n);
    var doy := DaysBeforeMonth(y, d.month) + d.day;
    DayOfYearFacts(d);
    OrdinalWeekCases(doy, dow, d.day, IsLeap(y - 1), DaysInYear(y));
    ThursdayWeek(n - dow + 3, y, (doy - 1) - dow + 3, DateWeek(d, dow));
  }

  /** When the Thursday th of a week is w days after the start of year y,
      with w at most 3 days before it and 3 days past its end, the week is
      counted in the previous year, in y or in the next year. */
  lemma ThursdayWeek(th: int, y: int, w: int, week: int)
    requires th == YearStart(y) + w
    requires -3 <= w < DaysInYear(y) + 3
    requires w < 0 ==> week == (w + DaysInYear(y - 1)) / 7 + 1
    requires 0 <= w < DaysInYear(y) ==> week == w / 7 + 1
    requires DaysInYear(y) <= w ==> week == (w - DaysInYear(y)) / 7 + 1
    ensures exists y' :: InYear(th, y') && week == (th - YearStart(y')) / 7 + 1
  {
    if w < 0 {
      YearStartStep(y - 1);
      WeekInYear(th, y - 1, w + DaysInYear(y - 1), week);
    } else if w < DaysInYear(y) {
      WeekInYear(th, y, w, week);
    } else {
      YearStartStep(y);
      WeekInYear(th, y + 1, w - DaysInYear(y), week);
    }
  }

  /** Day th, w days into year y, lies in y and in block w / 7 of it. */
  lemma WeekInYear(th: int, y: int, w: int, week: int)
    requires th == YearStart(y) + w && 0 <= w < DaysInYear(y)
    requires week == w / 7 + 1
    ensures InYear(th, y) && week == (th - YearStart(y)) / 7 + 1
  {
    YearStartStep(y);
  }

  /** The 1-based day of the year of a date lies within its year, and the
      last 31 days of the year are those of December. */
  lemma DayOfYearFacts(d: Date)
    requires ValidDate(d)
    ensures var doy := DaysBeforeMonth(d.year, d.month) + d.day;
      && 1 <= doy <= DaysInYear(d.year)
      && (doy > DaysInYear(d.year) - 31 ==> d.day == doy - (DaysInYear(d.year) - 31))
  {
    DaysBeforeMonthStep(d.year, 12);
    if d.month < 12 {
      DaysBeforeMonthMonotone(d.year, d.month, 12);
    }
  }

  /** All days of a Monday-to-Sunday week have the same ISO week number. */
  lemma IsoWeekConstantInWeek(n: int, k: int)
    requires 0 <= k <= 6
    requires Weekday(n) == 0
    ensures Weekday(n + k) == k
    ensures forall w :: IsIsoWeek(n + k, w) <==> IsIsoWeek(n, w)
  {
    DivModOf(n + k + 3, 7, (n + 3) / 7, k);
  }
}

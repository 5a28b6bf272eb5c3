/**
 * The UTC calendar breakdown behind `time.gmtime`: whole seconds since
 * 1970-01-01 00:00:00 UTC to year, month, day, hour, minute, second and weekday
 * in the proleptic Gregorian calendar, and its inverse (`calendar.timegm`).
 * Seconds before the epoch count backwards, with days rounded down as gmtime does.
 */
module Calendar {

  const EpochYear := 1970
  const SecondsPerDay := 86400

  predicate IsLeapYear(y: int) {
    y % 4 == 0 && (y % 100 != 0 || y % 400 == 0)
  }

  function DaysInYear(y: int): int {
    if IsLeapYear(y) then 366 else 365
  }

  function DaysInMonth(y: int, m: int): int
    requires 1 <= m <= 12
  {
    if m == 2 then (if IsLeapYear(y) then 29 else 28)
    else if m == 4 || m == 6 || m == 9 || m == 11 then 30
    else 31
  }

  /** Days of year `y` before the first of month `m` (`m == 13` gives the whole year). */
  function DaysBeforeMonth(y: int, m: int): int
    requires 1 <= m <= 13
  {
    [0, 31, 59, 90, 120, 151, 181, 212, 243, 273, 304, 334, 365][m - 1]
    + (if m > 2 && IsLeapYear(y) then 1 else 0)
  }

  /** The cumulative table agrees with the month lengths. */
  lemma DaysBeforeMonthStep(y: int, m: int)
    requires 1 <= m <= 12
    ensures DaysBeforeMonth(y, m + 1) == DaysBeforeMonth(y, m) + DaysInMonth(y, m)
  {
  }

  /** Days from 1970-01-01 to January 1st of year `y` (negative before 1970). */
  function YearStart(y: int): int
    decreases if y < EpochYear then EpochYear - y else y - EpochYear
  {
    if y == EpochYear then 0
    else if y > EpochYear then YearStart(y - 1) + DaysInYear(y - 1)
    else YearStart(y + 1) - DaysInYear(y)
  }

  lemma YearStartStep(y: int)
    ensures YearStart(y + 1) == YearStart(y) + DaysInYear(y)
  {
  }

  /** Leap years in (0, x] less those in (x, 0]: `x/4 - x/100 + x/400` with rounding down. */
  function Leaps(x: int): int {
    x / 4 - x / 100 + x / 400
  }

  lemma LeapsStep(x: int)
    ensures Leaps(x) - Leaps(x - 1) == if IsLeapYear(x) then 1 else 0
  {
    DivStep(x, 4);
    DivStep(x, 100);
    DivStep(x, 400);
    MultipleOf(x);
  }

  /** Going down from `x` to `x - 1` lowers `x / d` exactly when `d` divides `x`. */
  lemma DivStep(x: int, d: int)
    requires d == 4 || d == 100 || d == 400
    ensures x / d - (x - 1) / d == if x % d == 0 then 1 else 0
  {
    var q, r := x / d, x % d;
    if r == 0 {
      DivOf(x - 1, d, q - 1, d - 1);
    } else {
      DivOf(x - 1, d, q, r - 1);
    }
  }

  /** Euclidean division by a positive literal is determined by quotient and remainder. */
  lemma DivOf(x: int, d: int, q: int, r: int)
    requires d == 4 || d == 100 || d == 400
    requires x == d * q + r && 0 <= r < d
    ensures x / d == q
  {
    if d == 4 {
      assert x == 4 * q + r;
    } else if d == 100 {
      assert x == 100 * q + r;
    } else {
      assert x == 400 * q + r;
    }
  }

  /** A multiple of 400 is a multiple of 100, and a multiple of 100 one of 4. */
  lemma MultipleOf(x: int)
    ensures x % 400 == 0 ==> x % 100 == 0
    ensures x % 100 == 0 ==> x % 4 == 0
  {
    if x % 400 == 0 {
      DivOf(x, 100, 4 * (x / 400), 0);
    }
    if x % 100 == 0 {
      DivOf(x, 4, 25 * (x / 100), 0);
    }
  }

  /**
   * Closed form of `YearStart`: 365 days a year plus one for each leap year
   * in [1970, y), or minus one for each leap year in [y, 1970).
   */
  lemma {:induction false} YearStartClosedForm(y: int)
    ensures YearStart(y) == 365 * (y - EpochYear) + Leaps(y - 1) - Leaps(EpochYear - 1)
    decreases if y < EpochYear then EpochYear - y else y - EpochYear
  {
    if y > EpochYear {
      YearStartClosedForm(y - 1);
      LeapsStep(y - 1);
    } else if y < EpochYear {
      YearStartClosedForm(y + 1);
      LeapsStep(y);
    }
  }

  lemma {:induction false} YearStartMonotone(a: int, b: int)
    requires a < b
    ensures YearStart(a + 1) <= YearStart(b)
    decreases b - a
  {
    YearStartStep(b - 1);
    if a + 1 < b {
      YearStartMonotone(a, b - 1);
    }
  }

  lemma {:induction false} DaysBeforeMonthMonotone(y: int, m: int, n: int)
    requires 1 <= m <= n <= 13
    ensures DaysBeforeMonth(y, m) <= DaysBeforeMonth(y, n)
    decreases n - m
  {
    if m < n {
      DaysBeforeMonthStep(y, n - 1);
      DaysBeforeMonthMonotone(y, m, n - 1);
    }
  }

  lemma DaysBeforeYearEnd(y: int)
    ensures DaysBeforeMonth(y, 13) == DaysInYear(y)
  {
  }

  /** The year containing day `z` counted upwards from year `y`. */
  function YearUp(z: int, y: int): (r: int)
    requires YearStart(y) <= z
    ensures YearStart(r) <= z < YearStart(r + 1)
    decreases z - YearStart(y)
  {
    YearStartStep(y);
    if z < YearStart(y + 1) then y else YearUp(z, y + 1)
  }

  /** The year containing day `z` counted downwards from year `y`. */
  function YearDown(z: int, y: int): (r: int)
    requires z < YearStart(y + 1)
    ensures YearStart(r) <= z < YearStart(r + 1)
    decreases YearStart(y + 1) - z
  {
    YearStartStep(y);
    if YearStart(y) <= z then y else YearDown(z, y - 1)
  }

  /** The year that day `z` (days since 1970-01-01) falls in. */
  function YearOf(z: int): (r: int)
    ensures YearStart(r) <= z < YearStart(r + 1)
  {
    if z >= 0 then YearUp(z, EpochYear) else YearDown(z, EpochYear - 1)
  }

  /** The month that day `doy` (0-based) of year `y` falls in, searched from month `m`. */
  function MonthFrom(y: int, doy: int, m: int): (r: int)
    requires 1 <= m <= 12 && DaysBeforeMonth(y, m) <= doy < DaysInYear(y)
    ensures m <= r <= 12 && DaysBeforeMonth(y, r) <= doy < DaysBeforeMonth(y, r + 1)
    decreases 12 - m
  {
    DaysBeforeYearEnd(y);
    DaysBeforeMonthStep(y, m);
    if m == 12 || doy < DaysBeforeMonth(y, m + 1) then m else MonthFrom(y, doy, m + 1)
  }

  datatype Date = Date(year: int, month: int, day: int)

  predicate ValidDate(d: Date) {
    1 <= d.month <= 12 && 1 <= d.day <= DaysInMonth(d.year, d.month)
  }

  /** Days since 1970-01-01 of a calendar date. */
  function DaysFromCivil(d: Date): int
    requires ValidDate(d)
  {
    YearStart(d.year) + DaysBeforeMonth(d.year, d.month) + d.day - 1
  }

  /** The calendar date of day `z` since 1970-01-01: a real date that counts back to `z`. */
  function CivilFromDays(z: int): (d: Date)
    ensures ValidDate(d) && DaysFromCivil(d) == z
  {
    var y := YearOf(z);
    YearStartStep(y);
    var doy := z - YearStart(y);
    var m := MonthFrom(y, doy, 1);
    DaysBeforeMonthStep(y, m);
    var d := Date(y, m, doy - DaysBeforeMonth(y, m) + 1);
    assert ValidDate(d);
    d
  }

  /** Every date is the image of its own day count: `CivilFromDays` and `DaysFromCivil` are inverse bijections. */
  lemma CivilFromDaysInverse(d: Date)
    requires ValidDate(d)
    ensures CivilFromDays(DaysFromCivil(d)) == d
  {
    DaysFromCivilInjective(d, CivilFromDays(DaysFromCivil(d)));
  }

  /** Two dates with the same day count are the same date. */
  lemma DaysFromCivilInjective(d: Date, e: Date)
    requires ValidDate(d) && ValidDate(e) && DaysFromCivil(d) == DaysFromCivil(e)
    ensures d == e
  {
    var z := DaysFromCivil(d);
    DateWithinYear(d);
    DateWithinYear(e);
    YearUnique(d.year, e.year, z);
    MonthUnique(d.year, z - YearStart(d.year), d.month, e.month);
  }

  /** A date's day count lies in its year, and its day of the year in its month. */
  lemma DateWithinYear(d: Date)
    requires ValidDate(d)
    ensures YearStart(d.year) <= DaysFromCivil(d) < YearStart(d.year + 1)
    ensures DaysBeforeMonth(d.year, d.month) <= DaysFromCivil(d) - YearStart(d.year) < DaysBeforeMonth(d.year, d.month + 1)
  {
    DaysBeforeMonthStep(d.year, d.month);
    DaysBeforeMonthMonotone(d.year, d.month + 1, 13);
    DaysBeforeYearEnd(d.year);
    YearStartStep(d.year);
  }

  /** Years do not overlap: a day lies in one year only. */
  lemma YearUnique(y: int, w: int, z: int)
    requires YearStart(y) <= z < YearStart(y + 1)
    requires YearStart(w) <= z < YearStart(w + 1)
    ensures y == w
  {
    if w < y {
      YearStartMonotone(w, y);
    } else if y < w {
      YearStartMonotone(y, w);
    }
  }

  /** Months do not overlap: a day of the year lies in one month only. */
  lemma MonthUnique(y: int, doy: int, m: int, n: int)
    requires 1 <= m <= 12 && 1 <= n <= 12
    requires DaysBeforeMonth(y, m) <= doy < DaysBeforeMonth(y, m + 1)
    requires DaysBeforeMonth(y, n) <= doy < DaysBeforeMonth(y, n + 1)
    ensures m == n
  {
    if m < n {
      DaysBeforeMonthMonotone(y, m + 1, n);
    } else if n < m {
      DaysBeforeMonthMonotone(y, n + 1, m);
    }
  }

  /** Day of the week of day `z` since 1970-01-01, 0 = Sunday; 1970-01-01 was a Thursday. */
  function Weekday(z: int): int {
    (z + 4) % 7
  }

  /** The fields of a `struct tm` that the timestamp prints. */
  datatype CivilTime = CivilTime(date: Date, hour: int, minute: int, second: int, weekday: int)

  predicate ValidTime(t: CivilTime) {
    ValidDate(t.date) && 0 <= t.hour < 24 && 0 <= t.minute < 60 && 0 <= t.second < 60
    && t.weekday == Weekday(DaysFromCivil(t.date))
  }

  /** `calendar.timegm`: the seconds since the epoch of a UTC calendar time. */
  function Timegm(t: CivilTime): int
    requires ValidTime(t)
  {
    DaysFromCivil(t.date) * SecondsPerDay + t.hour * 3600 + t.minute * 60 + t.second
  }

  /** `time.gmtime(sec)`: a valid calendar time that `Timegm` maps back to `sec`. */
  function Gmtime(sec: int): (t: CivilTime)
    ensures ValidTime(t) && Timegm(t) == sec
  {
    var days := sec / SecondsPerDay;
    var rem := sec % SecondsPerDay;
    CivilTime(CivilFromDays(days), rem / 3600, rem % 3600 / 60, rem % 60, Weekday(days))
  }

  /** `Gmtime` undoes `Timegm`: every valid calendar time is the breakdown of exactly one second count. */
  lemma GmtimeInverse(t: CivilTime)
    requires ValidTime(t)
    ensures Gmtime(Timegm(t)) == t
  {
    var sec := Timegm(t);
    var rem := t.hour * 3600 + t.minute * 60 + t.second;
    assert 0 <= rem < SecondsPerDay;
    assert sec / SecondsPerDay == DaysFromCivil(t.date);
    assert sec % SecondsPerDay == rem;
    CivilFromDaysInverse(t.date);
  }

  /** The epoch itself: Thursday 1 January 1970, midnight. */
  lemma GmtimeEpoch()
    ensures Gmtime(0) == CivilTime(Date(1970, 1, 1), 0, 0, 0, 4)
  {
    var t := CivilTime(Date(1970, 1, 1), 0, 0, 0, 4);
    assert DaysFromCivil(t.date) == 0;
    assert ValidTime(t);
    assert Timegm(t) == 0;
    GmtimeInverse(t);
  }

  /** One billion seconds: Sunday 9 September 2001, 01:46:40. */
  lemma GmtimeBillennium()
    ensures Gmtime(1000000000) == CivilTime(Date(2001, 9, 9), 1, 46, 40, 0)
  {
    var t := CivilTime(Date(2001, 9, 9), 1, 46, 40, 0);
    BillenniumDays();
    assert ValidTime(t);
    assert Timegm(t) == 1000000000;
    GmtimeInverse(t);
  }

  /** 9 September 2001 is day 11574 after the epoch. */
  lemma BillenniumDays()
    ensures ValidDate(Date(2001, 9, 9)) && DaysFromCivil(Date(2001, 9, 9)) == 11574
  {
    YearStart2001();
    assert !IsLeapYear(2001);
    assert DaysBeforeMonth(2001, 9) == 243;
  }

  /** 2001 begins 31 years and 8 leap days after the epoch. */
  lemma YearStart2001()
    ensures YearStart(2001) == 11323
  {
    YearStartClosedForm(2001);
    LeapCounts();
  }

  lemma LeapCounts()
    ensures Leaps(2000) == 485 && Leaps(1969) == 477
  {
    DivOf(2000, 4, 500, 0);
    DivOf(2000, 100, 20, 0);
    DivOf(2000, 400, 5, 0);
    DivOf(1969, 4, 492, 1);
    DivOf(1969, 100, 19, 69);
    DivOf(1969, 400, 4, 369);
  }
}

/**
 * The calendar view of a JavaScript `Date` in local time: year, month (0-based, as `getMonth`),
 * day of month and milliseconds since local midnight. Time zones and daylight saving are not
 * modelled: a day is always 86 400 000 ms long.
 */
module Dates {
  import opened Numbers

  const MsPerDay: int := 86400000

  datatype Timestamp = Timestamp(year: int, month: int, day: int, ms: int)

  predicate IsLeapYear(y: int) {
    y % 4 == 0 && (y % 100 != 0 || y % 400 == 0)
  }

  /** Length of month `m` (0 = January) of year `y`. */
  function DaysInMonth(y: int, m: int): (n: int)
    requires 0 <= m < 12
    ensures 28 <= n <= 31
  {
    if m == 1 then (if IsLeapYear(y) then 29 else 28)
    else if m == 3 || m == 5 || m == 8 || m == 10 then 30
    else 31
  }

  /** A calendar date that exists, at a time of day within that day. */
  predicate ValidTimestamp(t: Timestamp) {
    0 <= t.month < 12 && 1 <= t.day <= DaysInMonth(t.year, t.month) && 0 <= t.ms < MsPerDay
  }

  /**
   * Days since 1970-01-01 of the calendar date of `t` (the proleptic Gregorian
   * `days_from_civil` computation). Two dates have the same `toDateString()`
   * exactly when their day numbers agree; the previous calendar day has the
   * day number one less.
   */
  function DayNumber(t: Timestamp): int {
    DaysFromCivil(t.year, t.month, t.day)
  }

  /** Days since 1970-01-01 of day `day` of month `month` (0-based) of `year`. */
  function DaysFromCivil(year: int, month: int, day: int): int {
    var m := month + 1;
    var y := if m <= 2 then year - 1 else year;
    var era := y / 400;
    var yoe := y - era * 400;
    var mp := if m > 2 then m - 3 else m + 9;
    var doy := (153 * mp + 2) / 5 + day - 1;
    var doe := yoe * 365 + yoe / 4 - yoe / 100 + doy;
    era * 146097 + doe - 719468
  }

  /** `date.getTime()`: milliseconds since the epoch (in local time). */
  function EpochMillis(t: Timestamp): int {
    DayNumber(t) * MsPerDay + t.ms
  }

  /** `a.toDateString() === b.toDateString()`. */
  predicate SameDay(a: Timestamp, b: Timestamp) {
    DayNumber(a) == DayNumber(b)
  }

  /** `new Date(y, m, 1)` with `m` already normalised to 0..11. */
  function MonthStart(y: int, m: int): Timestamp {
    Timestamp(y, m, 1, 0)
  }

  /** Year and month of the month before (`new Date(y, m - 1, 1)`). */
  function PreviousMonth(y: int, m: int): (r: (int, int))
    requires 0 <= m < 12
    ensures 0 <= r.1 < 12
    ensures r.1 == (m - 1) % 12
  {
    if m == 0 then (y - 1, 11) else (y, m - 1)
  }

  /** The first of a month follows the last day of the month before it by one day number. */
  lemma {:induction false} MonthBoundary(y: int, m: int)
    requires 0 <= m < 12
    ensures var (py, pm) := PreviousMonth(y, m);
            DayNumber(MonthStart(y, m)) == DayNumber(Timestamp(py, pm, DaysInMonth(py, pm), 0)) + 1
  {
    if m == 2 {
      MarchBoundary(y);
    } else {
      InYearBoundary(y, m);
    }
  }

  /** March 1st starts a new computation year; the last of February closes the previous one. */
  lemma {:induction false} MarchBoundary(y: int)
    ensures DayNumber(MonthStart(y, 2)) == DayNumber(Timestamp(y, 1, DaysInMonth(y, 1), 0)) + 1
  {
    DayInComputationYear(Timestamp(y, 1, DaysInMonth(y, 1), 0));
    YearLength(y);
  }

  /** Any other first of a month lies in the same computation year as the day before it. */
  lemma {:induction false} InYearBoundary(y: int, m: int)
    requires 0 <= m < 12 && m != 2
    ensures var (py, pm) := PreviousMonth(y, m);
            DayNumber(MonthStart(y, m)) == DayNumber(Timestamp(py, pm, DaysInMonth(py, pm), 0)) + 1
  {
    var (py, pm) := PreviousMonth(y, m);
    DayInComputationYear(MonthStart(y, m));
    DayInComputationYear(Timestamp(py, pm, DaysInMonth(py, pm), 0));
    assert (if pm < 2 then py - 1 else py) == (if m < 2 then y - 1 else y);
    assert DaysFromMarch(m) == DaysFromMarch(pm) + DaysInMonth(py, pm);
  }

  /** Days from March 1st to the first of month `m` (0 = January) in the March-based computation year. */
  function DaysFromMarch(m: int): int
    requires 0 <= m < 12
  {
    [306, 337, 0, 31, 61, 92, 122, 153, 184, 214, 245, 275][m]
  }

  /**
   * The day number of a date is that of March 1st of its computation year (which starts
   * in March, so January and February belong to the year before) plus its offset in it.
   */
  lemma DayInComputationYear(t: Timestamp)
    requires 0 <= t.month < 12
    ensures var cy := if t.month < 2 then t.year - 1 else t.year;
            DayNumber(t) == DayNumber(Timestamp(cy, 2, 1, 0)) + DaysFromMarch(t.month) + t.day - 1
  {
  }

  /** Year and month of the month after (`new Date(y, m + 1, 1)`). */
  function NextMonth(y: int, m: int): (r: (int, int))
    requires 0 <= m < 12
    ensures 0 <= r.1 < 12
    ensures PreviousMonth(r.0, r.1) == (y, m)
  {
    if m == 11 then (y + 1, 0) else (y, m + 1)
  }

  /** Months counted from year 0, so that calendar months compare as integers. */
  function MonthIndex(y: int, m: int): int {
    y * 12 + m
  }

  /** Different calendar months have different indices. */
  lemma MonthIndexInjective(y1: int, m1: int, y2: int, m2: int)
    requires 0 <= m1 < 12 && 0 <= m2 < 12
    ensures MonthIndex(y1, m1) == MonthIndex(y2, m2) <==> y1 == y2 && m1 == m2
  {
  }

  /** A valid timestamp lies between the start of its month and the start of the next month. */
  lemma MonthSpan(d: Timestamp)
    requires ValidTimestamp(d)
    ensures var (ny, nm) := NextMonth(d.year, d.month);
            EpochMillis(MonthStart(d.year, d.month)) <= EpochMillis(d) < EpochMillis(MonthStart(ny, nm))
  {
    var (ny, nm) := NextMonth(d.year, d.month);
    var last := Timestamp(d.year, d.month, DaysInMonth(d.year, d.month), 0);
    assert DayNumber(d) == DayNumber(MonthStart(d.year, d.month)) + d.day - 1;
    assert DayNumber(last) == DayNumber(MonthStart(d.year, d.month)) + DaysInMonth(d.year, d.month) - 1;
    MonthBoundary(ny, nm);
  }

  /** Month starts are ordered like their months. */
  lemma {:induction false} MonthStartOrder(y1: int, m1: int, y2: int, m2: int)
    requires 0 <= m1 < 12 && 0 <= m2 < 12
    requires MonthIndex(y1, m1) <= MonthIndex(y2, m2)
    ensures EpochMillis(MonthStart(y1, m1)) <= EpochMillis(MonthStart(y2, m2))
    decreases MonthIndex(y2, m2) - MonthIndex(y1, m1)
  {
    if MonthIndex(y1, m1) < MonthIndex(y2, m2) {
      var (ny, nm) := NextMonth(y1, m1);
      MonthSpan(MonthStart(y1, m1));
      MonthStartOrder(ny, nm, y2, m2);
    } else {
      assert y1 == y2 && m1 == m2;
    }
  }

  /**
   * A valid timestamp is at or after `new Date(y, m, 1)` exactly when its own month is
   * month `m` of year `y` or a later one.
   */
  lemma AtOrAfterMonthStart(d: Timestamp, y: int, m: int)
    requires ValidTimestamp(d) && 0 <= m < 12
    ensures EpochMillis(d) >= EpochMillis(MonthStart(y, m)) <==> MonthIndex(d.year, d.month) >= MonthIndex(y, m)
  {
    MonthSpan(d);
    if MonthIndex(d.year, d.month) >= MonthIndex(y, m) {
      MonthStartOrder(y, m, d.year, d.month);
    } else {
      var (ny, nm) := NextMonth(d.year, d.month);
      MonthStartOrder(ny, nm, y, m);
    }
  }

  /** Days from the start of a 400-year era to March 1st of its year `yoe`. */
  function DaysBeforeYearOfEra(yoe: int): int {
    yoe * 365 + yoe / 4 - yoe / 100
  }

  lemma MarchFirst(y: int)
    ensures DayNumber(Timestamp(y, 2, 1, 0)) == (y / 400) * 146097 + DaysBeforeYearOfEra(y - (y / 400) * 400) - 719468
  {
  }

  /** The computation year that starts on March 1st of `y` has 366 days exactly when `y` is a leap year. */
  lemma {:induction false} YearLength(y: int)
    ensures DayNumber(Timestamp(y, 2, 1, 0)) - DayNumber(Timestamp(y - 1, 2, 1, 0))
            == (if IsLeapYear(y) then 366 else 365)
  {
    MarchFirst(y);
    MarchFirst(y - 1);
    var era0, yoe0 := EraOf(y - 1);
    if yoe0 == 399 {
      QuotientUnique(y, 400, era0 + 1, 0);
      LeapWithinEra(y, era0 + 1, 0);
      assert DaysBeforeYearOfEra(399) == 145731 && DaysBeforeYearOfEra(0) == 0;
    } else {
      QuotientUnique(y, 400, era0, yoe0 + 1);
      LeapWithinEra(y, era0, yoe0 + 1);
      DaysBeforeStep(yoe0);
    }
  }

  /** Within an era, a year of the era is one day longer exactly when it is a leap year. */
  lemma DaysBeforeStep(yoe: int)
    requires 0 <= yoe < 399
    ensures DaysBeforeYearOfEra(yoe + 1) - DaysBeforeYearOfEra(yoe)
            == if (yoe + 1) % 4 == 0 && (yoe + 1) % 100 != 0 then 366 else 365
  {
    StepQuotient(yoe, 4);
    StepQuotient(yoe, 100);
    if (yoe + 1) % 100 == 0 {
      var c := (yoe + 1) / 100;
      assert yoe + 1 == 100 * c;
      QuotientUnique(yoe + 1, 4, 25 * c, 0);
    }
  }

  /** Splits a year into its 400-year era and its year within the era. */
  lemma EraOf(y: int) returns (era: int, yoe: int)
    ensures era == y / 400 && yoe == y - (y / 400) * 400
    ensures 0 <= yoe < 400 && y == era * 400 + yoe
  {
    era, yoe := y / 400, y - (y / 400) * 400;
  }

  /** Leap years repeat with a period of 400 years. */
  lemma LeapWithinEra(y: int, era: int, yoe: int)
    requires y == era * 400 + yoe && 0 <= yoe < 400
    ensures IsLeapYear(y) <==> yoe % 4 == 0 && (yoe % 100 != 0 || yoe == 0)
  {
    QuotientUnique(y, 4, era * 100 + yoe / 4, yoe % 4);
    QuotientUnique(y, 100, era * 4 + yoe / 100, yoe % 100);
    QuotientUnique(y, 400, era, yoe);
  }

  /** Incrementing a non-negative dividend raises the quotient exactly when it reaches a multiple. */
  lemma StepQuotient(a: int, k: int)
    requires a >= 0 && k > 0
    ensures (a + 1) / k - a / k == (if (a + 1) % k == 0 then 1 else 0)
  {
    assert a == k * (a / k) + a % k;
    assert a + 1 == k * ((a + 1) / k) + (a + 1) % k;
    if a % k == k - 1 {
      assert a + 1 == k * (a / k + 1);
      QuotientUnique(a + 1, k, a / k + 1, 0);
    } else {
      assert a + 1 == k * (a / k) + (a % k + 1);
      QuotientUnique(a + 1, k, a / k, a % k + 1);
    }
  }
}

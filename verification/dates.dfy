/**
 * The part of java.time.LocalDate that the NIC parser relies on, on the
 * ISO-8601 proleptic Gregorian calendar: leap years, LocalDate.ofYearDay,
 * isAfter, and the whole years of Period.between.
 */
module Dates {
  import opened Common

  /** A LocalDate as (year, month, day); month and day are 1-based. */
  datatype Date = Date(year: int, month: int, day: int)

  /** ISO-8601 leap-year rule (Euclidean and Java remainders agree on zero). */
  predicate IsLeapYear(y: int) {
    y % 4 == 0 && (y % 100 != 0 || y % 400 == 0)
  }

  function DaysInYear(y: int): int {
    if IsLeapYear(y) then 366 else 365
  }

  function DaysInMonth(y: int, m: int): (n: int)
    requires 1 <= m <= 12
    ensures 28 <= n <= 31
  {
    if m == 2 then (if IsLeapYear(y) then 29 else 28)
    else if m == 4 || m == 6 || m == 9 || m == 11 then 30
    else 31
  }

  predicate ValidDate(d: Date) {
    1 <= d.month <= 12 && 1 <= d.day <= DaysInMonth(d.year, d.month)
  }

  /** Days of year y that lie before the first day of month m (m = 13 gives the whole year). */
  function DaysBeforeMonth(y: int, m: int): (n: int)
    requires 1 <= m <= 13
    ensures m == 1 ==> n == 0
    ensures m == 13 ==> n == DaysInYear(y)
    decreases m
  {
    if m == 1 then 0 else DaysBeforeMonth(y, m - 1) + DaysInMonth(y, m - 1)
  }

  /** LocalDate.getDayOfYear. */
  function DayOfYear(d: Date): (n: int)
    requires ValidDate(d)
    ensures 1 <= n <= DaysInYear(d.year)
  {
    DaysBeforeMonthMonotone(d.year, d.month + 1, 13);
    DaysBeforeMonth(d.year, d.month) + d.day
  }

  lemma {:induction false} DaysBeforeMonthMonotone(y: int, m: int, k: int)
    requires 1 <= m <= k <= 13
    ensures DaysBeforeMonth(y, m) <= DaysBeforeMonth(y, k)
    decreases k - m
  {
    if m < k {
      DaysBeforeMonthMonotone(y, m, k - 1);
    }
  }

  /** The month holding day-of-year doy, searching from month m on. */
  function MonthOfDay(y: int, doy: int, m: int): (r: int)
    requires 1 <= m <= 12 && DaysBeforeMonth(y, m) < doy <= DaysInYear(y)
    ensures m <= r <= 12
    ensures DaysBeforeMonth(y, r) < doy <= DaysBeforeMonth(y, r + 1)
    decreases 12 - m
  {
    if doy <= DaysBeforeMonth(y, m + 1) then m else MonthOfDay(y, doy, m + 1)
  }

  /**
   * LocalDate.ofYearDay(y, doy): None where Java throws a DateTimeException,
   * that is when doy is not a day of year y (below 1, or 366 in a common year,
   * or above 366).
   */
  function OfYearDay(y: int, doy: int): (r: Option<Date>)
    ensures r.Some? <==> 1 <= doy <= DaysInYear(y)
    ensures r.Some? ==> ValidDate(r.value) && r.value.year == y && DayOfYear(r.value) == doy
  {
    if 1 <= doy <= DaysInYear(y) then
      var m := MonthOfDay(y, doy, 1);
      Some(Date(y, m, doy - DaysBeforeMonth(y, m)))
    else
      None
  }

  /** OfYearDay inverts DayOfYear: each valid date is rebuilt from its year and day of year. */
  lemma {:induction false} OfYearDayOfDayOfYear(d: Date)
    requires ValidDate(d)
    ensures OfYearDay(d.year, DayOfYear(d)) == Some(d)
  {
    MonthOfDayOfDate(d);
  }

  /** The month search lands on the date's own month. */
  lemma {:induction false} MonthOfDayOfDate(d: Date)
    requires ValidDate(d)
    ensures MonthOfDay(d.year, DayOfYear(d), 1) == d.month
  {
    var y, doy := d.year, DayOfYear(d);
    var m := MonthOfDay(y, doy, 1);
    DaysBeforeMonthStep(y, d.month);
    if m < d.month {
      DaysBeforeMonthMonotone(y, m + 1, d.month);
      assert false;
    } else if m > d.month {
      DaysBeforeMonthMonotone(y, d.month + 1, m);
      assert false;
    }
  }

  lemma DaysBeforeMonthStep(y: int, m: int)
    requires 1 <= m <= 12
    ensures DaysBeforeMonth(y, m + 1) == DaysBeforeMonth(y, m) + DaysInMonth(y, m)
  {
  }

  /** LocalDate.isAfter: a is strictly later than b. */
  predicate IsAfter(a: Date, b: Date) {
    a.year > b.year ||
    (a.year == b.year && (a.month > b.month || (a.month == b.month && a.day > b.day)))
  }

  /**
   * Between valid dates, isAfter orders by year and, within a year, by day of
   * year, which is how LocalDate compares its epoch days.
   */
  lemma IsAfterByDayOfYear(a: Date, b: Date)
    requires ValidDate(a) && ValidDate(b)
    ensures IsAfter(a, b) <==> a.year > b.year || (a.year == b.year && DayOfYear(a) > DayOfYear(b))
  {
    if a.year == b.year && a.month != b.month {
      var (lo, hi) := if a.month < b.month then (a, b) else (b, a);
      DaysBeforeMonthStep(a.year, lo.month);
      DaysBeforeMonthMonotone(a.year, lo.month + 1, hi.month);
    }
  }

  /** Java's long division, which truncates toward zero. */
  function JavaDiv(a: int, b: int): (q: int)
    requires b > 0
    ensures a >= 0 ==> 0 <= a - q * b < b
    ensures a < 0 ==> -b < a - q * b <= 0
  {
    if a >= 0 then a / b else -((-a) / b)
  }

  /** end has not yet reached start's month and day in its year. */
  predicate BeforeAnniversary(start: Date, end: Date) {
    end.month < start.month || (end.month == start.month && end.day < start.day)
  }

  /**
   * The whole months from start to end as LocalDate.until counts them: the
   * difference of the month counts, less one when the day of month is not
   * yet reached (more one in the other direction).
   */
  function UntilMonths(start: Date, end: Date): int {
    var totalMonths := (end.year * 12 + end.month - 1) - (start.year * 12 + start.month - 1);
    var days := end.day - start.day;
    if totalMonths > 0 && days < 0 then totalMonths - 1
    else if totalMonths < 0 && days > 0 then totalMonths + 1
    else totalMonths
  }

  /**
   * Period.between(start, end).getYears(): the whole months divided by twelve,
   * truncating. From a valid date to a later or equal one, that is the number
   * of anniversaries of start reached by end.
   */
  function PeriodYears(start: Date, end: Date): (years: int)
    ensures ValidDate(start) && ValidDate(end) && !IsAfter(start, end) ==>
      years == end.year - start.year - (if BeforeAnniversary(start, end) then 1 else 0)
  {
    if ValidDate(start) && ValidDate(end) && !IsAfter(start, end) then
      WholeYears(start, end);
      JavaDiv(UntilMonths(start, end), 12)
    else
      JavaDiv(UntilMonths(start, end), 12)
  }

  /** The month count of LocalDate.until reduces to the anniversaries reached. */
  lemma WholeYears(start: Date, end: Date)
    requires ValidDate(start) && ValidDate(end) && !IsAfter(start, end)
    ensures JavaDiv(UntilMonths(start, end), 12) ==
      end.year - start.year - (if BeforeAnniversary(start, end) then 1 else 0)
  {
    var k := end.year - start.year;
    var dm := end.month - start.month;
    var totalMonths := (end.year * 12 + end.month - 1) - (start.year * 12 + start.month - 1);
    assert totalMonths == 12 * k + dm;
    var months := UntilMonths(start, end);
    var q := if BeforeAnniversary(start, end) then k - 1 else k;
    assert q >= 0;
    assert 12 * q <= months < 12 * q + 12;
    DivideByTwelve(q, months - 12 * q);
  }

  lemma DivideByTwelve(q: int, r: int)
    requires q >= 0 && 0 <= r < 12
    ensures JavaDiv(12 * q + r, 12) == q
  {
  }
}

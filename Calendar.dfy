/**
 * Gregorian calendar dates as the JavaScript `Date` accessors report them:
 * `getFullYear()`, the 0-based `getMonth()` and the 1-based `getDate()`.
 * A reference notion of "adding days" (NextDay, AddDays) and "adding calendar
 * months" (AddMonths) gives the tenure arithmetic something independent to be
 * checked against.
 */
module Calendar {

  datatype Date = Date(year: int, month: int, day: int)

  /** Gregorian leap years (divisibility does not depend on the sign of the year). */
  predicate IsLeapYear(y: int) {
    y % 4 == 0 && (y % 100 != 0 || y % 400 == 0)
  }

  /** Number of days in month `m` (0 = January) of year `y`. */
  function DaysInMonth(y: int, m: int): (n: int)
    requires 0 <= m < 12
    ensures 28 <= n <= 31
    ensures n == 28 <==> m == 1 && !IsLeapYear(y)
    ensures n == 29 <==> m == 1 && IsLeapYear(y)
    ensures n == 30 <==> m in {3, 5, 8, 10}
  {
    if m == 1 then (if IsLeapYear(y) then 29 else 28)
    else if m == 3 || m == 5 || m == 8 || m == 10 then 30
    else 31
  }

  /** `Math.max` on integers. */
  function Max(a: int, b: int): (r: int)
    ensures r >= a && r >= b && (r == a || r == b)
  {
    if a < b then b else a
  }

  /** A year has 366 days when it is a leap year and 365 otherwise. */
  lemma YearLength(y: int)
    ensures DaysInMonth(y, 0) + DaysInMonth(y, 1) + DaysInMonth(y, 2) + DaysInMonth(y, 3)
            + DaysInMonth(y, 4) + DaysInMonth(y, 5) + DaysInMonth(y, 6) + DaysInMonth(y, 7)
            + DaysInMonth(y, 8) + DaysInMonth(y, 9) + DaysInMonth(y, 10) + DaysInMonth(y, 11)
            == if IsLeapYear(y) then 366 else 365
  {
  }

  /** What every JavaScript `Date` satisfies: a month in 0..11 and a day that exists in it. */
  predicate Valid(d: Date) {
    0 <= d.month < 12 && 1 <= d.day <= DaysInMonth(d.year, d.month)
  }

  /** Months since January of year 0: consecutive calendar months get consecutive indices. */
  function MonthIndex(d: Date): int {
    12 * d.year + d.month
  }

  /** `a` is strictly earlier than `b` (both taken at the same time of day). */
  predicate Before(a: Date, b: Date) {
    a.year < b.year
    || (a.year == b.year && (a.month < b.month || (a.month == b.month && a.day < b.day)))
  }

  /** The day after `d`. */
  function NextDay(d: Date): (r: Date)
    requires Valid(d)
    ensures Valid(r)
    ensures d.day < DaysInMonth(d.year, d.month) ==> r == d.(day := d.day + 1)
    ensures d.day == DaysInMonth(d.year, d.month) ==> r.day == 1 && MonthIndex(r) == MonthIndex(d) + 1
  {
    if d.day < DaysInMonth(d.year, d.month) then d.(day := d.day + 1)
    else if d.month < 11 then Date(d.year, d.month + 1, 1)
    else Date(d.year + 1, 0, 1)
  }

  /** The date `n` days after `d`. */
  function AddDays(d: Date, n: nat): (r: Date)
    requires Valid(d)
    ensures Valid(r)
    decreases n
  {
    if n == 0 then d else AddDays(NextDay(d), n - 1)
  }

  /** The same day-of-month `k` calendar months after `d` (it need not exist). */
  function AddMonths(d: Date, k: nat): (r: Date)
    requires 0 <= d.month < 12
    ensures 0 <= r.month < 12
    ensures MonthIndex(r) == MonthIndex(d) + k
    ensures r.day == d.day
  {
    Date(d.year + (d.month + k) / 12, (d.month + k) % 12, d.day)
  }

  /**
   * `new Date(y, m, 0)`: JavaScript normalises day 0 of month `m` to the
   * last day of the month before, wrapping January back to December of
   * the previous year.
   */
  function DayZero(y: int, m: int): (r: Date)
    requires 0 <= m < 12
    ensures Valid(r)
    ensures MonthIndex(r) == 12 * y + m - 1
    ensures r.day == DaysInMonth(r.year, r.month)
    ensures NextDay(r) == Date(y, m, 1)
  {
    if m == 0 then Date(y - 1, 11, 31) else Date(y, m - 1, DaysInMonth(y, m - 1))
  }

  /** The month index determines the year and the month. */
  lemma MonthIndexInjective(a: Date, b: Date)
    requires 0 <= a.month < 12 && 0 <= b.month < 12
    requires MonthIndex(a) == MonthIndex(b)
    ensures a.year == b.year && a.month == b.month
  {
  }

  /** On valid dates, "earlier" is "earlier month, or same month and earlier day". */
  lemma BeforeByMonthIndex(a: Date, b: Date)
    requires Valid(a) && Valid(b)
    ensures Before(a, b) <==>
              MonthIndex(a) < MonthIndex(b) || (MonthIndex(a) == MonthIndex(b) && a.day < b.day)
  {
    if MonthIndex(a) == MonthIndex(b) {
      MonthIndexInjective(a, b);
    } else if a.year < b.year {
      assert MonthIndex(a) < 12 * a.year + 12 <= MonthIndex(b);
    } else if a.year > b.year {
      assert MonthIndex(b) < 12 * b.year + 12 <= MonthIndex(a);
    }
  }

  /** Adding days without leaving the month only moves the day-of-month. */
  lemma {:induction false} AddDaysWithinMonth(d: Date, n: nat)
    requires Valid(d) && d.day + n <= DaysInMonth(d.year, d.month)
    ensures AddDays(d, n) == d.(day := d.day + n)
    decreases n
  {
    if n > 0 {
      AddDaysWithinMonth(NextDay(d), n - 1);
    }
  }

  /** Adding `a` days and then `b` days is adding `a + b` days. */
  lemma {:induction false} AddDaysAdditive(d: Date, a: nat, b: nat)
    requires Valid(d)
    ensures AddDays(d, a + b) == AddDays(AddDays(d, a), b)
    decreases a
  {
    if a > 0 {
      AddDaysAdditive(NextDay(d), a - 1, b);
    }
  }

  /**
   * Adding days that run past the end of the month, by no more than the next
   * month has, lands in the next month on the day by which the sum overshoots.
   */
  lemma AddDaysAcrossMonthEnd(d: Date, n: nat)
    requires Valid(d)
    requires DaysInMonth(d.year, d.month) < d.day + n
    requires var f := NextDay(d.(day := DaysInMonth(d.year, d.month)));
             d.day + n - DaysInMonth(d.year, d.month) <= DaysInMonth(f.year, f.month)
    ensures AddDays(d, n) ==
              NextDay(d.(day := DaysInMonth(d.year, d.month))).(day := d.day + n - DaysInMonth(d.year, d.month))
  {
    var dim := DaysInMonth(d.year, d.month);
    var toEnd := dim - d.day;
    var rest := n - toEnd - 1;
    AddDaysWithinMonth(d, toEnd);
    var last := d.(day := dim);
    var first := NextDay(last);
    AddDaysWithinMonth(first, rest);
    AddDaysAdditive(d, toEnd, 1 + rest);
    AddDaysAdditive(last, 1, rest);
    assert AddDays(last, 1) == AddDays(first, 0);
  }
}

/**
 * The coarse experience figure of the resume page (`calculateExperience`):
 * the months elapsed since a start date, as an exact real, reported as whole
 * months while the rounded years are under one, and as years to one decimal
 * place from then on. The same function appears again, line for line, in the
 * statistics component; it is modelled once.
 */
module Experience {
  import opened Calendar

  /** `new Date(2024, 3)`: 1 April 2024 (the day defaults to the 1st). */
  const CareerStart: Date := Date(2024, 3, 1)

  datatype Unit = Years | Months

  datatype Experience = Experience(value: real, unit: Unit)

  /** Whole months elapsed plus the day difference counted as 1/30 of a month. */
  function MonthsBetween(start: Date, now: Date): real {
    ((now.year - start.year) * 12 + (now.month - start.month)) as real
    + (now.day - start.day) as real / 30.0
  }

  /** `Math.round`: the nearest integer, a half rounded upwards. */
  function Round(x: real): (r: int)
    ensures r as real - 0.5 <= x < r as real + 0.5
  {
    (x + 0.5).Floor
  }

  /**
   * `+x.toFixed(1)`: `x` to the nearest tenth, a half rounded away from zero
   * (on exact reals, not on binary doubles).
   */
  function RoundToTenth(x: real): (r: real)
    ensures (10.0 * r).Floor as real == 10.0 * r
    ensures x >= 0.0 ==> r - 0.05 <= x < r + 0.05
    ensures x < 0.0 ==> r - 0.05 < x <= r + 0.05
  {
    var t := if x < 0.0 then -Round(-10.0 * x) else Round(10.0 * x);
    TenthsExact(t);
    t as real / 10.0
  }

  /** A whole number of tenths, scaled back up by ten, is that whole number. */
  lemma TenthsExact(t: int)
    ensures 10.0 * (t as real / 10.0) == t as real
    ensures (10.0 * (t as real / 10.0)).Floor == t
  {
  }

  /**
   * A start in the future gives 0 months. Otherwise the unit is Years
   * exactly when at least 11.4 months have elapsed (0.95 years is the least
   * value that rounds to 1.0): then the value is the years to the nearest
   * tenth, at least 1.0. Below that the value is the whole number of months
   * nearest to the months elapsed, between 0 and 11.
   */
  function CalculateExperience(start: Date, now: Date): (e: Experience)
    ensures MonthsBetween(start, now) < 0.0 ==> e == Experience(0.0, Months)
    ensures e.unit == Years <==> MonthsBetween(start, now) >= 11.4
    ensures e.unit == Years ==>
              e.value >= 1.0
              && (10.0 * e.value).Floor as real == 10.0 * e.value
              && e.value - 0.05 <= MonthsBetween(start, now) / 12.0 < e.value + 0.05
    ensures e.unit == Months ==>
              e.value.Floor as real == e.value && 0.0 <= e.value <= 11.0
    ensures e.unit == Months && MonthsBetween(start, now) >= 0.0 ==>
              e.value - 0.5 <= MonthsBetween(start, now) < e.value + 0.5
  {
    var diffInMonths := MonthsBetween(start, now);
    if diffInMonths < 0.0 then Experience(0.0, Months)
    else
      var years := RoundToTenth(diffInMonths / 12.0);
      if years < 1.0 then Experience(Max(0, Round(diffInMonths)) as real, Months)
      else Experience(years, Years)
  }

  /** A start date exactly one year before now gives 1.0 Years. */
  lemma OneYearIsOneYear(start: Date, now: Date)
    requires now == start.(year := start.year + 1)
    ensures CalculateExperience(start, now) == Experience(1.0, Years)
  {
    assert MonthsBetween(start, now) == 12.0;
    assert Round(10.0) == 10;
  }

  /** A start date eleven calendar months before now, on the same day, gives 11 Months. */
  lemma ElevenMonthsAreElevenMonths(start: Date, now: Date)
    requires MonthIndex(now) == MonthIndex(start) + 11 && now.day == start.day
    ensures CalculateExperience(start, now) == Experience(11.0, Months)
  {
    assert MonthsBetween(start, now) == 11.0;
    assert Round(11.0) == 11;
  }

  /**
   * A negative month difference means now is before the start. The converse
   * fails at a month end: one day before a start on the 1st can give exactly 0
   * (see DayBeforeStartIsZero), which is not negative.
   */
  lemma MonthsBetweenSign(start: Date, now: Date)
    requires Valid(start) && Valid(now)
    ensures MonthsBetween(start, now) < 0.0 ==> Before(now, start)
    ensures Before(now, start) ==> MonthsBetween(start, now) <= 0.0
  {
    BeforeByMonthIndex(now, start);
    var k := MonthIndex(now) - MonthIndex(start);
    var d := now.day - start.day;
    assert MonthsBetween(start, now) == k as real + d as real / 30.0;
    assert -30 <= d <= 30;
  }

  /** From 1 April back to 31 March the difference is 0 months, although now is before the start. */
  lemma DayBeforeStartIsZero()
    ensures Before(Date(2024, 2, 31), CareerStart)
    ensures MonthsBetween(CareerStart, Date(2024, 2, 31)) == 0.0
    ensures CalculateExperience(CareerStart, Date(2024, 2, 31)) == Experience(0.0, Months)
  {
    assert Round(0.0) == 0;
  }

  /**
   * A start after now gives 0 months, whether the difference is negative
   * (the early return) or exactly 0 (which rounds to 0).
   */
  lemma BeforeStartIsZero(start: Date, now: Date)
    requires Valid(start) && Valid(now) && Before(now, start)
    ensures CalculateExperience(start, now) == Experience(0.0, Months)
  {
    MonthsBetweenSign(start, now);
    var diff := MonthsBetween(start, now);
    if diff == 0.0 {
      var years := RoundToTenth(diff / 12.0);
      assert (10.0 * years).Floor as real == 10.0 * years;
      assert years == 0.0;
      assert Round(diff) == 0;
    }
  }

  /** From April 2025 on, the page shows its career start in Years. */
  lemma CareerStartYears(now: Date)
    requires Valid(now) && MonthIndex(now) >= MonthIndex(CareerStart) + 12
    ensures CalculateExperience(CareerStart, now).unit == Years
    ensures CalculateExperience(CareerStart, now).value >= 1.0
  {
    assert MonthsBetween(CareerStart, now) >= 12.0;
  }
}

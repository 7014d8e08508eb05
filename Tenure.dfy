/**
 * The fine-grained tenure shown on the resume page
 * (`calculateLexProtectorExperience`): the whole calendar months and the
 * leftover days from a start date to "now", displayed as a string such as
 * "1+ Year 3 Months 2 Days", or "0 Days" when nothing is to be shown.
 */
module Tenure {
  import opened Options
  import opened Calendar
  import opened Decimal
  import opened Words

  /** The start date the page uses: `new Date(2025, 6, 1)`, that is 1 July 2025. */
  const LexProtectorStart: Date := Date(2025, 6, 1)

  /** Whole months and remaining days. */
  datatype Breakdown = Breakdown(months: int, days: int)

  /**
   * The month count and day count as the page computes them: the difference
   * in months, less one when the day-of-month has not been reached yet, in
   * which case the days borrow the length of the month before now's month;
   * finally the month count is clamped at zero.
   */
  function Elapsed(start: Date, now: Date): (b: Breakdown)
    requires Valid(start) && Valid(now)
    ensures b.months >= 0
  {
    var months := 12 * (now.year - start.year) + (now.month - start.month);
    var days := now.day - start.day;
    if days < 0 then Breakdown(Max(0, months - 1), days + DayZero(now.year, now.month).day)
    else Breakdown(Max(0, months), days)
  }

  /** "Year" or "Years", and so on: the plural unless the count is exactly 1. */
  function Plural(noun: string, n: int): string {
    if n != 1 then noun + "s" else noun
  }

  function YearWords(months: nat): seq<string> {
    if months >= 12 then [Show(months / 12) + "+", Plural("Year", months / 12)] else []
  }

  function MonthWords(months: nat): seq<string> {
    if months % 12 > 0 then [Show(months % 12), Plural("Month", months % 12)] else []
  }

  function DayWords(days: int): seq<string> {
    if days > 0 then [Show(days), Plural("Day", days)] else []
  }

  /** Words that can be joined with spaces and split apart again. */
  predicate GoodWords(ws: seq<string>) {
    forall i :: 0 <= i < |ws| ==> NoSpace(ws[i]) && ws[i] != []
  }

  /** The words displayed: the non-zero parts in the order years, months, days, else "0 Days". */
  function DisplayWords(b: Breakdown): (ws: seq<string>)
    requires b.months >= 0
    ensures |ws| >= 2 && GoodWords(ws)
  {
    PartsGood(b);
    var ws := YearWords(b.months) + MonthWords(b.months) + DayWords(b.days);
    if ws == [] then ["0", "Days"] else ws
  }

  lemma PluralShape(noun: string, n: int)
    requires noun != [] && NoSpace(noun)
    ensures Plural(noun, n) != [] && NoSpace(Plural(noun, n)) && Plural(noun, n)[0] == noun[0]
  {
  }

  lemma ShowShape(n: nat)
    ensures NoSpace(Show(n)) && NoSpace(Show(n) + "+")
    ensures var w := Show(n) + "+"; w[|w| - 1] == '+' && w[..|w| - 1] == Show(n)
    ensures Show(n)[|Show(n)| - 1] != '+'
  {
    var s := Show(n);
    assert forall i :: 0 <= i < |s| ==> IsDigit(s[i]);
  }

  /** Two words: a numeral and a noun, the noun's first letter given. */
  lemma PartGood(n: nat, noun: string)
    requires noun != [] && NoSpace(noun)
    ensures GoodWords([Show(n), Plural(noun, n)])
  {
    ShowShape(n);
    PluralShape(noun, n);
  }

  lemma PartsGood(b: Breakdown)
    requires b.months >= 0
    ensures GoodWords(YearWords(b.months) + MonthWords(b.months) + DayWords(b.days))
    ensures GoodWords(["0", "Days"])
  {
    var m: nat := b.months;
    var y, mo, d := YearWords(m), MonthWords(m), DayWords(b.days);
    if m >= 12 {
      ShowShape(m / 12);
      PluralShape("Year", m / 12);
    }
    if m % 12 > 0 {
      PartGood(m % 12, "Month");
    }
    if b.days > 0 {
      PartGood(b.days, "Day");
    }
    assert GoodWords(y) && GoodWords(mo) && GoodWords(d);
    var all := y + mo + d;
    forall i | 0 <= i < |all|
      ensures NoSpace(all[i]) && all[i] != []
    {
      if i < |y| {
        assert all[i] == y[i];
      } else if i < |y| + |mo| {
        assert all[i] == mo[i - |y|];
      } else {
        assert all[i] == d[i - |y| - |mo|];
      }
    }
  }

  function Format(b: Breakdown): string
    requires b.months >= 0
  {
    Join(DisplayWords(b))
  }

  /** What the page displays for a start date and the current date. */
  function Display(start: Date, now: Date): string
    requires Valid(start) && Valid(now)
  {
    if Before(now, start) then "0 Days" else Format(Elapsed(start, now))
  }

  /**
   * Lines 52-115 of the resume page, step by step on mutable locals. The
   * millisecond test `currentDate - startDate < 0` is the date comparison
   * Before, since the start is at midnight.
   */
  method CalculateLexProtectorExperience(start: Date, now: Date) returns (result: string)
    requires Valid(start) && Valid(now)
    ensures Before(now, start) ==> result == "0 Days"
    ensures !Before(now, start) ==> result == Format(Elapsed(start, now))
    ensures result == Display(start, now)
    ensures result != ""
  {
    if Before(now, start) {
      return "0 Days";
    }

    var totalMonths := (now.year - start.year) * 12;
    totalMonths := totalMonths + (now.month - start.month);

    var days := now.day - start.day;
    if days < 0 {
      totalMonths := totalMonths - 1;
      var prevMonth := DayZero(now.year, now.month);
      days := days + prevMonth.day;
    }

    totalMonths := Max(0, totalMonths);
    assert Breakdown(totalMonths, days) == Elapsed(start, now);

    result := FormatExperience(totalMonths, days);
  }

  /**
   * Lines 87-114 of the resume page: append the non-zero parts, a space
   * before each but the first, and fall back to "0 Days".
   */
  method FormatExperience(totalMonths: nat, days: int) returns (result: string)
    ensures result == Format(Breakdown(totalMonths, days))
    ensures result != ""
  {
    result := "";

    if totalMonths >= 12 {
      var experienceYears := totalMonths / 12;
      var part := Show(experienceYears) + "+ Year" + (if experienceYears != 1 then "s" else "");
      result := result + part;
      YearStep(totalMonths);
    } else {
      assert YearWords(totalMonths) == [];
    }
    ghost var words := YearWords(totalMonths);
    assert Written(result, words);

    var experienceMonths := totalMonths % 12;
    if experienceMonths > 0 {
      ghost var before := result;
      if result != "" {
        result := result + " ";
      }
      var part := Show(experienceMonths) + " Month" + (if experienceMonths != 1 then "s" else "");
      result := result + part;
      MonthStep(before, words, totalMonths);
    } else {
      NoWords(words, MonthWords(totalMonths));
    }
    words := words + MonthWords(totalMonths);
    assert Written(result, words);

    if days > 0 {
      ghost var before := result;
      if result != "" {
        result := result + " ";
      }
      var part := Show(days) + " Day" + (if days != 1 then "s" else "");
      result := result + part;
      DayStep(before, words, days);
    } else {
      NoWords(words, DayWords(days));
    }
    words := words + DayWords(days);
    FinishStep(result, totalMonths, days);
    if result == "" {
      result := "0 Days";
    }
    FormatNonEmpty(Breakdown(totalMonths, days));
  }

  lemma NoWords(words: seq<string>, more: seq<string>)
    requires more == []
    ensures words + more == words
  {
  }

  /** Writing the year part into the empty result writes the year words. */
  lemma YearStep(totalMonths: nat)
    requires totalMonths >= 12
    ensures var n := totalMonths / 12;
            Written("" + (Show(n) + "+ Year" + (if n != 1 then "s" else "")), YearWords(totalMonths))
  {
    YearText(totalMonths / 12);
  }

  /** Writing the month part, after a space when needed, writes the month words too. */
  lemma MonthStep(result: string, words: seq<string>, totalMonths: nat)
    requires Written(result, words) && totalMonths % 12 > 0
    ensures var n := totalMonths % 12;
            Written((if result != "" then result + " " else result)
                      + (Show(n) + " Month" + (if n != 1 then "s" else "")),
                    words + MonthWords(totalMonths))
  {
    MonthText(totalMonths);
    AppendStep(result, words, MonthWords(totalMonths));
  }

  /** Writing the day part, after a space when needed, writes the day words too. */
  lemma DayStep(result: string, words: seq<string>, days: int)
    requires Written(result, words) && days > 0
    ensures Written((if result != "" then result + " " else result)
                      + (Show(days) + " Day" + (if days != 1 then "s" else "")),
                    words + DayWords(days))
  {
    DayText(days);
    AppendStep(result, words, DayWords(days));
  }

  /** An empty result after the three parts falls back to "0 Days", which is the display. */
  lemma FinishStep(result: string, totalMonths: nat, days: int)
    requires Written(result, YearWords(totalMonths) + MonthWords(totalMonths) + DayWords(days))
    ensures (if result == "" then "0 Days" else result) == Format(Breakdown(totalMonths, days))
  {
    var words := YearWords(totalMonths) + MonthWords(totalMonths) + DayWords(days);
    JoinEmpty(words);
    if result == "" {
      assert "0 Days" == Join(["0", "Days"]);
    }
  }

  /** `result` holds the join of `words`, none of which is empty. */
  ghost predicate Written(result: string, words: seq<string>) {
    result == Join(words) && forall i :: 0 <= i < |words| ==> words[i] != []
  }

  /**
   * Appending a part, with a separating space when something is already
   * written, writes one more list of words.
   */
  lemma AppendStep(result: string, words: seq<string>, more: seq<string>)
    requires Written(result, words)
    requires |more| == 2 && more[0] != [] && more[1] != []
    ensures Written((if result != "" then result + " " else result) + Join(more), words + more)
  {
    JoinEmpty(words);
    if words == [] {
      assert words + more == more;
    } else {
      JoinAppend(words, more);
    }
  }

  /** The year part as the page writes it is the join of the year words. */
  lemma YearText(n: nat)
    requires n >= 1
    ensures Show(n) + "+ Year" + (if n != 1 then "s" else "") == Join([Show(n) + "+", Plural("Year", n)])
  {
  }

  /** The month part as the page writes it is the join of the month words. */
  lemma MonthText(months: nat)
    requires months % 12 > 0
    ensures var n := months % 12;
            Show(n) + " Month" + (if n != 1 then "s" else "") == Join(MonthWords(months))
  {
  }

  /** The day part as the page writes it is the join of the day words. */
  lemma DayText(n: nat)
    requires n >= 1
    ensures Show(n) + " Day" + (if n != 1 then "s" else "") == Join(DayWords(n))
  {
  }

  // ---------------------------------------------------------------------
  // The calendar arithmetic
  // ---------------------------------------------------------------------

  /**
   * Once now is not before the start, the month count is the month
   * difference less one exactly when a borrow happens, and is never
   * negative before the clamp: the clamp never changes it. A borrow adds
   * the length of the month before now's month (December of the year
   * before, for January).
   */
  lemma ElapsedArithmetic(start: Date, now: Date)
    requires Valid(start) && Valid(now) && !Before(now, start)
    ensures var borrow := now.day < start.day;
            var raw := 12 * (now.year - start.year) + (now.month - start.month)
                       - (if borrow then 1 else 0);
            var prevLength := if now.month == 0 then DaysInMonth(now.year - 1, 11)
                              else DaysInMonth(now.year, now.month - 1);
            raw >= 0
            && Elapsed(start, now).months == raw
            && Elapsed(start, now).days == now.day - start.day + (if borrow then prevLength else 0)
  {
    BeforeByMonthIndex(now, start);
  }

  /**
   * Existence: moving the start forward by the elapsed months and then by the
   * elapsed days reaches now exactly, and fewer days remain than the month
   * reached has, so no further whole month fits. This needs the day-of-month
   * of the start to exist in the month reached.
   */
  lemma ElapsedAddsUp(start: Date, now: Date)
    requires Valid(start) && Valid(now) && !Before(now, start)
    requires Valid(AddMonths(start, Elapsed(start, now).months))
    ensures var b := Elapsed(start, now);
            var a := AddMonths(start, b.months);
            0 <= b.days < DaysInMonth(a.year, a.month) && AddDays(a, b.days) == now
  {
    var b := Elapsed(start, now);
    var a := AddMonths(start, b.months);
    BeforeByMonthIndex(now, start);
    if now.day >= start.day {
      MonthIndexInjective(a, now);
      AddDaysWithinMonth(a, b.days);
    } else {
      var p := DayZero(now.year, now.month);
      MonthIndexInjective(a, p);
      assert a.(day := DaysInMonth(a.year, a.month)) == p;
      AddDaysAcrossMonthEnd(a, b.days);
    }
  }

  /**
   * Uniqueness: any whole number of months and fewer remaining days than the
   * month reached has that lead from the start to now are the elapsed ones
   * (for start days that exist in every month).
   */
  lemma ElapsedUnique(start: Date, now: Date, k: nat, e: nat)
    requires Valid(start) && Valid(now) && start.day <= 28
    requires var a := AddMonths(start, k);
             e < DaysInMonth(a.year, a.month) && AddDays(a, e) == now
    ensures !Before(now, start) && Elapsed(start, now) == Breakdown(k, e)
  {
    var a := AddMonths(start, k);
    var dim := DaysInMonth(a.year, a.month);
    if a.day + e <= dim {
      AddDaysWithinMonth(a, e);
    } else {
      AddDaysAcrossMonthEnd(a, e);
      var p := DayZero(now.year, now.month);
      MonthIndexInjective(a, p);
    }
    BeforeByMonthIndex(now, start);
  }

  /** The page's own start date exists in every month, so no day count is negative. */
  lemma LexProtectorAnchorValid(now: Date)
    requires Valid(now) && !Before(now, LexProtectorStart)
    ensures Valid(AddMonths(LexProtectorStart, Elapsed(LexProtectorStart, now).months))
    ensures Elapsed(LexProtectorStart, now).days >= 0
  {
    ElapsedAddsUp(LexProtectorStart, now);
  }

  /**
   * A large start day can leave a negative day count after the borrow:
   * from 31 January to 1 March (of a common year) the days come to -2, and
   * only the month is shown.
   */
  lemma NegativeRemainderAfterBorrow()
    ensures Elapsed(Date(2025, 0, 31), Date(2025, 2, 1)) == Breakdown(1, -2)
    ensures Display(Date(2025, 0, 31), Date(2025, 2, 1)) == "1 Month"
  {
    assert Show(1) == "1";
  }

  // ---------------------------------------------------------------------
  // Reading the display back
  // ---------------------------------------------------------------------

  /** The count of a part "<n> <noun>" (the noun plural unless n is 1) at the head of `ts`. */
  function ReadPart(ts: seq<string>, noun: string): (r: Option<nat>)
    ensures r.Some? ==> |ts| >= 2
  {
    if |ts| >= 2 then
      match ParseNat(ts[0])
      case Some(n) => if ts[1] == Plural(noun, n) then Some(n) else None
      case None => None
    else None
  }

  /** The count of a year part "<n>+ Year" (n at least 1) at the head of `ts`. */
  function ReadYears(ts: seq<string>): (r: Option<nat>)
    ensures r.Some? ==> |ts| >= 2
  {
    if |ts| >= 2 && |ts[0]| >= 2 && ts[0][|ts[0]| - 1] == '+' then
      match ParseNat(ts[0][..|ts[0]| - 1])
      case Some(n) => if n >= 1 && ts[1] == Plural("Year", n) then Some(n) else None
      case None => None
    else None
  }

  function ParseDays(ts: seq<string>, months: nat): Option<Breakdown> {
    if ts == [] then Some(Breakdown(months, 0))
    else if |ts| == 2 then
      match ReadPart(ts, "Day")
      case Some(d) => Some(Breakdown(months, d))
      case None => None
    else None
  }

  function ParseMonths(ts: seq<string>, years: nat): Option<Breakdown> {
    match ReadPart(ts, "Month")
    case Some(m) =>
      if 1 <= m <= 11 then ParseDays(ts[2..], 12 * years + m) else ParseDays(ts, 12 * years)
    case None => ParseDays(ts, 12 * years)
  }

  function ParseYears(ts: seq<string>): Option<Breakdown> {
    match ReadYears(ts)
    case Some(n) => ParseMonths(ts[2..], n)
    case None => ParseMonths(ts, 0)
  }

  /** Reads a displayed tenure back into months and days. */
  function ParseTenure(s: string): Option<Breakdown> {
    ParseYears(Split(s))
  }

  lemma ReadPartOf(n: nat, noun: string, rest: seq<string>)
    ensures ReadPart([Show(n), Plural(noun, n)] + rest, noun) == Some(n)
  {
    ParseShow(n);
  }

  lemma ReadPartMismatch(n: nat, noun: string, other: string, rest: seq<string>)
    requires noun != [] && other != [] && noun[0] != other[0]
    requires NoSpace(noun) && NoSpace(other)
    ensures ReadPart([Show(n), Plural(noun, n)] + rest, other) == None
  {
    ParseShow(n);
    PluralShape(noun, n);
    PluralShape(other, n);
  }

  lemma ReadYearsOf(n: nat, rest: seq<string>)
    requires n >= 1
    ensures ReadYears([Show(n) + "+", Plural("Year", n)] + rest) == Some(n)
  {
    ShowShape(n);
    ParseShow(n);
  }

  lemma ReadYearsNoPlus(n: nat, w: string, rest: seq<string>)
    ensures ReadYears([Show(n), w] + rest) == None
  {
    ShowShape(n);
  }

  lemma ParseDayWords(days: nat, months: nat)
    ensures ParseDays(DayWords(days), months) == Some(Breakdown(months, days))
  {
    if days > 0 {
      ReadPartOf(days, "Day", []);
      assert [Show(days), Plural("Day", days)] + [] == DayWords(days);
    }
  }

  lemma ParseMonthAndDayWords(months: nat, days: nat)
    ensures ParseMonths(MonthWords(months) + DayWords(days), months / 12)
            == Some(Breakdown(months, days))
  {
    var ts := MonthWords(months) + DayWords(days);
    var m := months % 12;
    assert 12 * (months / 12) + m == months;
    if m > 0 {
      ReadPartOf(m, "Month", DayWords(days));
      assert ts[2..] == DayWords(days);
      ParseDayWords(days, months);
    } else if days > 0 {
      assert ts == [Show(days), Plural("Day", days)] + [];
      ReadPartMismatch(days, "Day", "Month", []);
      ParseDayWords(days, months);
    } else {
      assert ts == [];
    }
  }

  /** The display loses nothing: reading it back gives the months and days shown. */
  lemma ParseFormat(b: Breakdown)
    requires b.months >= 0 && b.days >= 0
    ensures ParseTenure(Format(b)) == Some(b)
  {
    var ws := DisplayWords(b);
    SplitJoin(ws);
    var m: nat := b.months;
    var rest := MonthWords(m) + DayWords(b.days);
    ParseMonthAndDayWords(m, b.days);
    if YearWords(m) + rest == [] {
      assert ws == [Show(0), Plural("Day", 0)] + [] by {
        assert Show(0) == "0";
        assert "Day" + "s" == "Days";
      }
      ReadYearsNoPlus(0, Plural("Day", 0), []);
      ReadPartMismatch(0, "Day", "Month", []);
      ReadPartOf(0, "Day", []);
    } else if m >= 12 {
      var n := m / 12;
      assert ws == [Show(n) + "+", Plural("Year", n)] + rest;
      ReadYearsOf(n, rest);
      assert ws[2..] == rest;
    } else {
      assert ws == rest && m / 12 == 0;
      if m % 12 > 0 {
        assert ws == [Show(m % 12), ws[1]] + ws[2..];
        ReadYearsNoPlus(m % 12, ws[1], ws[2..]);
      } else {
        assert ws == [Show(b.days), ws[1]] + [];
        ReadYearsNoPlus(b.days, ws[1], []);
      }
    }
  }

  /** A non-positive day count displays as no day count at all. */
  lemma FormatIgnoresNonPositiveDays(b: Breakdown)
    requires b.months >= 0 && b.days <= 0
    ensures Format(b) == Format(Breakdown(b.months, 0))
  {
  }

  /** Different months and days never display alike. */
  lemma FormatInjective(b: Breakdown, c: Breakdown)
    requires b.months >= 0 && b.days >= 0 && c.months >= 0 && c.days >= 0
    requires Format(b) == Format(c)
    ensures b == c
  {
    ParseFormat(b);
    ParseFormat(c);
  }

  /** "0 Days" is displayed exactly when there is no month and no positive day count. */
  lemma ZeroDaysIff(b: Breakdown)
    requires b.months >= 0
    ensures Format(b) == "0 Days" <==> b.months == 0 && b.days <= 0
  {
    var c := Breakdown(b.months, if b.days < 0 then 0 else b.days);
    ClampDays(b);
    ZeroDisplay();
    if Format(c) == "0 Days" {
      FormatInjective(c, Breakdown(0, 0));
    }
  }

  lemma ClampDays(b: Breakdown)
    requires b.months >= 0
    ensures Format(b) == Format(Breakdown(b.months, if b.days < 0 then 0 else b.days))
  {
    if b.days < 0 {
      FormatIgnoresNonPositiveDays(b);
    }
  }

  lemma ZeroDisplay()
    ensures Format(Breakdown(0, 0)) == "0 Days"
  {
    assert DisplayWords(Breakdown(0, 0)) == ["0", "Days"];
  }

  /**
   * The year part comes first, exactly when there are at least twelve
   * months; it reads "<n>+ Year" with n the whole years, and "Years"
   * unless n is 1.
   */
  lemma YearPart(b: Breakdown)
    requires b.months >= 0
    ensures var ts := Split(Format(b));
            |ts| >= 2
            && (b.months >= 12 <==> ts[1] in {"Year", "Years"})
            && (b.months >= 12 ==>
                  ts[0] == Show(b.months / 12) + "+"
                  && (ts[1] == "Year" <==> b.months / 12 == 1))
  {
    var ws := DisplayWords(b);
    SplitJoin(ws);
    if b.months < 12 {
      if b.months % 12 > 0 {
        assert ws[1] == Plural("Month", b.months % 12);
      } else if b.days > 0 {
        assert ws[1] == Plural("Day", b.days);
        assert ws[1][0] == 'D';
      } else {
        assert ws[1] == "Days";
        assert ws[1][0] == 'D';
      }
    } else {
      assert ws[0] == Show(b.months / 12) + "+" && ws[1] == Plural("Year", b.months / 12);
      assert "Year" + "s" == "Years";
    }
  }

  /** Something is always displayed: at worst "0 Days". */
  lemma FormatNonEmpty(b: Breakdown)
    requires b.months >= 0
    ensures Format(b) != ""
  {
    JoinEmpty(DisplayWords(b));
  }

  /**
   * A month part follows the year part (if any) exactly when the months
   * left over after whole years are not zero; it reads that count, followed
   * by "Month" exactly when the count is 1, else "Months".
   */
  lemma MonthPart(b: Breakdown)
    requires b.months >= 0
    ensures var ts := Split(Format(b));
            var i := if b.months >= 12 then 2 else 0;
            (b.months % 12 > 0 <==> |ts| >= i + 2 && ts[i + 1] in {"Month", "Months"})
            && (b.months % 12 > 0 ==>
                  ts[i] == Show(b.months % 12)
                  && (ts[i + 1] == "Month" <==> b.months % 12 == 1))
  {
    var ws := DisplayWords(b);
    SplitJoin(ws);
    var m: nat := b.months;
    var i := if m >= 12 then 2 else 0;
    var y := YearWords(m);
    assert |y| == i;
    if m % 12 > 0 {
      assert ws == y + MonthWords(m) + DayWords(b.days);
      assert ws[i] == Show(m % 12) && ws[i + 1] == Plural("Month", m % 12);
      assert "Month" + "s" == "Months";
    } else if |ws| >= i + 2 {
      if b.days > 0 {
        assert ws == y + DayWords(b.days);
        assert ws[i + 1] == Plural("Day", b.days);
        assert ws[i + 1][0] == 'D';
      } else {
        assert ws == ["0", "Days"];
        assert ws[i + 1][0] == 'D';
      }
    }
  }

  /**
   * The display ends in "Day" or "Days" exactly when there are positive days
   * or no months at all ("0 Days"); with positive days the word before is
   * their count, and the noun is singular exactly when the count is 1.
   */
  lemma DayPart(b: Breakdown)
    requires b.months >= 0
    ensures var ts := Split(Format(b));
            |ts| >= 2
            && (b.days > 0 || b.months == 0 <==> ts[|ts| - 1] in {"Day", "Days"})
            && (b.days > 0 ==>
                  ts[|ts| - 2] == Show(b.days)
                  && (ts[|ts| - 1] == "Day" <==> b.days == 1))
  {
    var ws := DisplayWords(b);
    SplitJoin(ws);
    var m: nat := b.months;
    var n := |ws|;
    var front := YearWords(m) + MonthWords(m);
    if b.days > 0 {
      assert ws == front + DayWords(b.days);
      assert ws[n - 2] == Show(b.days) && ws[n - 1] == Plural("Day", b.days);
      assert "Day" + "s" == "Days";
    } else if m == 0 {
      assert ws == ["0", "Days"];
    } else {
      assert DayWords(b.days) == [];
      assert ws == front;
      LastWordOfFront(m);
    }
  }

  /** Without a day part, the display ends in the month or the year noun. */
  lemma LastWordOfFront(m: nat)
    requires m > 0
    ensures var front := YearWords(m) + MonthWords(m);
            |front| >= 2 && front[|front| - 1][0] == (if m % 12 > 0 then 'M' else 'Y')
  {
    var front := YearWords(m) + MonthWords(m);
    if m % 12 > 0 {
      assert front[|front| - 1] == Plural("Month", m % 12);
    } else {
      assert MonthWords(m) == [] && front == YearWords(m);
      assert front[1] == Plural("Year", m / 12);
    }
  }

  /**
   * The page's own display: for a date before 1 July 2025 it is "0 Days",
   * and otherwise reading it back gives whole months and days which, added
   * to the start date, give exactly now.
   */
  lemma LexProtectorDisplayIsExact(now: Date)
    requires Valid(now)
    ensures Before(now, LexProtectorStart) ==>
              ParseTenure(Display(LexProtectorStart, now)) == Some(Breakdown(0, 0))
    ensures !Before(now, LexProtectorStart) ==>
              var b := Elapsed(LexProtectorStart, now);
              ParseTenure(Display(LexProtectorStart, now)) == Some(b)
              && 0 <= b.days
              && AddDays(AddMonths(LexProtectorStart, b.months), b.days) == now
  {
    if Before(now, LexProtectorStart) {
      assert Format(Breakdown(0, 0)) == Join(["0", "Days"]) == "0 Days";
      ParseFormat(Breakdown(0, 0));
    } else {
      LexProtectorAnchorValid(now);
      ElapsedAddsUp(LexProtectorStart, now);
      ParseFormat(Elapsed(LexProtectorStart, now));
    }
  }

  /** A start date exactly one year before now displays as "1+ Year", with no "s". */
  lemma OneYearDisplay(start: Date, now: Date)
    requires Valid(start) && Valid(now) && now == start.(year := start.year + 1)
    ensures Display(start, now) == "1+ Year"
  {
    assert Elapsed(start, now) == Breakdown(12, 0);
    assert Show(1) == "1";
  }

  /** The display of one year, three months and two days. */
  lemma FormatAllParts()
    ensures Format(Breakdown(15, 2)) == "1+ Year 3 Months 2 Days"
  {
    AllPartsWords();
    JoinSixWords();
  }

  lemma AllPartsWords()
    ensures DisplayWords(Breakdown(15, 2)) == ["1+", "Year", "3", "Months", "2", "Days"]
  {
    assert Show(1) == "1" && Show(2) == "2" && Show(3) == "3";
    assert "1" + "+" == "1+" && "Month" + "s" == "Months" && "Day" + "s" == "Days";
  }

  lemma JoinSixWords()
    ensures Join(["1+", "Year", "3", "Months", "2", "Days"]) == "1+ Year 3 Months 2 Days"
  {
    var ws := ["1+", "Year", "3", "Months", "2", "Days"];
    assert Join(ws[4..]) == "2 Days";
    assert Join(ws[2..]) == "3 Months " + "2 Days";
  }

  /** Two whole years, nothing more: the plural "Years" and no other part. */
  lemma FormatWholeYears()
    ensures Format(Breakdown(24, 0)) == "2+ Years"
  {
    assert Show(2) == "2";
    assert "2" + "+" == "2+" && "Year" + "s" == "Years";
    assert DisplayWords(Breakdown(24, 0)) == ["2+", "Years"];
  }
}

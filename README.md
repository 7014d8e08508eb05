# Tenure calculators of the portfolio resume page

The resume page of the portfolio site shows two durations computed from the
current date. This project models both and proves what they display.

- `calculateLexProtectorExperience` is the fine-grained tenure at the current
  employer. It counts whole calendar months and leftover days since
  1 July 2025. It displays them as a string such as `1+ Year 3 Months 2 Days`,
  dropping zero parts, choosing singular or plural by the count, and falling
  back to `0 Days`.
- `calculateExperience` is the coarse professional-experience figure since
  April 2024. It returns a tagged record `{value, unit}`: whole months while
  the years, rounded to one decimal, are under 1, and those years from then on.

Modules, one file each:

- `Calendar`: dates as `(year, 0-based month, day)`, Gregorian month lengths,
  `new Date(y, m, 0)` (the last day of the month before `m`, as `DayZero`),
  and a reference notion of adding days and calendar months.
- `Decimal`: `${n}` for non-negative integers, and reading a numeral back.
- `Words`: joining words with single spaces, and splitting at spaces.
- `Tenure`: the fine-grained calculator. It is an imperative method on
  mutable locals, as in the page. The appending of the parts (lines 87-114)
  is its own method, `FormatExperience`, which the calculator calls. The
  module also holds the specification functions the methods are proved
  against, and the lemmas about them.
- `Experience`: the coarse calculator, as a pure function over exact reals.

What is proved about the coarse calculator: a start after now gives
`{0, Months}`, both where the month difference is negative and where it
comes to exactly 0 one day before a start on the 1st. From twelve calendar
months after the page's start, April 2024, the unit is Years.

What is proved about the fine-grained calculator:

- A start after now gives exactly `0 Days`.
- Once now is not before the start, the month count (before the clamp) is
  the month difference, less one when a day is borrowed. It is never
  negative, so the clamp at zero never changes it.
- The months and days add up from the start to now: the start moved
  forward by the whole months, then by the days, is now, and fewer days
  remain than the month reached has. This holds whenever the start's
  day-of-month exists in the month reached. For start days of 28 or less,
  they are moreover the only such pair. The page's start, the 1st of a
  month, meets both conditions.
- The display loses nothing: for a non-negative day count, which the
  page's start always gives, reading it back gives the months and days.
  It is never empty, and `0 Days` appears exactly when both are zero. The
  year part reads `<n>+ Year`, the month part `<m> Month` and the day part
  `<d> Day`, each with an `s` unless the count is 1.
- For the page's own start date, the displayed string, read back, gives
  months and days that lead from 1 July 2025 to now exactly.

The current time is a parameter (`now`) of every calculator. The millisecond
test `currentDate.getTime() - startDate.getTime() < 0` is modelled as the date
comparison `Calendar.Before(now, start)`. This is exact because the start is
at midnight and the time of day of now is never negative. The start date is
a parameter too: `Tenure.LexProtectorStart` is the page's `new Date(2025, 6, 1)`
and `Experience.CareerStart` is `new Date(2024, 3)`.

The source comment on line 54 of `app/resume/page.tsx` says "June 2". The
constructor builds 1 July (month 6 is July). The model follows the
constructor.

With a start day late in the month, a parameter the page itself never uses,
one day borrow may not be enough. From 31 January to 1 March of a common
year, the days come to -2 and only `1 Month` is shown
(`Tenure.NegativeRemainderAfterBorrow`). The page's start is the 1st of a
month, so its day count is never negative (`Tenure.LexProtectorAnchorValid`).

## Model

| member | source | states |
|---|---|---|
| `Tenure.CalculateLexProtectorExperience` | app/resume/page.tsx:52-115 | a now before the start gives exactly "0 Days"; otherwise the result is the display of the elapsed months and days; in both cases it is `Display(start, now)`, and it is never empty |
| `Tenure.FormatExperience` | app/resume/page.tsx:87-114 | appending the non-zero parts, with a space before all but the first and "0 Days" when none, yields exactly the space-joined display words, never the empty string |
| `Tenure.Elapsed` | app/resume/page.tsx:65-85 | the month count after the clamp is never negative |
| `Tenure.ElapsedArithmetic` | app/resume/page.tsx:66-85 | when now is not before the start: months = 12·Δyear + Δmonth, less 1 exactly when now's day is below the start's day, never negative before the clamp; a borrow adds the length of the month before now's month, December of the year before for January |
| `Tenure.ElapsedAddsUp` | app/resume/page.tsx:65-85 | the start moved forward by the months and then by the days is now, and 0 ≤ days < the length of the month reached |
| `Tenure.ElapsedUnique` | app/resume/page.tsx:65-85 | any months and days with that property are the computed ones, so the months are the whole calendar months elapsed |
| `Tenure.LexProtectorAnchorValid` | app/resume/page.tsx:54-82 | with the page's start, 1 July 2025, the day count is never negative and the month reached always has the start's day |
| `Tenure.NegativeRemainderAfterBorrow` | app/resume/page.tsx:70-81 | from 31 January to 1 March 2025 the days come to -2 after the borrow and only "1 Month" is displayed |
| `Tenure.YearText` | app/resume/page.tsx:91-94 | the year part as the template literal writes it, "<n>+ Year" plus "s" unless n is 1, is the two-word year part |
| `Tenure.MonthText` | app/resume/page.tsx:97-101 | the month part "<m> Month" plus "s" unless m is 1, m = months mod 12, is the two-word month part |
| `Tenure.DayText` | app/resume/page.tsx:103-107 | the day part "<d> Day" plus "s" unless d is 1 is the two-word day part |
| `Tenure.ParseFormat` | app/resume/page.tsx:88-114 | reading the displayed string back gives the months and days displayed, for every non-negative count |
| `Tenure.FormatInjective` | app/resume/page.tsx:88-114 | two non-negative month and day counts that display alike are equal |
| `Tenure.FormatIgnoresNonPositiveDays` | app/resume/page.tsx:103-107 | a day count of zero or less displays as if it were zero |
| `Tenure.ZeroDaysIff` | app/resume/page.tsx:109-112 | the display is "0 Days" exactly when there are no months and no positive days |
| `Tenure.FormatNonEmpty` | app/resume/page.tsx:109-114 | the display of any non-negative month count is never the empty string |
| `Tenure.MonthPart` | app/resume/page.tsx:96-101 | a month part follows the year part exactly when months mod 12 is not zero; it reads that count, then "Month" exactly when the count is 1, else "Months" |
| `Tenure.DayPart` | app/resume/page.tsx:103-112 | the display ends in "Day"/"Days" exactly when the days are positive or there are no months; with positive days the word before is their count, and "Day" appears exactly when it is 1 |
| `Tenure.YearPart` | app/resume/page.tsx:90-94 | a year part comes first exactly when months ≥ 12; it is "<⌊months/12⌋>+" followed by "Year" exactly when that count is 1, else "Years" |
| `Tenure.LexProtectorDisplayIsExact` | app/resume/page.tsx:52-115 | for the page's start: before it the display reads back as zero; otherwise it reads back as months and days that lead from the start to now exactly |
| `Tenure.OneYearDisplay` | app/resume/page.tsx:52-115 | a start exactly one year before now displays "1+ Year", with no "s" |
| `Tenure.FormatAllParts` | app/resume/page.tsx:88-107 | 15 months and 2 days display as "1+ Year 3 Months 2 Days" |
| `Tenure.FormatWholeYears` | app/resume/page.tsx:91-101 | 24 months display as "2+ Years", with no month part |
| `Calendar.BeforeByMonthIndex` | app/resume/page.tsx:58-63 | the date comparison that replaces `diffTime < 0`: on valid dates, now is before the start exactly when its month index is smaller, or equal with a smaller day |
| `Calendar.Max` | app/resume/page.tsx:85 | `Math.max` on integers, here and at line 39: the result is at least both arguments and is one of them |
| `Calendar.YearLength` | app/resume/page.tsx:76-81 | the twelve month lengths add up to 366 days in a leap year and 365 otherwise |
| `Calendar.DaysInMonth` | app/resume/page.tsx:76-81 | Gregorian month lengths: 28 or 29 days for February by leap year, 30 for April, June, September and November, 31 otherwise |
| `Calendar.DayZero` | app/resume/page.tsx:76-81 | `new Date(y, m, 0)` is the last day of the month before m (December of y-1 for January), the day before the 1st of m, for the years JavaScript takes as written (see "## Left out") |
| `Decimal.Show` | app/resume/page.tsx:93 | `${n}` writes a non-empty string of decimal digits without a leading zero |
| `Decimal.ParseShow` | app/resume/page.tsx:93 | the digits written for n read back as n |
| `Experience.CalculateExperience` | app/resume/page.tsx:23-48 | a negative month difference gives {0, Months}; the unit is Years exactly when at least 11.4 months have elapsed, with a value of at least 1.0 that is the years to the nearest tenth; a Months value is a whole number from 0 to 11, the months elapsed to the nearest whole |
| `Experience.MonthsBetweenSign` | app/resume/page.tsx:27-32 | `diffInMonths`, 12·Δyear + Δmonth + Δday/30 on exact reals, is negative only when now is before the start, and is at most 0 whenever it is |
| `Experience.DayBeforeStartIsZero` | app/resume/page.tsx:27-39 | on 31 March 2024, one day before the start 1 April 2024, the difference is exactly 0, not negative, and the result is still {0, Months} |
| `Experience.BeforeStartIsZero` | app/resume/page.tsx:23-48 | any start after now gives {0, Months} |
| `Experience.CareerStartYears` | app/resume/page.tsx:24-48 | with the page's start, April 2024, a now twelve or more calendar months later gives a value of at least 1.0 Years |
| `Experience.Round` | app/resume/page.tsx:39 | `Math.round` gives the integer nearest its argument, a half going upwards |
| `Experience.RoundToTenth` | app/resume/page.tsx:35 | `+x.toFixed(1)` is a whole number of tenths within half a tenth of x |
| `Experience.OneYearIsOneYear` | app/resume/page.tsx:23-48 | a start exactly one year before now gives {1.0, Years} |
| `Experience.ElevenMonthsAreElevenMonths` | app/resume/page.tsx:23-48 | a start eleven months before now, on the same day, gives {11, Months} |

## Left out

- Reading the clock (`new Date()` at app/resume/page.tsx:25 and 55): the current date is the parameter `now`.
- Time of day, time zones and daylight-saving shifts: dates are calendar days. The millisecond comparison is the date comparison `Before`.
- JavaScript `Date` normalisation of out-of-range months and days: inputs are valid calendar dates (`Calendar.Valid`). Every `Date` object returned by the runtime is one.
- The second copy of `calculateExperience` in components/stats/Stats.tsx:38-63: it is the same code, so it is modelled once.
- The GitHub statistics polling in components/stats/Stats.tsx (`fetchStats`, the 10-second interval, React state): network I/O and timers around a function that is not part of this model.
- The contact form (app/contact/page.tsx) and its mail endpoint (app/api/contact/route.ts): UI plumbing, HTTP, SMTP and environment configuration, with no logic beyond string interpolation.
- The legal pages, the layouts, the header, navigation and footer, the certificate gallery, and the rest of the resume page's static data and JSX: content only.
- Calendar.DayZero: JavaScript's `Date` constructor reads the years 0 to 99 as 1900 to 1999. For a now in March of year 0, the page borrows the 28 days of February 1900 where the model borrows the 29 days of February of year 0. The clock never reads such a year, so the model keeps the proleptic Gregorian year.
- Experience.Round: exact reals, not IEEE-754 doubles. Double-rounding effects of `Math.round` are not modelled.
- Experience.RoundToTenth: exact reals, not IEEE-754 doubles. Where `toFixed(1)` on a double near a tie rounds the stored binary value, the model rounds the exact value.
- Experience.CalculateExperience: the `/ 30` and `/ 12` are exact real divisions, not floating-point ones.
- Tenure.ElapsedAddsUp: stated only when the start's day exists in the month reached. Otherwise the day count can be negative (see `Tenure.NegativeRemainderAfterBorrow`), and no such decomposition exists.
- Tenure.ElapsedUnique: stated only for start days of 28 or less, so that every month has the start's day. The page's start is the 1st.

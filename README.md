# ymd date engine in Dafny

This project models the Rust core of the `ymd` R package. That core is a
timezone-less, proleptic-Gregorian date engine in three layers:

- **The YMD parser** (`lib.rs`). It reads integers, doubles and strings
  written as year-month-day (`980308`, `19980308`, `"98.3.8"`,
  `"1998-03-08"`) into dates. A two-digit year is windowed: 00-69 become the
  2000s and 70-99 the 1900s. The vectorised entry points `rust_ymd`,
  `period_begin`, `period_end`, `edate` and the date-part functions work
  element by element and keep `NA` in place.
- **Calendar arithmetic** (`period.rs`). It covers shifting a date by days
  or by months, with end-of-month clamping. It also gives the first and last
  day of the year, half-year, quarter, month or ISO 8601 week that holds a
  date.
- **Date parts and the R day-number codec** (`dateof.rs`, `rdate.rs`). An R
  `Date` is a day count from 1970-01-01. The codec subtracts 719163 from
  chrono's day count from the Common Era.

Everything the source takes from chrono is rebuilt from scratch in
`calendar.dfy`:

- Gregorian validity over chrono's year range -262144..262143, the bounds
  `i32::MIN >> 13` and `i32::MAX >> 13` of chrono 0.4.19 and earlier 0.4
  releases.
- The day count from the Common Era (0001-01-01 is day 1) and its inverse,
  proved to be mutual inverses.
- The ISO week of a date and the day of a given weekday in that week.

The modules follow the source:

| module | file | models |
|---|---|---|
| `Optional` | `optional.dfy` | `Option` and the `iter().map(...).collect()` pattern with `None` kept in place |
| `Int32` | `int32.dfy` | Rust's truncating `/` and `%`, and the saturating `as i32` cast |
| `Calendar` | `calendar.dfy` | the chrono behaviour the source relies on |
| `Periods` | `periods.dfy` | `period.rs` |
| `DateOf` | `dateof.dfy` | `dateof.rs` |
| `RDate` | `rdate.dfy` | `rdate.rs` |
| `Ymd` | `ymd.dfy` | `lib.rs` |

An R vector is modelled as `seq<Option<...>>`, where `None` is `NA`. An R
`Date` vector is a sequence of optional integers. Rust's `i32` arithmetic is
bounded by preconditions wherever it could overflow.

`add_months` is meant to shift every date by whole months, but the code
splits the month count with Rust's truncating `/` and `%`. The two differ
only for target months before year 0 other than January, where the code
panics. The model keeps both versions: the code as written
and the floored definition. The rest of the model uses the floored one (see
Findings). `eop` by month calls `add_months(bop, 1)`, so it inherits the
panic for every month but December before year 0.

## Model

| member | source | states |
|---|---|---|
| `Optional.MapPresent` | src/rust/src/rdate.rs:54-60 | the per-element map keeps the length, keeps `None` at its index and applies the function to every present value |
| `Optional.BindPresent` | src/rust/src/lib.rs:58-74 | the per-element parse keeps the length, keeps `NA` as `None` and gives each present element the parser's own result |
| `Int32.TruncDiv` | src/rust/src/lib.rs:12-13 | Rust's `/` agrees with floored division on non-negative operands and rounds a negative quotient toward zero: `a <= b * q < a + b` |
| `Int32.TruncMod` | src/rust/src/lib.rs:11 | Rust's `%` agrees with the Euclidean remainder on non-negative operands, lies in (-b, 0] for a negative dividend, and with the truncating quotient rebuilds the dividend: `a == b * q + r` |
| `Int32.SaturateI32` | src/rust/src/lib.rs:29 | `as i32` keeps every i32 value and clamps values beyond either end to that end |
| `Calendar.DaysInMonth` | src/rust/src/period.rs:17-18 | a month has 28 to 31 days, and 29 exactly for February of a leap year |
| `Calendar.IsLeapYear` | src/rust/src/period.rs:11-18 | chrono's Gregorian leap-year rule, which decides February's length in the month-length gap `add_months` measures |
| `Calendar.FromYmdOpt` | src/rust/src/lib.rs:24 | `from_ymd_opt` gives a date iff the year is in range, the month in 1..12 and the day within the month, and the date is exactly (y, m, d) |
| `Calendar.DaysFromCE` | src/rust/src/period.rs:4 | `num_days_from_ce`: days before the year, plus days before the month, plus the day |
| `Calendar.DaysFromCEInYear` | src/rust/src/period.rs:4 | a date's day count lies within the days of its own year |
| `Calendar.DayRangeValues` | src/rust/src/rdate.rs:30 | the first and last day counts chrono can represent are -95746495 and 95745764 |
| `Calendar.MonthStep` | src/rust/src/period.rs:17-18 | consecutive months start `DaysInMonth` days apart, and the twelve months make up the year |
| `Calendar.YearStep` | src/rust/src/period.rs:4 | consecutive years start one year length apart in the day count |
| `Calendar.YearsIncrease` | src/rust/src/period.rs:4 | a later year starts after every day of an earlier year |
| `Calendar.CycleDays` | src/rust/src/period.rs:4 | the day count before a year, written in 400/100/4/1-year cycles, is 146097a + 36524b + 1461c + 365e |
| `Calendar.LeapInCycle` | src/rust/src/period.rs:4 | the leap years inside a 400-year cycle are the last year of each 4-year group, except the last group of a century other than the fourth |
| `Calendar.YearOrdinal` | src/rust/src/period.rs:4 | every day offset splits into a year and a day of that year |
| `Calendar.YearOrdinalUnique` | src/rust/src/period.rs:4 | that split is unique |
| `Calendar.OrdinalMonthDay` | src/rust/src/period.rs:4 | every day of a year is a unique valid (month, day) of that year |
| `Calendar.MonthDayUnique` | src/rust/src/period.rs:4 | two valid (month, day) pairs with the same day of the year are equal |
| `Calendar.YearInRange` | src/rust/src/period.rs:4 | a year is within chrono's range iff its days are within chrono's day range |
| `Calendar.FromDaysFromCE` | src/rust/src/period.rs:4 | `from_num_days_from_ce` gives the date whose day count is the argument |
| `Calendar.FromDaysFromCEOpt` | src/rust/src/rdate.rs:30 | `from_num_days_from_ce_opt` gives a date iff the count is in chrono's range, and then the date with that count |
| `Calendar.DaysFromCERoundTrip` | src/rust/src/rdate.rs:44-46 | every date's day count is in range, and converting it back gives the same date |
| `Calendar.DaysFromCEInjective` | src/rust/src/rdate.rs:44-46 | distinct dates have distinct day counts |
| `Calendar.LessEq` | src/rust/src/rdate.rs:44-46 | chrono's `NaiveDate` order: by year, then month, then day |
| `Calendar.EarlierFieldsFewerDays` | src/rust/src/rdate.rs:44-46 | a date earlier in (year, month, day) order has a smaller day count |
| `Calendar.OrderIsDayCountOrder` | src/rust/src/rdate.rs:44-46 | (year, month, day) order is exactly day-count order |
| `Calendar.DayCountWeekday` | src/rust/src/period.rs:60 | the weekday of a day count is a number in 0..6 |
| `Calendar.WeekdayStep` | src/rust/src/period.rs:60 | consecutive days have consecutive weekdays modulo 7, a week later is the same weekday, and day 1 (0001-01-01) is Monday, 0 |
| `Calendar.WeekdayShift` | src/rust/src/period.rs:60 | any whole number of weeks later is the same weekday |
| `Calendar.DaysFromMonday` | src/rust/src/period.rs:60 | a date's weekday, counted from Monday, is a number in 0..6 |
| `Calendar.WeekdayExamples` | src/rust/src/period.rs:60 | 1970-01-01 is a Thursday (3) and 2022-01-01 a Saturday (5) |
| `Calendar.IsoWeekOf` | src/rust/src/period.rs:60 | `iso_week()`: the week-year is the year holding the Thursday of d's Monday-to-Sunday week, and the week number is that Thursday's 0-based day of the year divided by 7, plus 1, in 1..53 |
| `Calendar.IsoWeekOfMonday` | src/rust/src/period.rs:60 | the ISO week of the week starting on a given Monday: the year holding its Thursday and the Thursday's week of that year |
| `Calendar.IsoWeekDayCount` | src/rust/src/period.rs:60 | `from_isoywd(year, week, weekday)` gives a day of that weekday, and the Thursday of its week is the `week`-th Thursday of the year |
| `Calendar.IsoWeekOfThursday` | src/rust/src/period.rs:60 | a date whose week's Thursday is day o of year y is in ISO week o / 7 + 1 of y |
| `Calendar.IsoWeekExample` | src/rust/src/period.rs:149-152 | Saturday 2022-01-01 is in ISO week 52 of 2021 |
| `Calendar.WeekdayInWeek` | src/rust/src/period.rs:60 | stepping back to a week's Monday and forward k days lands on weekday k |
| `Calendar.WeekOfThursday` | src/rust/src/period.rs:60 | the week counted from the Monday on or before 4 January is the week holding that Thursday |
| `Calendar.IsoWeekOfMondayRoundTrip` | src/rust/src/period.rs:60 | the ISO week read off a Monday, fed back to `from_isoywd`, gives that Monday plus the asked weekday |
| `Calendar.IsoWeekRoundTrip` | src/rust/src/period.rs:60 | `from_isoywd` on a date's own ISO year and week gives the given weekday of the Monday-to-Sunday week holding the date |
| `Periods.AddDays` | src/rust/src/period.rs:3-5 | `add_days(d, n)` is the date whose day count is d's plus n |
| `Periods.AddDaysZero` | src/rust/src/period.rs:3-5 | adding zero days changes nothing |
| `Periods.AddDaysCompose` | src/rust/src/period.rs:3-5 | adding a days and then b days is adding a + b days |
| `Periods.AddDaysOrder` | src/rust/src/period.rs:3-5 | a non-negative shift, and only a non-negative shift, never moves the date earlier |
| `Periods.AddDaysLandsOn` | src/rust/src/period.rs:3-5 | the shift lands on the date with the shifted day count |
| `Periods.AddDaysIntoPreviousYearExample` | src/rust/src/period.rs:102-105 | 2021-01-01 minus one day is 2020-12-31 |
| `Periods.AddDaysIntoNextMonthExample` | src/rust/src/period.rs:106-109 | 2021-01-31 plus one day is 2021-02-01 |
| `Periods.AddDaysIntoNextYearExample` | src/rust/src/period.rs:110-113 | 2021-12-31 plus one day is 2022-01-01 |
| `Periods.ShiftedMonth` | src/rust/src/period.rs:8-10 | the target month is in 1..12 and lies n months after the date's month |
| `Periods.MonthLength` | src/rust/src/period.rs:11-18 | the gap between a month's first day and the next month's first day is the month's length |
| `Periods.AddMonths` | src/rust/src/period.rs:7-25 | `add_months(d, n)` lands n months after d's month, and its day is d's day clamped to the target month's length |
| `Periods.AddMonthsZero` | src/rust/src/period.rs:7-25 | adding zero months changes nothing |
| `Periods.AddMonthsKeepsDay` | src/rust/src/period.rs:19-24 | the day never grows, and it is kept whenever the target month is long enough |
| `Periods.AddMonthsAsWritten` | src/rust/src/period.rs:7-25 | `add_months` as written, with truncating `/` and `%`; whenever it does not panic it lands n months on and clamps the day like the floored definition |
| `Periods.AddMonthsBackExample` | src/rust/src/period.rs:117-120 | 2021-01-01 minus one month is 2020-12-01 |
| `Periods.AddMonthsShortExample` | src/rust/src/period.rs:121-124 | 2021-01-31 plus one month is clamped to 2021-02-28 |
| `Periods.AddMonthsYearExample` | src/rust/src/period.rs:125-128 | 2021-12-31 plus twelve months is 2022-12-31 |
| `Periods.AddMonthsAsWrittenAgrees` | src/rust/src/period.rs:8-10 | the truncating code agrees with the floored definition whenever the absolute month count is at least 1 |
| `Periods.AddMonthsAsWrittenPanics` | src/rust/src/period.rs:9-10 | before year 0 the truncating code panics whenever the target month is not January |
| `Periods.AddMonthsAsWrittenExample` | src/rust/src/period.rs:9-13 | -0001-12-15 plus zero months exists, but the truncating code panics on it |
| `Periods.AddMonthsAsWrittenJanuary` | src/rust/src/period.rs:8-13 | whenever the target month is January, the truncating code gives the floored result even before year 0; with `AddMonthsAsWrittenPanics` this is exactly where the code panics |
| `Periods.AddMonthsAsWrittenJanuaryExample` | src/rust/src/period.rs:8-13 | -0001-01-15 plus zero months does not panic: the truncating code gives -0001-01-15 back |
| `Periods.AddMonthsAsWrittenYearZeroExample` | src/rust/src/period.rs:8-13 | 0000-01-15 minus one month is -0001-12-15, but the truncating code panics on it |
| `Periods.IsoWeekDay` | src/rust/src/period.rs:59-61 | `from_isoywd` on the date's ISO week gives the asked weekday of the week holding the date |
| `Periods.MonthEndOf` | src/rust/src/period.rs:84-87 | the day before the next month's first day is the last calendar day of the month |
| `Periods.MonthEnd` | src/rust/src/period.rs:84-87 | the next month's first day is one day after this month's last day |
| `Periods.Bop` | src/rust/src/period.rs:35-63 | `bop` of a month-based period is day 1 of a bucket-start month (1, 1 + span, ...) in the same year whose bucket holds d's month; `bop` by week is the Monday of d's week, at most 6 days before d |
| `Periods.Eop` | src/rust/src/period.rs:65-92 | `eop` of a month-based period is the last day of a bucket-end month in the same year whose bucket holds d's month; `eop` by week is the Sunday of d's week, at most 6 days after d |
| `Periods.BopEopBracket` | src/rust/src/period.rs:35-92 | every date lies between `bop` and `eop` of each period |
| `Periods.WeekBoundaryFixed` | src/rust/src/period.rs:59-61 | a Monday is the first day, and a Sunday the last day, of its own ISO week |
| `Periods.BopIdempotent` | src/rust/src/period.rs:35-63 | `bop(bop(d)) = bop(d)` |
| `Periods.EopIdempotent` | src/rust/src/period.rs:65-92 | `eop(eop(d)) = eop(d)` |
| `Periods.EopMonthAsWrittenPanics` | src/rust/src/period.rs:84-87 | before year 0, for months 1 to 11, the truncating `add_months(bop, 1)` inside `eop` by month panics, while the model's `eop` gives the month's last day |
| `Periods.WeekBop` | src/rust/src/period.rs:59-61 | whenever a date's day count is d's minus d's weekday number (Monday 0), `bop` by week is defined on d and is that date |
| `Periods.WeekEop` | src/rust/src/period.rs:88-90 | whenever a date's day count is six more than that of d's Monday, `eop` by week is defined on d and is that date |
| `Periods.BopEopExamples` | src/rust/src/period.rs:131-172 | the month-based `bop` and `eop` cases of the source's tests |
| `Periods.BopWeekExample` | src/rust/src/period.rs:149-152 | the week of Saturday 2022-01-01 begins on 2021-12-27 |
| `Periods.EopWeekExample` | src/rust/src/period.rs:173-176 | the week of Saturday 2022-01-01 ends on 2022-01-02 |
| `DateOf.Year` | src/rust/src/dateof.rs:10-17 | keeps the length and the `NA` positions, and gives each present date's year |
| `DateOf.Month` | src/rust/src/dateof.rs:19-26 | keeps the length and the `NA` positions, and gives each present date's month, in 1..12 |
| `DateOf.Month2Quarter` | src/rust/src/dateof.rs:28-38 | the quarter is in 1..4, and month m is in quarter q iff 3(q - 1) < m <= 3q |
| `DateOf.Quarter` | src/rust/src/dateof.rs:40-47 | keeps the length and the `NA` positions, and gives a quarter in 1..4 |
| `DateOf.QuarterOfMonth` | src/rust/src/dateof.rs:40-47 | each present quarter is `month2quarter` of the same entry's month |
| `DateOf.Mday` | src/rust/src/dateof.rs:49-56 | keeps the length and the `NA` positions, and gives each present date's day, in 1..31 |
| `RDate.DateToRNum` | src/rust/src/rdate.rs:44-46 | the R day number fits in i32 with room for the offset, and it is 0 exactly for 1970-01-01 |
| `RDate.RNumToDate` | src/rust/src/rdate.rs:26-31 | a present number decodes iff it plus 719163 is a representable day count, and then to a date that encodes back to it; `NA` decodes to `None` |
| `RDate.RNumRoundTrip` | src/rust/src/rdate.rs:26-31 | decoding the encoding of any date gives the date |
| `RDate.RNumOrder` | src/rust/src/rdate.rs:44-46 | encoding preserves and reflects date order |
| `RDate.Robj2Date` | src/rust/src/rdate.rs:23-33 | keeps the length and decodes each element on its own |
| `RDate.ToRDate` | src/rust/src/rdate.rs:52-63 | keeps the length and the `NA` positions, encodes each present date, and yields decodable numbers |
| `RDate.VectorRoundTrip` | src/rust/src/rdate.rs:7-63 | decoding the encoding of a date vector gives the vector |
| `RDate.RNumExamples` | src/rust/src/rdate.rs:98-101 | 2021-12-29 and 2021-12-30 are R's 18990 and 18991 |
| `RDate.RNumDecodeExample` | src/rust/src/rdate.rs:100 | R's 18990 decodes to 2021-12-29 |
| `Ymd.ResolveYear` | src/rust/src/lib.rs:14-23 | with windowing, year parts 0-69 land in 2000-2069 and 70-99 in 1970-1999, always with the same last two digits; otherwise the year part is the year |
| `Ymd.Int2Date` | src/rust/src/lib.rs:10-25 | `int2date` gives a date iff x is non-negative and its (windowed year, month, day) decomposition is a valid date; that date has the windowed year and spells x back as yyyymmdd |
| `Ymd.Int2DateOfYmdNumber` | src/rust/src/lib.rs:10-25 | a date from year 100 on (from year 0 without windowing) written as yyyymmdd reads back as itself |
| `Ymd.Int2DateTwoDigitYear` | src/rust/src/lib.rs:14-20 | every date from 1970 to 2069 written as yymmdd reads back as itself |
| `Ymd.Int2DateExamples` | src/rust/src/lib.rs:160-188 | the source's tests of `int2date`, plus the window edges 690101 (2069) and 700101 (1970) |
| `Ymd.Dbl2Date` | src/rust/src/lib.rs:27-33 | a value with a fractional part gives `None`; an integral one gives `int2date` of it with windowing, or `None` outside i32 |
| `Ymd.Dbl2DateExamples` | src/rust/src/lib.rs:191-207 | the source's tests of `dbl2date`: 980308. and 19980308. are 1998-03-08, and 980230.1, 2201310. and 220101.5 give `None` |
| `Ymd.Split` | src/rust/src/lib.rs:39 | splitting gives at least one token and no token holds a delimiter |
| `Ymd.SplitDelimiterFree` | src/rust/src/lib.rs:39 | a string without delimiters is a single token |
| `Ymd.SplitAtDelimiter` | src/rust/src/lib.rs:39 | a delimiter-free prefix followed by a delimiter is split off as the first token |
| `Ymd.SplitJoin` | src/rust/src/lib.rs:39 | splitting tokens joined by any delimiters gives back the tokens |
| `Ymd.ParseI32` | src/rust/src/lib.rs:36 | `parse::<i32>` succeeds only on one or more digits, optionally after a single `+` or `-`, and gives an i32 value |
| `Ymd.NotAnInteger` | src/rust/src/lib.rs:36-38 | a string with a delimiter after its first character does not parse as an integer |
| `Ymd.ParseNatural` | src/rust/src/lib.rs:36 | an unsigned digit string holds no delimiter and parses to its decimal value exactly when that fits in i32 |
| `Ymd.ParseSigned` | src/rust/src/lib.rs:36 | a `+` or `-` followed by digits parses to the signed decimal value exactly when that fits in i32 |
| `Ymd.ParseSignExamples` | src/rust/src/lib.rs:42-44 | "+98" parses to 98, "-7" to -7, and a lone "+" does not parse |
| `Ymd.ParseOverflowExample` | src/rust/src/lib.rs:36 | "2147483648" (2^31) does not parse |
| `Ymd.Str2Date` | src/rust/src/lib.rs:35-51 | a whole-integer string reads as `int2date` with windowing, and any other string gives `None` unless it splits into exactly three tokens |
| `Ymd.DateOfTokens` | src/rust/src/lib.rs:40-45 | the three-token branch gives a date only when all three tokens parse |
| `Ymd.Str2DateUndelimited` | src/rust/src/lib.rs:36-48 | a string without delimiters gives a date only as a whole integer |
| `Ymd.Str2DateOfDigits` | src/rust/src/lib.rs:36-37 | a digit string that fits in i32 is read as `int2date` of its decimal value with windowing |
| `Ymd.ThreeTokenSplit` | src/rust/src/lib.rs:36-40 | three delimiter-free tokens joined by delimiters do not parse as one integer and split back into exactly those tokens |
| `Ymd.Str2DateOfJoin` | src/rust/src/lib.rs:35-48 | such a string is read by the three-token branch on exactly those tokens |
| `Ymd.Str2DateThreeTokens` | src/rust/src/lib.rs:39-48 | three tokens joined by delimiters read as year, month and day recomposed as yyyymmdd, windowed iff the year token has at most two characters, and `None` when a token is not an integer |
| `Ymd.Str2DateDelimiterInvariant` | src/rust/src/lib.rs:39 | the choice of delimiters does not change the result |
| `Ymd.Str2DateUndelimitedExample` | src/rust/src/lib.rs:210 | "980308" is 1998-03-08 |
| `Ymd.Str2DateFiveDigitExample` | src/rust/src/lib.rs:260 | "98308" gives `None` (month 83) |
| `Ymd.Str2DateBadDayExample` | src/rust/src/lib.rs:261 | "980338" gives `None` (day 38) |
| `Ymd.Str2DateNonNumericExample` | src/rust/src/lib.rs:262 | "9a0308" gives `None` |
| `Ymd.Str2DateDottedExample` | src/rust/src/lib.rs:211-214 | "98.3.08" is 1998-03-08 |
| `Ymd.Str2DateDashedExample` | src/rust/src/lib.rs:238-241 | "22-01-02" is 2022-01-02 |
| `Ymd.Str2DateSlashedExample` | src/rust/src/lib.rs:251-254 | "1998/03/08" is 1998-03-08 |
| `Ymd.Str2DateSignedYearExample` | src/rust/src/lib.rs:40-45 | "+98.3.8" is the year 98: the sign counts in the year token's width, so windowing is off |
| `Ymd.Str2DateYearZeroExample` | src/rust/src/lib.rs:40-45 | "000.01.15" is 0000-01-15: a three-character year token is read without windowing, so zeros give the year 0 |
| `Ymd.ParseHost` | src/rust/src/lib.rs:58-74 | `rust_ymd` keeps the length and the `NA` positions, and parses each element with the parser for its R type |
| `Ymd.RustYmd` | src/rust/src/lib.rs:54-80 | `rust_ymd` keeps the length, writes `NA` exactly where parsing gave none, writes the R number of each parsed date elsewhere, and decodes back to exactly the parsed dates |
| `Ymd.EncodeMapped` | src/rust/src/lib.rs:88-95 | mapping the present dates and writing them out keeps the length and the `NA` positions and encodes the mapped date of each present one |
| `Ymd.BeopKnown` | src/rust/src/lib.rs:87-95 | with a known period, each element is the R number of the boundary of the parsed date, read back through `robj2date(rust_ymd(x))`, and `NA` stays `NA` |
| `Ymd.Beop` | src/rust/src/lib.rs:82-96 | an unknown period gives `NA` for every element of the input's length, whatever the input holds; otherwise each parsed date becomes its boundary's R number, with `NA` kept |
| `Ymd.PeriodBegin` | src/rust/src/lib.rs:99-101 | an unknown period gives all `NA`; with a known one each element is present iff it parses, and it is then the R number of the period's first day |
| `Ymd.PeriodEnd` | src/rust/src/lib.rs:104-106 | an unknown period gives all `NA`; with a known one each element is present iff it parses, and it is then the R number of the period's last day |
| `Ymd.PeriodBracket` | src/rust/src/lib.rs:99-106 | element by element, `period_begin` <= the parsed date <= `period_end` |
| `Ymd.Edate` | src/rust/src/lib.rs:122-132 | each element is present iff it parses, and it is then the R number of the date moved by the given months |
| `Ymd.EdateZero` | src/rust/src/lib.rs:122-132 | moving by zero months returns `rust_ymd`'s own output |
| `Ymd.EdateSingle` | src/rust/src/lib.rs:122-132 | a one-element string vector that parses gives the R number of its date moved by the months |
| `Ymd.DatePart` | src/rust/src/lib.rs:134-144 | a date-part function applies its extractor to exactly the parsed dates; the detour through R numbers changes nothing |

## Left out

- R marshalling is host glue and is not modelled. This covers `Robj`, `rtype`, `set_class` and `extendr_module!`. It also covers the early return of `rust_ymd` for input that is already a `Date`, the panic on a vector that is neither numeric nor character, and the "is not a Date" errors of `robj2date`.
- R `Date` vectors are modelled as integers. `to_rdate` writes doubles, and `robj2date` reads them back through `d as i32`. Every double written is an integral value in i32, so the `Real` branch (`rdate.rs:12-22`) reads back the same numbers as the `Integer` branch that is modelled.
- `year_frac` is left out because it is floating-point arithmetic.
- Ymd.Dbl2Date: the input is a real, so NaN and the infinities are not represented. The source gives `None` for them, because `x % 1.0` is then NaN.
- `period::to_period` is not part of this model, so the period name reaches `Beop` as `Option<Period>`, where `None` means an unknown name. The extractors `wday`, `yday`, `iso_week` and `iso_wday` are not part of this model either; `Ymd.DatePart` takes the extractor as a parameter.
- Ymd.Str2Date: the recomposition `year * 10000 + month * 100 + day` is required to stay in i32. Rust would panic there in a debug build and wrap in a release build.
- Ymd.Edate: it is built on the floored `Periods.AddMonths`, so it returns a date where the source panics (see Findings). The parser reaches that case: `edate("000.01.15", -1)` panics in the source and gives -0001-12-15 in the model (`Ymd.Str2DateYearZeroExample`, `Periods.AddMonthsAsWrittenYearZeroExample` and `Ymd.EdateSingle`).
- Calendar.IsValidYmd: the year bounds follow chrono 0.4.19 and earlier 0.4 releases. Later 0.4 releases keep one year of headroom at each end (`(i32::MIN >> 13) + 1` to `(i32::MAX >> 13) - 1`), which this model does not follow. The bounds matter only for dates near those limits.
- Periods.AddMonths: `year * 12 + month + n` is required to stay in i32, and the target month and the month after it are required to lie within chrono's years. The source panics otherwise.
- Periods.Eop and Periods.MonthEndOf: for `Month`, a date before year 0 in months 1 to 11 makes the source panic in `add_months(bop, 1)` (see Findings), while the model returns the month's last day (`Periods.EopMonthAsWrittenPanics`). The parser only gives years from 0 on, but an R `Date` vector passed to `period_end` reaches the case, e.g. `eop(-0001-06-15, Month)`.
- Periods.AddDays, Periods.Bop and Periods.Eop: a result outside chrono's day range is excluded by a precondition, because `from_num_days_from_ce` and `from_isoywd` panic there.
- Ymd.ParseI32 models `str::parse::<i32>` on ASCII. Non-ASCII characters never parse, which is all the parser needs.

## Findings

| source | as written | input that shows it | evidently intended | confidence | as-written member | corrected member |
|---|---|---|---|---|---|---|
| src/rust/src/period.rs:9-10 | `add_months` takes year and month with Rust's truncating `/` and `%`; for an absolute month count below 1, unless the count less one is a multiple of 12 (a January target), the month comes out as 0 or negative and `from_ymd` panics | `add_months(-0001-12-15, 0)`: the count is -1*12 + 12 + 0 = 0, so the month is (-1 % 12) + 1 = 0; through `eop`, `eop(-0001-06-15, Month)`: the count is -1*12 + 6 + 1 = -5, so the month is (-6 % 12) + 1 = -5 | floored division, so every date before year 0 shifts like any other (-0001-12-15 + 0 months = -0001-12-15); reachable from the parser as `edate("000.01.15", -1)` | medium, not executed | Periods.AddMonthsAsWritten | Periods.AddMonths |

/** Calendar arithmetic and period boundaries (`period.rs`): shifting a date
    by days or by months, and the first and last day of the year, half-year,
    quarter, month or ISO week that holds it. */
module Periods {
  import opened Optional
  import opened Int32
  import opened Calendar

  function Min(a: int, b: int): int {
    if a <= b then a else b
  }

  /** Months since January of year 0: the coordinate `add_months` shifts. */
  function AbsoluteMonth(d: Date): int {
    d.year * 12 + d.month - 1
  }

  /** `add_days`: `from_num_days_from_ce` panics when the sum leaves chrono's
      range, so callers must stay inside it. */
  function AddDays(d: NaiveDate, n: int): (r: NaiveDate)
    requires IsI32(n) && InDayRange(DaysFromCE(d) + n)
    ensures DaysFromCE(r) == DaysFromCE(d) + n
  {
    FromDaysFromCE(DaysFromCE(d) + n)
  }

  /** Shifting by zero days changes nothing. */
  lemma AddDaysZero(d: NaiveDate)
    ensures InDayRange(DaysFromCE(d)) && AddDays(d, 0) == d
  {
    DaysFromCERoundTrip(d);
  }

  /** Two day shifts add up. */
  lemma AddDaysCompose(d: NaiveDate, a: int, b: int)
    requires IsI32(a) && IsI32(b) && IsI32(a + b)
    requires InDayRange(DaysFromCE(d) + a) && InDayRange(DaysFromCE(d) + a + b)
    ensures AddDays(AddDays(d, a), b) == AddDays(d, a + b)
  {
    DaysFromCEInjective(AddDays(AddDays(d, a), b), AddDays(d, a + b));
  }

  /** A forward shift never moves a date earlier, and a backward one never later. */
  lemma AddDaysOrder(d: NaiveDate, n: int)
    requires IsI32(n) && InDayRange(DaysFromCE(d) + n)
    ensures n >= 0 <==> LessEq(d, AddDays(d, n))
  {
    OrderIsDayCountOrder(d, AddDays(d, n));
  }

  /** Target year and month of `add_months`, with floored division. */
  function ShiftedMonth(d: Date, n: int): (ym: (int, int))
    ensures 1 <= ym.1 <= 12
    ensures ym.0 * 12 + ym.1 - 1 == AbsoluteMonth(d) + n
  {
    var num := d.year * 12 + d.month + n;
    ((num - 1) / 12, (num - 1) % 12 + 1)
  }

  lemma DivMod12(q: int, r: int)
    requires 0 <= r < 12
    ensures (q * 12 + r) / 12 == q && (q * 12 + r) % 12 == r
  {
  }

  /** What `add_months` needs to run without panicking: `months` and the
      month arithmetic fit in i32, and the target month and the month after
      it (whose first day `from_ymd` forms) are within chrono's years. */
  predicate AddMonthsDefined(d: NaiveDate, n: int) {
    var (y, m) := ShiftedMonth(d, n);
    && IsI32(n)
    && IsI32(d.year * 12 + d.month + n)
    && MinYear <= y
    && (if m == 12 then y + 1 else y) <= MaxYear
  }

  /** The gap between two consecutive first-of-months is the month's length. */
  lemma MonthLength(y: int, m: int)
    requires MinYear <= y && (if m == 12 then y + 1 else y) <= MaxYear && 1 <= m <= 12
    ensures var next := if m == 12 then Date(y + 1, 1, 1) else Date(y, m + 1, 1);
            DaysFromCE(next) - DaysFromCE(Date(y, m, 1)) == DaysInMonth(y, m)
  {
    MonthStep(y, m);
    if m == 12 {
      YearStep(y);
    }
  }

  /** `add_months`: moves the date by `n` months (floored month arithmetic)
      and clamps the day to the length of the target month, measured as the
      gap to the next month's first day. */
  function AddMonths(d: NaiveDate, n: int): (r: NaiveDate)
    requires AddMonthsDefined(d, n)
    ensures AbsoluteMonth(r) == AbsoluteMonth(d) + n
    ensures r.day == Min(d.day, DaysInMonth(r.year, r.month))
  {
    var (y, m) := ShiftedMonth(d, n);
    var next: NaiveDate := if m == 12 then Date(y + 1, 1, 1) else Date(y, m + 1, 1);
    var first: NaiveDate := Date(y, m, 1);
    var maxDay := DaysFromCE(next) - DaysFromCE(first);
    MonthLength(y, m);
    Date(y, m, if d.day > maxDay then maxDay else d.day)
  }

  /** Shifting by zero months changes nothing. */
  lemma AddMonthsZero(d: NaiveDate)
    requires AddMonthsDefined(d, 0)
    ensures AddMonths(d, 0) == d
  {
    DivMod12(d.year, d.month - 1);
    assert ShiftedMonth(d, 0) == (d.year, d.month);
  }

  /** The day of the month never grows, and it is kept whenever the target
      month is long enough. */
  lemma AddMonthsKeepsDay(d: NaiveDate, n: int)
    requires AddMonthsDefined(d, n)
    ensures AddMonths(d, n).day <= d.day
    ensures d.day <= DaysInMonth(AddMonths(d, n).year, AddMonths(d, n).month) ==> AddMonths(d, n).day == d.day
  {
  }

  /** `add_months` exactly as the source writes it, with Rust's truncating
      `/` and `%`: `None` stands for the panic of `from_ymd` when the month
      it computes is outside 1..12. */
  function AddMonthsAsWritten(d: NaiveDate, n: int): (r: Option<NaiveDate>)
    requires IsI32(n) && IsI32(d.year * 12 + d.month + n)
    ensures r.Some? ==> AbsoluteMonth(r.value) == AbsoluteMonth(d) + n
    ensures r.Some? ==> r.value.day == Min(d.day, DaysInMonth(r.value.year, r.value.month))
  {
    var num := d.year * 12 + d.month + n;
    var y, m := TruncDiv(num - 1, 12), TruncMod(num - 1, 12) + 1;
    if !(1 <= m <= 12 && MinYear <= y && (if m == 12 then y + 1 else y) <= MaxYear) then None
    else
      var next: NaiveDate := if m == 12 then Date(y + 1, 1, 1) else Date(y, m + 1, 1);
      var first: NaiveDate := Date(y, m, 1);
      var maxDay := DaysFromCE(next) - DaysFromCE(first);
      MonthLength(y, m);
      Some(Date(y, m, if d.day > maxDay then maxDay else d.day))
  }

  /** From year 0 on the written code and the floored definition agree. */
  lemma AddMonthsAsWrittenAgrees(d: NaiveDate, n: int)
    requires AddMonthsDefined(d, n)
    requires d.year * 12 + d.month + n >= 1
    ensures AddMonthsAsWritten(d, n) == Some(AddMonths(d, n))
  {
  }

  /** Before year 0 the written code panics whenever the target month is not
      January, although the target date exists. */
  lemma AddMonthsAsWrittenPanics(d: NaiveDate, n: int)
    requires AddMonthsDefined(d, n)
    requires d.year * 12 + d.month + n < 1 && AddMonths(d, n).month != 1
    ensures AddMonthsAsWritten(d, n).None?
  {
  }

  /** The concrete case: -0001-12-15 shifted by no months at all. */
  lemma AddMonthsAsWrittenExample()
    ensures AddMonthsDefined(Date(-1, 12, 15), 0)
    ensures AddMonths(Date(-1, 12, 15), 0) == Date(-1, 12, 15)
    ensures AddMonthsAsWritten(Date(-1, 12, 15), 0).None?
  {
  }

  /** A January target survives the truncation even before year 0: the count
      less one is then a multiple of 12, so the remainder is 0 and the month 1.
      With `AddMonthsAsWrittenPanics` this pins down exactly where the code
      panics. */
  lemma AddMonthsAsWrittenJanuary(d: NaiveDate, n: int)
    requires AddMonthsDefined(d, n) && AddMonths(d, n).month == 1
    ensures AddMonthsAsWritten(d, n) == Some(AddMonths(d, n))
  {
    var num := d.year * 12 + d.month + n;
    if num < 1 {
      var y := AddMonths(d, n).year;
      assert num - 1 == 12 * y;
      assert TruncDiv(num - 1, 12) == y;
    } else {
      AddMonthsAsWrittenAgrees(d, n);
    }
  }

  /** -0001-01-15 plus zero months: the count is -11, one less is -12, so the
      month is -12 % 12 + 1 = 1 and the year -12 / 12 = -1. */
  lemma AddMonthsAsWrittenJanuaryExample()
    ensures AddMonthsDefined(Date(-1, 1, 15), 0)
    ensures AddMonthsAsWritten(Date(-1, 1, 15), 0) == Some(Date(-1, 1, 15))
  {
    var d := Date(-1, 1, 15);
    AddMonthsZero(d);
    AddMonthsAsWrittenJanuary(d, 0);
  }

  /** Stepping back from January of year 0 lands on the count 0: the code
      panics, while the floored definition gives December of year -1. */
  lemma AddMonthsAsWrittenYearZeroExample()
    ensures AddMonthsDefined(Date(0, 1, 15), -1)
    ensures AddMonths(Date(0, 1, 15), -1) == Date(-1, 12, 15)
    ensures AddMonthsAsWritten(Date(0, 1, 15), -1).None?
  {
  }

  datatype Period = Year | Semiannual | Quarter | Month | Week

  /** Months per bucket of a month-based period. */
  function MonthSpan(p: Period): int
    requires !p.Week?
  {
    match p
    case Year => 12
    case Semiannual => 6
    case Quarter => 3
    case Month => 1
  }

  /** Whether `from_isoywd` can form the given weekday (Monday = 0) of the
      ISO week holding `d`; it panics at the edges of chrono's range. */
  predicate IsoWeekDayInRange(d: NaiveDate, weekday: int)
    requires 0 <= weekday < 7
  {
    InDayRange(IsoWeekDayCount(IsoWeekOf(d), weekday))
  }

  /** `NaiveDate::from_isoywd(x.iso_week().year(), x.iso_week().week(), wd)`:
      the day with weekday `wd` (Monday = 0) of the Monday-to-Sunday week
      that holds `d`. */
  function IsoWeekDay(d: NaiveDate, weekday: int): (r: NaiveDate)
    requires 0 <= weekday < 7 && IsoWeekDayInRange(d, weekday)
    ensures DaysFromMonday(r) == weekday
    ensures DaysFromCE(r) == DaysFromCE(d) - DaysFromMonday(d) + weekday
  {
    IsoWeekRoundTrip(d, weekday);
    WeekdayInWeek(DaysFromCE(d), weekday);
    FromDaysFromCE(IsoWeekDayCount(IsoWeekOf(d), weekday))
  }

  predicate BopDefined(d: NaiveDate, p: Period) {
    p.Week? ==> IsoWeekDayInRange(d, 0)
  }

  predicate EopDefined(d: NaiveDate, p: Period) {
    && (p.Week? ==> IsoWeekDayInRange(d, 6))
    && (p.Month? ==> AddMonthsDefined(Date(d.year, d.month, 1), 1))
  }

  /** `bop`: the first day of the period that holds `d`. For a month-based
      period it is day 1 of the bucket's first month (buckets start at
      months 1, 1 + span, ...); for a week it is the Monday of `d`'s ISO week. */
  function Bop(d: NaiveDate, p: Period): (r: NaiveDate)
    requires BopDefined(d, p)
    ensures !p.Week? ==> && r.year == d.year && r.day == 1
                         && r.month <= d.month < r.month + MonthSpan(p)
                         && (r.month - 1) % MonthSpan(p) == 0
    ensures p.Week? ==> && DaysFromMonday(r) == 0
                        && DaysFromCE(r) <= DaysFromCE(d) < DaysFromCE(r) + 7
  {
    match p
    case Year => Date(d.year, 1, 1)
    case Semiannual => Date(d.year, if d.month <= 6 then 1 else 7, 1)
    case Quarter =>
      Date(d.year, if d.month <= 3 then 1 else if d.month <= 6 then 4 else if d.month <= 9 then 7 else 10, 1)
    case Month => Date(d.year, d.month, 1)
    case Week => IsoWeekDay(d, 0)
  }

  /** Day 1 of the month after (y, m) is one day after the month's last day. */
  lemma MonthEnd(first: NaiveDate, next: NaiveDate)
    requires first.day == 1 && next.day == 1 && AbsoluteMonth(next) == AbsoluteMonth(first) + 1
    ensures Valid(Date(first.year, first.month, DaysInMonth(first.year, first.month)))
    ensures DaysFromCE(next) - 1 == DaysFromCE(Date(first.year, first.month, DaysInMonth(first.year, first.month)))
  {
    if first.month == 12 {
      assert next == Date(first.year + 1, 1, 1);
    } else {
      assert next == Date(first.year, first.month + 1, 1);
    }
    MonthLength(first.year, first.month);
  }

  /** The `Month` row of `eop`: one day before the first day of the next
      month, `add_days(add_months(bop, 1), -1)`, which is the month's last day. */
  function MonthEndOf(d: NaiveDate): (r: NaiveDate)
    requires AddMonthsDefined(Date(d.year, d.month, 1), 1)
    ensures r == Date(d.year, d.month, DaysInMonth(d.year, d.month))
  {
    var first: NaiveDate := Date(d.year, d.month, 1);
    var next := AddMonths(first, 1);
    MonthEnd(first, next);
    var last: NaiveDate := Date(d.year, d.month, DaysInMonth(d.year, d.month));
    DaysFromCERoundTrip(last);
    var r := AddDays(next, -1);
    DaysFromCEInjective(r, last);
    r
  }

  /** `eop`: the last day of the period that holds `d`. For a month-based
      period it is the last calendar day of the bucket's last month (for
      `Month`, computed as the day before the next month's first day); for a
      week it is the Sunday of `d`'s ISO week. */
  function Eop(d: NaiveDate, p: Period): (r: NaiveDate)
    requires EopDefined(d, p)
    ensures !p.Week? ==> && r.year == d.year && r.day == DaysInMonth(r.year, r.month)
                         && r.month - MonthSpan(p) < d.month <= r.month
                         && r.month % MonthSpan(p) == 0
    ensures p.Week? ==> && DaysFromMonday(r) == 6
                        && DaysFromCE(r) - 7 < DaysFromCE(d) <= DaysFromCE(r)
  {
    match p
    case Year => Date(d.year, 12, 31)
    case Semiannual => if d.month <= 6 then Date(d.year, 6, 30) else Date(d.year, 12, 31)
    case Quarter =>
      if d.month <= 3 then Date(d.year, 3, 31)
      else if d.month <= 6 then Date(d.year, 6, 30)
      else if d.month <= 9 then Date(d.year, 9, 30)
      else Date(d.year, 12, 31)
    case Month => MonthEndOf(d)
    case Week => IsoWeekDay(d, 6)
  }

  /** `eop` by month goes through `add_months(bop, 1)`. Before year 0 every
      month but December has a non-January successor below the count 1, so
      the truncating code panics there, while the model gives the month end
      (for -0001-06-15, the model gives -0001-06-30). */
  lemma EopMonthAsWrittenPanics(d: NaiveDate)
    requires MinYear <= d.year < 0 && d.month <= 11
    ensures EopDefined(d, Month) && AddMonthsDefined(Date(d.year, d.month, 1), 1)
    ensures AddMonthsAsWritten(Date(d.year, d.month, 1), 1).None?
    ensures Eop(d, Month) == Date(d.year, d.month, DaysInMonth(d.year, d.month))
  {
    var first: NaiveDate := Date(d.year, d.month, 1);
    DivMod12(d.year, d.month);
    assert ShiftedMonth(first, 1) == (d.year, d.month + 1);
    assert AddMonths(first, 1).month == d.month + 1;
    AddMonthsAsWrittenPanics(first, 1);
    assert Eop(d, Month) == MonthEndOf(d);
  }

  /** Every date lies between the first and the last day of its period. */
  lemma BopEopBracket(d: NaiveDate, p: Period)
    requires BopDefined(d, p) && EopDefined(d, p)
    ensures LessEq(Bop(d, p), d) && LessEq(d, Eop(d, p))
  {
    if p.Week? {
      OrderIsDayCountOrder(Bop(d, p), d);
      OrderIsDayCountOrder(d, Eop(d, p));
    }
  }

  /** A Monday is the first day of its own ISO week, a Sunday the last. */
  lemma WeekBoundaryFixed(b: NaiveDate, weekday: int)
    requires weekday == 0 || weekday == 6
    requires DaysFromMonday(b) == weekday
    ensures IsoWeekDayInRange(b, weekday)
    ensures IsoWeekDay(b, weekday) == b
  {
    IsoWeekRoundTrip(b, weekday);
    DaysFromCERoundTrip(b);
    assert IsoWeekDayCount(IsoWeekOf(b), weekday) == DaysFromCE(b);
    DaysFromCEInjective(IsoWeekDay(b, weekday), b);
  }

  /** The first day of a period begins that same period. */
  lemma BopIdempotent(d: NaiveDate, p: Period)
    requires BopDefined(d, p)
    ensures BopDefined(Bop(d, p), p) && Bop(Bop(d, p), p) == Bop(d, p)
  {
    if p.Week? {
      WeekBoundaryFixed(Bop(d, p), 0);
    }
  }

  /** The last day of a period ends that same period. */
  lemma EopIdempotent(d: NaiveDate, p: Period)
    requires EopDefined(d, p)
    ensures EopDefined(Eop(d, p), p) && Eop(Eop(d, p), p) == Eop(d, p)
  {
    if p.Week? {
      WeekBoundaryFixed(Eop(d, p), 6);
    }
  }

  /** A shift lands on the date whose day count is the shifted count. */
  lemma AddDaysLandsOn(d: NaiveDate, n: int, e: NaiveDate)
    requires IsI32(n) && InDayRange(DaysFromCE(d) + n)
    requires DaysFromCE(e) == DaysFromCE(d) + n
    ensures AddDays(d, n) == e
  {
    DaysFromCEInjective(AddDays(d, n), e);
  }

  /** The source's tests of `add_days`: across a year, a month and a year end. */
  lemma AddDaysIntoPreviousYearExample()
    ensures AddDays(Date(2021, 1, 1), -1) == Date(2020, 12, 31)
  {
    DayRangeValues();
    AddDaysLandsOn(Date(2021, 1, 1), -1, Date(2020, 12, 31));
  }

  lemma AddDaysIntoNextMonthExample()
    ensures AddDays(Date(2021, 1, 31), 1) == Date(2021, 2, 1)
  {
    DayRangeValues();
    AddDaysLandsOn(Date(2021, 1, 31), 1, Date(2021, 2, 1));
  }

  lemma AddDaysIntoNextYearExample()
    ensures AddDays(Date(2021, 12, 31), 1) == Date(2022, 1, 1)
  {
    DayRangeValues();
    AddDaysLandsOn(Date(2021, 12, 31), 1, Date(2022, 1, 1));
  }

  /** The source's tests of `add_months`: back across a year boundary,
      into a short month, and forward by a whole year. */
  lemma AddMonthsBackExample()
    ensures AddMonths(Date(2021, 1, 1), -1) == Date(2020, 12, 1)
  {
  }

  lemma AddMonthsShortExample()
    ensures AddMonths(Date(2021, 1, 31), 1) == Date(2021, 2, 28)
  {
  }

  lemma AddMonthsYearExample()
    ensures AddMonths(Date(2021, 12, 31), 12) == Date(2022, 12, 31)
  {
  }

  /** The source's tests of `bop` and `eop` on month-based periods. */
  lemma BopEopExamples()
    ensures Bop(Date(2021, 1, 15), Year) == Date(2021, 1, 1)
    ensures Bop(Date(2021, 12, 15), Semiannual) == Date(2021, 7, 1)
    ensures Bop(Date(2021, 5, 15), Quarter) == Date(2021, 4, 1)
    ensures Bop(Date(2021, 8, 31), Month) == Date(2021, 8, 1)
    ensures Eop(Date(2021, 1, 15), Year) == Date(2021, 12, 31)
    ensures Eop(Date(2021, 1, 15), Semiannual) == Date(2021, 6, 30)
    ensures Eop(Date(2021, 5, 15), Quarter) == Date(2021, 6, 30)
    ensures Eop(Date(2021, 2, 12), Month) == Date(2021, 2, 28)
  {
  }

  /** The Monday of `d`'s week is the day `DaysFromMonday(d)` days before it. */
  lemma WeekBop(d: NaiveDate, monday: NaiveDate)
    requires DaysFromCE(monday) == DaysFromCE(d) - DaysFromMonday(d)
    ensures BopDefined(d, Week) && Bop(d, Week) == monday
  {
    IsoWeekRoundTrip(d, 0);
    DaysFromCERoundTrip(monday);
    DaysFromCEInjective(Bop(d, Week), monday);
  }

  /** The Sunday of `d`'s week is six days after its Monday. */
  lemma WeekEop(d: NaiveDate, sunday: NaiveDate)
    requires DaysFromCE(sunday) == DaysFromCE(d) - DaysFromMonday(d) + 6
    ensures EopDefined(d, Week) && Eop(d, Week) == sunday
  {
    IsoWeekRoundTrip(d, 6);
    DaysFromCERoundTrip(sunday);
    DaysFromCEInjective(Eop(d, Week), sunday);
  }

  /** The source's tests of `bop` and `eop` by week: 2022-01-01 is a
      Saturday, in the week from Monday 2021-12-27 to Sunday 2022-01-02. */
  lemma BopWeekExample()
    ensures BopDefined(Date(2022, 1, 1), Week) && Bop(Date(2022, 1, 1), Week) == Date(2021, 12, 27)
  {
    var d: NaiveDate := Date(2022, 1, 1);
    assert DaysFromCE(d) == 738156;
    assert DaysFromMonday(d) == 5;
    WeekBop(d, Date(2021, 12, 27));
  }

  lemma EopWeekExample()
    ensures EopDefined(Date(2022, 1, 1), Week) && Eop(Date(2022, 1, 1), Week) == Date(2022, 1, 2)
  {
    var d: NaiveDate := Date(2022, 1, 1);
    assert DaysFromCE(d) == 738156;
    assert DaysFromMonday(d) == 5;
    WeekEop(d, Date(2022, 1, 2));
  }
}

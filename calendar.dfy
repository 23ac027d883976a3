/** The proleptic Gregorian calendar behind chrono's `NaiveDate`, rebuilt
    from its rules: validity of a (year, month, day) triple, the day count
    from the common era and its inverse, the order of dates, weekdays and
    ISO 8601 week dates. */
module Calendar {
  import opened Optional

  /** The years chrono 0.4.19 and earlier 0.4 releases support: `i32::MIN >> 13`
      to `i32::MAX >> 13`. Later releases give up one year at each end. */
  const MinYear: int := -262144
  const MaxYear: int := 262143

  datatype Date = Date(year: int, month: int, day: int)

  /** Gregorian rule: every fourth year, except centuries not divisible by 400. */
  predicate IsLeapYear(y: int) {
    y % 4 == 0 && (y % 100 != 0 || y % 400 == 0)
  }

  function YearLength(y: int): int {
    if IsLeapYear(y) then 366 else 365
  }

  function DaysInMonth(y: int, m: int): (n: int)
    requires 1 <= m <= 12
    ensures 28 <= n <= 31
    ensures n == 29 <==> m == 2 && IsLeapYear(y)
  {
    if m == 2 then (if IsLeapYear(y) then 29 else 28)
    else if m == 4 || m == 6 || m == 9 || m == 11 then 30
    else 31
  }

  predicate IsValidYmd(y: int, m: int, d: int) {
    MinYear <= y <= MaxYear && 1 <= m <= 12 && 1 <= d <= DaysInMonth(y, m)
  }

  predicate Valid(d: Date) {
    IsValidYmd(d.year, d.month, d.day)
  }

  /** chrono's `NaiveDate`: a date can only be formed when it is valid. */
  type NaiveDate = d: Date | Valid(d) witness Date(1970, 1, 1)

  /** `NaiveDate::from_ymd_opt`: the date, or `None` when the triple is not one. */
  function FromYmdOpt(y: int, m: int, d: int): (r: Option<NaiveDate>)
    ensures r.Some? <==> IsValidYmd(y, m, d)
    ensures r.Some? ==> r.value == Date(y, m, d)
  {
    if IsValidYmd(y, m, d) then Some(Date(y, m, d)) else None
  }

  /** Days of a common year before month `m`; month 13 gives the whole year. */
  function CommonDaysBeforeMonth(m: int): int
    requires 1 <= m <= 13
  {
    match m
    case 1 => 0
    case 2 => 31
    case 3 => 59
    case 4 => 90
    case 5 => 120
    case 6 => 151
    case 7 => 181
    case 8 => 212
    case 9 => 243
    case 10 => 273
    case 11 => 304
    case 12 => 334
    case _ => 365
  }

  /** Days of year `y` before month `m`. */
  function DaysBeforeMonth(y: int, m: int): int
    requires 1 <= m <= 13
  {
    CommonDaysBeforeMonth(m) + (if m > 2 && IsLeapYear(y) then 1 else 0)
  }

  /** Days from 0001-01-01 to January 1 of year `y` (negative before year 1). */
  function DaysBeforeYear(y: int): int {
    var z := y - 1;
    365 * z + z / 4 - z / 100 + z / 400
  }

  /** `Datelike::num_days_from_ce`: 0001-01-01 is day 1. */
  function DaysFromCE(d: NaiveDate): int {
    DaysBeforeYear(d.year) + DaysBeforeMonth(d.year, d.month) + d.day
  }

  /** A date's day count lies within the days of its year. */
  lemma DaysFromCEInYear(d: NaiveDate)
    ensures DaysBeforeYear(d.year) < DaysFromCE(d) <= DaysBeforeYear(d.year) + YearLength(d.year)
  {
    MonthStep(d.year, d.month);
    MonthsIncrease(d.year, d.month, 13);
  }

  /** The day counts of chrono's first and last supported dates. */
  const MinDay: int := DaysBeforeYear(MinYear) + 1
  const MaxDay: int := DaysBeforeYear(MaxYear + 1)

  predicate InDayRange(n: int) {
    MinDay <= n <= MaxDay
  }

  lemma DayRangeValues()
    ensures MinDay == -95746495 && MaxDay == 95745764
  {
  }

  lemma MonthStep(y: int, m: int)
    requires 1 <= m <= 12
    ensures DaysBeforeMonth(y, m + 1) == DaysBeforeMonth(y, m) + DaysInMonth(y, m)
    ensures DaysBeforeMonth(y, 13) == YearLength(y)
  {
  }

  /** Month starts strictly increase through the year. */
  lemma MonthsIncrease(y: int, m1: int, m2: int)
    requires 1 <= m1 < m2 <= 13
    ensures DaysBeforeMonth(y, m1) + (if m1 <= 12 then DaysInMonth(y, m1) else 0) <= DaysBeforeMonth(y, m2)
  {
  }

  lemma YearStep(y: int)
    ensures DaysBeforeYear(y + 1) == DaysBeforeYear(y) + YearLength(y)
  {
    QuotientStep(y, 4);
    QuotientStep(y, 100);
    QuotientStep(y, 400);
    MultipleChain(y);
    var z := y - 1;
    assert DaysBeforeYear(y + 1) - DaysBeforeYear(y) == 365 + (y / 4 - z / 4) - (y / 100 - z / 100) + (y / 400 - z / 400);
  }

  /** A multiple of 400 is a multiple of 100, which is a multiple of 4. */
  lemma MultipleChain(y: int)
    ensures y % 400 == 0 ==> y % 100 == 0
    ensures y % 100 == 0 ==> y % 4 == 0
  {
    if y % 400 == 0 {
      RemainderOf100(y, 4 * (y / 400), 0);
    }
    if y % 100 == 0 {
      RemainderOf4(y, 25 * (y / 100), 0);
    }
  }

  /** From `y - 1` to `y` the quotient by `k` moves up by one exactly when
      `y` is a multiple of `k`. */
  lemma QuotientStep(y: int, k: int)
    requires k == 4 || k == 100 || k == 400
    ensures y / k == (y - 1) / k + (if y % k == 0 then 1 else 0)
  {
    if k == 4 {
      assert y / 4 == (y - 1) / 4 + (if y % 4 == 0 then 1 else 0);
    } else if k == 100 {
      assert y / 100 == (y - 1) / 100 + (if y % 100 == 0 then 1 else 0);
    } else {
      assert y / 400 == (y - 1) / 400 + (if y % 400 == 0 then 1 else 0);
    }
  }

  /** A year ends no later than any later year begins. */
  lemma YearsIncrease(y1: int, y2: int)
    requires y1 < y2
    ensures DaysBeforeYear(y1) + YearLength(y1) <= DaysBeforeYear(y2)
  {
    YearStep(y1);
    var a, b := y1, y2 - 1;
    assert a <= b;
    assert a / 400 <= b / 400;
    assert 4 * (b / 4 - a / 4) > b - a - 4;
    assert 100 * (b / 100 - a / 100) < b - a + 100;
  }

  /** Years of a 400-year cycle: year 400a+100b+4c+e+1 starts after whole
      cycles, centuries, four-year groups and years. */
  lemma CycleDays(a: int, b: int, c: int, e: int)
    requires 0 <= b <= 3 && 0 <= c <= 24 && 0 <= e <= 3
    ensures DaysBeforeYear(400 * a + 100 * b + 4 * c + e + 1)
            == 146097 * a + 36524 * b + 1461 * c + 365 * e
  {
    var z := 400 * a + 100 * b + 4 * c + e;
    assert z / 4 == 100 * a + 25 * b + c;
    assert z / 100 == 4 * a + b;
    assert z / 400 == a;
  }

  lemma LeapInCycle(a: int, b: int, c: int, e: int)
    requires 0 <= b <= 3 && 0 <= c <= 24 && 0 <= e <= 3
    ensures IsLeapYear(400 * a + 100 * b + 4 * c + e + 1) <==> e == 3 && (c != 24 || b == 3)
  {
    var y := 400 * a + 100 * b + 4 * c + e + 1;
    var k4, k100 := 100 * a + 25 * b + c, 4 * a + b;
    if e == 3 {
      RemainderOf4(y, k4 + 1, 0);
    } else {
      RemainderOf4(y, k4, e + 1);
    }
    if c == 24 && e == 3 {
      RemainderOf100(y, k100 + 1, 0);
    } else {
      RemainderOf100(y, k100, 4 * c + e + 1);
    }
    if b == 3 && c == 24 && e == 3 {
      RemainderOf400(y, a + 1, 0);
    } else {
      RemainderOf400(y, a, 100 * b + 4 * c + e + 1);
    }
  }

  /** `y % 4`, `y % 100` and `y % 400` when `y` is written as a multiple
      plus a remainder. */
  lemma RemainderOf4(y: int, k: int, r: int)
    requires 0 <= r < 4 && y == 4 * k + r
    ensures y % 4 == r
  {
  }

  lemma RemainderOf100(y: int, k: int, r: int)
    requires 0 <= r < 100 && y == 100 * k + r
    ensures y % 100 == r
  {
  }

  lemma RemainderOf400(y: int, k: int, r: int)
    requires 0 <= r < 400 && y == 400 * k + r
    ensures y % 400 == r
  {
  }

  /** The year holding day offset `z` (0 is 0001-01-01) and the 0-based
      ordinal of that day in its year. */
  function YearOrdinal(z: int): (r: (int, int))
    ensures 0 <= r.1 < YearLength(r.0)
    ensures DaysBeforeYear(r.0) + r.1 == z
  {
    var q400, r400 := z / 146097, z % 146097;
    var q100 := if r400 / 36524 < 3 then r400 / 36524 else 3;
    var r100 := r400 - 36524 * q100;
    var q4, r4 := r100 / 1461, r100 % 1461;
    var q1 := if r4 / 365 < 3 then r4 / 365 else 3;
    var r1 := r4 - 365 * q1;
    CycleDays(q400, q100, q4, q1);
    LeapInCycle(q400, q100, q4, q1);
    (400 * q400 + 100 * q100 + 4 * q4 + q1 + 1, r1)
  }

  lemma YearOrdinalUnique(y1: int, o1: int, y2: int, o2: int)
    requires 0 <= o1 < YearLength(y1) && 0 <= o2 < YearLength(y2)
    requires DaysBeforeYear(y1) + o1 == DaysBeforeYear(y2) + o2
    ensures y1 == y2 && o1 == o2
  {
    if y1 < y2 {
      YearsIncrease(y1, y2);
    } else if y2 < y1 {
      YearsIncrease(y2, y1);
    }
  }

  /** The month and day of the 0-based ordinal `o` of year `y`. */
  function OrdinalMonthDay(y: int, o: int): (r: (int, int))
    requires 0 <= o < YearLength(y)
    ensures 1 <= r.0 <= 12 && 1 <= r.1 <= DaysInMonth(y, r.0)
    ensures DaysBeforeMonth(y, r.0) + r.1 - 1 == o
  {
    var m :=
      if o < DaysBeforeMonth(y, 2) then 1
      else if o < DaysBeforeMonth(y, 3) then 2
      else if o < DaysBeforeMonth(y, 4) then 3
      else if o < DaysBeforeMonth(y, 5) then 4
      else if o < DaysBeforeMonth(y, 6) then 5
      else if o < DaysBeforeMonth(y, 7) then 6
      else if o < DaysBeforeMonth(y, 8) then 7
      else if o < DaysBeforeMonth(y, 9) then 8
      else if o < DaysBeforeMonth(y, 10) then 9
      else if o < DaysBeforeMonth(y, 11) then 10
      else if o < DaysBeforeMonth(y, 12) then 11
      else 12;
    (m, o - DaysBeforeMonth(y, m) + 1)
  }

  lemma MonthDayUnique(y: int, m1: int, d1: int, m2: int, d2: int)
    requires 1 <= m1 <= 12 && 1 <= d1 <= DaysInMonth(y, m1)
    requires 1 <= m2 <= 12 && 1 <= d2 <= DaysInMonth(y, m2)
    requires DaysBeforeMonth(y, m1) + d1 == DaysBeforeMonth(y, m2) + d2
    ensures m1 == m2 && d1 == d2
  {
    if m1 < m2 {
      MonthsIncrease(y, m1, m2);
    } else if m2 < m1 {
      MonthsIncrease(y, m2, m1);
    }
  }

  /** A year lies in chrono's range exactly when its days do. */
  lemma YearInRange(y: int, o: int)
    requires 0 <= o < YearLength(y)
    ensures MinYear <= y <= MaxYear <==> InDayRange(DaysBeforeYear(y) + o + 1)
  {
    if y < MinYear {
      YearsIncrease(y, MinYear);
    } else if MinYear < y {
      YearsIncrease(MinYear, y);
    }
    if y <= MaxYear {
      YearsIncrease(y, MaxYear + 1);
    } else if MaxYear + 1 < y {
      YearsIncrease(MaxYear + 1, y);
    }
  }

  /** `NaiveDate::from_num_days_from_ce`, defined on chrono's day range. */
  function FromDaysFromCE(n: int): (d: NaiveDate)
    requires InDayRange(n)
    ensures DaysFromCE(d) == n
  {
    var (y, o) := YearOrdinal(n - 1);
    YearInRange(y, o);
    var (m, day) := OrdinalMonthDay(y, o);
    Date(y, m, day)
  }

  /** `NaiveDate::from_num_days_from_ce_opt`: `None` outside chrono's range. */
  function FromDaysFromCEOpt(n: int): (r: Option<NaiveDate>)
    ensures r.Some? <==> InDayRange(n)
    ensures r.Some? ==> DaysFromCE(r.value) == n
  {
    if InDayRange(n) then Some(FromDaysFromCE(n)) else None
  }

  /** Every date's day count is in range, and decoding it gives the date back. */
  lemma {:induction false} DaysFromCERoundTrip(d: NaiveDate)
    ensures InDayRange(DaysFromCE(d))
    ensures FromDaysFromCE(DaysFromCE(d)) == d
  {
    var o := DaysBeforeMonth(d.year, d.month) + d.day - 1;
    MonthStep(d.year, d.month);
    MonthsIncrease(d.year, d.month, 13);
    YearInRange(d.year, o);
    var e := FromDaysFromCE(DaysFromCE(d));
    MonthStep(e.year, e.month);
    MonthsIncrease(e.year, e.month, 13);
    YearOrdinalUnique(d.year, o, e.year, DaysBeforeMonth(e.year, e.month) + e.day - 1);
    MonthDayUnique(d.year, d.month, d.day, e.month, e.day);
  }

  /** Distinct dates have distinct day counts. */
  lemma DaysFromCEInjective(a: NaiveDate, b: NaiveDate)
    ensures DaysFromCE(a) == DaysFromCE(b) ==> a == b
  {
    DaysFromCERoundTrip(a);
    DaysFromCERoundTrip(b);
  }

  /** chrono orders `NaiveDate` by year, then month, then day. */
  predicate LessEq(a: Date, b: Date) {
    a.year < b.year
    || (a.year == b.year && (a.month < b.month || (a.month == b.month && a.day <= b.day)))
  }

  lemma EarlierFieldsFewerDays(a: NaiveDate, b: NaiveDate)
    requires LessEq(a, b) && a != b
    ensures DaysFromCE(a) < DaysFromCE(b)
  {
    MonthStep(a.year, a.month);
    if a.year < b.year {
      MonthsIncrease(a.year, a.month, 13);
      YearsIncrease(a.year, b.year);
    } else if a.month < b.month {
      MonthsIncrease(a.year, a.month, b.month);
    }
  }

  /** The calendar order is the order of day counts. */
  lemma OrderIsDayCountOrder(a: NaiveDate, b: NaiveDate)
    ensures LessEq(a, b) <==> DaysFromCE(a) <= DaysFromCE(b)
  {
    if LessEq(a, b) && a != b {
      EarlierFieldsFewerDays(a, b);
    } else if !LessEq(a, b) {
      EarlierFieldsFewerDays(b, a);
    }
  }

  /** `Weekday::num_days_from_monday` of a day count: 0001-01-01 was a Monday. */
  function DayCountWeekday(n: int): (w: int)
    ensures 0 <= w < 7
  {
    (n - 1) % 7
  }

  /** Consecutive days have consecutive weekdays, a week later is the same
      weekday, and 0001-01-01 is a Monday. */
  lemma WeekdayStep(n: int)
    ensures DayCountWeekday(n + 1) == (DayCountWeekday(n) + 1) % 7
    ensures DayCountWeekday(n + 7) == DayCountWeekday(n)
    ensures DayCountWeekday(1) == 0
  {
    assert n == 7 * ((n - 1) / 7) + DayCountWeekday(n) + 1;
  }

  /** `Datelike::weekday().num_days_from_monday()` of a date. */
  function DaysFromMonday(d: NaiveDate): (w: int)
    ensures 0 <= w < 7
  {
    DayCountWeekday(DaysFromCE(d))
  }

  datatype IsoWeek = IsoWeek(year: int, week: int)

  /** `Datelike::iso_week` (ISO 8601 section 4.1.4): a Monday-to-Sunday week
      belongs to the year that holds its Thursday, and week 1 is the one that
      holds that year's first Thursday. */
  function IsoWeekOf(d: NaiveDate): (w: IsoWeek)
    ensures 1 <= w.week <= 53
    ensures var thursday := DaysFromCE(d) - DaysFromMonday(d) + 3;
            && DaysBeforeYear(w.year) < thursday <= DaysBeforeYear(w.year) + YearLength(w.year)
            && w.week == (thursday - DaysBeforeYear(w.year) - 1) / 7 + 1
  {
    IsoWeekOfMonday(DaysFromCE(d) - DaysFromMonday(d))
  }

  /** The ISO week that starts on day count `monday`: the week of the year
      holding its Thursday. */
  function IsoWeekOfMonday(monday: int): (w: IsoWeek)
    ensures 1 <= w.week <= 53
    ensures DaysBeforeYear(w.year) < monday + 3 <= DaysBeforeYear(w.year) + YearLength(w.year)
    ensures w.week == (monday + 3 - DaysBeforeYear(w.year) - 1) / 7 + 1
  {
    var r := YearOrdinal(monday + 2);
    IsoWeek(r.0, r.1 / 7 + 1)
  }

  /** Day count of `NaiveDate::from_isoywd(year, week, weekday)` with the
      weekday counted from Monday = 0: week 1 starts on the Monday on or
      before January 4. */
  function IsoWeekDayCount(w: IsoWeek, weekday: int): (n: int)
    requires 0 <= weekday < 7
    ensures DayCountWeekday(n) == weekday
    ensures DaysBeforeYear(w.year) + 7 * (w.week - 1) < n - weekday + 3 <= DaysBeforeYear(w.year) + 7 * w.week
  {
    var jan4 := DaysBeforeYear(w.year) + 4;
    WeekdayInWeek(jan4, weekday);
    WeekdayShift(jan4 - DayCountWeekday(jan4) + weekday, w.week - 1);
    jan4 - DayCountWeekday(jan4) + 7 * (w.week - 1) + weekday
  }

  /** Whole weeks later is the same weekday. */
  lemma WeekdayShift(n: int, k: int)
    ensures DayCountWeekday(n + 7 * k) == DayCountWeekday(n)
  {
    assert n + 7 * k - 1 == 7 * ((n - 1) / 7 + k) + DayCountWeekday(n);
  }

  /** The Monday of week 1 of the year starting at `start`, moved on by whole
      weeks to the week whose Thursday is `start + o`, is that Thursday's Monday. */
  lemma WeekOfThursday(start: int, o: int)
    requires 0 <= o && DayCountWeekday(start + o + 1) == 3
    ensures start + 4 - DayCountWeekday(start + 4) + 7 * (o / 7) == start + o - 2
  {
    var weeks := (start + o) / 7;
    assert start + o == 7 * weeks + 3;
    assert o == 7 * (o / 7) + o % 7;
    assert start + 3 == 7 * (weeks - o / 7) + (6 - o % 7);
  }

  /** The day `k` days after the Monday on or before day `n` is weekday `k`. */
  lemma WeekdayInWeek(n: int, k: int)
    requires 0 <= k < 7
    ensures DayCountWeekday(n - DayCountWeekday(n) + k) == k
  {
    assert n - DayCountWeekday(n) + k - 1 == 7 * ((n - 1) / 7) + k;
  }

  /** Week `o / 7 + 1` of year `y`, when day `o` of `y` is the Thursday
      after `monday`, starts on `monday`. */
  lemma WeekOfMonday(monday: int, y: int, o: int, weekday: int)
    requires 0 <= o && 0 <= weekday < 7
    requires DaysBeforeYear(y) + o == monday + 2 && DayCountWeekday(monday + 3) == 3
    ensures IsoWeekDayCount(IsoWeek(y, o / 7 + 1), weekday) == monday + weekday
  {
    WeekOfThursday(DaysBeforeYear(y), o);
  }

  /** The week that starts on a Monday, read back at one of its weekdays. */
  lemma IsoWeekOfMondayRoundTrip(monday: int, weekday: int)
    requires 0 <= weekday < 7 && DayCountWeekday(monday) == 0
    ensures IsoWeekDayCount(IsoWeekOfMonday(monday), weekday) == monday + weekday
  {
    var r := YearOrdinal(monday + 2);
    WeekdayInWeek(monday, 3);
    WeekOfMonday(monday, r.0, r.1, weekday);
  }

  /** Going to the ISO week of a date and back to one of its weekdays lands
      in the Monday-to-Sunday week that holds the date. */
  lemma IsoWeekRoundTrip(d: NaiveDate, weekday: int)
    requires 0 <= weekday < 7
    ensures IsoWeekDayCount(IsoWeekOf(d), weekday) == DaysFromCE(d) - DaysFromMonday(d) + weekday
  {
    var n := DaysFromCE(d);
    var monday := n - DayCountWeekday(n);
    assert IsoWeekOf(d) == IsoWeekOfMonday(monday);
    WeekdayInWeek(n, 0);
    IsoWeekOfMondayRoundTrip(monday, weekday);
  }

  /** 1970-01-01 was a Thursday and 2022-01-01 a Saturday. */
  lemma WeekdayExamples()
    ensures DaysFromMonday(Date(1970, 1, 1)) == 3
    ensures DaysFromMonday(Date(2022, 1, 1)) == 5
  {
    assert DaysFromCE(Date(1970, 1, 1)) == 719163;
    assert DaysFromCE(Date(2022, 1, 1)) == 738156;
  }

  /** A date whose week's Thursday is day `o` (0-based) of year `y` is in
      ISO week `o / 7 + 1` of `y`. */
  lemma IsoWeekOfThursday(d: NaiveDate, y: int, o: int)
    requires 0 <= o < YearLength(y)
    requires DaysFromCE(d) - DaysFromMonday(d) + 3 == DaysBeforeYear(y) + o + 1
    ensures IsoWeekOf(d) == IsoWeek(y, o / 7 + 1)
  {
    var w := IsoWeekOf(d);
    YearOrdinalUnique(w.year, DaysFromCE(d) - DaysFromMonday(d) + 2 - DaysBeforeYear(w.year), y, o);
  }

  /** Saturday 2022-01-01 lies in the week whose Thursday is 2021-12-30, so
      its ISO week is week 52 of 2021. */
  lemma IsoWeekExample()
    ensures IsoWeekOf(Date(2022, 1, 1)) == IsoWeek(2021, 52)
  {
    var d: NaiveDate := Date(2022, 1, 1);
    assert DaysFromCE(d) == 738156 && DaysFromMonday(d) == 5;
    assert DaysBeforeYear(2021) == 737790 && YearLength(2021) == 365;
    IsoWeekOfThursday(d, 2021, 363);
  }
}

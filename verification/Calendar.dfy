/** calendar/grigorian.c: timestamps in seconds since January 1 of year 1, and dates. */
module Calendar {
  import Limbs
  import opened Options

  const SECONDS_IN_DAY := 86400
  const DAYS_IN_4_PERIOD := 1461
  const DAYS_IN_100_PERIOD := 36524
  const DAYS_IN_400_PERIOD := 146097
  const TWO64 := 0x1_0000_0000_0000_0000

  const MONTH_DAYS: seq<int> := [
    31, 28, 31, 30, 31, 30, 31, 31, 30, 31, 30, 31,
    31, 29, 31, 30, 31, 30, 31, 31, 30, 31, 30, 31]

  const YEAR_DAY_BY_MONTH: seq<int> := [
    0, 31, 59, 90, 120, 151, 181, 212, 243, 273, 304, 334,
    0, 31, 60, 91, 121, 152, 182, 213, 244, 274, 305, 335]

  // ----- The calendar, year by year and month by month -----

  predicate IsLeap(year: int) {
    year % 4 == 0 && (year % 100 != 0 || year % 400 == 0)
  }

  function YearLength(year: int): int {
    if IsLeap(year) then 366 else 365
  }

  function MonthLength(year: int, month: int): int {
    if month == 2 then (if IsLeap(year) then 29 else 28)
    else if month == 4 || month == 6 || month == 9 || month == 11 then 30
    else 31
  }

  function DaysBeforeYear(year: nat): nat {
    if year <= 1 then 0 else DaysBeforeYear(year - 1) + YearLength(year - 1)
  }

  function DaysBeforeMonth(year: int, month: nat): nat {
    if month <= 1 then 0 else DaysBeforeMonth(year, month - 1) + MonthLength(year, month - 1)
  }

  predicate ValidDate(year: nat, month: nat, day: nat) {
    year >= 1 && 1 <= month <= 12 && 1 <= day <= MonthLength(year, month)
  }

  /** Number of the day, counting from zero at January 1 of year 1. */
  function DayNumber(year: nat, month: nat, day: nat): int {
    DaysBeforeYear(year) + DaysBeforeMonth(year, month) + day - 1
  }

  // ----- The arithmetic of the code -----

  function TruncToYear(date: nat): int {
    var res := date / SECONDS_IN_DAY;
    var res400, res400rem := res / DAYS_IN_400_PERIOD, res % DAYS_IN_400_PERIOD;
    if res400rem == DAYS_IN_400_PERIOD - 1 then (res - 365) * SECONDS_IN_DAY
    else
      var res100, res100rem := res400rem / DAYS_IN_100_PERIOD, res400rem % DAYS_IN_100_PERIOD;
      var res4, res4rem := res100rem / DAYS_IN_4_PERIOD, res100rem % DAYS_IN_4_PERIOD;
      var rest := if res4rem == DAYS_IN_4_PERIOD - 1 then 3 else res4rem / 365;
      (res400 * DAYS_IN_400_PERIOD + res100 * DAYS_IN_100_PERIOD + res4 * DAYS_IN_4_PERIOD + rest * 365) * SECONDS_IN_DAY
  }

  predicate IsLeapYear(date: nat) {
    var res400rem := date / SECONDS_IN_DAY % DAYS_IN_400_PERIOD;
    var res100rem := res400rem % DAYS_IN_100_PERIOD;
    if res400rem >= DAYS_IN_400_PERIOD - 366 then true
    else if res100rem >= DAYS_IN_100_PERIOD - 365 then false
    else res100rem % DAYS_IN_4_PERIOD >= DAYS_IN_4_PERIOD - 366
  }

  function ExtractYear(date: nat): nat {
    var res := date / SECONDS_IN_DAY;
    var res400, res400rem := res / DAYS_IN_400_PERIOD, res % DAYS_IN_400_PERIOD;
    var last := res400rem == DAYS_IN_400_PERIOD - 1;
    var res100 := if last then 3 else res400rem / DAYS_IN_100_PERIOD;
    var res100rem := if last then DAYS_IN_100_PERIOD else res400rem % DAYS_IN_100_PERIOD;
    var res4, res4rem := res100rem / DAYS_IN_4_PERIOD, res100rem % DAYS_IN_4_PERIOD;
    var rest := if res4rem == DAYS_IN_4_PERIOD - 1 then 3 else res4rem / 365;
    res400 * 400 + res100 * 100 + res4 * 4 + rest + 1
  }

  /** The closed form of the days before a year, as in make_date. */
  function ClosedDays(year: nat): int
    requires year >= 1
  {
    var y := year - 1;
    y / 400 * DAYS_IN_400_PERIOD + y % 400 / 100 * DAYS_IN_100_PERIOD + y % 100 / 4 * DAYS_IN_4_PERIOD + y % 4 * 365
  }

  /** The year `400 * a + 100 * b + 4 * c + e + 1`, by its periods. */
  predicate Periods(year: int, a: int, b: int, c: int, e: int) {
    year == 400 * a + 100 * b + 4 * c + e + 1 && 0 <= a && 0 <= b <= 3 && 0 <= c <= 24 && 0 <= e <= 3
  }

  lemma Divides(x: int, k: int, q: int, r: int)
    requires x == k * q + r && 0 <= r < k
    ensures x / k == q && x % k == r
  {
    Limbs.DivUnique(x, k, q, r);
  }

  lemma PeriodsOf(year: nat, a: int, b: int, c: int, e: int)
    requires Periods(year, a, b, c, e)
    ensures ClosedDays(year) == 146097 * a + 36524 * b + 1461 * c + 365 * e
    ensures IsLeap(year) <==> e == 3 && (c < 24 || b == 3)
  {
    var y := year - 1;
    Divides(y, 400, a, 100 * b + 4 * c + e);
    Divides(y % 400, 100, b, 4 * c + e);
    Divides(y, 100, 4 * a + b, 4 * c + e);
    Divides(y % 100, 4, c, e);
    Divides(y, 4, 100 * a + 25 * b + c, e);
    LeapByPeriods(year, a, b, c, e);
  }

  lemma LeapByPeriods(year: nat, a: int, b: int, c: int, e: int)
    requires Periods(year, a, b, c, e)
    ensures IsLeap(year) <==> e == 3 && (c < 24 || b == 3)
  {
    if e < 3 {
      Divides(year, 4, 100 * a + 25 * b + c, e + 1);
    } else {
      Divides(year, 4, 100 * a + 25 * b + c + 1, 0);
      if c < 24 {
        Divides(year, 100, 4 * a + b, 4 * c + 4);
      } else {
        Divides(year, 100, 4 * a + b + 1, 0);
        if b < 3 {
          Divides(year, 400, a, 100 * b + 100);
        } else {
          Divides(year, 400, a + 1, 0);
        }
      }
    }
  }

  lemma PeriodsExist(year: nat) returns (a: int, b: int, c: int, e: int)
    requires year >= 1
    ensures Periods(year, a, b, c, e)
  {
    var r := (year - 1) % 400;
    a, b, c, e := (year - 1) / 400, r / 100, r % 100 / 4, r % 4;
  }

  lemma ClosedStep(year: nat)
    requires year >= 1
    ensures ClosedDays(year + 1) == ClosedDays(year) + YearLength(year)
  {
    var a, b, c, e := PeriodsExist(year);
    PeriodsOf(year, a, b, c, e);
    hide ClosedDays, IsLeap;
    if e < 3 {
      PeriodsOf(year + 1, a, b, c, e + 1);
    } else if c < 24 {
      PeriodsOf(year + 1, a, b, c + 1, 0);
    } else if b < 3 {
      PeriodsOf(year + 1, a, b + 1, 0, 0);
    } else {
      PeriodsOf(year + 1, a + 1, 0, 0, 0);
    }
  }

  /** The closed form counts the days of all earlier years. */
  lemma {:induction false} ClosedIsSum(year: nat)
    requires year >= 1
    ensures ClosedDays(year) == DaysBeforeYear(year)
  {
    if year > 1 {
      ClosedIsSum(year - 1);
      ClosedStep(year - 1);
    }
  }

  /** The period decomposition that the extraction functions find for day `n`. */
  lemma DayPeriods(date: nat) returns (a: int, b: int, c: int, e: int, day: int)
    ensures Periods(ExtractYear(date), a, b, c, e)
    ensures date / SECONDS_IN_DAY == 146097 * a + 36524 * b + 1461 * c + 365 * e + day
    ensures 0 <= day < (if e == 3 && (c < 24 || b == 3) then 366 else 365)
    ensures TruncToYear(date) == (date / SECONDS_IN_DAY - day) * SECONDS_IN_DAY
    ensures IsLeapYear(date) <==> e == 3 && (c < 24 || b == 3)
  {
    var n := date / SECONDS_IN_DAY;
    a := n / DAYS_IN_400_PERIOD;
    var r := n % DAYS_IN_400_PERIOD;
    if r == DAYS_IN_400_PERIOD - 1 {
      b, c, e, day := 3, 24, 3, 365;
    } else {
      b := r / DAYS_IN_100_PERIOD;
      var r100 := r % DAYS_IN_100_PERIOD;
      c := r100 / DAYS_IN_4_PERIOD;
      var r4 := r100 % DAYS_IN_4_PERIOD;
      e := if r4 == DAYS_IN_4_PERIOD - 1 then 3 else r4 / 365;
      day := r4 - 365 * e;
    }
  }

  /** extract_year finds the year that contains the day; trunc_to_year is its January 1, and
      is_leap_year its leap rule. */
  lemma YearOfDay(date: nat)
    ensures var y, n := ExtractYear(date), date / SECONDS_IN_DAY;
            y >= 1 && DaysBeforeYear(y) <= n < DaysBeforeYear(y) + YearLength(y) &&
            TruncToYear(date) == DaysBeforeYear(y) * SECONDS_IN_DAY &&
            (IsLeapYear(date) <==> IsLeap(y))
  {
    hide ExtractYear, TruncToYear, IsLeapYear, ClosedDays, IsLeap, DaysBeforeYear;
    var a, b, c, e, day := DayPeriods(date);
    PeriodsOf(ExtractYear(date), a, b, c, e);
    ClosedIsSum(ExtractYear(date));
  }

  // ----- Months -----

  function LeapOffset(leap: bool): int {
    if leap then 12 else 0
  }

  lemma TableDays(year: int, month: nat)
    requires 1 <= month <= 12
    ensures MONTH_DAYS[month - 1 + LeapOffset(IsLeap(year))] == MonthLength(year, month)
  {
  }

  lemma TableYearDays(year: int, month: nat)
    requires 1 <= month <= 12
    ensures YEAR_DAY_BY_MONTH[month - 1 + LeapOffset(IsLeap(year))] == DaysBeforeMonth(year, month)
  {
    MonthSums(year);
    hide IsLeap, DaysBeforeMonth;
  }

  lemma MonthSums(year: int)
    ensures var l := if IsLeap(year) then 1 else 0;
            DaysBeforeMonth(year, 1) == 0 && DaysBeforeMonth(year, 2) == 31 && DaysBeforeMonth(year, 3) == 59 + l &&
            DaysBeforeMonth(year, 4) == 90 + l && DaysBeforeMonth(year, 5) == 120 + l && DaysBeforeMonth(year, 6) == 151 + l &&
            DaysBeforeMonth(year, 7) == 181 + l && DaysBeforeMonth(year, 8) == 212 + l && DaysBeforeMonth(year, 9) == 243 + l &&
            DaysBeforeMonth(year, 10) == 273 + l && DaysBeforeMonth(year, 11) == 304 + l && DaysBeforeMonth(year, 12) == 334 + l &&
            DaysBeforeMonth(year, 13) == YearLength(year)
  {
    hide IsLeap;
    assert DaysBeforeMonth(year, 4) == DaysBeforeMonth(year, 3) + 31;
    assert DaysBeforeMonth(year, 7) == DaysBeforeMonth(year, 6) + 30;
    assert DaysBeforeMonth(year, 10) == DaysBeforeMonth(year, 9) + 30;
  }

  lemma {:induction false} MonthsGrow(year: int, m: nat, m': nat)
    requires 1 <= m < m'
    ensures DaysBeforeMonth(year, m) + MonthLength(year, m) <= DaysBeforeMonth(year, m')
  {
    if m + 1 < m' {
      MonthsGrow(year, m, m' - 1);
    }
  }

  lemma {:induction false} YearsGrow(y: nat, y': nat)
    requires 1 <= y < y'
    ensures DaysBeforeYear(y) + YearLength(y) <= DaysBeforeYear(y')
  {
    if y + 1 < y' {
      YearsGrow(y, y' - 1);
    }
  }

  predicate Earlier(y: nat, m: nat, d: nat, y': nat, m': nat, d': nat) {
    y < y' || (y == y' && (m < m' || (m == m' && d < d')))
  }

  /** Dates map to day numbers in lexicographic order. */
  lemma DayNumberOrder(y: nat, m: nat, d: nat, y': nat, m': nat, d': nat)
    requires ValidDate(y, m, d) && ValidDate(y', m', d')
    ensures DayNumber(y, m, d) < DayNumber(y', m', d') <==> Earlier(y, m, d, y', m', d')
  {
    hide IsLeap, DaysBeforeYear, DaysBeforeMonth;
    if Earlier(y, m, d, y', m', d') {
      EarlierIsLess(y, m, d, y', m', d');
    } else if Earlier(y', m', d', y, m, d) {
      EarlierIsLess(y', m', d', y, m, d);
    }
  }

  lemma EarlierIsLess(y: nat, m: nat, d: nat, y': nat, m': nat, d': nat)
    requires ValidDate(y, m, d) && ValidDate(y', m', d') && Earlier(y, m, d, y', m', d')
    ensures DayNumber(y, m, d) < DayNumber(y', m', d')
  {
    hide IsLeap, DaysBeforeYear, DaysBeforeMonth;
    InsideYear(y, m, d);
    InsideYear(y', m', d');
    if y < y' {
      YearsGrow(y, y');
    } else if m < m' {
      MonthsGrow(y, m, m');
    }
  }

  lemma InsideYear(y: nat, m: nat, d: nat)
    requires ValidDate(y, m, d)
    ensures DaysBeforeYear(y) <= DayNumber(y, m, d) < DaysBeforeYear(y) + YearLength(y)
  {
    hide IsLeap, DaysBeforeYear;
    MonthSums(y);
    MonthsGrow(y, m, 13);
  }

  /** The fields of the date that contains the timestamp. */
  predicate IsDateOf(date: nat, year: nat, month: nat, day: nat) {
    ValidDate(year, month, day) && DayNumber(year, month, day) == date / SECONDS_IN_DAY
  }

  lemma DateUnique(date: nat, y: nat, m: nat, d: nat, y': nat, m': nat, d': nat)
    requires IsDateOf(date, y, m, d) && IsDateOf(date, y', m', d')
    ensures y == y' && m == m' && d == d'
  {
    hide DayNumber, ValidDate;
    DayNumberOrder(y, m, d, y', m', d');
    DayNumberOrder(y', m', d', y, m, d);
  }

  /** The day of the year that the month and day loops start from. */
  function YearDay(date: nat): int {
    (date - TruncToYear(date)) / SECONDS_IN_DAY
  }

  lemma YearDayRange(date: nat)
    ensures var y := ExtractYear(date);
            0 <= YearDay(date) < YearLength(y) && YearDay(date) == date / SECONDS_IN_DAY - DaysBeforeYear(y)
  {
    hide ExtractYear, TruncToYear, IsLeapYear, IsLeap, DaysBeforeYear;
    YearOfDay(date);
    WholeDays(date, DaysBeforeYear(ExtractYear(date)));
  }

  lemma WholeDays(date: nat, n: int)
    ensures (date - n * SECONDS_IN_DAY) / SECONDS_IN_DAY == date / SECONDS_IN_DAY - n
  {
  }

  /** The month whose days include the day of the year. */
  predicate InMonth(date: nat, month: nat) {
    var y := ExtractYear(date);
    1 <= month <= 12 && DaysBeforeMonth(y, month) <= YearDay(date) < DaysBeforeMonth(y, month) + MonthLength(y, month)
  }

  /** extract_month_of_year. */
  method ExtractMonthOfYear(date: nat) returns (month: nat)
    ensures InMonth(date, month)
  {
    hide ExtractYear, TruncToYear, YearDay, IsLeap, IsLeapYear, DaysBeforeMonth;
    ghost var y := ExtractYear(date);
    YearOfDay(date);
    YearDayRange(date);
    MonthSums(y);
    var yearDay := YearDay(date);
    var base := LeapOffset(IsLeapYear(date));
    month := 0;
    while true
      invariant 0 <= month <= 11 && yearDay == YearDay(date) - DaysBeforeMonth(y, month + 1) && yearDay >= 0
      decreases 12 - month
    {
      MonthStep(y, month + 1);
      TableDays(y, month + 1);
      yearDay := yearDay - MONTH_DAYS[base + month];
      month := month + 1;
      if yearDay < 0 {
        break;
      }
    }
  }

  /** extract_day_of_month. */
  method ExtractDayOfMonth(date: nat) returns (day: nat)
    ensures exists month :: InMonth(date, month) && IsDateOf(date, ExtractYear(date), month, day)
  {
    hide ExtractYear, TruncToYear, YearDay, IsLeap, IsLeapYear, DaysBeforeMonth, DaysBeforeYear;
    ghost var y := ExtractYear(date);
    YearOfDay(date);
    YearDayRange(date);
    MonthSums(y);
    var yearDay := YearDay(date);
    var base := LeapOffset(IsLeapYear(date));
    var index := 0;
    TableDays(y, 1);
    while yearDay >= MONTH_DAYS[base + index]
      invariant 0 <= index <= 11 && yearDay == YearDay(date) - DaysBeforeMonth(y, index + 1) && yearDay >= 0
      invariant MONTH_DAYS[base + index] == MonthLength(y, index + 1)
      decreases 12 - index
    {
      MonthStep(y, index + 1);
      yearDay := yearDay - MONTH_DAYS[base + index];
      index := index + 1;
      TableDays(y, index + 1);
    }
    day := yearDay + 1;
    assert InMonth(date, index + 1) && IsDateOf(date, y, index + 1, day);
  }

  lemma MonthStep(year: int, month: nat)
    requires month >= 1
    ensures DaysBeforeMonth(year, month + 1) == DaysBeforeMonth(year, month) + MonthLength(year, month)
  {
  }

  /** The month and the day that the two loops find belong to the same date. */
  lemma MonthOfDate(date: nat, month: nat, m: nat)
    requires InMonth(date, month) && InMonth(date, m)
    ensures month == m
  {
    hide ExtractYear, IsLeap, DaysBeforeMonth, DaysBeforeYear, YearDay;
    var y := ExtractYear(date);
    if month < m {
      MonthsGrow(y, month, m);
    } else if m < month {
      MonthsGrow(y, m, month);
    }
  }

  // ----- The order of days and seconds -----

  /** The timestamp of a valid date and time of day, before the 64-bit wrap. */
  function Timestamp(year: nat, month: nat, day: nat, time: nat): int {
    DayNumber(year, month, day) * SECONDS_IN_DAY + time
  }

  /** Months have 31 and 30 days in turn, with two of 31 days in July and August, and February apart. */
  lemma Knuckles(year: int, month: nat)
    requires 1 <= month <= 12
    ensures MonthLength(year, month) ==
      if month != 2 then 30 + (month + month / 8) % 2 else if YearLength(year) == 366 then 29 else 28
  {
    hide IsLeap;
  }

  /** The date after a date. */
  function NextDate(year: nat, month: nat, day: nat): (nat, nat, nat) {
    if day < MonthLength(year, month) then (year, month, day + 1)
    else if month < 12 then (year, month + 1, 1)
    else (year + 1, 1, 1)
  }

  /** Each valid date is followed by a valid date, one day later. */
  lemma NextDay(year: nat, month: nat, day: nat)
    requires ValidDate(year, month, day)
    ensures var (y, m, d) := NextDate(year, month, day);
      ValidDate(y, m, d) && DayNumber(y, m, d) == DayNumber(year, month, day) + 1
  {
    hide IsLeap;
    MonthStep(year, month);
    MonthSums(year);
    MonthSums(year + 1);
  }

  /** The days are counted from January 1 of year 1, and January 1 of 1970 is 719162 days later. */
  lemma Epoch()
    ensures DayNumber(1, 1, 1) == 0 && DayNumber(1970, 1, 1) == 719162
  {
    hide DaysBeforeYear;
    ClosedIsSum(1);
    ClosedIsSum(1970);
  }

  /** The second after 23:59:59 is the first one of the next date. */
  lemma NextSecond(year: nat, month: nat, day: nat)
    requires ValidDate(year, month, day)
    ensures var (y, m, d) := NextDate(year, month, day);
      Timestamp(year, month, day, 23 * 3600 + 59 * 60 + 59) + 1 == Timestamp(y, m, d, 0)
  {
    hide DayNumber, ValidDate;
    NextDay(year, month, day);
  }

  // ----- Building dates -----

  /** make_date. `date` is the timestamp written on success, in 64-bit arithmetic. */
  method MakeDate(year: nat, month: nat, day: nat) returns (rc: int, date: Option<nat>)
    requires year < TWO64
    ensures rc == 0 <==> ValidDate(year, month, day)
    ensures rc == 1 <==> month < 1 || month > 12
    ensures rc == 6 <==> 1 <= month <= 12 && year < 1
    ensures rc == 2 <==> 1 <= month <= 12 && year >= 1 && (day < 1 || day > MonthLength(year, month))
    ensures date == if rc == 0 then Some(DayNumber(year, month, day) * SECONDS_IN_DAY % TWO64) else None
  {
    hide DaysBeforeYear, DaysBeforeMonth, IsLeap, MonthLength;
    if month < 1 || month > 12 {
      return 1, None;
    }
    if year < 1 {
      return 6, None;
    }
    ClosedIsSum(year);
    TableDays(year, month);
    TableYearDays(year, month);
    var y400, y100, y4 := (year - 1) / 400, (year - 1) % 400 / 100, (year - 1) % 100 / 4;
    var leap := if ((year % 4 == 0 && year % 100 != 0) || year % 400 == 0) && year != 0 then 12 else 0;
    LeapTest(year);
    if day < 1 || day > MONTH_DAYS[month - 1 + leap] {
      return 2, None;
    }
    var days := y400 * DAYS_IN_400_PERIOD + y100 * DAYS_IN_100_PERIOD + y4 * DAYS_IN_4_PERIOD + (year - 1) % 4 * 365
                + YEAR_DAY_BY_MONTH[month - 1 + leap] + (day - 1);
    return 0, Some(days * SECONDS_IN_DAY % TWO64);
  }

  lemma LeapTest(year: nat)
    ensures (year % 4 == 0 && year % 100 != 0) || year % 400 == 0 <==> IsLeap(year)
  {
    if year % 400 == 0 {
      Divides(year, 4, 100 * (year / 400), 0);
    }
  }

  /** make_date_with_time: also rejects a time of day out of range, before looking at the date. */
  method MakeDateWithTime(year: nat, month: nat, day: nat, hour: nat, min: nat, sec: nat)
    returns (rc: int, date: Option<nat>)
    requires year < TWO64
    ensures rc == 0 <==> hour <= 23 && min <= 59 && sec <= 59 && ValidDate(year, month, day)
    ensures rc == 3 <==> hour > 23
    ensures rc == 4 <==> hour <= 23 && min > 59
    ensures rc == 5 <==> hour <= 23 && min <= 59 && sec > 59
    ensures rc == 1 <==> hour <= 23 && min <= 59 && sec <= 59 && (month < 1 || month > 12)
    ensures rc == 6 <==> hour <= 23 && min <= 59 && sec <= 59 && 1 <= month <= 12 && year < 1
    ensures rc == 2 <==> hour <= 23 && min <= 59 && sec <= 59 && 1 <= month <= 12 && year >= 1 &&
                         (day < 1 || day > MonthLength(year, month))
    ensures rc != 0 ==> date == None
    ensures rc == 0 ==>
      date == Some((DayNumber(year, month, day) * SECONDS_IN_DAY + hour * 3600 + min * 60 + sec) % TWO64)
  {
    if hour > 23 {
      return 3, None;
    }
    if min > 59 {
      return 4, None;
    }
    if sec > 59 {
      return 5, None;
    }
    rc, date := MakeDate(year, month, day);
    if rc == 0 {
      date := Some((date.value + hour * 3600 + min * 60 + sec) % TWO64);
      WrapTwice(DayNumber(year, month, day) * SECONDS_IN_DAY, hour * 3600 + min * 60 + sec);
    }
  }

  lemma WrapTwice(x: int, t: int)
    ensures (x % TWO64 + t) % TWO64 == (x + t) % TWO64
  {
  }

  /** Extracting from a made timestamp gives the date back exactly when the timestamp fits 64 bits. */
  lemma MakeThenExtractIff(year: nat, month: nat, day: nat, time: nat)
    requires ValidDate(year, month, day) && time < SECONDS_IN_DAY
    ensures Timestamp(year, month, day, time) >= 0
    ensures IsDateOf(Timestamp(year, month, day, time) % TWO64, year, month, day) <==>
            Timestamp(year, month, day, time) < TWO64
  {
    hide DaysBeforeYear, DaysBeforeMonth, IsLeap;
    var n := DayNumber(year, month, day);
    InsideYear(year, month, day);
    Divides(Timestamp(year, month, day, time), SECONDS_IN_DAY, n, time);
  }

  /** January 1 of the year 600,000,000,001 is made without an error and does not come back. */
  lemma TimestampWraps()
    ensures var year := 600_000_000_001;
            && ValidDate(year, 1, 1) && Timestamp(year, 1, 1, 0) >= TWO64
            && !IsDateOf(Timestamp(year, 1, 1, 0) % TWO64, year, 1, 1)
  {
    hide DaysBeforeYear, IsDateOf;
    var year := 600_000_000_001;
    ClosedIsSum(year);
    MakeThenExtractIff(year, 1, 1, 0);
  }

  /** The two extraction loops together. */
  method ExtractMonthAndDay(date: nat) returns (month: nat, day: nat)
    ensures IsDateOf(date, ExtractYear(date), month, day)
  {
    hide InMonth, IsDateOf, ExtractYear;
    month := ExtractMonthOfYear(date);
    day := ExtractDayOfMonth(date);
    ghost var m :| InMonth(date, m) && IsDateOf(date, ExtractYear(date), m, day);
    MonthOfDate(date, month, m);
  }

  /** Extracting from a made timestamp gives back the year, the month and the day, if the timestamp fits. */
  method MakeThenExtract(year: nat, month: nat, day: nat) returns (y: nat, m: nat, d: nat)
    requires ValidDate(year, month, day) && year < TWO64 && Timestamp(year, month, day, 0) < TWO64
    ensures y == year && m == month && d == day
  {
    hide DayNumber, ExtractYear;
    MakeThenExtractIff(year, month, day, 0);
    var rc, made := MakeDate(year, month, day);
    y := ExtractYear(made.value);
    m, d := ExtractMonthAndDay(made.value);
    DateUnique(made.value, year, month, day, y, m, d);
  }

  /** Rebuilding from the extracted fields gives the start of the timestamp's day, for every timestamp. */
  method Rebuild(date: nat) returns (start: nat)
    requires date < TWO64
    ensures start == date - date % SECONDS_IN_DAY
  {
    hide DaysBeforeYear, DaysBeforeMonth, IsLeap, ExtractYear, YearDay;
    var month, day := ExtractMonthAndDay(date);
    YearFits(date);
    var rc, made := MakeDate(ExtractYear(date), month, day);
    start := made.value;
  }

  lemma YearFits(date: nat)
    requires date < TWO64
    ensures ExtractYear(date) < TWO64
  {
    var n := date / SECONDS_IN_DAY;
    var a, b, c, e, day := DayPeriods(date);
  }
}

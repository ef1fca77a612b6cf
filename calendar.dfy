/**
 Calendar arithmetic of the radiation estimator: the day of year (DoY) and the
 integer Julian day (calcJD) of a time stamp.

 A numpy datetime64 is modelled as a proleptic Gregorian civil date plus the
 second of the day. The numpy unit conversions (to years, months and days)
 become explicit integer arithmetic on that record.
 */
module Calendar {

  const SecondsPerDay: int := 86400

  /** A civil time stamp: calendar date and second of the day. */
  datatype TimeStamp = TimeStamp(year: int, month: int, day: int, second: int)

  predicate IsLeapYear(year: int) {
    year % 4 == 0 && (year % 100 != 0 || year % 400 == 0)
  }

  function DaysInMonth(year: int, month: int): (n: int)
    requires 1 <= month <= 12
    ensures 28 <= n <= 31
    ensures n == 29 <==> month == 2 && IsLeapYear(year)
  {
    if month == 2 then (if IsLeapYear(year) then 29 else 28)
    else if month == 4 || month == 6 || month == 9 || month == 11 then 30
    else 31
  }

  function DaysInYear(year: int): (n: int)
    ensures n == 366 <==> IsLeapYear(year)
  {
    if IsLeapYear(year) then 366 else 365
  }

  /** Every datetime64 value denotes one of these. */
  predicate Valid(ts: TimeStamp) {
    1 <= ts.month <= 12 &&
    1 <= ts.day <= DaysInMonth(ts.year, ts.month) &&
    0 <= ts.second < SecondsPerDay
  }

  /** Number of days of `year` before the first day of `month` (month 13 stands for the next year). */
  function DaysBeforeMonth(year: int, month: int): (n: nat)
    requires 1 <= month <= 13
    ensures 28 * (month - 1) <= n <= 31 * (month - 1)
    decreases month
  {
    if month == 1 then 0 else DaysBeforeMonth(year, month - 1) + DaysInMonth(year, month - 1)
  }

  lemma DaysBeforeMonthOfYear(year: int)
    ensures DaysBeforeMonth(year, 13) == DaysInYear(year)
  {
    var feb := if IsLeapYear(year) then 29 else 28;
    assert DaysBeforeMonth(year, 3) == 31 + feb;
    assert DaysBeforeMonth(year, 7) == 31 + feb + 31 + 30 + 31 + 30;
    assert DaysBeforeMonth(year, 10) == 31 + feb + 31 + 30 + 31 + 30 + 31 + 31 + 30;
  }

  lemma {:induction false} DaysBeforeMonthBound(year: int, month: int)
    requires 1 <= month <= 12
    ensures DaysBeforeMonth(year, month) + DaysInMonth(year, month) <= DaysInYear(year)
    decreases 12 - month
  {
    if month == 12 {
      DaysBeforeMonthOfYear(year);
    } else {
      DaysBeforeMonthBound(year, month + 1);
    }
  }

  lemma {:induction false} MultipleAtLeast(k: int, d: int)
    requires k >= 1 && d > 0
    ensures k * d >= d
    decreases k
  {
    if k > 1 {
      MultipleAtLeast(k - 1, d);
      assert k * d == (k - 1) * d + d;
    }
  }

  /** Quotient and remainder of a division by a positive number are unique. */
  lemma DivideExactly(a: int, d: int, q: int, r: int)
    requires d > 0 && a == q * d + r && 0 <= r < d
    ensures a / d == q && a % d == r
  {
    var q', r' := a / d, a % d;
    assert a == q' * d + r';
    if q' < q {
      assert (q - q') * d == r' - r by { assert (q - q') * d == q * d - q' * d; }
      MultipleAtLeast(q - q', d);
      assert false;
    } else if q' > q {
      assert (q' - q) * d == r - r' by { assert (q' - q) * d == q' * d - q * d; }
      MultipleAtLeast(q' - q, d);
      assert false;
    }
  }

  // ---------------------------------------------------------------- DoY

  /** Seconds between the start of the time stamp's year and the time stamp (`time_stamp - base_time`). */
  function SecondsIntoYear(ts: TimeStamp): (seconds: int)
    requires Valid(ts)
    ensures 0 <= seconds < DaysInYear(ts.year) * SecondsPerDay
  {
    DaysBeforeMonthBound(ts.year, ts.month);
    (DaysBeforeMonth(ts.year, ts.month) + ts.day - 1) * SecondsPerDay + ts.second
  }

  /**
   DoY: whole days elapsed since the start of the year, plus one. The elapsed
   time is never negative, so astype(int) truncation is the integer quotient.
   */
  function DoY(ts: TimeStamp): (doy: int)
    requires Valid(ts)
    ensures doy == DaysBeforeMonth(ts.year, ts.month) + ts.day
    ensures 1 <= doy <= DaysInYear(ts.year) <= 366
  {
    DivideExactly(SecondsIntoYear(ts), SecondsPerDay, DaysBeforeMonth(ts.year, ts.month) + ts.day - 1, ts.second);
    DaysBeforeMonthBound(ts.year, ts.month);
    SecondsIntoYear(ts) / SecondsPerDay + 1
  }

  lemma DoYJanuaryFirst(year: int, second: int)
    requires 0 <= second < SecondsPerDay
    ensures DoY(TimeStamp(year, 1, 1, second)) == 1
  {
  }

  lemma DoYIgnoresTimeOfDay(ts: TimeStamp, second: int)
    requires Valid(ts) && 0 <= second < SecondsPerDay
    ensures DoY(ts.(second := second)) == DoY(ts)
  {
  }

  // ------------------------------------------------------- day stepping

  /** The same time of day on the following calendar day (`+ np.timedelta64(1, 'D')`). */
  function NextDay(ts: TimeStamp): (next: TimeStamp)
    requires Valid(ts)
    ensures Valid(next) && next.second == ts.second
    ensures next.year == ts.year || (next.year == ts.year + 1 && next.month == 1 && next.day == 1)
  {
    if ts.day < DaysInMonth(ts.year, ts.month) then ts.(day := ts.day + 1)
    else if ts.month < 12 then TimeStamp(ts.year, ts.month + 1, 1, ts.second)
    else TimeStamp(ts.year + 1, 1, 1, ts.second)
  }

  /** The time stamp `n` days later. */
  function AddDays(ts: TimeStamp, n: nat): (later: TimeStamp)
    requires Valid(ts)
    ensures Valid(later) && later.year >= ts.year && later.second == ts.second
    decreases n
  {
    if n == 0 then ts else AddDays(NextDay(ts), n - 1)
  }

  /** The same time of day on the preceding calendar day of the same year. */
  function PreviousDay(ts: TimeStamp): (prev: TimeStamp)
    requires Valid(ts) && !(ts.month == 1 && ts.day == 1)
    ensures Valid(prev) && prev.year == ts.year && NextDay(prev) == ts
  {
    if ts.day > 1 then ts.(day := ts.day - 1)
    else TimeStamp(ts.year, ts.month - 1, DaysInMonth(ts.year, ts.month - 1), ts.second)
  }

  /** Within a year DoY advances by one per day; after the year's last day it restarts at 1. */
  lemma DoYNextDay(ts: TimeStamp)
    requires Valid(ts)
    ensures NextDay(ts).year == ts.year ==> DoY(NextDay(ts)) == DoY(ts) + 1
    ensures NextDay(ts).year != ts.year ==> DoY(ts) == DaysInYear(ts.year) && DoY(NextDay(ts)) == 1
  {
    if ts.day == DaysInMonth(ts.year, ts.month) && ts.month == 12 {
      DaysBeforeMonthOfYear(ts.year);
    }
  }

  // ------------------------------------------------------------ calcJD

  /** Calendar month recovered as the source does: months since 1970-01, modulo 12, plus one. */
  function CalendarMonth(ts: TimeStamp): (mm: int)
    requires Valid(ts)
    ensures mm == ts.month
  {
    var monthsSinceEpoch := (ts.year - 1970) * 12 + ts.month - 1;
    DivideExactly(monthsSinceEpoch, 12, ts.year - 1970, ts.month - 1);
    monthsSinceEpoch % 12 + 1
  }

  /** Day of the month recovered as the source does: whole days since the month's start, plus one. */
  function DayOfMonth(ts: TimeStamp): (dd: int)
    requires Valid(ts)
    ensures dd == ts.day
  {
    var secondsIntoMonth := (ts.day - 1) * SecondsPerDay + ts.second;
    DivideExactly(secondsIntoMonth, SecondsPerDay, ts.day - 1, ts.second);
    secondsIntoMonth / SecondsPerDay + 1
  }

  /**
   The integer part of the Gregorian Julian-day formula for year `yy`, month
   `mm` (3..14) and day `dd`: floor(365.25*(yy+4716)) + floor(30.6001*(mm+1))
   + dd + B, with A = yy // 100 and B = 2 - A + A // 4. Python's `//` by a
   positive constant is Dafny's `/`; the two floors are exact integer divisions.
   */
  function GregorianCount(yy: int, mm: int, dd: int): (count: int) {
    var a := yy / 100;
    var b := 2 - a + a / 4;
    (36525 * (yy + 4716)) / 100 + (306001 * (mm + 1)) / 10000 + dd + b
  }

  /** The count calcJD works on: January and February are months 13 and 14 of the previous year. */
  function JulianDayCount(ts: TimeStamp): (count: int)
    requires Valid(ts)
  {
    var yy := ts.year;
    var mm := CalendarMonth(ts);
    var dd := DayOfMonth(ts);
    var yy' := if mm <= 2 then yy - 1 else yy;
    var mm' := if mm <= 2 then mm + 12 else mm;
    GregorianCount(yy', mm', dd)
  }

  /** astype(int) on a float: truncation toward zero. */
  function TruncateTowardZero(x: real): (r: int)
    ensures x >= 0.0 ==> r as real <= x < r as real + 1.0
    ensures x < 0.0 ==> r as real - 1.0 < x <= r as real
  {
    if x >= 0.0 then x.Floor else -((-x).Floor)
  }

  /**
   calcJD: the count minus 1524.5, truncated toward zero. Because the value
   always ends in .5, truncation drops the half day for non-negative values
   and adds it for negative ones.
   */
  function CalcJD(ts: TimeStamp): (jd: int)
    requires Valid(ts)
    ensures JulianDayCount(ts) >= 1525 ==> jd == JulianDayCount(ts) - 1525
    ensures JulianDayCount(ts) < 1525 ==> jd == JulianDayCount(ts) - 1524
  {
    TruncateTowardZero(JulianDayCount(ts) as real - 1524.5)
  }

  /** Months 1 and 2 are counted as months 13 and 14 of the previous year. */
  lemma JulianDayCountShift(ts: TimeStamp)
    requires Valid(ts)
    ensures ts.month <= 2 ==> JulianDayCount(ts) == GregorianCount(ts.year - 1, ts.month + 12, ts.day)
    ensures ts.month > 2 ==> JulianDayCount(ts) == GregorianCount(ts.year, ts.month, ts.day)
  {
  }

  lemma CalcJDIgnoresTimeOfDay(ts: TimeStamp, second: int)
    requires Valid(ts) && 0 <= second < SecondsPerDay
    ensures CalcJD(ts.(second := second)) == CalcJD(ts)
  {
  }

  /** floor(365.25 * x) == 365 * x + x // 4 */
  lemma YearTerm(x: int)
    ensures (36525 * x) / 100 == 365 * x + x / 4
  {
    DivideExactly(x, 4, x / 4, x % 4);
    DivideExactly(36525 * x, 100, 365 * x + x / 4, 25 * (x % 4));
  }

  /** The 365.25-day term grows by 366 exactly when the new March-based year starts a leap cycle. */
  lemma YearTermStep(y: int)
    ensures (36525 * (y + 4716)) / 100 - (36525 * (y - 1 + 4716)) / 100 == if y % 4 == 0 then 366 else 365
  {
    YearTerm(y + 4716);
    YearTerm(y - 1 + 4716);
  }

  /** The Gregorian correction B drops by one at a century year that is not a multiple of 400. */
  lemma CenturyTermStep(y: int)
    ensures var a, a' := y / 100, (y - 1) / 100;
            (2 - a + a / 4) - (2 - a' + a' / 4) ==
              if y % 100 != 0 then 0 else if y % 400 == 0 then 0 else -1
  {
    var a, a' := y / 100, (y - 1) / 100;
    if y % 100 == 0 {
      DivideExactly(y, 100, a, 0);
      DivideExactly(y - 1, 100, a - 1, 99);
      assert a' == a - 1;
      if y % 400 == 0 {
        DivideExactly(y, 400, y / 400, 0);
        DivideExactly(a, 4, y / 400, 0);
        DivideExactly(a - 1, 4, y / 400 - 1, 3);
      } else {
        DivideExactly(a, 4, a / 4, a % 4);
        DivideExactly(y, 400, a / 4, 100 * (a % 4));
        DivideExactly(a - 1, 4, a / 4, a % 4 - 1);
      }
    } else {
      DivideExactly(y, 100, a, y % 100);
      DivideExactly(y - 1, 100, a, y % 100 - 1);
    }
  }

  /** floor(30.6001 * (m + 2)) - floor(30.6001 * (m + 1)) is the length of March-based month m (3 = March ... 13 = January). */
  lemma MonthTermStep(m: int)
    requires 3 <= m <= 13
    ensures (306001 * (m + 2)) / 10000 - (306001 * (m + 1)) / 10000 ==
              if m == 4 || m == 6 || m == 9 || m == 11 then 30 else 31
  {
    if m == 3 { } else if m == 4 { } else if m == 5 { } else if m == 6 { }
    else if m == 7 { } else if m == 8 { } else if m == 9 { } else if m == 10 { }
    else if m == 11 { } else if m == 12 { } else { }
  }

  lemma CenturiesAreLeapCycles(y: int)
    ensures y % 100 == 0 ==> y % 4 == 0
    ensures y % 400 == 0 ==> y % 100 == 0
  {
    if y % 100 == 0 {
      DivideExactly(y, 100, y / 100, 0);
      DivideExactly(y, 4, 25 * (y / 100), 0);
    }
    if y % 400 == 0 {
      DivideExactly(y, 400, y / 400, 0);
      DivideExactly(y, 100, 4 * (y / 400), 0);
    }
  }

  /** Crossing from the last day of February to March 1 moves from month 14 of the previous year to month 3. */
  lemma GregorianCountLeapDayStep(y: int)
    ensures GregorianCount(y, 3, 1) - GregorianCount(y - 1, 14, DaysInMonth(y, 2)) == 1
  {
    var yearStep := (36525 * (y + 4716)) / 100 - (36525 * (y - 1 + 4716)) / 100;
    var a, a' := y / 100, (y - 1) / 100;
    var centuryStep := (2 - a + a / 4) - (2 - a' + a' / 4);
    YearTermStep(y);
    CenturyTermStep(y);
    CenturiesAreLeapCycles(y);
    assert (306001 * 4) / 10000 == 122 && (306001 * 15) / 10000 == 459;
    assert yearStep + centuryStep == 337 + DaysInMonth(y, 2) by {
      if y % 4 != 0 {
        assert yearStep == 365 && centuryStep == 0 && DaysInMonth(y, 2) == 28;
      } else if y % 100 != 0 {
        assert yearStep == 366 && centuryStep == 0 && DaysInMonth(y, 2) == 29;
      } else if y % 400 != 0 {
        assert yearStep == 366 && centuryStep == -1 && DaysInMonth(y, 2) == 28;
      } else {
        assert yearStep == 366 && centuryStep == 0 && DaysInMonth(y, 2) == 29;
      }
    }
  }

  /** Crossing the end of March-based month m (3..13) of year y. */
  lemma GregorianCountMonthStep(y: int, m: int, last: int)
    requires 3 <= m <= 13
    requires last == if m == 4 || m == 6 || m == 9 || m == 11 then 30 else 31
    ensures GregorianCount(y, m + 1, 1) - GregorianCount(y, m, last) == 1
  {
    MonthTermStep(m);
  }

  lemma JulianDayCountWithinMonth(ts: TimeStamp)
    requires Valid(ts) && ts.day < DaysInMonth(ts.year, ts.month)
    ensures JulianDayCount(NextDay(ts)) == JulianDayCount(ts) + 1
  {
    JulianDayCountShift(ts);
    JulianDayCountShift(NextDay(ts));
  }

  lemma JulianDayCountAfterFebruary(ts: TimeStamp)
    requires Valid(ts) && ts.month == 2 && ts.day == DaysInMonth(ts.year, 2)
    ensures JulianDayCount(NextDay(ts)) == JulianDayCount(ts) + 1
  {
    JulianDayCountShift(ts);
    JulianDayCountShift(NextDay(ts));
    GregorianCountLeapDayStep(ts.year);
  }

  lemma JulianDayCountAfterJanuary(ts: TimeStamp)
    requires Valid(ts) && ts.month == 1 && ts.day == 31
    ensures JulianDayCount(NextDay(ts)) == JulianDayCount(ts) + 1
  {
    var next := TimeStamp(ts.year, 2, 1, ts.second);
    assert NextDay(ts) == next;
    JulianDayCountShift(ts);
    JulianDayCountShift(next);
    GregorianCountMonthStep(ts.year - 1, 13, 31);
  }

  lemma JulianDayCountAfterMarchToNovember(ts: TimeStamp)
    requires Valid(ts) && 3 <= ts.month <= 11 && ts.day == DaysInMonth(ts.year, ts.month)
    ensures JulianDayCount(NextDay(ts)) == JulianDayCount(ts) + 1
  {
    var next := TimeStamp(ts.year, ts.month + 1, 1, ts.second);
    assert NextDay(ts) == next;
    JulianDayCountShift(ts);
    JulianDayCountShift(next);
    GregorianCountMonthStep(ts.year, ts.month, ts.day);
  }

  lemma JulianDayCountAfterDecember(ts: TimeStamp)
    requires Valid(ts) && ts.month == 12 && ts.day == 31
    ensures JulianDayCount(NextDay(ts)) == JulianDayCount(ts) + 1
  {
    var next := TimeStamp(ts.year + 1, 1, 1, ts.second);
    assert NextDay(ts) == next;
    JulianDayCountShift(ts);
    JulianDayCountShift(next);
    GregorianCountMonthStep(ts.year, 12, 31);
  }

  /** The Julian-day count steps by one from each calendar day to the next, whatever the year. */
  lemma JulianDayCountNextDay(ts: TimeStamp)
    requires Valid(ts)
    ensures JulianDayCount(NextDay(ts)) == JulianDayCount(ts) + 1
  {
    if ts.day < DaysInMonth(ts.year, ts.month) {
      JulianDayCountWithinMonth(ts);
    } else if ts.month == 2 {
      JulianDayCountAfterFebruary(ts);
    } else if ts.month == 1 {
      JulianDayCountAfterJanuary(ts);
    } else if ts.month < 12 {
      JulianDayCountAfterMarchToNovember(ts);
    } else {
      JulianDayCountAfterDecember(ts);
    }
  }

  /** From year -4712 on the count is at least 1525, so calcJD drops exactly the half day. */
  lemma JulianDayCountLowerBound(ts: TimeStamp)
    requires Valid(ts) && ts.year >= -4712
    ensures JulianDayCount(ts) >= 1525
  {
    var yy := if ts.month <= 2 then ts.year - 1 else ts.year;
    var mm := if ts.month <= 2 then ts.month + 12 else ts.month;
    YearTerm(yy + 4716);
    var a := yy / 100;
    DivideExactly(yy, 100, a, yy % 100);
    DivideExactly(a, 4, a / 4, a % 4);
    assert (306001 * (mm + 1)) / 10000 >= 122;
  }

  /** calcJD of consecutive calendar days differs by exactly one, across month ends, year ends and leap days. */
  lemma CalcJDNextDay(ts: TimeStamp)
    requires Valid(ts) && ts.year >= -4712
    ensures CalcJD(NextDay(ts)) == CalcJD(ts) + 1
  {
    JulianDayCountNextDay(ts);
    JulianDayCountLowerBound(ts);
  }

  lemma {:induction false} JulianDayCountAddDays(ts: TimeStamp, n: nat)
    requires Valid(ts)
    ensures JulianDayCount(AddDays(ts, n)) == JulianDayCount(ts) + n
    decreases n
  {
    if n > 0 {
      JulianDayCountAddDays(NextDay(ts), n - 1);
      JulianDayCountNextDay(ts);
    }
  }

  /** calcJD of the time stamp n days later is exactly n larger; in particular calcJD is increasing. */
  lemma CalcJDAddDays(ts: TimeStamp, n: nat)
    requires Valid(ts) && ts.year >= -4712
    ensures CalcJD(AddDays(ts, n)) == CalcJD(ts) + n
  {
    JulianDayCountAddDays(ts, n);
    JulianDayCountLowerBound(ts);
  }

  /** The first day of the proleptic Julian period in the Gregorian calendar, -4713-11-24, has count 1524. */
  lemma JulianPeriodStart()
    ensures Valid(TimeStamp(-4713, 11, 24, 0)) && JulianDayCount(TimeStamp(-4713, 11, 24, 0)) == 1524
  {
    assert GregorianCount(-4713, 11, 24) == 1524;
  }

  /**
   Truncation toward zero at the start of the Julian period: the day with
   count 1524 gives -0.5 and the next day 0.5, and both truncate to 0.
   */
  lemma CalcJDRepeatsAtEpoch(ts: TimeStamp)
    requires Valid(ts) && JulianDayCount(ts) == 1524
    ensures CalcJD(ts) == 0 && CalcJD(NextDay(ts)) == 0
  {
    JulianDayCountNextDay(ts);
  }

  lemma GregorianCountCycle(yy: int, mm: int, dd: int)
    ensures GregorianCount(yy + 400, mm, dd) == GregorianCount(yy, mm, dd) + 146097
  {
    YearTerm(yy + 4716);
    YearTerm(yy + 400 + 4716);
    var a := yy / 100;
    DivideExactly(yy, 100, a, yy % 100);
    DivideExactly(yy + 400, 100, a + 4, yy % 100);
    DivideExactly(a, 4, a / 4, a % 4);
    DivideExactly(a + 4, 4, a / 4 + 1, a % 4);
  }

  lemma LeapYearCycle(y: int)
    ensures IsLeapYear(y + 400) == IsLeapYear(y)
  {
    DivideExactly(y + 400, 4, y / 4 + 100, y % 4);
    DivideExactly(y + 400, 100, y / 100 + 4, y % 100);
    DivideExactly(y + 400, 400, y / 400 + 1, y % 400);
  }

  lemma JulianDayCountCycle(ts: TimeStamp)
    requires Valid(ts)
    ensures Valid(ts.(year := ts.year + 400))
    ensures JulianDayCount(ts.(year := ts.year + 400)) == JulianDayCount(ts) + 146097
  {
    var later := ts.(year := ts.year + 400);
    LeapYearCycle(ts.year);
    assert DaysInMonth(later.year, later.month) == DaysInMonth(ts.year, ts.month);
    var yy := if ts.month <= 2 then ts.year - 1 else ts.year;
    var mm := if ts.month <= 2 then ts.month + 12 else ts.month;
    assert JulianDayCount(ts) == GregorianCount(yy, mm, ts.day) by { JulianDayCountShift(ts); }
    assert JulianDayCount(later) == GregorianCount(yy + 400, mm, ts.day) by { JulianDayCountShift(later); }
    GregorianCountCycle(yy, mm, ts.day);
  }

  /** The Gregorian calendar repeats every 400 years, which are 146097 days. */
  lemma CalcJDGregorianCycle(ts: TimeStamp)
    requires Valid(ts) && ts.year >= -4712
    ensures Valid(ts.(year := ts.year + 400))
    ensures CalcJD(ts.(year := ts.year + 400)) == CalcJD(ts) + 146097
  {
    JulianDayCountCycle(ts);
    JulianDayCountLowerBound(ts);
  }

  /** DoY is the number of calendar days since January 1 of the same year, plus one, counted by calcJD. */
  lemma {:induction false} DoYFromCalcJD(ts: TimeStamp)
    requires Valid(ts) && ts.year >= -4712
    ensures DoY(ts) == CalcJD(ts) - CalcJD(TimeStamp(ts.year, 1, 1, 0)) + 1
    decreases DoY(ts)
  {
    if ts.month == 1 && ts.day == 1 {
      CalcJDIgnoresTimeOfDay(ts, 0);
    } else {
      var prev := PreviousDay(ts);
      DoYNextDay(prev);
      CalcJDNextDay(prev);
      DoYFromCalcJD(prev);
    }
  }

  /** The worked values: 2019-03-08, -09 and -10 are days 67, 68 and 69 of the year. */
  lemma DoYWorkedExample()
    ensures DoY(TimeStamp(2019, 3, 8, 0)) == 67
    ensures DoY(TimeStamp(2019, 3, 9, 0)) == 68
    ensures DoY(TimeStamp(2019, 3, 10, 0)) == 69
  {
    assert DaysBeforeMonth(2019, 3) == 59;
  }

  /** The worked values: 2019-03-08, -09 and -10 have Julian days 2458550, 2458551 and 2458552. */
  lemma CalcJDWorkedExample(day: int)
    requires 8 <= day <= 10
    ensures CalcJD(TimeStamp(2019, 3, day, 0)) == 2458542 + day
  {
    assert GregorianCount(2019, 3, day) == 2460067 + day;
  }
}

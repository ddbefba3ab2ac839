/**
 The proleptic Gregorian calendar of ISO 8601:2004 section 3.2.1 over whole minutes.

 A minute is counted from 0001-01-01 00:00 UTC, Go's zero time. `Date` normalises
 out-of-range months, days and hours the way `time.Date` does, and the accessors
 `YearOf`, `MonthOf`, ... read a minute back.
 */
module Calendar {

  const MINUTES_PER_HOUR := 60
  const HOURS_PER_DAY := 24
  const MINUTES_PER_DAY := 1440

  predicate IsLeap(year: int) {
    year % 4 == 0 && (year % 100 != 0 || year % 400 == 0)
  }

  function DaysInYear(year: int): int {
    if IsLeap(year) then 366 else 365
  }

  /** Days from 0001-01-01 to the first of January of `year`. */
  function DaysBeforeYear(year: int): int {
    var y := year - 1;
    365 * y + y / 4 - y / 100 + y / 400
  }

  /** Days from the first of January of `year` to the first of `month`; month 13 is the whole year. */
  function DaysBeforeMonth(year: int, month: int): int
    requires 1 <= month <= 13
  {
    var common := match month
      case 1 => 0 case 2 => 31 case 3 => 59 case 4 => 90 case 5 => 120 case 6 => 151
      case 7 => 181 case 8 => 212 case 9 => 243 case 10 => 273 case 11 => 304 case 12 => 334
      case _ => 365;
    if month > 2 && IsLeap(year) then common + 1 else common
  }

  function DaysInMonth(year: int, month: int): int
    requires 1 <= month <= 12
  {
    DaysBeforeMonth(year, month + 1) - DaysBeforeMonth(year, month)
  }

  /** The day number of a civil date; months outside 1 to 12 carry into the year and any day is accepted. */
  function DayNumber(year: int, month: int, day: int): int {
    var y := year + (month - 1) / 12;
    var m := (month - 1) % 12 + 1;
    DaysBeforeYear(y) + DaysBeforeMonth(y, m) + day - 1
  }

  /** `time.Date` in UTC: months carry into years, and days, hours and minutes carry upwards. */
  function Date(year: int, month: int, day: int, hour: int, minute: int): int {
    (DayNumber(year, month, day) * HOURS_PER_DAY + hour) * MINUTES_PER_HOUR + minute
  }

  // ---------------------------------------------------------------------------
  // From a day number back to a civil date
  // ---------------------------------------------------------------------------

  datatype YearDay = YearDay(year: int, day: int)

  /** The year of a day number and the day's zero-based position in that year, by 400-, 100-, 4- and 1-year cycles. */
  function ToYearDay(days: int): YearDay {
    var n400 := days / 146097;
    var d400 := days % 146097;
    var n100 := if d400 / 36524 == 4 then 3 else d400 / 36524;
    var d100 := d400 - 36524 * n100;
    var n4 := d100 / 1461;
    var d4 := d100 % 1461;
    var n1 := if d4 / 365 == 4 then 3 else d4 / 365;
    YearDay(400 * n400 + 100 * n100 + 4 * n4 + n1 + 1, d4 - 365 * n1)
  }

  /** The month holding zero-based day `yday` of `year`, searched upwards from `month`. */
  function MonthFrom(year: int, yday: int, month: int): (m: int)
    requires 1 <= month <= 12
    requires DaysBeforeMonth(year, month) <= yday < DaysInYear(year)
    ensures month <= m <= 12
    ensures DaysBeforeMonth(year, m) <= yday < DaysBeforeMonth(year, m + 1)
    decreases 12 - month
  {
    if month == 12 || yday < DaysBeforeMonth(year, month + 1) then month else MonthFrom(year, yday, month + 1)
  }

  lemma ToYearDayInverts(days: int)
    ensures var yd := ToYearDay(days);
            DaysBeforeYear(yd.year) + yd.day == days && 0 <= yd.day < DaysInYear(yd.year)
  {
    var n400 := days / 146097;
    var d400 := days % 146097;
    var n100 := if d400 / 36524 == 4 then 3 else d400 / 36524;
    var d100 := d400 - 36524 * n100;
    var n4 := d100 / 1461;
    var d4 := d100 % 1461;
    var n1 := if d4 / 365 == 4 then 3 else d4 / 365;
    CycleYears(n400, n100, n4, n1);
    var y := 400 * n400 + 100 * n100 + 4 * n4 + n1;
    assert ToYearDay(days).year - 1 == y;
  }

  /** Leap counting splits along the four cycle lengths. */
  lemma CycleYears(n400: int, n100: int, n4: int, n1: int)
    requires 0 <= n100 < 4 && 0 <= n4 < 25 && 0 <= n1 < 4
    ensures var y := 400 * n400 + 100 * n100 + 4 * n4 + n1;
            && y / 4 == 100 * n400 + 25 * n100 + n4
            && y / 100 == 4 * n400 + n100
            && y / 400 == n400
            && (IsLeap(y + 1) <==> n1 == 3 && (n4 != 24 || n100 == 3))
  {
    var y := 400 * n400 + 100 * n100 + 4 * n4 + n1;
    assert y == 4 * (100 * n400 + 25 * n100 + n4) + n1;
    assert y == 100 * (4 * n400 + n100) + (4 * n4 + n1);
    assert y == 400 * n400 + (100 * n100 + 4 * n4 + n1);
  }

  lemma YearLength(year: int)
    ensures DaysBeforeYear(year + 1) == DaysBeforeYear(year) + DaysInYear(year)
  {
    QuotientStep(year, 4);
    QuotientStep(year, 100);
    QuotientStep(year, 400);
    LeapCount(year);
    hide IsLeap;
  }

  /** A year is leap when the corrections of its fourth, hundredth and four-hundredth years add up to one. */
  lemma LeapCount(year: int)
    ensures (if year % 4 == 0 then 1 else 0) - (if year % 100 == 0 then 1 else 0) + (if year % 400 == 0 then 1 else 0)
            == if IsLeap(year) then 1 else 0
  {
  }

  lemma QuotientStep(n: int, k: int)
    requires k in {4, 100, 400}
    ensures n / k == (n - 1) / k + (if n % k == 0 then 1 else 0)
  {
  }

  lemma {:induction false} YearsAreOrdered(a: int, b: int)
    requires a < b
    ensures DaysBeforeYear(a) + DaysInYear(a) <= DaysBeforeYear(b)
    decreases b - a
  {
    YearLength(a);
    YearLength(b - 1);
    if a < b - 1 {
      YearsAreOrdered(a, b - 1);
    }
  }

  lemma YearDayIsUnique(year: int, yday: int)
    requires 0 <= yday < DaysInYear(year)
    ensures ToYearDay(DaysBeforeYear(year) + yday) == YearDay(year, yday)
  {
    var days := DaysBeforeYear(year) + yday;
    var yd := ToYearDay(days);
    ToYearDayInverts(days);
    if yd.year < year {
      YearsAreOrdered(yd.year, year);
    } else if year < yd.year {
      YearsAreOrdered(year, yd.year);
    }
  }

  // ---------------------------------------------------------------------------
  // Accessors of a minute
  // ---------------------------------------------------------------------------

  /** The year of a day number. */
  function YearOfDay(days: int): int {
    ToYearDay(days).year
  }

  /** The month of a day number. */
  function MonthOfDay(days: int): (m: int)
    ensures 1 <= m <= 12
  {
    ToYearDayInverts(days);
    MonthFrom(ToYearDay(days).year, ToYearDay(days).day, 1)
  }

  /** The day of the month of a day number. */
  function DayOfDay(days: int): (d: int)
    ensures 1 <= d <= 31
  {
    ToYearDayInverts(days);
    ToYearDay(days).day - DaysBeforeMonth(YearOfDay(days), MonthOfDay(days)) + 1
  }

  function YearOf(t: int): int {
    YearOfDay(t / MINUTES_PER_DAY)
  }

  function MonthOf(t: int): (m: int)
    ensures 1 <= m <= 12
  {
    MonthOfDay(t / MINUTES_PER_DAY)
  }

  function DayOf(t: int): (d: int)
    ensures 1 <= d <= 31
  {
    DayOfDay(t / MINUTES_PER_DAY)
  }

  /** Sunday is 0; 0001-01-01 was a Monday. */
  function WeekdayOf(t: int): (w: int)
    ensures 0 <= w <= 6
  {
    (t / MINUTES_PER_DAY + 1) % 7
  }

  function HourOf(t: int): (h: int)
    ensures 0 <= h <= 23
  {
    t / MINUTES_PER_HOUR % HOURS_PER_DAY
  }

  function MinuteOf(t: int): (m: int)
    ensures 0 <= m <= 59
  {
    t % MINUTES_PER_HOUR
  }

  /** The weekday advances by one from each day to the next; one known weekday therefore fixes them all. */
  lemma WeekdayAdvances(t: int)
    ensures WeekdayOf(t + MINUTES_PER_DAY) == (WeekdayOf(t) + 1) % 7
  {
    var day := t / MINUTES_PER_DAY;
    assert (t + MINUTES_PER_DAY) / MINUTES_PER_DAY == day + 1;
  }

  /** Thirty days hath September, April, June and November; February has 28, and 29 in leap years. */
  lemma MonthLengths(year: int, month: int)
    requires 1 <= month <= 12
    ensures DaysInMonth(year, month)
            == if month == 2 then (if IsLeap(year) then 29 else 28) else if month in {4, 6, 9, 11} then 30 else 31
  {
  }

  /** Every fourth year is leap, save three in four of those that end a century. */
  lemma LeapYears(k: int)
    ensures IsLeap(4 * k) <==> k % 25 != 0 || k % 100 == 0
    ensures !IsLeap(4 * k + 1) && !IsLeap(4 * k + 2) && !IsLeap(4 * k + 3)
  {
    FourTimes25(k);
    FourTimes100(k);
  }

  lemma FourTimes25(k: int)
    ensures 4 * k % 100 == 4 * (k % 25)
  {
    var q, r := k / 25, k % 25;
    assert 4 * k == 100 * q + 4 * r;
  }

  lemma FourTimes100(k: int)
    ensures 4 * k % 400 == 4 * (k % 100)
  {
    var q, r := k / 100, k % 100;
    assert 4 * k == 400 * q + 4 * r;
  }

  lemma SplitMinute(t: int)
    ensures t == (t / MINUTES_PER_DAY * HOURS_PER_DAY + HourOf(t)) * MINUTES_PER_HOUR + MinuteOf(t)
  {
  }

  lemma JoinMinute(days: int, hour: int, minute: int)
    requires 0 <= hour < 24 && 0 <= minute < 60
    ensures var t := (days * HOURS_PER_DAY + hour) * MINUTES_PER_HOUR + minute;
            t / MINUTES_PER_DAY == days && HourOf(t) == hour && MinuteOf(t) == minute
  {
    var t := (days * HOURS_PER_DAY + hour) * MINUTES_PER_HOUR + minute;
    assert t / MINUTES_PER_HOUR == days * HOURS_PER_DAY + hour;
  }

  /** In-range months do not carry. */
  lemma DayNumberInYear(year: int, month: int, day: int)
    requires 1 <= month <= 12
    ensures DayNumber(year, month, day) == DaysBeforeYear(year) + DaysBeforeMonth(year, month) + day - 1
  {
    assert (month - 1) / 12 == 0 && (month - 1) % 12 == month - 1;
  }

  lemma DayNumberOfFields(days: int)
    ensures DayNumber(YearOfDay(days), MonthOfDay(days), DayOfDay(days)) == days
    ensures DayOfDay(days) <= DaysInMonth(YearOfDay(days), MonthOfDay(days))
  {
    ToYearDayInverts(days);
    DayNumberInYear(YearOfDay(days), MonthOfDay(days), DayOfDay(days));
  }

  lemma FieldsOfDayNumber(year: int, month: int, day: int)
    requires 1 <= month <= 12 && 1 <= day <= DaysInMonth(year, month)
    ensures var days := DayNumber(year, month, day);
            YearOfDay(days) == year && MonthOfDay(days) == month && DayOfDay(days) == day
  {
    hide ToYearDay, IsLeap, DaysBeforeYear;
    var yday := DaysBeforeMonth(year, month) + day - 1;
    DayNumberInYear(year, month, day);
    assert 0 <= yday < DaysInYear(year) by {
      MonthsAreOrdered(year, 1, month);
      MonthsAreOrdered(year, month + 1, 13);
    }
    YearDayIsUnique(year, yday);
    MonthIsUnique(year, month, yday);
  }

  /** Reading a minute and rebuilding it is the identity. */
  lemma DateOfFields(t: int)
    ensures Date(YearOf(t), MonthOf(t), DayOf(t), HourOf(t), MinuteOf(t)) == t
    ensures DayNumber(YearOf(t), MonthOf(t), DayOf(t)) == t / MINUTES_PER_DAY
  {
    DayNumberOfFields(t / MINUTES_PER_DAY);
    SplitMinute(t);
  }

  /** Building a valid civil time and reading it back is the identity. */
  lemma FieldsOfDate(year: int, month: int, day: int, hour: int, minute: int)
    requires 1 <= month <= 12 && 1 <= day <= DaysInMonth(year, month)
    requires 0 <= hour < 24 && 0 <= minute < 60
    ensures var t := Date(year, month, day, hour, minute);
            && YearOf(t) == year && MonthOf(t) == month && DayOf(t) == day
            && HourOf(t) == hour && MinuteOf(t) == minute
  {
    hide ToYearDay, IsLeap, DaysBeforeYear;
    FieldsOfDayNumber(year, month, day);
    JoinMinute(DayNumber(year, month, day), hour, minute);
  }

  lemma MonthIsUnique(year: int, month: int, yday: int)
    requires 1 <= month <= 12
    requires 0 <= DaysBeforeMonth(year, month) <= yday < DaysBeforeMonth(year, month + 1)
    requires yday < DaysInYear(year)
    ensures MonthFrom(year, yday, 1) == month
  {
    var m := MonthFrom(year, yday, 1);
    if m < month {
      MonthsAreOrdered(year, m + 1, month);
    } else if month < m {
      MonthsAreOrdered(year, month + 1, m);
    }
  }

  lemma MonthsAreOrdered(year: int, a: int, b: int)
    requires 1 <= a <= b <= 13
    ensures DaysBeforeMonth(year, a) <= DaysBeforeMonth(year, b)
  {
  }

  // ---------------------------------------------------------------------------
  // Where the cron search jumps to
  // ---------------------------------------------------------------------------

  /** The first of `month + 1`, December included, is the day after the last day of `month`. */
  lemma MonthCarry(year: int, month: int)
    requires 1 <= month <= 12
    ensures DayNumber(year, month + 1, 1) == DaysBeforeYear(year) + DaysBeforeMonth(year, month + 1)
    ensures DayNumber(year, month + 1, 1) ==
            if month == 12 then DayNumber(year + 1, 1, 1) else DaysBeforeYear(year) + DaysBeforeMonth(year, month + 1)
  {
    YearLength(year);
    if month < 12 {
      DayNumberInYear(year, month + 1, 1);
    }
  }

  /** All days from the first of a month up to the first of the next lie in that month. */
  lemma DaysOfMonth(year: int, month: int, days: int)
    requires 1 <= month <= 12
    requires DayNumber(year, month, 1) <= days < DayNumber(year, month + 1, 1)
    ensures YearOfDay(days) == year && MonthOfDay(days) == month
  {
    hide ToYearDay, IsLeap, DaysBeforeYear;
    MonthCarry(year, month);
    DayNumberInYear(year, month, 1);
    var day := days - DayNumber(year, month, 1) + 1;
    DayNumberInYear(year, month, day);
    FieldsOfDayNumber(year, month, day);
  }

  lemma DayInItsMonth(days: int)
    ensures var y, m := YearOfDay(days), MonthOfDay(days);
            DayNumber(y, m, 1) <= days < DayNumber(y, m + 1, 1)
  {
    var y, m := YearOfDay(days), MonthOfDay(days);
    DayNumberOfFields(days);
    DayNumberInYear(y, m, 1);
    DayNumberInYear(y, m, DayOfDay(days));
    MonthCarry(y, m);
  }

  lemma YearCarry(year: int)
    ensures DayNumber(year, 13, 1) == DayNumber(year + 1, 1, 1)
  {
    MonthCarry(year, 12);
  }

  lemma FirstOfMonth(year: int, month: int)
    requires 1 <= month <= 12
    ensures var days := DayNumber(year, month, 1);
            DayOfDay(days) == 1 && MonthOfDay(days) == month && YearOfDay(days) == year
  {
    hide ToYearDay, DaysBeforeYear, DayNumber, YearOfDay, MonthOfDay, DayOfDay;
    assert DaysInMonth(year, month) >= 1;
    FieldsOfDayNumber(year, month, 1);
  }

  /** The first of the following month, read back. */
  lemma NextMonthFields(year: int, month: int)
    requires 1 <= month <= 12
    ensures var days := DayNumber(year, month + 1, 1);
            && DayOfDay(days) == 1
            && MonthOfDay(days) == (if month == 12 then 1 else month + 1)
            && YearOfDay(days) == (if month == 12 then year + 1 else year)
  {
    hide ToYearDay, DaysBeforeYear, DaysBeforeMonth, DayNumber, YearOfDay, MonthOfDay, DayOfDay;
    if month == 12 {
      YearCarry(year);
      FirstOfMonth(year + 1, 1);
    } else {
      FirstOfMonth(year, month + 1);
    }
  }

  /** Midnight of a day bounds exactly the minutes of the earlier days. */
  lemma BeforeMidnight(u: int, days: int)
    ensures u < days * HOURS_PER_DAY * MINUTES_PER_HOUR <==> u / MINUTES_PER_DAY < days
    ensures days * HOURS_PER_DAY * MINUTES_PER_HOUR / MINUTES_PER_DAY == days
    ensures days * HOURS_PER_DAY * MINUTES_PER_HOUR % MINUTES_PER_DAY == 0
  {
  }

  /** The jump of a non-matching month lands on the start of the month that follows the month of `t`. */
  lemma NextMonthJump(t: int)
    ensures var j := Date(YearOf(t), MonthOf(t) + 1, 1, 0, 0);
            && t < j
            && j % MINUTES_PER_DAY == 0 && DayOf(j) == 1
            && MonthOf(j) == (if MonthOf(t) == 12 then 1 else MonthOf(t) + 1)
            && YearOf(j) == (if MonthOf(t) == 12 then YearOf(t) + 1 else YearOf(t))
            && forall u :: t <= u < j ==> MonthOf(u) == MonthOf(t) && YearOf(u) == YearOf(t)
  {
    hide DayNumber, YearOfDay, MonthOfDay, DayOfDay;
    var y, m := YearOf(t), MonthOf(t);
    var j := Date(y, m + 1, 1, 0, 0);
    var days := DayNumber(y, m + 1, 1);
    NextMonthFields(y, m);
    BeforeMidnight(t, days);
    DayInItsMonth(t / MINUTES_PER_DAY);
    forall u | t <= u < j
      ensures MonthOf(u) == m && YearOf(u) == y
    {
      BeforeMidnight(u, days);
      assert t / MINUTES_PER_DAY <= u / MINUTES_PER_DAY;
      DaysOfMonth(y, m, u / MINUTES_PER_DAY);
    }
  }

  /** Day `d + 1` of the month, past its last day included, starts the day that follows the day of `t`. */
  lemma NextDayJump(t: int)
    ensures var j := Date(YearOf(t), MonthOf(t), DayOf(t) + 1, 0, 0);
            && j == (t / MINUTES_PER_DAY + 1) * MINUTES_PER_DAY
            && t < j
            && forall u :: t <= u < j ==>
                 MonthOf(u) == MonthOf(t) && DayOf(u) == DayOf(t) && WeekdayOf(u) == WeekdayOf(t)
  {
    DateOfFields(t);
    DayNumberInYear(YearOf(t), MonthOf(t), DayOf(t));
    DayNumberInYear(YearOf(t), MonthOf(t), DayOf(t) + 1);
    var j := Date(YearOf(t), MonthOf(t), DayOf(t) + 1, 0, 0);
    forall u | t <= u < j
      ensures MonthOf(u) == MonthOf(t) && DayOf(u) == DayOf(t) && WeekdayOf(u) == WeekdayOf(t)
    {
      assert u / MINUTES_PER_DAY == t / MINUTES_PER_DAY;
    }
  }

  /** Hour `h + 1`, hour 24 included, starts the hour that follows the hour of `t`. */
  lemma NextHourJump(t: int)
    ensures var j := Date(YearOf(t), MonthOf(t), DayOf(t), HourOf(t) + 1, 0);
            && j == (t / MINUTES_PER_HOUR + 1) * MINUTES_PER_HOUR
            && t < j
            && forall u :: t <= u < j ==> HourOf(u) == HourOf(t)
  {
    DateOfFields(t);
    var j := Date(YearOf(t), MonthOf(t), DayOf(t), HourOf(t) + 1, 0);
    forall u | t <= u < j
      ensures HourOf(u) == HourOf(t)
    {
      assert u / MINUTES_PER_HOUR == t / MINUTES_PER_HOUR;
    }
  }
}

/**
 * Proleptic Gregorian calendar arithmetic: the day count that JavaScript's
 * `Date` uses internally (days since 1970-01-01) and the weekday that
 * `getUTCDay()` derives from it.
 */
module Calendar {

  /** A calendar date, as the `YYYY-MM-DD` value of a date input. */
  datatype Date = Date(year: int, month: int, day: int)

  /** A time of day, as the `HH:MM` value of a time input. */
  datatype Time = Time(hour: int, minute: int)

  predicate IsLeapYear(y: int) {
    y % 4 == 0 && (y % 100 != 0 || y % 400 == 0)
  }

  function DaysInMonth(y: int, m: int): (n: int)
    requires 1 <= m <= 12
    ensures 28 <= n <= 31
  {
    if m == 2 then (if IsLeapYear(y) then 29 else 28)
    else if m == 4 || m == 6 || m == 9 || m == 11 then 30
    else 31
  }

  predicate ValidDate(d: Date) {
    1 <= d.month <= 12 && 1 <= d.day <= DaysInMonth(d.year, d.month)
  }

  predicate ValidTime(t: Time) {
    0 <= t.hour < 24 && 0 <= t.minute < 60
  }

  /** Minutes since midnight. */
  function MinuteOfDay(t: Time): (m: int)
    ensures ValidTime(t) ==> 0 <= m < 24 * 60
  {
    t.hour * 60 + t.minute
  }

  /**
   * Days from 1970-01-01 to `d` (negative before it), by H. Hinnant's
   * days-from-civil algorithm: years start in March so that the leap day is
   * the last day of the shifted year, and 400-year eras repeat exactly.
   * Dafny's `/` rounds towards minus infinity for a positive divisor, which is
   * what the algorithm needs for years before 1970.
   */
  function DaysFromCivil(d: Date): int
  {
    var y := if d.month <= 2 then d.year - 1 else d.year;
    var era := y / 400;
    var yoe := y - era * 400;
    var mp := if d.month > 2 then d.month - 3 else d.month + 9;
    var doy := (153 * mp + 2) / 5 + d.day - 1;
    var doe := yoe * 365 + yoe / 4 - yoe / 100 + doy;
    era * 146097 + doe - 719468
  }

  /** The weekday of a date, 0 = Sunday … 6 = Saturday: `new Date(date).getUTCDay()`. */
  function Weekday(d: Date): (w: int)
    ensures 0 <= w < 7
  {
    (DaysFromCivil(d) + 4) % 7
  }

  /** The day after `d`. */
  function NextDay(d: Date): (n: Date)
    requires ValidDate(d)
    ensures ValidDate(n)
  {
    if d.day < DaysInMonth(d.year, d.month) then Date(d.year, d.month, d.day + 1)
    else if d.month < 12 then Date(d.year, d.month + 1, 1)
    else Date(d.year + 1, 1, 1)
  }

  /** Day of the March-based year: 0 for March 1st, 365 for a leap day. */
  function DayOfShiftedYear(m: int, day: int): int
  {
    var mp := if m > 2 then m - 3 else m + 9;
    (153 * mp + 2) / 5 + day - 1
  }

  /** Days in the shifted years before year-of-era `yoe`, within its era. */
  function EraDays(yoe: int): int
  {
    yoe * 365 + yoe / 4 - yoe / 100
  }

  /** The month-start table implicit in `(153 * mp + 2) / 5` matches DaysInMonth. */
  lemma MonthStart(y: int, m: int)
    requires 1 <= m <= 12 && m != 2
    ensures m < 12 ==> DayOfShiftedYear(m + 1, 1) == DayOfShiftedYear(m, DaysInMonth(y, m)) + 1
    ensures m == 12 ==> DayOfShiftedYear(1, 1) == DayOfShiftedYear(12, 31) + 1
  {
  }

  /** Floor division by a positive constant steps up exactly at its multiples. */
  lemma DivStep(x: int, m: int)
    requires m == 4 || m == 100
    ensures (x + 1) / m - x / m == if (x + 1) % m == 0 then 1 else 0
  {
  }

  /** Whole eras do not change a year's residues modulo 4, 100 and 400. */
  lemma EraResidues(era: int, x: int)
    ensures (era * 400 + x) % 4 == x % 4
    ensures (era * 400 + x) % 100 == x % 100
    ensures (era * 400 + x) % 400 == x % 400
  {
    ShiftResidue4(era * 100, x);
    assert era * 100 * 4 == era * 400;
    ShiftResidue100(era * 4, x);
    assert era * 4 * 100 == era * 400;
    ShiftResidue400(era, x);
  }

  /** Adding a multiple of 4 keeps the residue modulo 4; likewise for 100 and 400 below. */
  lemma ShiftResidue4(k: int, x: int)
    ensures (k * 4 + x) % 4 == x % 4
  {
  }

  lemma ShiftResidue100(k: int, x: int)
    ensures (k * 100 + x) % 100 == x % 100
  {
  }

  lemma ShiftResidue400(k: int, x: int)
    ensures (k * 400 + x) % 400 == x % 400
  {
  }

  /** A shifted year that ends with February of year `y + 1` has 365 days, 366 when `y + 1` is leap. */
  lemma ShiftedYearLength(era: int, yoe: int)
    requires 0 <= yoe < 400
    ensures yoe < 399 ==>
      EraDays(yoe + 1) == EraDays(yoe) + (if IsLeapYear(era * 400 + yoe + 1) then 366 else 365)
    ensures yoe == 399 ==> EraDays(yoe) + 366 == 146097 && IsLeapYear(era * 400 + yoe + 1)
  {
    EraResidues(era, yoe + 1);
    DivStep(yoe, 4);
    DivStep(yoe, 100);
  }

  /** Consecutive dates have consecutive day numbers. */
  lemma NextDayIsOneLater(d: Date)
    requires ValidDate(d)
    ensures DaysFromCivil(NextDay(d)) == DaysFromCivil(d) + 1
  {
    if d.day < DaysInMonth(d.year, d.month) {
    } else if d.month == 2 {
      EndOfFebruaryIsOneLater(d);
    } else {
      EndOfMonthIsOneLater(d);
    }
  }

  /** The last day of any other month is followed by the first of the next month, or of the next year. */
  lemma EndOfMonthIsOneLater(d: Date)
    requires ValidDate(d) && d.month != 2 && d.day == DaysInMonth(d.year, d.month)
    ensures DaysFromCivil(NextDay(d)) == DaysFromCivil(d) + 1
  {
    MonthStart(d.year, d.month);
  }

  /** The last day of February is followed by March 1st, the start of the next shifted year. */
  lemma EndOfFebruaryIsOneLater(d: Date)
    requires ValidDate(d) && d.month == 2 && d.day == DaysInMonth(d.year, 2)
    ensures DaysFromCivil(Date(d.year, 3, 1)) == DaysFromCivil(d) + 1
  {
    var y := d.year - 1;
    var era := y / 400;
    var yoe := y - era * 400;
    ShiftedYearLength(era, yoe);
    assert d.year == era * 400 + yoe + 1;
    assert DayOfShiftedYear(2, d.day) == (if IsLeapYear(d.year) then 365 else 364);
    if yoe == 399 {
      assert d.year / 400 == era + 1;
    } else {
      assert d.year / 400 == era;
    }
  }

  /** The weekday advances by one, modulo seven, from one day to the next. */
  lemma NextDayWeekday(d: Date)
    requires ValidDate(d)
    ensures Weekday(NextDay(d)) == (Weekday(d) + 1) % 7
  {
    NextDayIsOneLater(d);
    WeekdayStep(DaysFromCivil(d));
  }

  lemma WeekdayStep(k: int)
    ensures (k + 1 + 4) % 7 == ((k + 4) % 7 + 1) % 7
  {
    var r := (k + 4) % 7;
    assert k + 4 == (k + 4) / 7 * 7 + r;
    if r == 6 {
      assert k + 5 == ((k + 4) / 7 + 1) * 7;
    } else {
      assert k + 5 == (k + 4) / 7 * 7 + (r + 1);
    }
  }

  /** The epoch of the day count: 1970-01-01, a Thursday. */
  lemma EpochIsThursday()
    ensures DaysFromCivil(Date(1970, 1, 1)) == 0 && Weekday(Date(1970, 1, 1)) == 4
  {
  }

  /** 2024-01-02 is a Tuesday and 2024-01-03 a Wednesday. */
  lemma January2024Weekdays()
    ensures Weekday(Date(2024, 1, 2)) == 2
    ensures Weekday(Date(2024, 1, 3)) == 3
  {
    var y, era, yoe := 2023, 5, 23;
    assert y / 400 == era && y - era * 400 == yoe;
    assert (153 * 10 + 2) / 5 + 2 - 1 == 307;
    assert DaysFromCivil(Date(2024, 1, 2)) == era * 146097 + (yoe * 365 + yoe / 4 - yoe / 100 + 307) - 719468 == 19724;
    NextDayWeekday(Date(2024, 1, 2));
  }

  /** A key that orders valid dates chronologically: year, then month, then day. */
  function DateKey(d: Date): int
  {
    (d.year * 12 + d.month - 1) * 31 + d.day - 1
  }

  /** Chronological order on dates, field by field. */
  predicate DateBefore(a: Date, b: Date) {
    a.year < b.year
    || (a.year == b.year && a.month < b.month)
    || (a.year == b.year && a.month == b.month && a.day < b.day)
  }

  lemma DateKeyOrdersDates(a: Date, b: Date)
    requires ValidDate(a) && ValidDate(b)
    ensures DateBefore(a, b) <==> DateKey(a) < DateKey(b)
    ensures a == b <==> DateKey(a) == DateKey(b)
  {
  }

  /** Chronological order on times of day. */
  predicate TimeBefore(a: Time, b: Time) {
    a.hour < b.hour || (a.hour == b.hour && a.minute < b.minute)
  }

  lemma MinuteOfDayOrdersTimes(a: Time, b: Time)
    requires ValidTime(a) && ValidTime(b)
    ensures TimeBefore(a, b) <==> MinuteOfDay(a) < MinuteOfDay(b)
    ensures a == b <==> MinuteOfDay(a) == MinuteOfDay(b)
  {
  }
}

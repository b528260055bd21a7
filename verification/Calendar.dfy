/** Instants and their UTC calendar fields (proleptic Gregorian, RFC 3339
    section 5.7 and Appendix C). An instant is a number of nanoseconds since
    0001-01-01T00:00:00Z, which makes Go's zero time the number 0. */
module Calendar {
  type Instant = int

  const NANOS_PER_SECOND: int := 1_000_000_000
  const SECONDS_PER_DAY: int := 86_400

  datatype Civil = Civil(year: int, month: int, day: int)

  datatype DateTime = DateTime(date: Civil, hour: int, minute: int, second: int, nanos: int)

  predicate IsLeap(year: int) { year % 4 == 0 && (year % 100 != 0 || year % 400 == 0) }

  function DaysInYear(year: int): int { if IsLeap(year) then 366 else 365 }

  function DaysIn(year: int, month: int): int {
    if month == 2 then (if IsLeap(year) then 29 else 28)
    else if month == 4 || month == 6 || month == 9 || month == 11 then 30
    else 31
  }

  predicate ValidCivil(c: Civil) { 1 <= c.month <= 12 && 1 <= c.day <= DaysIn(c.year, c.month) }

  predicate ValidDateTime(t: DateTime) {
    && ValidCivil(t.date)
    && 0 <= t.hour < 24 && 0 <= t.minute < 60 && 0 <= t.second < 60 && 0 <= t.nanos < NANOS_PER_SECOND
  }

  /** Days from 0001-01-01 to the first day of a year. */
  function DaysBeforeYear(year: int): int {
    var p := year - 1;
    365 * p + p / 4 - p / 100 + p / 400
  }

  /** Days from the first day of a year to the first day of a month. */
  function DaysBeforeMonth(year: int, month: int): int
    requires 1 <= month <= 13
    decreases month
  {
    if month == 1 then 0 else DaysBeforeMonth(year, month - 1) + DaysIn(year, month - 1)
  }

  function DayNumber(c: Civil): int
    requires ValidCivil(c)
  {
    DaysBeforeYear(c.year) + DaysBeforeMonth(c.year, c.month) + c.day - 1
  }

  /** The year containing a day: whole 400-, 100-, 4- and 1-year cycles, where
      the last century and the last year of a cycle are a day longer. */
  function YearOf(day: int): int {
    var q400, r400 := day / 146097, day % 146097;
    var q100 := if r400 / 36524 == 4 then 3 else r400 / 36524;
    var r100 := r400 - 36524 * q100;
    var q4, r4 := r100 / 1461, r100 % 1461;
    var q1 := if r4 / 365 == 4 then 3 else r4 / 365;
    400 * q400 + 100 * q100 + 4 * q4 + q1 + 1
  }

  /** The month of a year that contains its day of the given number. */
  function MonthOf(year: int, yday: int, month: int): (m: int)
    requires 1 <= month <= 12
    ensures 1 <= m <= month
    decreases month
  {
    if month == 1 || DaysBeforeMonth(year, month) <= yday then month else MonthOf(year, yday, month - 1)
  }

  function CivilOf(day: int): Civil {
    var year := YearOf(day);
    var yday := day - DaysBeforeYear(year);
    var month := MonthOf(year, yday, 12);
    Civil(year, month, yday - DaysBeforeMonth(year, month) + 1)
  }

  function InstantAt(day: int, second: int, nanos: int): Instant {
    (day * SECONDS_PER_DAY + second) * NANOS_PER_SECOND + nanos
  }

  function DayOf(i: Instant): int { i / NANOS_PER_SECOND / SECONDS_PER_DAY }

  function SecondOf(i: Instant): int { i / NANOS_PER_SECOND % SECONDS_PER_DAY }

  function ToInstant(t: DateTime): Instant
    requires ValidDateTime(t)
  {
    InstantAt(DayNumber(t.date), t.hour * 3600 + t.minute * 60 + t.second, t.nanos)
  }

  function FromInstant(i: Instant): DateTime {
    var second := SecondOf(i);
    DateTime(CivilOf(DayOf(i)), second / 3600, second / 60 % 60, second % 60, i % NANOS_PER_SECOND)
  }

  function UtcYear(i: Instant): int { FromInstant(i).date.year }

  /** From 0000-01-01T00:00:00Z until 10000-01-01T00:00:00Z: the instants whose
      UTC year has four digits, by FourDigitYearExactly. */
  predicate FourDigitYear(i: Instant) {
    -366 * SECONDS_PER_DAY * NANOS_PER_SECOND <= i < 3_652_059 * SECONDS_PER_DAY * NANOS_PER_SECOND
  }

  // ---- The calendar is a bijection ----

  lemma YearLength(year: int)
    ensures DaysBeforeYear(year + 1) == DaysBeforeYear(year) + DaysInYear(year)
  {
    StepQuotient(year, 4);
    StepQuotient(year, 100);
    StepQuotient(year, 400);
    Divides(year);
  }

  lemma Divides(year: int)
    ensures year % 100 == 0 ==> year % 4 == 0
    ensures year % 400 == 0 ==> year % 100 == 0
  {
    if year % 100 == 0 {
      assert year == 4 * (25 * (year / 100));
    }
    if year % 400 == 0 {
      assert year == 100 * (4 * (year / 400));
    }
  }

  lemma StepQuotient(year: int, cycle: int)
    requires cycle == 4 || cycle == 100 || cycle == 400
    ensures year / cycle == (year - 1) / cycle + (if year % cycle == 0 then 1 else 0)
  {
  }

  lemma {:induction false} YearsAscend(a: int, b: int)
    requires a < b
    ensures DaysBeforeYear(a) + DaysInYear(a) <= DaysBeforeYear(b)
    decreases b - a
  {
    YearLength(b - 1);
    if a < b - 1 {
      YearsAscend(a, b - 1);
    }
  }

  lemma YearOfContains(day: int)
    ensures DaysBeforeYear(YearOf(day)) <= day < DaysBeforeYear(YearOf(day)) + DaysInYear(YearOf(day))
  {
    var q400, r400 := day / 146097, day % 146097;
    var q100 := if r400 / 36524 == 4 then 3 else r400 / 36524;
    var r100 := r400 - 36524 * q100;
    var q4, r4 := r100 / 1461, r100 % 1461;
    var q1 := if r4 / 365 == 4 then 3 else r4 / 365;
    CycleYear(q400, q100, q4, q1, r4 - 365 * q1);
  }

  lemma CycleYear(q400: int, q100: int, q4: int, q1: int, yday: int)
    requires 0 <= q100 < 4 && 0 <= q4 < 25 && 0 <= q1 < 4
    requires yday == 365 ==> q1 == 3 && (q4 < 24 || q100 == 3)
    requires 0 <= yday <= 365
    ensures var year := 400 * q400 + 100 * q100 + 4 * q4 + q1 + 1;
            && DaysBeforeYear(year) == 146097 * q400 + 36524 * q100 + 1461 * q4 + 365 * q1
            && yday < DaysInYear(year)
  {
    CycleQuotients(q400, q100, q4, q1);
    if yday == 365 {
      LastYearIsLeap(q400, q100, q4);
    }
  }

  lemma LastYearIsLeap(q400: int, q100: int, q4: int)
    requires 0 <= q100 < 4 && 0 <= q4 < 25 && (q4 < 24 || q100 == 3)
    ensures IsLeap(400 * q400 + 100 * q100 + 4 * q4 + 4)
  {
    var year := 400 * q400 + 100 * q100 + 4 * q4 + 4;
    if q4 == 24 {
      assert year == 400 * (q400 + 1);
    } else {
      assert year == 100 * (4 * q400 + q100) + 4 * (q4 + 1);
    }
  }

  lemma CycleQuotients(q400: int, q100: int, q4: int, q1: int)
    requires 0 <= q100 < 4 && 0 <= q4 < 25 && 0 <= q1 < 4
    ensures var p := 400 * q400 + 100 * q100 + 4 * q4 + q1;
            p / 4 == 100 * q400 + 25 * q100 + q4 && p / 100 == 4 * q400 + q100 && p / 400 == q400
  {
  }

  lemma YearOfUnique(year: int, day: int)
    requires DaysBeforeYear(year) <= day < DaysBeforeYear(year) + DaysInYear(year)
    ensures YearOf(day) == year
  {
    YearOfContains(day);
    if YearOf(day) < year {
      YearsAscend(YearOf(day), year);
    } else if year < YearOf(day) {
      YearsAscend(year, YearOf(day));
    }
  }

  lemma {:induction false} MonthsAscend(year: int, a: int, b: int)
    requires 1 <= a < b <= 13
    ensures DaysBeforeMonth(year, a) + DaysIn(year, a) <= DaysBeforeMonth(year, b)
    decreases b
  {
    if a < b - 1 {
      MonthsAscend(year, a, b - 1);
    }
  }

  lemma MonthsFillYear(year: int)
    ensures DaysBeforeMonth(year, 13) == DaysInYear(year)
  {
    assert DaysBeforeMonth(year, 4) == DaysIn(year, 2) + 62;
    assert DaysBeforeMonth(year, 7) == DaysBeforeMonth(year, 4) + 91;
    assert DaysBeforeMonth(year, 10) == DaysBeforeMonth(year, 7) + 92;
  }

  lemma {:induction false} MonthOfContains(year: int, yday: int, month: int)
    requires 1 <= month <= 12 && 0 <= yday < DaysBeforeMonth(year, month + 1)
    ensures var m := MonthOf(year, yday, month);
            1 <= m <= 12 && DaysBeforeMonth(year, m) <= yday < DaysBeforeMonth(year, m) + DaysIn(year, m)
    decreases month
  {
    if month > 1 && yday < DaysBeforeMonth(year, month) {
      MonthOfContains(year, yday, month - 1);
    }
  }

  /** Every day has a valid date, and that date has the day's number. */
  lemma DayNumberCivilOf(day: int)
    ensures ValidCivil(CivilOf(day)) && DayNumber(CivilOf(day)) == day
  {
    YearOfContains(day);
    var year := YearOf(day);
    MonthsFillYear(year);
    MonthOfContains(year, day - DaysBeforeYear(year), 12);
  }

  /** A valid date is recovered from its day number: no two dates share one. */
  lemma CivilOfDayNumber(c: Civil)
    requires ValidCivil(c)
    ensures CivilOf(DayNumber(c)) == c
  {
    var yday := DaysBeforeMonth(c.year, c.month) + c.day - 1;
    MonthsFillYear(c.year);
    MonthsAscend(c.year, c.month, 13);
    if c.month > 1 { MonthsAscend(c.year, 1, c.month); }
    YearOfUnique(c.year, DayNumber(c));
    MonthOfContains(c.year, yday, 12);
    var m := MonthOf(c.year, yday, 12);
    if m < c.month {
      MonthsAscend(c.year, m, c.month);
    } else if c.month < m {
      MonthsAscend(c.year, c.month, m);
    }
  }

  /** Consecutive days have consecutive numbers, so the numbering is the calendar. */
  lemma NextDayNumber(c: Civil)
    requires ValidCivil(c)
    ensures var next := if c.day < DaysIn(c.year, c.month) then c.(day := c.day + 1)
                        else if c.month < 12 then Civil(c.year, c.month + 1, 1)
                        else Civil(c.year + 1, 1, 1);
            ValidCivil(next) && DayNumber(next) == DayNumber(c) + 1
  {
    YearLength(c.year);
    MonthsFillYear(c.year);
  }

  lemma ClockFields(hour: int, minute: int, second: int)
    requires 0 <= hour < 24 && 0 <= minute < 60 && 0 <= second < 60
    ensures var s := hour * 3600 + minute * 60 + second;
            0 <= s < SECONDS_PER_DAY && s / 3600 == hour && s / 60 % 60 == minute && s % 60 == second
  {
    var s := hour * 3600 + minute * 60 + second;
    assert s / 60 == hour * 60 + minute;
  }

  lemma SplitUnits(day: int, second: int, nanos: int)
    requires 0 <= second < SECONDS_PER_DAY && 0 <= nanos < NANOS_PER_SECOND
    ensures var i := InstantAt(day, second, nanos);
            DayOf(i) == day && SecondOf(i) == second && i % NANOS_PER_SECOND == nanos
  {
  }

  lemma FromToInstant(t: DateTime)
    requires ValidDateTime(t)
    ensures FromInstant(ToInstant(t)) == t
  {
    hide CivilOf, DayNumber, DayOf, SecondOf, InstantAt;
    ClockFields(t.hour, t.minute, t.second);
    SplitUnits(DayNumber(t.date), t.hour * 3600 + t.minute * 60 + t.second, t.nanos);
    CivilOfDayNumber(t.date);
  }

  lemma ToFromInstant(i: Instant)
    ensures ValidDateTime(FromInstant(i)) && ToInstant(FromInstant(i)) == i
  {
    hide CivilOf, DayNumber, ValidCivil;
    DayNumberCivilOf(DayOf(i));
    JoinUnits(i);
  }

  lemma JoinUnits(i: Instant)
    ensures 0 <= SecondOf(i) < SECONDS_PER_DAY && 0 <= i % NANOS_PER_SECOND < NANOS_PER_SECOND
    ensures InstantAt(DayOf(i), SecondOf(i), i % NANOS_PER_SECOND) == i
    ensures var s := SecondOf(i); s / 3600 * 3600 + s / 60 % 60 * 60 + s % 60 == s
  {
  }

  /** Later instants never fall in earlier years. */
  lemma YearMonotone(a: Instant, b: Instant)
    requires a <= b
    ensures UtcYear(a) <= UtcYear(b)
  {
    hide YearOf, DaysBeforeYear;
    var da, db := DayOf(a), DayOf(b);
    assert da <= db;
    YearOfContains(da);
    YearOfContains(db);
    if UtcYear(b) < UtcYear(a) {
      YearsAscend(UtcYear(b), UtcYear(a));
    }
  }

  lemma FirstInstantOf(year: int)
    ensures UtcYear(DaysBeforeYear(year) * SECONDS_PER_DAY * NANOS_PER_SECOND) == year
    ensures UtcYear(DaysBeforeYear(year) * SECONDS_PER_DAY * NANOS_PER_SECOND - 1) == year - 1
  {
    hide YearOf, DaysBeforeYear;
    var day := DaysBeforeYear(year);
    SplitUnits(day, 0, 0);
    SplitUnits(day - 1, SECONDS_PER_DAY - 1, NANOS_PER_SECOND - 1);
    YearOfUnique(year, day);
    YearsAscend(year - 1, year);
    YearLength(year - 1);
    YearOfUnique(year - 1, day - 1);
  }

  lemma YearWindow(i: Instant, a: Instant, b: Instant)
    requires a <= b && UtcYear(a - 1) < UtcYear(a) && UtcYear(b - 1) < UtcYear(b)
    ensures a <= i < b <==> UtcYear(a) <= UtcYear(i) <= UtcYear(b - 1)
  {
    hide UtcYear;
    if i < a {
      YearMonotone(i, a - 1);
    } else if i < b {
      YearMonotone(a, i);
      YearMonotone(i, b - 1);
    } else {
      YearMonotone(b, i);
    }
  }

  lemma FourDigitYearExactly(i: Instant)
    ensures FourDigitYear(i) <==> 0 <= UtcYear(i) <= 9999
  {
    hide UtcYear;
    FirstInstantOf(0);
    FirstInstantOf(10000);
    assert DaysBeforeYear(0) == -366 && DaysBeforeYear(10000) == 3_652_059;
    hide DaysBeforeYear;
    YearWindow(i, -366 * SECONDS_PER_DAY * NANOS_PER_SECOND, 3_652_059 * SECONDS_PER_DAY * NANOS_PER_SECOND);
  }

  // ---- The calendar, said once more in closed form ----

  lemma {:induction false} MonthStart(year: int, month: int)
    requires 1 <= month <= 12
    ensures DaysBeforeMonth(year, month) ==
            if month <= 2 then 31 * (month - 1)
            else (if IsLeap(year) then 60 else 59) + (153 * (month - 3) + 2) / 5
    decreases month
  {
    if month > 1 {
      MonthStart(year, month - 1);
    }
  }

  /** The number of a date by Gregorian rules alone, in years that begin in March:
      five months of 153 days, a leap day at the end of every fourth year, but of
      no century that is not divisible by 400. 0001-01-01 has the number 0. */
  lemma DayNumberClosedForm(c: Civil)
    requires ValidCivil(c)
    ensures var y := if c.month > 2 then c.year else c.year - 1;
            var m := if c.month > 2 then c.month - 3 else c.month + 9;
            DayNumber(c) == 365 * y + y / 4 - y / 100 + y / 400 + (153 * m + 2) / 5 + c.day - 307
  {
    MonthStart(c.year, c.month);
    YearLength(c.year);
  }

  /** Which dates are valid, month by month. */
  lemma ValidCivilExactly(c: Civil)
    ensures ValidCivil(c) <==>
            && c.month in {1, 2, 3, 4, 5, 6, 7, 8, 9, 10, 11, 12} && 1 <= c.day <= 31
            && (c.month in {4, 6, 9, 11} ==> c.day <= 30)
            && (c.month == 2 ==> c.day <= 29)
            && (c.month == 2 && c.day == 29 ==> c.year % 4 == 0 && (c.year % 100 != 0 || c.year % 400 == 0))
  {
  }

  /** The instant of a date and a time of day, unit by unit. */
  lemma ToInstantClosedForm(t: DateTime)
    requires ValidDateTime(t)
    ensures ToInstant(t) ==
            (((DayNumber(t.date) * 24 + t.hour) * 60 + t.minute) * 60 + t.second) * 1_000_000_000 + t.nanos
  {
    hide DayNumber;
  }
}

/** Civil dates and their day numbers, against day-by-day Gregorian counting. */
module CivilDate {
  import opened Common

  predicate IsLeap(year: int) { year % 4 == 0 && (year % 100 != 0 || year % 400 == 0) }

  function DaysInMonth(year: int, month: int): int
    requires 1 <= month <= 12
  {
    if month == 2 then (if IsLeap(year) then 29 else 28)
    else if month == 4 || month == 6 || month == 9 || month == 11 then 30
    else 31
  }

  predicate ValidDate(year: int, month: int, day: int) {
    1 <= month <= 12 && 1 <= day <= DaysInMonth(year, month)
  }

  // ---------------------------------------------------------------- counting

  function YearLength(year: int): int { if IsLeap(year) then 366 else 365 }

  /** Days from 1970-01-01 to the first of January, one year at a time. */
  function YearStart(year: int): int
    decreases if year < 1970 then 1970 - year else year - 1970
  {
    if year == 1970 then 0
    else if year > 1970 then YearStart(year - 1) + YearLength(year - 1)
    else YearStart(year + 1) - YearLength(year)
  }

  /** Days of the year before the month, one month at a time. */
  function MonthStart(year: int, month: int): int
    requires 1 <= month <= 13
    decreases month
  {
    if month == 1 then 0 else MonthStart(year, month - 1) + DaysInMonth(year, month - 1)
  }

  /** The reference: years, then months, then days counted from 1970-01-01. */
  function CountedDay(year: int, month: int, day: int): int
    requires 1 <= month <= 12
  {
    YearStart(year) + MonthStart(year, month) + day - 1
  }

  // ---------------------------------------------------------------- closed form

  function Era(year: int, month: int): int { (year - if month <= 2 then 1 else 0) / 400 }

  /** The day within its 400-year era, whose years start in March. */
  function DayOfEra(year: int, month: int, day: int): int {
    var adjusted := year - if month <= 2 then 1 else 0;
    var yearOfEra := adjusted - Era(year, month) * 400;
    var shifted := month + if month > 2 then -3 else 9;
    var dayOfYear := (153 * shifted + 2) / 5 + day - 1;
    yearOfEra * 365 + yearOfEra / 4 - yearOfEra / 100 + dayOfYear
  }

  /** The closed form without machine limits. */
  function DayNumber(year: int, month: int, day: int): int {
    Era(year, month) * 146_097 + DayOfEra(year, month, day) - 719_468
  }

  function Checked32(x: int): Option<int> { if I32_MIN <= x <= I32_MAX then Some(x) else None }

  /** The closed form in checked 32-bit steps. */
  function Date32(year: int, month: int, day: int): Option<int> {
    if !ValidDate(year, month, day) then None
    else
      match Checked32(Era(year, month) * 146_097)
      case None => None
      case Some(days) =>
        match Checked32(days + DayOfEra(year, month, day))
        case None => None
        case Some(sum) => Checked32(sum - 719_468)
  }

  // ---------------------------------------------------------------- agreement

  /** Days before the March-based year `a`, counted by leap-year rules. */
  function MarchYearStart(a: int): int { 365 * a + a / 4 - a / 100 + a / 400 }

  lemma EraSplit(a: int)
    ensures var e := a / 400; var y := a - e * 400;
            e * 146_097 + y * 365 + y / 4 - y / 100 == MarchYearStart(a)
  {
    var e := a / 400;
    var y := a - e * 400;
    assert 0 <= y < 400;
    assert a / 4 == 100 * e + y / 4;
    assert a / 100 == 4 * e + y / 100;
  }

  lemma MarchYearStep(a: int)
    ensures MarchYearStart(a + 1) - MarchYearStart(a) == YearLength(a + 1)
  {
    DivStep(a, 4);
    DivStep(a, 100);
    DivStep(a, 400);
    assert (a + 1) % 100 == 0 ==> (a + 1) % 4 == 0;
    assert (a + 1) % 400 == 0 ==> (a + 1) % 100 == 0;
  }

  lemma DivStep(a: int, n: int)
    requires n == 4 || n == 100 || n == 400
    ensures (a + 1) / n - a / n == if (a + 1) % n == 0 then 1 else 0
  {
  }

  lemma {:induction false} YearStartClosed(year: int)
    ensures YearStart(year) == MarchYearStart(year - 1) + 306 - 719_468
    decreases if year < 1970 then 1970 - year else year - 1970
  {
    if year > 1970 {
      YearStartClosed(year - 1);
      MarchYearStep(year - 2);
    } else if year < 1970 {
      YearStartClosed(year + 1);
      MarchYearStep(year - 1);
    }
  }

  lemma MonthStartClosed(year: int, month: int)
    requires 1 <= month <= 12
    ensures MonthStart(year, month) ==
            if month <= 2 then (153 * (month + 9) + 2) / 5 - 306
            else (153 * (month - 3) + 2) / 5 + YearLength(year) - 306
  {
    FirstMonths(year);
    LaterMonths(year);
  }

  lemma FirstMonths(year: int)
    ensures MonthStart(year, 1) == 0 && MonthStart(year, 2) == 31
    ensures MonthStart(year, 3) == 59 + (YearLength(year) - 365)
    ensures MonthStart(year, 4) == 90 + (YearLength(year) - 365)
    ensures MonthStart(year, 5) == 120 + (YearLength(year) - 365)
    ensures MonthStart(year, 6) == 151 + (YearLength(year) - 365)
    ensures MonthStart(year, 7) == 181 + (YearLength(year) - 365)
  {
    assert MonthStart(year, 2) == 31;
    assert MonthStart(year, 3) == 59 + (YearLength(year) - 365);
    assert MonthStart(year, 4) == 90 + (YearLength(year) - 365);
    assert MonthStart(year, 5) == 120 + (YearLength(year) - 365);
    assert MonthStart(year, 6) == 151 + (YearLength(year) - 365);
  }

  lemma LaterMonths(year: int)
    ensures MonthStart(year, 8) == 212 + (YearLength(year) - 365)
    ensures MonthStart(year, 9) == 243 + (YearLength(year) - 365)
    ensures MonthStart(year, 10) == 273 + (YearLength(year) - 365)
    ensures MonthStart(year, 11) == 304 + (YearLength(year) - 365)
    ensures MonthStart(year, 12) == 334 + (YearLength(year) - 365)
    ensures MonthStart(year, 13) == YearLength(year)
  {
    FirstMonths(year);
    assert MonthStart(year, 8) == 212 + (YearLength(year) - 365);
    assert MonthStart(year, 9) == 243 + (YearLength(year) - 365);
    assert MonthStart(year, 10) == 273 + (YearLength(year) - 365);
    assert MonthStart(year, 11) == 304 + (YearLength(year) - 365);
    assert MonthStart(year, 12) == 334 + (YearLength(year) - 365);
  }

  /** For every year the closed form is the day-by-day count. */
  lemma DayNumberCounts(year: int, month: int, day: int)
    requires 1 <= month <= 12
    ensures DayNumber(year, month, day) == CountedDay(year, month, day)
  {
    YearStartClosed(year);
    MonthStartClosed(year, month);
    if month <= 2 {
      EraSplit(year - 1);
    } else {
      EraSplit(year);
      MarchYearStep(year - 1);
    }
  }

  /** The calendar's next day. */
  function NextDay(year: int, month: int, day: int): (int, int, int)
    requires ValidDate(year, month, day)
  {
    if day < DaysInMonth(year, month) then (year, month, day + 1)
    else if month < 12 then (year, month + 1, 1)
    else (year + 1, 1, 1)
  }

  lemma EpochIsZero()
    ensures DayNumber(1970, 1, 1) == 0
  {
  }

  /** Every calendar successor is the next integer. */
  lemma DayNumberSuccessor(year: int, month: int, day: int)
    requires ValidDate(year, month, day)
    ensures var (y, m, d) := NextDay(year, month, day);
            ValidDate(y, m, d) && DayNumber(y, m, d) == DayNumber(year, month, day) + 1
  {
    hide DayNumber, IsLeap;
    var (y, m, d) := NextDay(year, month, day);
    DayNumberCounts(year, month, day);
    DayNumberCounts(y, m, d);
    if y == year + 1 {
      LaterMonths(year);
      YearStartStep(year);
    }
  }

  lemma YearStartStep(year: int)
    ensures YearStart(year + 1) == YearStart(year) + YearLength(year)
  {
  }

  /** Calendar order. */
  predicate Earlier(y1: int, m1: int, d1: int, y2: int, m2: int, d2: int) {
    y1 < y2 || (y1 == y2 && (m1 < m2 || (m1 == m2 && d1 < d2)))
  }

  lemma {:induction false} YearStartMonotone(a: int, b: int)
    requires a < b
    ensures YearStart(a) + YearLength(a) <= YearStart(b)
    decreases b - a
  {
    YearStartStep(b - 1);
    if a < b - 1 { YearStartMonotone(a, b - 1); }
  }

  lemma {:induction false} MonthStartMonotone(year: int, a: int, b: int)
    requires 1 <= a < b <= 13
    ensures MonthStart(year, a) + DaysInMonth(year, a) <= MonthStart(year, b)
    decreases b - a
  {
    if a < b - 1 { MonthStartMonotone(year, a, b - 1); }
  }

  /** Day numbers order valid dates exactly as the calendar does, so no two dates share one. */
  lemma DayNumberOrder(y1: int, m1: int, d1: int, y2: int, m2: int, d2: int)
    requires ValidDate(y1, m1, d1) && ValidDate(y2, m2, d2)
    ensures DayNumber(y1, m1, d1) < DayNumber(y2, m2, d2) <==> Earlier(y1, m1, d1, y2, m2, d2)
    ensures DayNumber(y1, m1, d1) == DayNumber(y2, m2, d2) <==> (y1, m1, d1) == (y2, m2, d2)
  {
    if Earlier(y1, m1, d1, y2, m2, d2) { EarlierIsLess(y1, m1, d1, y2, m2, d2); }
    if Earlier(y2, m2, d2, y1, m1, d1) { EarlierIsLess(y2, m2, d2, y1, m1, d1); }
  }

  lemma EarlierIsLess(y1: int, m1: int, d1: int, y2: int, m2: int, d2: int)
    requires ValidDate(y1, m1, d1) && ValidDate(y2, m2, d2) && Earlier(y1, m1, d1, y2, m2, d2)
    ensures DayNumber(y1, m1, d1) < DayNumber(y2, m2, d2)
  {
    DayNumberCounts(y1, m1, d1);
    DayNumberCounts(y2, m2, d2);
    LaterMonths(y1);
    MonthStartMonotone(y1, m1, 13);
    MonthStartNonNegative(y2, m2);
    if y1 < y2 {
      YearStartMonotone(y1, y2);
    } else if m1 < m2 {
      MonthStartMonotone(y1, m1, m2);
    }
  }

  lemma {:induction false} MonthStartNonNegative(year: int, month: int)
    requires 1 <= month <= 13
    ensures MonthStart(year, month) >= 0
    decreases month
  {
    if month > 1 { MonthStartNonNegative(year, month - 1); }
  }

  // ---------------------------------------------------------------- machine limits

  lemma DayOfEraBounds(year: int, month: int, day: int)
    requires ValidDate(year, month, day)
    ensures 0 <= DayOfEra(year, month, day) < 146_097 + 366
  {
    var adjusted := year - if month <= 2 then 1 else 0;
    var y := adjusted - Era(year, month) * 400;
    assert 0 <= y < 400;
    var shifted := month + if month > 2 then -3 else 9;
    assert 0 <= (153 * shifted + 2) / 5 <= 337;
    assert y / 4 - y / 100 <= 99 && y / 4 >= y / 100;
  }

  /**
   Exactly which dates from year zero on are accepted: valid ones whose day number leaves room for
   the intermediate sum, which is 719468 above it.  An accepted date gets its day number.
   */
  lemma Date32Exact(year: int, month: int, day: int)
    requires year >= 0
    ensures Date32(year, month, day) ==
            if ValidDate(year, month, day) && DayNumber(year, month, day) <= I32_MAX - 719_468
            then Some(DayNumber(year, month, day)) else None
  {
    if ValidDate(year, month, day) {
      DayOfEraBounds(year, month, day);
      assert Era(year, month) >= -1;
    }
  }

  /** So a representable day can be rejected: 5879611-01-01 is day 2146764293, which fits 32 bits. */
  lemma Date32RejectsRepresentable()
    ensures ValidDate(5_879_611, 1, 1)
    ensures I32_MIN <= DayNumber(5_879_611, 1, 1) <= I32_MAX
    ensures Date32(5_879_611, 1, 1) == None
  {
  }
}

/** Proleptic Gregorian calendar dates, read day first, and their day numbers
    (the count of days from civil date 0001-01-01, which is day 1). Subtracting
    two day numbers gives the whole days between two midnight timestamps. */
module Calendar {

  /** The three fields of a date as written day first ("dd/mm/yyyy"); not yet validated. */
  datatype DateFields = DateFields(day: int, month: int, year: int)

  predicate IsLeapYear(y: int) {
    y % 4 == 0 && (y % 100 != 0 || y % 400 == 0)
  }

  function DaysInMonth(y: int, m: int): int
    requires 1 <= m <= 12
  {
    if m == 2 then (if IsLeapYear(y) then 29 else 28)
    else if m == 4 || m == 6 || m == 9 || m == 11 then 30
    else 31
  }

  function DaysInYear(y: int): int {
    if IsLeapYear(y) then 366 else 365
  }

  /** Year from 1 on, month 1..12, day within the month. */
  predicate IsValid(f: DateFields) {
    1 <= f.year && 1 <= f.month <= 12 && 1 <= f.day <= DaysInMonth(f.year, f.month)
  }

  type Date = f: DateFields | IsValid(f) witness DateFields(1, 1, 1)

  /** Days in the years 1 .. y-1. */
  function DaysBeforeYear(y: int): int
    requires 1 <= y
  {
    var p := y - 1;
    365 * p + p / 4 - p / 100 + p / 400
  }

  /** Days in the months 1 .. m-1 of year y (m may be 13: the whole year). */
  function DaysBeforeMonth(y: int, m: int): int
    requires 1 <= m <= 13
  {
    var leapDay := if IsLeapYear(y) && m > 2 then 1 else 0;
    leapDay +
    (if m == 1 then 0 else if m == 2 then 31 else if m == 3 then 59
     else if m == 4 then 90 else if m == 5 then 120 else if m == 6 then 151
     else if m == 7 then 181 else if m == 8 then 212 else if m == 9 then 243
     else if m == 10 then 273 else if m == 11 then 304 else if m == 12 then 334
     else 365)
  }

  /** Days from civil: 0001-01-01 is day 1, and every later date has a
      larger number. */
  function DayNumber(d: Date): (n: int)
    ensures n >= 1
    ensures n == 1 <==> d == DateFields(1, 1, 1)
  {
    DaysBeforeYear(d.year) + DaysBeforeMonth(d.year, d.month) + d.day
  }

  /** Strictly earlier on the calendar. */
  predicate Before(a: Date, b: Date) {
    a.year < b.year
    || (a.year == b.year && a.month < b.month)
    || (a.year == b.year && a.month == b.month && a.day < b.day)
  }

  /** The following calendar day. */
  function NextDay(d: Date): Date {
    if d.day < DaysInMonth(d.year, d.month) then DateFields(d.day + 1, d.month, d.year)
    else if d.month < 12 then DateFields(1, d.month + 1, d.year)
    else DateFields(1, 1, d.year + 1)
  }

  /** The date n calendar days after d, stepping one day at a time. */
  function AddDays(d: Date, n: nat): Date
    decreases n
  {
    if n == 0 then d else AddDays(NextDay(d), n - 1)
  }

  lemma DivStep(p: int)
    requires 0 <= p
    ensures (p + 1) / 4 - p / 4 == (if (p + 1) % 4 == 0 then 1 else 0)
    ensures (p + 1) / 100 - p / 100 == (if (p + 1) % 100 == 0 then 1 else 0)
    ensures (p + 1) / 400 - p / 400 == (if (p + 1) % 400 == 0 then 1 else 0)
  {
  }

  lemma MultipleOf400(y: int)
    requires y % 400 == 0
    ensures y % 100 == 0
  {
    var k := y / 400;
    assert y == 100 * (4 * k) + 0;
  }

  lemma MultipleOf100(y: int)
    requires y % 100 == 0
    ensures y % 4 == 0
  {
    var k := y / 100;
    assert y == 4 * (25 * k) + 0;
  }

  lemma DivisorFacts(y: int)
    ensures y % 400 == 0 ==> y % 100 == 0
    ensures y % 100 == 0 ==> y % 4 == 0
  {
    if y % 400 == 0 {
      MultipleOf400(y);
    }
    if y % 100 == 0 {
      MultipleOf100(y);
    }
  }

  /** One more year adds that year's length. */
  lemma DaysBeforeNextYear(y: int)
    requires 1 <= y
    ensures DaysBeforeYear(y + 1) == DaysBeforeYear(y) + DaysInYear(y)
  {
    var p := y - 1;
    DivStep(p);
    DivisorFacts(y);
    var step := (p + 1) / 4 - p / 4 - ((p + 1) / 100 - p / 100) + ((p + 1) / 400 - p / 400);
    assert DaysBeforeYear(y + 1) - DaysBeforeYear(y) == 365 + step;
    assert step == if IsLeapYear(y) then 1 else 0;
  }

  lemma DaysBeforeMonthStep(y: int, m: int)
    requires 1 <= m <= 12
    ensures DaysBeforeMonth(y, m + 1) == DaysBeforeMonth(y, m) + DaysInMonth(y, m)
    ensures DaysBeforeMonth(y, 13) == DaysInYear(y)
  {
  }

  /** A day number advances by exactly one from a date to the next. */
  lemma DayNumberNext(d: Date)
    ensures DayNumber(NextDay(d)) == DayNumber(d) + 1
  {
    DaysBeforeMonthStep(d.year, d.month);
    if d.day == DaysInMonth(d.year, d.month) && d.month == 12 {
      DaysBeforeNextYear(d.year);
    }
  }

  /** Stepping n days forward adds n to the day number. */
  lemma {:induction false} DayNumberAddDays(d: Date, n: nat)
    ensures DayNumber(AddDays(d, n)) == DayNumber(d) + n
    decreases n
  {
    if n > 0 {
      DayNumberNext(d);
      DayNumberAddDays(NextDay(d), n - 1);
    }
  }

  /** A later year starts after the earlier one has ended. */
  lemma {:induction false} DaysBeforeYearMonotone(y1: int, y2: int)
    requires 1 <= y1 < y2
    ensures DaysBeforeYear(y1) + DaysInYear(y1) <= DaysBeforeYear(y2)
    decreases y2 - y1
  {
    DaysBeforeNextYear(y1);
    if y1 + 1 < y2 {
      DaysBeforeYearMonotone(y1 + 1, y2);
    }
  }

  /** A date's day number lies within its year. */
  lemma DayNumberInYear(d: Date)
    ensures DaysBeforeYear(d.year) < DayNumber(d) <= DaysBeforeYear(d.year) + DaysInYear(d.year)
  {
    DaysBeforeMonthStep(d.year, d.month);
    assert DaysBeforeMonth(d.year, d.month + 1) <= DaysBeforeMonth(d.year, 13);
  }

  /** Day numbers follow calendar order. */
  lemma DayNumberOrder(a: Date, b: Date)
    ensures Before(a, b) <==> DayNumber(a) < DayNumber(b)
    ensures a == b <==> DayNumber(a) == DayNumber(b)
  {
    DayNumberInYear(a);
    DayNumberInYear(b);
    if a.year < b.year {
      DaysBeforeYearMonotone(a.year, b.year);
    } else if b.year < a.year {
      DaysBeforeYearMonotone(b.year, a.year);
    } else {
      DaysBeforeMonthStep(a.year, a.month);
      DaysBeforeMonthStep(b.year, b.month);
    }
  }

  /** The difference of day numbers is the number of calendar days from a to b:
      stepping that many days forward from a reaches b. */
  lemma DaysBetween(a: Date, b: Date)
    requires !Before(b, a)
    ensures DayNumber(b) - DayNumber(a) >= 0
    ensures AddDays(a, DayNumber(b) - DayNumber(a)) == b
  {
    DayNumberOrder(a, b);
    var n := DayNumber(b) - DayNumber(a);
    DayNumberAddDays(a, n);
    DayNumberOrder(AddDays(a, n), b);
  }
}

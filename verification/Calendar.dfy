/**
  The Gregorian calendar as Python's date type has it, for the years 1 to 9999: leap years,
  the lengths of months and years, the number of each day counted from 1 January of year 1,
  the way back from a number to its date, the order of dates, weekdays, and the addition of
  days, which fails where the calendar ends. The reporting periods, the keys they are stored
  under and the month idioms used around them are all stated over this one calendar.
 */
module Calendar {
  import opened Wrappers

  datatype Date = Date(year: int, month: int, day: int)

  predicate IsLeap(y: int) { y % 4 == 0 && (y % 100 != 0 || y % 400 == 0) }

  /** `monthrange(y, m)[1]` */
  function DaysInMonth(y: int, m: int): int {
    if m == 2 then (if IsLeap(y) then 29 else 28)
    else if m == 4 || m == 6 || m == 9 || m == 11 then 30 else 31
  }

  /** A date of the proleptic calendar, without Python's limits on the year. */
  predicate Exists(d: Date) {
    d.year >= 1 && 1 <= d.month <= 12 && 1 <= d.day <= DaysInMonth(d.year, d.month)
  }

  const MAX_YEAR := 9999

  predicate Valid(d: Date) { Exists(d) && d.year <= MAX_YEAR }

  function YearDays(y: int): int { if IsLeap(y) then 366 else 365 }

  function DaysBeforeYear(y: int): int
    decreases y
  {
    if y <= 1 then 0 else DaysBeforeYear(y - 1) + YearDays(y - 1)
  }

  function DaysBeforeMonth(y: int, m: int): int {
    (if m > 2 && IsLeap(y) then 1 else 0)
    + if m <= 1 then 0 else if m == 2 then 31 else if m == 3 then 59 else if m == 4 then 90 else if m == 5 then 120
    else if m == 6 then 151 else if m == 7 then 181 else if m == 8 then 212 else if m == 9 then 243
    else if m == 10 then 273 else if m == 11 then 304 else if m == 12 then 334 else 365
  }

  function Ordinal(d: Date): int {
    DaysBeforeYear(d.year) + DaysBeforeMonth(d.year, d.month) + d.day
  }

  lemma MonthLength(y: int, m: int)
    requires 1 <= m <= 12
    ensures DaysBeforeMonth(y, m + 1) == DaysBeforeMonth(y, m) + DaysInMonth(y, m)
  {
  }

  lemma YearLength(y: int)
    requires y >= 1
    ensures DaysBeforeYear(y + 1) == DaysBeforeYear(y) + DaysBeforeMonth(y, 13)
  {
  }

  lemma {:induction false} YearsGrow(a: int, b: int)
    requires 1 <= a <= b
    ensures DaysBeforeYear(a) <= DaysBeforeYear(b)
    ensures a < b ==> DaysBeforeYear(a) + DaysBeforeMonth(a, 13) <= DaysBeforeYear(b)
    decreases b - a
  {
    if a < b {
      YearLength(a);
      YearsGrow(a + 1, b);
    }
  }

  lemma {:induction false} MonthsGrow(y: int, a: int, b: int)
    requires 1 <= a <= b <= 13
    ensures a < b ==> DaysBeforeMonth(y, a) + DaysInMonth(y, a) <= DaysBeforeMonth(y, b)
    ensures DaysBeforeMonth(y, a) <= DaysBeforeMonth(y, b)
    ensures DaysBeforeMonth(y, a) >= 0
    decreases b
  {
    if a < b {
      MonthsGrow(y, a, b - 1);
      MonthLength(y, b - 1);
    } else if a > 1 {
      MonthsGrow(y, a - 1, b - 1);
    }
  }

  /** Calendar order, field by field. */
  predicate Before(a: Date, b: Date) {
    || a.year < b.year
    || (a.year == b.year && a.month < b.month)
    || (a.year == b.year && a.month == b.month && a.day < b.day)
  }

  lemma OrdinalsGrow(a: Date, b: Date)
    requires Exists(a) && Exists(b) && Before(a, b)
    ensures Ordinal(a) < Ordinal(b)
  {
    MonthsGrow(a.year, a.month, 13);
    MonthsGrow(b.year, b.month, 13);
    if a.year < b.year {
      YearsGrow(a.year, b.year);
    } else if a.month < b.month {
      MonthsGrow(a.year, a.month, b.month);
    }
  }

  /** Calendar order is ordinal order. */
  lemma OrdinalOrder(a: Date, b: Date)
    requires Exists(a) && Exists(b)
    ensures Before(a, b) <==> Ordinal(a) < Ordinal(b)
    ensures Ordinal(a) == Ordinal(b) <==> a == b
  {
    if Before(a, b) {
      OrdinalsGrow(a, b);
    } else if a != b {
      OrdinalsGrow(b, a);
    }
  }

  function YearOf(n: int, y: int): (r: int)
    requires y >= 1 && DaysBeforeYear(y) < n
    ensures r >= y && DaysBeforeYear(r) < n <= DaysBeforeYear(r + 1)
    decreases n - DaysBeforeYear(y)
  {
    YearLength(y);
    if n <= DaysBeforeYear(y + 1) then y else YearOf(n, y + 1)
  }

  function MonthOf(y: int, n: int, m: int): (r: int)
    requires 1 <= m <= 12 && DaysBeforeMonth(y, m) < n <= DaysBeforeMonth(y, 13)
    ensures m <= r <= 12 && DaysBeforeMonth(y, r) < n <= DaysBeforeMonth(y, r) + DaysInMonth(y, r)
    decreases 13 - m
  {
    MonthLength(y, m);
    if n <= DaysBeforeMonth(y, m + 1) then m else MonthOf(y, n, m + 1)
  }

  /** `date.fromordinal` */
  function FromOrdinal(n: int): (d: Date)
    requires n >= 1
    ensures Exists(d) && Ordinal(d) == n
  {
    var y := YearOf(n, 1);
    YearLength(y);
    var m := MonthOf(y, n - DaysBeforeYear(y), 1);
    Date(y, m, n - DaysBeforeYear(y) - DaysBeforeMonth(y, m))
  }

  /** Monday is 0. */
  function Weekday(d: Date): int {
    (Ordinal(d) + 6) % 7
  }

  // ----- the calendar against its closed forms

  /** Every fourth year has a day more, but for the centuries not divisible by 400. */
  lemma {:induction false} DaysBeforeYearIs(y: int)
    requires y >= 1
    ensures DaysBeforeYear(y) == 365 * (y - 1) + (y - 1) / 4 - (y - 1) / 100 + (y - 1) / 400
  {
    if y > 1 {
      DaysBeforeYearIs(y - 1);
      OneYearMore(y - 1);
    }
  }

  lemma OneYearMore(y: int)
    requires y >= 1
    ensures YearDays(y) == 365 + (y / 4 - (y - 1) / 4) - (y / 100 - (y - 1) / 100) + (y / 400 - (y - 1) / 400)
  {
    QuotientStep(y, 4);
    QuotientStep(y, 100);
    QuotientStep(y, 400);
  }

  lemma QuotientStep(y: int, n: int)
    requires y >= 1 && n in {4, 100, 400}
    ensures y / n - (y - 1) / n == if y % n == 0 then 1 else 0
  {
  }

  /**
    The number of a date without leap years or lengths of months: years counted from March, the months of
    such a year laid out in the pattern of 153 days in five.
  */
  lemma OrdinalIs(d: Date)
    requires Exists(d)
    ensures var y, m := if d.month > 2 then d.year else d.year - 1, if d.month > 2 then d.month - 3 else d.month + 9;
            Ordinal(d) == 365 * y + y / 4 - y / 100 + y / 400 + (153 * m + 2) / 5 + d.day - 306
  {
    DaysBeforeYearIs(d.year);
    DaysBeforeYearIs(d.year + 1);
    hide DaysBeforeYear;
    OneYearMore(d.year);
    YearLength(d.year);
  }

  lemma SameResidue(a: int, b: int, t: int)
    requires a == b + 7 * t
    ensures a % 7 == b % 7
  {
  }

  /** Months counted in days and in weekdays. */
  lemma MonthInWeekdays(m: int) returns (t: int)
    requires 3 <= m <= 14
    ensures (153 * (m - 3) + 2) / 5 - 300 == 13 * (m + 1) / 5 + 5 + 7 * t
  {
    t := 4 * m - 57;
  }

  /** Zeller's congruence, with Monday as 0. */
  lemma WeekdayIs(d: Date)
    requires Exists(d)
    ensures var y, m := if d.month > 2 then d.year else d.year - 1, if d.month > 2 then d.month else d.month + 12;
            Weekday(d) == (d.day + 13 * (m + 1) / 5 + y + y / 4 - y / 100 + y / 400 + 5) % 7
  {
    OrdinalIs(d);
    hide Ordinal;
    var y, m := if d.month > 2 then d.year else d.year - 1, if d.month > 2 then d.month else d.month + 12;
    var t := MonthInWeekdays(m);
    SameResidue(Ordinal(d) + 6, d.day + 13 * (m + 1) / 5 + y + y / 4 - y / 100 + y / 400 + 5, 52 * y + t);
  }

  const LAST_DATE := Date(9999, 12, 31)

  /** A computed date outside the years 1 to 9999 raises. */
  function MakeDate(y: int, m: int, day: int): (r: Result<Date, string>)
    requires 1 <= m <= 12 && 1 <= day <= 28
    ensures r.Success? ==> Valid(r.value)
  {
    if 1 <= y <= MAX_YEAR then Success(Date(y, m, day)) else Failure("year is out of range")
  }

  /** `d + timedelta(days=n)` */
  function AddDays(d: Date, n: int): (r: Result<Date, string>)
    requires Valid(d)
    ensures r.Success? ==> Valid(r.value) && Ordinal(r.value) == Ordinal(d) + n
    ensures r.Success? <==> 1 <= Ordinal(d) + n <= Ordinal(LAST_DATE)
  {
    if 1 <= Ordinal(d) + n <= Ordinal(LAST_DATE) then
      var r := FromOrdinal(Ordinal(d) + n);
      OrdinalOrder(LAST_DATE, r);
      Success(r)
    else Failure("date value out of range")
  }
}

/**
  Reporting periods: weeks, months, quarters and years as half-open ranges between the days
  that open them, the bounds the source computes for a day and for the period before it, and
  the several month idioms of other files, which must agree with them. A period is defined
  without reference to any of the computations; each of these is proved to find it.
*/
module Periods {
  import opened Wrappers
  import opened Calendar

  datatype Kind = Week | Month | Quarter | Year

  datatype Bounds = Bounds(start: Date, end: Date)

  // ----- the computations of the source

  /** First day of the month after the one `start` opens: day 28 plus four days, back to day 1. */
  function MonthAfter(start: Date): (r: Result<Date, string>)
    requires Valid(start)
    ensures r.Success? ==> Valid(r.value)
  {
    match AddDays(start.(day := 28), 4)
    case Success(d) => Success(d.(day := 1))
    case Failure(e) => Failure(e)
  }

  function QuarterMonth(m: int): int { (m - 1) / 3 * 3 + 1 }

  /** `period_bounds` */
  function PeriodBounds(k: Kind, today: Date): (r: Result<Bounds, string>)
    requires Valid(today)
    ensures r.Success? ==> Valid(r.value.start) && Valid(r.value.end)
  {
    match k
    case Week =>
      (match AddDays(today, -Weekday(today))
       case Failure(e) => Failure(e)
       case Success(start) =>
         match AddDays(start, 7)
         case Failure(e) => Failure(e)
         case Success(end) => Success(Bounds(start, end)))
    case Month =>
      (match MonthAfter(today.(day := 1))
       case Failure(e) => Failure(e)
       case Success(end) => Success(Bounds(today.(day := 1), end)))
    case Quarter =>
      var m := QuarterMonth(today.month);
      (match MakeDate(if m + 3 > 12 then today.year + 1 else today.year, if m + 3 > 12 then m + 3 - 12 else m + 3, 1)
       case Failure(e) => Failure(e)
       case Success(end) => Success(Bounds(Date(today.year, m, 1), end)))
    case Year =>
      (match MakeDate(today.year + 1, 1, 1)
       case Failure(e) => Failure(e)
       case Success(end) => Success(Bounds(Date(today.year, 1, 1), end)))
  }

  /** `previous_period_bounds` */
  function PreviousBounds(k: Kind, today: Date): Result<Bounds, string>
    requires Valid(today)
  {
    match PeriodBounds(k, today)
    case Failure(e) => Failure(e)
    case Success(current) =>
      var s := current.start;
      match PreviousStart(k, s)
      case Failure(e) => Failure(e)
      case Success(previous) => Success(Bounds(previous, s))
  }

  function PreviousStart(k: Kind, s: Date): Result<Date, string>
    requires Valid(s)
  {
    match k
    case Week => AddDays(s, -7)
    case Month =>
      (match AddDays(s, -1)
       case Failure(e) => Failure(e)
       case Success(d) => Success(d.(day := 1)))
    case Quarter =>
      if s.month - 3 <= 0 then MakeDate(s.year - 1, s.month - 3 + 12, 1) else MakeDate(s.year, s.month - 3, 1)
    case Year => MakeDate(s.year - 1, 1, 1)
  }

  // ----- what a period is, independently of how its bounds are computed

  /** Days on which a period of kind k opens. */
  predicate Opens(k: Kind, d: Date)
    requires Exists(d)
  {
    match k
    case Week => Weekday(d) == 0
    case Month => d.day == 1
    case Quarter => d.day == 1 && d.month % 3 == 1
    case Year => d.day == 1 && d.month == 1
  }

  /** Two successive opening days. */
  ghost predicate IsPeriod(k: Kind, b: Bounds) {
    && Exists(b.start) && Exists(b.end)
    && Opens(k, b.start) && Opens(k, b.end)
    && Before(b.start, b.end)
    && forall x :: Exists(x) && Before(b.start, x) && Before(x, b.end) ==> !Opens(k, x)
  }

  predicate Within(d: Date, b: Bounds) { !Before(d, b.start) && Before(d, b.end) }

  lemma BeforeIsTotal(a: Date, b: Date)
    ensures Before(a, b) || Before(b, a) || a == b
    ensures !(Before(a, b) && Before(b, a))
  {
  }

  /** A day lies in one period only. */
  lemma PeriodIsUnique(k: Kind, a: Bounds, b: Bounds, d: Date)
    requires IsPeriod(k, a) && IsPeriod(k, b) && Within(d, a) && Within(d, b)
    ensures a == b
  {
    BeforeIsTotal(a.start, b.start);
    BeforeIsTotal(a.end, b.end);
  }

  lemma WeekIsPeriod(b: Bounds)
    requires Exists(b.start) && Exists(b.end) && Weekday(b.start) == 0 && Ordinal(b.end) == Ordinal(b.start) + 7
    ensures IsPeriod(Week, b)
  {
    hide DaysBeforeYear, DaysBeforeMonth;

    OrdinalOrder(b.start, b.end);
    forall x | Exists(x) && Before(b.start, x) && Before(x, b.end)
      ensures Weekday(x) != 0
    {
      OrdinalOrder(b.start, x);
      OrdinalOrder(x, b.end);
    }
  }

  /** The first of the next month. */
  function NextMonthStart(d: Date): Date {
    if d.month == 12 then Date(d.year + 1, 1, 1) else Date(d.year, d.month + 1, 1)
  }

  lemma NextMonthOrdinal(d: Date)
    requires Exists(d)
    ensures Ordinal(NextMonthStart(d)) == Ordinal(d.(day := 1)) + DaysInMonth(d.year, d.month)
  {
    MonthLength(d.year, d.month);
    YearLength(d.year);
  }

  /** Any day from 0 to 30 after the first of the next month, sent back to day 1, is that first. */
  lemma BackToFirst(d: Date, r: Date)
    requires Exists(d) && Exists(r)
    requires Ordinal(NextMonthStart(d)) <= Ordinal(r) < Ordinal(NextMonthStart(d)) + 28
    ensures r.(day := 1) == NextMonthStart(d)
  {
    var next := NextMonthStart(d);
    var after := NextMonthStart(next);
    NextMonthOrdinal(next);
    OrdinalOrder(r, next);
    OrdinalOrder(r, after);
  }

  lemma DayOrdinal(d: Date)
    ensures Ordinal(d) == Ordinal(d.(day := 1)) + d.day - 1
  {
  }

  lemma MonthAfterIsNext(start: Date)
    requires Valid(start) && start.day == 1
    ensures MonthAfter(start).Success? <==> Valid(NextMonthStart(start))
    ensures MonthAfter(start).Success? ==> MonthAfter(start).value == NextMonthStart(start)
  {
    hide Ordinal, DaysBeforeYear, DaysBeforeMonth;
    NextMonthOrdinal(start);
    var next := NextMonthStart(start);
    DayOrdinal(start.(day := 28));
    DayOrdinal(next.(day := 28));
    OrdinalOrder(LAST_DATE, next);
    match AddDays(start.(day := 28), 4) {
      case Success(d) =>
        BackToFirst(start, d);
      case Failure(_) =>
        if Valid(next) {
          OrdinalOrder(LAST_DATE, next.(day := 28));
          OrdinalFloor(start);
        }
    }
  }

  lemma ValidByOrdinal(d: Date)
    requires Exists(d)
    ensures Valid(d) <==> Ordinal(d) <= Ordinal(LAST_DATE)
  {
    hide DaysBeforeYear, DaysBeforeMonth;

    OrdinalOrder(LAST_DATE, d);
  }

  /** b is the period around today, and the computed bounds are b unless b ends after year 9999. */
  ghost predicate Computes(k: Kind, today: Date, b: Bounds)
    requires Valid(today)
  {
    && IsPeriod(k, b) && Within(today, b)
    && (PeriodBounds(k, today).Success? <==> Valid(b.end))
    && (PeriodBounds(k, today).Success? ==> PeriodBounds(k, today).value == b)
  }

  lemma MondayOf(n: int)
    requires n >= 1
    ensures n - (n + 6) % 7 >= 1
    ensures (n - (n + 6) % 7 + 6) % 7 == 0
    ensures n - (n + 6) % 7 <= n < n - (n + 6) % 7 + 7
  {
  }

  lemma WeekBounds(today: Date) returns (b: Bounds)
    requires Valid(today)
    ensures Computes(Week, today, b)
  {
    hide DaysBeforeYear, DaysBeforeMonth, IsPeriod, PeriodBounds, Ordinal;

    OrdinalFloor(today);
    MondayOf(Ordinal(today));
    var n := Ordinal(today) - Weekday(today);
    b := Bounds(FromOrdinal(n), FromOrdinal(n + 7));
    WeekIsPeriod(b);
    OrdinalOrder(today, b.start);
    OrdinalOrder(today, b.end);
    ValidByOrdinal(b.end);
    WeekStart(today, b);
  }

  lemma WeekStart(today: Date, b: Bounds)
    requires Valid(today) && Exists(b.start) && Exists(b.end)
    requires Ordinal(b.start) == Ordinal(today) - Weekday(today) && Ordinal(b.end) == Ordinal(b.start) + 7
    requires Valid(b.end) <==> Ordinal(b.end) <= Ordinal(LAST_DATE)
    ensures PeriodBounds(Week, today).Success? <==> Valid(b.end)
    ensures PeriodBounds(Week, today).Success? ==> PeriodBounds(Week, today).value == b
  {
    hide DaysBeforeYear, DaysBeforeMonth;

    ValidByOrdinal(today);
    OrdinalFloor(b.start);
    var s := AddDays(today, -Weekday(today));
    OrdinalOrder(s.value, b.start);
    var e := AddDays(s.value, 7);
    if e.Success? {
      OrdinalOrder(e.value, b.end);
    }
  }

  lemma FirstDay()
    ensures Ordinal(Date(1, 1, 1)) == 1
  {
  }

  lemma OrdinalFloor(d: Date)
    requires Exists(d)
    ensures Ordinal(d) >= 1
  {
    YearsGrow(1, d.year);
    MonthsGrow(d.year, 1, d.month);
    FirstDay();
  }

  function MonthAround(d: Date): Bounds { Bounds(d.(day := 1), NextMonthStart(d)) }

  lemma MonthPeriod(today: Date)
    requires Valid(today)
    ensures Computes(Month, today, MonthAround(today))
  {
    hide DaysBeforeYear, DaysBeforeMonth, AddDays, FromOrdinal, Ordinal;

    MonthAfterIsNext(today.(day := 1));
  }

  function QuarterEnd(d: Date): Date {
    if d.month >= 10 then Date(d.year + 1, 1, 1) else Date(d.year, QuarterMonth(d.month) + 3, 1)
  }

  function QuarterAround(d: Date): Bounds { Bounds(Date(d.year, QuarterMonth(d.month), 1), QuarterEnd(d)) }

  lemma QuarterPeriod(today: Date)
    requires Valid(today)
    ensures Computes(Quarter, today, QuarterAround(today))
  {
    hide DaysBeforeYear, DaysBeforeMonth;
  }

  function YearAround(d: Date): Bounds { Bounds(Date(d.year, 1, 1), Date(d.year + 1, 1, 1)) }

  lemma YearPeriod(today: Date)
    requires Valid(today)
    ensures Computes(Year, today, YearAround(today))
  {
    hide DaysBeforeYear, DaysBeforeMonth;
  }

  lemma PeriodOf(k: Kind, today: Date) returns (b: Bounds)
    requires Valid(today)
    ensures Computes(k, today, b)
  {
    match k {
      case Week => b := WeekBounds(today);
      case Month => b := MonthAround(today); MonthPeriod(today);
      case Quarter => b := QuarterAround(today); QuarterPeriod(today);
      case Year => b := YearAround(today); YearPeriod(today);
    }
  }

  /** `period_bounds` returns the period around the day, and raises exactly when that period ends after year 9999. */
  lemma BoundsArePeriod(k: Kind, today: Date, b: Bounds)
    requires Valid(today) && IsPeriod(k, b) && Within(today, b)
    ensures PeriodBounds(k, today).Success? <==> Valid(b.end)
    ensures PeriodBounds(k, today).Success? ==> PeriodBounds(k, today).value == b
  {
    hide Ordinal, PeriodBounds;

    var c := PeriodOf(k, today);
    PeriodIsUnique(k, b, c, today);
  }

  /** Every valid day lies in a period, which starts in a valid year. */
  lemma EveryDayHasPeriod(k: Kind, today: Date) returns (b: Bounds)
    requires Valid(today)
    ensures IsPeriod(k, b) && Within(today, b) && Valid(b.start)
  {
    hide Ordinal, PeriodBounds;

    b := PeriodOf(k, today);
  }

  // ----- the previous period

  /** Successive Mondays are seven days apart. */
  lemma MondaysApart(a: Bounds)
    requires IsPeriod(Week, a)
    ensures Ordinal(a.end) == Ordinal(a.start) + 7
  {
    hide Ordinal, DaysBeforeYear, DaysBeforeMonth;

    OrdinalOrder(a.start, a.end);
    OrdinalFloor(a.start);
    var x := FromOrdinal(Ordinal(a.start) + 7);
    OrdinalOrder(a.start, x);
    OrdinalOrder(x, a.end);
  }

  lemma PreviousWeek(s: Date, a: Bounds)
    requires Valid(s) && IsPeriod(Week, a) && a.end == s
    ensures PreviousStart(Week, s) == Success(a.start)
  {
    MondaysApart(a);
    OrdinalFloor(a.start);
    ValidByOrdinal(s);
    var p := AddDays(s, -7);
    OrdinalOrder(p.value, a.start);
  }

  lemma PreviousMonth(s: Date, a: Bounds)
    requires Valid(s) && IsPeriod(Month, a) && a.end == s
    ensures PreviousStart(Month, s) == Success(a.start)
  {
    hide DaysBeforeYear, DaysBeforeMonth;

    var next := NextMonthStart(a.start);
    assert Opens(Month, next);
    BeforeIsTotal(next, s);
    BeforeIsTotal(a.start, s);
    NextMonthOrdinal(a.start);
    OrdinalFloor(a.start);
    ValidByOrdinal(s);
    var d := AddDays(s, -1);
    OrdinalOrder(a.start, d.value);
    OrdinalOrder(d.value, s);
  }

  lemma PreviousQuarter(s: Date, a: Bounds)
    requires Valid(s) && IsPeriod(Quarter, a) && a.end == s
    ensures PreviousStart(Quarter, s) == Success(a.start)
  {
    hide DaysBeforeYear, DaysBeforeMonth;

    var next := if a.start.month == 10 then Date(a.start.year + 1, 1, 1) else Date(a.start.year, a.start.month + 3, 1);
    assert Exists(next) && Opens(Quarter, next);
    BeforeIsTotal(next, s);
    assert next == s;
  }

  lemma PreviousYear(s: Date, a: Bounds)
    requires Valid(s) && IsPeriod(Year, a) && a.end == s
    ensures PreviousStart(Year, s) == Success(a.start)
  {
    hide DaysBeforeYear, DaysBeforeMonth;

    var next := Date(a.start.year + 1, 1, 1);
    assert Exists(next) && Opens(Year, next);
    BeforeIsTotal(next, s);
    assert next == s;
  }

  /** Every period but the first of the calendar has one that ends where it starts. */
  lemma PeriodBefore(k: Kind, b: Bounds) returns (a: Bounds)
    requires IsPeriod(k, b) && Valid(b.start) && b.start != Date(1, 1, 1)
    ensures IsPeriod(k, a) && a.end == b.start && Valid(a.start)
  {
    hide Ordinal, Opens;
    FirstDay();
    OrdinalFloor(b.start);
    OrdinalOrder(Date(1, 1, 1), b.start);
    BeforeIsTotal(Date(1, 1, 1), b.start);
    var d := FromOrdinal(Ordinal(b.start) - 1);
    OrdinalOrder(d, b.start);
    a := EveryDayHasPeriod(k, d);
    OrdinalOrder(d, a.end);
    OrdinalOrder(a.end, b.start);
    BeforeIsTotal(a.end, b.start);
    BeforeIsTotal(a.start, d);
  }

  /**
    Every period but the first of the calendar has one that ends where it starts; the previous bounds are
    that period, unless the bounds of today's end after year 9999, and its first day leads to it again.
  */
  lemma PreviousIsPeriodBefore(k: Kind, today: Date, b: Bounds) returns (a: Bounds)
    requires Valid(today) && IsPeriod(k, b) && Within(today, b) && b.start != Date(1, 1, 1)
    ensures IsPeriod(k, a) && a.end == b.start && Valid(a.start) && PeriodBounds(k, a.start) == Success(a)
    ensures PreviousBounds(k, today).Success? <==> Valid(b.end)
    ensures PreviousBounds(k, today).Success? ==> PreviousBounds(k, today).value == a
  {
    hide Ordinal, PeriodBounds;

    BoundsArePeriod(k, today, b);
    BeforeIsTotal(today, b.start);
    a := PeriodBefore(k, b);
    BeforeIsTotal(a.start, b.start);
    match k {
      case Week => PreviousWeek(b.start, a);
      case Month => PreviousMonth(b.start, a);
      case Quarter => PreviousQuarter(b.start, a);
      case Year => PreviousYear(b.start, a);
    }
    BoundsArePeriod(k, a.start, a);
  }

  lemma NoDayBeforeFirst(k: Kind, first: Date)
    requires first == Date(1, 1, 1)
    ensures PreviousStart(k, first).Failure?
  {
    FirstDay();
    hide Ordinal;
    match k {
      case Week => assert AddDays(first, -7).Failure?;
      case Month => assert AddDays(first, -1).Failure?;
      case Quarter =>
      case Year =>
    }
  }

  /** The first period of the calendar has no predecessor. */
  lemma NothingBeforeYearOne(k: Kind, today: Date, b: Bounds)
    requires Valid(today) && IsPeriod(k, b) && Within(today, b) && b.start == Date(1, 1, 1)
    ensures PreviousBounds(k, today).Failure?
  {
    hide Ordinal, PeriodBounds, IsPeriod, PreviousStart;

    BoundsArePeriod(k, today, b);
    NoDayBeforeFirst(k, b.start);
  }

  // ----- the month idioms

  /** `report_navigation_business_report_date`: the day before the first of the month. */
  function BusinessReportDate(today: Date): Result<Date, string>
    requires Valid(today)
  {
    AddDays(today.(day := 1), -1)
  }

  /** `previous_month_end`: the month before, closed with `monthrange`. */
  function PreviousMonthEnd(today: Date): Result<Date, string>
    requires Valid(today)
  {
    var y := if today.month == 1 then today.year - 1 else today.year;
    var m := if today.month == 1 then 12 else today.month - 1;
    if 1 <= y <= MAX_YEAR then Success(Date(y, m, DaysInMonth(y, m))) else Failure("year is out of range")
  }

  /** `_target_months`: day 1 plus 32 days, back to day 1. */
  function FollowingMonth(today: Date): Result<Date, string>
    requires Valid(today)
  {
    match AddDays(today.(day := 1), 32)
    case Success(d) => Success(d.(day := 1))
    case Failure(e) => Failure(e)
  }

  predicate IsMonthEnd(today: Date) { today.day == DaysInMonth(today.year, today.month) }

  lemma DayBeforeFirst(today: Date, p: Date)
    requires Valid(today) && Valid(p) && IsMonthEnd(p) && NextMonthStart(p) == today.(day := 1)
    ensures BusinessReportDate(today) == Success(p)
  {
    hide DaysBeforeYear, DaysBeforeMonth;

    var first := today.(day := 1);
    NextMonthOrdinal(p);
    OrdinalFloor(p);
    ValidByOrdinal(first);
    OrdinalOrder(BusinessReportDate(today).value, p);
  }

  /** The minus-one-day idiom and the `monthrange` idiom name the same day, and fail together. */
  lemma BusinessDateIsPreviousMonthEnd(today: Date)
    requires Valid(today)
    ensures BusinessReportDate(today).Success? <==> PreviousMonthEnd(today).Success?
    ensures BusinessReportDate(today).Success? ==> BusinessReportDate(today).value == PreviousMonthEnd(today).value
  {
    if PreviousMonthEnd(today).Success? {
      DayBeforeFirst(today, PreviousMonthEnd(today).value);
    } else {
      NothingBeforeFirst(today);
    }
  }

  lemma NothingBeforeFirst(today: Date)
    requires Valid(today) && today.year == 1 && today.month == 1
    ensures BusinessReportDate(today).Failure?
  {
    FirstDay();
  }

  lemma FollowingMonthIsPeriodEnd(today: Date)
    requires Valid(today)
    ensures FollowingMonth(today).Success? <==> PeriodBounds(Month, today).Success?
    ensures FollowingMonth(today).Success? ==> FollowingMonth(today).value == PeriodBounds(Month, today).value.end
  {
    var first := today.(day := 1);
    MonthAfterIsNext(first);
    NextMonthOrdinal(first);
    var next := NextMonthStart(first);
    ValidByOrdinal(next);
    match AddDays(first, 32) {
      case Success(d) => BackToFirst(first, d);
      case Failure(_) =>
        if Valid(next) {
          ValidByOrdinal(next.(day := 28));
        }
    }
  }

  /** In terms of years and months: only December 9999 has no following month. */
  lemma FollowingMonthIsNext(today: Date)
    requires Valid(today)
    ensures FollowingMonth(today).Failure? <==> today.year == 9999 && today.month == 12
    ensures FollowingMonth(today).Success? ==>
              FollowingMonth(today).value
              == if today.month == 12 then Date(today.year + 1, 1, 1) else Date(today.year, today.month + 1, 1)
  {
    FollowingMonthIsPeriodEnd(today);
    MonthAfterIsNext(today.(day := 1));
    hide FollowingMonth, MonthAfter, Ordinal;
  }

  /** The day that closes its month is the day before the next month opens. */
  lemma MonthEndIsDayBeforeNext(today: Date)
    requires Valid(today)
    ensures IsMonthEnd(today) <==> Ordinal(today) + 1 == Ordinal(NextMonthStart(today))
  {
    NextMonthOrdinal(today);
  }
}

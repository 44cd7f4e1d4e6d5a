/**
  `period_storage_key`: two days share a key exactly when they lie in the same period. Week
  keys go by ISO weeks, which are proved first: week 1 holds the year's first Thursday, and
  ISO year and week locate the Monday of every day, also where the ISO year differs from the
  year of the calendar. Then what each kind of key looks like and which numbers it shows.
 */
module PeriodKeys {
  import opened Decimals
  import opened Calendar
  import opened Periods

  // ----- ISO weeks

  /** Ordinal of the Monday that opens week 1 of a year, as the date library computes it. */
  function WeekOneMonday(y: int): int {
    var first := DaysBeforeYear(y) + 1;
    var weekday := (first + 6) % 7;
    first - weekday + (if weekday > 3 then 7 else 0)
  }

  datatype IsoWeek = IsoWeek(year: int, week: int)

  /** The choice of year, from the ordinal and the Mondays that open the three candidate years. */
  function IsoChoice(n: int, y: int, before: int, current: int, after: int): IsoWeek {
    var week := (n - current) / 7;
    if week < 0 then IsoWeek(y - 1, (n - before) / 7 + 1)
    else if week >= 52 && n >= after then IsoWeek(y + 1, 1)
    else IsoWeek(y, week + 1)
  }

  /** `isocalendar()` */
  function IsoCalendar(d: Date): IsoWeek {
    IsoChoice(Ordinal(d), d.year, WeekOneMonday(d.year - 1), WeekOneMonday(d.year), WeekOneMonday(d.year + 1))
  }

  /** Section 4.1.4 of ISO 8601:2004: week 1 is the one that holds the first Thursday of the year. */
  lemma WeekOneHoldsFirstThursday(y: int)
    requires y >= 1
    ensures (WeekOneMonday(y) + 6) % 7 == 0
    ensures DaysBeforeYear(y) < WeekOneMonday(y) + 3 <= DaysBeforeYear(y) + 7
  {
    hide DaysBeforeYear;
  }

  lemma IsoYearLength(y: int)
    requires y >= 1
    ensures WeekOneMonday(y) + 364 <= WeekOneMonday(y + 1) <= WeekOneMonday(y) + 371
  {
    var n := DaysBeforeYear(y);
    assert DaysBeforeYear(y + 1) == n + YearDays(y);
    hide DaysBeforeYear, IsLeap;
  }

  lemma {:induction false} IsoYearsGrow(a: int, b: int)
    requires 1 <= a < b
    ensures WeekOneMonday(a + 1) <= WeekOneMonday(b)
    decreases b - a
  {
    hide WeekOneMonday;
    if a + 1 < b {
      IsoYearLength(a + 1);
      IsoYearsGrow(a + 1, b);
    }
  }

  function Monday(d: Date): int { Ordinal(d) - Weekday(d) }

  /** A day's ISO year and week locate its Monday, and the year is the one whose weeks hold that Monday. */
  lemma IsoCalendarLocatesMonday(d: Date)
    requires Valid(d)
    ensures IsoCalendar(d).year >= 1 && 1 <= IsoCalendar(d).week <= 53
    ensures Monday(d) == WeekOneMonday(IsoCalendar(d).year) + 7 * (IsoCalendar(d).week - 1)
    ensures WeekOneMonday(IsoCalendar(d).year) <= Monday(d) < WeekOneMonday(IsoCalendar(d).year + 1)
  {
    hide WeekOneMonday, Ordinal, IsoChoice;
    var y := d.year;
    CandidateYears(d);
    IsoYearLength(y + 1);
    IsoChoiceLocatesMonday(Ordinal(d), y, WeekOneMonday(y - 1), WeekOneMonday(y), WeekOneMonday(y + 1),
                           WeekOneMonday(y + 2));
  }

  lemma CandidateYears(d: Date)
    requires Valid(d)
    ensures (WeekOneMonday(d.year - 1) + 6) % 7 == 0 && (WeekOneMonday(d.year) + 6) % 7 == 0
            && (WeekOneMonday(d.year + 1) + 6) % 7 == 0
    ensures d.year > 1 ==> WeekOneMonday(d.year - 1) + 364 <= WeekOneMonday(d.year) <= WeekOneMonday(d.year - 1) + 371
    ensures d.year == 1 ==> WeekOneMonday(d.year) <= Ordinal(d)
    ensures WeekOneMonday(d.year) + 364 <= WeekOneMonday(d.year + 1) <= WeekOneMonday(d.year) + 371
    ensures WeekOneMonday(d.year) - 3 <= Ordinal(d) <= WeekOneMonday(d.year + 1) + 3
  {
    hide WeekOneMonday, Ordinal;
    var y := d.year;
    OrdinalInYear(d);
    IsoYearLength(y);
    WeekOneHoldsFirstThursday(y);
    WeekOneHoldsFirstThursday(y + 1);
    OrdinalFloor(d);
    if y > 1 {
      WeekOneHoldsFirstThursday(y - 1);
      IsoYearLength(y - 1);
    } else {
      FirstWeekOne();
    }
  }

  lemma FirstWeekOne()
    ensures WeekOneMonday(1) == 1 && WeekOneMonday(0) == 1
  {
  }

  lemma IsoChoiceLocatesMonday(n: int, y: int, before: int, current: int, after: int, afterNext: int)
    requires y >= 1
    requires (before + 6) % 7 == 0 && (current + 6) % 7 == 0 && (after + 6) % 7 == 0
    requires y > 1 ==> before + 364 <= current <= before + 371
    requires y == 1 ==> current <= n
    requires current + 364 <= after <= current + 371 && after + 364 <= afterNext
    requires current - 3 <= n <= after + 3
    ensures var c, monday := IsoChoice(n, y, before, current, after), n - (n + 6) % 7;
            && c.year >= 1 && 1 <= c.week <= 53
            && (c.year == y - 1 ==> monday == before + 7 * (c.week - 1) && before <= monday < current)
            && (c.year == y ==> monday == current + 7 * (c.week - 1) && current <= monday < after)
            && (c.year == y + 1 ==> monday == after + 7 * (c.week - 1) && after <= monday < afterNext)
            && y - 1 <= c.year <= y + 1
  {
  }

  lemma OrdinalInYear(d: Date)
    requires Exists(d)
    ensures DaysBeforeYear(d.year) < Ordinal(d) <= DaysBeforeYear(d.year + 1)
  {
    MonthsGrow(d.year, d.month, 13);
  }

  /** Two days share an ISO year and week exactly when they share a Monday. */
  lemma SameIsoWeek(a: Date, b: Date)
    requires Valid(a) && Valid(b)
    ensures IsoCalendar(a) == IsoCalendar(b) <==> Monday(a) == Monday(b)
  {
    IsoCalendarLocatesMonday(a);
    IsoCalendarLocatesMonday(b);
    var ya, yb := IsoCalendar(a).year, IsoCalendar(b).year;
    hide WeekOneMonday, Monday, IsoCalendar;
    if ya < yb {
      IsoYearsGrow(ya, yb);
    } else if yb < ya {
      IsoYearsGrow(yb, ya);
    }
  }

  // ----- the keys

  function Nat(i: int): nat { if i < 0 then 0 else i }

  function StorageKey(k: Kind, d: Date): string {
    match k
    case Week => Digits(Nat(IsoCalendar(d).year)) + "-" + ("W" + TwoDigits(Nat(IsoCalendar(d).week)))
    case Month => FourDigits(Nat(d.year)) + "-" + TwoDigits(Nat(d.month))
    case Quarter => Digits(Nat(d.year)) + "-" + ("Q" + Digits(Nat((d.month - 1) / 3 + 1)))
    case Year => Digits(Nat(d.year))
  }

  /** Shortest decimal notation. */
  predicate Shows(text: string, n: int) {
    text != "" && AllDigits(text) && ReadDigits(text) == n && (text[0] == '0' ==> text == "0")
  }

  /** Decimal notation of a given width. */
  predicate ShowsIn(text: string, n: int, width: nat) {
    |text| == width && AllDigits(text) && ReadDigits(text) == n
  }

  /** What a key looks like: 2024-W09, 2024-03, 2024-Q1, 2024. */
  ghost predicate KeyLooks(k: Kind, d: Date, key: string) {
    match k
    case Week =>
      exists y, w :: key == y + "-W" + w && Shows(y, IsoCalendar(d).year) && ShowsIn(w, IsoCalendar(d).week, 2)
    case Month => exists y, m :: key == y + "-" + m && ShowsIn(y, d.year, 4) && ShowsIn(m, d.month, 2)
    case Quarter =>
      exists y, q, n :: key == y + "-Q" + q && Shows(y, d.year) && ShowsIn(q, n, 1) && 3 * n - 2 <= d.month <= 3 * n
    case Year => Shows(key, d.year)
  }

  lemma DigitsShow(n: nat)
    ensures Shows(Digits(n), n)
    ensures n < 10 ==> ShowsIn(Digits(n), n, 1)
    ensures n < 100 ==> ShowsIn(TwoDigits(n), n, 2)
    ensures n < 10000 ==> ShowsIn(FourDigits(n), n, 4)
  {
    DigitsRoundTrip(n);
    TwoDigitsRoundTrip(n);
    FourDigitsRoundTrip(n);
    NoLeadingZero(n);
    Widths(n);
    DigitCount(n);
  }

  lemma KeyLooksSo(k: Kind, d: Date)
    requires Valid(d)
    ensures KeyLooks(k, d, StorageKey(k, d))
  {
    hide Digits, TwoDigits, FourDigits, IsoCalendar, Shows, ShowsIn, DaysInMonth;
    DigitsShow(d.year);
    match k {
      case Week =>
        IsoCalendarLocatesMonday(d);
        var y, w: nat := IsoCalendar(d).year, IsoCalendar(d).week;
        DigitsShow(y);
        DigitsShow(w);
        assert StorageKey(Week, d) == Digits(y) + "-W" + TwoDigits(w);
      case Month =>
        DigitsShow(d.month);
        assert StorageKey(Month, d) == FourDigits(d.year) + "-" + TwoDigits(d.month);
      case Quarter =>
        var n: nat := (d.month - 1) / 3 + 1;
        DigitsShow(n);
        assert StorageKey(Quarter, d) == Digits(d.year) + "-Q" + Digits(n);
      case Year =>
    }
  }

  /** Digits before a dash can be told from what follows it. */
  lemma DashSplits(a: string, x: string, b: string, y: string)
    requires AllDigits(a) && AllDigits(b)
    requires a + "-" + x == b + "-" + y
    ensures a == b && x == y
  {
    var s := a + "-" + x;
    assert forall i :: 0 <= i < |a| ==> s[i] == a[i] && IsDigit(s[i]);
    assert forall i :: 0 <= i < |b| ==> s[i] == b[i] && IsDigit(s[i]);
    assert s[|a|] == '-' && s[|b|] == '-';
    assert |a| == |b|;
    assert a == s[..|a|] && b == s[..|b|];
    assert x == s[|a| + 1..] && y == s[|b| + 1..];
  }

  lemma DigitsInjective(a: nat, b: nat)
    ensures Digits(a) == Digits(b) <==> a == b
    ensures TwoDigits(a) == TwoDigits(b) <==> a == b
    ensures FourDigits(a) == FourDigits(b) <==> a == b
  {
    DigitsRoundTrip(a);
    DigitsRoundTrip(b);
    TwoDigitsRoundTrip(a);
    TwoDigitsRoundTrip(b);
    FourDigitsRoundTrip(a);
    FourDigitsRoundTrip(b);
  }

  /** The numbers a key is built from. */
  function KeyParts(k: Kind, d: Date): (int, int) {
    match k
    case Week => (IsoCalendar(d).year, IsoCalendar(d).week)
    case Month => (d.year, d.month)
    case Quarter => (d.year, (d.month - 1) / 3 + 1)
    case Year => (d.year, 0)
  }

  lemma SecondPart(p: string, x: string, y: string)
    requires p + x == p + y
    ensures x == y
  {
    assert x == (p + x)[|p|..] && y == (p + y)[|p|..];
  }

  /** A number, a dash, a letter or nothing, and a text show the number and the text. */
  lemma DashedParts(a: nat, b: nat, p: string, x: string, y: string)
    ensures Digits(a) + "-" + (p + x) == Digits(b) + "-" + (p + y) <==> a == b && x == y
  {
    hide Digits;
    DigitsInjective(a, b);
    DigitsRoundTrip(a);
    DigitsRoundTrip(b);
    if Digits(a) + "-" + (p + x) == Digits(b) + "-" + (p + y) {
      DashSplits(Digits(a), p + x, Digits(b), p + y);
      SecondPart(p, x, y);
    }
  }

  lemma WeekKeyParts(a: Date, b: Date)
    requires Valid(a) && Valid(b)
    ensures StorageKey(Week, a) == StorageKey(Week, b) <==> KeyParts(Week, a) == KeyParts(Week, b)
  {
    IsoCalendarLocatesMonday(a);
    IsoCalendarLocatesMonday(b);
    hide IsoCalendar, Digits, TwoDigits, Valid;
    var ia, ib := IsoCalendar(a), IsoCalendar(b);
    DigitsInjective(ia.week, ib.week);
    DashedParts(ia.year, ib.year, "W", TwoDigits(ia.week), TwoDigits(ib.week));
  }

  lemma MonthKeyParts(a: Date, b: Date)
    requires Valid(a) && Valid(b)
    ensures StorageKey(Month, a) == StorageKey(Month, b) <==> KeyParts(Month, a) == KeyParts(Month, b)
  {
    hide FourDigits, TwoDigits, DaysInMonth;
    DigitsInjective(a.year, b.year);
    DigitsInjective(a.month, b.month);
    FourDigitsRoundTrip(a.year);
    FourDigitsRoundTrip(b.year);
    if StorageKey(Month, a) == StorageKey(Month, b) {
      DashSplits(FourDigits(a.year), TwoDigits(a.month), FourDigits(b.year), TwoDigits(b.month));
    }
  }

  lemma QuarterKeyParts(a: Date, b: Date)
    requires Valid(a) && Valid(b)
    ensures StorageKey(Quarter, a) == StorageKey(Quarter, b) <==> KeyParts(Quarter, a) == KeyParts(Quarter, b)
  {
    hide Digits, DaysInMonth;
    var qa, qb := (a.month - 1) / 3 + 1, (b.month - 1) / 3 + 1;
    DigitsInjective(qa, qb);
    DashedParts(a.year, b.year, "Q", Digits(qa), Digits(qb));
  }

  /** Storage keys show the numbers they are built from. */
  lemma KeyShowsParts(k: Kind, a: Date, b: Date)
    requires Valid(a) && Valid(b)
    ensures StorageKey(k, a) == StorageKey(k, b) <==> KeyParts(k, a) == KeyParts(k, b)
  {
    hide Digits, DaysInMonth, IsoCalendar;
    match k {
      case Week => WeekKeyParts(a, b);
      case Month => MonthKeyParts(a, b);
      case Quarter => QuarterKeyParts(a, b);
      case Year => DigitsInjective(a.year, b.year);
    }
  }

  lemma MondayBefore(n: int, monday: int)
    requires (monday + 6) % 7 == 0
    ensures n - (n + 6) % 7 == monday <==> monday <= n < monday + 7
  {
  }

  /** The days of a week share its Monday. */
  lemma SameMonday(p: Bounds, d: Date)
    requires IsPeriod(Week, p) && Exists(d)
    ensures Within(d, p) <==> Monday(d) == Ordinal(p.start)
  {
    MondaysApart(p);
    assert Weekday(p.start) == 0;
    assert Exists(p.start) && Exists(p.end);
    hide Ordinal, IsPeriod, Exists;
    OrdinalOrder(d, p.start);
    OrdinalOrder(d, p.end);
    MondayBefore(Ordinal(d), Ordinal(p.start));
  }

  lemma WeekKeys(a: Date, b: Date, p: Bounds)
    requires Valid(a) && Valid(b) && IsPeriod(Week, p) && Within(a, p)
    ensures KeyParts(Week, a) == KeyParts(Week, b) <==> Within(b, p)
  {
    hide Ordinal, IsPeriod, Monday, IsoCalendar;
    SameMonday(p, a);
    SameMonday(p, b);
    SameIsoWeek(a, b);
  }

  lemma MonthKeys(a: Date, b: Date, p: Bounds)
    requires Valid(a) && Valid(b) && IsPeriod(Month, p) && Within(a, p)
    ensures KeyParts(Month, a) == KeyParts(Month, b) <==> Within(b, p)
  {
    hide Ordinal, PeriodBounds;
    var c := MonthAround(a);
    MonthPeriod(a);
    PeriodIsUnique(Month, p, c, a);
  }

  lemma QuarterKeys(a: Date, b: Date, p: Bounds)
    requires Valid(a) && Valid(b) && IsPeriod(Quarter, p) && Within(a, p)
    ensures KeyParts(Quarter, a) == KeyParts(Quarter, b) <==> Within(b, p)
  {
    hide Ordinal, PeriodBounds;
    var c := QuarterAround(a);
    QuarterPeriod(a);
    PeriodIsUnique(Quarter, p, c, a);
  }

  lemma YearKeys(a: Date, b: Date, p: Bounds)
    requires Valid(a) && Valid(b) && IsPeriod(Year, p) && Within(a, p)
    ensures KeyParts(Year, a) == KeyParts(Year, b) <==> Within(b, p)
  {
    hide Ordinal, PeriodBounds;
    var c := YearAround(a);
    YearPeriod(a);
    PeriodIsUnique(Year, p, c, a);
  }

  /** A key belongs to the days of one period, for every kind of period. */
  lemma KeyIffSamePeriod(k: Kind, a: Date, b: Date, p: Bounds)
    requires Valid(a) && Valid(b) && IsPeriod(k, p) && Within(a, p)
    ensures StorageKey(k, a) == StorageKey(k, b) <==> Within(b, p)
  {
    hide StorageKey, KeyParts, Ordinal, IsPeriod;
    KeyShowsParts(k, a, b);
    match k {
      case Week => WeekKeys(a, b, p);
      case Month => MonthKeys(a, b, p);
      case Quarter => QuarterKeys(a, b, p);
      case Year => YearKeys(a, b, p);
    }
  }
}

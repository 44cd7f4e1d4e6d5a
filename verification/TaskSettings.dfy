/** Settings of scheduled tasks and the times they give. Times are microseconds on the clock's own calendar. */
module TaskSettings {
  import opened Wrappers
  import opened Decimals
  import Text

  const MINUTE := 60_000_000
  const DAY := 86_400_000_000
  const MIN_INTERVAL := 1
  const MAX_INTERVAL := 10080

  // ----- clock times

  /** `_parse_daily_time`: the minute of the day. */
  function ParseDailyTime(text: string): (m: Option<nat>)
    ensures m.Some? ==> m.value < 1440
  {
    var t := Text.Strip(text);
    if |t| == 5 && AllDigits(t[..2]) && t[2] == ':' && AllDigits(t[3..]) then
      var hour, minute := ReadDigits(t[..2]), ReadDigits(t[3..]);
      if hour <= 23 && minute <= 59 then Some(60 * hour + minute) else None
    else None
  }

  function DailyTime(minute: nat): string
    requires minute < 1440
  {
    TwoDigits(minute / 60) + ":" + TwoDigits(minute % 60)
  }

  lemma TwoDigitsLength(n: nat)
    requires n < 100
    ensures |TwoDigits(n)| == 2
  {
    if n >= 10 {
      assert Digits(n) == Digits(n / 10) + [DigitChar(n % 10)];
    }
  }

  /** Every minute of the day has a text that is read back as that minute. */
  lemma DailyTimeRoundTrip(minute: nat)
    requires minute < 1440
    ensures ParseDailyTime(DailyTime(minute)) == Some(minute)
  {
    var h, m := minute / 60, minute % 60;
    var t := DailyTime(minute);
    TwoDigitsLength(h);
    TwoDigitsLength(m);
    TwoDigitsRoundTrip(h);
    TwoDigitsRoundTrip(m);
    assert t[..2] == TwoDigits(h) && t[3..] == TwoDigits(m);
  }

  lemma {:induction false} TwoDigitsReadBack(s: string)
    requires |s| == 2 && AllDigits(s)
    ensures ReadDigits(s) < 100 && TwoDigits(ReadDigits(s)) == s
  {
    var tens, ones := s[0] as int - '0' as int, s[1] as int - '0' as int;
    assert s[..1] == [s[0]] && s[..1][..0] == [];
    assert ReadDigits([]) == 0;
    assert ReadDigits(s[..1]) == tens;
    assert ReadDigits(s) == 10 * tens + ones;
    assert DigitChar(tens) == s[0] && DigitChar(ones) == s[1];
    if tens > 0 {
      var n := 10 * tens + ones;
      assert n / 10 == tens && n % 10 == ones;
      assert Digits(n) == Digits(tens) + [DigitChar(ones)];
      assert Digits(tens) == [DigitChar(tens)];
    }
  }

  /** A text is accepted exactly when, stripped, it is the text of some minute of the day. */
  lemma DailyTimeAcceptedIff(text: string)
    ensures ParseDailyTime(text).Some? <==> exists m: nat :: m < 1440 && Text.Strip(text) == DailyTime(m)
  {
    var t := Text.Strip(text);
    if ParseDailyTime(text).Some? {
      var m := ParseDailyTime(text).value;
      TwoDigitsReadBack(t[..2]);
      TwoDigitsReadBack(t[3..]);
      assert m / 60 == ReadDigits(t[..2]) && m % 60 == ReadDigits(t[3..]);
      assert t == t[..2] + ":" + t[3..];
      assert t == DailyTime(m);
    }
    if m: nat :| m < 1440 && t == DailyTime(m) {
      DailyTimeRoundTrip(m);
      TwoDigitsLength(m / 60);
      TwoDigitsLength(m % 60);
      TwoDigitsRoundTrip(m / 60);
      TwoDigitsRoundTrip(m % 60);
      assert t[..2] == TwoDigits(m / 60) && t[3..] == TwoDigits(m % 60);
    }
  }

  // ----- settings

  datatype Kind = Interval | Daily

  datatype Settings = Settings(kind: Kind, interval: Option<int>, daily: Option<string>)

  /** Exactly one of interval and clock time is set, and it is in range. */
  predicate Exclusive(c: Settings) {
    match c.kind
    case Interval => c.interval.Some? && MIN_INTERVAL <= c.interval.value <= MAX_INTERVAL && c.daily.None?
    case Daily => c.interval.None? && c.daily.Some? && ParseDailyTime(c.daily.value).Some?
  }

  datatype Change = Change(kind: Option<string>, interval: Option<int>, daily: Option<string>, enabled: Option<bool>)

  datatype SettingsError = BadKind | BadInterval | BadDailyTime | IntervalMissing | DailyTimeMissing | UnknownCode
                         | NoSuchTask | AlreadyThere

  function KindOf(text: string): Option<Kind> {
    if text == "interval" then Some(Interval) else if text == "daily" then Some(Daily) else None
  }

  predicate InRange(interval: int) { MIN_INTERVAL <= interval <= MAX_INTERVAL }

  /** What `update_task` checks before it reads the row. */
  function CheckChange(change: Change): Option<SettingsError> {
    if change.kind.Some? && KindOf(change.kind.value).None? then Some(BadKind)
    else if change.interval.Some? && !InRange(change.interval.value) then Some(BadInterval)
    else if change.daily.Some? && ParseDailyTime(change.daily.value).None? then Some(BadDailyTime)
    else None
  }

  /** The settings `update_task` arrives at, merging the change into the stored row. */
  function Merge(current: Settings, change: Change): (r: Result<Settings, SettingsError>)
    requires CheckChange(change).None?
    ensures r.Success? ==> Exclusive(r.value)
  {
    var kind := if change.kind.Some? then KindOf(change.kind.value).value else current.kind;
    var interval := if change.interval.Some? then change.interval else current.interval;
    var daily := if change.daily.Some? then change.daily else current.daily;
    if kind.Interval? then
      if interval.None? then Failure(IntervalMissing)
      else if !InRange(interval.value) then Failure(BadInterval)
      else Success(Settings(Interval, interval, None))
    else if daily.None? || daily.value == "" then Failure(DailyTimeMissing)
    else if ParseDailyTime(daily.value).None? then Failure(BadDailyTime)
    else Success(Settings(Daily, None, daily))
  }

  /** From valid settings, a checked change is refused only when it switches kind without the value that kind needs. */
  lemma MergeRefusesIff(current: Settings, change: Change)
    requires Exclusive(current) && CheckChange(change).None?
    ensures Merge(current, change).Failure? <==>
            change.kind.Some? && KindOf(change.kind.value) != Some(current.kind)
            && (if current.kind.Daily? then change.interval.None? else change.daily.None?)
  {
    assert ParseDailyTime("").None? by { assert Text.RStrip("") == "" && Text.LStrip("") == ""; }
  }

  /** A change that keeps the kind overwrites just the value given; values of the other kind are dropped. */
  lemma MergeKeepsKind(current: Settings, change: Change)
    requires Exclusive(current) && CheckChange(change).None?
    requires change.kind.Some? ==> KindOf(change.kind.value) == Some(current.kind)
    ensures Merge(current, change).Success?
    ensures Merge(current, change).value ==
            if current.kind.Interval?
            then current.(interval := if change.interval.Some? then change.interval else current.interval)
            else current.(daily := if change.daily.Some? then change.daily else current.daily)
  {
    MergeRefusesIff(current, change);
  }

  /** The settings after an accepted change, value by value. */
  lemma MergeIs(current: Settings, change: Change)
    requires Exclusive(current) && CheckChange(change).None? && Merge(current, change).Success?
    ensures var r := Merge(current, change).value;
            && r.kind == (if change.kind == Some("interval")
                          then Interval
                          else if change.kind == Some("daily") then Daily
                            else current.kind)
            && r.interval == (if r.kind.Daily? then None
                              else if change.interval.Some? then change.interval else current.interval)
            && r.daily == (if r.kind.Interval? then None
                           else if change.daily.Some? then change.daily else current.daily)
  {
  }

  /** A change is checked for the two kinds, the range of intervals, and the texts of the minutes of a day. */
  lemma CheckedIff(change: Change)
    ensures CheckChange(change).None? <==>
            && (change.kind.Some? ==> change.kind.value == "interval" || change.kind.value == "daily")
            && (change.interval.Some? ==> 1 <= change.interval.value <= 10080)
            && (change.daily.Some? ==> exists m: nat :: m < 1440 && Text.Strip(change.daily.value) == DailyTime(m))
  {
    if change.daily.Some? {
      DailyTimeAcceptedIff(change.daily.value);
    }
  }

  // ----- next runs

  /** `_compute_next_run_after` */
  function NextRun(c: Settings, after: int): int
    requires Exclusive(c)
  {
    match c.kind
    case Interval => after + c.interval.value * MINUTE
    case Daily =>
      var candidate := after / DAY * DAY + ParseDailyTime(c.daily.value).value * MINUTE;
      if candidate <= after then candidate + DAY else candidate
  }

  lemma DayOf(day: int, rest: int)
    requires 0 <= rest < DAY
    ensures (day * DAY + rest) % DAY == rest && (day * DAY + rest) / DAY == day
  {
  }

  /** A daily task next runs at the first instant, strictly later, that shows its clock time. */
  lemma NextDailyRunIsFirst(c: Settings, after: int)
    requires Exclusive(c) && c.kind.Daily?
    ensures var minute := ParseDailyTime(c.daily.value).value;
            var next := NextRun(c, after);
            && next > after && next % DAY == minute * MINUTE
            && (forall t :: t > after && t % DAY == minute * MINUTE ==> next <= t)
  {
    var rest := ParseDailyTime(c.daily.value).value * MINUTE;
    var day := after / DAY;
    DayOf(day, rest);
    DayOf(day + 1, rest);
    forall t | t > after && t % DAY == rest ensures NextRun(c, after) <= t {
      assert t == t / DAY * DAY + rest;
      if t / DAY > day {
        assert t / DAY * DAY >= (day + 1) * DAY;
      }
    }
  }

  /** The next run of these settings: the interval's minutes later, or the first instant that shows the clock time. */
  ghost predicate NextAt(c: Settings, after: int, next: int)
    requires Exclusive(c)
  {
    match c.kind
    case Interval => next - after == c.interval.value * 60 * 1_000_000
    case Daily =>
      var at := ParseDailyTime(c.daily.value).value * 60 * 1_000_000;
      && next > after && next % 86_400_000_000 == at
      && forall t :: t > after && t % 86_400_000_000 == at ==> next <= t
  }

  lemma NextRunIs(c: Settings, after: int)
    requires Exclusive(c)
    ensures NextAt(c, after, NextRun(c, after))
  {
    if c.kind.Daily? {
      NextDailyRunIsFirst(c, after);
    }
  }

  lemma NextRunIsLater(c: Settings, after: int)
    requires Exclusive(c)
    ensures NextRun(c, after) > after
    ensures c.kind.Interval? ==> NextRun(c, after) - after == c.interval.value * MINUTE
    ensures c.kind.Daily? ==> NextRun(c, after) - after <= DAY
  {
    if c.kind.Daily? {
      NextDailyRunIsFirst(c, after);
    }
  }
}

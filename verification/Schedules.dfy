/** Monthly reporting dates: the stored table, inheritance from last year, and the preparation ahead of time. */
module Schedules {
  import opened Wrappers
  import opened Calendar
  import Periods

  datatype ReportMonth = ReportMonth(year: int, month: int)

  datatype Key = Key(month: ReportMonth, process: string)

  datatype Row = Row(date: Date, source: string, sourceYear: Option<int>, owner: Option<string>, updatedBy: string,
                     updatedAt: int)

  type Table = map<Key, Row>

  datatype Error = BadMonth | OutsideMonth | PreviousOutsideMonth | NotConfigured

  const PBC := "pbc_central"

  /** What `_parse_report_month` accepts. */
  predicate Parses(m: ReportMonth) { 1 <= m.year <= MAX_YEAR && 1 <= m.month <= 12 }

  predicate Within(d: Date, m: ReportMonth) { d.year == m.year && d.month == m.month }

  function LastYear(m: ReportMonth): ReportMonth { m.(year := m.year - 1) }

  ghost predicate AllInMonth(rows: Table) {
    forall k <- rows :: Parses(k.month) && Valid(rows[k].date) && Within(rows[k].date, k.month)
  }

  function MonthFor(d: Date): ReportMonth { ReportMonth(d.year, d.month) }

  // ----- statements

  /** An insert that on a duplicate key changes nothing. */
  function InsertIfMissing(rows: Table, key: Key, row: Row): Table {
    if key in rows then rows else rows[key := row]
  }

  /** An insert that on a duplicate key takes the date and its source, and leaves the owner. */
  function Upsert(rows: Table, key: Key, row: Row): Table {
    rows[key := if key in rows then row.(owner := rows[key].owner) else row]
  }

  /** An insert of what was loaded before, which on a duplicate key takes only the owner. */
  function SetOwner(rows: Table, key: Key, loaded: Row, owner: string, editor: string, at: int): Table {
    var row := loaded.(owner := if owner == "" then None else Some(owner), updatedBy := editor, updatedAt := at);
    rows[key := if key in rows then rows[key].(owner := row.owner, updatedBy := editor, updatedAt := at) else row]
  }

  /** The row inherited from last year's: the same day, or the month's last when it has no such day. */
  function Inherited(m: ReportMonth, previous: Row, at: int): Row {
    var last := DaysInMonth(m.year, m.month);
    var day := if previous.date.day <= last then previous.date.day else last;
    Row(Date(m.year, m.month, day), "inherited", Some(previous.date.year), None, "system", at)
  }

  function DefaultRow(m: ReportMonth, at: int): Row {
    Row(Date(m.year, m.month, 1), "default", Some(m.year), None, "system", at)
  }

  /**
    What `ensure_schedule` inserts when it found no row: nothing, last year's day, or the first for the one
    process that has a default.
  */
  function Candidate(key: Key, previous: Option<Row>, at: int): Option<Row> {
    if previous.Some? then Some(Inherited(key.month, previous.value, at))
    else if key.process == PBC then Some(DefaultRow(key.month, at))
    else None
  }

  lemma InheritedStaysInMonth(key: Key, previous: Option<Row>, at: int)
    requires Parses(key.month)
    requires previous.Some? ==> Valid(previous.value.date) && Within(previous.value.date, LastYear(key.month))
    ensures var c := Candidate(key, previous, at); c.Some? ==> Valid(c.value.date) && Within(c.value.date, key.month)
    // the day is kept, except that of 29 February
    ensures previous.Some? ==>
              Candidate(key, previous, at).value.date.day ==
              if key.month.month == 2 && previous.value.date.day == 29 then 28 else previous.value.date.day
  {
  }

  function Load(rows: Table, key: Key): Result<Option<Row>, Error> {
    if !Parses(key.month) then Failure(BadMonth) else Success(if key in rows then Some(rows[key]) else None)
  }

  /** The rows after `ensure_schedule` with nothing in between, and what it returns. */
  function Ensured(rows: Table, key: Key, at: int): (Table, Result<Option<Row>, Error>) {
    var current := Load(rows, key);
    if current.Failure? then (rows, current)
    else if current.value.Some? then
      (rows, if Within(current.value.value.date, key.month) then current else Failure(OutsideMonth))
    else
      var previous := Load(rows, key.(month := LastYear(key.month)));
      if previous.Failure? then (rows, previous)
      else if previous.value.Some? && !Within(previous.value.value.date, LastYear(key.month))
      then (rows, Failure(PreviousOutsideMonth))
      else
        var row := Candidate(key, previous.value, at);
        if row.None? then (rows, Success(None))
        else (InsertIfMissing(rows, key, row.value), Success(row))
  }

  /** From rows in their months, the call alters no row, adds at most the one asked for, and fails only for year 1. */
  lemma EnsuredLaw(rows: Table, key: Key, at: int)
    requires AllInMonth(rows) && Parses(key.month)
    ensures var (after, r) := Ensured(rows, key, at);
            && AllInMonth(after)
            && (forall k <- rows :: k in after && after[k] == rows[k])
            && (forall k <- after :: k in rows || k == key)
            && (r.Failure? <==> key !in rows && key.month.year == 1)
            && (r.Failure? ==> after == rows)
            && (r.Success? ==> (r.value.Some? <==> key in after) && (r.value.Some? ==> after[key] == r.value.value))
            && (r.Success? && r.value.None? <==>
                key.month.year > 1 && key !in rows && key.(month := LastYear(key.month)) !in rows
                && key.process != PBC)
  {
    var previousKey := key.(month := LastYear(key.month));
    if key !in rows && key.month.year > 1 {
      var previous := if previousKey in rows then Some(rows[previousKey]) else None;
      InheritedStaysInMonth(key, previous, at);
    }
  }

  /** The stored rows leave no date to return: one outside its month, or no year before the first. */
  predicate BadDates(rows: Table, key: Key) {
    if key in rows then rows[key].date.year != key.month.year || rows[key].date.month != key.month.month
    else
      var last := key.(month := ReportMonth(key.month.year - 1, key.month.month));
      || key.month.year == 1
      || (last in rows && (rows[last].date.year != key.month.year - 1 || rows[last].date.month != key.month.month))
  }

  /** From any table, whatever its dates: when the call fails, and what the one row it adds holds. */
  lemma EnsuredIs(rows: Table, key: Key, at: int)
    requires Parses(key.month)
    ensures var (after, r) := Ensured(rows, key, at);
            var last := key.(month := ReportMonth(key.month.year - 1, key.month.month));
            && (r.Failure? <==> BadDates(rows, key))
            && (forall k <- rows :: k in after && after[k] == rows[k]) && (forall k <- after :: k in rows || k == key)
            && (key !in rows && key in after ==>
                  && after[key].owner == None && after[key].updatedBy == "system" && after[key].updatedAt == at
                  && after[key].date.year == key.month.year && after[key].date.month == key.month.month
                  && (if last in rows
                      then after[key].source == "inherited" && after[key].sourceYear == Some(key.month.year - 1)
                           && after[key].date.day <= rows[last].date.day
                      else key.process == "pbc_central" && after[key].source == "default" && after[key].date.day == 1
                           && after[key].sourceYear == Some(key.month.year)))
            && (r.Success? ==> (key in after <==> key in rows || last in rows || key.process == "pbc_central"))
            && (r.Success? ==> (r.value.Some? <==> key in after) && (r.value.Some? ==> r.value.value == after[key]))
  {
    hide DaysInMonth;
  }

  /** What `prepare_schedules` finds for a process of a month it may not write yet. */
  function Looked(rows: Table, key: Key): Option<Reason> {
    var current, previous := Load(rows, key), Load(rows, key.(month := LastYear(key.month)));
    if current.Failure? then Some(InvalidDate)
    else if current.value.Some? then
      if Within(current.value.value.date, key.month) then None else Some(InvalidDate)
    else if previous.Failure? || (previous.value.Some? && !Within(previous.value.value.date, LastYear(key.month)))
    then Some(InvalidDate)
    else if previous.value.Some? || key.process == PBC then Some(AwaitingMaintenance)
      else Some(MissingHistory)
  }

  datatype Reason = ConfigurationFailed | MissingHistory | AwaitingMaintenance | InvalidDate | InheritanceFailed

  datatype Issue = Issue(month: ReportMonth, process: string, reason: Reason)

  /** One process: the rows after, and why it is not ready. A fault stands for any other exception of the store. */
  function Checked(rows: Table, key: Key, writes: bool, fault: bool, at: int): (Table, Option<Reason>) {
    if fault then (rows, Some(InheritanceFailed))
    else if writes then
      var (after, r) := Ensured(rows, key, at);
      (after, if r.Failure? then Some(InvalidDate) else if r.value.None? then Some(MissingHistory) else None)
    else (rows, Looked(rows, key))
  }

  datatype Tally = Tally(rows: Table, ready: nat, issues: seq<Issue>)

  /** The processes of one month, in the order configured. */
  function CheckedAll(rows: Table, m: ReportMonth, processes: seq<string>, writes: bool, faults: set<Key>,
                      at: int): Tally {
    if processes == [] then Tally(rows, 0, [])
    else
      var n := |processes| - 1;
      var before := CheckedAll(rows, m, processes[..n], writes, faults, at);
      var key := Key(m, processes[n]);
      var (after, reason) := Checked(before.rows, key, writes, key in faults, at);
      if reason.None? then Tally(after, before.ready + 1, before.issues)
      else Tally(after, before.ready, before.issues + [Issue(m, processes[n], reason.value)])
  }

  lemma OneMoreChecked(rows: Table, m: ReportMonth, processes: seq<string>, k: nat, writes: bool, faults: set<Key>,
                       at: int)
    requires k < |processes|
    ensures var before := CheckedAll(rows, m, processes[..k], writes, faults, at);
            var key := Key(m, processes[k]);
            var (after, reason) := Checked(before.rows, key, writes, key in faults, at);
            CheckedAll(rows, m, processes[..k + 1], writes, faults, at) ==
            if reason.None? then Tally(after, before.ready + 1, before.issues)
            else Tally(after, before.ready, before.issues + [Issue(m, processes[k], reason.value)])
  {
    hide Checked;
    assert processes[..k + 1][..k] == processes[..k];
  }

  /** Every process is either ready or has its one issue. */
  lemma {:induction false} EveryProcessCounted(rows: Table, m: ReportMonth, processes: seq<string>, writes: bool,
                                               faults: set<Key>, at: int)
    ensures var t := CheckedAll(rows, m, processes, writes, faults, at); t.ready + |t.issues| == |processes|
  {
    hide Checked;
    if processes != [] {
      EveryProcessCounted(rows, m, processes[..|processes| - 1], writes, faults, at);
    }
  }

  /** From rows in their months, no row is altered, and none is added before its time. */
  lemma {:induction false} CheckedAllLaw(rows: Table, m: ReportMonth, processes: seq<string>, writes: bool,
                                         faults: set<Key>, at: int)
    requires AllInMonth(rows) && Parses(m)
    ensures var t := CheckedAll(rows, m, processes, writes, faults, at);
            && AllInMonth(t.rows)
            && (forall k <- rows :: k in t.rows && t.rows[k] == rows[k])
            && (!writes ==> t.rows == rows)
            && (forall k <- t.rows :: k in rows || (k.month == m && k.process in processes))
            && (forall i <- t.issues :: i.month == m && i.process in processes)
  {
    hide Ensured, Looked, AllInMonth;
    if processes != [] {
      var n := |processes| - 1;
      CheckedAllLaw(rows, m, processes[..n], writes, faults, at);
      var before := CheckedAll(rows, m, processes[..n], writes, faults, at);
      EnsuredLaw(before.rows, Key(m, processes[n]), at);
      assert processes == processes[..n] + [processes[n]];
    }
  }

  lemma LastIsListed(rows: Table, m: ReportMonth, processes: seq<string>, writes: bool, faults: set<Key>, at: int)
    requires processes != []
    requires var key := Key(m, processes[|processes| - 1]);
             Checked(CheckedAll(rows, m, processes[..|processes| - 1], writes, faults, at).rows, key, writes,
                     key in faults, at).1.Some?
    ensures exists i :: i in CheckedAll(rows, m, processes, writes, faults, at).issues
                        && i.process == processes[|processes| - 1]
  {
    hide Checked;
    var issues := CheckedAll(rows, m, processes, writes, faults, at).issues;
    assert issues[|issues| - 1] in issues;
  }

  lemma LastAdds(rows: Table, m: ReportMonth, processes: seq<string>, writes: bool, faults: set<Key>, at: int)
    requires AllInMonth(rows) && Parses(m) && processes != []
    ensures var before := CheckedAll(rows, m, processes[..|processes| - 1], writes, faults, at);
            var all := CheckedAll(rows, m, processes, writes, faults, at);
            && (forall i <- before.issues :: i in all.issues)
            && (forall k <- before.rows :: k in all.rows)
  {
    hide Ensured, Looked, AllInMonth;
    var n := |processes| - 1;
    CheckedAllLaw(rows, m, processes[..n], writes, faults, at);
    EnsuredLaw(CheckedAll(rows, m, processes[..n], writes, faults, at).rows, Key(m, processes[n]), at);
  }

  lemma NoReasonMeansRow(rows: Table, key: Key, writes: bool, fault: bool, at: int)
    requires AllInMonth(rows) && Parses(key.month) && Checked(rows, key, writes, fault, at).1.None?
    ensures key in Checked(rows, key, writes, fault, at).0
  {
    if writes {
      EnsuredLaw(rows, key, at);
    }
  }

  /** A process with no issue has its row, in its month, when the month has been gone through. */
  lemma {:induction false} ReadyHasRow(rows: Table, m: ReportMonth, processes: seq<string>, writes: bool,
                                       faults: set<Key>, at: int, p: string)
    requires AllInMonth(rows) && Parses(m) && p in processes
    requires forall i <- CheckedAll(rows, m, processes, writes, faults, at).issues :: i.process != p
    ensures Key(m, p) in CheckedAll(rows, m, processes, writes, faults, at).rows
  {
    hide Checked, AllInMonth;
    var n := |processes| - 1;
    CheckedAllLaw(rows, m, processes[..n], writes, faults, at);
    var before := CheckedAll(rows, m, processes[..n], writes, faults, at);
    var all := CheckedAll(rows, m, processes, writes, faults, at);
    if p == processes[n] {
      var (after, reason) := Checked(before.rows, Key(m, p), writes, Key(m, p) in faults, at);
      if reason.Some? {
        LastIsListed(rows, m, processes, writes, faults, at);
      }
      NoReasonMeansRow(before.rows, Key(m, p), writes, Key(m, p) in faults, at);
    } else {
      assert processes == processes[..n] + [processes[n]];
      LastAdds(rows, m, processes, writes, faults, at);
      ReadyHasRow(rows, m, processes[..n], writes, faults, at, p);
    }
  }

  /** Why a process that met no fault is not ready, from rows in their months. */
  lemma IssueMeans(rows: Table, key: Key, writes: bool, at: int)
    requires AllInMonth(rows) && Parses(key.month) && key.month.year > 1
    ensures var reason := Checked(rows, key, writes, false, at).1;
            var history := key.(month := LastYear(key.month)) in rows || key.process == PBC;
            && (reason == Some(MissingHistory) <==> key !in rows && !history)
            && (reason == Some(AwaitingMaintenance) <==> key !in rows && history && !writes)
            && (reason == None <==> key in rows || (history && writes))
            && reason != Some(InvalidDate)
  {
    EnsuredLaw(rows, key, at);
  }

  /** Whether it writes or not, the preparation calls the dates invalid exactly when they are. */
  lemma InvalidMeans(rows: Table, key: Key, writes: bool, at: int)
    requires Parses(key.month)
    ensures Checked(rows, key, writes, false, at).1 == Some(InvalidDate) <==> BadDates(rows, key)
    ensures Checked(rows, key, writes, true, at) == (rows, Some(InheritanceFailed))
  {
    EnsuredIs(rows, key, at);
    hide Ensured;
  }

  // ----- the store and the preparation

  /** No row but the key's changes. */
  predicate OnlyKey(before: Table, after: Table, key: Key) {
    forall k <- before.Keys + after.Keys :: k != key ==> k in before && k in after && after[k] == before[k]
  }

  function NextMonth(d: Date): ReportMonth {
    if d.month == 12 then ReportMonth(d.year + 1, 1) else ReportMonth(d.year, d.month + 1)
  }

  lemma FollowingIsNext(today: Date)
    requires Valid(today)
    ensures Periods.FollowingMonth(today).Failure? <==> today.year == 9999 && today.month == 12
    ensures Periods.FollowingMonth(today).Success? ==> MonthFor(Periods.FollowingMonth(today).value) == NextMonth(today)
    ensures Periods.IsMonthEnd(today) <==> today.day == DaysInMonth(today.year, today.month)
  {
    Periods.FollowingMonthIsNext(today);
  }

  class ScheduleStore {
    var rows: Table

    constructor (rows: Table)
      ensures this.rows == rows
    {
      this.rows := rows;
    }

    method UpsertSchedule(key: Key, date: Date, source: string, sourceYear: Option<int>, editor: string, at: int,
                          onlyIfMissing: bool)
      returns (error: Option<Error>)
      modifies this
      ensures !Parses(key.month) ==> error == Some(BadMonth)
      ensures Parses(key.month) ==> error == if Within(date, key.month) then None else Some(OutsideMonth)
      ensures error.Some? ==> rows == old(rows)
      ensures error.None? ==>
                var row := Row(date, source, sourceYear, None, editor, at);
                && Within(date, key.month)
                && rows == if onlyIfMissing then InsertIfMissing(old(rows), key, row) else Upsert(old(rows), key, row)
      ensures OnlyKey(old(rows), rows, key)
      ensures error.None? && key in old(rows) && onlyIfMissing ==> rows == old(rows)
      ensures error.None? && !(key in old(rows) && onlyIfMissing) ==>
                && key in rows && rows[key].date == date && rows[key].source == source
                && rows[key].sourceYear == sourceYear && rows[key].updatedBy == editor && rows[key].updatedAt == at
                && rows[key].owner == if key in old(rows) then old(rows)[key].owner else None
    {
      if !Parses(key.month) {
        return Some(BadMonth);
      }
      if !Within(date, key.month) {
        return Some(OutsideMonth);
      }
      if key !in rows {
        rows := rows[key := Row(date, source, sourceYear, None, editor, at)];
      } else if !onlyIfMissing {
        rows := rows[key := rows[key].(date := date, source := source, sourceYear := sourceYear, updatedBy := editor,
        updatedAt := at)];
      }
      return None;
    }

    method LoadSchedule(key: Key) returns (r: Result<Option<Row>, Error>)
      ensures r == Load(rows, key)
    {
      if !Parses(key.month) {
        return Failure(BadMonth);
      }
      r := Success(None);
      if key in rows {
        r := Success(Some(rows[key]));
      }
    }

    method UpdateScheduleOwner(key: Key, owner: string, editor: string, at: int) returns (error: Option<Error>)
      modifies this
      ensures !Parses(key.month) ==> error == Some(BadMonth)
      ensures Parses(key.month) ==> error == if key in old(rows) then None else Some(NotConfigured)
      ensures error.Some? ==> rows == old(rows)
      ensures error.None? ==>
                && rows == SetOwner(old(rows), key, old(rows)[key], owner, editor, at)
                && rows[key].date == old(rows)[key].date
      ensures OnlyKey(old(rows), rows, key)
      ensures error.None? ==>
                && rows[key].owner == (if owner == "" then None else Some(owner))
                && rows[key].updatedBy == editor && rows[key].updatedAt == at
                && rows[key].source == old(rows)[key].source && rows[key].sourceYear == old(rows)[key].sourceYear
    {
      var current := LoadSchedule(key);
      if current.Failure? {
        return Some(current.error);
      }
      if current.value.None? {
        return Some(NotConfigured);
      }
      rows := SetOwner(rows, key, current.value.value, owner, editor, at);
      return None;
    }

    method EnsureSchedule(key: Key, at: int) returns (r: Result<Option<Row>, Error>)
      modifies this
      ensures (rows, r) == Ensured(old(rows), key, at)
    {
      r := LoadSchedule(key);
      if r.Failure? {
        return r;
      }
      if r.value.Some? {
        if !Within(r.value.value.date, key.month) {
          return Failure(OutsideMonth);
        }
        return r;
      }
      var previous := LoadSchedule(key.(month := LastYear(key.month)));
      if previous.Failure? {
        return previous;
      }
      if previous.value.Some? {
        var p := previous.value.value;
        if !Within(p.date, LastYear(key.month)) {
          return Failure(PreviousOutsideMonth);
        }
        var last := DaysInMonth(key.month.year, key.month.month);
        var day := if p.date.day <= last then p.date.day else last;
        var _ := UpsertSchedule(key, Date(key.month.year, key.month.month, day), "inherited", Some(p.date.year),
                                "system", at, true);
        r := LoadSchedule(key);
      } else if key.process == PBC {
        var _ := UpsertSchedule(key, Date(key.month.year, key.month.month, 1), "default", Some(key.month.year),
                                "system", at, true);
        r := LoadSchedule(key);
      } else {
        return Success(None);
      }
    }

    /** The processes of one month in `prepare_schedules`. */
    method PrepareMonth(m: ReportMonth, processes: seq<string>, writes: bool, faults: set<Key>, at: int)
      returns (ready: nat, issues: seq<Issue>)
      modifies this
      ensures Tally(rows, ready, issues) == CheckedAll(old(rows), m, processes, writes, faults, at)
    {
      hide Ensured, Looked;
      ready, issues := 0, [];
      var k := 0;
      while k < |processes|
        invariant 0 <= k <= |processes|
        invariant Tally(rows, ready, issues) == CheckedAll(old(rows), m, processes[..k], writes, faults, at)
      {
        OneMoreChecked(old(rows), m, processes, k, writes, faults, at);
        var reason := CheckProcess(Key(m, processes[k]), writes, Key(m, processes[k]) in faults, at);
        if reason.None? {
          ready := ready + 1;
        } else {
          issues := issues + [Issue(m, processes[k], reason.value)];
        }
        k := k + 1;
      }
      assert processes[..k] == processes;
    }

    /** The body of its inner loop. */
    method CheckProcess(key: Key, writes: bool, fault: bool, at: int) returns (reason: Option<Reason>)
      modifies this
      ensures (rows, reason) == Checked(old(rows), key, writes, fault, at)
    {
      if fault {
        return Some(InheritanceFailed);
      }
      if writes {
        var r := EnsureSchedule(key, at);
        if r.Failure? {
          return Some(InvalidDate);
        }
        return if r.value.Some? then None else Some(MissingHistory);
      }
      var current := LoadSchedule(key);
      if current.Failure? {
        return Some(InvalidDate);
      }
      if current.value.Some? {
        return if Within(current.value.value.date, key.month) then None else Some(InvalidDate);
      }
      var previous := LoadSchedule(key.(month := LastYear(key.month)));
      if previous.Failure? || (previous.value.Some? && !Within(previous.value.value.date, LastYear(key.month))) {
        return Some(InvalidDate);
      }
      return Some(if previous.value.Some? || key.process == PBC then AwaitingMaintenance else MissingHistory);
    }

    /**
      `prepare_schedules` on a day; `config` gives a month's processes, or nothing when they cannot be read. It raises
      when the next month is out of the calendar.
    */
    method PrepareSchedules(today: Date, config: ReportMonth -> Option<seq<string>>, faults: set<Key>, at: int)
      returns (raised: bool, checked: nat, ready: nat, issues: seq<Issue>)
      requires Valid(today)
      modifies this
      ensures raised <==> today.year == 9999 && today.month == 12
      ensures raised ==> rows == old(rows)
      ensures !raised ==>
                var m0, m1 := ReportMonth(today.year, today.month), NextMonth(today);
                var p0, p1 := config(m0), config(m1);
                var t0 := if p0.Some? then CheckedAll(old(rows), m0, p0.value, true, faults, at)
                          else Tally(old(rows), 0, [Issue(m0, "all", ConfigurationFailed)]);
                var lastDay := today.day == DaysInMonth(today.year, today.month);
                var t1 := if p1.Some? then CheckedAll(t0.rows, m1, p1.value, lastDay, faults, at)
                          else Tally(t0.rows, 0, [Issue(m1, "all", ConfigurationFailed)]);
                && rows == t1.rows && ready == t0.ready + t1.ready && issues == t0.issues + t1.issues
                && checked == (if p0.Some? then |p0.value| else 0) + (if p1.Some? then |p1.value| else 0)
                && checked + (if p0.None? then 1 else 0) + (if p1.None? then 1 else 0) == ready + |issues|
    {
      FollowingIsNext(today);
      hide CheckedAll, NextMonth, DaysInMonth, Periods.FollowingMonth, Periods.IsMonthEnd;
      checked, ready, issues := 0, 0, [];
      var next := Periods.FollowingMonth(today);
      if next.Failure? {
        return true, checked, ready, issues;
      }
      var months := [MonthFor(today), MonthFor(next.value)];
      var p0 := config(months[0]);
      if p0.None? {
        issues := [Issue(months[0], "all", ConfigurationFailed)];
      } else {
        EveryProcessCounted(rows, months[0], p0.value, true, faults, at);
        ready, issues := PrepareMonth(months[0], p0.value, true, faults, at);
        checked := |p0.value|;
      }
      var p1 := config(months[1]);
      if p1.None? {
        issues := issues + [Issue(months[1], "all", ConfigurationFailed)];
      } else {
        EveryProcessCounted(rows, months[1], p1.value, Periods.IsMonthEnd(today), faults, at);
        var ready1, issues1 := PrepareMonth(months[1], p1.value, Periods.IsMonthEnd(today), faults, at);
        checked, ready, issues := checked + |p1.value|, ready + ready1, issues + issues1;
      }
      return false, checked, ready, issues;
    }
  }

  /** The months a call accepts are those with a date in them. */
  lemma ParsesIff(m: ReportMonth)
    ensures Parses(m) <==> exists d :: Valid(d) && Within(d, m)
  {
    if Parses(m) {
      var d := Date(m.year, m.month, 1);
      assert Valid(d) && Within(d, m);
    }
  }

  /** An owner's write takes owner, editor and time; date and source stay those stored, or loaded before if none is. */
  lemma SetOwnerIs(rows: Table, key: Key, loaded: Row, owner: string, editor: string, at: int)
    ensures var after := SetOwner(rows, key, loaded, owner, editor, at);
            var before := if key in rows then rows[key] else loaded;
            && OnlyKey(rows, after, key) && key in after
            && after[key].owner == (if owner == "" then None else Some(owner))
            && after[key].updatedBy == editor && after[key].updatedAt == at
            && after[key].date == before.date && after[key].source == before.source
            && after[key].sourceYear == before.sourceYear
  {
  }
}

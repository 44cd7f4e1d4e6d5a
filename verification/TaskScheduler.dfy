/**
  The scheduled-task manager: its table, its manual queue and its running flag. Sections
  under the lock and database transactions are single steps; any number of threads tick,
  and requests, edits and restarts arrive between their steps.
 */
module TaskScheduler {
  import opened Wrappers
  import opened TaskSettings
  import Text

  datatype Status = Running | Succeeded | Failed

  datatype Task = Task(settings: Settings, enabled: bool, nextRun: Option<int>, lastStarted: Option<int>,
                       lastFinished: Option<int>, lastStatus: Option<Status>, lastError: Option<string>)

  const PREPARE := "report_navigation_schedule_prepare"
  const STATISTICS := "report_navigation_statistics"
  const CLEANUP := "notification_cleanup"
  const MAPPING := "db_validation_field_mapping_refresh"

  /** `TASK_TEMPLATES` */
  function Template(code: string): Option<Settings> {
    if code == PREPARE then Some(Settings(Daily, None, Some(DailyTime(900))))
    else if code == STATISTICS then Some(Settings(Interval, Some(30), None))
    else if code == CLEANUP then Some(Settings(Interval, Some(360), None))
    else if code == MAPPING then Some(Settings(Daily, None, Some(DailyTime(0))))
    else None
  }

  lemma TemplatesAreExclusive(code: string)
    ensures Template(code).Some? ==> Exclusive(Template(code).value)
  {
    hide DailyTime, ParseDailyTime;
    DailyTimeRoundTrip(900);
    DailyTimeRoundTrip(0);
  }

  /** `_compute_initial_next_run` */
  function InitialRun(code: string, c: Settings, now: int): int
    requires Exclusive(c)
  {
    if code == STATISTICS then now + 30 * 1_000_000 else if code == CLEANUP then now else NextRun(c, now)
  }

  type Table = map<string, Task>

  ghost predicate AllExclusive(table: Table) {
    forall code <- table :: Exclusive(table[code].settings)
  }

  // ----- transactions on the table

  /** `update_task` */
  function Update(table: Table, code: string, change: Change, now: int): Result<Table, SettingsError> {
    if Template(code).None? then Failure(UnknownCode)
    else if CheckChange(change).Some? then Failure(CheckChange(change).value)
    else if code !in table then Failure(NoSuchTask)
    else
      var task := table[code];
      var merged := Merge(task.settings, change);
      if merged.Failure? then Failure(merged.error)
      else
        var next :=
          if change == Change(None, None, None, None) then task.nextRun
          else if change.enabled == Some(false) then None
          else Some(NextRun(merged.value, now));
        var enabled := if change.enabled.Some? then change.enabled.value else task.enabled;
        Success(table[code := task.(settings := merged.value, enabled := enabled, nextRun := next)])
  }

  /** `restore_template` */
  function Restore(table: Table, code: string, now: int): Result<Table, SettingsError> {
    if Template(code).None? then Failure(UnknownCode)
    else if code in table then Failure(AlreadyThere)
    else
      TemplatesAreExclusive(code);
      var c := Template(code).value;
      Success(table[code := Task(c, true, Some(InitialRun(code, c, now)), None, None, None, None)])
  }

  /** `delete_task` */
  function Delete(table: Table, code: string): Result<(Table, bool), SettingsError> {
    if Template(code).None? then Failure(UnknownCode) else Success((table - {code}, code in table))
  }

  /** The transaction before the handler. */
  function Begun(table: Table, code: string, now: int): Table {
    if code in table
    then table[code := table[code].(lastStarted := Some(now), lastStatus := Some(Running), lastError := None)]
    else table
  }

  /** What is stored of an exception's text: never empty, at most 2000 characters. */
  function ErrorText(code: string, text: string): (e: string)
    ensures 0 < |e| <= 2000
    ensures Text.Strip(text) != "" ==> e <= Text.Strip(text) && (|e| < 2000 ==> e == Text.Strip(text))
    ensures Text.Strip(text) == "" && |code| < 1000 ==> |code| < |e| && e[|e| - |code|..] == code
  {
    var detail := Text.Strip(text);
    var e := if detail != "" then detail else "任务执行异常: " + code;
    if |e| <= 2000 then e else e[..2000]
  }

  /** The transaction after the handler, which raised when `error` is given. */
  function Ended(table: Table, code: string, now: int, error: Option<string>): Table
    requires AllExclusive(table)
  {
    if code in table then
      var t := table[code];
      var status := if error.None? then Succeeded else Failed;
      var text := if error.None? then None else Some(ErrorText(code, error.value));
      var next := if t.enabled then Some(NextRun(t.settings, now)) else t.nextRun;
      table[code := t.(lastFinished := Some(now), lastStatus := Some(status), lastError := text, nextRun := next)]
    else table
  }

  /** One row of `_ensure_initial_next_run`: the write carries what was read of the row before. */
  function SetInitial(table: Table, code: string, next: int): Table {
    if code in table then table[code := table[code].(nextRun := Some(next))] else table
  }

  // ----- transactions keep settings exclusive and change no other task

  lemma UpdateLaw(table: Table, code: string, change: Change, now: int)
    requires AllExclusive(table) && Update(table, code, change, now).Success?
    ensures var after := Update(table, code, change, now).value;
            && AllExclusive(after) && after.Keys == table.Keys && code in table
            && (forall other <- table :: other != code ==> after[other] == table[other])
            && (change.enabled.Some? ==> after[code].enabled == change.enabled.value)
            && (change.enabled == Some(false) ==> after[code].nextRun == None)
            && (change.enabled == Some(true) ==> after[code].nextRun.Some? && after[code].nextRun.value > now)
            && (change.kind.Some? ==> Some(after[code].settings.kind) == KindOf(change.kind.value))
            && after[code].lastStatus == table[code].lastStatus
  {
    var merged := Merge(table[code].settings, change).value;
    NextRunIsLater(merged, now);
  }

  const CODES: set<string> := {"report_navigation_schedule_prepare", "report_navigation_statistics",
                               "notification_cleanup", "db_validation_field_mapping_refresh"}

  /**
    An edit is accepted exactly for a registered task in the table, with values in range, and the value a
    new kind needs.
  */
  lemma UpdateAcceptedIff(table: Table, code: string, change: Change, now: int)
    requires AllExclusive(table)
    ensures Update(table, code, change, now).Success? <==>
            && code in CODES && code in table && CheckChange(change).None?
            && !(change.kind == Some("interval") && table[code].settings.kind.Daily? && change.interval.None?)
            && !(change.kind == Some("daily") && table[code].settings.kind.Interval? && change.daily.None?)
  {
    if code in table && CheckChange(change).None? {
      MergeRefusesIff(table[code].settings, change);
    }
    hide Merge, ParseDailyTime, DailyTime, Exclusive;
  }

  /** Which error an edit raises, when several apply. */
  lemma UpdateErrorIs(table: Table, code: string, change: Change, now: int)
    requires AllExclusive(table) && Update(table, code, change, now).Failure?
    ensures Update(table, code, change, now).error ==
            if code !in CODES then UnknownCode
            else if change.kind.Some? && change.kind.value != "interval" && change.kind.value != "daily" then BadKind
            else if change.interval.Some? && !(1 <= change.interval.value <= 10080) then BadInterval
            else if change.daily.Some? && !IsClockTime(change.daily.value) then BadDailyTime
            else if code !in table then NoSuchTask
            else if change.kind == Some("interval") then IntervalMissing
            else DailyTimeMissing
  {
    CheckErrorIs(change);
    if code in CODES && code in table && CheckChange(change).None? {
      MergeErrorIs(table[code].settings, change);
    }
    hide Merge, ParseDailyTime, DailyTime, Exclusive, CheckChange, IsClockTime;
  }

  ghost predicate IsClockTime(text: string) { exists m: nat :: m < 1440 && Text.Strip(text) == DailyTime(m) }

  lemma CheckErrorIs(change: Change)
    ensures CheckChange(change) ==
            if change.kind.Some? && change.kind.value != "interval" && change.kind.value != "daily" then Some(BadKind)
            else if change.interval.Some? && !(1 <= change.interval.value <= 10080) then Some(BadInterval)
            else if change.daily.Some? && !IsClockTime(change.daily.value) then Some(BadDailyTime)
            else None
  {
    if change.daily.Some? {
      DailyTimeAcceptedIff(change.daily.value);
    }
    hide ParseDailyTime, DailyTime;
  }

  lemma MergeErrorIs(current: Settings, change: Change)
    requires Exclusive(current) && CheckChange(change).None? && Merge(current, change).Failure?
    ensures Merge(current, change).error == if change.kind == Some("interval")
                                            then IntervalMissing
                                            else DailyTimeMissing
  {
    MergeRefusesIff(current, change);
    hide ParseDailyTime, DailyTime;
  }

  /** Restoring or deleting an unregistered code raises, and so does restoring a task that is there. */
  lemma OtherErrorsAre(table: Table, code: string, now: int)
    ensures Restore(table, code, now) == Failure(UnknownCode) <==> code !in CODES
    ensures Restore(table, code, now) == Failure(AlreadyThere) <==> code in CODES && code in table
    ensures Delete(table, code) == Failure(UnknownCode) <==> code !in CODES
    ensures Delete(table, code).Failure? <==> code !in CODES
  {
    RestoreLaw(table, code, now);
  }

  /** What an accepted edit leaves of a task, field by field. */
  lemma UpdateIs(table: Table, code: string, change: Change, now: int)
    requires AllExclusive(table) && Update(table, code, change, now).Success?
    ensures var before, after := table[code], Update(table, code, change, now).value[code];
            && after.settings.kind == (if change.kind == Some("interval") then Interval
                                       else if change.kind == Some("daily") then Daily else before.settings.kind)
            && (after.settings.kind.Interval? ==>
                  after.settings.interval == if change.interval.Some?
                  then change.interval
                  else before.settings.interval)
            && (after.settings.kind.Daily? ==>
                  after.settings.daily == if change.daily.Some? then change.daily else before.settings.daily)
            && after.enabled == (if change.enabled.Some? then change.enabled.value else before.enabled)
            && (if change.kind.None? && change.interval.None? && change.daily.None? && change.enabled.None?
                then after.nextRun == before.nextRun
                else if change.enabled == Some(false) then after.nextRun == None
                  else after.nextRun.Some? && Exclusive(after.settings)
                       && NextAt(after.settings, now, after.nextRun.value))
            && after.lastStarted == before.lastStarted && after.lastFinished == before.lastFinished
            && after.lastStatus == before.lastStatus && after.lastError == before.lastError
  {
    MergeIs(table[code].settings, change);
    NextRunIs(Merge(table[code].settings, change).value, now);
    hide Merge, NextRun, NextAt, Exclusive;
  }

  /** The four tasks that can be restored, with their first runs; a task that is there is not touched. */
  lemma RestoreLaw(table: Table, code: string, now: int)
    ensures var r := Restore(table, code, now);
            && (r.Success? <==> code in CODES && code !in table)
            && (r.Success? ==>
                  && r.value.Keys == table.Keys + {code} && (forall other <- table :: r.value[other] == table[other])
                  && var t := r.value[code];
                  && t.enabled && t.lastStarted == None && t.lastFinished == None && t.lastStatus == None
                  && t.lastError == None && t.nextRun.Some? && Exclusive(t.settings)
                  && (code == "report_navigation_statistics" ==>
                        t.settings == Settings(Interval, Some(30), None) && t.nextRun.value == now + 30_000_000)
                  && (code == "notification_cleanup" ==>
                        t.settings == Settings(Interval, Some(6 * 60), None) && t.nextRun.value == now)
                  && (code == "report_navigation_schedule_prepare" ==>
                        t.settings.kind.Daily? && ParseDailyTime(t.settings.daily.value) == Some(15 * 60)
                        && NextAt(t.settings, now, t.nextRun.value))
                  && (code == "db_validation_field_mapping_refresh" ==>
                        t.settings.kind.Daily? && ParseDailyTime(t.settings.daily.value) == Some(0)
                        && NextAt(t.settings, now, t.nextRun.value)))
  {
    hide DailyTime, ParseDailyTime, NextRun, NextAt;
    DailyTimeRoundTrip(900);
    DailyTimeRoundTrip(0);
    TemplatesAreExclusive(code);
    if code in {PREPARE, MAPPING} {
      NextRunIs(Template(code).value, now);
    }
  }

  lemma DeleteLaw(table: Table, code: string)
    ensures var r := Delete(table, code);
            && (r.Success? <==> code in CODES)
            && (r.Success? ==>
                  && (r.value.1 <==> code in table) && r.value.0.Keys == table.Keys - {code}
                  && forall other <- table :: other != code ==> r.value.0[other] == table[other])
  {
  }

  /** The first write of a start sets the next run and nothing else. */
  lemma SetInitialLaw(table: Table, code: string, next: int)
    ensures var after := SetInitial(table, code, next);
            && after.Keys == table.Keys && (forall other <- table :: other != code ==> after[other] == table[other])
            && (code in table ==>
                  && after[code].nextRun == Some(next) && after[code].settings == table[code].settings
                  && after[code].enabled == table[code].enabled && after[code].lastStarted == table[code].lastStarted
                  && after[code].lastFinished == table[code].lastFinished
                  && after[code].lastStatus == table[code].lastStatus && after[code].lastError == table[code].lastError)
  {
  }

  /**
    An edit leaves a disabled task with a next run unless it says `enabled: false`, or changes nothing and
    there was none.
  */
  lemma DisabledKeepsNextRunIff(table: Table, code: string, change: Change, now: int)
    requires AllExclusive(table) && Update(table, code, change, now).Success?
    requires !Update(table, code, change, now).value[code].enabled
    ensures Update(table, code, change, now).value[code].nextRun.Some? <==>
            && change.enabled.None?
            && (change.kind.Some? || change.interval.Some? || change.daily.Some? || table[code].nextRun.Some?)
  {
    UpdateLaw(table, code, change, now);
  }

  /** A task disabled with no next run gets one when its interval is edited. */
  lemma DisabledTaskMayHaveNextRun() returns (table: Table, change: Change, after: Table)
    ensures AllExclusive(table) && STATISTICS in table && !table[STATISTICS].enabled && table[STATISTICS].nextRun.None?
    ensures Update(table, STATISTICS, change, 0) == Success(after)
    ensures STATISTICS in after && !after[STATISTICS].enabled && after[STATISTICS].nextRun.Some?
  {
    var task := Task(Settings(Interval, Some(30), None), false, None, None, None, None, None);
    table := map[STATISTICS := task];
    change := Change(None, Some(60), None, None);
    after := table[STATISTICS := task.(settings := Settings(Interval, Some(60), None), nextRun := Some(60 * MINUTE))];
  }

  /**
    After a run of an enabled task its next run is later than the finish: by its interval, or at the first
    instant that shows its clock time.
  */
  lemma EndedLaw(table: Table, code: string, now: int, error: Option<string>)
    requires AllExclusive(table) && code in table
    ensures var after := Ended(table, code, now, error);
            && AllExclusive(after) && after.Keys == table.Keys
            && (forall other <- table :: other != code ==> after[other] == table[other])
            && after[code].settings == table[code].settings && after[code].enabled == table[code].enabled
            && after[code].lastFinished == Some(now)
            && after[code].lastStatus == (if error.Some? then Some(Failed) else Some(Succeeded))
            && after[code].lastError == (if error.Some? then Some(ErrorText(code, error.value)) else None)
            && after[code].lastStarted == table[code].lastStarted
            && (table[code].enabled ==>
                  && after[code].nextRun.Some? && after[code].nextRun.value > now
                  && NextAt(table[code].settings, now, after[code].nextRun.value))
            && (!table[code].enabled ==> after[code].nextRun == table[code].nextRun)
  {
    var c := table[code].settings;
    NextRunIsLater(c, now);
    NextRunIs(c, now);
    hide NextRun, NextAt, Exclusive;
  }

  /** A run that begins shows as running, with no error yet, and moves nothing else. */
  lemma BegunLaw(table: Table, code: string, now: int)
    ensures var after := Begun(table, code, now);
            && after.Keys == table.Keys && (forall other <- table :: other != code ==> after[other] == table[other])
            && (code in table ==>
                  && after[code].lastStarted == Some(now) && after[code].lastStatus == Some(Running)
                  && after[code].lastError == None && after[code].lastFinished == table[code].lastFinished
                  && after[code].settings == table[code].settings && after[code].enabled == table[code].enabled
                  && after[code].nextRun == table[code].nextRun)
  {
  }

  // ----- the manager's own state

  /** The table, the manual queue and the running flag. */
  datatype State = State(table: Table, queue: seq<string>, running: Option<string>)

  /** `request_run_now` after its lookup, under the lock. */
  function Request(s: State, code: string): (State, bool) {
    if s.running == Some(code) || code in s.queue then (s, false) else (s.(queue := s.queue + [code]), true)
  }

  /** The first locked section of `_tick`. */
  function Take(s: State): (State, Option<string>) {
    if s.running.None? && s.queue != []
    then (s.(queue := s.queue[1..], running := Some(s.queue[0])), Some(s.queue[0]))
    else (s, None)
  }

  predicate Due(t: Task, now: int) {
    t.enabled && t.nextRun.Some? && t.nextRun.value <= now
  }

  /** `_execute_task` uninterrupted. */
  function Executed(table: Table, code: string, begin: int, end: int, outcome: Option<string>): (after: Table)
    requires AllExclusive(table)
    ensures AllExclusive(after) && after.Keys == table.Keys
    ensures forall c <- table :: after[c].settings == table[c].settings && after[c].enabled == table[c].enabled
  {
    if Template(code).None? then table else Ended(Begun(table, code, begin), code, end, outcome)
  }

  /** The codes of the tasks due at `now`, in the order listed. */
  function DueCodes(table: Table, codes: seq<string>, now: int): seq<string>
  {
    if codes == [] then []
    else
      var last := codes[|codes| - 1];
      var front := DueCodes(table, codes[..|codes| - 1], now);
      if last in table && Due(table[last], now) then front + [last] else front
  }

  lemma {:induction false} DueCodesAre(table: Table, codes: seq<string>, now: int, c: string)
    ensures c in DueCodes(table, codes, now) <==> c in codes && c in table && Due(table[c], now)
  {
    if codes != [] {
      DueCodesAre(table, codes[..|codes| - 1], now, c);
      assert codes == codes[..|codes| - 1] + [codes[|codes| - 1]];
    }
  }

  /** One run of a task: when it began and ended, and what the handler raised. */
  datatype Run = Run(code: string, begin: int, end: int, outcome: Option<string>)

  function Codes(runs: seq<Run>): (codes: seq<string>)
    ensures |codes| == |runs| && forall k :: 0 <= k < |runs| ==> codes[k] == runs[k].code
  {
    seq(|runs|, k requires 0 <= k < |runs| => runs[k].code)
  }

  /** Every run, counted from `first`, began, ended and came out as the script says. */
  predicate Scripted(runs: seq<Run>, first: nat, script: nat -> Run) {
    forall k :: 0 <= k < |runs| ==> runs[k] == script(first + k).(code := runs[k].code)
  }

  /** Runs one after the other. */
  function RunAll(table: Table, runs: seq<Run>): (after: Table)
    requires AllExclusive(table)
    ensures AllExclusive(after) && after.Keys == table.Keys
  {
    if runs == [] then table
    else
      var r := runs[|runs| - 1];
      Executed(RunAll(table, runs[..|runs| - 1]), r.code, r.begin, r.end, r.outcome)
  }

  lemma OneMoreDue(table: Table, codes: seq<string>, k: nat, now: int)
    requires k < |codes|
    ensures DueCodes(table, codes[..k + 1], now) ==
            DueCodes(table, codes[..k], now)
            + (if codes[k] in table && Due(table[codes[k]], now) then [codes[k]] else [])
  {
    assert codes[..k + 1][..k] == codes[..k];
  }

  lemma OneMoreRun(table: Table, runs: seq<Run>, r: Run)
    requires AllExclusive(table)
    ensures RunAll(table, runs + [r]) == Executed(RunAll(table, runs), r.code, r.begin, r.end, r.outcome)
  {
    hide Executed, AllExclusive;
    assert (runs + [r])[..|runs|] == runs;
  }

  lemma OneMoreScripted(runs: seq<Run>, first: nat, script: nat -> Run, code: string)
    requires Scripted(runs, first, script)
    ensures Scripted(runs + [script(first + |runs|).(code := code)], first, script)
    ensures Codes(runs + [script(first + |runs|).(code := code)]) == Codes(runs) + [code]
  {
  }

  lemma {:induction false} RunsAfterRuns(table: Table, a: seq<Run>, b: seq<Run>)
    requires AllExclusive(table)
    ensures RunAll(table, a + b) == RunAll(RunAll(table, a), b)
  {
    hide Executed, AllExclusive;
    if b == [] {
      assert a + b == a;
    } else {
      var n := |b| - 1;
      RunsAfterRuns(table, a, b[..n]);
      assert a + b == a + b[..n] + [b[n]] && b == b[..n] + [b[n]];
      OneMoreRun(table, a + b[..n], b[n]);
    }
  }

  lemma ExecutedLaw(table: Table, code: string, begin: int, end: int, outcome: Option<string>)
    requires AllExclusive(table) && code in table
    ensures var after := Executed(table, code, begin, end, outcome);
            && (forall c <- table :: c != code ==> after[c] == table[c])
            && (code !in CODES ==> after == table)
            && (code in CODES ==>
                  && after[code].lastStarted == Some(begin) && after[code].lastFinished == Some(end)
                  && after[code].lastStatus == (if outcome.Some? then Some(Failed) else Some(Succeeded)))
            && (code in CODES && table[code].enabled ==>
                  && after[code].nextRun.Some? && after[code].nextRun.value > end
                  && NextAt(table[code].settings, end, after[code].nextRun.value))
  {
    if Template(code).Some? {
      BegunLaw(table, code, begin);
      EndedLaw(Begun(table, code, begin), code, end, outcome);
    }
  }

  lemma {:induction false} RunAllKeepsEnabled(table: Table, runs: seq<Run>, c: string)
    requires AllExclusive(table) && c in table
    ensures RunAll(table, runs)[c].enabled == table[c].enabled
  {
    hide Executed;
    if runs != [] {
      RunAllKeepsEnabled(table, runs[..|runs| - 1], c);
    }
  }

  lemma RunReschedules(table: Table, r: Run, now: int, c: string)
    requires AllExclusive(table) && r.code in table && c in table && table[c].enabled && Template(c).Some?
    requires r.end >= now
    ensures var after := Executed(table, r.code, r.begin, r.end, r.outcome);
            if c == r.code then !Due(after[c], now) else after[c] == table[c]
  {
    ExecutedLaw(table, r.code, r.begin, r.end, r.outcome);
    hide Executed, AllExclusive, NextAt;
  }

  /** Runs that end at `now` or later leave no enabled registered task they touched due at `now`. */
  lemma {:induction false} RunAllReschedules(table: Table, runs: seq<Run>, now: int, c: string)
    requires AllExclusive(table) && c in table && table[c].enabled && Template(c).Some?
    requires forall r <- runs :: r.end >= now && r.code in table
    ensures c in Codes(runs) || !Due(table[c], now) ==> !Due(RunAll(table, runs)[c], now)
    decreases |runs|
  {
    hide Executed, Template, AllExclusive, Due;
    if runs == [] {
      assert Codes(runs) == [];
    } else {
      var n := |runs| - 1;
      var front, r := runs[..n], runs[n];
      assert runs == front + [r];
      assert Codes(runs) == Codes(front) + [r.code];
      RunAllReschedules(table, front, now, c);
      RunAllKeepsEnabled(table, front, c);
      RunReschedules(RunAll(table, front), r, now, c);
    }
  }

  /** After a tick's runs no registered task is due at the time the tick read. */
  lemma NothingDueAfterTick(table: Table, codes: seq<string>, runs: seq<Run>, now: int, c: string)
    requires AllExclusive(table) && (forall k :: k in codes <==> k in table)
    requires Codes(runs) == DueCodes(table, codes, now) && forall r <- runs :: r.end >= now
    requires c in table && Template(c).Some?
    ensures !Due(RunAll(table, runs)[c], now)
  {
    hide Executed, RunAll, Template, DueCodes, AllExclusive, Codes;
    RunAllKeepsEnabled(table, runs, c);
    if table[c].enabled {
      forall r | r in runs ensures r.code in table {
        assert r.code in Codes(runs) by {
          var k :| 0 <= k < |runs| && runs[k] == r;
          assert Codes(runs)[k] == r.code;
        }
        DueCodesAre(table, codes, now, r.code);
      }
      DueCodesAre(table, codes, now, c);
      RunAllReschedules(table, runs, now, c);
    }
  }

  /** The manager's fields; the application database's table is one of them. */
  class ScheduledTaskManager {
    var table: Table
    var manualQueue: seq<string>
    var runningTaskCode: Option<string>

    constructor (table: Table)
      ensures Now() == State(table, [], None)
    {
      this.table, manualQueue, runningTaskCode := table, [], None;
    }

    function Now(): State
      reads this
    {
      State(table, manualQueue, runningTaskCode)
    }

    method RequestRunNow(code: string) returns (accepted: bool)
      modifies this
      ensures accepted <==> && Template(code).Some? && code in old(table)
                            && old(runningTaskCode) != Some(code) && code !in old(manualQueue)
      ensures manualQueue == if accepted then old(manualQueue) + [code] else old(manualQueue)
      ensures table == old(table) && runningTaskCode == old(runningTaskCode)
      ensures Template(code).Some? && code in old(table) ==> (Now(), accepted) == Request(old(Now()), code)
    {
      if Template(code).None? || code !in table {
        return false;
      }
      if runningTaskCode == Some(code) || code in manualQueue {
        return false;
      }
      manualQueue := manualQueue + [code];
      return true;
    }

    method UpdateTask(code: string, change: Change, now: int) returns (error: Option<SettingsError>)
      modifies this`table
      ensures var r := Update(old(table), code, change, now);
              if r.Failure? then error == Some(r.error) && table == old(table) else error == None && table == r.value
    {
      if Template(code).None? {
        return Some(UnknownCode);
      }
      if CheckChange(change).Some? {
        return CheckChange(change);
      }
      if code !in table {
        return Some(NoSuchTask);
      }
      var merged := Merge(table[code].settings, change);
      if merged.Failure? {
        return Some(merged.error);
      }
      var task := table[code].(settings := merged.value);
      if change.enabled.Some? {
        task := task.(enabled := change.enabled.value);
      }
      if change.enabled.Some? || change.kind.Some? || change.interval.Some? || change.daily.Some? {
        if change.enabled == Some(false) {
          task := task.(nextRun := None);
        } else {
          task := task.(nextRun := Some(NextRun(merged.value, now)));
        }
      }
      table := table[code := task];
      return None;
    }

    method RestoreTemplate(code: string, now: int) returns (error: Option<SettingsError>)
      modifies this`table
      ensures var r := Restore(old(table), code, now);
              if r.Failure? then error == Some(r.error) && table == old(table) else error == None && table == r.value
    {
      if Template(code).None? {
        return Some(UnknownCode);
      }
      if code in table {
        return Some(AlreadyThere);
      }
      TemplatesAreExclusive(code);
      var c := Template(code).value;
      table := table[code := Task(c, true, Some(InitialRun(code, c, now)), None, None, None, None)];
      return None;
    }

    method DeleteTask(code: string) returns (error: Option<SettingsError>, removed: bool)
      modifies this`table
      ensures var r := Delete(old(table), code);
              if r.Failure? then error == Some(r.error) && !removed && table == old(table)
              else error == None && (table, removed) == r.value
    {
      if Template(code).None? {
        return Some(UnknownCode), false;
      }
      removed := code in table;
      table := table - {code};
      return None, removed;
    }

    /** `_execute_task`, with the clock's readings and the handler's outcome given. */
    method ExecuteTask(code: string, begin: int, end: int, outcome: Option<string>)
      requires AllExclusive(table)
      modifies this`table
      ensures table == Executed(old(table), code, begin, end, outcome)
    {
      if Template(code).None? {
        return;
      }
      if code in table {
        table := table[code := table[code].(lastStarted := Some(begin), lastStatus := Some(Running),
        lastError := None)];
      }
      if code in table {
        var t := table[code];
        if outcome.Some? {
          t := t.(lastFinished := Some(end), lastStatus := Some(Failed),
          lastError := Some(ErrorText(code, outcome.value)));
        } else {
          t := t.(lastFinished := Some(end), lastStatus := Some(Succeeded), lastError := None);
        }
        if t.enabled {
          t := t.(nextRun := Some(NextRun(t.settings, end)));
        }
        table := table[code := t];
      }
    }

    /** A run under the running flag. */
    method RunFlagged(run: Run)
      requires AllExclusive(table) && runningTaskCode.None?
      modifies this`table, this`runningTaskCode
      ensures table == Executed(old(table), run.code, run.begin, run.end, run.outcome) && runningTaskCode.None?
    {
      runningTaskCode := Some(run.code);
      ExecuteTask(run.code, run.begin, run.end, run.outcome);
      runningTaskCode := None;
    }

    /**
      `_tick` with no other thread between its sections. `codes` is the order in which the tasks are listed, at the
      time `now`; the script says when the runs begin and end, and what their handlers raise.
    */
    method Tick(codes: seq<string>, now: int, script: nat -> Run) returns (runs: seq<Run>)
      requires AllExclusive(table) && forall k :: 0 <= k < |codes| ==> codes[k] in table
      modifies this
      ensures table == RunAll(old(table), runs) && runningTaskCode == old(runningTaskCode)
      ensures manualQueue == Take(old(Now())).0.queue && Scripted(runs, 0, script)
      ensures old(runningTaskCode).Some? ==> runs == []
      ensures old(runningTaskCode).None? && old(manualQueue) == [] ==> Codes(runs) == DueCodes(old(table), codes, now)
      ensures old(runningTaskCode).None? && old(manualQueue) == [] ==>
                forall c <- codes ::
                  c in Codes(runs) <==> old(table)[c].enabled && old(table)[c].nextRun.Some?
                                        && old(table)[c].nextRun.value <= now
      ensures old(runningTaskCode).None? && old(manualQueue) != [] ==>
                && runs != [] && runs[0].code == old(manualQueue)[0]
                && Codes(runs[1..]) == DueCodes(RunAll(old(table), runs[..1]), codes, now)
    {
      assert RunAll(table, []) == table;
      hide Executed, DueCodes, RunAll, AllExclusive, Codes;
      runs := [];
      if runningTaskCode.None? && manualQueue != [] {
        var run := script(0).(code := manualQueue[0]);
        manualQueue := manualQueue[1..];
        OneMoreRun(old(table), [], run);
        RunFlagged(run);
        runs := [run];
        assert [] + [run] == runs;
      }
      var due := RunDue(codes, now, |runs|, script);
      RunsAfterRuns(old(table), runs, due);
      assert |runs| == 1 ==> (runs + due)[1..] == due && (runs + due)[..1] == runs;
      assert |runs| == 0 ==> runs + due == due;
      runs := runs + due;
      if Codes(runs) == DueCodes(old(table), codes, now) {
        forall c | c in codes
          ensures c in Codes(runs) <==> Due(old(table)[c], now)
        {
          DueCodesAre(old(table), codes, now, c);
        }
      }
    }

    /** One task of the walk. */
    method Visit(task: Task, now: int, run: Run) returns (ran: bool)
      requires AllExclusive(table)
      modifies this`table, this`runningTaskCode
      ensures ran <==> Due(task, now) && old(runningTaskCode).None?
      ensures table == (if ran then Executed(old(table), run.code, run.begin, run.end, run.outcome) else old(table))
      ensures runningTaskCode == old(runningTaskCode)
    {
      if !Due(task, now) || runningTaskCode.Some? {
        return false;
      }
      RunFlagged(run);
      return true;
    }

    /** The walk over the listed tasks. */
    method RunDue(codes: seq<string>, now: int, first: nat, script: nat -> Run) returns (runs: seq<Run>)
      requires AllExclusive(table) && forall k :: 0 <= k < |codes| ==> codes[k] in table
      modifies this`table, this`runningTaskCode
      ensures AllExclusive(old(table)) && table == RunAll(old(table), runs) && runningTaskCode == old(runningTaskCode)
      ensures Codes(runs) == if old(runningTaskCode).Some? then [] else DueCodes(old(table), codes, now)
      ensures Scripted(runs, first, script)
    {
      assert codes[..0] == [];
      assert DueCodes(table, codes[..0], now) == [] && RunAll(table, []) == table && Scripted([], first, script)
             && Codes([]) == [];
      hide *;
      runs := [];
      var listed := table;
      var k := 0;
      ghost var free := runningTaskCode.None?;
      while k < |codes|
        invariant 0 <= k <= |codes| && AllExclusive(table) && table == RunAll(listed, runs)
        invariant runningTaskCode == old(runningTaskCode) && Scripted(runs, first, script)
        invariant Codes(runs) == if free then DueCodes(listed, codes[..k], now) else []
      {
        OneMoreDue(listed, codes, k, now);
        var run := script(first + |runs|).(code := codes[k]);
        OneMoreRun(listed, runs, run);
        var ran := Visit(listed[codes[k]], now, run);
        if ran {
          OneMoreScripted(runs, first, script, codes[k]);
          runs := runs + [run];
        }
        k := k + 1;
      }
      assert codes[..k] == codes;
    }
  }
}

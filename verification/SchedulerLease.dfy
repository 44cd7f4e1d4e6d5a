/**
  The collection lock: one row, taken under a lease of thirty minutes by an owner drawn
  afresh for every run, and given back only by its owner. Each SQL statement is one step;
  any number of processes interleave between steps.
 */
module SchedulerLease {
  import opened Wrappers

  /** Seconds. */
  const LEASE := 1800

  datatype Row = Row(enabled: bool, owner: Option<nat>, until: Option<int>, lastStarted: Option<int>,
                     lastFinished: Option<int>, lastStatus: string, lastError: Option<string>, updatedAt: int)

  predicate Free(row: Row, now: int) {
    row.until.None? || row.until.value < now
  }

  /** `try_acquire_scheduler_lock`: the row afterwards, and whether one row was updated. */
  function Acquire(row: Option<Row>, owner: nat, now: int, lease: int): (Option<Row>, bool) {
    if row.Some? && row.value.enabled && Free(row.value, now)
    then (Some(row.value.(owner := Some(owner), until := Some(now + lease), lastStarted := Some(now),
          updatedAt := now)),
          true)
    else (row, false)
  }

  /** `release_scheduler_lock` */
  function Release(row: Option<Row>, owner: nat, at: int, status: string, error: string): Option<Row> {
    if row.Some? && row.value.owner == Some(owner)
    then Some(row.value.(owner := None, until := None, lastFinished := Some(at), lastStatus := status,
              lastError := if error == "" then None else Some(error), updatedAt := at))
    else row
  }

  /** The lock row, as the store updates it. */
  class SchedulerState {
    var row: Option<Row>

    constructor (row: Option<Row>)
      ensures this.row == row
    {
      this.row := row;
    }

    method TryAcquireSchedulerLock(owner: nat, now: int, lease: int) returns (acquired: bool)
      modifies this
      ensures (row, acquired) == Acquire(old(row), owner, now, lease)
    {
      if row.Some? && row.value.enabled && (row.value.until.None? || row.value.until.value < now) {
        row := Some(row.value.(owner := Some(owner), until := Some(now + lease), lastStarted := Some(now),
                    updatedAt := now));
        return true;
      }
      return false;
    }

    method ReleaseSchedulerLock(owner: nat, at: int, status: string, error: string)
      modifies this
      ensures row == Release(old(row), owner, at, status, error)
    {
      if row.Some? && row.value.owner == Some(owner) {
        row := Some(row.value.(owner := None, until := None, lastFinished := Some(at), lastStatus := status,
                    lastError := if error == "" then None else Some(error), updatedAt := at));
      }
    }
  }

  /** Another attempt at the time, or later in the lease, fails; past it, or after a release, one succeeds. */
  lemma TakenUntil(row: Option<Row>, owner: nat, now: int, lease: int, other: nat, later: int, length: int)
    requires Acquire(row, owner, now, lease).1
    ensures var held := Acquire(row, owner, now, lease).0;
            && held.Some? && held.value.owner == Some(owner) && held.value.until == Some(now + lease)
            && held.value.lastStarted == Some(now) && held.value.updatedAt == now
            && SameResult(held, row) && held.value.enabled
            && (Acquire(held, other, later, length).1 <==> later > now + lease)
            && (later <= now + lease ==> Acquire(held, other, later, length).0 == held)
  {
  }

  predicate SameResult(a: Option<Row>, b: Option<Row>) {
    && a.Some? && b.Some? && a.value.lastFinished == b.value.lastFinished && a.value.lastStatus == b.value.lastStatus
    && a.value.lastError == b.value.lastError
  }

  /** The holder's release leaves its result and a free row; anyone else's release leaves everything. */
  lemma ReleasedRow(row: Option<Row>, owner: nat, at: int, status: string, error: string, next: nat, now: int,
                    lease: int)
    ensures var after := Release(row, owner, at, status, error);
            if row.Some? && row.value.owner == Some(owner) then
              && after.Some? && after.value.owner == None && after.value.until == None
              && after.value.enabled == row.value.enabled && after.value.lastStarted == row.value.lastStarted
              && after.value.lastFinished == Some(at) && after.value.lastStatus == status && after.value.updatedAt == at
              && (after.value.lastError.Some? <==> error != "")
              && (after.value.lastError.Some? ==> after.value.lastError.value == error)
              && (Acquire(after, next, now, lease).1 <==> row.value.enabled)
            else after == row
  {
  }

  // ----- the system

  /** One `collect_once`: the time it read when it began, and whether it is between acquire and release. */
  datatype Run = Run(now: int, holding: bool)

  datatype System = System(clock: int, row: Option<Row>, runs: map<nat, Run>, used: set<nat>)

  datatype Event =
    | Tick(seconds: nat)
    | Begin(owner: nat)
    | TryAcquire(owner: nat)
    | Finish(owner: nat, at: int, status: string, error: string)
    | Crash(owner: nat)
    | Enable(enabled: bool)

  predicate Possible(s: System, e: Event) {
    match e
    case Tick(_) => true
    case Begin(o) => o !in s.used
    case TryAcquire(o) => o in s.runs && !s.runs[o].holding
    case Finish(o, _, _, _) => o in s.runs && s.runs[o].holding
    case Crash(o) => o in s.runs
    case Enable(_) => true
  }

  function Step(s: System, e: Event): System
    requires Possible(s, e)
  {
    match e
    case Tick(n) => s.(clock := s.clock + n)
    case Begin(o) => s.(runs := s.runs[o := Run(s.clock, false)], used := s.used + {o})
    case TryAcquire(o) =>
      var (row, acquired) := Acquire(s.row, o, s.runs[o].now, LEASE);
      s.(row := row, runs := if acquired then s.runs[o := s.runs[o].(holding := true)] else s.runs - {o})
    case Finish(o, at, status, error) => s.(row := Release(s.row, o, at, status, error), runs := s.runs - {o})
    case Crash(o) => s.(runs := s.runs - {o})
    case Enable(b) => s.(row := if s.row.Some? then Some(s.row.value.(enabled := b)) else None)
  }

  /** No run yet; the row may still carry an owner that an earlier crash left behind. */
  predicate Initial(s: System) {
    && s.runs == map[]
    && (s.row.Some? && s.row.value.owner.Some? ==> s.row.value.owner.value in s.used)
    && (s.row.Some? && s.row.value.until.Some? ==> s.row.value.until.value <= s.clock + LEASE)
  }

  /** An execution: each state leads to the next by a possible event. */
  ghost predicate Execution(states: seq<System>, events: seq<Event>) {
    && |states| == |events| + 1
    && forall i, j :: 0 <= i && j == i + 1 && j < |states|
                      ==> Possible(states[i], events[i]) && states[j] == Step(states[i], events[i])
  }

  lemma Edge(states: seq<System>, events: seq<Event>, i: nat)
    requires Execution(states, events) && i < |events|
    ensures Possible(states[i], events[i]) && states[i + 1] == Step(states[i], events[i])
  {
    var j := i + 1;
    assert states[j] == states[i + 1];
  }

  predicate Known(s: System) {
    && (forall o :: o in s.runs ==> o in s.used && s.runs[o].now <= s.clock)
    && (s.row.Some? && s.row.value.owner.Some? ==> s.row.value.owner.value in s.used)
    && (s.row.Some? && s.row.value.until.Some? ==> s.row.value.until.value <= s.clock + LEASE)
    && (forall o :: o in s.runs && !s.runs[o].holding && s.row.Some? ==> s.row.value.owner != Some(o))
  }

  lemma {:induction false} AlwaysKnown(states: seq<System>, events: seq<Event>, i: nat)
    requires Execution(states, events) && Initial(states[0]) && i < |states|
    ensures Known(states[i])
  {
    if i > 0 {
      var j := i - 1;
      AlwaysKnown(states, events, j);
      Edge(states, events, j);
    }
  }

  // ----- mutual exclusion

  /** Every run still between acquire and release is within thirty minutes of its start. */
  predicate OnTime(s: System) {
    forall o :: o in s.runs && s.runs[o].holding ==> s.clock <= s.runs[o].now + 30 * 60
  }

  /** Whoever holds the lock is the owner in the row, with its own lease. */
  predicate HoldersOwnRow(s: System) {
    forall o :: o in s.runs && s.runs[o].holding ==> OwnsRow(s, o)
  }

  predicate OwnsRow(s: System, o: nat)
    requires o in s.runs
  {
    s.row.Some? && s.row.value.owner == Some(o) && s.row.value.until == Some(s.runs[o].now + LEASE)
  }

  predicate AtMostOneHolder(s: System) {
    forall o, p :: o in s.runs && p in s.runs && s.runs[o].holding && s.runs[p].holding ==> o == p
  }

  lemma StepKeepsHolders(s: System, e: Event)
    requires Known(s) && HoldersOwnRow(s) && OnTime(s) && Possible(s, e)
    ensures HoldersOwnRow(Step(s, e))
  {
    var t := Step(s, e);
    forall o | o in t.runs && t.runs[o].holding
      ensures OwnsRow(t, o)
    {
      if !e.TryAcquire? || o != e.owner {
        assert OwnsRow(s, o);
      }
    }
  }

  lemma {:induction false} HoldersOwnRowAlways(states: seq<System>, events: seq<Event>, i: nat)
    requires Execution(states, events) && Initial(states[0]) && i < |states|
    requires forall k :: 0 <= k < i ==> OnTime(states[k])
    ensures HoldersOwnRow(states[i])
  {
    if i > 0 {
      var j := i - 1;
      HoldersOwnRowAlways(states, events, j);
      AlwaysKnown(states, events, j);
      Edge(states, events, j);
      StepKeepsHolders(states[j], events[j]);
    }
  }

  /** If every run ends within its lease, two collections are never in progress together. */
  lemma MutualExclusion(states: seq<System>, events: seq<Event>, i: nat)
    requires Execution(states, events) && Initial(states[0]) && i < |states|
    requires forall k :: 0 <= k < i ==> OnTime(states[k])
    ensures AtMostOneHolder(states[i])
  {
    HoldersOwnRowAlways(states, events, i);
    var s := states[i];
    forall o, p | o in s.runs && p in s.runs && s.runs[o].holding && s.runs[p].holding
      ensures o == p
    {
      assert OwnsRow(s, o) && OwnsRow(s, p);
    }
  }

  /** The hypothesis is needed: a run that outlives its lease can meet a second one. */
  lemma OverrunAdmitsSecondHolder() returns (states: seq<System>, events: seq<Event>)
    ensures Execution(states, events) && Initial(states[0])
    ensures !AtMostOneHolder(states[|states| - 1])
  {
    var s0 := System(0, Some(Row(true, None, None, None, None, "", None, 0)), map[], {});
    events := [Begin(1), TryAcquire(1), Tick(30 * 60 + 1), Begin(2), TryAcquire(2)];
    var s1 := Step(s0, Begin(1));
    var s2 := Step(s1, TryAcquire(1));
    var s3 := Step(s2, Tick(30 * 60 + 1));
    var s4 := Step(s3, Begin(2));
    var s5 := Step(s4, TryAcquire(2));
    states := [s0, s1, s2, s3, s4, s5];
    assert s5.runs[1].holding && s5.runs[2].holding;
  }

  // ----- whose lock it is, with no assumption on timing

  /** The row leaves an owner only by that owner's own release, or by an acquire that read a time past the lease. */
  lemma OwnerChange(s: System, e: Event, o: nat)
    requires Known(s) && Possible(s, e)
    requires s.row.Some? && s.row.value.owner == Some(o)
    requires Step(s, e).row.value.owner != Some(o)
    ensures Step(s, e).row.Some?
    ensures (e.Finish? && e.owner == o)
            || (e.TryAcquire? && e.owner != o && s.row.value.enabled && Free(s.row.value, s.runs[e.owner].now)
                && Step(s, e).row.value.owner == Some(e.owner))
  {
  }

  /** A run past its attempt to acquire whose name is not in the row. */
  predicate Lost(s: System, o: nat) {
    && o in s.used
    && (o in s.runs ==> s.runs[o].holding)
    && (s.row.Some? ==> s.row.value.owner != Some(o))
  }

  /** Once another run has taken its lock over, a late owner never frees it again, at any later point. */
  lemma {:induction false} LateReleaseChangesNothing(states: seq<System>, events: seq<Event>, i: nat, j: nat, o: nat,
                                                     at: int, status: string, error: string)
    requires Execution(states, events) && i <= j < |events|
    requires Lost(states[i], o) && events[j] == Finish(o, at, status, error)
    ensures states[j + 1].row == states[j].row
  {
    Edge(states, events, j);
    LostUntil(states, events, i, j, o);
  }

  lemma {:induction false} LostUntil(states: seq<System>, events: seq<Event>, i: nat, j: nat, o: nat)
    requires Execution(states, events) && i <= j < |states| && Lost(states[i], o)
    ensures Lost(states[j], o)
    decreases j
  {
    if i < j {
      var k := j - 1;
      LostUntil(states, events, i, k, o);
      Edge(states, events, k);
    }
  }

  // ----- recovery after a crash

  /** An attempt succeeds exactly when the scheduler is enabled and no lease reaches the time it read. */
  lemma AttemptSucceedsIff(s: System, o: nat)
    requires Known(s) && Possible(s, TryAcquire(o))
    ensures (o in Step(s, TryAcquire(o)).runs && Step(s, TryAcquire(o)).runs[o].holding)
       <==> s.row.Some? && s.row.value.enabled && Free(s.row.value, s.runs[o].now)
  {
  }

  /** The row still names the crashed owner, under the lease it died with. */
  predicate LeftBehind(s: System, dead: nat, until: int) {
    && s.row.Some? && s.row.value.owner == Some(dead) && s.row.value.until == Some(until)
    && dead in s.used && dead !in s.runs
  }

  /** Until an attempt reads a time past the lease, nothing moves the row off a crashed owner. */
  lemma {:induction false} StaysLeftBehind(states: seq<System>, events: seq<Event>, i: nat, j: nat, dead: nat,
                                           until: int)
    requires Execution(states, events) && i <= j < |states| && LeftBehind(states[i], dead, until)
    requires forall k, o :: i <= k < j && events[k] == TryAcquire(o) && o in states[k].runs
                            ==> states[k].runs[o].now <= until
    ensures LeftBehind(states[j], dead, until)
    decreases j
  {
    if i < j {
      StaysLeftBehind(states, events, i, j - 1, dead, until);
      Edge(states, events, j - 1);
    }
  }

  /**
    After the holder crashed at i, every attempt that read a time up to the end of its lease
    fails, and the first one past it succeeds, provided the scheduler is enabled then.
   */
  lemma CrashIsOutlived(states: seq<System>, events: seq<Event>, i: nat, j: nat, dead: nat, until: int, o: nat)
    requires Execution(states, events) && Initial(states[0]) && i < j < |events|
    requires events[i] == Crash(dead) && events[j] == TryAcquire(o) && o in states[j].runs
    requires states[i].row.Some? && states[i].row.value.owner == Some(dead) && states[i].row.value.until == Some(until)
    requires forall k, p :: i < k < j && events[k] == TryAcquire(p) && p in states[k].runs
                            ==> states[k].runs[p].now <= until
    ensures states[j].row.Some?
    ensures (o in states[j + 1].runs && states[j + 1].runs[o].holding)
       <==> states[j].row.value.enabled && states[j].runs[o].now > until
  {
    AlwaysKnown(states, events, i);
    AlwaysKnown(states, events, j);
    Edge(states, events, i);
    Edge(states, events, j);
    StaysLeftBehind(states, events, i + 1, j, dead, until);
    AttemptSucceedsIff(states[j], o);
  }

  // ----- after a release

  predicate Unowned(s: System) { s.row.Some? ==> s.row.value.owner == None && s.row.value.until == None }

  /** A row without an owner keeps none until an attempt succeeds. */
  lemma {:induction false} StaysUnowned(states: seq<System>, events: seq<Event>, i: nat, j: nat)
    requires Execution(states, events) && i <= j < |states| && Unowned(states[i])
    requires forall k :: i <= k < j && events[k].TryAcquire? ==> states[k + 1].row == states[k].row
    ensures Unowned(states[j])
    decreases j
  {
    if i < j {
      StaysUnowned(states, events, i, j - 1);
      Edge(states, events, j - 1);
    }
  }

  /** After the owner's release at i the first attempt to find the scheduler enabled succeeds, whatever time it read. */
  lemma ReleaseFrees(states: seq<System>, events: seq<Event>, i: nat, j: nat, o: nat)
    requires Execution(states, events) && Initial(states[0]) && i < j < |events|
    requires events[i].Finish? && states[i].row.Some? && states[i].row.value.owner == Some(events[i].owner)
    requires events[j] == TryAcquire(o) && o in states[j].runs
    requires forall k :: i < k < j && events[k].TryAcquire? ==> states[k + 1].row == states[k].row
    ensures (o in states[j + 1].runs && states[j + 1].runs[o].holding)
       <==> states[j].row.Some? && states[j].row.value.enabled
  {
    AlwaysKnown(states, events, j);
    Edge(states, events, i);
    Edge(states, events, j);
    StaysUnowned(states, events, i + 1, j);
    AttemptSucceedsIff(states[j], o);
  }
}

/**
  Executions of the scheduled-task manager in which what `TaskOverlaps` describes comes about, written
  out event by event: a due task that comes to run while it waits in the manual queue, and handlers that
  run at the same time, after a stop whose join gave up or by two starts at once. Each is a family, over
  any table or from any state that meets its conditions, and begins where a manager begins.
*/
module TaskWitnesses {
  import opened Wrappers
  import opened TaskScheduler
  import opened TaskThreads
  import opened TaskOverlaps

  /** The systems that events lead to from s. */
  ghost function After(s: System, events: seq<Event>): (last: System)
    requires Invariant(s)
    ensures Invariant(last)
    decreases |events|
  {
    if events == [] then s
    else
      StepKeepsInvariant(s, events[0]);
      After(Step(s, events[0]), events[1..])
  }

  /** What events lead to is the end of an execution. */
  lemma {:induction false} AfterIsExecution(s: System, events: seq<Event>) returns (run: seq<System>)
    requires Invariant(s)
    ensures Execution(run, events) && run[0] == s && run[|events|] == After(s, events)
    decreases |events|
  {
    hide Step, FlagHolds;
    if events == [] {
      run := [s];
    } else {
      StepKeepsInvariant(s, events[0]);
      var rest := AfterIsExecution(Step(s, events[0]), events[1..]);
      run := [s] + rest;
      forall k, n | 0 <= k < |events| && n == k + 1
        ensures run[n] == Step(run[k], events[k])
      {
        if k > 0 {
          assert rest[k] == Step(rest[k - 1], events[1..][k - 1]);
        }
      }
    }
  }

  lemma {:induction false} AfterBoth(s: System, first: seq<Event>, second: seq<Event>)
    requires Invariant(s)
    ensures After(s, first + second) == After(After(s, first), second)
    decreases |first|
  {
    hide Step, FlagHolds;
    if first == [] {
      assert first + second == second;
    } else {
      StepKeepsInvariant(s, first[0]);
      assert (first + second)[1..] == first[1..] + second;
      AfterBoth(Step(s, first[0]), first[1..], second);
    }
  }

  lemma AfterOne(s: System, e: Event)
    requires Invariant(s)
    ensures After(s, [e]) == Step(s, e)
  {
    hide Step, Invariant;
    StepKeepsInvariant(s, e);
    assert [e][1..] == [];
  }

  /** One more event. */
  lemma Next(s: System, events: seq<Event>, e: Event, after: System) returns (longer: seq<Event>)
    requires Invariant(s) && Invariant(After(s, events)) && Step(After(s, events), e) == after
    ensures longer == events + [e] && After(s, longer) == after && Invariant(after)
  {
    hide Step, FlagHolds;
    longer := events + [e];
    AfterBoth(s, events, [e]);
    AfterOne(After(s, events), e);
  }

  lemma StartIsInvariant(table: Table, callers: nat)
    requires AllExclusive(table)
    ensures Invariant(Start(table, callers))
  {
  }

  /** A manager started by its only caller, its thread entering its first tick. */
  function Ticking(table: Table): System {
    System(State(table, [], None), [Caller, Idle], Some(1), false, [], [])
  }

  const STARTED := [Startup(0), Prepare(0), Raise(0), Launch(0), Wake(1)]

  /** The system before the k-th of the events in STARTED. */
  function Stage(table: Table, k: nat): System {
    var wanted := PREPARE in table && table[PREPARE].enabled;
    var s := Start(table, 1);
    if k == 0 then s
    else if k == 1 then s.(threads := [Called])
    else if k == 2 then s.(threads := [Starting(PREPARE, if wanted then Claimed else Finished)])
    else if k == 3 then s.(threads := [Starting(PREPARE, Finished)])
    else if k == 4 then s.(threads := [Caller, Waiting], loop := Some(1))
    else Ticking(table)
  }

  lemma StageStep(table: Table, k: nat)
    requires AllExclusive(table) && k < 5
    ensures AllExclusive(Stage(table, k).state.table)
    ensures Step(Stage(table, k), STARTED[k]) == Stage(table, k + 1)
  {
    hide AllExclusive;
  }

  lemma StartedTicks(table: Table)
    requires AllExclusive(table)
    ensures Invariant(Start(table, 1)) && After(Start(table, 1), STARTED) == Ticking(table)
  {
    hide Step, Invariant, AllExclusive;
    StartIsInvariant(table, 1);
    var events: seq<Event> := [];
    for k := 0 to 5
      invariant events == STARTED[..k] && Invariant(Stage(table, k))
                && After(Start(table, 1), events) == Stage(table, k)
    {
      StageStep(table, k);
      events := Next(Start(table, 1), events, STARTED[k], Stage(table, k + 1));
    }
    assert STARTED[..5] == STARTED;
  }

  // ----- a running task in the manual queue

  /** A request that arrives between a tick's first locked section and its claim of the same due task. */
  function RequestThenClaim(i: nat, code: string, task: Task, now: int): seq<Event> {
    [RequestRun(code), List(i, [(code, task)], now), Scan(i)]
  }

  lemma ClaimSteps(s: System, i: nat, code: string, now: int) returns (s1: System, s2: System, s3: System)
    requires Invariant(s) && i < |s.threads| && s.threads[i].Listing? && s.state.running.None?
    requires Template(code).Some? && code in s.state.table && Due(s.state.table[code], now)
    ensures s1 == Step(s, RequestRun(code)) && AllExclusive(s1.state.table)
    ensures s2 == Step(s1, List(i, [(code, s.state.table[code])], now)) && AllExclusive(s2.state.table)
    ensures s3 == Step(s2, Scan(i)) && s3.state.running == Some(code) && code in s3.state.queue
  {
    hide AllExclusive, FlagHolds, Template, Due;
    s1 := Step(s, RequestRun(code));
    s2 := Step(s1, List(i, [(code, s.state.table[code])], now));
    s3 := Step(s2, Scan(i));
  }

  lemma QueuedWhileListing(s: System, i: nat, code: string, now: int)
    requires Invariant(s) && i < |s.threads| && s.threads[i].Listing? && s.state.running.None?
    requires Template(code).Some? && code in s.state.table && Due(s.state.table[code], now)
    ensures var last := After(s, RequestThenClaim(i, code, s.state.table[code], now));
            last.state.running == Some(code) && code in last.state.queue
  {
    var s1, s2, s3 := ClaimSteps(s, i, code, now);
    hide Step, Invariant, Template, Due;
    var events := Next(s, [], RequestRun(code), s1);
    events := Next(s, events, List(i, [(code, s.state.table[code])], now), s2);
    events := Next(s, events, Scan(i), s3);
  }

  /** Whatever the table, any task due in it can come to run while it waits in the queue. */
  lemma RunningMayBeQueued(table: Table, code: string, now: int) returns (run: seq<System>, events: seq<Event>)
    requires AllExclusive(table) && Template(code).Some? && code in table && Due(table[code], now)
    ensures Execution(run, events) && run[0] == Start(table, 1)
    ensures run[|events|].state.running == Some(code) && RunningQueued(run[|events|])
  {
    StartedTicks(table);
    var ticking, listing := Ticking(table), Ticking(table).(threads := [Caller, Listing]);
    StartIsInvariant(table, 1);
    assert Step(ticking, TakeManual(1)) == listing;
    hide Step, Invariant, Template, Due;
    var first := Next(Start(table, 1), STARTED, TakeManual(1), listing);
    var second := RequestThenClaim(1, code, table[code], now);
    QueuedWhileListing(listing, 1, code, now);
    AfterBoth(Start(table, 1), first, second);
    events := first + second;
    run := AfterIsExecution(Start(table, 1), events);
  }

  // ----- two handlers at a time

  predicate PrepareEnabled(table: Table) { PREPARE in table && table[PREPARE].enabled }

  predicate OthersStay(s: System, after: System, c: nat) {
    |after.threads| == |s.threads| && forall k :: 0 <= k < |s.threads| && k != c ==> after.threads[k] == s.threads[k]
  }

  /** A thread of the application starts the manager, and reaches the handler of the preparation. */
  lemma StartReachesHandler(s: System, c: nat, now: int) returns (s1: System, s2: System, s3: System)
    requires Invariant(s) && c < |s.threads| && s.threads[c].Caller? && !LoopAlive(s) && PrepareEnabled(s.state.table)
    ensures s1 == Step(s, Startup(c)) && AllExclusive(s1.state.table)
    ensures s2 == Step(s1, Prepare(c)) && AllExclusive(s2.state.table)
    ensures s3 == Step(s2, Begin(c, now)) && At(s3, c, InHandler)
    ensures OthersStay(s, s3, c) && !LoopAlive(s3) && PrepareEnabled(s3.state.table)
  {
    hide AllExclusive, FlagHolds;
    s1 := Step(s, Startup(c));
    s2 := Step(s1, Prepare(c));
    s3 := Step(s2, Begin(c, now));
  }

  function StartOnce(c: nat, now: int): seq<Event> {
    [Startup(c), Prepare(c), Begin(c, now)]
  }

  lemma StartOnceReachesHandler(s: System, c: nat, now: int)
    requires Invariant(s) && c < |s.threads| && s.threads[c].Caller? && !LoopAlive(s) && PrepareEnabled(s.state.table)
    ensures var last := After(s, StartOnce(c, now));
            && At(last, c, InHandler) && OthersStay(s, last, c) && !LoopAlive(last)
            && PrepareEnabled(last.state.table)
  {
    var s1, s2, s3 := StartReachesHandler(s, c, now);
    hide Step, Invariant, PrepareEnabled, LoopAlive, OthersStay;
    var events := Next(s, [], Startup(c), s1);
    events := Next(s, events, Prepare(c), s2);
    events := Next(s, events, Begin(c, now), s3);
  }

  /** A stop that gives up leaves the manager without a scheduler thread, and every other thread as it was. */
  lemma StopGivesUp(s: System, c: nat) returns (s1: System, s2: System)
    requires Invariant(s) && c < |s.threads| && s.threads[c].Caller?
    ensures s1 == Step(s, StopBegin(c)) && AllExclusive(s1.state.table)
    ensures s2 == Step(s1, StopEnd(c)) && !LoopAlive(s2) && s2.threads == s.threads && s2.state == s.state
  {
    hide AllExclusive, FlagHolds;
    s1 := Step(s, StopBegin(c));
    s2 := Step(s1, StopEnd(c));
  }

  /** Whatever handler runs, a stop that gives up and a start after it put the preparation beside it. */
  lemma StopThatGaveUp(s: System, i: nat, c: nat, now: int)
    requires Invariant(s) && At(s, i, InHandler) && PrepareEnabled(s.state.table)
    requires c < |s.threads| && s.threads[c].Caller?
    ensures var last := After(s, [StopBegin(c), StopEnd(c)] + StartOnce(c, now));
            i != c && At(last, c, InHandler) && At(last, i, InHandler) && last.threads[i] == s.threads[i]
  {
    var s1, s2 := StopGivesUp(s, c);
    hide Step, Invariant, PrepareEnabled, After, LoopAlive;
    var events := Next(s, [], StopBegin(c), s1);
    events := Next(s, events, StopEnd(c), s2);
    assert events == [StopBegin(c), StopEnd(c)];
    StartOnceReachesHandler(s2, c, now);
    AfterBoth(s, events, StartOnce(c, now));
  }

  lemma RequestReachesHandler(table: Table, now: int) returns (s1: System, s2: System, s3: System)
    requires AllExclusive(table) && PrepareEnabled(table)
    ensures s1 == Step(Ticking(table), RequestRun(PREPARE)) && AllExclusive(s1.state.table)
    ensures s2 == Step(s1, TakeManual(1)) && AllExclusive(s2.state.table)
    ensures s3 == Step(s2, Begin(1, now)) && At(s3, 1, InHandler)
    ensures s3.threads[1].Executing? && PrepareEnabled(s3.state.table) && s3.threads[0].Caller?
  {
    hide AllExclusive;
    s1 := Step(Ticking(table), RequestRun(PREPARE));
    s2 := Step(s1, TakeManual(1));
    s3 := Step(s2, Begin(1, now));
  }

  /** The handler of a task that was requested from a manager just started. */
  const REQUESTED := STARTED + [RequestRun(PREPARE), TakeManual(1)]

  lemma RequestedRuns(table: Table, now: int)
    requires AllExclusive(table) && PrepareEnabled(table)
    ensures Invariant(Start(table, 1))
    ensures var s := After(Start(table, 1), REQUESTED + [Begin(1, now)]);
            && At(s, 1, InHandler) && s.threads[1].Executing? && PrepareEnabled(s.state.table) && s.threads[0].Caller?
  {
    StartedTicks(table);
    var s1, s2, s3 := RequestReachesHandler(table, now);
    hide Step, Invariant, PrepareEnabled, After;
    var events := Next(Start(table, 1), STARTED, RequestRun(PREPARE), s1);
    events := Next(Start(table, 1), events, TakeManual(1), s2);
    assert events == REQUESTED;
    events := Next(Start(table, 1), events, Begin(1, now), s3);
  }

  /** Such an overlap is reached from the start of a manager, whatever else is in its table. */
  lemma StopMayLeadToOverlap(table: Table, now: int) returns (run: seq<System>, events: seq<Event>)
    requires AllExclusive(table) && PrepareEnabled(table)
    ensures Execution(run, events) && run[0] == Start(table, 1)
    ensures At(run[|events|], 0, InHandler) && At(run[|events|], 1, InHandler) && run[|events|].threads[1].Executing?
  {
    RequestedRuns(table, now);
    hide Step, Invariant, PrepareEnabled, After;
    var first, second := REQUESTED + [Begin(1, now)], [StopBegin(0), StopEnd(0)] + StartOnce(0, now);
    StopThatGaveUp(After(Start(table, 1), first), 1, 0, now);
    AfterBoth(Start(table, 1), first, second);
    events := first + second;
    run := AfterIsExecution(Start(table, 1), events);
  }

  /** Two starts at once, from any state without a live scheduler thread, run the preparation twice at once. */
  lemma ConcurrentStartsOverlap(s: System, c: nat, d: nat, now: int)
    requires Invariant(s) && c < |s.threads| && d < |s.threads| && c != d && !LoopAlive(s)
    requires s.threads[c].Caller? && s.threads[d].Caller? && PrepareEnabled(s.state.table)
    ensures var last := After(s, StartOnce(c, now) + StartOnce(d, now)); At(last, c, InHandler)
                                                                         && At(last, d, InHandler)
  {
    hide Step, Invariant, PrepareEnabled, After;
    StartOnceReachesHandler(s, c, now);
    StartOnceReachesHandler(After(s, StartOnce(c, now)), d, now);
    AfterBoth(s, StartOnce(c, now), StartOnce(d, now));
  }
}

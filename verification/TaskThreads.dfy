/** The scheduled-task manager as its threads run it: every interleaving of their steps. */
module TaskThreads {
  import opened Wrappers
  import opened TaskSettings
  import opened TaskScheduler

  datatype Phase = Claimed | InHandler | Finished

  /**
    A scheduler thread is between two ticks, at its loop's test of the stop flag; before the first locked
    section of `_tick`; about to list the tasks; walking the list it read; executing a task it claimed; or
    gone. A thread of the application calls `start` (past its test, then in the run `start` makes by
    itself) and `stop` (its flag set, the scheduler thread being joined).
  */
  datatype Thread =
    | Waiting
    | Idle
    | Listing
    | Scanning(tasks: seq<(string, Task)>, now: int)
    | Executing(code: string, phase: Phase, resume: Thread)
    | Exited
    | Caller
    | Called
    | Starting(code: string, phase: Phase)
    | Stopping

  /** `loop` is the thread the manager holds as its scheduler thread, `stopping` its stop flag. */
  datatype System = System(state: State, threads: seq<Thread>, loop: Option<nat>, stopping: bool,
                           accepted: seq<string>, dequeued: seq<string>)

  datatype Event =
    | RequestRun(code: string)
    | Edit(code: string, change: Change, now: int)
    | RestoreTask(code: string, now: int)
    | Remove(code: string)
    | Initialise(code: string, next: int)
    | TakeManual(i: nat)
    | List(i: nat, listed: seq<(string, Task)>, now: int)
    | Scan(i: nat)
    | Begin(i: nat, now: int)
    | End(i: nat, now: int, error: Option<string>)
    | Raise(i: nat)
    | Release(i: nat)
    | Wake(i: nat)
    | Startup(i: nat)
    | Prepare(i: nat)
    | Launch(i: nat)
    | StopBegin(i: nat)
    | StopEnd(i: nat)

  predicate OfRun(e: Event) { e.Begin? || e.End? || e.Raise? || e.Release? }

  predicate OfLife(e: Event) {
    e.Wake? || e.Startup? || e.Prepare? || e.Launch? || e.StopBegin? || e.StopEnd?
  }

  predicate OnThread(e: Event) { e.TakeManual? || e.List? || e.Scan? || OfRun(e) || OfLife(e) }

  function WithTable(s: System, table: Table): System {
    s.(state := s.state.(table := table))
  }

  function Move(s: System, i: nat, t: Thread): System
    requires i < |s.threads|
  {
    s.(threads := s.threads[i := t])
  }

  /** A request, an edit or a restart's write. */
  function Outside(s: System, e: Event): System
    requires !OnThread(e)
  {
    match e
    case RequestRun(code) =>
      if Template(code).None? then s
      else
        var (state, ok) := Request(s.state, code);
        if ok then s.(state := state, accepted := s.accepted + [code]) else s
    case Edit(code, change, now) =>
      var r := Update(s.state.table, code, change, now);
      if r.Success? then WithTable(s, r.value) else s
    case RestoreTask(code, now) =>
      var r := Restore(s.state.table, code, now);
      if r.Success? then WithTable(s, r.value) else s
    case Remove(code) =>
      var r := Delete(s.state.table, code);
      if r.Success? then WithTable(s, r.value.0) else s
    case Initialise(code, next) => WithTable(s, SetInitial(s.state.table, code, next))
  }

  /** A thread's first locked section. */
  function TakeStep(s: System, i: nat): System
    requires i < |s.threads|
  {
    var (state, taken) := Take(s.state);
    if taken.Some?
    then Move(s.(state := state, dequeued := s.dequeued + [taken.value]), i, Executing(taken.value, Claimed, Listing))
    else Move(s, i, Listing)
  }

  /** The next task of the list a thread read: passed over, or claimed when nothing runs. */
  function ScanStep(s: System, i: nat): System
    requires i < |s.threads| && s.threads[i].Scanning?
  {
    var tasks, now := s.threads[i].tasks, s.threads[i].now;
    if tasks == [] then Move(s, i, Waiting)
    else
      var rest := Scanning(tasks[1..], now);
      if Due(tasks[0].1, now) && s.state.running.None?
      then Move(s.(state := s.state.(running := Some(tasks[0].0))), i, Executing(tasks[0].0, Claimed, rest))
      else Move(s, i, rest)
  }

  function WithPhase(t: Thread, phase: Phase): Thread
    requires t.Executing? || t.Starting?
  {
    t.(phase := phase)
  }

  predicate At(s: System, i: nat, phase: Phase) {
    i < |s.threads| && (s.threads[i].Executing? || s.threads[i].Starting?) && s.threads[i].phase == phase
  }

  /** `_execute_task` in its parts; what raises still releases the flag, and ends the tick. */
  function ExecuteStep(s: System, e: Event): System
    requires OfRun(e)
    requires AllExclusive(s.state.table)
  {
    match e
    case Begin(i, now) =>
      if !At(s, i, Claimed) then s
      else
        var t := s.threads[i];
        if Template(t.code).None? then Move(s, i, WithPhase(t, Finished))
        else Move(WithTable(s, Begun(s.state.table, t.code, now)), i, WithPhase(t, InHandler))
    case End(i, now, error) =>
      if !At(s, i, InHandler) then s
      else
        var t := s.threads[i];
        Move(WithTable(s, Ended(s.state.table, t.code, now, error)), i, WithPhase(t, Finished))
    case Raise(i) =>
      if !At(s, i, Claimed) && !At(s, i, InHandler) then s
      else
        var t := s.threads[i];
        Move(s, i, if t.Executing? then Executing(t.code, Finished, Waiting) else WithPhase(t, Finished))
    case Release(i) =>
      if i < |s.threads| && s.threads[i].Executing? && s.threads[i].phase == Finished
      then Move(s.(state := s.state.(running := None)), i, s.threads[i].resume)
      else s
  }

  /** `is_alive` of the thread the manager holds. */
  predicate LoopAlive(s: System) {
    s.loop.Some? && s.loop.value < |s.threads| && !s.threads[s.loop.value].Exited?
  }

  /** The loop's test of the stop flag; the parts of `start`; and of `stop`, whose join may give up. */
  function LifeStep(s: System, e: Event): System
    requires OfLife(e)
  {
    if e.i >= |s.threads| then s
    else match e
         case Wake(i) => if s.threads[i].Waiting? then Move(s, i, if s.stopping then Exited else Idle) else s
         case Startup(i) => if s.threads[i].Caller? && !LoopAlive(s) then Move(s, i, Called) else s
         case Prepare(i) =>
           var wanted := PREPARE in s.state.table && s.state.table[PREPARE].enabled;
           if s.threads[i].Called? then Move(s, i, Starting(PREPARE, if wanted then Claimed else Finished)) else s
         case Launch(i) =>
           if s.threads[i].Starting? && s.threads[i].phase == Finished
           then s.(threads := s.threads[i := Caller] + [Waiting], loop := Some(|s.threads|), stopping := false)
           else s
         case StopBegin(i) => if s.threads[i].Caller? then Move(s.(stopping := true), i, Stopping) else s
         case StopEnd(i) => if s.threads[i].Stopping? then Move(s.(loop := None), i, Caller) else s
  }

  /** One step; an event that cannot happen in s changes nothing. */
  function Step(s: System, e: Event): System
    requires AllExclusive(s.state.table)
  {
    if !OnThread(e) then Outside(s, e)
    else if OfRun(e) then ExecuteStep(s, e)
    else if OfLife(e) then LifeStep(s, e)
    else if e.i >= |s.threads| then s
    else match e
         case TakeManual(i) => if s.threads[i].Idle? then TakeStep(s, i) else s
         case List(i, listed, now) =>
           if s.threads[i].Listing? && Read(s.state.table, listed) then Move(s, i, Scanning(listed, now)) else s
         case Scan(i) => if s.threads[i].Scanning? then ScanStep(s, i) else s
  }

  /** What a thread lists are rows of the table. */
  predicate Read(table: Table, listed: seq<(string, Task)>) {
    forall k :: 0 <= k < |listed| ==> listed[k].0 in table && table[listed[k].0] == listed[k].1
  }

  // ----- invariant

  predicate Distinct(q: seq<string>) { forall i, j :: 0 <= i < j < |q| ==> q[i] != q[j] }

  /** Where a tick goes on after a run. */
  predicate Resumable(t: Thread) { t.Listing? || t.Scanning? || t.Waiting? }

  /** The running flag names the one task a ticking thread executes, and is clear when none does. */
  ghost predicate FlagHolds(s: System) {
    && (forall i :: 0 <= i < |s.threads| && s.threads[i].Executing? ==>
                      s.state.running == Some(s.threads[i].code) && Resumable(s.threads[i].resume))
    && (forall i, j :: 0 <= i < j < |s.threads| ==> !(s.threads[i].Executing? && s.threads[j].Executing?))
    && (s.state.running.Some? ==> exists i :: 0 <= i < |s.threads| && s.threads[i].Executing?)
  }

  ghost predicate Invariant(s: System) {
    AllExclusive(s.state.table) && Distinct(s.state.queue) && s.accepted == s.dequeued + s.state.queue && FlagHolds(s)
  }

  lemma OutsideKeepsInvariant(s: System, e: Event)
    requires Invariant(s) && !OnThread(e)
    ensures Invariant(Outside(s, e))
  {
    var table := s.state.table;
    match e {
      case RequestRun(code) =>
        var q := s.state.queue + [code];
        assert s.dequeued + q == s.dequeued + s.state.queue + [code];
      case Edit(code, change, now) =>
        if Update(table, code, change, now).Success? {
          UpdateLaw(table, code, change, now);
        }
      case RestoreTask(code, now) =>
        TemplatesAreExclusive(code);
      case Remove(code) =>
      case Initialise(code, next) =>
    }
  }

  /** A thread that is not executing moves to another such place. */
  lemma MoveKeepsFlag(s: System, i: nat, t: Thread)
    requires FlagHolds(s) && i < |s.threads| && !s.threads[i].Executing? && !t.Executing?
    ensures FlagHolds(Move(s, i, t))
  {
    if s.state.running.Some? {
      var j :| 0 <= j < |s.threads| && s.threads[j].Executing?;
      assert Move(s, i, t).threads[j].Executing?;
    }
  }

  /** A thread claims the free flag. */
  lemma ClaimKeepsFlag(s: System, i: nat, code: string, resume: Thread)
    requires FlagHolds(s) && i < |s.threads| && s.state.running.None?
    requires Resumable(resume)
    ensures FlagHolds(Move(s.(state := s.state.(running := Some(code))), i, Executing(code, Claimed, resume)))
  {
    var after := Move(s.(state := s.state.(running := Some(code))), i, Executing(code, Claimed, resume));
    assert after.threads[i].Executing?;
  }

  lemma ScanKeepsFlag(s: System, i: nat)
    requires FlagHolds(s) && i < |s.threads| && s.threads[i].Scanning?
    ensures FlagHolds(ScanStep(s, i))
  {
    var tasks, now := s.threads[i].tasks, s.threads[i].now;
    if tasks == [] {
      MoveKeepsFlag(s, i, Waiting);
    } else if Due(tasks[0].1, now) && s.state.running.None? {
      ClaimKeepsFlag(s, i, tasks[0].0, Scanning(tasks[1..], now));
    } else {
      MoveKeepsFlag(s, i, Scanning(tasks[1..], now));
    }
  }

  lemma ScanKeepsInvariant(s: System, i: nat)
    requires Invariant(s) && i < |s.threads| && s.threads[i].Scanning?
    ensures Invariant(ScanStep(s, i))
  {
    hide FlagHolds;
    ScanKeepsFlag(s, i);
  }

  lemma TakeKeepsInvariant(s: System, i: nat)
    requires Invariant(s) && i < |s.threads| && s.threads[i].Idle?
    ensures Invariant(TakeStep(s, i))
  {
    if s.state.running.None? && s.state.queue != [] {
      var code := s.state.queue[0];
      var s1 := s.(state := s.state.(queue := s.state.queue[1..]), dequeued := s.dequeued + [code]);
      assert s.state.queue == [code] + s.state.queue[1..];
      assert FlagHolds(s1);
      ClaimKeepsFlag(s1, i, code, Listing);
    } else {
      MoveKeepsFlag(s, i, Listing);
    }
  }

  lemma BeginEndKeepTable(table: Table, code: string, now: int, error: Option<string>)
    requires AllExclusive(table)
    ensures AllExclusive(Begun(table, code, now)) && AllExclusive(Ended(table, code, now, error))
  {
  }

  /** A thread executing, or `start`, moves on within its run. */
  lemma PhaseKeepsFlag(s: System, i: nat, t: Thread)
    requires FlagHolds(s) && i < |s.threads|
    requires s.threads[i].Executing? <==> t.Executing?
    requires t.Executing? ==> t.code == s.threads[i].code && Resumable(t.resume)
    ensures FlagHolds(Move(s, i, t))
  {
    if s.state.running.Some? {
      var j :| 0 <= j < |s.threads| && s.threads[j].Executing?;
      assert Move(s, i, t).threads[j].Executing?;
    }
  }

  lemma ExecuteKeepsInvariant(s: System, e: Event)
    requires Invariant(s) && OfRun(e)
    ensures Invariant(ExecuteStep(s, e))
  {
    hide Begun, Ended, Template;
    match e {
      case Begin(i, now) =>
        if At(s, i, Claimed) {
          var t := s.threads[i];
          BeginEndKeepTable(s.state.table, t.code, now, None);
          PhaseKeepsFlag(WithTable(s, Begun(s.state.table, t.code, now)), i, WithPhase(t, InHandler));
          PhaseKeepsFlag(s, i, WithPhase(t, Finished));
        }
      case End(i, now, error) =>
        if At(s, i, InHandler) {
          var t := s.threads[i];
          BeginEndKeepTable(s.state.table, t.code, now, error);
          PhaseKeepsFlag(WithTable(s, Ended(s.state.table, t.code, now, error)), i, WithPhase(t, Finished));
        }
      case Raise(i) =>
        if At(s, i, Claimed) || At(s, i, InHandler) {
          var t := s.threads[i];
          PhaseKeepsFlag(s, i, if t.Executing? then Executing(t.code, Finished, Waiting) else WithPhase(t, Finished));
        }
      case Release(i) =>
    }
  }

  lemma LifeKeepsInvariant(s: System, e: Event)
    requires Invariant(s) && OfLife(e)
    ensures Invariant(LifeStep(s, e))
  {
    hide AllExclusive;
    var after := LifeStep(s, e);
    if after != s {
      if e.Launch? {
        MoveKeepsFlag(s, e.i, Caller);
        var moved := Move(s, e.i, Caller);
        if s.state.running.Some? {
          var j :| 0 <= j < |moved.threads| && moved.threads[j].Executing?;
          assert after.threads[j].Executing?;
        }
      } else {
        MoveKeepsFlag(s, e.i, after.threads[e.i]);
      }
    }
  }

  lemma StepKeepsInvariant(s: System, e: Event)
    requires Invariant(s)
    ensures Invariant(Step(s, e))
  {
    hide FlagHolds, Outside, TakeStep, ScanStep, ExecuteStep, LifeStep;
    if !OnThread(e) {
      OutsideKeepsInvariant(s, e);
    } else if OfRun(e) {
      ExecuteKeepsInvariant(s, e);
    } else if OfLife(e) {
      LifeKeepsInvariant(s, e);
    } else if e.i < |s.threads| {
      match e {
        case TakeManual(i) => if s.threads[i].Idle? { TakeKeepsInvariant(s, i); }
        case List(i, listed, now) => if s.threads[i].Listing? { MoveKeepsFlag(s, i, Scanning(listed, now)); }
        case Scan(i) => if s.threads[i].Scanning? { ScanKeepsInvariant(s, i); }
      }
    }
  }

  // ----- whole runs

  /** Before any start: no scheduler thread, and as many threads of the application as there may be. */
  function Start(table: Table, callers: nat): System {
    System(State(table, [], None), seq(callers, _ => Caller), None, false, [], [])
  }

  /** A run: each system follows from the one before by an event. */
  ghost predicate Execution(run: seq<System>, events: seq<Event>) {
    && |run| == |events| + 1
    && (forall k :: 0 <= k < |run| ==> AllExclusive(run[k].state.table))
    && (forall k, n :: 0 <= k < |events| && n == k + 1 ==> run[n] == Step(run[k], events[k]))
  }

  lemma {:induction false} AlwaysInvariant(run: seq<System>, events: seq<Event>, k: nat)
    requires Execution(run, events) && Invariant(run[0]) && k < |run|
    ensures Invariant(run[k])
  {
    if k > 0 {
      AlwaysInvariant(run, events, k - 1);
      StepKeepsInvariant(run[k - 1], events[k - 1]);
    }
  }

  /** Ticks never run two handlers at once, and the flag names the one that runs. */
  lemma OneHandlerAtATime(table: Table, callers: nat, run: seq<System>, events: seq<Event>, k: nat, i: nat, j: nat)
    requires AllExclusive(table) && Execution(run, events) && run[0] == Start(table, callers) && k < |run|
    requires i < |run[k].threads| && j < |run[k].threads|
    requires run[k].threads[i].Executing? && run[k].threads[j].Executing?
    ensures i == j && run[k].state.running == Some(run[k].threads[i].code)
  {
    AlwaysInvariant(run, events, k);
  }

  /** Requests are served first come, first served: what was taken is a prefix of what was accepted, and only grows. */
  lemma {:induction false} ServedInOrder(run: seq<System>, events: seq<Event>, k: nat, n: nat)
    requires Execution(run, events) && Invariant(run[0]) && k <= n < |run|
    ensures run[n].accepted == run[n].dequeued + run[n].state.queue && Distinct(run[n].state.queue)
    ensures run[k].dequeued <= run[n].dequeued && run[k].accepted <= run[n].accepted
    decreases n
  {
    AlwaysInvariant(run, events, n);
    if k < n {
      ServedInOrder(run, events, k, n - 1);
      assert run[n] == Step(run[n - 1], events[n - 1]);
    }
  }

  /** An idle thread launches the oldest request not yet served, when nothing runs. */
  lemma OldestRequestIsServed(s: System, i: nat)
    requires Invariant(s) && i < |s.threads| && s.threads[i].Idle? && s.state.running.None?
    requires |s.dequeued| < |s.accepted|
    ensures var after := Step(s, TakeManual(i));
            && after.threads[i] == Executing(s.accepted[|s.dequeued|], Claimed, Listing)
            && after.dequeued == s.accepted[..|s.dequeued| + 1]
            && after.state.running == Some(s.accepted[|s.dequeued|])
  {
  }

  lemma FlagOwner(s: System) returns (i: nat)
    requires Invariant(s) && s.state.running.Some?
    ensures i < |s.threads| && s.threads[i].Executing?
  {
    i :| 0 <= i < |s.threads| && s.threads[i].Executing?;
  }

  /** Wherever a run of a ticking thread stands, one of these steps takes it on; the last one clears the flag. */
  lemma RunMovesOn(s: System, i: nat, now: int, error: Option<string>)
    requires Invariant(s) && i < |s.threads| && s.threads[i].Executing?
    ensures s.threads[i].phase == Claimed ==>
              At(Step(s, Begin(i, now)), i, InHandler) || At(Step(s, Begin(i, now)), i, Finished)
    ensures s.threads[i].phase == InHandler ==> At(Step(s, End(i, now, error)), i, Finished)
    ensures s.threads[i].phase != Finished ==> At(Step(s, Raise(i)), i, Finished)
    ensures s.threads[i].phase == Finished ==>
              Step(s, Release(i)).state.running.None? && Step(s, Release(i)).threads[i] == s.threads[i].resume
  {
    hide FlagHolds, AllExclusive, Begun, Ended, Template;
  }

  /** The flag never stays set for good: the thread that set it has a way to clear it, raising or not. */
  lemma FlagIsCleared(s: System, now: int, error: Option<string>) returns (i: nat, events: seq<Event>, run: seq<System>)
    requires Invariant(s) && s.state.running.Some?
    ensures i < |s.threads| && s.threads[i].Executing?
    ensures |events| <= 3 && Execution(run, events) && run[0] == s && run[|run| - 1].state.running.None?
    ensures forall e <- events :: e in [Begin(i, now), End(i, now, error), Release(i)]
  {
    hide FlagHolds, AllExclusive, Step;
    i := FlagOwner(s);
    events, run := [], [s];
    var at := s;
    if at.threads[i].phase == Claimed {
      RunMovesOn(at, i, now, error);
      StepKeepsInvariant(at, Begin(i, now));
      at := Step(at, Begin(i, now));
      events, run := events + [Begin(i, now)], run + [at];
      BeginKeepsCode(s, i, now);
    }
    if at.threads[i].phase == InHandler {
      RunMovesOn(at, i, now, error);
      StepKeepsInvariant(at, End(i, now, error));
      BeginKeepsCode(at, i, now);
      EndKeepsCode(at, i, now, error);
      at := Step(at, End(i, now, error));
      events, run := events + [End(i, now, error)], run + [at];
    }
    RunMovesOn(at, i, now, error);
    StepKeepsInvariant(at, Release(i));
    at := Step(at, Release(i));
    events, run := events + [Release(i)], run + [at];
  }

  lemma BeginKeepsCode(s: System, i: nat, now: int)
    requires Invariant(s) && i < |s.threads| && s.threads[i].Executing?
    ensures i < |Step(s, Begin(i, now)).threads| && Step(s, Begin(i, now)).threads[i].Executing?
  {
    hide FlagHolds, AllExclusive, Begun, Template;
  }

  lemma EndKeepsCode(s: System, i: nat, now: int, error: Option<string>)
    requires Invariant(s) && i < |s.threads| && s.threads[i].Executing?
    ensures i < |Step(s, End(i, now, error)).threads| && Step(s, End(i, now, error)).threads[i].Executing?
  {
    hide FlagHolds, AllExclusive, Ended;
  }

  /**
    When a run ends, an enabled task's next run is set later than the finish: by its interval, or to the
    first instant that shows its clock time.
  */
  lemma RunSetsNextRun(s: System, i: nat, now: int, error: Option<string>)
    requires Invariant(s) && At(s, i, InHandler) && s.threads[i].code in s.state.table
    requires s.state.table[s.threads[i].code].enabled
    ensures var code := s.threads[i].code;
            var c := s.state.table[code].settings;
            var after := Step(s, End(i, now, error)).state.table;
            && code in after && after[code].nextRun.Some? && after[code].nextRun.value > now
            && NextAt(c, now, after[code].nextRun.value)
            && (after[code].lastStatus == Some(Failed) <==> error.Some?)
  {
    EndedLaw(s.state.table, s.threads[i].code, now, error);
  }

  // ----- writes from outside, while threads run

  /** Who wrote the row of a code: a write of its own, or the run of that very task. */
  predicate Writes(s: System, e: Event, code: string) {
    || ((e.Edit? || e.Initialise?) && e.code == code)
    || (e.Begin? && At(s, e.i, Claimed) && s.threads[e.i].code == code && code in CODES)
    || (e.End? && At(s, e.i, InHandler) && s.threads[e.i].code == code)
  }

  /** Whatever the threads do, a row changes only by a write of its own or by the run of that very task. */
  lemma RowChangesBy(s: System, e: Event, code: string)
    requires AllExclusive(s.state.table)
    ensures var before, after := s.state.table, Step(s, e).state.table;
            && (code in before && code !in after ==> e == Remove(code))
            && (code !in before && code in after ==> e.RestoreTask? && e.code == code)
            && (code in before && code in after && after[code] != before[code] ==> Writes(s, e, code))
  {
    if !OnThread(e) {
      OutsideWrites(s, e, code);
    } else if OfRun(e) {
      RunWrites(s, e, code);
    } else {
      LoopWritesNothing(s, e);
    }
    hide Outside, ExecuteStep, Writes, AllExclusive, LifeStep, TakeStep, ScanStep;
  }

  lemma OutsideWrites(s: System, e: Event, code: string)
    requires AllExclusive(s.state.table) && !OnThread(e)
    ensures var before, after := s.state.table, Outside(s, e).state.table;
            && (code in before && code !in after ==> e == Remove(code))
            && (code !in before && code in after ==> e.RestoreTask? && e.code == code)
            && (code in before && code in after && after[code] != before[code] ==> Writes(s, e, code))
  {
    match e {
      case Edit(c, change, now) =>
        if Update(s.state.table, c, change, now).Success? {
          UpdateLaw(s.state.table, c, change, now);
        }
      case RestoreTask(c, now) => RestoreLaw(s.state.table, c, now);
      case _ =>
    }
    hide Update, Restore, AllExclusive, At;
  }

  lemma RunWrites(s: System, e: Event, code: string)
    requires AllExclusive(s.state.table) && OfRun(e)
    ensures var before, after := s.state.table, ExecuteStep(s, e).state.table;
            && after.Keys == before.Keys
            && (code in before && after[code] != before[code] ==> Writes(s, e, code))
  {
    match e {
      case Begin(i, now) =>
        if At(s, i, Claimed) {
          BeginEndKeepTable(s.state.table, s.threads[i].code, now, None);
        }
      case End(i, now, error) =>
        if At(s, i, InHandler) {
          BeginEndKeepTable(s.state.table, s.threads[i].code, now, error);
        }
      case _ =>
    }
    hide Begun, Ended, AllExclusive;
  }

  lemma LoopWritesNothing(s: System, e: Event)
    requires AllExclusive(s.state.table) && OnThread(e) && !OfRun(e)
    ensures Step(s, e).state.table == s.state.table
  {
  }

  /** A write takes effect at once, at any moment of any run, and disturbs no thread. */
  lemma WritesTakeEffect(s: System, e: Event)
    requires AllExclusive(s.state.table) && !OnThread(e)
    ensures var t := Step(s, e);
            && t.threads == s.threads && t.state.running == s.state.running && t.dequeued == s.dequeued
            && t.loop == s.loop && t.stopping == s.stopping
            && (e.Edit? && Update(s.state.table, e.code, e.change, e.now).Success? ==>
                  t.state.table == Update(s.state.table, e.code, e.change, e.now).value)
            && (e.RestoreTask? && e.code in CODES && e.code !in s.state.table ==>
                  e.code in t.state.table && t.state.table[e.code].enabled)
            && (e.Remove? && e.code in CODES ==> e.code !in t.state.table)
            && (e.Initialise? && e.code in s.state.table ==>
                  e.code in t.state.table && t.state.table[e.code].nextRun == Some(e.next))
            && (!e.RequestRun? ==> t.accepted == s.accepted && t.state.queue == s.state.queue)
            && (e.RequestRun? ==>
                  if e.code in CODES && s.state.running != Some(e.code) && e.code !in s.state.queue
                  then t.accepted == s.accepted + [e.code] && t.state.queue == s.state.queue + [e.code]
                  else t == s)
  {
    if e.RestoreTask? {
      RestoreLaw(s.state.table, e.code, e.now);
    }
    hide Update, Restore;
  }
}

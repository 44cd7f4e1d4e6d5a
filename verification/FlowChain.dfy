/**
  The flow-chain driver against a gateway that may do anything: between two interactions the
  task table, the clock and the cancel event move as the environment pleases, and any gateway
  call may raise. The driver's own observations and actions are recorded, one list per step.
 */
module FlowChain {
  import opened Wrappers

  /** A row of the task table; an empty end time stands for NULL. */
  datatype Task = Task(id: int, flow: string, beginTime: string, endTime: string)

  /** What the environment does before one interaction. */
  datatype Move = Move(table: seq<Task>, delay: nat, cancelled: bool, raises: bool)

  /** What the driver does and sees; a query keeps the table it was answered from. */
  datatype Event =
    | CancelCheck(fired: bool)
    | FoundRunning(table: seq<Task>, task: Option<Task>)
    | ReadLatest(table: seq<Task>, id: int)
    | Submitted(flow: string)
    | FoundSubmitted(table: seq<Task>, task: Option<Task>)
    | ReadTask(id: int, table: seq<Task>, task: Option<Task>)
    | Slept
    | Raised

  // ----- the gateway's queries

  /** Greatest id among the flow's rows without an end time. */
  function Running(table: seq<Task>, flow: string): (r: Option<Task>)
    ensures r.Some? ==> r.value in table && r.value.flow == flow && r.value.endTime == ""
    ensures r.Some? <==> exists t :: t in table && t.flow == flow && t.endTime == ""
    ensures r.Some? ==> forall t :: t in table && t.flow == flow && t.endTime == "" ==> t.id <= r.value.id
  {
    if table == [] then None
    else
      var rest := Running(table[1..], flow);
      var t := table[0];
      assert table == [t] + table[1..];
      if t.flow == flow && t.endTime == "" && (rest.None? || rest.value.id <= t.id) then Some(t) else rest
  }

  /** Least id above `after` among the flow's rows. */
  function SubmittedAfter(table: seq<Task>, flow: string, after: int): (r: Option<Task>)
    ensures r.Some? ==> r.value in table && r.value.flow == flow && r.value.id > after
    ensures r.Some? <==> exists t :: t in table && t.flow == flow && t.id > after
    ensures r.Some? ==> forall t :: t in table && t.flow == flow && t.id > after ==> r.value.id <= t.id
  {
    if table == [] then None
    else
      var rest := SubmittedAfter(table[1..], flow, after);
      var t := table[0];
      assert table == [t] + table[1..];
      if t.flow == flow && t.id > after && (rest.None? || t.id <= rest.value.id) then Some(t) else rest
  }

  /** `COALESCE(MAX(id), 0)` */
  function Latest(table: seq<Task>): (m: int)
    ensures if table == [] then m == 0 else exists t <- table :: t.id == m
    ensures forall t :: t in table ==> t.id <= m
  {
    if table == [] then 0
    else
      var rest := Latest(table[1..]);
      assert table == [table[0]] + table[1..];
      assert table[0] in table;
      if |table| == 1 || rest <= table[0].id then table[0].id else rest
  }

  /** A row with the id, when there is one. */
  function ById(table: seq<Task>, id: int): (r: Option<Task>)
    ensures r.Some? ==> r.value in table && r.value.id == id
    ensures r.None? <==> forall t <- table :: t.id != id
  {
    if table == [] then None else if table[0].id == id then Some(table[0]) else ById(table[1..], id)
  }

  // ----- what one step records

  predicate Awaits(e: Event, id: int, begin: string) {
    (e.FoundRunning? || e.FoundSubmitted?) && e.task.Some? && e.task.value.id == id && e.task.value.beginTime == begin
  }

  predicate SeesEnd(e: Event, id: int, end: string) {
    (e.FoundSubmitted? || e.ReadTask?) && e.task.Some? && e.task.value.id == id && e.task.value.endTime == end
    && end != ""
  }

  /** A look that shows an end time. */
  predicate ShowsEnd(e: Event) {
    (e.FoundSubmitted? || e.ReadTask?) && e.task.Some? && e.task.value.endTime != ""
  }

  /** A look that finds a task: a running one, the one submitted, or the one awaited. */
  predicate FoundTask(e: Event) { (e.FoundRunning? || e.FoundSubmitted? || e.ReadTask?) && e.task.Some? }

  ghost predicate NoneFound(log: seq<Event>) { forall e <- log :: !FoundTask(e) }

  ghost predicate HasSubmitted(log: seq<Event>) { exists e <- log :: e.Submitted? }

  /** How far a step that did not end has come. */
  ghost function Reached(log: seq<Event>): string {
    if !NoneFound(log) then "running" else if HasSubmitted(log) then "submitted" else "pending"
  }

  ghost predicate NoEndShown(log: seq<Event>) { forall e <- log :: !ShowsEnd(e) }

  /** What a look for a task by its id yields: a row of that id, or the absence of any. */
  ghost predicate Answers(table: seq<Task>, id: int, task: Option<Task>) {
    match task
    case Some(t) => t in table && t.id == id
    case None => forall t <- table :: t.id != id
  }

  lemma OneMoreEvent(log: seq<Event>, e: Event)
    ensures NoneFound(log + [e]) <==> NoneFound(log) && !FoundTask(e)
    ensures NoEndShown(log + [e]) <==> NoEndShown(log) && !ShowsEnd(e)
    ensures HasSubmitted(log + [e]) <==> HasSubmitted(log) || e.Submitted?
  {
    var more := log + [e];
    assert forall x :: x in more <==> x in log || x == e;
  }

  predicate Stops(e: Event) { e == CancelCheck(true) || e == Raised }

  predicate Going(log: seq<Event>) { log != [] ==> !Stops(log[|log| - 1]) }

  predicate NoneRunning(e: Event) { e.FoundRunning? && e.task.None? }

  /** Whether the event may stand at position i of a step's record. */
  ghost predicate InPlace(log: seq<Event>, i: nat, flow: string)
    requires i < |log|
  {
    match log[i]
    case CancelCheck(fired) => i == 0 || i > 1
    case FoundRunning(table, task) => i == 1 && task == Running(table, flow)
    case ReadLatest(table, id) => i == 2 && NoneRunning(log[1]) && id == Latest(table)
    case Submitted(f) => i == 3 && f == flow && NoneRunning(log[1]) && log[2].ReadLatest?
    case FoundSubmitted(table, task) =>
      && i > 3 && log[3].Submitted? && log[2].ReadLatest? && task == SubmittedAfter(table, flow, log[2].id)
      && (task.Some? ==> Newer(task.value, log[2], flow))
    case ReadTask(id, table, task) =>
      i > 2 && (exists j, begin :: 0 <= j < i && Awaits(log[j], id, begin)) && Answers(table, id, task)
    case Slept => i > 2
    case Raised => i > 0
  }

  /** The task's id is above every id in the table as it was read before the submission. */
  predicate Newer(t: Task, read: Event, flow: string)
    requires read.ReadLatest?
  {
    t.flow == flow && t.id > read.id && forall other <- read.table :: other.id < t.id
  }

  /** The record of one step, complete or broken off: nothing follows a fired check or a raise. */
  ghost predicate StepRecord(log: seq<Event>, flow: string) {
    && (forall i :: 0 <= i < |log| ==> InPlace(log, i, flow))
    && (forall i :: 0 <= i < |log| - 1 ==> !Stops(log[i]))
  }

  /** When no look showed an end, no table that was searched for the awaited task held it with an end time. */
  lemma NoneEndedUnseen(log: seq<Event>, flow: string, i: nat, t: Task)
    requires StepRecord(log, flow) && NoEndShown(log) && i < |log| && log[i].ReadTask?
    requires t in log[i].table && t.id == log[i].id
    requires forall other <- log[i].table :: other.id == t.id ==> other == t
    ensures t.endTime == ""
  {
    assert InPlace(log, i, flow) && log[i] in log;
  }

  lemma Appended(log: seq<Event>, e: Event, flow: string)
    requires StepRecord(log, flow) && Going(log)
    requires InPlace(log + [e], |log|, flow)
    ensures StepRecord(log + [e], flow)
  {
    var more := log + [e];
    forall i | 0 <= i < |more| ensures InPlace(more, i, flow) {
      if i < |log| {
        assert InPlace(log, i, flow) && more[i] == log[i];
        if log[i].ReadTask? {
          var j, begin :| 0 <= j < i && Awaits(log[j], log[i].id, begin);
          assert Awaits(more[j], log[i].id, begin);
        }
      }
    }
  }

  lemma AppendedCheck(log: seq<Event>, fired: bool, flow: string)
    requires StepRecord(log, flow) && Going(log) && |log| != 1
    ensures StepRecord(log + [CancelCheck(fired)], flow)
  {
    Appended(log, CancelCheck(fired), flow);
  }

  lemma AppendedFound(log: seq<Event>, table: seq<Task>, flow: string)
    requires StepRecord(log, flow) && Going(log) && |log| == 1
    ensures StepRecord(log + [FoundRunning(table, Running(table, flow))], flow)
  {
    Appended(log, FoundRunning(table, Running(table, flow)), flow);
  }

  lemma AppendedLatest(log: seq<Event>, table: seq<Task>, flow: string)
    requires StepRecord(log, flow) && Going(log) && |log| == 2 && NoneRunning(log[1])
    ensures StepRecord(log + [ReadLatest(table, Latest(table))], flow)
  {
    Appended(log, ReadLatest(table, Latest(table)), flow);
  }

  lemma AppendedSubmit(log: seq<Event>, flow: string)
    requires StepRecord(log, flow) && Going(log) && |log| == 3 && NoneRunning(log[1]) && log[2].ReadLatest?
    ensures StepRecord(log + [Submitted(flow)], flow)
  {
    Appended(log, Submitted(flow), flow);
  }

  lemma AppendedSleep(log: seq<Event>, flow: string)
    requires StepRecord(log, flow) && Going(log) && |log| > 2
    ensures StepRecord(log + [Slept], flow)
  {
    Appended(log, Slept, flow);
  }

  lemma AppendedRaise(log: seq<Event>, flow: string)
    requires StepRecord(log, flow) && Going(log) && |log| > 0
    ensures StepRecord(log + [Raised], flow)
  {
    Appended(log, Raised, flow);
  }

  lemma AppendedSearch(log: seq<Event>, table: seq<Task>, flow: string)
    requires StepRecord(log, flow) && Going(log)
    requires |log| > 3 && log[3].Submitted? && log[2].ReadLatest?
    ensures StepRecord(log + [FoundSubmitted(table, SubmittedAfter(table, flow, log[2].id))], flow)
  {
    assert InPlace(log, 2, flow);
    Appended(log, FoundSubmitted(table, SubmittedAfter(table, flow, log[2].id)), flow);
  }

  lemma AppendedRead(log: seq<Event>, at: nat, id: int, begin: string, table: seq<Task>, task: Option<Task>,
                     flow: string)
    requires StepRecord(log, flow) && Going(log)
    requires at < |log| && |log| > 2 && Awaits(log[at], id, begin) && Answers(table, id, task)
    ensures StepRecord(log + [ReadTask(id, table, task)], flow)
  {
    assert Awaits((log + [ReadTask(id, table, task)])[at], id, begin);
    Appended(log, ReadTask(id, table, task), flow);
  }

  datatype StepResult = StepResult(flow: string, status: string, taskId: Option<int>, beginTime: string,
                                   endTime: string)

  datatype Stop = Invalid | CancelledRun | TimedOut | GatewayFailed

  /** The step ended: its task was awaited, an end time of that task was seen, and a later check had not fired. */
  ghost predicate Ended(log: seq<Event>, r: StepResult) {
    && r.taskId.Some?
    && (exists j :: 0 <= j < |log| && Awaits(log[j], r.taskId.value, r.beginTime))
    && (exists i :: 0 <= i < |log| && SeesEnd(log[i], r.taskId.value, r.endTime))
    && log[|log| - 1] == CancelCheck(false)
  }

  /** How a broken-off run shows in the record. */
  predicate StoppedBy(log: seq<Event>, stop: Stop) {
    match stop
    case Invalid => log == []
    case CancelledRun => log != [] && log[|log| - 1] == CancelCheck(true)
    case GatewayFailed => log != [] && log[|log| - 1] == Raised
    case TimedOut => log != [] && Going(log)
  }

  /** Submissions among the events. */
  function Submissions(log: seq<Event>): nat {
    if log == [] then 0 else (if log[0].Submitted? then 1 else 0) + Submissions(log[1..])
  }

  lemma {:induction false} NoSubmissions(log: seq<Event>)
    requires forall e <- log :: !e.Submitted?
    ensures Submissions(log) == 0
  {
    if log != [] { NoSubmissions(log[1..]); }
  }

  lemma {:induction false} SubmissionAt(log: seq<Event>, i: nat)
    requires i < |log| && log[i].Submitted?
    requires forall j :: 0 <= j < |log| && j != i ==> !log[j].Submitted?
    ensures Submissions(log) == 1
  {
    if i == 0 {
      forall e | e in log[1..] ensures !e.Submitted? {
        var j :| 0 <= j < |log[1..]| && log[1..][j] == e;
        assert log[j + 1] == e;
      }
      NoSubmissions(log[1..]);
    } else {
      assert forall j :: 0 <= j < |log[1..]| ==> log[1..][j] == log[j + 1];
      SubmissionAt(log[1..], i - 1);
    }
  }

  /** A step submits at most once, and never once a running task was found or a check has fired. */
  lemma {:induction false} SubmitsOnce(log: seq<Event>, flow: string)
    requires StepRecord(log, flow)
    ensures Submissions(log) <= 1
    ensures (exists i :: 0 <= i < |log| && log[i].FoundRunning? && log[i].task.Some?) ==> Submissions(log) == 0
    ensures Submissions(log) == 1 ==>
              && |log| > 3 && log[0] == CancelCheck(false) && NoneRunning(log[1]) && log[3] == Submitted(flow)
              && forall t <- log[1].table :: t.flow == flow ==> t.endTime != ""
  {
    forall i | 0 <= i < |log| && log[i].Submitted? ensures i == 3 && NoneRunning(log[1]) {
      assert InPlace(log, i, flow);
    }
    forall i | 0 <= i < |log| && log[i].FoundRunning? ensures i == 1 {
      assert InPlace(log, i, flow);
    }
    if |log| > 3 && log[3].Submitted? {
      SubmissionAt(log, 3);
      assert InPlace(log, 0, flow) && InPlace(log, 1, flow) && InPlace(log, 3, flow) && !Stops(log[0]);
    } else {
      forall e | e in log ensures !e.Submitted? {
        var j :| 0 <= j < |log| && log[j] == e;
      }
      NoSubmissions(log);
    }
  }

  /**
    A step that ended waited either for a task already running, or for one newer than every task before its
    submission.
  */
  lemma EndedStepWaitedForItsTask(log: seq<Event>, flow: string, r: StepResult)
    requires StepRecord(log, flow) && Ended(log, r)
    ensures r.endTime != "" && |log| > 2
    ensures !NoneRunning(log[1]) ==>
              Submissions(log) == 0 && log[1].FoundRunning? && log[1].task.Some?
              && log[1].task.value.id == r.taskId.value
    ensures NoneRunning(log[1]) ==>
              && |log| > 3
              && Submissions(log) == 1 && log[3] == Submitted(flow)
              && log[2].ReadLatest? && forall t <- log[2].table :: t.id < r.taskId.value
  {
    var j :| 0 <= j < |log| && Awaits(log[j], r.taskId.value, r.beginTime);
    assert InPlace(log, j, flow) && InPlace(log, 0, flow) && InPlace(log, 1, flow) && InPlace(log, |log| - 1, flow);
    SubmitsOnce(log, flow);
    if log[j].FoundSubmitted? {
      assert InPlace(log, 3, flow) && Newer(log[j].task.value, log[2], flow);
      forall i | 0 <= i < |log| && i != 3 ensures !log[i].Submitted? {
        assert InPlace(log, i, flow);
      }
      SubmissionAt(log, 3);
    }
  }

  /** Rounds of one wait before the timeout is noticed. */
  function Rounds(timeout: nat, poll: nat): nat
    requires poll > 0
  {
    timeout / poll + 1
  }

  /** No step records more events than this. */
  function Bound(timeout: nat, poll: nat): nat
    requires poll > 0
  {
    8 + 6 * Rounds(timeout, poll)
  }

  lemma RoundsBound(rounds: nat, poll: nat, timeout: nat)
    requires poll > 0 && rounds * poll <= timeout
    ensures rounds + 1 <= Rounds(timeout, poll) && (rounds + 1) * poll == rounds * poll + poll
  {
    if timeout / poll < rounds {
      assert (timeout / poll + 1) * poll <= rounds * poll;
    }
  }

  class World {
    const script: nat -> Move
    var turn: nat
    var now: int
    /** The records of the steps that ended, and of the step under way. */
    var done: seq<seq<Event>>
    var log: seq<Event>

    constructor (script: nat -> Move, now: int)
      ensures this.script == script && this.now == now && done == [] && log == []
    {
      this.script, this.now, turn, done, log := script, now, 0, [], [];
    }

    /** The current step's record grows by these events, and time does not run back. */
    twostate predicate Recorded(events: seq<Event>)
      reads this
    {
      done == old(done) && log == old(log) + events && now >= old(now)
    }

    /** What the new event adds: a task found, an end shown, a submission. */
    twostate predicate Added(found: bool, ended: bool, submitted: bool)
      reads this
    {
      && (NoneFound(log) <==> old(NoneFound(log)) && !found)
      && (NoEndShown(log) <==> old(NoEndShown(log)) && !ended)
      && (HasSubmitted(log) <==> old(HasSubmitted(log)) || submitted)
    }

    method EndStep()
      modifies this`done, this`log
      ensures done == old(done) + [old(log)] && log == []
    {
      done, log := done + [log], [];
    }

    method Record(e: Event)
      modifies this`log
      ensures log == old(log) + [e] && Added(FoundTask(e), ShowsEnd(e), e.Submitted?)
    {
      OneMoreEvent(log, e);
      log := log + [e];
    }

    method Interact() returns (m: Move)
      modifies this`turn, this`now
      ensures m == script(old(turn)) && turn == old(turn) + 1 && now == old(now) + m.delay
    {
      m := script(turn);
      turn := turn + 1;
      now := now + m.delay;
    }

    /** `_raise_if_cancelled` */
    method Check() returns (fired: bool)
      modifies this
      ensures Recorded([CancelCheck(fired)]) && Added(false, false, false) && fired == script(old(turn)).cancelled
    {
      var m := Interact();
      fired := m.cancelled;
      Record(CancelCheck(fired));
    }

    method Clock() returns (t: int)
      modifies this`turn, this`now
      ensures t == now && now >= old(now)
    {
      var m := Interact();
      t := now;
    }

    method Sleep(seconds: nat)
      modifies this
      ensures Recorded([Slept]) && Added(false, false, false) && now >= old(now) + seconds
    {
      var m := Interact();
      now := now + seconds;
      Record(Slept);
    }

    method FindRunningTask(flow: string) returns (ok: bool, task: Option<Task>, ghost table: seq<Task>)
      modifies this
      ensures Recorded([if ok then FoundRunning(table, task) else Raised]) && Added(ok && task.Some?, false, false)
      ensures ok == !script(old(turn)).raises && table == script(old(turn)).table
      ensures ok ==> task == Running(table, flow)
    {
      var m := Interact();
      ok, task, table := !m.raises, None, m.table;
      if ok {
        task := Running(m.table, flow);
        Record(FoundRunning(m.table, task));
      } else {
        Record(Raised);
      }
    }

    method LatestTaskId() returns (ok: bool, id: int, ghost table: seq<Task>)
      modifies this
      ensures Recorded([if ok then ReadLatest(table, id) else Raised]) && Added(false, false, false)
      ensures ok == !script(old(turn)).raises && table == script(old(turn)).table
      ensures ok ==> id == Latest(table)
    {
      var m := Interact();
      ok, id, table := !m.raises, 0, m.table;
      if ok {
        id := Latest(m.table);
        Record(ReadLatest(m.table, id));
      } else {
        Record(Raised);
      }
    }

    method SubmitFlow(flow: string) returns (ok: bool)
      modifies this
      ensures Recorded(if ok then [Submitted(flow)] else [Submitted(flow), Raised]) && ok == !script(old(turn)).raises
      ensures Added(false, false, true)
    {
      var m := Interact();
      ok := !m.raises;
      Record(Submitted(flow));
      if !ok {
        Record(Raised);
      }
    }

    method FindSubmittedTask(flow: string, after: int) returns (ok: bool, task: Option<Task>, ghost table: seq<Task>)
      modifies this
      ensures Recorded([if ok then FoundSubmitted(table, task) else Raised])
      ensures Added(ok && task.Some?, ok && task.Some? && task.value.endTime != "", false)
      ensures ok == !script(old(turn)).raises && table == script(old(turn)).table
      ensures ok ==> task == SubmittedAfter(table, flow, after)
    {
      var m := Interact();
      ok, task, table := !m.raises, None, m.table;
      if ok {
        task := SubmittedAfter(m.table, flow, after);
        Record(FoundSubmitted(m.table, task));
      } else {
        Record(Raised);
      }
    }

    method GetTask(id: int) returns (ok: bool, task: Option<Task>, ghost table: seq<Task>)
      modifies this
      ensures Recorded([if ok then ReadTask(id, table, task) else Raised])
      ensures Added(ok && task.Some?, ok && task.Some? && task.value.endTime != "", false)
      ensures ok == !script(old(turn)).raises && table == script(old(turn)).table
      ensures ok ==> Answers(table, id, task)
    {
      var m := Interact();
      ok, task, table := !m.raises, None, m.table;
      if ok {
        task := ById(m.table, id);
        Record(ReadTask(id, m.table, task));
      } else {
        Record(Raised);
      }
    }

    /** Only the current step's record grew, by at most n events, and time did not run back. */
    twostate predicate Grew(n: nat)
      reads this
    {
      done == old(done) && old(log) <= log && |log| <= |old(log)| + n && now >= old(now)
    }

    /** `_wait_for_submitted_task` */
    method WaitForSubmittedTask(flow: string, before: int, timeout: nat, poll: nat) returns (r: Result<Task, Stop>)
      requires poll > 0
      requires StepRecord(log, flow) && Going(log)
      requires |log| > 3 && log[3].Submitted? && log[2].ReadLatest? && log[2].id == before
      requires NoneFound(log)
      modifies this
      ensures Grew(3 * Rounds(timeout, poll) + 2) && StepRecord(log, flow)
      ensures r.Success? ==> r.value.flow == flow && log[|log| - 1].FoundSubmitted?
                             && log[|log| - 1].task == Some(r.value)
      // no search but the last one finds a task, and none does when the wait fails
      ensures r.Success? ==> NoneFound(log[..|log| - 1])
      ensures r.Failure? ==> StoppedBy(log, r.error) && !r.error.Invalid? && NoneFound(log)
      ensures HasSubmitted(log) <==> old(HasSubmitted(log))
      ensures r.Failure? && r.error.TimedOut? ==> now - old(now) > timeout
    {
      hide StepRecord, Rounds, InPlace, Running, SubmittedAfter, Latest, ById, NoneFound, NoEndShown, HasSubmitted;
      var start := Clock();
      ghost var rounds := 0;
      while true
        invariant done == old(done) && old(log) <= log
        invariant NoneFound(log) && (HasSubmitted(log) <==> old(HasSubmitted(log)))
        invariant StepRecord(log, flow) && Going(log)
        invariant |log| <= |old(log)| + 3 * rounds
        invariant old(now) <= start && rounds * poll <= now - start
        invariant rounds <= Rounds(timeout, poll)
        decreases timeout - (now - start)
      {
        AppendedCheck(log, true, flow);
        AppendedCheck(log, false, flow);
        var fired := Check();
        if fired {
          return Failure(CancelledRun);
        }
        ghost var before2 := log;
        var ok, task, table := FindSubmittedTask(flow, before);
        if !ok {
          AppendedRaise(before2, flow);
          return Failure(GatewayFailed);
        }
        AppendedSearch(before2, table, flow);
        if task.Some? {
          assert log[..|log| - 1] == before2;
          return Success(task.value);
        }
        var t := Clock();
        if t - start > timeout {
          return Failure(TimedOut);
        }
        RoundsBound(rounds, poll, timeout);
        AppendedSleep(log, flow);
        Sleep(poll);
        rounds := rounds + 1;
      }
    }

    /** The sleep between two looks at an awaited task, and the next look. */
    method PollTask(id: int, begin: string, flow: string, ghost at: nat, poll: nat)
      returns (ok: bool, task: Option<Task>)
      requires StepRecord(log, flow) && Going(log) && |log| > 2
      requires at < |log| && Awaits(log[at], id, begin)
      modifies this
      ensures StepRecord(log, flow) && done == old(done) && now >= old(now) + poll
      ensures old(log) <= log && |log| == |old(log)| + 2
      ensures if ok then Going(log) else StoppedBy(log, GatewayFailed)
      ensures NoEndShown(log) <==> old(NoEndShown(log)) && !(ok && task.Some? && task.value.endTime != "")
      ensures ok && task.Some? && task.value.endTime != "" ==> SeesEnd(log[|log| - 1], id, task.value.endTime)
    {
      hide StepRecord, InPlace, Running, SubmittedAfter, Latest, NoneFound, NoEndShown, HasSubmitted;
      AppendedSleep(log, flow);
      Sleep(poll);
      ghost var before := log;
      ghost var table;
      ok, task, table := GetTask(id);
      if ok {
        AppendedRead(before, at, id, begin, table, task, flow);
      } else {
        AppendedRaise(before, flow);
      }
    }

    /** `_wait_for_task_end` */
    method WaitForTaskEnd(task: Task, flow: string, ghost at: nat, timeout: nat, poll: nat)
      returns (r: Result<Task, Stop>)
      requires poll > 0
      requires StepRecord(log, flow) && Going(log)
      requires 0 < at < |log| && Awaits(log[at], task.id, task.beginTime) && log[at].task == Some(task)
      requires task.endTime != "" ==> log[at].FoundSubmitted?
      requires at == |log| - 1 && NoneFound(log[..at])
      modifies this
      ensures Grew(3 * Rounds(timeout, poll) + 1) && StepRecord(log, flow)
      ensures r.Success? ==>
                && (exists i :: 0 <= i < |log| && SeesEnd(log[i], task.id, r.value.endTime))
                && log[|log| - 1] == CancelCheck(false)
      ensures r.Failure? ==> StoppedBy(log, r.error) && !r.error.Invalid?
      ensures r.Failure? && r.error.TimedOut? ==> now - old(now) > timeout && NoEndShown(log)
    {
      assert task.endTime != "" ==> SeesEnd(log[at], task.id, task.endTime);
      assert task.endTime == "" ==> NoEndShown(log) by {
        assert log == log[..at] + [log[at]];
      }
      hide StepRecord, Rounds, SeesEnd, Awaits, InPlace, Running, SubmittedAfter, Latest, ById, NoEndShown, NoneFound,
        HasSubmitted;
      var start := Clock();
      var current := task;
      ghost var rounds, seen := 0, at;
      while true
        invariant done == old(done) && old(log) <= log
        invariant StepRecord(log, flow) && Going(log)
        invariant |log| <= |old(log)| + 3 * rounds
        invariant 0 <= seen < |log| && (current.endTime != "" ==> SeesEnd(log[seen], task.id, current.endTime))
        invariant current.endTime == "" ==> NoEndShown(log)
        invariant old(now) <= start && rounds * poll <= now - start
        invariant rounds <= Rounds(timeout, poll)
        decreases timeout - (now - start)
      {
        AppendedCheck(log, true, flow);
        AppendedCheck(log, false, flow);
        var fired := Check();
        if fired {
          return Failure(CancelledRun);
        }
        if current.endTime != "" {
          assert SeesEnd(log[seen], task.id, current.endTime);
          return Success(current);
        }
        var t := Clock();
        if t - start > timeout {
          return Failure(TimedOut);
        }
        RoundsBound(rounds, poll, timeout);
        var ok, refreshed := PollTask(task.id, task.beginTime, flow, at, poll);
        if !ok {
          return Failure(GatewayFailed);
        }
        if refreshed.Some? {
          current, seen := refreshed.value, |log| - 1;
        }
        rounds := rounds + 1;
      }
    }

    /** The branch taken when no running task was found. */
    method SubmitAndFind(flow: string, timeout: nat, poll: nat)
      returns (stop: Option<Stop>, submitted: bool, task: Task)
      requires poll > 0 && StepRecord(log, flow) && Going(log) && |log| == 2 && NoneRunning(log[1])
      requires NoneFound(log) && !HasSubmitted(log)
      modifies this
      ensures Grew(3 * Rounds(timeout, poll) + 5) && StepRecord(log, flow)
      ensures stop.None? ==>
                submitted && task.flow == flow && |log| > 4 && log[|log| - 1].FoundSubmitted?
                && log[|log| - 1].task == Some(task)
      ensures stop.None? ==> NoneFound(log[..|log| - 1])
      ensures stop.Some? ==> StoppedBy(log, stop.value) && !stop.value.Invalid? && NoneFound(log)
      ensures submitted <==> HasSubmitted(log)
      ensures stop == Some(TimedOut) ==> now - old(now) > timeout
    {
      hide StepRecord, Rounds, InPlace, Running, SubmittedAfter, Latest, NoneFound, NoEndShown, HasSubmitted;
      submitted, task := false, Task(0, flow, "", "");
      ghost var before := log;
      var ok, id, table := LatestTaskId();
      if !ok {
        AppendedRaise(before, flow);
        return Some(GatewayFailed), submitted, task;
      }
      AppendedLatest(before, table, flow);
      submitted := true;
      ghost var before2 := log;
      ok := SubmitFlow(flow);
      AppendedSubmit(before2, flow);
      if !ok {
        AppendedRaise(before2 + [Submitted(flow)], flow);
        assert log == before2 + [Submitted(flow)] + [Raised];
        return Some(GatewayFailed), submitted, task;
      }
      var w := WaitForSubmittedTask(flow, id, timeout, poll);
      if w.Failure? {
        return Some(w.error), submitted, task;
      }
      return None, submitted, w.value;
    }

    /** One turn of `run_flow_chain`'s loop. The result is filled in as the step advances. */
    method RunStep(flow: string, timeout: nat, poll: nat) returns (stop: Option<Stop>, r: StepResult)
      requires poll > 0 && log == []
      modifies this
      ensures Grew(Bound(timeout, poll)) && StepRecord(log, flow)
      ensures r.flow == flow
      ensures stop.None? ==> r.status == "completed" && Ended(log, r)
      ensures stop.Some? ==> r.status == Reached(log) && StoppedBy(log, stop.value) && !stop.value.Invalid?
      ensures stop.Some? ==> r.endTime == "" && (r.taskId.Some? <==> r.status == "running")
      ensures r.taskId.Some? ==> exists e <- log :: Awaits(e, r.taskId.value, r.beginTime)
      ensures stop == Some(TimedOut) ==> now - old(now) > timeout && NoEndShown(log)
    {
      assert StepRecord(log, flow);
      hide StepRecord, Rounds, InPlace, Running, SubmittedAfter, Latest, ById;
      r := StepResult(flow, "pending", None, "", "");
      AppendedCheck(log, true, flow);
      AppendedCheck(log, false, flow);
      var fired := Check();
      if fired {
        return Some(CancelledRun), r;
      }
      ghost var before := log;
      var ok, found, searched := FindRunningTask(flow);
      if !ok {
        AppendedRaise(before, flow);
        return Some(GatewayFailed), r;
      }
      AppendedFound(before, searched, flow);
      var task: Task;
      if found.Some? {
        task := found.value;
        r := r.(status := "running", taskId := Some(task.id), beginTime := task.beginTime);
      } else {
        var broken, submitted;
        broken, submitted, task := SubmitAndFind(flow, timeout, poll);
        r := r.(status := if submitted then "submitted" else "pending");
        if broken.Some? {
          return broken, r;
        }
        r := r.(status := "running", taskId := Some(task.id), beginTime := task.beginTime);
      }
      ghost var at := |log| - 1;
      assert Awaits(log[at], task.id, task.beginTime);
      ghost var awaited := log;
      var w := WaitForTaskEnd(task, flow, at, timeout, poll);
      assert log[at] == awaited[at] && FoundTask(log[at]) && log[at] in log;
      if w.Failure? {
        return Some(w.error), r;
      }
      r := r.(status := "completed", endTime := w.value.endTime);
      assert log[at] == awaited[at] && Awaits(log[at], task.id, r.beginTime);
      return None, r;
    }

    /** `run_flow_chain` */
    method RunFlowChain(chain: seq<string>, executeUrl: string, timeout: nat, poll: nat)
      returns (stop: Option<Stop>, results: seq<StepResult>)
      requires poll > 0 && done == [] && log == []
      modifies this
      ensures stop == Some(Invalid) <==> chain == [] || executeUrl == ""
      ensures stop == Some(Invalid) ==> done == [] && log == []
      ensures stop != Some(Invalid) ==> |results| == |chain| && |done| <= |chain|
      // every step begins only after the ones before it ended, in the configured order
      ensures stop != Some(Invalid) ==>
                forall k :: 0 <= k < |done| ==>
                              && results[k].flow == chain[k] && results[k].status == "completed"
                              && StepRecord(done[k], chain[k]) && Ended(done[k], results[k])
                              && |done[k]| <= Bound(timeout, poll)
      ensures stop.None? ==> |done| == |chain| && log == []
      ensures stop.Some? && stop != Some(Invalid) ==>
                && |done| < |chain| && StepRecord(log, chain[|done|]) && |log| <= Bound(timeout, poll)
                && StoppedBy(log, stop.value)
                && results[|done|].flow == chain[|done|] && results[|done|].status == Reached(log)
                && (results[|done|].taskId.Some? ==>
                      exists e <- log :: Awaits(e, results[|done|].taskId.value, results[|done|].beginTime))
                && forall k :: |done| < k < |chain| ==> results[k] == StepResult(chain[k], "pending", None, "", "")
      // a timeout means that no look of the step, however long it went on, showed the end
      ensures stop == Some(TimedOut) ==> now - old(now) > timeout && NoEndShown(log)
    {
      hide StepRecord, Ended, Bound;
      if chain == [] || executeUrl == "" {
        return Some(Invalid), [];
      }
      results := seq(|chain|, k requires 0 <= k < |chain| => StepResult(chain[k], "pending", None, "", ""));
      var index := 0;
      while index < |chain|
        invariant 0 <= index <= |chain| && |done| == index && log == [] && |results| == |chain| && now >= old(now)
        invariant forall k :: 0 <= k < index ==>
                                && results[k].flow == chain[k] && results[k].status == "completed"
                                && StepRecord(done[k], chain[k]) && Ended(done[k], results[k])
                                && |done[k]| <= Bound(timeout, poll)
        invariant forall k :: index <= k < |chain| ==> results[k] == StepResult(chain[k], "pending", None, "", "")
      {
        var broken, result := RunStep(chain[index], timeout, poll);
        results := results[index := result];
        if broken.Some? {
          return broken, results;
        }
        EndStep();
        index := index + 1;
      }
      return None, results;
    }
  }
}

/**
  The snapshot rows of one report month, and the two operations that rewrite them: a full
  collection and a manual change of one step. Both leave every stored summary equal to a
  recount of the rows it summarises.
 */
module Collection {
  import opened Wrappers
  import opened StepOrder
  import opened StepEvaluation
  import opened Snapshots

  datatype Process = Process(code: string, allowManual: bool, steps: seq<Step>)

  datatype Period = Week | Month | Quarter | Year

  const PERIODS: seq<Period> := [Week, Month, Quarter, Year]

  const SUPPLEMENT_TASKS := "supplement_tasks"
  const REPORT_FORMS := "report_forms"

  datatype CardKey = CardKey(period: Period, card: string)

  datatype Card = Card(total: int, completed: int, incomplete: int, delta: Option<int>, evaluatedAt: int)

  /** What the supplement-task query counts for one period. */
  datatype Supplement = Supplement(total: int, completed: int, incomplete: int, previousCompleted: int)

  /** Steps belong to one process, and no code is used twice. */
  ghost predicate ValidConfiguration(config: seq<Process>) {
    && (forall i, j :: 0 <= i < |config| && 0 <= j < |config| && config[i].code == config[j].code ==> i == j)
    && (forall i :: 0 <= i < |config| ==> UniqueCodes(config[i].steps))
    && (forall i, s :: 0 <= i < |config| && s in config[i].steps ==> s.processCode == config[i].code)
  }

  /** step_code is a primary key: equal codes mean the same step, whichever process lists it. */
  ghost predicate CodesApart(config: seq<Process>) {
    forall i, j, s, t :: 0 <= i < |config| && 0 <= j < |config| && s in config[i].steps && t in config[j].steps
                         && s.code == t.code
                         ==> i == j
  }

  // ----- recounts

  predicate StoredDone(rows: map<string, StepSnapshot>, code: string) {
    code in rows && rows[code].effectiveStatus == Completed
  }

  function DoneIn(rows: map<string, StepSnapshot>): Step -> bool {
    (s: Step) => Judged(s) && StoredDone(rows, s.code)
  }

  function FailedIn(rows: map<string, StepSnapshot>): Step -> bool {
    (s: Step) => s.code in rows && rows[s.code].autoStatus == Error
  }

  function JudgedStep(): Step -> bool { s => Judged(s) }

  function TotalSteps(steps: seq<Step>): nat { Count(JudgedStep(), steps) }

  function CompletedProcesses(config: seq<Process>, rows: map<string, ProcessSnapshot>): nat {
    if config == [] then 0
    else
      var last := config[|config| - 1];
      CompletedProcesses(config[..|config| - 1], rows)
      + (if last.code in rows && rows[last.code].status == Completed then 1 else 0)
  }

  /** A process row agrees with the step rows. */
  predicate ProcessAgrees(p: Process, steps: map<string, StepSnapshot>, row: ProcessSnapshot) {
    && row.total == TotalSteps(p.steps)
    && row.completed == Count(DoneIn(steps), p.steps)
    && (row.status == Completed <==> row.completed == row.total && row.total > 0)
  }

  predicate CardAgrees(config: seq<Process>, processes: map<string, ProcessSnapshot>, card: Card) {
    && card.total == |config|
    && card.completed == CompletedProcesses(config, processes)
    && card.completed + card.incomplete == card.total
  }

  ghost predicate ProcessesAgree(config: seq<Process>, steps: map<string, StepSnapshot>,
                                 processes: map<string, ProcessSnapshot>) {
    forall i :: 0 <= i < |config| && config[i].code in processes
                ==> ProcessAgrees(config[i], steps, processes[config[i].code])
  }

  ghost predicate CardsAgree(config: seq<Process>, processes: map<string, ProcessSnapshot>, cards: map<CardKey, Card>) {
    forall period :: CardKey(period, REPORT_FORMS) in cards
                     ==> CardAgrees(config, processes, cards[CardKey(period, REPORT_FORMS)])
  }

  lemma {:induction false} SameProcessCount(config: seq<Process>, a: map<string, ProcessSnapshot>,
                                            b: map<string, ProcessSnapshot>)
    requires forall i :: 0 <= i < |config| ==>
                           (config[i].code in a && a[config[i].code].status == Completed
                            <==> config[i].code in b && b[config[i].code].status == Completed)
    ensures CompletedProcesses(config, a) == CompletedProcesses(config, b)
  {
    if config != [] {
      SameProcessCount(config[..|config| - 1], a, b);
    }
  }

  lemma NoneCompleted(rows: map<string, ProcessSnapshot>)
    ensures CompletedProcesses([], rows) == 0
  {
  }

  // ----- the rows a process collection leaves

  function AutoSnapshot(s: Step, ctx: Context, overrides: map<string, bool>, statuses: map<string, Status>,
                        now: int): StepSnapshot {
    var auto := Evaluate(s, ctx, statuses);
    StepSnapshot(
      auto.status,
      Effective(s, ctx, overrides, statuses),
      ManuallyDone(s, overrides),
      if auto.status != Completed then None else if auto.completedAt.Some? then auto.completedAt else Some(now),
      now)
  }

  function SavedSteps(order: seq<Step>, n: nat, ctx: Context, overrides: map<string, bool>, now: int,
                      rows: map<string, StepSnapshot>)
    : map<string, StepSnapshot>
    requires n <= |order|
  {
    if n == 0 then rows
    else
      var before := SavedSteps(order, n - 1, ctx, overrides, now, rows);
      var s, statuses := order[n - 1], Pass(order, n - 1, ctx, overrides);
      before[s.code := StoredStep(Lookup(before, s.code), AutoSnapshot(s, ctx, overrides, statuses, now),
                                  Evaluate(s, ctx, statuses).completedAt.None?)]
  }

  /** The step rows show the statuses of the pass, and no other row changes. */
  lemma {:induction false} SavedStatuses(order: seq<Step>, n: nat, ctx: Context, overrides: map<string, bool>, now: int,
                                         rows: map<string, StepSnapshot>, code: string)
    requires n <= |order|
    ensures code in Codes(order[..n]) <==> code in Pass(order, n, ctx, overrides)
    ensures code in Pass(order, n, ctx, overrides) ==>
              && code in SavedSteps(order, n, ctx, overrides, now, rows)
              && SavedSteps(order, n, ctx, overrides, now, rows)[code].effectiveStatus
                 == Pass(order, n, ctx, overrides)[code]
              && SavedSteps(order, n, ctx, overrides, now, rows)[code].evaluatedAt == now
    ensures code !in Pass(order, n, ctx, overrides) ==>
              Lookup(SavedSteps(order, n, ctx, overrides, now, rows), code) == Lookup(rows, code)
  {
    PassKeys(order, n, ctx, overrides);
    if n > 0 {
      SavedStatuses(order, n - 1, ctx, overrides, now, rows, code);
    }
  }

  /** The row of a step after its override was set or lifted. */
  function ManualRow(existing: Option<StepSnapshot>, manual: bool, now: int): StepSnapshot {
    match existing
    case None => StepSnapshot(Incomplete, if manual then Completed else Incomplete, manual, None, now)
    case Some(row) =>
      StepSnapshot(row.autoStatus, if manual then Completed else row.autoStatus, manual,
                   if row.autoStatus == Completed then row.autoCompletedAt else None, now)
  }

  function ProcessStatus(done: int, total: int, hasError: bool): Status {
    if total > 0 && done == total then Completed else if hasError then Error else Incomplete
  }

  lemma {:induction false} CountPositive(p: Step -> bool, xs: seq<Step>)
    ensures Count(p, xs) > 0 <==> exists s :: s in xs && p(s)
  {
    if xs != [] {
      assert xs == [xs[0]] + xs[1..];
      CountPositive(p, xs[1..]);
    }
  }

  /** The judged step with the greatest display order, the first of them on ties. */
  function FinalStep(judged: seq<Step>): Option<Step> {
    if judged == [] then None
    else
      var before := FinalStep(judged[..|judged| - 1]);
      if before.None? || before.value.displayOrder < judged[|judged| - 1].displayOrder
      then Some(judged[|judged| - 1]) else before
  }

  function JudgedSteps(steps: seq<Step>): seq<Step> {
    if steps == [] then []
    else JudgedSteps(steps[..|steps| - 1]) + (if Judged(steps[|steps| - 1]) then [steps[|steps| - 1]] else [])
  }

  /** Completion times reported by the evaluators themselves. */
  function ReportedTimes(order: seq<Step>, n: nat, ctx: Context, overrides: map<string, bool>): map<string, int>
    requires n <= |order|
  {
    if n == 0 then map[]
    else
      var before := ReportedTimes(order, n - 1, ctx, overrides);
      var at := Evaluate(order[n - 1], ctx, Pass(order, n - 1, ctx, overrides)).completedAt;
      if at.Some? then before[order[n - 1].code := at.value] else before
  }

  function ArchiveTime(steps: seq<Step>, ctx: Context, overrides: map<string, bool>): Option<int> {
    match FinalStep(JudgedSteps(steps))
    case None => None
    case Some(s) => Lookup(ReportedTimes(Order(steps), |Order(steps)|, ctx, overrides), s.code)
  }

  /** The process row a collection leaves, over the step rows it has just saved. */
  function SavedProcess(p: Process, ctx: Context, overrides: map<string, bool>, now: int,
                        steps: map<string, StepSnapshot>,
                        existing: Option<ProcessSnapshot>): ProcessSnapshot {
    Summary(p.code, TotalSteps(p.steps), Count(DoneIn(steps), p.steps), Count(FailedIn(steps), p.steps) > 0,
            ArchiveTime(p.steps, ctx, overrides), now, existing)
  }

  /** The row stored for these counts; `archived` is the time the last judged step reported. */
  function Summary(code: string, total: int, done: int, hasError: bool, archived: Option<int>, now: int,
                   existing: Option<ProcessSnapshot>)
    : ProcessSnapshot
  {
    var status := ProcessStatus(done, total, hasError);
    var at := if status != Completed then None else if archived.Some? then archived else Some(now);
    StoredProcess(code, existing, ProcessSnapshot(total, done, status, at, now), archived.None?)
  }

  lemma {:induction false} FinalStepIsGreatest(judged: seq<Step>)
    requires judged != []
    ensures FinalStep(judged).Some? && FinalStep(judged).value in judged
    ensures forall s :: s in judged ==> s.displayOrder <= FinalStep(judged).value.displayOrder
  {
    var front := judged[..|judged| - 1];
    assert judged == front + [judged[|judged| - 1]];
    if front != [] {
      FinalStepIsGreatest(front);
    }
  }

  lemma {:induction false} CountJudged(steps: seq<Step>)
    ensures |JudgedSteps(steps)| == TotalSteps(steps)
  {
    if steps != [] {
      var front := steps[..|steps| - 1];
      CountJudged(front);
      assert steps == front + [steps[|steps| - 1]];
      CountSplit(JudgedStep(), front, [steps[|steps| - 1]]);
    }
  }

  lemma CountOneMore(p: Step -> bool, q: Step -> bool, order: seq<Step>, n: nat)
    requires n < |order|
    requires forall i :: 0 <= i < n ==> p(order[i]) == q(order[i])
    ensures Count(q, order[..n + 1]) == Count(p, order[..n]) + (if q(order[n]) then 1 else 0)
  {
    assert order[..n + 1] == order[..n] + [order[n]];
    CountSplit(q, order[..n], [order[n]]);
    CountAgrees(p, q, order[..n]);
  }

  lemma NothingSaved(order: seq<Step>, ctx: Context, overrides: map<string, bool>, now: int,
                     rows: map<string, StepSnapshot>)
    ensures Pass(order, 0, ctx, overrides) == map[] && ReportedTimes(order, 0, ctx, overrides) == map[]
    ensures SavedSteps(order, 0, ctx, overrides, now, rows) == rows
    ensures Count(DoneIn(rows), order[..0]) == 0 && Count(FailedIn(rows), order[..0]) == 0
  {
  }

  lemma OneMoreSaved(order: seq<Step>, n: nat, ctx: Context, overrides: map<string, bool>, now: int,
                     rows: map<string, StepSnapshot>)
    requires n < |order|
    ensures var s, statuses := order[n], Pass(order, n, ctx, overrides);
            var times, before := ReportedTimes(order, n, ctx, overrides),
                                 SavedSteps(order, n, ctx, overrides, now, rows);
            var auto := Evaluate(s, ctx, statuses);
            && Pass(order, n + 1, ctx, overrides) == statuses[s.code := Effective(s, ctx, overrides, statuses)]
            && ReportedTimes(order, n + 1, ctx, overrides) ==
               (if auto.completedAt.Some? then times[s.code := auto.completedAt.value] else times)
            && SavedSteps(order, n + 1, ctx, overrides, now, rows) ==
               before[s.code := StoredStep(Lookup(before, s.code), AutoSnapshot(s, ctx, overrides, statuses, now),
                                           auto.completedAt.None?)]
  {
    hide Evaluate, AutoSnapshot, StoredStep;
  }

  /** Writing the row of a new code adds that step to a count and moves no other. */
  lemma SavedOneMore(order: seq<Step>, n: nat, before: map<string, StepSnapshot>, after: map<string, StepSnapshot>,
                     row: StepSnapshot)
    requires UniqueCodes(order) && n < |order|
    requires after == before[order[n].code := row]
    ensures Count(DoneIn(after), order[..n + 1])
         == Count(DoneIn(before), order[..n])
            + (if Judged(order[n]) && row.effectiveStatus == Completed then 1 else 0)
    ensures Count(FailedIn(after), order[..n + 1])
         == Count(FailedIn(before), order[..n]) + (if row.autoStatus == Error then 1 else 0)
  {
    assert forall i :: 0 <= i < n ==> order[i].code != order[n].code;
    CountOneMore(DoneIn(before), DoneIn(after), order, n);
    CountOneMore(FailedIn(before), FailedIn(after), order, n);
  }

  /** A step row of a collection: overridden or not, and counting as completed if it is. */
  predicate RowOf(s: Step, overrides: map<string, bool>, now: int, row: StepSnapshot) {
    && (row.manual <==> s.evaluatorKey != "display_only" && s.code in overrides && overrides[s.code])
    && (row.effectiveStatus == if row.manual then Completed else row.autoStatus)
    && (row.autoStatus != Completed ==> row.autoCompletedAt == None)
    && row.evaluatedAt == now
  }

  /** The step rows of a process show one collection's statuses. */
  ghost predicate ShowsStatuses(p: Process, ctx: Context, overrides: map<string, bool>, now: int,
                                rows: map<string, StepSnapshot>) {
    forall s :: s in p.steps ==>
                  && s.code in Statuses(p.steps, ctx, overrides) && s.code in rows
                  && rows[s.code].effectiveStatus == Statuses(p.steps, ctx, overrides)[s.code]
                  && RowOf(s, overrides, now, rows[s.code])
  }

  /** The evaluator of some step of the process failed. */
  ghost predicate SomeFailed(p: Process, rows: map<string, StepSnapshot>) {
    exists s :: s in p.steps && s.code in rows && rows[s.code].autoStatus == Error
  }

  /** A process row of a collection that is not completed tells failed evaluators from waiting steps. */
  ghost predicate TellsFailures(p: Process, rows: map<string, StepSnapshot>, now: int, row: ProcessSnapshot) {
    && (row.status == Error <==> !(row.total > 0 && row.completed == row.total) && SomeFailed(p, rows))
    && (row.status == Error || row.status == Completed || row.status == Incomplete)
    && row.evaluatedAt == now
  }

  /** Failed evaluations over all processes. */
  function FailedSteps(config: seq<Process>, rows: map<string, StepSnapshot>): nat {
    if config == [] then 0
    else FailedSteps(config[..|config| - 1], rows) + Count(FailedIn(rows), config[|config| - 1].steps)
  }

  lemma {:induction false} SameFailedSteps(config: seq<Process>, a: map<string, StepSnapshot>,
                                           b: map<string, StepSnapshot>)
    requires forall i :: 0 <= i < |config| ==> SameOnSteps(config[i].steps, a, b)
    ensures FailedSteps(config, a) == FailedSteps(config, b)
  {
    if config != [] {
      SameFailedSteps(config[..|config| - 1], a, b);
      SameRowsSameCount(config[|config| - 1].steps, a, b);
    }
  }

  ghost predicate SameOnSteps(xs: seq<Step>, a: map<string, StepSnapshot>, b: map<string, StepSnapshot>) {
    forall s :: s in xs ==> Lookup(a, s.code) == Lookup(b, s.code)
  }

  lemma SameRowsSameCount(xs: seq<Step>, a: map<string, StepSnapshot>, b: map<string, StepSnapshot>)
    requires SameOnSteps(xs, a, b)
    ensures Count(DoneIn(a), xs) == Count(DoneIn(b), xs)
    ensures Count(FailedIn(a), xs) == Count(FailedIn(b), xs)
  {
    forall s | s in xs
      ensures DoneIn(a)(s) == DoneIn(b)(s)
      ensures FailedIn(a)(s) == FailedIn(b)(s)
    {
      assert Lookup(a, s.code) == Lookup(b, s.code);
    }
    CountAgrees(DoneIn(a), DoneIn(b), xs);
    CountAgrees(FailedIn(a), FailedIn(b), xs);
  }

  lemma CollectedRows(p: Process, ctx: Context, overrides: map<string, bool>, now: int,
                      before: map<string, StepSnapshot>,
                      after: map<string, StepSnapshot>)
    requires after == SavedSteps(Order(p.steps), |Order(p.steps)|, ctx, overrides, now, before)
    requires UniqueCodes(p.steps)
    ensures ShowsStatuses(p, ctx, overrides, now, after)
    ensures forall code :: code !in Codes(p.steps) ==> Lookup(after, code) == Lookup(before, code)
  {
    var order := Order(p.steps);
    SameCodes(order, p.steps);
    PassKeys(order, |order|, ctx, overrides);
    assert order[..|order|] == order;
    forall code
      ensures code in Codes(p.steps)
              ==> code in after && after[code].effectiveStatus == Statuses(p.steps, ctx, overrides)[code]
      ensures code !in Codes(p.steps) ==> Lookup(after, code) == Lookup(before, code)
    {
      SavedStatuses(order, |order|, ctx, overrides, now, before, code);
    }
    RowsOfSteps(p.steps, ctx, overrides, now, before, after);
    hide Order, SavedSteps, RowOf;
  }

  lemma RowsOfSteps(xs: seq<Step>, ctx: Context, overrides: map<string, bool>, now: int,
                    before: map<string, StepSnapshot>, after: map<string, StepSnapshot>)
    requires UniqueCodes(xs) && after == SavedSteps(Order(xs), |Order(xs)|, ctx, overrides, now, before)
    ensures forall s :: s in xs ==> s.code in after && RowOf(s, overrides, now, after[s.code])
  {
    var order := Order(xs);
    OrderHasUniqueCodes(xs);
    OrderIsPermutation(xs);
    SameMembers(order, xs);
    hide Order, SavedSteps, RowOf, Pass;
    forall s | s in xs
      ensures s.code in after && RowOf(s, overrides, now, after[s.code])
    {
      var k :| 0 <= k < |order| && order[k] == s;
      SavedRow(order, |order|, k, ctx, overrides, now, before);
      StoredRowIs(s, ctx, overrides, Pass(order, k, ctx, overrides), now, Lookup(before, s.code));
    }
  }

  /** The row a save leaves: the automatic verdict, the override, and the time of the verdict or of its streak. */
  lemma StoredRowIs(s: Step, ctx: Context, overrides: map<string, bool>, statuses: map<string, Status>, now: int,
                    existing: Option<StepSnapshot>)
    ensures var auto := Evaluate(s, ctx, statuses);
            var row := StoredStep(existing, AutoSnapshot(s, ctx, overrides, statuses, now), auto.completedAt.None?);
            && RowOf(s, overrides, now, row) && row.autoStatus == auto.status
            && (row.autoStatus == Completed ==>
                  row.autoCompletedAt ==
                  if auto.completedAt.Some? then auto.completedAt
                  else if existing.Some? && existing.value.autoStatus == Completed
                  then existing.value.autoCompletedAt else Some(now))
  {
    hide Evaluate;
  }

  lemma CountLastProcess(config: seq<Process>, i: nat, before: map<string, ProcessSnapshot>,
                         after: map<string, ProcessSnapshot>)
    requires ValidConfiguration(config) && i < |config|
    requires forall code :: code != config[i].code ==> Lookup(before, code) == Lookup(after, code)
    ensures CompletedProcesses(config[..i + 1], after) ==
            CompletedProcesses(config[..i], before)
            + (if config[i].code in after && after[config[i].code].status == Completed then 1 else 0)
  {
    assert config[..i + 1][..i] == config[..i];
    forall k | 0 <= k < i
      ensures config[k].code in before && before[config[k].code].status == Completed
         <==> config[k].code in after && after[config[k].code].status == Completed
    {
      assert Lookup(before, config[k].code) == Lookup(after, config[k].code);
    }
    SameProcessCount(config[..i], before, after);
  }

  /** Process p was collected: its rows show the pass, and its own row recounts them. */
  ghost predicate Collected(p: Process, now: int, today: int, answers: map<string, Answer>,
                            schedules: map<string, Option<int>>, overrides: map<string, bool>,
                            steps: map<string, StepSnapshot>, processes: map<string, ProcessSnapshot>) {
    && p.code in schedules && p.code in processes
    && ProcessAgrees(p, steps, processes[p.code])
    && TellsFailures(p, steps, now, processes[p.code])
    && ShowsStatuses(p, Context(today, schedules[p.code], answers), overrides, now, steps)
  }

  lemma SavedProcessAgrees(p: Process, ctx: Context, overrides: map<string, bool>, now: int,
                           steps: map<string, StepSnapshot>, existing: Option<ProcessSnapshot>)
    ensures ProcessAgrees(p, steps, SavedProcess(p, ctx, overrides, now, steps, existing))
    ensures TellsFailures(p, steps, now, SavedProcess(p, ctx, overrides, now, steps, existing))
  {
    CountPositive(FailedIn(steps), p.steps);
    hide ArchiveTime, Count;
  }

  /** The cards of a period: the supplement query's counts, their change, and the time; the other has no change. */
  predicate CardsShow(cards: map<CardKey, Card>, period: Period, counts: Supplement, now: int) {
    var tasks, forms := CardKey(period, "supplement_tasks"), CardKey(period, "report_forms");
    && tasks in cards && forms in cards
    && cards[tasks].total == counts.total && cards[tasks].completed == counts.completed
    && cards[tasks].incomplete == counts.incomplete && cards[tasks].evaluatedAt == now
    && cards[tasks].delta.Some? && cards[tasks].delta.value + counts.previousCompleted == counts.completed
    && cards[forms].delta == None && cards[forms].evaluatedAt == now
  }

  datatype CollectionResult = CollectionFailed | CollectionDone(completedProcesses: int, failedSteps: int)

  class MonthRows {
    const config: seq<Process>
    /** The whole steps table, disabled steps included. */
    const allSteps: map<string, Step>
    var steps: map<string, StepSnapshot>
    var processes: map<string, ProcessSnapshot>
    var cards: map<CardKey, Card>
    var overrides: map<string, bool>

    constructor (config: seq<Process>, allSteps: map<string, Step>)
      ensures this.config == config && this.allSteps == allSteps
      ensures steps == map[] && processes == map[] && cards == map[] && overrides == map[]
      ensures Agree()
    {
      this.config, this.allSteps := config, allSteps;
      steps, processes, cards, overrides := map[], map[], map[], map[];
    }

    /** Keys of the tables, and foreign keys between them. */
    ghost predicate Valid() {
      && ValidConfiguration(config)
      && CodesApart(config)
      && (forall c :: c in allSteps ==> allSteps[c].code == c)
      && (forall i, s :: 0 <= i < |config| && s in config[i].steps ==> s.code in allSteps && allSteps[s.code] == s)
    }

    ghost predicate Agree()
      reads this
    {
      ProcessesAgree(config, steps, processes) && CardsAgree(config, processes, cards)
    }

    method SaveStepSnapshot(code: string, snapshot: StepSnapshot, preserve: bool)
      modifies this`steps
      ensures steps == old(steps)[code := StoredStep(Lookup(old(steps), code), snapshot, preserve)]
    {
      steps := steps[code := StoredStep(Lookup(steps, code), snapshot, preserve)];
    }

    method SaveProcessSnapshot(code: string, snapshot: ProcessSnapshot, preserve: bool)
      modifies this`processes
      ensures processes == old(processes)[code := StoredProcess(code, Lookup(old(processes), code), snapshot, preserve)]
    {
      processes := processes[code := StoredProcess(code, Lookup(processes, code), snapshot, preserve)];
    }

    /** The steps of one process, judged and saved in dependency order. */
    method CollectSteps(p: Process, ctx: Context, now: int) returns (done: nat, failed: nat, times: map<string, int>)
      requires UniqueCodes(p.steps)
      modifies this`steps
      ensures steps == SavedSteps(Order(p.steps), |Order(p.steps)|, ctx, overrides, now, old(steps))
      ensures done == Count(DoneIn(steps), p.steps) && failed == Count(FailedIn(steps), p.steps)
      ensures times == ReportedTimes(Order(p.steps), |Order(p.steps)|, ctx, overrides)
    {
      hide Order, Pass, ReportedTimes, SavedSteps, Count;
      var order := StepsInDependencyOrder(p.steps);
      OrderHasUniqueCodes(p.steps);
      NothingSaved(order, ctx, overrides, now, steps);
      var statuses: map<string, Status> := map[];
      times, done, failed := map[], 0, 0;
      var n := 0;
      while n < |order|
        invariant 0 <= n <= |order|
        invariant statuses == Pass(order, n, ctx, overrides)
        invariant times == ReportedTimes(order, n, ctx, overrides)
        invariant steps == SavedSteps(order, n, ctx, overrides, now, old(steps))
        invariant done == Count(DoneIn(steps), order[..n]) && failed == Count(FailedIn(steps), order[..n])
      {
        OneMoreSaved(order, n, ctx, overrides, now, old(steps));
        var s := order[n];
        var auto := Evaluate(s, ctx, statuses);
        var manual := ManuallyDone(s, overrides);
        var effective := if manual then Completed else auto.status;
        if Judged(s) && effective == Completed {
          done := done + 1;
        }
        if auto.status == Error {
          failed := failed + 1;
        }
        if auto.completedAt.Some? {
          times := times[s.code := auto.completedAt.value];
        }
        ghost var before := steps;
        SaveStepSnapshot(s.code, AutoSnapshot(s, ctx, overrides, statuses, now), auto.completedAt.None?);
        SavedOneMore(order, n, before, steps, steps[s.code]);
        statuses := statuses[s.code := effective];
        n := n + 1;
      }
      assert order[..n] == order;
      OrderIsPermutation(p.steps);
      CountReordered(DoneIn(steps), order, p.steps);
      CountReordered(FailedIn(steps), order, p.steps);
    }

    /** One iteration over the configured processes. */
    method CollectProcess(p: Process, ctx: Context, now: int) returns (done: nat, failed: nat)
      requires UniqueCodes(p.steps)
      modifies this`steps, this`processes
      ensures steps == SavedSteps(Order(p.steps), |Order(p.steps)|, ctx, overrides, now, old(steps))
      ensures done == Count(DoneIn(steps), p.steps) && failed == Count(FailedIn(steps), p.steps)
      ensures processes == old(processes)[p.code := SavedProcess(p, ctx, overrides, now, steps,
                                                                 Lookup(old(processes), p.code))]
    {
      var times;
      done, failed, times := CollectSteps(p, ctx, now);
      var judged := JudgedSteps(p.steps);
      CountJudged(p.steps);
      var status := ProcessStatus(done, |judged|, failed > 0);
      var final := FinalStep(judged);
      var archived := if final.Some? then Lookup(times, final.value.code) else None;
      var at := if status != Completed then None else if archived.Some? then archived else Some(now);
      SaveProcessSnapshot(p.code, ProcessSnapshot(|judged|, done, status, at, now), archived.None?);
    }

    /** The next process, judged and saved; earlier ones stay as collected. */
    method CollectNext(i: nat, today: int, answers: map<string, Answer>, schedules: map<string, Option<int>>, now: int)
      returns (completed: nat, failed: nat)
      requires Valid() && i < |config| && config[i].code in schedules
      modifies this`steps, this`processes
      ensures Collected(config[i], now, today, answers, schedules, overrides, steps, processes)
      ensures forall k :: 0 <= k < i
                          && Collected(config[k], now, today, answers, schedules, overrides, old(steps), old(processes))
                          ==> Collected(config[k], now, today, answers, schedules, overrides, steps, processes)
      ensures CompletedProcesses(config[..i + 1], processes)
           == CompletedProcesses(config[..i], old(processes)) + completed
      ensures FailedSteps(config[..i + 1], steps) == FailedSteps(config[..i], old(steps)) + failed
      ensures ProcessesAgree(config, old(steps), old(processes)) ==> ProcessesAgree(config, steps, processes)
    {
      var p := config[i];
      var ctx := Context(today, schedules[p.code], answers);
      var done, errors := CollectProcess(p, ctx, now);
      CollectedRows(p, ctx, overrides, now, old(steps), steps);
      completed, failed := if processes[p.code].status == Completed then 1 else 0, errors;
      assert forall code :: code != p.code ==> Lookup(old(processes), code) == Lookup(processes, code);
      CountLastProcess(config, i, old(processes), processes);
      SavedProcessAgrees(p, ctx, overrides, now, steps, Lookup(old(processes), p.code));
      EarlierStayCollected(i, now, today, answers, schedules, old(steps), steps, old(processes), processes);
      EarlierFailuresStay(i, old(steps), steps);
      if ProcessesAgree(config, old(steps), old(processes)) {
        OthersStayInAgreement(i, old(steps), steps, old(processes), processes);
      }
    }

    /** Rows of one process were rewritten in agreement; the rows of the others are as they were. */
    lemma OthersStayInAgreement(i: nat, before: map<string, StepSnapshot>, after: map<string, StepSnapshot>,
                                processesBefore: map<string, ProcessSnapshot>,
                                processesAfter: map<string, ProcessSnapshot>)
      requires Valid() && i < |config|
      requires forall code :: code !in Codes(config[i].steps) ==> Lookup(after, code) == Lookup(before, code)
      requires forall code :: code != config[i].code ==> Lookup(processesBefore, code) == Lookup(processesAfter, code)
      requires config[i].code in processesAfter && ProcessAgrees(config[i], after, processesAfter[config[i].code])
      requires ProcessesAgree(config, before, processesBefore)
      ensures ProcessesAgree(config, after, processesAfter)
    {
      forall k | 0 <= k < |config| && config[k].code in processesAfter
        ensures ProcessAgrees(config[k], after, processesAfter[config[k].code])
      {
        if k != i {
          assert config[k].code != config[i].code;
          assert Lookup(processesBefore, config[k].code) == Lookup(processesAfter, config[k].code);
          SameRowsSameCount(config[k].steps, before, after);
        }
      }
    }

    lemma AllCollectedAgree(now: int, today: int, answers: map<string, Answer>, schedules: map<string, Option<int>>)
      requires forall i :: 0 <= i < |config|
                           ==> Collected(config[i], now, today, answers, schedules, overrides, steps, processes)
      ensures ProcessesAgree(config, steps, processes)
    {
    }

    /** The steps of other processes are judged by their own rows. */
    lemma OthersKeepRows(i: nat, k: nat, before: map<string, StepSnapshot>, after: map<string, StepSnapshot>)
      requires Valid() && i < |config| && k < |config| && k != i
      requires forall code :: code !in Codes(config[i].steps) ==> Lookup(after, code) == Lookup(before, code)
      ensures SameOnSteps(config[k].steps, before, after)
    {
    }

    lemma EarlierFailuresStay(i: nat, before: map<string, StepSnapshot>, after: map<string, StepSnapshot>)
      requires Valid() && i < |config|
      requires forall code :: code !in Codes(config[i].steps) ==> Lookup(after, code) == Lookup(before, code)
      ensures FailedSteps(config[..i + 1], after)
           == FailedSteps(config[..i], before) + Count(FailedIn(after), config[i].steps)
    {
      assert config[..i + 1][..i] == config[..i];
      forall k | 0 <= k < i
        ensures SameOnSteps(config[..i][k].steps, before, after)
      {
        OthersKeepRows(i, k, before, after);
      }
      SameFailedSteps(config[..i], before, after);
    }

    lemma EarlierStayCollected(i: nat, now: int, today: int, answers: map<string, Answer>,
                               schedules: map<string, Option<int>>,
                               before: map<string, StepSnapshot>, after: map<string, StepSnapshot>,
                               processesBefore: map<string, ProcessSnapshot>,
                               processesAfter: map<string, ProcessSnapshot>)
      requires Valid() && i < |config|
      requires forall code :: code !in Codes(config[i].steps) ==> Lookup(after, code) == Lookup(before, code)
      requires forall code :: code != config[i].code ==> Lookup(processesBefore, code) == Lookup(processesAfter, code)
      ensures forall k :: 0 <= k < i
                          && Collected(config[k], now, today, answers, schedules, overrides, before, processesBefore)
                          ==> Collected(config[k], now, today, answers, schedules, overrides, after, processesAfter)
    {
      forall k | 0 <= k < i && Collected(config[k], now, today, answers, schedules, overrides, before, processesBefore)
        ensures Collected(config[k], now, today, answers, schedules, overrides, after, processesAfter)
      {
        SameRowsSameCount(config[k].steps, before, after);
        assert config[k].code != config[i].code;
        assert Lookup(processesBefore, config[k].code) == Lookup(processesAfter, config[k].code);
      }
    }

    /** The cards of every period; a period whose supplement query raises ends the run. */
    method SaveCards(completed: int, supplements: map<Period, Supplement>, now: int) returns (ok: bool)
      requires completed == CompletedProcesses(config, processes)
      modifies this`cards
      ensures ok <==> forall period: Period :: period in supplements
      ensures ok ==> forall period: Period ::
                  CardKey(period, REPORT_FORMS) in cards
                  && CardAgrees(config, processes, cards[CardKey(period, REPORT_FORMS)])
                  && CardsShow(cards, period, supplements[period], now)
    {
      var j := 0;
      while j < |PERIODS|
        invariant 0 <= j <= |PERIODS|
        invariant forall period :: period in PERIODS[..j] ==> period in supplements
        invariant forall period :: period in PERIODS[..j] ==>
                                     (CardKey(period, REPORT_FORMS) in cards
                                      && CardAgrees(config, processes, cards[CardKey(period, REPORT_FORMS)])
                                      && CardsShow(cards, period, supplements[period], now))
      {
        var period := PERIODS[j];
        if period !in supplements {
          return false;
        }
        var counts := supplements[period];
        cards := cards[CardKey(period, SUPPLEMENT_TASKS) :=
        Card(counts.total, counts.completed, counts.incomplete, Some(counts.completed - counts.previousCompleted),
             now)];
        cards := cards[CardKey(period, REPORT_FORMS) := Card(|config|, completed, |config| - completed, None, now)];
        assert PERIODS[..j + 1] == PERIODS[..j] + [period];
        j := j + 1;
      }
      assert PERIODS[..j] == PERIODS;
      EveryPeriod();
      ok := true;
    }

    /**
      `collect_once` once its lock is held, up to the card snapshots. A process without an
      entry in `schedules` is one whose schedule cannot be read, and a period without an
      entry in `supplements` one whose query raises: either ends the run as failed.
     */
    method CollectOnce(now: int, today: int, answers: map<string, Answer>, schedules: map<string, Option<int>>,
                       supplements: map<Period, Supplement>)
      returns (r: CollectionResult)
      requires Valid()
      modifies this`steps, this`processes, this`cards
      ensures r.CollectionDone? <==>
              (forall i :: 0 <= i < |config| ==> config[i].code in schedules)
              && (forall period: Period :: period in supplements)
      ensures r.CollectionDone? ==>
                && Agree()
                && (forall i :: 0 <= i < |config|
                                ==> Collected(config[i], now, today, answers, schedules, overrides, steps, processes))
                && (forall period: Period :: CardKey(period, REPORT_FORMS) in cards)
                && r.completedProcesses == CompletedProcesses(config, processes)
                && r.failedSteps == FailedSteps(config, steps)
                && (forall period: Period :: CardsShow(cards, period, supplements[period], now))
      // a failed run, too, leaves each process row a recount of its step rows; only the cards may be behind
      ensures ProcessesAgree(config, old(steps), old(processes)) ==> ProcessesAgree(config, steps, processes)
    {
      hide ProcessesAgree, Collected, CompletedProcesses, CardAgrees;
      var completed, failed, i := 0, 0, 0;
      assert config[..0] == [];
      NoneCompleted(processes);
      while i < |config|
        invariant 0 <= i <= |config|
        invariant ProcessesAgree(config, old(steps), old(processes)) ==> ProcessesAgree(config, steps, processes)
        invariant forall k :: 0 <= k < i ==> config[k].code in schedules
        invariant forall k :: 0 <= k < i
                              ==> Collected(config[k], now, today, answers, schedules, overrides, steps, processes)
        invariant completed == CompletedProcesses(config[..i], processes) && failed == FailedSteps(config[..i], steps)
      {
        if config[i].code !in schedules {
          return CollectionFailed;
        }
        var one, errors := CollectNext(i, today, answers, schedules, now);
        completed, failed := completed + one, failed + errors;
        i := i + 1;
      }
      assert config[..i] == config;
      var ok := SaveCards(completed, supplements, now);
      if !ok {
        return CollectionFailed;
      }
      AllCollectedAgree(now, today, answers, schedules);
      r := CollectionDone(completed, failed);
    }

    /** The report-forms card of every period, recounted from the stored process rows. */
    method SaveReportFormsCards(now: int)
      modifies this`cards
      ensures forall period: Period :: CardKey(period, REPORT_FORMS) in cards
                                       && CardAgrees(config, processes, cards[CardKey(period, REPORT_FORMS)])
                                       && cards[CardKey(period, REPORT_FORMS)].evaluatedAt == now
      ensures forall period: Period :: Lookup(cards, CardKey(period, SUPPLEMENT_TASKS))
                                       == Lookup(old(cards), CardKey(period, SUPPLEMENT_TASKS))
    {
      var completed, i := 0, 0;
      while i < |config|
        invariant 0 <= i <= |config|
        invariant completed == CompletedProcesses(config[..i], processes)
      {
        if config[i].code in processes && processes[config[i].code].status == Completed {
          completed := completed + 1;
        }
        assert config[..i + 1][..i] == config[..i];
        i := i + 1;
      }
      assert config[..i] == config;
      var j := 0;
      while j < |PERIODS|
        invariant 0 <= j <= |PERIODS|
        invariant forall period :: period in PERIODS[..j] ==>
                                     (CardKey(period, REPORT_FORMS) in cards
                                      && CardAgrees(config, processes, cards[CardKey(period, REPORT_FORMS)])
                                      && cards[CardKey(period, REPORT_FORMS)].evaluatedAt == now)
        invariant forall period: Period :: Lookup(cards, CardKey(period, SUPPLEMENT_TASKS))
                                           == Lookup(old(cards), CardKey(period, SUPPLEMENT_TASKS))
      {
        cards := cards[CardKey(PERIODS[j], REPORT_FORMS) := Card(|config|, completed, |config| - completed, None, now)];
        assert PERIODS[..j + 1] == PERIODS[..j] + [PERIODS[j]];
        j := j + 1;
      }
      assert PERIODS[..j] == PERIODS;
      EveryPeriod();
    }

    method FindProcess(code: string) returns (i: int)
      ensures -1 <= i < |config|
      ensures i >= 0 ==> config[i].code == code
      ensures i < 0 ==> forall k :: 0 <= k < |config| ==> config[k].code != code
    {
      i := 0;
      while i < |config|
        invariant 0 <= i <= |config|
        invariant forall k :: 0 <= k < i ==> config[k].code != code
      {
        if config[i].code == code {
          return;
        }
        i := i + 1;
      }
      i := -1;
    }

    /** The changed step's row follows its override. */
    method SaveManualRow(code: string, now: int)
      modifies this`steps
      ensures steps == old(steps)[code := ManualRow(Lookup(old(steps), code), code in overrides && overrides[code],
                                                    now)]
    {
      var existing := if code in steps then steps[code] else StepSnapshot(Incomplete, Incomplete, false, None, now);
      var manual := code in overrides && overrides[code];
      ManualRowIsStored(Lookup(steps, code), manual, now);
      SaveStepSnapshot(code, existing.(effectiveStatus := if manual then Completed else existing.autoStatus,
                       manual := manual, evaluatedAt := now), true);
    }

    /** A process row recounted from the stored step rows. */
    method RecountProcess(p: Process, now: int)
      modifies this`processes
      ensures p.code in processes && ProcessAgrees(p, steps, processes[p.code])
      ensures RecountedRow(p.code, Lookup(old(processes), p.code), processes[p.code], now)
      ensures forall c :: c != p.code ==> Lookup(processes, c) == Lookup(old(processes), c)
    {
      var done := Count(DoneIn(steps), p.steps);
      var total := TotalSteps(p.steps);
      var status := if total > 0 && done == total then Completed else Incomplete;
      RecountAgrees(p, steps, Lookup(processes, p.code), now);
      SaveProcessSnapshot(p.code,
                          ProcessSnapshot(total, done, status, if status == Completed then Some(now) else None, now),
                          true);
    }

    /** `_recalculate_manual_process`. No other step is judged again. */
    method Recalculate(code: string, i: nat, now: int)
      requires Valid() && ProcessesAgree(config, steps, processes)
      requires i < |config| && code in allSteps && allSteps[code].processCode == config[i].code
      modifies this`steps, this`processes, this`cards
      ensures Agree()
      ensures steps == old(steps)[code := ManualRow(Lookup(old(steps), code), code in overrides && overrides[code],
                                                    now)]
      ensures forall c :: c != config[i].code ==> Lookup(processes, c) == Lookup(old(processes), c)
      ensures config[i].code in processes
      ensures RecountedRow(config[i].code, Lookup(old(processes), config[i].code), processes[config[i].code], now)
      ensures forall period: Period :: CardKey(period, REPORT_FORMS) in cards
    {
      hide RecountedRow;
      SaveManualRow(code, now);
      RecountProcess(config[i], now);
      OtherProcessesKeep(i, code, old(steps), steps, old(processes), processes);
      SaveReportFormsCards(now);
    }

    /** `set_manual_state`. */
    method SetManualState(code: string, action: string, monthIsCurrent: bool, now: int) returns (r: Result<(), string>)
      requires Valid() && ProcessesAgree(config, steps, processes)
      modifies this
      ensures ProcessesAgree(config, steps, processes) && (r.Success? ==> Agree())
      ensures r.Failure? ==> steps == old(steps) && processes == old(processes) && cards == old(cards)
                             && overrides == old(overrides)
      ensures r.Success? <==> monthIsCurrent && MayBeManual(code)
                              && (action == "manual-complete" || action == "manual-cancel")
      ensures r.Success? ==>
                && overrides == (if action == "manual-complete"
                                 then old(overrides)[code := true]
                                 else old(overrides) - {code})
                && steps == old(steps)[code := ManualRow(Lookup(old(steps), code), action == "manual-complete", now)]
                && (forall c :: c != allSteps[code].processCode ==> Lookup(processes, c) == Lookup(old(processes), c))
                && allSteps[code].processCode in processes
                && RecountedRow(allSteps[code].processCode, Lookup(old(processes), allSteps[code].processCode),
                                processes[allSteps[code].processCode], now)
    {
      hide RecountedRow;
      if !monthIsCurrent {
        return Failure("only the current month can be maintained");
      }
      if code !in allSteps {
        return Failure("step unknown or not allowed");
      }
      var step := allSteps[code];
      var i := FindProcess(step.processCode);
      if i < 0 || !config[i].allowManual || !step.manualCompletionAllowed {
        return Failure("step unknown or not allowed");
      }
      if action == "manual-complete" {
        overrides := overrides[code := true];
      } else if action == "manual-cancel" {
        overrides := overrides - {code};
      } else {
        return Failure("unknown action");
      }
      Recalculate(code, i, now);
      r := Success(());
    }

    ghost predicate MayBeManual(code: string) {
      && code in allSteps && allSteps[code].manualCompletionAllowed
      && exists i :: 0 <= i < |config| && config[i].code == allSteps[code].processCode && config[i].allowManual
    }

    /** The changed code belongs to no step of another process. */
    lemma OtherProcessesKeep(i: nat, code: string, before: map<string, StepSnapshot>, after: map<string, StepSnapshot>,
                             processesBefore: map<string, ProcessSnapshot>,
                             processesAfter: map<string, ProcessSnapshot>)
      requires Valid() && i < |config| && code in allSteps && allSteps[code].processCode == config[i].code
      requires forall c :: c != code ==> Lookup(after, c) == Lookup(before, c)
      requires forall c :: c != config[i].code ==> Lookup(processesBefore, c) == Lookup(processesAfter, c)
      requires ProcessesAgree(config, before, processesBefore)
      requires config[i].code in processesAfter && ProcessAgrees(config[i], after, processesAfter[config[i].code])
      ensures ProcessesAgree(config, after, processesAfter)
    {
      forall k | 0 <= k < |config| && config[k].code in processesAfter
        ensures ProcessAgrees(config[k], after, processesAfter[config[k].code])
      {
        if k != i {
          assert config[k].code != config[i].code;
          assert Lookup(processesBefore, config[k].code) == Lookup(processesAfter, config[k].code);
          forall s | s in config[k].steps
            ensures Lookup(before, s.code) == Lookup(after, s.code)
          {
            assert s.processCode == config[k].code && allSteps[s.code] == s;
          }
          SameRowsSameCount(config[k].steps, before, after);
        }
      }
    }
  }

  lemma ManualRowIsStored(existing: Option<StepSnapshot>, manual: bool, now: int)
    ensures var row := if existing.Some?
                       then existing.value
                       else StepSnapshot(Incomplete, Incomplete, false, None, now);
            StoredStep(existing, row.(effectiveStatus := if manual then Completed else row.autoStatus,
                       manual := manual, evaluatedAt := now), true)
            == ManualRow(existing, manual, now)
  {
  }

  /** A recount never fails, and keeps the time of a process that was completed already. */
  predicate RecountedRow(code: string, existing: Option<ProcessSnapshot>, row: ProcessSnapshot, now: int) {
    && (row.status == Completed || row.status == Incomplete) && row.evaluatedAt == now
    && (code != "pbc_central" && row.status != Completed ==> row.completedAt == None)
    && (code != "pbc_central" && row.status == Completed ==>
          row.completedAt == if existing.Some? && existing.value.status == Completed then existing.value.completedAt
          else Some(now))
  }

  lemma RecountAgrees(p: Process, steps: map<string, StepSnapshot>, existing: Option<ProcessSnapshot>, now: int)
    ensures var done, total := Count(DoneIn(steps), p.steps), TotalSteps(p.steps);
            var status := if total > 0 && done == total then Completed else Incomplete;
            var row := StoredProcess(p.code, existing,
                                     ProcessSnapshot(total, done, status,
                                                     if status == Completed then Some(now) else None, now), true);
            ProcessAgrees(p, steps, row) && RecountedRow(p.code, existing, row, now)
  {
  }

  lemma EveryPeriod()
    ensures forall period: Period :: period in PERIODS
  {
    forall period: Period
      ensures period in PERIODS
    {
      match period {
        case Week => assert PERIODS[0] == period;
        case Month => assert PERIODS[1] == period;
        case Quarter => assert PERIODS[2] == period;
        case Year => assert PERIODS[3] == period;
      }
    }
  }

  // ----- a completed process

  /**
    A row in agreement says COMPLETED exactly when there are judged steps and every one of them is stored as
    completed.
  */
  lemma CompletedSaysAll(p: Process, steps: map<string, StepSnapshot>, row: ProcessSnapshot)
    requires ProcessAgrees(p, steps, row)
    ensures row.status == Completed
       <==> (exists s :: s in p.steps && Judged(s)) && forall s :: s in p.steps && Judged(s)
                                                                   ==> StoredDone(steps, s.code)
  {
    CountIsAll(DoneIn(steps), JudgedStep(), p.steps);
    CountIsAll(NoStep(), JudgedStep(), p.steps);
    NoneCounted(p.steps);
  }

  function NoStep(): Step -> bool { s => false }

  lemma {:induction false} NoneCounted(steps: seq<Step>)
    ensures Count(NoStep(), steps) == 0
  {
    if steps != [] {
      NoneCounted(steps[1..]);
    }
  }

  // ----- reordering the configured steps changes nothing that is stored

  lemma {:induction false} SavedRow(order: seq<Step>, n: nat, k: nat, ctx: Context, overrides: map<string, bool>,
                                    now: int,
                                    rows: map<string, StepSnapshot>)
    requires UniqueCodes(order) && k < n <= |order|
    ensures var s, statuses := order[k], Pass(order, k, ctx, overrides);
            Lookup(SavedSteps(order, n, ctx, overrides, now, rows), s.code)
            == Some(StoredStep(Lookup(rows, s.code), AutoSnapshot(s, ctx, overrides, statuses, now),
                               Evaluate(s, ctx, statuses).completedAt.None?))
    decreases n
  {
    hide Evaluate, Pass, AutoSnapshot, StoredStep;
    if k < n - 1 {
      SavedRow(order, n - 1, k, ctx, overrides, now, rows);
      assert order[k].code != order[n - 1].code;
    } else {
      NotSavedYet(order, k, ctx, overrides, now, rows, order[k].code);
    }
  }

  lemma {:induction false} NotSavedYet(order: seq<Step>, n: nat, ctx: Context, overrides: map<string, bool>, now: int,
                                       rows: map<string, StepSnapshot>, code: string)
    requires n <= |order| && forall i :: 0 <= i < n ==> order[i].code != code
    ensures Lookup(SavedSteps(order, n, ctx, overrides, now, rows), code) == Lookup(rows, code)
  {
    hide Evaluate, Pass, AutoSnapshot, StoredStep;
    if n > 0 {
      NotSavedYet(order, n - 1, ctx, overrides, now, rows, code);
    }
  }

  lemma {:induction false} ReportedTime(order: seq<Step>, n: nat, k: nat, ctx: Context, overrides: map<string, bool>)
    requires UniqueCodes(order) && k < n <= |order|
    ensures Lookup(ReportedTimes(order, n, ctx, overrides), order[k].code)
         == Evaluate(order[k], ctx, Pass(order, k, ctx, overrides)).completedAt
    decreases n
  {
    hide Evaluate, Pass;
    if k < n - 1 {
      ReportedTime(order, n - 1, k, ctx, overrides);
      assert order[k].code != order[n - 1].code;
    } else {
      NotReportedYet(order, k, ctx, overrides, order[k].code);
    }
  }

  lemma {:induction false} NotReportedYet(order: seq<Step>, n: nat, ctx: Context, overrides: map<string, bool>,
                                          code: string)
    requires n <= |order| && forall i :: 0 <= i < n ==> order[i].code != code
    ensures Lookup(ReportedTimes(order, n, ctx, overrides), code) == None
  {
    hide Evaluate, Pass;
    if n > 0 {
      NotReportedYet(order, n - 1, ctx, overrides, code);
    }
  }

  /** With acyclic dependencies a stored step row follows from the final statuses and the row before. */
  lemma StoredRow(steps: seq<Step>, ctx: Context, overrides: map<string, bool>, now: int,
                  rows: map<string, StepSnapshot>, s: Step)
    requires UniqueCodes(steps) && Acyclic(steps) && s in steps
    ensures var statuses := Statuses(steps, ctx, overrides);
            && Lookup(SavedSteps(Order(steps), |Order(steps)|, ctx, overrides, now, rows), s.code)
               == Some(StoredStep(Lookup(rows, s.code), AutoSnapshot(s, ctx, overrides, statuses, now),
                                  Evaluate(s, ctx, statuses).completedAt.None?))
            && Lookup(ReportedTimes(Order(steps), |Order(steps)|, ctx, overrides), s.code)
               == Evaluate(s, ctx, statuses).completedAt
  {
    hide Evaluate, StoredStep, SavedSteps, ReportedTimes, Acyclic;
    var order := Order(steps);
    TailEmptyIffAcyclic(steps);
    ReleasedOrTail(steps, s);
    OrderHasUniqueCodes(steps);
    assert order == Released(steps);
    var k :| 0 <= k < |order| && order[k] == s;
    SavedRow(order, |order|, k, ctx, overrides, now, rows);
    ReportedTime(order, |order|, k, ctx, overrides);
    ReleasedStatusIsSettled(steps, k, ctx, overrides);
  }

  /**
    With acyclic dependencies the step table after a collection does not depend on the order of the
    configured steps.
  */
  lemma ReorderKeepsStepRows(a: seq<Step>, b: seq<Step>, ctx: Context, overrides: map<string, bool>, now: int,
                             rows: map<string, StepSnapshot>)
    requires UniqueCodes(a) && Acyclic(a) && multiset(a) == multiset(b)
    ensures SavedSteps(Order(a), |Order(a)|, ctx, overrides, now, rows)
         == SavedSteps(Order(b), |Order(b)|, ctx, overrides, now, rows)
  {
    var afterA := SavedSteps(Order(a), |Order(a)|, ctx, overrides, now, rows);
    var afterB := SavedSteps(Order(b), |Order(b)|, ctx, overrides, now, rows);
    hide Evaluate, StoredStep, SavedSteps, AutoSnapshot, Statuses, Acyclic;
    ReorderKeepsStatuses(a, b, ctx, overrides);
    SameMembers(a, b);
    UniqueCodesByCount(a, b);
    AcyclicForBoth(a, b);
    SameCodes(Order(a), a);
    SameCodes(Order(b), b);
    forall code
      ensures Lookup(afterA, code) == Lookup(afterB, code)
    {
      if s :| s in a && s.code == code {
        StoredRow(a, ctx, overrides, now, rows, s);
        StoredRow(b, ctx, overrides, now, rows, s);
      } else {
        assert code !in Codes(Order(a)) && code !in Codes(Order(b));
        NotSavedYet(Order(a), |Order(a)|, ctx, overrides, now, rows, code);
        NotSavedYet(Order(b), |Order(b)|, ctx, overrides, now, rows, code);
      }
    }
    SameLookups(afterA, afterB);
  }

  lemma SameLookups<T>(a: map<string, T>, b: map<string, T>)
    requires forall code :: Lookup(a, code) == Lookup(b, code)
    ensures a == b
  {
    forall code
      ensures code in a <==> code in b
      ensures code in a ==> a[code] == b[code]
    {
      assert Lookup(a, code) == Lookup(b, code);
    }
  }

  /** No two judged steps share a display order, so the last one displayed is the same in any order. */
  ghost predicate DistinctOrders(steps: seq<Step>) {
    forall s, t :: s in steps && t in steps && Judged(s) && Judged(t) && s.displayOrder == t.displayOrder ==> s == t
  }

  lemma {:induction false} JudgedAre(steps: seq<Step>, s: Step)
    ensures s in JudgedSteps(steps) <==> s in steps && Judged(s)
  {
    if steps != [] {
      JudgedAre(steps[..|steps| - 1], s);
      assert steps == steps[..|steps| - 1] + [steps[|steps| - 1]];
    }
  }

  lemma SameFinalStep(a: seq<Step>, b: seq<Step>)
    requires (forall s :: s in a <==> s in b) && DistinctOrders(a)
    ensures FinalStep(JudgedSteps(a)) == FinalStep(JudgedSteps(b))
  {
    forall s
      ensures s in JudgedSteps(a) <==> s in a && Judged(s)
      ensures s in JudgedSteps(b) <==> s in a && Judged(s)
    {
      JudgedAre(a, s);
      JudgedAre(b, s);
    }
    assert JudgedSteps(a) != [] ==> JudgedSteps(a)[0] in JudgedSteps(b);
    assert JudgedSteps(b) != [] ==> JudgedSteps(b)[0] in JudgedSteps(a);
    if JudgedSteps(a) != [] {
      FinalStepIsGreatest(JudgedSteps(a));
      FinalStepIsGreatest(JudgedSteps(b));
    }
  }

  lemma SameButTime(code: string, total: int, done: int, hasError: bool, archived: Option<int>, other: Option<int>,
                    now: int,
                    existing: Option<ProcessSnapshot>)
    ensures Summary(code, total, done, hasError, archived, now, existing).(completedAt := None)
         == Summary(code, total, done, hasError, other, now, existing).(completedAt := None)
  {
  }

  /** Nor does the process row: its counts and status never, its time when the display orders are distinct. */
  lemma ReorderKeepsProcessRow(p: Process, b: seq<Step>, ctx: Context, overrides: map<string, bool>, now: int,
                               rows: map<string, StepSnapshot>, existing: Option<ProcessSnapshot>)
    requires UniqueCodes(p.steps) && Acyclic(p.steps) && multiset(p.steps) == multiset(b)
    ensures var after := SavedSteps(Order(p.steps), |Order(p.steps)|, ctx, overrides, now, rows);
            var row := SavedProcess(p, ctx, overrides, now, after, existing);
            var other := SavedProcess(p.(steps := b), ctx, overrides, now, after, existing);
            && row.(completedAt := None) == other.(completedAt := None)
            && (DistinctOrders(p.steps) ==> row == other)
  {
    var a := p.steps;
    var after := SavedSteps(Order(a), |Order(a)|, ctx, overrides, now, rows);
    hide SavedSteps, Acyclic, ArchiveTime, Count, Summary;
    CountReordered(JudgedStep(), a, b);
    CountReordered(DoneIn(after), a, b);
    CountReordered(FailedIn(after), a, b);
    SameButTime(p.code, TotalSteps(a), Count(DoneIn(after), a), Count(FailedIn(after), a) > 0,
                ArchiveTime(a, ctx, overrides), ArchiveTime(b, ctx, overrides), now, existing);
    if DistinctOrders(a) {
      SameArchive(a, b, ctx, overrides, now, rows);
    }
  }

  lemma SameArchive(a: seq<Step>, b: seq<Step>, ctx: Context, overrides: map<string, bool>, now: int,
                    rows: map<string, StepSnapshot>)
    requires UniqueCodes(a) && Acyclic(a) && multiset(a) == multiset(b) && DistinctOrders(a)
    ensures ArchiveTime(a, ctx, overrides) == ArchiveTime(b, ctx, overrides)
  {
    hide Evaluate, StoredStep, SavedSteps, AutoSnapshot, Statuses, Acyclic, FinalStep, JudgedSteps;
    ReorderKeepsStatuses(a, b, ctx, overrides);
    SameMembers(a, b);
    UniqueCodesByCount(a, b);
    AcyclicForBoth(a, b);
    SameFinalStep(a, b);
    if FinalStep(JudgedSteps(a)).Some? {
      var final := FinalStep(JudgedSteps(a)).value;
      FinalStepIsJudged(a);
      StoredRow(a, ctx, overrides, now, rows, final);
      StoredRow(b, ctx, overrides, now, rows, final);
    }
  }

  /** The stored row of a step, when dependencies are acyclic, from the final statuses and the row before. */
  lemma StepRowIs(xs: seq<Step>, ctx: Context, overrides: map<string, bool>, now: int, rows: map<string, StepSnapshot>,
                  s: Step)
    requires UniqueCodes(xs) && Acyclic(xs) && s in xs
    ensures var after := SavedSteps(Order(xs), |Order(xs)|, ctx, overrides, now, rows);
            var auto := Evaluate(s, ctx, Statuses(xs, ctx, overrides));
            && s.code in after && RowOf(s, overrides, now, after[s.code]) && after[s.code].autoStatus == auto.status
            && (auto.status == Completed ==>
                  after[s.code].autoCompletedAt ==
                  if auto.completedAt.Some? then auto.completedAt
                  else if s.code in rows && rows[s.code].autoStatus == Completed then rows[s.code].autoCompletedAt
                  else Some(now))
  {
    StoredRow(xs, ctx, overrides, now, rows, s);
    StoredRowIs(s, ctx, overrides, Statuses(xs, ctx, overrides), now, Lookup(rows, s.code));
    hide SavedSteps, Statuses, Evaluate, StoredStep, AutoSnapshot, RowOf, Acyclic;
  }

  /** The judged step displayed after all others. */
  ghost predicate IsLastJudged(xs: seq<Step>, last: Step) {
    && last in xs && Judged(last)
    && forall s :: s in xs && Judged(s) && s != last ==> s.displayOrder < last.displayOrder
  }

  /**
    The time stored for a process: the one its last judged step reports, else that of the streak the row is
    in, else the time of the collection.
   */
  lemma ProcessTimeIs(p: Process, last: Step, ctx: Context, overrides: map<string, bool>, now: int,
                      rows: map<string, StepSnapshot>, steps: map<string, StepSnapshot>,
                      existing: Option<ProcessSnapshot>)
    requires UniqueCodes(p.steps) && Acyclic(p.steps) && IsLastJudged(p.steps, last) && p.code != "pbc_central"
    ensures var row := SavedProcess(p, ctx, overrides, now, steps, existing);
            var reported := Evaluate(last, ctx, Statuses(p.steps, ctx, overrides)).completedAt;
            row.completedAt ==
            if row.status != Completed then None
            else if reported.Some? then reported
            else if existing.Some? && existing.value.status == Completed then existing.value.completedAt
            else Some(now)
  {
    StoredRow(p.steps, ctx, overrides, now, rows, last);
    JudgedAre(p.steps, last);
    FinalStepIsGreatest(JudgedSteps(p.steps));
    JudgedAre(p.steps, FinalStep(JudgedSteps(p.steps)).value);
    hide SavedSteps, Statuses, Evaluate, StoredStep, AutoSnapshot, Acyclic, JudgedSteps, FinalStep, Count,
      ReportedTimes;
  }

  lemma FinalStepIsJudged(steps: seq<Step>)
    requires FinalStep(JudgedSteps(steps)).Some?
    ensures FinalStep(JudgedSteps(steps)).value in steps
  {
    if JudgedSteps(steps) != [] {
      FinalStepIsGreatest(JudgedSteps(steps));
      JudgedAre(steps, FinalStep(JudgedSteps(steps)).value);
    }
  }
}

/**
  One evaluation pass over a report process: each step is judged by its evaluator and by
  the statuses recorded so far, and a manual override makes it count as completed.
 */
module StepEvaluation {
  import opened Wrappers
  import opened StepOrder

  datatype Status = Completed | Incomplete | DisplayOnly | Error

  datatype Judgement = Judgement(status: Status, completedAt: Option<int>)

  /** What the database answers for one step. A step without an entry raises an exception. */
  datatype Answer = Verdict(completed: bool, completedAt: Option<int>) | RowCount(count: int)

  /** Days are ordinals, moments are integers. */
  datatype Context = Context(today: int, scheduleDay: Option<int>, answers: map<string, Answer>)

  const DISPLAY_ONLY := "display_only"

  const QUERY_EVALUATORS: set<string> := {
    "all_rows_match_report_date", "amounts_equal", "no_blank_fields_and_no_ck", "no_ck_and_report_period",
    "no_pending_status", "minimum_time_in_current_month", "all_versions_present", "quarterly_rows_exist",
    "current_month_rows_in_all_sources", "version_present"
  }

  predicate Judged(s: Step) { s.evaluatorKey != DISPLAY_ONLY }

  predicate IsDone(statuses: map<string, Status>, code: string) {
    code in statuses && statuses[code] == Completed
  }

  function DependencyJudgement(s: Step, statuses: map<string, Status>): Judgement {
    if s.dependencies == [] then Judgement(Incomplete, None)
    else if forall d :: d in s.dependencies ==> IsDone(statuses, d) then Judgement(Completed, None)
    else Judgement(Incomplete, None)
  }

  function Evaluate(s: Step, ctx: Context, statuses: map<string, Status>): Judgement {
    if s.evaluatorKey == "default_completed" then
      Judgement(if s.defaultCompleted then Completed else Incomplete, None)
    else if s.evaluatorKey == "dependency_completed" then
      DependencyJudgement(s, statuses)
    else if s.evaluatorKey == "date_reached" then
      Judgement(if ctx.scheduleDay.Some? && ctx.today >= ctx.scheduleDay.value then Completed else Incomplete, None)
    else if s.evaluatorKey == DISPLAY_ONLY then
      Judgement(DisplayOnly, None)
    else if s.code !in ctx.answers then
      Judgement(Error, None)
    else if s.evaluatorKey == "month_rows_or_dependency" && ctx.answers[s.code].RowCount? then
      if ctx.answers[s.code].count > 0 then Judgement(Completed, None) else DependencyJudgement(s, statuses)
    else if s.evaluatorKey in QUERY_EVALUATORS && ctx.answers[s.code].Verdict? then
      if ctx.answers[s.code].completed
      then Judgement(Completed, ctx.answers[s.code].completedAt)
      else Judgement(Incomplete, None)
    else
      Judgement(Error, None)
  }

  predicate ManuallyDone(s: Step, overrides: map<string, bool>) {
    Judged(s) && s.code in overrides && overrides[s.code]
  }

  function Effective(s: Step, ctx: Context, overrides: map<string, bool>, statuses: map<string, Status>): Status {
    if ManuallyDone(s, overrides) then Completed else Evaluate(s, ctx, statuses).status
  }

  /** `dependency_statuses` after the first n steps of an order. */
  function Pass(order: seq<Step>, n: nat, ctx: Context, overrides: map<string, bool>): map<string, Status>
    requires n <= |order|
  {
    if n == 0 then map[]
    else
      var before := Pass(order, n - 1, ctx, overrides);
      before[order[n - 1].code := Effective(order[n - 1], ctx, overrides, before)]
  }

  /** The statuses one collection records for a process. */
  function Statuses(steps: seq<Step>, ctx: Context, overrides: map<string, bool>): map<string, Status> {
    Pass(Order(steps), |Order(steps)|, ctx, overrides)
  }

  // ----- an evaluator sees only its own dependencies

  ghost predicate SameOn(codes: seq<string>, a: map<string, Status>, b: map<string, Status>) {
    forall c :: c in codes ==> (IsDone(a, c) <==> IsDone(b, c))
  }

  lemma EvaluateReadsOnlyDependencies(s: Step, ctx: Context, a: map<string, Status>, b: map<string, Status>)
    requires SameOn(s.dependencies, a, b)
    ensures Evaluate(s, ctx, a) == Evaluate(s, ctx, b)
  {
    assert DependencyJudgement(s, a) == DependencyJudgement(s, b);
  }

  lemma {:induction false} PassKeys(order: seq<Step>, n: nat, ctx: Context, overrides: map<string, bool>)
    requires n <= |order|
    ensures Pass(order, n, ctx, overrides).Keys == Codes(order[..n])
  {
    if n > 0 {
      PassKeys(order, n - 1, ctx, overrides);
      assert order[..n] == order[..n - 1] + [order[n - 1]];
    }
  }

  /** Codes are unique, so a recorded status is never overwritten. */
  lemma {:induction false} PassKeeps(order: seq<Step>, k: nat, n: nat, ctx: Context, overrides: map<string, bool>,
                                     code: string)
    requires UniqueCodes(order) && k <= n <= |order|
    requires code in Codes(order[..k])
    ensures code in Pass(order, n, ctx, overrides) && code in Pass(order, k, ctx, overrides)
    ensures Pass(order, n, ctx, overrides)[code] == Pass(order, k, ctx, overrides)[code]
    decreases n
  {
    PassKeys(order, k, ctx, overrides);
    if k < n {
      PassKeeps(order, k, n - 1, ctx, overrides, code);
      var s :| s in order[..k] && s.code == code;
      var i :| 0 <= i < k && order[i] == s;
      assert order[n - 1].code != code;
    }
  }

  /** A released step's dependencies look the same when it is judged as at the end. */
  lemma DependenciesAreSettled(steps: seq<Step>, k: nat, ctx: Context, overrides: map<string, bool>, d: string)
    requires UniqueCodes(steps) && k < |Released(steps)| && d in Order(steps)[k].dependencies
    ensures IsDone(Pass(Order(steps), k, ctx, overrides), d) <==> IsDone(Statuses(steps, ctx, overrides), d)
  {
    var order := Order(steps);
    OrderHasUniqueCodes(steps);
    PassKeys(order, k, ctx, overrides);
    PassKeys(order, |order|, ctx, overrides);
    assert order[..|order|] == order;
    SameCodes(order, steps);
    if d in Codes(steps) {
      DependenciesComeFirst(steps, k, d);
      PassKeeps(order, k, |order|, ctx, overrides, d);
    } else {
      PrefixCodes(order, k);
    }
  }

  /** Each released step's recorded status is what its evaluator says of the final statuses. */
  lemma ReleasedStatusIsSettled(steps: seq<Step>, k: nat, ctx: Context, overrides: map<string, bool>)
    requires UniqueCodes(steps) && k < |Released(steps)|
    ensures Order(steps)[k].code in Statuses(steps, ctx, overrides)
    ensures Statuses(steps, ctx, overrides)[Order(steps)[k].code]
         == Effective(Order(steps)[k], ctx, overrides, Statuses(steps, ctx, overrides))
    ensures Evaluate(Order(steps)[k], ctx, Pass(Order(steps), k, ctx, overrides))
         == Evaluate(Order(steps)[k], ctx, Statuses(steps, ctx, overrides))
  {
    var order := Order(steps);
    OrderHasUniqueCodes(steps);
    forall d | d in order[k].dependencies
      ensures IsDone(Pass(order, k, ctx, overrides), d) <==> IsDone(Statuses(steps, ctx, overrides), d)
    {
      DependenciesAreSettled(steps, k, ctx, overrides, d);
    }
    EvaluateReadsOnlyDependencies(order[k], ctx, Pass(order, k, ctx, overrides), Statuses(steps, ctx, overrides));
    RecordedForGood(order, k, ctx, overrides);
  }

  lemma RecordedForGood(order: seq<Step>, k: nat, ctx: Context, overrides: map<string, bool>)
    requires UniqueCodes(order) && k < |order|
    ensures order[k].code in Pass(order, |order|, ctx, overrides)
    ensures Pass(order, |order|, ctx, overrides)[order[k].code]
         == Effective(order[k], ctx, overrides, Pass(order, k, ctx, overrides))
  {
    assert order[..k + 1][k] == order[k];
    assert order[k] in order[..k + 1];
    PassKeeps(order, k + 1, |order|, ctx, overrides, order[k].code);
  }

  lemma PrefixCodes(order: seq<Step>, k: nat)
    requires k <= |order|
    ensures Codes(order[..k]) <= Codes(order)
  {
    assert forall s :: s in order[..k] ==> s in order;
  }

  // ----- reordering the configured steps

  lemma SameMembers(a: seq<Step>, b: seq<Step>)
    requires multiset(a) == multiset(b)
    ensures |a| == |b|
    ensures forall s :: s in a <==> s in b
  {
    assert |multiset(a)| == |a| && |multiset(b)| == |b|;
    assert forall s :: s in a <==> s in multiset(a);
    assert forall s :: s in b <==> s in multiset(b);
  }

  lemma SameCodes(order: seq<Step>, steps: seq<Step>)
    requires order == Order(steps)
    ensures Codes(order) == Codes(steps)
  {
    OrderIsPermutation(steps);
    SameMembers(order, steps);
  }

  /** Unique codes mean no step occurs twice, which a multiset can say. */
  lemma UniqueCodesByCount(a: seq<Step>, b: seq<Step>)
    requires UniqueCodes(a) && multiset(a) == multiset(b)
    ensures UniqueCodes(b)
  {
    forall i, j | 0 <= i < |b| && 0 <= j < |b| && b[i].code == b[j].code
      ensures i == j
    {
      SameMembers(a, b);
      assert b[i] in b && b[j] in b;
      var k :| 0 <= k < |a| && a[k] == b[i];
      var l :| 0 <= l < |a| && a[l] == b[j];
      if i != j {
        OnceOnly(a, k);
        TwiceCounted(b, if i < j then i else j, if i < j then j else i);
      }
    }
  }

  lemma OnceOnly(a: seq<Step>, k: nat)
    requires UniqueCodes(a) && k < |a|
    ensures multiset(a)[a[k]] == 1
  {
    assert a == a[..k] + [a[k]] + a[k + 1..];
    assert a[k] !in a[..k] && a[k] !in a[k + 1..];
  }

  lemma TwiceCounted(b: seq<Step>, i: nat, j: nat)
    requires i < j < |b| && b[i] == b[j]
    ensures multiset(b)[b[i]] >= 2
  {
    assert b == b[..j] + [b[j]] + b[j + 1..];
    assert b[i] in b[..j];
  }

  lemma OrderHasUniqueCodes(steps: seq<Step>)
    requires UniqueCodes(steps)
    ensures UniqueCodes(Order(steps))
  {
    OrderIsPermutation(steps);
    UniqueCodesByCount(steps, Order(steps));
  }

  lemma SameTailMembers(a: seq<Step>, b: seq<Step>)
    requires multiset(a) == multiset(b)
    ensures Members(Tail(a)) == Members(Tail(b))
  {
    SameMembers(a, b);
    TailWithin(a, b);
    TailWithin(b, a);
  }

  lemma TailWithin(a: seq<Step>, b: seq<Step>)
    requires forall s :: s in a <==> s in b
    ensures Members(Tail(a)) <= Members(Tail(b))
  {
    var stuck := Members(Tail(a));
    TailIsGreatest(a, {});
    assert Codes(a) == Codes(b);
    forall s | s in stuck
      ensures Needy(b, stuck, s)
    {
      assert Needy(a, stuck, s);
      var d :| d in s.dependencies && NeededCode(a, stuck, d);
      assert NeededCode(b, stuck, d);
    }
    TailIsGreatest(b, stuck);
  }

  lemma ReleasedOrTail(steps: seq<Step>, s: Step)
    requires UniqueCodes(steps)
    ensures s in Released(steps) <==> s in steps && s !in Tail(steps)
  {
    OrderIsPermutation(steps);
    SameMembers(Order(steps), steps);
    OrderHasUniqueCodes(steps);
    PartsDisjoint(Released(steps), Tail(steps));
  }

  lemma PartsDisjoint(a: seq<Step>, b: seq<Step>)
    requires UniqueCodes(a + b)
    ensures forall s :: s in a ==> s !in b
  {
    forall i, j | 0 <= i < |a| && 0 <= j < |b|
      ensures a[i] != b[j]
    {
      assert (a + b)[i] == a[i] && (a + b)[|a| + j] == b[j];
    }
  }

  /** A solution of "each step outside the tail has the status its evaluator gives it". */
  ghost predicate Solution(steps: seq<Step>, ctx: Context, overrides: map<string, bool>, m: map<string, Status>) {
    && m.Keys == Codes(steps)
    && forall s :: s in Released(steps) ==> s.code in m && m[s.code] == Effective(s, ctx, overrides, m)
  }

  lemma StatusesAreASolution(steps: seq<Step>, ctx: Context, overrides: map<string, bool>)
    requires UniqueCodes(steps)
    ensures Solution(steps, ctx, overrides, Statuses(steps, ctx, overrides))
  {
    var m := Statuses(steps, ctx, overrides);
    PassKeys(Order(steps), |Order(steps)|, ctx, overrides);
    assert Order(steps)[..|Order(steps)|] == Order(steps);
    SameCodes(Order(steps), steps);
    forall s | s in Released(steps)
      ensures s.code in m && m[s.code] == Effective(s, ctx, overrides, m)
    {
      var k :| 0 <= k < |Released(steps)| && Released(steps)[k] == s;
      ReleasedStatusIsSettled(steps, k, ctx, overrides);
    }
  }

  /** Any two solutions agree on every released step. */
  lemma {:induction false} SolutionsAgree(steps: seq<Step>, ctx: Context, overrides: map<string, bool>,
                                          a: map<string, Status>, b: map<string, Status>, k: nat)
    requires Solution(steps, ctx, overrides, a) && Solution(steps, ctx, overrides, b)
    requires k <= |Released(steps)|
    ensures forall i :: 0 <= i < k ==> a[Released(steps)[i].code] == b[Released(steps)[i].code]
  {
    hide Evaluate, Released;
    if k > 0 {
      SolutionsAgree(steps, ctx, overrides, a, b, k - 1);
      var s := Released(steps)[k - 1];
      assert Order(steps)[k - 1] == s;
      forall d | d in s.dependencies
        ensures IsDone(a, d) <==> IsDone(b, d)
      {
        if d in Codes(steps) {
          DependenciesComeFirst(steps, k - 1, d);
          var t :| t in Order(steps)[..k - 1] && t.code == d;
          var i :| 0 <= i < k - 1 && Order(steps)[i] == t;
          assert Released(steps)[i].code == d;
        }
      }
      EvaluateReadsOnlyDependencies(s, ctx, a, b);
    }
  }

  /** Dependencies are configured, and every one of them reads COMPLETED. */
  predicate AllCompleted(s: Step, m: map<string, Status>) {
    s.dependencies != [] && forall d <- s.dependencies :: d in m && m[d] == Completed
  }

  /** What an automatic evaluator needs to say COMPLETED, kind by kind. */
  ghost predicate Fulfilled(s: Step, ctx: Context, m: map<string, Status>) {
    || (s.evaluatorKey == "default_completed" && s.defaultCompleted)
    || (s.evaluatorKey == "dependency_completed" && AllCompleted(s, m))
    || (s.evaluatorKey == "date_reached" && ctx.scheduleDay.Some? && ctx.scheduleDay.value <= ctx.today)
    || (s.evaluatorKey == "month_rows_or_dependency" && s.code in ctx.answers && ctx.answers[s.code].RowCount?
        && (ctx.answers[s.code].count > 0 || AllCompleted(s, m)))
    || (s.evaluatorKey in QUERY_EVALUATORS && s.code in ctx.answers && ctx.answers[s.code].Verdict?
        && ctx.answers[s.code].completed)
  }

  /** A query raised, answered in another form than the evaluator reads, or the evaluator is unknown. */
  ghost predicate Broken(s: Step, ctx: Context) {
    && s.evaluatorKey !in {"default_completed", "dependency_completed", "date_reached", "display_only"}
    && (|| s.code !in ctx.answers
        || (s.evaluatorKey == "month_rows_or_dependency" && !ctx.answers[s.code].RowCount?)
        || (s.evaluatorKey in QUERY_EVALUATORS && !ctx.answers[s.code].Verdict?)
        || (s.evaluatorKey != "month_rows_or_dependency" && s.evaluatorKey !in QUERY_EVALUATORS))
  }

  lemma JudgementIs(s: Step, ctx: Context, m: map<string, Status>)
    ensures var auto := Evaluate(s, ctx, m);
            && (auto.status == Completed <==> Fulfilled(s, ctx, m))
            && (auto.status == Error <==> Broken(s, ctx))
            && (auto.status == DisplayOnly <==> s.evaluatorKey == "display_only")
            && (auto.completedAt.Some? ==>
                  auto.status == Completed && s.evaluatorKey in QUERY_EVALUATORS
                  && s.code in ctx.answers && ctx.answers[s.code].Verdict?)
            && (auto.status == Completed && s.evaluatorKey in QUERY_EVALUATORS ==>
                  auto.completedAt == ctx.answers[s.code].completedAt)
  {
  }

  /** The recorded status of a step outside the fallback tail, from the override, the answers and its dependencies. */
  lemma StatusIs(steps: seq<Step>, ctx: Context, overrides: map<string, bool>, s: Step)
    requires UniqueCodes(steps) && s in Released(steps)
    ensures var m := Statuses(steps, ctx, overrides);
            var manual := s.evaluatorKey != "display_only" && s.code in overrides && overrides[s.code];
            && s.code in m
            && (m[s.code] == Completed <==> manual || Fulfilled(s, ctx, m))
            && (m[s.code] == Error <==> !manual && Broken(s, ctx))
            && (m[s.code] == DisplayOnly <==> s.evaluatorKey == "display_only")
  {
    StatusesAreASolution(steps, ctx, overrides);
    JudgementIs(s, ctx, Statuses(steps, ctx, overrides));
    hide Evaluate, Statuses, Fulfilled, Broken, Released;
  }

  /** Reordering the configured steps changes no status outside the fallback tail. */
  lemma ReorderKeepsReleasedStatuses(steps: seq<Step>, reordered: seq<Step>, ctx: Context,
                                     overrides: map<string, bool>, s: Step)
    requires UniqueCodes(steps) && multiset(steps) == multiset(reordered)
    requires s in Released(steps)
    ensures s.code in Statuses(steps, ctx, overrides) && s.code in Statuses(reordered, ctx, overrides)
    ensures Statuses(steps, ctx, overrides)[s.code] == Statuses(reordered, ctx, overrides)[s.code]
  {
    var a, b := Statuses(steps, ctx, overrides), Statuses(reordered, ctx, overrides);
    UniqueCodesByCount(steps, reordered);
    SameMembers(steps, reordered);
    SameTailMembers(steps, reordered);
    StatusesAreASolution(steps, ctx, overrides);
    StatusesAreASolution(reordered, ctx, overrides);
    forall t | t in Released(steps)
      ensures t in Released(reordered)
    {
      ReleasedOrTail(steps, t);
      ReleasedOrTail(reordered, t);
      assert t in Tail(reordered) <==> t in Members(Tail(reordered));
    }
    assert Codes(steps) == Codes(reordered);
    assert Solution(steps, ctx, overrides, b);
    SolutionsAgree(steps, ctx, overrides, a, b, |Released(steps)|);
  }

  /** With acyclic dependencies the recorded statuses are the only solution of the equations. */
  lemma AcyclicStatusesAreUnique(steps: seq<Step>, ctx: Context, overrides: map<string, bool>, m: map<string, Status>)
    requires UniqueCodes(steps) && Acyclic(steps)
    ensures m == Statuses(steps, ctx, overrides)
       <==> m.Keys == Codes(steps)
            && forall s :: s in steps ==> s.code in m && m[s.code] == Effective(s, ctx, overrides, m)
  {
    hide Effective, Acyclic, UniqueCodes, Statuses, Released;
    AllReleased(steps);
    if m == Statuses(steps, ctx, overrides) {
      StatusesAreASolution(steps, ctx, overrides);
    } else if m.Keys == Codes(steps)
              && forall s :: s in steps ==> s.code in m && m[s.code] == Effective(s, ctx, overrides, m) {
      SolutionIsRecorded(steps, ctx, overrides, m);
    }
  }

  lemma AllReleased(steps: seq<Step>)
    requires UniqueCodes(steps) && Acyclic(steps)
    ensures forall s :: s in Released(steps) <==> s in steps
  {
    TailEmptyIffAcyclic(steps);
    forall s
      ensures s in Released(steps) <==> s in steps
    {
      ReleasedOrTail(steps, s);
    }
  }

  lemma SolutionIsRecorded(steps: seq<Step>, ctx: Context, overrides: map<string, bool>, m: map<string, Status>)
    requires UniqueCodes(steps) && Acyclic(steps) && m.Keys == Codes(steps)
    requires forall s :: s in steps ==> s.code in m && m[s.code] == Effective(s, ctx, overrides, m)
    ensures m == Statuses(steps, ctx, overrides)
  {
    var recorded := Statuses(steps, ctx, overrides);
    AllReleased(steps);
    StatusesAreASolution(steps, ctx, overrides);
    SolutionsAgree(steps, ctx, overrides, m, recorded, |Released(steps)|);
    hide Effective, Statuses, Acyclic, UniqueCodes, Released;
    forall c | c in m
      ensures m[c] == recorded[c]
    {
      var s :| s in steps && s.code == c;
      var i :| 0 <= i < |Released(steps)| && Released(steps)[i] == s;
    }
  }

  /** With acyclic dependencies, reordering the configured steps changes no status. */
  lemma ReorderKeepsStatuses(steps: seq<Step>, reordered: seq<Step>, ctx: Context, overrides: map<string, bool>)
    requires UniqueCodes(steps) && Acyclic(steps) && multiset(steps) == multiset(reordered)
    ensures Statuses(steps, ctx, overrides) == Statuses(reordered, ctx, overrides)
  {
    var other := Statuses(reordered, ctx, overrides);
    SameMembers(steps, reordered);
    UniqueCodesByCount(steps, reordered);
    AcyclicForBoth(steps, reordered);
    assert Codes(steps) == Codes(reordered);
    AcyclicStatusesAreUnique(reordered, ctx, overrides, other);
    AcyclicStatusesAreUnique(steps, ctx, overrides, other);
  }

  lemma AcyclicForBoth(steps: seq<Step>, reordered: seq<Step>)
    requires Acyclic(steps) && forall s :: s in steps <==> s in reordered
    ensures Acyclic(reordered)
  {
    if exists p :: Cycle(reordered, p) {
      var p :| Cycle(reordered, p);
      assert Cycle(steps, p);
    }
  }

  /** The acyclicity hypothesis is needed: in a cycle the given order decides. */
  lemma CyclicOrderMatters(a: Step, b: Step, ctx: Context)
    requires a == Step("a", "p", 1, "default_completed", true, false, ["b"])
    requires b == Step("b", "p", 2, "dependency_completed", false, false, ["a"])
    ensures multiset([a, b]) == multiset([b, a])
    ensures IsDone(Statuses([a, b], ctx, map[]), b.code)
    ensures !IsDone(Statuses([b, a], ctx, map[]), b.code)
  {
    assert b.code in a.dependencies && a.code in b.dependencies;
    AfterItsDependency(a, b, ctx);
    BeforeItsDependency(a, b, ctx);
  }

  lemma AfterItsDependency(a: Step, b: Step, ctx: Context)
    requires a.evaluatorKey == "default_completed" && a.defaultCompleted && b.code in a.dependencies
    requires b.evaluatorKey == "dependency_completed" && b.dependencies == [a.code]
    ensures IsDone(Statuses([a, b], ctx, map[]), b.code)
  {
    NothingReady(a, b);
    TwoStepPass(a, b, ctx);
    var first: map<string, Status> := map[a.code := Completed];
  }

  lemma BeforeItsDependency(a: Step, b: Step, ctx: Context)
    requires a.code != b.code
    requires b.code in a.dependencies
    requires b.evaluatorKey == "dependency_completed" && b.dependencies == [a.code]
    ensures !IsDone(Statuses([b, a], ctx, map[]), b.code)
  {
    NothingReady(b, a);
    TwoStepPass(b, a, ctx);
  }

  lemma TwoStepPass(a: Step, b: Step, ctx: Context)
    requires Order([a, b]) == [a, b]
    ensures var first: map<string, Status> := map[a.code := Effective(a, ctx, map[], map[])];
            Statuses([a, b], ctx, map[]) == first[b.code := Effective(b, ctx, map[], first)]
  {
    assert Pass([a, b], 0, ctx, map[]) == map[];
    var first := Pass([a, b], 1, ctx, map[]);
    assert first == map[a.code := Effective(a, ctx, map[], map[])];
    assert Pass([a, b], 2, ctx, map[]) == first[b.code := Effective(b, ctx, map[], first)];
  }

  lemma {:induction false} NoneReady(pending: seq<Step>, codes: set<string>, resolved: set<string>)
    requires forall s :: s in pending ==> !Ready(s, codes, resolved)
    ensures ReadySteps(pending, codes, resolved) == []
  {
    if pending != [] {
      NoneReady(pending[1..], codes, resolved);
    }
  }

  lemma NothingReady(a: Step, b: Step)
    requires b.code in a.dependencies && a.code in b.dependencies
    ensures Order([a, b]) == [a, b]
  {
    var codes := Codes([a, b]);
    assert a in [a, b] && b in [a, b];
    assert !Ready(a, codes, {}) && !Ready(b, codes, {});
    NoneReady([a, b], codes, {});
    assert Drain([a, b], codes, {}) == Drained([], [a, b]);
  }

  // ----- counting

  function Count(p: Step -> bool, steps: seq<Step>): nat {
    if steps == [] then 0 else (if p(steps[0]) then 1 else 0) + Count(p, steps[1..])
  }

  lemma {:induction false} CountSplit(p: Step -> bool, a: seq<Step>, b: seq<Step>)
    ensures Count(p, a + b) == Count(p, a) + Count(p, b)
  {
    if a == [] {
      assert a + b == b;
    } else {
      CountSplit(p, a[1..], b);
      assert (a + b)[1..] == a[1..] + b;
    }
  }

  lemma {:induction false} CountReordered(p: Step -> bool, a: seq<Step>, b: seq<Step>)
    requires multiset(a) == multiset(b)
    ensures Count(p, a) == Count(p, b)
  {
    SameMembers(a, b);
    if a != [] {
      assert a[0] in b;
      var i :| 0 <= i < |b| && b[i] == a[0];
      WithoutFirst(a, b, i);
      CountReordered(p, a[1..], b[..i] + b[i + 1..]);
      CountWithout(p, b, i);
    }
  }

  lemma CancelOne<T>(x: T, a: multiset<T>, b: multiset<T>)
    requires multiset{x} + a == multiset{x} + b
    ensures a == b
  {
    assert a == multiset{x} + a - multiset{x};
    assert b == multiset{x} + b - multiset{x};
  }

  lemma WithoutFirst(a: seq<Step>, b: seq<Step>, i: nat)
    requires multiset(a) == multiset(b) && a != [] && i < |b| && b[i] == a[0]
    ensures multiset(a[1..]) == multiset(b[..i] + b[i + 1..])
  {
    var x, rest := a[0], b[..i] + b[i + 1..];
    assert multiset(a) == multiset{x} + multiset(a[1..]) by {
      assert a == [x] + a[1..];
    }
    assert multiset(b) == multiset{x} + multiset(rest) by {
      assert b == b[..i] + ([x] + b[i + 1..]);
    }
    CancelOne(x, multiset(a[1..]), multiset(rest));
  }

  lemma CountWithout(p: Step -> bool, b: seq<Step>, i: nat)
    requires i < |b|
    ensures Count(p, b) == (if p(b[i]) then 1 else 0) + Count(p, b[..i] + b[i + 1..])
  {
    hide Count;
    assert b == b[..i] + ([b[i]] + b[i + 1..]);
    CountInserted(p, b[..i], b[i], b[i + 1..]);
  }

  lemma CountInserted(p: Step -> bool, a: seq<Step>, s: Step, b: seq<Step>)
    ensures Count(p, a + ([s] + b)) == (if p(s) then 1 else 0) + Count(p, a + b)
  {
    assert ([s] + b)[1..] == b;
    CountSplit(p, a, [s] + b);
    CountSplit(p, a, b);
  }

  lemma {:induction false} CountAgrees(p: Step -> bool, q: Step -> bool, steps: seq<Step>)
    requires forall s :: s in steps ==> p(s) == q(s)
    ensures Count(p, steps) == Count(q, steps)
  {
    if steps != [] {
      CountAgrees(p, q, steps[1..]);
    }
  }

  lemma {:induction false} CountIsAll(p: Step -> bool, q: Step -> bool, steps: seq<Step>)
    requires forall s :: s in steps && p(s) ==> q(s)
    ensures Count(p, steps) <= Count(q, steps)
    ensures Count(p, steps) == Count(q, steps) <==> forall s :: s in steps && q(s) ==> p(s)
  {
    if steps != [] {
      CountIsAll(p, q, steps[1..]);
      assert steps == [steps[0]] + steps[1..];
    }
  }
}

/** Exactly which configurations have statuses that depend on the order their steps are configured in. */
module OrderSensitivity {
  import opened Wrappers
  import opened StepOrder
  import opened StepEvaluation

  /** The evaluators that look at other steps' statuses. */
  predicate Reads(s: Step) {
    s.evaluatorKey == "dependency_completed" || s.evaluatorKey == "month_rows_or_dependency"
  }

  /** The code of a step of the list that can count as completed. */
  ghost predicate JudgedCode(steps: seq<Step>, code: string) {
    exists t :: t in steps && t.code == code && Judged(t)
  }

  /** A tail step that reads statuses, and whose dependencies can all be completed before it. */
  ghost predicate Sensitive(steps: seq<Step>, s: Step) {
    && s in Tail(steps) && Reads(s) && s.code !in s.dependencies
    && forall d :: d in s.dependencies ==> JudgedCode(steps, d)
  }

  ghost predicate Differs(steps: seq<Step>, other: seq<Step>, ctx: Context, overrides: map<string, bool>) {
    multiset(other) == multiset(steps) && Statuses(other, ctx, overrides) != Statuses(steps, ctx, overrides)
  }

  /** Some context and overrides give the steps other statuses in another order. */
  ghost predicate OrderMatters(steps: seq<Step>) {
    exists other, ctx, overrides :: Differs(steps, other, ctx, overrides)
  }

  // ----- what a step finds recorded

  lemma JustRecorded(order: seq<Step>, i: nat, ctx: Context, overrides: map<string, bool>)
    requires i < |order|
    ensures order[i].code in Pass(order, i + 1, ctx, overrides)
    ensures Pass(order, i + 1, ctx, overrides)[order[i].code]
         == Effective(order[i], ctx, overrides, Pass(order, i, ctx, overrides))
  {
    hide Effective;
  }

  lemma RecordedBefore(order: seq<Step>, i: nat, k: nat, ctx: Context, overrides: map<string, bool>)
    requires UniqueCodes(order) && i < k <= |order|
    ensures order[i].code in Pass(order, k, ctx, overrides)
    ensures Pass(order, k, ctx, overrides)[order[i].code]
         == Effective(order[i], ctx, overrides, Pass(order, i, ctx, overrides))
  {
    hide Effective, Pass;
    JustRecorded(order, i, ctx, overrides);
    assert order[..i + 1][i] == order[i];
    assert order[i] in order[..i + 1];
    PassKeeps(order, i + 1, k, ctx, overrides, order[i].code);
  }

  /** A display-only step, a code outside the list and the step itself are never done when a step is judged. */
  lemma NeverDone(steps: seq<Step>, order: seq<Step>, k: nat, ctx: Context, overrides: map<string, bool>, d: string)
    requires UniqueCodes(order) && multiset(order) == multiset(steps) && k < |order|
    requires d == order[k].code || !JudgedCode(steps, d)
    ensures !IsDone(Pass(order, k, ctx, overrides), d)
  {
    hide Pass;
    PassKeys(order, k, ctx, overrides);
    if d in Codes(order[..k]) {
      var t :| t in order[..k] && t.code == d;
      var i :| 0 <= i < k && order[i] == t;
      SameMembers(order, steps);
      RecordedBefore(order, i, k, ctx, overrides);
    }
  }

  lemma IndifferentToStatuses(s: Step, ctx: Context, a: map<string, Status>, b: map<string, Status>)
    requires Reads(s) ==> DependencyJudgement(s, a) == DependencyJudgement(s, b)
    ensures Evaluate(s, ctx, a) == Evaluate(s, ctx, b)
  {
    hide DependencyJudgement;
  }

  /** A tail step that is not sensitive is judged as if nothing had been recorded. */
  lemma JudgedBlindly(steps: seq<Step>, order: seq<Step>, k: nat, ctx: Context, overrides: map<string, bool>)
    requires UniqueCodes(order) && multiset(order) == multiset(steps) && k < |order|
    requires order[k] in Tail(steps) && !Sensitive(steps, order[k])
    ensures Evaluate(order[k], ctx, Pass(order, k, ctx, overrides)) == Evaluate(order[k], ctx, map[])
  {
    hide Evaluate, Pass, Tail;
    var s, recorded := order[k], Pass(order, k, ctx, overrides);
    if Reads(s) {
      var d :| d in s.dependencies && (d == s.code || !JudgedCode(steps, d));
      NeverDone(steps, order, k, ctx, overrides, d);
      var nothing: map<string, Status> := map[];
      assert !IsDone(nothing, d);
      assert DependencyJudgement(s, recorded) == DependencyJudgement(s, nothing);
    }
    IndifferentToStatuses(s, ctx, recorded, map[]);
  }

  /** Without a sensitive step, no order changes a status. */
  lemma InsensitiveKeepsStatus(steps: seq<Step>, other: seq<Step>, ctx: Context, overrides: map<string, bool>, s: Step)
    requires UniqueCodes(steps) && multiset(other) == multiset(steps) && s in steps
    requires forall t :: !Sensitive(steps, t)
    ensures s.code in Statuses(steps, ctx, overrides) && s.code in Statuses(other, ctx, overrides)
    ensures Statuses(steps, ctx, overrides)[s.code] == Statuses(other, ctx, overrides)[s.code]
  {
    hide Evaluate, Pass, Tail, Released, Order, Sensitive;
    ReleasedOrTail(steps, s);
    if s in Released(steps) {
      ReorderKeepsReleasedStatuses(steps, other, ctx, overrides, s);
    } else {
      UniqueCodesByCount(steps, other);
      SameMembers(steps, other);
      TailStatus(steps, steps, ctx, overrides, s);
      TailStatus(steps, other, ctx, overrides, s);
    }
  }

  lemma TailStatus(steps: seq<Step>, other: seq<Step>, ctx: Context, overrides: map<string, bool>, s: Step)
    requires UniqueCodes(other) && multiset(other) == multiset(steps)
    requires s in Tail(steps) && s in other && !Sensitive(steps, s)
    ensures s.code in Statuses(other, ctx, overrides)
    ensures Statuses(other, ctx, overrides)[s.code] == Effective(s, ctx, overrides, map[])
  {
    hide Evaluate, Pass, Tail, Released, Order, Sensitive;
    var order := Order(other);
    OrderIsPermutation(other);
    SameMembers(order, other);
    OrderHasUniqueCodes(other);
    var k :| 0 <= k < |order| && order[k] == s;
    RecordedForGood(order, k, ctx, overrides);
    JudgedBlindly(steps, order, k, ctx, overrides);
  }

  // ----- a sensitive step, first and last

  /** Every other judged step is overridden; the step's own query, if it has one, finds no rows. */
  function Witness(steps: seq<Step>, s: Step): (Context, map<string, bool>) {
    (Context(0, None, map[s.code := RowCount(0)]), map c | c in Codes(steps) && c != s.code :: true)
  }

  lemma ReadsDependencies(steps: seq<Step>, s: Step, statuses: map<string, Status>)
    requires Reads(s)
    ensures var (ctx, overrides) := Witness(steps, s);
            Effective(s, ctx, overrides, statuses) == DependencyJudgement(s, statuses).status
  {
    hide DependencyJudgement;
  }

  lemma {:induction false} RestrictFirst(s: Step, rest: seq<Step>, keep: set<Step>)
    requires s in keep
    ensures Restrict([s] + rest, keep) != [] && Restrict([s] + rest, keep)[0] == s
  {
    assert ([s] + rest)[0] == s;
  }

  lemma {:induction false} RestrictLast(rest: seq<Step>, s: Step, keep: set<Step>)
    requires s in keep
    ensures var kept := Restrict(rest + [s], keep); kept != [] && kept[|kept| - 1] == s
  {
    if rest == [] {
      assert [] + [s] == [s];
      assert Restrict([s], keep) == [s] + Restrict([s][1..], keep);
      assert [s][1..] == [];
    } else {
      assert (rest + [s])[1..] == rest[1..] + [s];
      RestrictLast(rest[1..], s, keep);
    }
  }

  /** Judged before every other tail step, it finds a dependency missing. */
  lemma FirstIsIncomplete(steps: seq<Step>, s: Step, rest: seq<Step>)
    requires UniqueCodes(steps) && multiset([s] + rest) == multiset(steps) && s in Tail(steps) && Reads(s)
    ensures var (ctx, overrides) := Witness(steps, s);
            s.code in Statuses([s] + rest, ctx, overrides) && Statuses([s] + rest, ctx, overrides)[s.code] == Incomplete
  {
    hide Evaluate, Pass, Drain;
      var (ctx, overrides) := Witness(steps, s);
    var list := [s] + rest;
    var order, k := Order(list), |Released(list)|;
    UniqueCodesByCount(steps, list);
    OrderHasUniqueCodes(list);
    SameTailMembers(steps, list);
    assert s in Members(Tail(steps));
    TailKeepsGivenOrder(list);
    RestrictFirst(s, rest, Members(Tail(list)));
    assert order[k] == s;
    RecordedForGood(order, k, ctx, overrides);
    MissingDependency(list, s, ctx, overrides);
    ReadsDependencies(steps, s, Pass(order, k, ctx, overrides));
  }

  lemma MissingDependency(list: seq<Step>, s: Step, ctx: Context, overrides: map<string, bool>)
    requires UniqueCodes(list) && s in Tail(list)
    ensures DependencyJudgement(s, Pass(Order(list), |Released(list)|, ctx, overrides)).status == Incomplete
  {
    hide Evaluate, Pass, Drain;
    var k, stuck := |Released(list)|, Members(Tail(list));
    TailIsGreatest(list, {});
    assert Needy(list, stuck, s);
    var d :| d in s.dependencies && NeededCode(list, stuck, d);
    PassKeys(Order(list), k, ctx, overrides);
    assert Order(list)[..k] == Released(list);
    if t :| t in Released(list) && t.code == d {
      ReleasedOrTail(list, t);
    }
  }

  /** Judged after every other step, it finds all its dependencies completed. */
  lemma LastIsCompleted(steps: seq<Step>, s: Step, rest: seq<Step>)
    requires UniqueCodes(steps) && multiset(rest + [s]) == multiset(steps) && Sensitive(steps, s)
    ensures var (ctx, overrides) := Witness(steps, s);
            s.code in Statuses(rest + [s], ctx, overrides) && Statuses(rest + [s], ctx, overrides)[s.code] == Completed
  {
    hide Evaluate, Pass, Drain;
      var (ctx, overrides) := Witness(steps, s);
    var list := rest + [s];
    var order := Order(list);
    var last := |order| - 1;
    UniqueCodesByCount(steps, list);
    OrderHasUniqueCodes(list);
    SameTailMembers(steps, list);
    assert s in Members(Tail(steps));
    TailKeepsGivenOrder(list);
    RestrictLast(rest, s, Members(Tail(list)));
    assert order[last] == s;
    RecordedForGood(order, last, ctx, overrides);
    forall d | d in s.dependencies
      ensures IsDone(Pass(order, last, ctx, overrides), d)
    {
      OthersAreDone(steps, s, list, d);
    }
    TailStepsDepend(list, s);
    ReadsDependencies(steps, s, Pass(order, last, ctx, overrides));
  }

  lemma TailStepsDepend(list: seq<Step>, s: Step)
    requires s in Tail(list)
    ensures s.dependencies != []
  {
    hide Drain;
    TailIsGreatest(list, {});
    assert Needy(list, Members(Tail(list)), s);
  }

  lemma OthersAreDone(steps: seq<Step>, s: Step, list: seq<Step>, d: string)
    requires UniqueCodes(steps) && UniqueCodes(Order(list)) && multiset(list) == multiset(steps)
    requires Order(list) != [] && Order(list)[|Order(list)| - 1] == s
    requires JudgedCode(steps, d) && d != s.code
    ensures var (ctx, overrides) := Witness(steps, s); IsDone(Pass(Order(list), |Order(list)| - 1, ctx, overrides), d)
  {
    hide Evaluate, Pass, Order;
      var (ctx, overrides) := Witness(steps, s);
    var order := Order(list);
    OrderIsPermutation(list);
    SameMembers(order, steps);
    var t :| t in steps && t.code == d && Judged(t);
    var i :| 0 <= i < |order| && order[i] == t;
    RecordedBefore(order, i, |order| - 1, ctx, overrides);
  }

  // ----- the exact condition

  /** The other steps; s can be moved to either end of them. */
  lemma Others(steps: seq<Step>, s: Step) returns (rest: seq<Step>)
    requires s in Tail(steps)
    ensures multiset([s] + rest) == multiset(steps) && multiset(rest + [s]) == multiset(steps)
  {
    hide Drain;
    OrderIsPermutation(steps);
    SameMembers(Order(steps), steps);
    assert s in Order(steps);
    var i :| 0 <= i < |steps| && steps[i] == s;
    rest := steps[..i] + steps[i + 1..];
    assert steps == steps[..i] + [s] + steps[i + 1..];
  }

  lemma TwoOrdersDiffer(steps: seq<Step>, a: seq<Step>, b: seq<Step>, ctx: Context, overrides: map<string, bool>)
    requires multiset(a) == multiset(steps) && multiset(b) == multiset(steps)
    requires Statuses(a, ctx, overrides) != Statuses(b, ctx, overrides)
    ensures OrderMatters(steps)
  {
    hide Statuses;
    assert Differs(steps, a, ctx, overrides) || Differs(steps, b, ctx, overrides);
  }

  lemma TailReads(steps: seq<Step>, s: Step)
    requires Sensitive(steps, s)
    ensures s in Tail(steps) && Reads(s)
  {
  }

  lemma OrderMattersFor(steps: seq<Step>, s: Step)
    requires UniqueCodes(steps) && Sensitive(steps, s)
    ensures OrderMatters(steps)
  {
    hide Statuses, Tail, UniqueCodes, Sensitive, Witness, OrderMatters;
    TailReads(steps, s);
    var rest := Others(steps, s);
    var (ctx, overrides) := Witness(steps, s);
    FirstIsIncomplete(steps, s, rest);
    LastIsCompleted(steps, s, rest);
    TwoOrdersDiffer(steps, [s] + rest, rest + [s], ctx, overrides);
  }

  /**
    The order of the configured steps matters exactly when some step of the fallback tail reads
    statuses, does not depend on itself, and has only judged steps of the list as dependencies.
   */
  lemma OrderMattersIff(steps: seq<Step>)
    requires UniqueCodes(steps)
    ensures OrderMatters(steps) <==> exists s :: Sensitive(steps, s)
  {
    hide Sensitive, Statuses;
    if s :| Sensitive(steps, s) {
      OrderMattersFor(steps, s);
    } else {
      forall other, ctx, overrides | multiset(other) == multiset(steps)
        ensures !Differs(steps, other, ctx, overrides)
      {
        NoDifference(steps, other, ctx, overrides);
      }
    }
  }

  lemma NoDifference(steps: seq<Step>, other: seq<Step>, ctx: Context, overrides: map<string, bool>)
    requires UniqueCodes(steps) && multiset(other) == multiset(steps) && forall s :: !Sensitive(steps, s)
    ensures Statuses(other, ctx, overrides) == Statuses(steps, ctx, overrides)
  {
    var a, b := Statuses(steps, ctx, overrides), Statuses(other, ctx, overrides);
    hide Sensitive, Pass, Order;
    SameCodes(Order(steps), steps);
    SameCodes(Order(other), other);
    SameMembers(steps, other);
    PassKeys(Order(steps), |Order(steps)|, ctx, overrides);
    PassKeys(Order(other), |Order(other)|, ctx, overrides);
    assert Order(steps)[..|Order(steps)|] == Order(steps) && Order(other)[..|Order(other)|] == Order(other);
    assert a.Keys == Codes(steps) && b.Keys == Codes(other) && Codes(steps) == Codes(other);
    forall c | c in a
      ensures a[c] == b[c]
    {
      var s :| s in steps && s.code == c;
      InsensitiveKeepsStatus(steps, other, ctx, overrides, s);
    }
  }
}

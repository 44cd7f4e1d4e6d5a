/**
  The configured steps of a report process, and the order in which one collection
  evaluates them: rounds of steps whose in-list dependencies are all resolved, then,
  when a round finds nothing ready, everything still pending in its given order.
 */
module StepOrder {

  datatype Step = Step(
    code: string,
    processCode: string,
    displayOrder: int,
    evaluatorKey: string,
    defaultCompleted: bool,
    manualCompletionAllowed: bool,
    dependencies: seq<string>)

  function Codes(steps: seq<Step>): set<string> {
    set s | s in steps :: s.code
  }

  /** step_code is the primary key of the steps table. */
  ghost predicate UniqueCodes(steps: seq<Step>) {
    forall i, j :: 0 <= i < |steps| && 0 <= j < |steps| && steps[i].code == steps[j].code ==> i == j
  }

  /** Every dependency is outside the list or already resolved. */
  predicate Ready(s: Step, codes: set<string>, resolved: set<string>) {
    forall d :: d in s.dependencies ==> d !in codes || d in resolved
  }

  function ReadySteps(pending: seq<Step>, codes: set<string>, resolved: set<string>): seq<Step> {
    if pending == [] then []
    else (if Ready(pending[0], codes, resolved) then [pending[0]] else []) + ReadySteps(pending[1..], codes, resolved)
  }

  function BlockedSteps(pending: seq<Step>, codes: set<string>, resolved: set<string>): seq<Step> {
    if pending == [] then []
    else (if Ready(pending[0], codes, resolved) then [] else [pending[0]]) + BlockedSteps(pending[1..], codes, resolved)
  }

  lemma {:induction false} SplitByReadiness(pending: seq<Step>, codes: set<string>, resolved: set<string>)
    ensures multiset(pending) ==
            multiset(ReadySteps(pending, codes, resolved)) + multiset(BlockedSteps(pending, codes, resolved))
    ensures forall s :: s in ReadySteps(pending, codes, resolved) <==> s in pending && Ready(s, codes, resolved)
    ensures forall s :: s in BlockedSteps(pending, codes, resolved) <==> s in pending && !Ready(s, codes, resolved)
  {
    if pending != [] {
      SplitByReadiness(pending[1..], codes, resolved);
      assert pending == [pending[0]] + pending[1..];
    }
  }

  lemma SplitSizes(pending: seq<Step>, codes: set<string>, resolved: set<string>)
    ensures |pending| == |ReadySteps(pending, codes, resolved)| + |BlockedSteps(pending, codes, resolved)|
  {
    SplitByReadiness(pending, codes, resolved);
    assert |multiset(pending)| == |pending|;
  }

  /** The two parts of an evaluation order: the steps released by rounds, and the fallback tail. */
  datatype Drained = Drained(released: seq<Step>, tail: seq<Step>)

  function Drain(pending: seq<Step>, codes: set<string>, resolved: set<string>): Drained
    decreases |pending|
  {
    var ready := ReadySteps(pending, codes, resolved);
    if ready == [] then Drained([], pending)
    else
      SplitSizes(pending, codes, resolved);
      var rest := Drain(BlockedSteps(pending, codes, resolved), codes, resolved + Codes(ready));
      Drained(ready + rest.released, rest.tail)
  }

  function Released(steps: seq<Step>): seq<Step> { Drain(steps, Codes(steps), {}).released }

  function Tail(steps: seq<Step>): seq<Step> { Drain(steps, Codes(steps), {}).tail }

  function Order(steps: seq<Step>): seq<Step> { Released(steps) + Tail(steps) }

  // ----- the ordering loop

  function RemoveFirst(pending: seq<Step>, s: Step): seq<Step>
    requires s in pending
  {
    if pending[0] == s then pending[1..] else [pending[0]] + RemoveFirst(pending[1..], s)
  }

  /** The subsequence of `pending` that is left once the ready steps in `done` have been removed one by one. */
  lemma {:induction false} RemoveFirstReady(pending: seq<Step>, codes: set<string>, resolved: set<string>)
    requires ReadySteps(pending, codes, resolved) != []
    ensures ReadySteps(pending, codes, resolved)[0] in pending
    ensures ReadySteps(RemoveFirst(pending, ReadySteps(pending, codes, resolved)[0]), codes, resolved)
         == ReadySteps(pending, codes, resolved)[1..]
    ensures BlockedSteps(RemoveFirst(pending, ReadySteps(pending, codes, resolved)[0]), codes, resolved)
         == BlockedSteps(pending, codes, resolved)
  {
    SplitByReadiness(pending, codes, resolved);
    var s := ReadySteps(pending, codes, resolved)[0];
    assert s in ReadySteps(pending, codes, resolved);
    if pending[0] != s {
      assert !Ready(pending[0], codes, resolved);
      RemoveFirstReady(pending[1..], codes, resolved);
      var rest := RemoveFirst(pending[1..], s);
      assert ([pending[0]] + rest)[1..] == rest;
    }
  }

  lemma {:induction false} OnlyBlockedLeft(pending: seq<Step>, codes: set<string>, resolved: set<string>)
    requires ReadySteps(pending, codes, resolved) == []
    ensures BlockedSteps(pending, codes, resolved) == pending
  {
    if pending != [] {
      OnlyBlockedLeft(pending[1..], codes, resolved);
    }
  }

  method ReadyNow(pending: seq<Step>, codes: set<string>, resolved: set<string>) returns (ready: seq<Step>)
    ensures ready == ReadySteps(pending, codes, resolved)
  {
    ready := [];
    var i := 0;
    while i < |pending|
      invariant 0 <= i <= |pending|
      invariant ready + ReadySteps(pending[i..], codes, resolved) == ReadySteps(pending, codes, resolved)
    {
      assert pending[i..][1..] == pending[i + 1..];
      if Ready(pending[i], codes, resolved) {
        ready := ready + [pending[i]];
      }
      i := i + 1;
    }
  }

  lemma PrefixGrows(ready: seq<Step>, i: nat, ordered: seq<Step>, resolved: set<string>)
    requires i < |ready|
    ensures ordered + ready[..i] + [ready[i]] == ordered + ready[..i + 1]
    ensures resolved + Codes(ready[..i]) + {ready[i].code} == resolved + Codes(ready[..i + 1])
  {
    assert ready[..i + 1] == ready[..i] + [ready[i]];
    assert Codes(ready[..i + 1]) == Codes(ready[..i]) + {ready[i].code};
  }

  /** The inner loop: each ready step is appended, resolved and removed from `pending`. */
  method TakeReady(ready: seq<Step>, pending0: seq<Step>, codes: set<string>, resolved0: set<string>,
                   ordered0: seq<Step>)
    returns (pending: seq<Step>, resolved: set<string>, ordered: seq<Step>)
    requires ready == ReadySteps(pending0, codes, resolved0)
    ensures pending == BlockedSteps(pending0, codes, resolved0)
    ensures resolved == resolved0 + Codes(ready)
    ensures ordered == ordered0 + ready
  {
    pending, resolved, ordered := pending0, resolved0, ordered0;
    var i := 0;
    while i < |ready|
      invariant 0 <= i <= |ready|
      invariant ordered == ordered0 + ready[..i]
      invariant resolved == resolved0 + Codes(ready[..i])
      invariant ReadySteps(pending, codes, resolved0) == ready[i..]
      invariant BlockedSteps(pending, codes, resolved0) == BlockedSteps(pending0, codes, resolved0)
    {
      RemoveFirstReady(pending, codes, resolved0);
      PrefixGrows(ready, i, ordered0, resolved0);
      ordered := ordered + [ready[i]];
      resolved := resolved + {ready[i].code};
      pending := RemoveFirst(pending, ready[i]);
      i := i + 1;
    }
    assert ready[..i] == ready;
    OnlyBlockedLeft(pending, codes, resolved0);
  }

  function Joined(d: Drained): seq<Step> { d.released + d.tail }

  lemma DrainStep(ordered: seq<Step>, pending: seq<Step>, codes: set<string>, resolved: set<string>)
    ensures var ready := ReadySteps(pending, codes, resolved);
            ordered + Joined(Drain(pending, codes, resolved)) ==
            if ready == [] then ordered + pending
            else (ordered + ready) + Joined(Drain(BlockedSteps(pending, codes, resolved), codes,
                                                  resolved + Codes(ready)))
  {
    var ready := ReadySteps(pending, codes, resolved);
    if ready == [] {
      assert Joined(Drained([], pending)) == pending;
    } else {
      SplitSizes(pending, codes, resolved);
      var rest := Drain(BlockedSteps(pending, codes, resolved), codes, resolved + Codes(ready));
      Regroup(ordered, ready, rest.released, rest.tail);
    }
  }

  lemma Regroup(a: seq<Step>, b: seq<Step>, c: seq<Step>, d: seq<Step>)
    ensures a + (b + c + d) == (a + b) + (c + d)
  {
  }

  /** `_steps_in_dependency_order`. */
  method StepsInDependencyOrder(steps: seq<Step>) returns (ordered: seq<Step>)
    ensures ordered == Order(steps)
  {
    var pending := steps;
    var codes := Codes(steps);
    var resolved: set<string> := {};
    ordered := [];
    while pending != []
      invariant ordered + Joined(Drain(pending, codes, resolved)) == Order(steps)
      decreases |pending|
    {
      var ready := ReadyNow(pending, codes, resolved);
      DrainStep(ordered, pending, codes, resolved);
      if ready == [] {
        ordered := ordered + pending;
        return;
      }
      SplitSizes(pending, codes, resolved);
      pending, resolved, ordered := TakeReady(ready, pending, codes, resolved, ordered);
    }
  }

  // ----- what the order guarantees, for every list of steps

  lemma {:induction false} DrainKeepsSteps(pending: seq<Step>, codes: set<string>, resolved: set<string>)
    ensures multiset(Joined(Drain(pending, codes, resolved))) == multiset(pending)
    decreases |pending|
  {
    SplitByReadiness(pending, codes, resolved);
    var ready := ReadySteps(pending, codes, resolved);
    if ready == [] {
      assert Joined(Drain(pending, codes, resolved)) == pending;
    } else {
      SplitSizes(pending, codes, resolved);
      DrainStep([], pending, codes, resolved);
      assert [] + Joined(Drain(pending, codes, resolved)) == Joined(Drain(pending, codes, resolved));
      DrainKeepsSteps(BlockedSteps(pending, codes, resolved), codes, resolved + Codes(ready));
    }
  }

  lemma OrderIsPermutation(steps: seq<Step>)
    ensures multiset(Order(steps)) == multiset(steps)
  {
    DrainKeepsSteps(steps, Codes(steps), {});
  }

  /** A code is available to position i of a list: resolved beforehand, or the code of an earlier step. */
  ghost predicate Before(ordered: seq<Step>, i: nat, resolved: set<string>, code: string)
    requires i <= |ordered|
  {
    code in resolved || code in Codes(ordered[..i])
  }

  lemma {:induction false} ReleasedAfterDependencies(pending: seq<Step>, codes: set<string>, resolved: set<string>,
                                                     i: nat, d: string)
    requires i < |Drain(pending, codes, resolved).released|
    requires d in Drain(pending, codes, resolved).released[i].dependencies && d in codes
    ensures Before(Drain(pending, codes, resolved).released, i, resolved, d)
    decreases |pending|
  {
    var ready := ReadySteps(pending, codes, resolved);
    SplitByReadiness(pending, codes, resolved);
    SplitSizes(pending, codes, resolved);
    var blocked := BlockedSteps(pending, codes, resolved);
    var rest := Drain(blocked, codes, resolved + Codes(ready)).released;
    var all := Drain(pending, codes, resolved).released;
    assert all == ready + rest;
    if i < |ready| {
      assert all[i] == ready[i] && ready[i] in ready;
    } else {
      ReleasedAfterDependencies(blocked, codes, resolved + Codes(ready), i - |ready|, d);
      assert all[..i] == ready + rest[..i - |ready|];
      assert Codes(all[..i]) == Codes(ready) + Codes(rest[..i - |ready|]);
    }
  }

  /** Outside the fallback tail, every in-list dependency of a step is the code of an earlier step. */
  lemma DependenciesComeFirst(steps: seq<Step>, i: nat, d: string)
    requires i < |Released(steps)|
    requires d in Order(steps)[i].dependencies && d in Codes(steps)
    ensures d in Codes(Order(steps)[..i])
  {
    ReleasedAfterDependencies(steps, Codes(steps), {}, i, d);
    assert Order(steps)[..i] == Released(steps)[..i];
  }

  // ----- the fallback tail

  /** Steps that can never be released: each needs a code that only steps of the set carry. */
  ghost predicate SelfBlocked(steps: seq<Step>, stuck: set<Step>) {
    && (forall s :: s in stuck ==> s in steps)
    && (forall s {:trigger Needy(steps, stuck, s)} :: s in stuck ==> Needy(steps, stuck, s))
  }

  ghost predicate Needy(steps: seq<Step>, stuck: set<Step>, s: Step) {
    exists d :: d in s.dependencies && NeededCode(steps, stuck, d)
  }

  ghost predicate NeededCode(steps: seq<Step>, stuck: set<Step>, d: string) {
    d in Codes(steps) && forall t :: t in steps && t.code == d ==> t in stuck
  }

  function Members(steps: seq<Step>): set<Step> { set s | s in steps }

  /** The loop invariant behind the tail: `pending` holds exactly the steps not yet resolved. */
  ghost predicate InProgress(steps: seq<Step>, pending: seq<Step>, resolved: set<string>) {
    && (forall s :: s in pending ==> s in steps)
    && (forall s :: s in steps && s !in pending ==> s.code in resolved)
    && (forall c :: c in resolved ==> c in Codes(steps))
    && (forall c :: c in resolved ==> exists s :: s in steps && s.code == c && s !in pending)
  }

  lemma RoundKeepsProgress(steps: seq<Step>, pending: seq<Step>, resolved: set<string>)
    requires InProgress(steps, pending, resolved)
    ensures var ready := ReadySteps(pending, Codes(steps), resolved);
            InProgress(steps, BlockedSteps(pending, Codes(steps), resolved), resolved + Codes(ready))
  {
    var codes := Codes(steps);
    SplitByReadiness(pending, codes, resolved);
    var ready, blocked := ReadySteps(pending, codes, resolved), BlockedSteps(pending, codes, resolved);
    forall c | c in resolved + Codes(ready)
      ensures exists s :: s in steps && s.code == c && s !in blocked
    {
      if c in Codes(ready) {
        var s :| s in ready && s.code == c;
        assert s in steps && s !in blocked;
      } else {
        var s :| s in steps && s.code == c && s !in pending;
        assert s !in blocked;
      }
    }
  }

  /** No self-blocked set loses a member to a round, and what is left at the end is one. */
  lemma {:induction false} DrainTail(steps: seq<Step>, pending: seq<Step>, resolved: set<string>, stuck: set<Step>)
    requires InProgress(steps, pending, resolved)
    requires SelfBlocked(steps, stuck) && stuck <= Members(pending)
    ensures stuck <= Members(Drain(pending, Codes(steps), resolved).tail)
    ensures SelfBlocked(steps, Members(Drain(pending, Codes(steps), resolved).tail))
    decreases |pending|
  {
    var codes := Codes(steps);
    SplitByReadiness(pending, codes, resolved);
    SplitSizes(pending, codes, resolved);
    var ready, blocked := ReadySteps(pending, codes, resolved), BlockedSteps(pending, codes, resolved);
    if ready == [] {
      PendingIsSelfBlocked(steps, pending, resolved);
    } else {
      RoundKeepsProgress(steps, pending, resolved);
      forall s | s in stuck
        ensures s in blocked
      {
        assert Needy(steps, stuck, s);
        var d :| d in s.dependencies && NeededCode(steps, stuck, d);
        assert d !in resolved;
      }
      DrainTail(steps, blocked, resolved + Codes(ready), stuck);
    }
  }

  lemma PendingIsSelfBlocked(steps: seq<Step>, pending: seq<Step>, resolved: set<string>)
    requires InProgress(steps, pending, resolved)
    requires ReadySteps(pending, Codes(steps), resolved) == []
    ensures SelfBlocked(steps, Members(pending))
  {
    var codes := Codes(steps);
    SplitByReadiness(pending, codes, resolved);
    forall s | s in pending
      ensures Needy(steps, Members(pending), s)
    {
      assert !Ready(s, codes, resolved);
      var d :| d in s.dependencies && d in codes && d !in resolved;
      assert NeededCode(steps, Members(pending), d);
    }
  }

  /** The tail is the largest self-blocked set of steps. */
  lemma TailIsGreatest(steps: seq<Step>, stuck: set<Step>)
    requires SelfBlocked(steps, stuck)
    ensures stuck <= Members(Tail(steps))
    ensures SelfBlocked(steps, Members(Tail(steps)))
  {
    DrainTail(steps, steps, {}, stuck);
  }

  /** The subsequence of the steps that belong to `keep`. */
  ghost function Restrict(steps: seq<Step>, keep: set<Step>): seq<Step> {
    if steps == [] then []
    else (if steps[0] in keep then [steps[0]] else []) + Restrict(steps[1..], keep)
  }

  lemma {:induction false} RestrictAll(steps: seq<Step>, keep: set<Step>)
    requires forall s :: s in steps ==> s in keep
    ensures Restrict(steps, keep) == steps
  {
    if steps != [] {
      RestrictAll(steps[1..], keep);
    }
  }

  lemma {:induction false} RestrictBlocked(pending: seq<Step>, codes: set<string>, resolved: set<string>,
                                           keep: set<Step>)
    requires forall s :: s in keep && s in pending ==> !Ready(s, codes, resolved)
    ensures Restrict(BlockedSteps(pending, codes, resolved), keep) == Restrict(pending, keep)
  {
    if pending != [] {
      RestrictBlocked(pending[1..], codes, resolved, keep);
      var rest := BlockedSteps(pending[1..], codes, resolved);
      if !Ready(pending[0], codes, resolved) {
        assert BlockedSteps(pending, codes, resolved) == [pending[0]] + rest;
        assert ([pending[0]] + rest)[1..] == rest;
      } else {
        assert BlockedSteps(pending, codes, resolved) == rest;
      }
    }
  }

  lemma {:induction false} DrainTailInOrder(pending: seq<Step>, codes: set<string>, resolved: set<string>)
    ensures Drain(pending, codes, resolved).tail == Restrict(pending, Members(Drain(pending, codes, resolved).tail))
    ensures forall s :: s in Drain(pending, codes, resolved).tail ==> s in pending && !Ready(s, codes, resolved)
    decreases |pending|
  {
    SplitByReadiness(pending, codes, resolved);
    SplitSizes(pending, codes, resolved);
    var ready := ReadySteps(pending, codes, resolved);
    var keep := Members(Drain(pending, codes, resolved).tail);
    if ready == [] {
      RestrictAll(pending, keep);
    } else {
      DrainTailInOrder(BlockedSteps(pending, codes, resolved), codes, resolved + Codes(ready));
      RestrictBlocked(pending, codes, resolved, keep);
    }
  }

  /** The tail keeps the given order. */
  lemma TailKeepsGivenOrder(steps: seq<Step>)
    ensures Tail(steps) == Restrict(steps, Members(Tail(steps)))
  {
    DrainTailInOrder(steps, Codes(steps), {});
  }

  // ----- acyclicity

  /** p[0] depends on p[1], and so on along p. */
  ghost predicate Path(steps: seq<Step>, p: seq<Step>) {
    && (forall i :: 0 <= i < |p| ==> p[i] in steps)
    && (forall i, j :: 0 <= i && j == i + 1 && j < |p| ==> p[j].code in p[i].dependencies)
  }

  ghost predicate Cycle(steps: seq<Step>, p: seq<Step>) {
    && p != []
    && Path(steps, p)
    && p[0].code in p[|p| - 1].dependencies
  }

  ghost predicate Acyclic(steps: seq<Step>) {
    !exists p :: Cycle(steps, p)
  }

  lemma CycleIsSelfBlocked(steps: seq<Step>, p: seq<Step>)
    requires UniqueCodes(steps) && Cycle(steps, p)
    ensures SelfBlocked(steps, Members(p))
  {
    forall s | s in p
      ensures Needy(steps, Members(p), s)
    {
      var i :| 0 <= i < |p| && p[i] == s;
      var next := if i == |p| - 1 then p[0] else p[i + 1];
      assert next.code in s.dependencies && next in p && next in steps;
      forall t | t in steps && t.code == next.code
        ensures t == next
      {
        var a :| 0 <= a < |steps| && steps[a] == t;
        var b :| 0 <= b < |steps| && steps[b] == next;
      }
      assert NeededCode(steps, Members(p), next.code);
    }
  }

  lemma NeededStep(steps: seq<Step>, stuck: set<Step>, s: Step) returns (t: Step)
    requires SelfBlocked(steps, stuck) && s in stuck
    ensures t in stuck && t.code in s.dependencies
  {
    assert Needy(steps, stuck, s);
    var d :| d in s.dependencies && NeededCode(steps, stuck, d);
    t :| t in steps && t.code == d;
  }

  /** From any member of a self-blocked set a path of any length leads on inside the set. */
  lemma {:induction false} WalkInside(steps: seq<Step>, stuck: set<Step>, start: Step, n: nat) returns (p: seq<Step>)
    requires SelfBlocked(steps, stuck) && start in stuck
    ensures |p| == n + 1 && p[0] == start
    ensures Path(steps, p)
    ensures forall s :: s in p ==> s in stuck
    decreases n
  {
    if n == 0 {
      p := [start];
    } else {
      var next := NeededStep(steps, stuck, start);
      var q := WalkInside(steps, stuck, next, n - 1);
      p := [start] + q;
      PathGrows(steps, start, q);
    }
  }

  lemma PathGrows(steps: seq<Step>, s: Step, q: seq<Step>)
    requires s in steps && q != [] && Path(steps, q) && q[0].code in s.dependencies
    ensures Path(steps, [s] + q)
  {
    var p := [s] + q;
    forall i, j | 0 <= i && j == i + 1 && j < |p|
      ensures p[j].code in p[i].dependencies
    {
      if i > 0 {
        assert p[i] == q[i - 1] && p[j] == q[i];
      }
    }
  }

  lemma {:induction false} Pigeonhole(p: seq<Step>, s: set<Step>) returns (i: nat, j: nat)
    requires |p| > |s| && forall x :: x in p ==> x in s
    ensures i < j < |p| && p[i] == p[j]
  {
    var last := p[|p| - 1];
    var front := p[..|p| - 1];
    if last in front {
      i :| 0 <= i < |front| && front[i] == last;
      j := |p| - 1;
    } else {
      assert forall x :: x in front ==> x in p;
      assert last in p;
      i, j := Pigeonhole(front, s - {last});
    }
  }

  /** The tail is empty exactly when the in-list dependency graph has no cycle. */
  lemma TailEmptyIffAcyclic(steps: seq<Step>)
    requires UniqueCodes(steps)
    ensures Tail(steps) == [] <==> Acyclic(steps)
  {
    if exists p :: Cycle(steps, p) {
      var p :| Cycle(steps, p);
      CycleIsSelfBlocked(steps, p);
      TailIsGreatest(steps, Members(p));
      assert p[0] in Members(p);
    }
    if Tail(steps) != [] {
      var stuck := Members(Tail(steps));
      TailIsGreatest(steps, {});
      var start := Tail(steps)[0];
      assert start in stuck;
      var p := WalkInside(steps, stuck, start, |stuck|);
      var i, j := Pigeonhole(p, stuck);
      CutCycle(steps, p, i, j);
    }
  }

  lemma CutCycle(steps: seq<Step>, p: seq<Step>, i: nat, j: nat)
    requires Path(steps, p) && i < j < |p| && p[i] == p[j]
    ensures Cycle(steps, p[i..j])
  {
    var c := p[i..j];
    forall a, b | 0 <= a && b == a + 1 && b < |c|
      ensures c[b].code in c[a].dependencies
    {
      assert c[a] == p[i + a] && c[b] == p[i + b];
    }
    var last := j - 1;
    assert c[|c| - 1] == p[last] && p[j].code in p[last].dependencies;
  }
}

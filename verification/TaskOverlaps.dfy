/**
  What the scheduled-task manager does not exclude, and exactly when it happens: a running
  task that also waits in the manual queue, which the scan brings about by claiming a due
  task that was asked for meanwhile; and two threads in a handler at once, one of them inside
  `start`, which takes a stop that gave up or two starts under way. Witnesses are elsewhere.
 */
module TaskOverlaps {
  import opened Wrappers
  import opened TaskScheduler
  import opened TaskThreads

  // ----- a running task in the manual queue

  /** The task that runs also waits in the manual queue. */
  predicate RunningQueued(s: System) {
    s.state.running.Some? && s.state.running.value in s.state.queue
  }

  /** Thread i comes to a due task that waits in the manual queue, while nothing runs. */
  predicate ClaimsQueued(s: System, i: nat) {
    && i < |s.threads| && s.threads[i].Scanning? && s.threads[i].tasks != [] && s.state.running.None?
    && Due(s.threads[i].tasks[0].1, s.threads[i].now) && s.threads[i].tasks[0].0 in s.state.queue
  }

  lemma RunKeepsQueue(s: System, e: Event)
    requires Invariant(s) && OfRun(e)
    ensures ExecuteStep(s, e).state.queue == s.state.queue
    ensures ExecuteStep(s, e).state.running in {None, s.state.running}
  {
    hide FlagHolds, AllExclusive, Begun, Ended, Template;
  }

  lemma LifeKeepsQueue(s: System, e: Event)
    requires OfLife(e)
    ensures LifeStep(s, e).state == s.state
  {
  }

  /** A request, a claim from the queue and every other step but the claim of a due task look at both. */
  lemma OutsideKeepsApart(s: System, e: Event)
    requires Invariant(s) && !OnThread(e) && !RunningQueued(s)
    ensures !RunningQueued(Outside(s, e))
  {
    hide FlagHolds, AllExclusive, Update, Restore, Delete, SetInitial, Template;
  }

  lemma TakeKeepsApart(s: System, i: nat)
    requires Invariant(s) && !RunningQueued(s) && i < |s.threads| && s.threads[i].Idle?
    ensures !RunningQueued(TakeStep(s, i))
  {
    hide FlagHolds, AllExclusive;
    var queue := s.state.queue;
    assert forall k :: 0 < k < |queue| ==> queue[k] != queue[0];
  }

  /** The running task comes to wait in the queue exactly by the claim of a due task that waits there. */
  lemma RunningBecomesQueuedIff(s: System, e: Event)
    requires Invariant(s) && !RunningQueued(s)
    ensures RunningQueued(Step(s, e)) <==> e.Scan? && ClaimsQueued(s, e.i)
  {
    hide FlagHolds, AllExclusive, Outside, TakeStep, ExecuteStep, LifeStep;
    if !OnThread(e) {
      OutsideKeepsApart(s, e);
    } else if OfRun(e) {
      RunKeepsQueue(s, e);
    } else if OfLife(e) {
      LifeKeepsQueue(s, e);
    } else if e.TakeManual? && e.i < |s.threads| && s.threads[e.i].Idle? {
      TakeKeepsApart(s, e.i);
    }
  }

  /** In any run, the running task waits in the queue only after such a claim. */
  lemma {:induction false} ClaimedWhileQueued(table: Table, callers: nat, run: seq<System>, events: seq<Event>, k: nat)
    returns (n: nat)
    requires AllExclusive(table) && Execution(run, events) && run[0] == Start(table, callers)
    requires k < |run| && RunningQueued(run[k])
    ensures n < k && events[n].Scan? && ClaimsQueued(run[n], events[n].i)
  {
    hide Step, FlagHolds;
    AlwaysInvariant(run, events, k - 1);
    if RunningQueued(run[k - 1]) {
      n := ClaimedWhileQueued(table, callers, run, events, k - 1);
    } else {
      n := k - 1;
      RunningBecomesQueuedIff(run[n], events[n]);
    }
  }

  // ----- two handlers at a time

  predicate InStart(t: Thread) { t.Called? || t.Starting? }

  predicate Live(t: Thread) { t.Waiting? || t.Idle? || t.Executing? || Resumable(t) }

  /** A start begins with no other under way; a stop ends with its scheduler thread ended. */
  ghost predicate Orderly(s: System, e: Event) {
    && (e.Startup? ==> forall t <- s.threads :: !InStart(t))
    && (e.StopEnd? ==> !LoopAlive(s))
  }

  /** The scheduler thread the manager holds is the only one alive, and none is while a start is under way. */
  ghost predicate OneLoop(s: System) {
    && (forall i :: 0 <= i < |s.threads| && Live(s.threads[i]) ==> s.loop == Some(i))
    && (forall i, j :: 0 <= i < j < |s.threads| ==> !(InStart(s.threads[i]) && InStart(s.threads[j])))
    && (forall i, j :: 0 <= i < |s.threads| && 0 <= j < |s.threads| && InStart(s.threads[i]) ==> !Live(s.threads[j]))
  }

  /** No thread but i moves, and i neither comes alive nor enters start. */
  lemma MoveKeepsOneLoop(s: System, after: System, i: nat)
    requires OneLoop(s) && after.loop == s.loop && |after.threads| == |s.threads|
    requires forall k :: 0 <= k < |s.threads| && k != i ==> after.threads[k] == s.threads[k]
    requires i < |s.threads| ==> Live(after.threads[i]) ==> Live(s.threads[i])
    requires i < |s.threads| ==> InStart(after.threads[i]) ==> InStart(s.threads[i])
    ensures OneLoop(after)
  {
  }

  lemma LifeKeepsOneLoop(s: System, e: Event)
    requires OneLoop(s) && Orderly(s, e) && OfLife(e)
    ensures OneLoop(LifeStep(s, e))
  {
    var after := LifeStep(s, e);
    if after != s && (e.Wake? || e.Prepare? || e.StopBegin?) {
      MoveKeepsOneLoop(s, after, e.i);
    }
  }

  lemma RunKeepsOneLoop(s: System, e: Event)
    requires OneLoop(s) && Invariant(s) && OfRun(e)
    ensures OneLoop(ExecuteStep(s, e))
  {
    hide AllExclusive, OneLoop, Begun, Ended, Template;
    MoveKeepsOneLoop(s, ExecuteStep(s, e), e.i);
  }

  lemma StepKeepsOneLoop(s: System, e: Event)
    requires OneLoop(s) && Invariant(s) && Orderly(s, e)
    ensures OneLoop(Step(s, e))
  {
    hide FlagHolds, AllExclusive, ExecuteStep, LifeStep, OneLoop, Orderly;
    var after := Step(s, e);
    if !OnThread(e) {
      MoveKeepsOneLoop(s, after, 0);
    } else if OfRun(e) {
      RunKeepsOneLoop(s, e);
    } else if OfLife(e) {
      LifeKeepsOneLoop(s, e);
    } else {
      MoveKeepsOneLoop(s, after, e.i);
    }
  }

  lemma {:induction false} AlwaysOneLoop(table: Table, callers: nat, run: seq<System>, events: seq<Event>, k: nat)
    requires AllExclusive(table) && Execution(run, events) && run[0] == Start(table, callers) && k < |run|
    requires forall n :: 0 <= n < k ==> Orderly(run[n], events[n])
    ensures OneLoop(run[k])
  {
    if k == 0 {
      assert forall t <- run[0].threads :: t.Caller?;
    } else {
      hide Step, FlagHolds, OneLoop, Orderly;
      AlwaysOneLoop(table, callers, run, events, k - 1);
      AlwaysInvariant(run, events, k - 1);
      StepKeepsOneLoop(run[k - 1], events[k - 1]);
    }
  }

  /**
    Two threads are in a handler together only if one of them is in `start`, and only after a start that
    began while another was under way, or a stop that gave up on a scheduler thread still alive.
  */
  lemma OverlapNeedsDisorder(table: Table, callers: nat, run: seq<System>, events: seq<Event>, k: nat, i: nat, j: nat)
    returns (n: nat)
    requires AllExclusive(table) && Execution(run, events) && run[0] == Start(table, callers) && k < |run|
    requires i != j && At(run[k], i, InHandler) && At(run[k], j, InHandler)
    ensures run[k].threads[i].Starting? || run[k].threads[j].Starting?
    ensures n < k && !Orderly(run[n], events[n])
  {
    hide Step, Orderly;
    AlwaysInvariant(run, events, k);
    if forall n :: 0 <= n < k ==> Orderly(run[n], events[n]) {
      AlwaysOneLoop(table, callers, run, events, k);
      assert false;
    }
    n :| 0 <= n < k && !Orderly(run[n], events[n]);
  }
}

/**
  What saving a step or process snapshot leaves in its row, and the completion time that
  whole histories of saves lead to.
 */
module Snapshots {
  import opened Wrappers
  import opened StepEvaluation

  datatype StepSnapshot = StepSnapshot(
    autoStatus: Status, effectiveStatus: Status, manual: bool, autoCompletedAt: Option<int>, evaluatedAt: int)

  datatype ProcessSnapshot = ProcessSnapshot(
    total: int, completed: int, status: Status, completedAt: Option<int>, evaluatedAt: int)

  const PBC_CENTRAL := "pbc_central"

  function Lookup<K, T>(rows: map<K, T>, code: K): Option<T> {
    if code in rows then Some(rows[code]) else None
  }

  /** `save_process_snapshot`: the row that replaces `existing`. */
  function StoredProcess(code: string, existing: Option<ProcessSnapshot>, snapshot: ProcessSnapshot,
                         preserve: bool): ProcessSnapshot {
    if code == PBC_CENTRAL && existing.Some? && existing.value.completedAt.Some? then
      snapshot.(completedAt := existing.value.completedAt)
    else if snapshot.status != Completed then
      snapshot.(completedAt := None)
    else if preserve && existing.Some? && existing.value.status == Completed then
      snapshot.(completedAt := existing.value.completedAt)
    else
      snapshot
  }

  /** `save_step_snapshot`: the row that replaces `existing`. */
  function StoredStep(existing: Option<StepSnapshot>, snapshot: StepSnapshot, preserve: bool): StepSnapshot {
    var kept :=
      if preserve && snapshot.autoStatus == Completed && existing.Some? && existing.value.autoStatus == Completed
      then existing.value.autoCompletedAt else snapshot.autoCompletedAt;
    snapshot.(autoCompletedAt := if snapshot.autoStatus != Completed then None else kept)
  }

  // ----- histories of saves to one row

  datatype ProcessSave = ProcessSave(snapshot: ProcessSnapshot, preserve: bool)

  datatype StepSave = StepSave(snapshot: StepSnapshot, preserve: bool)

  function ProcessRow(code: string, history: seq<ProcessSave>): Option<ProcessSnapshot> {
    if history == [] then None
    else
      var last := history[|history| - 1];
      Some(StoredProcess(code, ProcessRow(code, history[..|history| - 1]), last.snapshot, last.preserve))
  }

  function StepRow(history: seq<StepSave>): Option<StepSnapshot> {
    if history == [] then None
    else
      var last := history[|history| - 1];
      Some(StoredStep(StepRow(history[..|history| - 1]), last.snapshot, last.preserve))
  }

  /** What one save says about completion. */
  datatype Mark = Mark(done: bool, at: Option<int>, preserve: bool)

  function ProcessMarks(history: seq<ProcessSave>): seq<Mark> {
    seq(|history|, i requires 0 <= i < |history| =>
      Mark(history[i].snapshot.status == Completed, history[i].snapshot.completedAt, history[i].preserve))
  }

  function StepMarks(history: seq<StepSave>): seq<Mark> {
    seq(|history|, i requires 0 <= i < |history| =>
      Mark(history[i].snapshot.autoStatus == Completed, history[i].snapshot.autoCompletedAt, history[i].preserve))
  }

  /**
    Save i sets the time shown after the whole history: it lies in the completed streak that
    is still running, it opened that streak or was written with preserve off, and every later
    save kept what it found.
   */
  ghost predicate SetsTime(marks: seq<Mark>, i: nat) {
    && i < |marks|
    && (forall k :: i <= k < |marks| ==> marks[k].done)
    && (i == 0 || !marks[i - 1].done || !marks[i].preserve)
    && (forall k :: i < k < |marks| ==> marks[k].preserve)
  }

  lemma SetsTimeIsUnique(marks: seq<Mark>, i: nat, j: nat)
    requires SetsTime(marks, i) && SetsTime(marks, j)
    ensures i == j
  {
  }

  /** Outside pbc_central: no time after a save that is not completed, else the time of the save that set it. */
  lemma {:induction false} ProcessTimeLaw(code: string, history: seq<ProcessSave>) returns (i: nat)
    requires code != PBC_CENTRAL && history != []
    ensures ProcessRow(code, history).Some?
    ensures ProcessRow(code, history).value.status == history[|history| - 1].snapshot.status
    ensures history[|history| - 1].snapshot.status != Completed ==> ProcessRow(code, history).value.completedAt == None
    ensures history[|history| - 1].snapshot.status == Completed ==>
              && SetsTime(ProcessMarks(history), i)
              && ProcessRow(code, history).value.completedAt == history[i].snapshot.completedAt
  {
    var n := |history| - 1;
    var marks, before := ProcessMarks(history), history[..n];
    i := n;
    if n > 0 {
      var j := ProcessTimeLaw(code, before);
      if history[n].snapshot.status == Completed && history[n].preserve && before[n - 1].snapshot.status == Completed {
        i := j;
        assert ProcessMarks(before) == marks[..n];
      }
    }
  }

  /** Steps obey the same law, with the automatic status. */
  lemma {:induction false} StepTimeLaw(history: seq<StepSave>) returns (i: nat)
    requires history != []
    ensures StepRow(history).Some?
    ensures StepRow(history).value.autoStatus == history[|history| - 1].snapshot.autoStatus
    ensures history[|history| - 1].snapshot.autoStatus != Completed ==> StepRow(history).value.autoCompletedAt == None
    ensures history[|history| - 1].snapshot.autoStatus == Completed ==>
              && SetsTime(StepMarks(history), i)
              && StepRow(history).value.autoCompletedAt == history[i].snapshot.autoCompletedAt
  {
    var n := |history| - 1;
    var marks, before := StepMarks(history), history[..n];
    i := n;
    if n > 0 {
      var j := StepTimeLaw(before);
      if history[n].snapshot.autoStatus == Completed && history[n].preserve
         && before[n - 1].snapshot.autoStatus == Completed {
        i := j;
        assert StepMarks(before) == marks[..n];
      }
    }
  }

  /** pbc_central keeps the time of its first completed save, whatever comes after. */
  lemma {:induction false} PbcKeepsFirstTime(history: seq<ProcessSave>, first: nat)
    requires first <= |history|
    requires forall k :: 0 <= k < first ==> history[k].snapshot.status != Completed
    requires first < |history| ==>
               history[first].snapshot.status == Completed && history[first].snapshot.completedAt.Some?
    ensures first == |history|
            ==> ProcessRow(PBC_CENTRAL, history).None? || ProcessRow(PBC_CENTRAL, history).value.completedAt == None
    ensures first < |history| ==> ProcessRow(PBC_CENTRAL, history).Some?
                                  && ProcessRow(PBC_CENTRAL, history).value.completedAt
                                     == history[first].snapshot.completedAt
    ensures history != [] ==> ProcessRow(PBC_CENTRAL, history).value.status == history[|history| - 1].snapshot.status
  {
    var n := |history| - 1;
    if n >= 0 {
      if first <= n {
        PbcKeepsFirstTime(history[..n], first);
      } else {
        PbcKeepsFirstTime(history[..n], n);
      }
    }
  }

  // ----- the two tables

  datatype Write<S> = Write(code: string, save: S)

  function ProcessRows(log: seq<Write<ProcessSave>>): map<string, ProcessSnapshot> {
    if log == [] then map[]
    else
      var last, before := log[|log| - 1], ProcessRows(log[..|log| - 1]);
      before[last.code := StoredProcess(last.code, Lookup(before, last.code), last.save.snapshot, last.save.preserve)]
  }

  function StepRows(log: seq<Write<StepSave>>): map<string, StepSnapshot> {
    if log == [] then map[]
    else
      var last, before := log[|log| - 1], StepRows(log[..|log| - 1]);
      before[last.code := StoredStep(Lookup(before, last.code), last.save.snapshot, last.save.preserve)]
  }

  function WritesTo<S>(log: seq<Write<S>>, code: string): seq<S> {
    if log == [] then []
    else
      var last := log[|log| - 1];
      WritesTo(log[..|log| - 1], code) + (if last.code == code then [last.save] else [])
  }

  lemma LastWrite<S>(log: seq<Write<S>>, code: string)
    requires log != []
    ensures var last, earlier := log[|log| - 1], WritesTo(log[..|log| - 1], code);
            if last.code == code
            then WritesTo(log, code) == earlier + [last.save] && WritesTo(log, code)[..|earlier|] == earlier
            else WritesTo(log, code) == earlier
  {
    var last, earlier := log[|log| - 1], WritesTo(log[..|log| - 1], code);
    if last.code == code {
      assert (earlier + [last.save])[..|earlier|] == earlier;
    }
  }

  /** A process row depends on the saves to its own code only, however the log interleaves them. */
  lemma {:induction false} ProcessRowsAreIndependent(log: seq<Write<ProcessSave>>, code: string)
    ensures Lookup(ProcessRows(log), code) == ProcessRow(code, WritesTo(log, code))
  {
    if log != [] {
      ProcessRowsAreIndependent(log[..|log| - 1], code);
      LastWrite(log, code);
    }
  }

  /** So does a step row. */
  lemma {:induction false} StepRowsAreIndependent(log: seq<Write<StepSave>>, code: string)
    ensures Lookup(StepRows(log), code) == StepRow(WritesTo(log, code))
  {
    if log != [] {
      StepRowsAreIndependent(log[..|log| - 1], code);
      LastWrite(log, code);
    }
  }
}

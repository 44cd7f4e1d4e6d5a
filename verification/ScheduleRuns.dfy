/**
  Reporting dates under concurrent use: any number of clients run `ensure_schedule` and
  `update_schedule_owner`, each a read followed later by a write, among manual edits of dates.
*/
module ScheduleRuns {
  import opened Wrappers
  import opened Calendar
  import opened Schedules

  /** Where a client is between its statements. */
  datatype Client =
    | Idle
    | NeedsPrevious(key: Key, at: int)
    | Inserts(key: Key, row: Row)
    | Reloads(key: Key)
    | Returned(key: Key, result: Result<Option<Row>, Error>)
    | WritesOwner(key: Key, loaded: Row, owner: string, editor: string, at: int)

  datatype System = System(rows: Table, clients: seq<Client>)

  datatype Event =
    | SetDate(key: Key, row: Row)
    | BeginEnsure(i: nat, key: Key, at: int)
    | BeginOwner(i: nat, key: Key, owner: string, editor: string, at: int)
    | Advance(i: nat)

  function Move(s: System, i: nat, c: Client): System
    requires i < |s.clients|
  {
    s.(clients := s.clients[i := c])
  }

  /** The first read of `ensure_schedule`. */
  function ReadCurrent(s: System, i: nat, key: Key, at: int): System
    requires i < |s.clients|
  {
    var current := Load(s.rows, key);
    if current.Success? && current.value.None? then Move(s, i, NeedsPrevious(key, at))
    else if current.Success? && !Within(current.value.value.date, key.month)
    then Move(s, i, Returned(key, Failure(OutsideMonth)))
    else Move(s, i, Returned(key, current))
  }

  /** Its second read. */
  function ReadPrevious(s: System, i: nat, key: Key, at: int): System
    requires i < |s.clients|
  {
    var previous := Load(s.rows, key.(month := LastYear(key.month)));
    if previous.Failure? then Move(s, i, Returned(key, previous))
    else if previous.value.Some? && !Within(previous.value.value.date, LastYear(key.month)) then
      Move(s, i, Returned(key, Failure(PreviousOutsideMonth)))
    else
      var row := Candidate(key, previous.value, at);
      Move(s, i, if row.None? then Returned(key, Success(None)) else Inserts(key, row.value))
  }

  function AdvanceStep(s: System, i: nat): System
    requires i < |s.clients|
  {
    match s.clients[i]
    case NeedsPrevious(key, at) => ReadPrevious(s, i, key, at)
    case Inserts(key, row) => Move(s.(rows := InsertIfMissing(s.rows, key, row)), i, Reloads(key))
    case Reloads(key) => Move(s, i, Returned(key, Load(s.rows, key)))
    case WritesOwner(key, loaded, owner, editor, at) =>
      Move(s.(rows := SetOwner(s.rows, key, loaded, owner, editor, at)), i, Idle)
    case Returned(_, _) => Move(s, i, Idle)
    case Idle => s
  }

  predicate DateAccepted(key: Key, row: Row) {
    Parses(key.month) && Valid(row.date) && Within(row.date, key.month)
  }

  function Step(s: System, e: Event): System {
    match e
    case SetDate(key, row) => if DateAccepted(key, row) then s.(rows := Upsert(s.rows, key, row.(owner := None))) else s
    case BeginEnsure(i, key, at) =>
      if i < |s.clients| && s.clients[i].Idle? then ReadCurrent(s, i, key, at) else s
    case BeginOwner(i, key, owner, editor, at) =>
      if i < |s.clients| && s.clients[i].Idle? && Parses(key.month) && key in s.rows
      then Move(s, i, WritesOwner(key, s.rows[key], owner, editor, at)) else s
    case Advance(i) => if i < |s.clients| then AdvanceStep(s, i) else s
  }

  // ----- invariant

  predicate RowInMonth(key: Key, row: Row) {
    Parses(key.month) && Valid(row.date) && Within(row.date, key.month)
  }

  predicate ClientHolds(rows: Table, c: Client) {
    match c
    case NeedsPrevious(key, _) => Parses(key.month)
    case Inserts(key, row) => RowInMonth(key, row)
    case Reloads(key) => Parses(key.month) && key in rows
    case WritesOwner(key, loaded, _, _, _) => RowInMonth(key, loaded) && key in rows
    case Returned(key, result) => result.Success? && result.value.Some? ==> RowInMonth(key, result.value.value)
    case Idle => true
  }

  ghost predicate Invariant(s: System) {
    && AllInMonth(s.rows)
    && forall i :: 0 <= i < |s.clients| ==> ClientHolds(s.rows, s.clients[i])
  }

  lemma ReadPreviousHolds(s: System, i: nat, key: Key, at: int)
    requires Invariant(s) && i < |s.clients| && Parses(key.month)
    ensures Invariant(ReadPrevious(s, i, key, at))
  {
    var previous := Load(s.rows, key.(month := LastYear(key.month)));
    if previous.Success? {
      InheritedStaysInMonth(key, previous.value, at);
    }
  }

  lemma AdvanceKeepsInvariant(s: System, i: nat)
    requires Invariant(s) && i < |s.clients|
    ensures Invariant(AdvanceStep(s, i))
  {
    var _ := ClientHolds(s.rows, s.clients[i]);
    if s.clients[i].NeedsPrevious? {
      ReadPreviousHolds(s, i, s.clients[i].key, s.clients[i].at);
    }
  }

  lemma StepKeepsInvariant(s: System, e: Event)
    requires Invariant(s)
    ensures Invariant(Step(s, e))
  {
    if e.Advance? {
      if e.i < |s.clients| { AdvanceKeepsInvariant(s, e.i); }
    }
  }

  // ----- who changes what

  /** The event is a client's write of the key's owner. */
  predicate OwnerWrite(s: System, e: Event, key: Key) {
    e.Advance? && e.i < |s.clients| && s.clients[e.i].WritesOwner? && s.clients[e.i].key == key
  }

  predicate DateWrite(e: Event, key: Key) {
    e.SetDate? && e.key == key && DateAccepted(key, e.row)
  }

  /**
    A stored row's date and its source change only by a manual edit of that date, its owner only by an
    owner's write.
  */
  lemma OnlyWritersChange(s: System, e: Event, key: Key)
    requires Invariant(s) && key in s.rows
    ensures var after := Step(s, e).rows;
            && key in after
            && (after[key].date, after[key].source, after[key].sourceYear) ==
               (if DateWrite(e, key) then (e.row.date, e.row.source, e.row.sourceYear)
                else (s.rows[key].date, s.rows[key].source, s.rows[key].sourceYear))
            && after[key].owner ==
               (if OwnerWrite(s, e, key)
                then (if s.clients[e.i].owner == "" then None else Some(s.clients[e.i].owner))
                else s.rows[key].owner)
            && (!DateWrite(e, key) && !OwnerWrite(s, e, key) ==> after[key] == s.rows[key])
  {
    if e.Advance? && e.i < |s.clients| {
      var _ := ClientHolds(s.rows, s.clients[e.i]);
    }
  }

  /** A client's insert of the row it inherited or defaulted. */
  predicate Inheritance(s: System, e: Event, key: Key) {
    e.Advance? && e.i < |s.clients| && s.clients[e.i].Inserts? && s.clients[e.i].key == key
  }

  /**
    No row ever goes; one comes exactly by an accepted edit of its date or by a client's insert, which
    brings its own.
  */
  lemma RowAppearsIff(s: System, e: Event, key: Key)
    requires Invariant(s)
    ensures var after := Step(s, e).rows;
            && (key in after <==> key in s.rows || DateWrite(e, key) || Inheritance(s, e, key))
            && (key !in s.rows && Inheritance(s, e, key) ==> after[key] == s.clients[e.i].row)
            && (key !in s.rows && DateWrite(e, key) ==> after[key].date == e.row.date && after[key].owner == None)
  {
    if e.Advance? && e.i < |s.clients| {
      var _ := ClientHolds(s.rows, s.clients[e.i]);
    }
  }

  // ----- whole runs

  ghost predicate Execution(run: seq<System>, events: seq<Event>) {
    && |run| == |events| + 1
    && forall k, n :: 0 <= k < |events| && n == k + 1 ==> run[n] == Step(run[k], events[k])
  }

  /** Every row stays inside its month for ever, and what any client is given is in its month too. */
  lemma {:induction false} AlwaysInMonth(run: seq<System>, events: seq<Event>, k: nat)
    requires Execution(run, events) && Invariant(run[0]) && k < |run|
    ensures Invariant(run[k])
  {
    hide Step;
    if k > 0 {
      AlwaysInMonth(run, events, k - 1);
      StepKeepsInvariant(run[k - 1], events[k - 1]);
    }
  }

  /** The stored date is the last date writer's: without a manual edit of it in between, it stays. */
  lemma {:induction false} DateIsLastWriters(run: seq<System>, events: seq<Event>, key: Key, k: nat, n: nat)
    requires Execution(run, events) && Invariant(run[0]) && k <= n < |run| && key in run[k].rows
    requires forall j :: k <= j < n ==> !DateWrite(events[j], key)
    ensures key in run[n].rows
    ensures run[n].rows[key].date == run[k].rows[key].date && run[n].rows[key].source == run[k].rows[key].source
    ensures k > 0 && DateWrite(events[k - 1], key) ==> run[n].rows[key].date == events[k - 1].row.date
    decreases n
  {
    hide Step;
    if k < n {
      DateIsLastWriters(run, events, key, k, n - 1);
      AlwaysInMonth(run, events, n - 1);
      assert run[n] == Step(run[n - 1], events[n - 1]);
      OnlyWritersChange(run[n - 1], events[n - 1], key);
    } else if k > 0 {
      assert run[k] == Step(run[k - 1], events[k - 1]);
      if DateWrite(events[k - 1], key) {
        DateWriteStores(run[k - 1], events[k - 1], key);
      }
    }
  }

  /** An accepted edit stores its date, whether the row was there or not, and keeps its owner. */
  lemma DateWriteStores(s: System, e: Event, key: Key)
    requires DateWrite(e, key)
    ensures key in Step(s, e).rows && Step(s, e).rows[key].date == e.row.date
            && Step(s, e).rows[key].source == e.row.source
    ensures Step(s, e).rows[key].owner == if key in s.rows then s.rows[key].owner else None
    ensures forall k <- Step(s, e).rows :: k == key || (k in s.rows && Step(s, e).rows[k] == s.rows[k])
  {
  }

  /** The stored owner is the last owner writer's: no edit of the date and no inheritance touches it. */
  lemma {:induction false} OwnerIsLastWriters(run: seq<System>, events: seq<Event>, key: Key, k: nat, n: nat)
    requires Execution(run, events) && Invariant(run[0]) && k <= n < |run| && key in run[k].rows
    requires forall j :: k <= j < n ==> !OwnerWrite(run[j], events[j], key)
    ensures key in run[n].rows && run[n].rows[key].owner == run[k].rows[key].owner
    ensures k > 0 && OwnerWrite(run[k - 1], events[k - 1], key) ==>
              var c := run[k - 1].clients[events[k - 1].i];
              run[n].rows[key].owner == if c.owner == "" then None else Some(c.owner)
    decreases n
  {
    hide Step;
    if k < n {
      OwnerIsLastWriters(run, events, key, k, n - 1);
      AlwaysInMonth(run, events, n - 1);
      assert run[n] == Step(run[n - 1], events[n - 1]);
      OnlyWritersChange(run[n - 1], events[n - 1], key);
    } else if k > 0 {
      assert run[k] == Step(run[k - 1], events[k - 1]);
      AlwaysInMonth(run, events, k - 1);
      if OwnerWrite(run[k - 1], events[k - 1], key) {
        assert ClientHolds(run[k - 1].rows, run[k - 1].clients[events[k - 1].i]);
        OnlyWritersChange(run[k - 1], events[k - 1], key);
      }
    }
  }

  /** A client that saw no row and inserted one returns with the row then stored, its own or one written meanwhile. */
  lemma InsertIsReturned(s: System, i: nat)
    requires Invariant(s) && i < |s.clients| && s.clients[i].Reloads?
    ensures var key := s.clients[i].key;
            && key in s.rows && Step(s, Advance(i)).clients[i] == Returned(key, Success(Some(s.rows[key])))
            && RowInMonth(key, s.rows[key])
  {
    assert ClientHolds(s.rows, s.clients[i]);
  }

  /** Alone, a client's three steps are `ensure_schedule`. */
  lemma AloneIsEnsured(s: System, i: nat, key: Key, at: int)
    requires i < |s.clients| && s.clients[i].Idle?
    ensures var s1 := Step(s, BeginEnsure(i, key, at));
            var s2 := if s1.clients[i].NeedsPrevious? then Step(s1, Advance(i)) else s1;
            var s3 := if s2.clients[i].Inserts? then Step(Step(s2, Advance(i)), Advance(i)) else s2;
            (s3.rows, s3.clients[i]) == (Ensured(s.rows, key, at).0, Returned(key, Ensured(s.rows, key, at).1))
  {
    var s1 := Step(s, BeginEnsure(i, key, at));
    if s1.clients[i].NeedsPrevious? {
      var s2 := Step(s1, Advance(i));
      assert s2.rows == s.rows;
    }
  }
}

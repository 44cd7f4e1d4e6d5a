/**
  The persistent side of card providers: one row per card that records who owns it and which
  registration token may write, and the four period snapshots that a successful collection
  publishes in the same transaction.
 */
module ProviderStore {
  import opened Wrappers

  /** Card codes, owners and registration tokens are only ever compared. */
  type Card = nat
  type Owner = nat
  type Token = nat

  datatype Period = Week | Month | Quarter | Year

  const PERIODS: seq<Period> := [Week, Month, Quarter, Year]

  datatype Row = Row(
    owner: Owner,
    token: Token,
    version: int,
    active: bool,
    stale: bool,
    lastAttempt: Option<int>,
    lastSuccess: Option<int>,
    lastKey: Option<int>,
    lastError: Option<string>,
    updatedAt: int)

  datatype Snapshot = Snapshot(total: int, completed: int, incomplete: int, delta: int, at: int)

  datatype SnapshotKey = SnapshotKey(card: Card, period: Period)

  datatype Registration = Registration(card: Card, owner: Owner, token: Token, version: int)

  /** One snapshot for each period. */
  datatype Publication = Publication(week: Snapshot, month: Snapshot, quarter: Snapshot, year: Snapshot) {
    function At(period: Period): Snapshot {
      match period
      case Week => week
      case Month => month
      case Quarter => quarter
      case Year => year
    }
  }

  // ----- the four statements

  /** The assignments of ON DUPLICATE KEY UPDATE run left to right, each reading what the earlier ones wrote. */
  function ClaimUpdate(row: Row, owner: Owner, token: Token, version: int, now: int): Row {
    var r1 := row.(lastAttempt := if row.owner == owner
              then (if row.version == version then row.lastAttempt else None) else row.lastAttempt);
    var r2 := r1.(lastSuccess := if r1.owner == owner
              then (if r1.version == version then r1.lastSuccess else None)
              else r1.lastSuccess);
    var r3 := r2.(lastKey := if r2.owner == owner
              then (if r2.version == version then r2.lastKey else None)
              else r2.lastKey);
    var r4 := r3.(lastError := if r3.owner == owner
              then (if r3.version == version then r3.lastError else None)
              else r3.lastError);
    var r5 := r4.(stale := if r4.owner == owner then (if r4.version == version then r4.stale else true) else r4.stale);
    var r6 := r5.(version := if r5.owner == owner then version else r5.version);
    var r7 := r6.(active := if r6.owner == owner then true else r6.active);
    var r8 := r7.(token := if r7.owner == owner then token else r7.token);
    r8.(updatedAt := if r8.owner == owner then now else r8.updatedAt)
  }

  function Claim(rows: map<Card, Row>, reg: Registration, now: int): map<Card, Row> {
    rows[reg.card :=
    if reg.card in rows then ClaimUpdate(rows[reg.card], reg.owner, reg.token, reg.version, now)
    else Row(reg.owner, reg.token, reg.version, true, true, None, None, None, None, now)]
  }

  predicate Guard(rows: map<Card, Row>, reg: Registration) {
    reg.card in rows && rows[reg.card].owner == reg.owner && rows[reg.card].token == reg.token
  }

  function Deactivate(rows: map<Card, Row>, reg: Registration, now: int): map<Card, Row> {
    if Guard(rows, reg)
    then rows[reg.card := rows[reg.card].(active := false, stale := true, updatedAt := now)]
    else rows
  }

  function MarkFailure(rows: map<Card, Row>, reg: Registration, at: int, error: string): map<Card, Row> {
    if Guard(rows, reg)
    then rows[reg.card := rows[reg.card].(version := reg.version, active := true, stale := true,
            lastAttempt := Some(at),
            lastError := Some(error), updatedAt := at)]
    else rows
  }

  function MarkSuccess(rows: map<Card, Row>, reg: Registration, at: int, key: int): map<Card, Row> {
    if Guard(rows, reg)
    then rows[reg.card := rows[reg.card].(version := reg.version, active := true, stale := false,
            lastAttempt := Some(at),
            lastSuccess := Some(at), lastKey := Some(key), lastError := None,
            updatedAt := at)]
    else rows
  }

  function Publish(snapshots: map<SnapshotKey, Snapshot>, card: Card, p: Publication): map<SnapshotKey, Snapshot> {
    snapshots[SnapshotKey(card, Week) := p.week][SnapshotKey(card, Month) := p.month]
    [SnapshotKey(card, Quarter) := p.quarter][SnapshotKey(card, Year) := p.year]
  }

  /** What the claim amounts to: another owner's row is untouched, a new version forgets the past. */
  lemma ClaimMeaning(row: Row, owner: Owner, token: Token, version: int, now: int)
    ensures var r := ClaimUpdate(row, owner, token, version, now);
            && (row.owner != owner ==> r == row)
            && (row.owner == owner && row.version == version
                ==> r == row.(active := true, token := token, updatedAt := now))
            && (row.owner == owner && row.version != version ==>
                  r == Row(owner, token, version, true, true, None, None, None, None, now))
  {
  }

  lemma PublishReplacesFour(snapshots: map<SnapshotKey, Snapshot>, card: Card, p: Publication, key: SnapshotKey)
    ensures key.card == card
            ==> key in Publish(snapshots, card, p) && Publish(snapshots, card, p)[key] == p.At(key.period)
    ensures key.card != card ==> (key in Publish(snapshots, card, p) <==> key in snapshots)
    ensures key.card != card && key in snapshots ==> Publish(snapshots, card, p)[key] == snapshots[key]
  {
    var SnapshotKey(c, period) := key;
    match period {
      case Week =>
      case Month =>
      case Quarter =>
      case Year =>
    }
  }

  // ----- what each statement leaves, field by field

  predicate OthersStay(before: map<Card, Row>, after: map<Card, Row>, card: Card) {
    forall c <- before.Keys + after.Keys ::
      c != card ==> c in before && c in after && after[c] == before[c]
  }

  /** A row of the registration, with the results collected under its owner and version, if there are any. */
  predicate IsClaimed(before: map<Card, Row>, after: map<Card, Row>, reg: Registration, now: int) {
    && reg.card in after
    && var row := after[reg.card];
    && row.owner == reg.owner && row.token == reg.token && row.version == reg.version
    && row.active && row.updatedAt == now
    && (if reg.card in before && before[reg.card].version == reg.version then
          var was := before[reg.card];
          && row.stale == was.stale && row.lastAttempt == was.lastAttempt && row.lastSuccess == was.lastSuccess
          && row.lastKey == was.lastKey && row.lastError == was.lastError
        else
          row.stale && row.lastAttempt == None && row.lastSuccess == None && row.lastKey == None
          && row.lastError == None)
  }

  lemma ClaimLeaves(rows: map<Card, Row>, reg: Registration, now: int)
    ensures var after := Claim(rows, reg, now);
            && OthersStay(rows, after, reg.card)
            && (if reg.card in rows && rows[reg.card].owner != reg.owner then after == rows
                else IsClaimed(rows, after, reg, now))
  {
    if reg.card in rows {
      ClaimMeaning(rows[reg.card], reg.owner, reg.token, reg.version, now);
    }
  }

  /** The current registration of a card: its row carries that owner and that token. */
  predicate Current(rows: map<Card, Row>, reg: Registration) {
    reg.card in rows && rows[reg.card].owner == reg.owner && rows[reg.card].token == reg.token
  }

  /** Whose row it is does not change. */
  predicate SameHolder(a: Row, b: Row) { a.owner == b.owner && a.token == b.token }

  lemma DeactivationLeaves(rows: map<Card, Row>, reg: Registration, now: int)
    ensures var after := Deactivate(rows, reg, now);
            && OthersStay(rows, after, reg.card)
            && (if !Current(rows, reg) then after == rows
                else
                  && reg.card in after && SameHolder(after[reg.card], rows[reg.card])
                  && !after[reg.card].active && after[reg.card].stale && after[reg.card].updatedAt == now
                  && after[reg.card].version == rows[reg.card].version
                  && after[reg.card].lastAttempt == rows[reg.card].lastAttempt
                  && after[reg.card].lastSuccess == rows[reg.card].lastSuccess
                  && after[reg.card].lastKey == rows[reg.card].lastKey
                  && after[reg.card].lastError == rows[reg.card].lastError)
  {
  }

  lemma FailureLeaves(rows: map<Card, Row>, reg: Registration, at: int, error: string)
    ensures var after := MarkFailure(rows, reg, at, error);
            && OthersStay(rows, after, reg.card)
            && (if !Current(rows, reg) then after == rows
                else
                  && reg.card in after && SameHolder(after[reg.card], rows[reg.card])
                  && after[reg.card].active && after[reg.card].stale && after[reg.card].version == reg.version
                  && after[reg.card].lastAttempt == Some(at) && after[reg.card].lastError == Some(error)
                  && after[reg.card].lastSuccess == rows[reg.card].lastSuccess
                  && after[reg.card].lastKey == rows[reg.card].lastKey && after[reg.card].updatedAt == at)
  {
  }

  lemma SuccessLeaves(rows: map<Card, Row>, reg: Registration, at: int, key: int)
    ensures var after := MarkSuccess(rows, reg, at, key);
            && OthersStay(rows, after, reg.card)
            && (if !Current(rows, reg) then after == rows
                else
                  && reg.card in after && SameHolder(after[reg.card], rows[reg.card])
                  && after[reg.card].active && !after[reg.card].stale && after[reg.card].version == reg.version
                  && after[reg.card].lastAttempt == Some(at) && after[reg.card].lastSuccess == Some(at)
                  && after[reg.card].lastKey == Some(key) && after[reg.card].lastError == None
                  && after[reg.card].updatedAt == at)
  {
  }

  /** The two tables, as the store updates them. */
  class Store {
    var rows: map<Card, Row>
    var snapshots: map<SnapshotKey, Snapshot>

    constructor ()
      ensures rows == map[] && snapshots == map[]
    {
      rows, snapshots := map[], map[];
    }

    method ClaimCardProvider(reg: Registration, now: int) returns (claimed: bool)
      modifies this`rows
      ensures rows == Claim(old(rows), reg, now)
      ensures claimed <==> reg.card !in old(rows) || old(rows)[reg.card].owner == reg.owner
    {
      if reg.card in rows {
        ClaimMeaning(rows[reg.card], reg.owner, reg.token, reg.version, now);
        rows := rows[reg.card := ClaimUpdate(rows[reg.card], reg.owner, reg.token, reg.version, now)];
      } else {
        rows := rows[reg.card := Row(reg.owner, reg.token, reg.version, true, true, None, None, None, None, now)];
      }
      claimed := rows[reg.card].owner == reg.owner && rows[reg.card].token == reg.token;
    }

    method DeactivateCardProvider(reg: Registration, now: int) returns (changed: bool)
      modifies this`rows
      ensures rows == Deactivate(old(rows), reg, now) && changed == Guard(old(rows), reg)
    {
      changed := reg.card in rows && rows[reg.card].owner == reg.owner && rows[reg.card].token == reg.token;
      if changed {
        rows := rows[reg.card := rows[reg.card].(active := false, stale := true, updatedAt := now)];
      }
    }

    method MarkCardProviderFailure(reg: Registration, at: int, error: string) returns (changed: bool)
      modifies this`rows
      ensures rows == MarkFailure(old(rows), reg, at, error) && changed == Guard(old(rows), reg)
    {
      changed := reg.card in rows && rows[reg.card].owner == reg.owner && rows[reg.card].token == reg.token;
      if changed {
        rows := rows[reg.card := rows[reg.card].(version := reg.version, active := true, stale := true,
        lastAttempt := Some(at),
        lastError := Some(error), updatedAt := at)];
      }
    }

    method SaveCardProviderSuccess(reg: Registration, p: Publication, at: int, key: int) returns (saved: bool)
      modifies this
      ensures saved == Guard(old(rows), reg)
      ensures rows == MarkSuccess(old(rows), reg, at, key)
      ensures snapshots == if saved then Publish(old(snapshots), reg.card, p) else old(snapshots)
    {
      saved := reg.card in rows && rows[reg.card].owner == reg.owner && rows[reg.card].token == reg.token;
      if !saved {
        return;
      }
      rows := rows[reg.card := rows[reg.card].(version := reg.version, active := true, stale := false,
      lastAttempt := Some(at),
      lastSuccess := Some(at), lastKey := Some(key), lastError := None,
      updatedAt := at)];
      snapshots := snapshots[SnapshotKey(reg.card, Week) := p.week];
      snapshots := snapshots[SnapshotKey(reg.card, Month) := p.month];
      snapshots := snapshots[SnapshotKey(reg.card, Quarter) := p.quarter];
      snapshots := snapshots[SnapshotKey(reg.card, Year) := p.year];
    }
  }

  // ----- collecting one provider

  /** What a provider returns for one period. */
  datatype Answer =
    | Raised
    | Malformed
    | Answered(total: int, completed: int, incomplete: int, previousCompleted: int, version: int, aware: bool, at: int)

  /** `validate_statistics_result` */
  predicate Acceptable(a: Answer, version: int) {
    && a.Answered?
    && a.total >= 0 && a.completed >= 0 && a.incomplete >= 0 && a.previousCompleted >= 0
    && a.total == a.completed + a.incomplete
    && a.version == version
    && a.aware
  }

  /** Counts that add up, of the stated version, at a time with an offset. */
  function Sound(completed: nat, incomplete: nat, previous: nat, version: int, at: int): Answer {
    Answered(completed + incomplete, completed, incomplete, previous, version, true, at)
  }

  lemma AcceptableIs(a: Answer, version: int)
    ensures Acceptable(a, version) <==>
            exists completed: nat, incomplete: nat, previous: nat, at ::
              a == Sound(completed, incomplete, previous, version, at)
  {
    if Acceptable(a, version) {
      var completed: nat, incomplete: nat, previous: nat := a.completed, a.incomplete, a.previousCompleted;
      assert a == Sound(completed, incomplete, previous, version, a.at);
    }
  }

  function SnapshotOf(a: Answer): Snapshot
    requires a.Answered?
  {
    Snapshot(a.total, a.completed, a.incomplete, a.completed - a.previousCompleted, a.at)
  }

  predicate Consistent(s: Snapshot) {
    s.total == s.completed + s.incomplete && s.completed >= 0 && s.incomplete >= 0
  }

  /** The snapshot shows the counts and the time of the answer, and its change since the previous period. */
  predicate Shows(s: Snapshot, a: Answer) {
    && a.Answered?
    && s.total == a.total && s.completed == a.completed && s.incomplete == a.incomplete && s.at == a.at
    && s.delta + a.previousCompleted == s.completed
  }

  /** Four snapshots, each of its period's answer. */
  ghost predicate ShowsAll(p: Publication, answers: map<Period, Answer>) {
    forall k: Period :: k in answers && Shows(p.At(k), answers[k])
  }

  /** The publication that four answers make, if every one of them is acceptable. */
  function Collected(version: int, answers: map<Period, Answer>): (r: Option<Publication>)
    ensures r.Some? <==> forall k: Period :: k in answers && Acceptable(answers[k], version)
    ensures r.Some? ==> ShowsAll(r.value, answers) && forall k: Period :: Consistent(r.value.At(k))
  {
    if (forall k :: k in PERIODS ==> k in answers && Acceptable(answers[k], version)) then
      EveryPeriod();
      Some(Publication(SnapshotOf(answers[Week]), SnapshotOf(answers[Month]), SnapshotOf(answers[Quarter]),
                            SnapshotOf(answers[Year])))
    else None
  }

  /** `_collect_one_card_provider` up to the publication: all four periods, or nothing. */
  method CollectPeriods(version: int, answers: map<Period, Answer>) returns (r: Option<Publication>)
    ensures r == Collected(version, answers)
    ensures r.Some? <==> forall k: Period :: k in answers && Acceptable(answers[k], version)
    ensures r.Some? ==> ShowsAll(r.value, answers)
  {
    var collected: map<Period, Snapshot> := map[];
    var i := 0;
    while i < |PERIODS|
      invariant 0 <= i <= |PERIODS|
      invariant forall k :: k in PERIODS[..i] ==>
                              (k in answers && Acceptable(answers[k], version) && k in collected
                               && collected[k] == SnapshotOf(answers[k]))
    {
      var k := PERIODS[i];
      if k !in answers || !answers[k].Answered? {
        return None;
      }
      var a := answers[k];
      if a.total < 0 || a.completed < 0 || a.incomplete < 0 || a.previousCompleted < 0
         || a.total != a.completed + a.incomplete || a.version != version || !a.aware {
        return None;
      }
      collected := collected[k := SnapshotOf(a)];
      assert PERIODS[..i + 1] == PERIODS[..i] + [k];
      i := i + 1;
    }
    assert PERIODS[..i] == PERIODS;
    EveryPeriod();
    r := Some(Publication(collected[Week], collected[Month], collected[Quarter], collected[Year]));
  }

  lemma EveryPeriod()
    ensures forall k: Period :: k in PERIODS
  {
    forall k: Period
      ensures k in PERIODS
    {
      match k {
        case Week => assert PERIODS[0] == k;
        case Month => assert PERIODS[1] == k;
        case Quarter => assert PERIODS[2] == k;
        case Year => assert PERIODS[3] == k;
      }
    }
  }
}

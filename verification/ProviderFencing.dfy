/**
  Several registries, each in its own process, over one provider store. A registry holds its
  lock from its memory check to the end of the store transaction that follows; between its
  steps the others take any number of steps.
 */
module ProviderFencing {
  import opened Wrappers
  import opened ProviderStore

  /** What a registry's lock is held for. */
  datatype Hold =
    | Unlocked
    | Inserting(reg: Registration)
    | Deactivating(reg: Registration)
    | Publishing(reg: Registration, publication: Publication, at: int, key: int)
    | Failing(reg: Registration, at: int)

  /** `issued` are the registrations the process has handed out, to handles and to collections in flight. */
  datatype Registry = Registry(memory: map<Card, Registration>, hold: Hold, issued: set<Registration>)

  datatype System = System(
    rows: map<Card, Row>,
    snapshots: map<SnapshotKey, Snapshot>,
    registries: map<nat, Registry>,
    used: set<Token>,
    published: map<Card, (Registration, Publication, int)>)   // history: the last publication of each card

  /** `Abort` is a store transaction that raises: nothing is written, and the lock is released. */
  datatype Event =
    | Register(process: nat, reg: Registration, now: int)
    | Insert(process: nat)
    | Close(process: nat, reg: Registration)
    | DeactivateRow(process: nat, now: int)
    | Apply(process: nat, reg: Registration, answers: map<Period, Answer>, at: int, key: int)
    | Commit(process: nat)
    | Abort(process: nat)
    | Crash(process: nat)

  predicate InMemory(r: Registry, reg: Registration) {
    reg.card in r.memory && r.memory[reg.card].token == reg.token
  }

  predicate Possible(s: System, e: Event) {
    && e.process in s.registries
    && var r := s.registries[e.process];
    match e
    case Register(_, reg, _) => r.hold.Unlocked? && reg.token !in s.used && reg.version > 0
    case Insert(_) => r.hold.Inserting?
    case Close(_, reg) => r.hold.Unlocked? && reg in r.issued
    case DeactivateRow(_, _) => r.hold.Deactivating?
    case Apply(_, reg, _, _, _) => r.hold.Unlocked? && reg in r.issued
    case Commit(_) => r.hold.Publishing? || r.hold.Failing?
    case Abort(_) => !r.hold.Unlocked?
    case Crash(_) => true
  }

  function WithRegistry(s: System, process: nat, r: Registry): System {
    s.(registries := s.registries[process := r])
  }

  /** `register`: conflict with a live registration of this process, then the claim transaction. */
  function DoRegister(s: System, p: nat, reg: Registration, now: int): System
    requires p in s.registries
  {
    var r := s.registries[p];
    if reg.card in r.memory then s
    else
      var claimed := reg.card !in s.rows || s.rows[reg.card].owner == reg.owner;
      WithRegistry(s, p, if claimed then r.(hold := Inserting(reg)) else r)
      .(rows := Claim(s.rows, reg, now), used := s.used + {reg.token})
  }

  /** `apply_if_current` with the result of a collection: the memory check, under the lock. */
  function DoApply(s: System, p: nat, reg: Registration, answers: map<Period, Answer>, at: int, key: int): System
    requires p in s.registries
  {
    var r := s.registries[p];
    if !InMemory(r, reg) then s
    else
      var collected := Collected(reg.version, answers);
      WithRegistry(s, p, r.(hold := if collected.Some?
                   then Publishing(reg, collected.value, at, key)
                   else Failing(reg, at)))
  }

  /** The transaction of `save_card_provider_success` or `mark_card_provider_failure`. */
  function DoCommit(s: System, p: nat): System
    requires p in s.registries && (s.registries[p].hold.Publishing? || s.registries[p].hold.Failing?)
  {
    var r := s.registries[p];
    var t := WithRegistry(s, p, r.(hold := Unlocked));
    match r.hold
    case Failing(reg, at) => t.(rows := MarkFailure(s.rows, reg, at, "provider statistics failed"))
    case Publishing(reg, publication, at, key) =>
      if Guard(s.rows, reg) then
        t.(rows := MarkSuccess(s.rows, reg, at, key),
        snapshots := Publish(s.snapshots, reg.card, publication),
        published := s.published[reg.card := (reg, publication, at)])
      else t
  }

  function Step(s: System, e: Event): System
    requires Possible(s, e)
  {
    var r := s.registries[e.process];
    match e
    case Register(p, reg, now) => DoRegister(s, p, reg, now)
    case Insert(p) =>
      var reg := r.hold.reg;
      WithRegistry(s, p, Registry(r.memory[reg.card := reg], Unlocked, r.issued + {reg}))
    case Close(p, reg) =>
      if InMemory(r, reg) then WithRegistry(s, p, r.(memory := r.memory - {reg.card}, hold := Deactivating(reg))) else s
    case DeactivateRow(p, now) =>
      WithRegistry(s, p, r.(hold := Unlocked)).(rows := Deactivate(s.rows, r.hold.reg, now))
    case Apply(p, reg, answers, at, key) => DoApply(s, p, reg, answers, at, key)
    case Commit(p) => DoCommit(s, p)
    case Abort(p) => WithRegistry(s, p, r.(hold := Unlocked))
    case Crash(p) => WithRegistry(s, p, Registry(map[], Unlocked, {}))
  }

  ghost predicate Initial(s: System) {
    && s.rows == map[] && s.snapshots == map[] && s.published == map[]
    && forall p :: p in s.registries ==> s.registries[p] == Registry(map[], Unlocked, {})
  }

  ghost predicate Execution(states: seq<System>, events: seq<Event>) {
    && |states| == |events| + 1
    && forall i, j :: 0 <= i && j == i + 1 && j < |states|
                      ==> Possible(states[i], events[i]) && states[j] == Step(states[i], events[i])
  }

  lemma Edge(states: seq<System>, events: seq<Event>, i: nat)
    requires Execution(states, events) && i < |events|
    ensures Possible(states[i], events[i]) && states[i + 1] == Step(states[i], events[i])
  {
    var j := i + 1;
    assert states[j] == states[i + 1];
  }

  // ----- ownership

  /** Once a card has a row, its owner never changes. */
  lemma OwnerIsFixed(s: System, e: Event, card: Card)
    requires Possible(s, e) && card in s.rows
    ensures card in Step(s, e).rows && Step(s, e).rows[card].owner == s.rows[card].owner
  {
    if e.Register? && e.reg.card in s.rows {
      ClaimMeaning(s.rows[e.reg.card], e.reg.owner, e.reg.token, e.reg.version, e.now);
    }
  }

  lemma {:induction false} OwnerForever(states: seq<System>, events: seq<Event>, i: nat, j: nat, card: Card)
    requires Execution(states, events) && i <= j < |states| && card in states[i].rows
    ensures card in states[j].rows && states[j].rows[card].owner == states[i].rows[card].owner
    decreases j
  {
    if i < j {
      OwnerForever(states, events, i, j - 1, card);
      Edge(states, events, j - 1);
      OwnerIsFixed(states[j - 1], events[j - 1], card);
    }
  }

  // ----- who may publish

  predicate HoldsToken(r: Registry, t: Token) {
    !r.hold.Unlocked? && r.hold.reg.token == t
  }

  /** Tokens in memory or in a held lock have been drawn; a registry applies only what it still has in memory. */
  ghost predicate RegistryWellformed(r: Registry, used: set<Token>) {
    && (forall c :: c in r.memory ==> r.memory[c].card == c && r.memory[c].token in used)
    && (forall reg :: reg in r.issued ==> reg.token in used)
    && (!r.hold.Unlocked? ==> r.hold.reg.token in used)
    && (r.hold.Publishing? || r.hold.Failing? ==> InMemory(r, r.hold.reg))
    && (r.hold.Publishing? ==> forall k: Period :: Consistent(r.hold.publication.At(k)))
  }

  ghost predicate Wellformed(s: System) {
    && (forall p :: p in s.registries ==> RegistryWellformed(s.registries[p], s.used))
    && (forall c :: c in s.rows ==> s.rows[c].token in s.used)
  }

  lemma StepKeepsRegistry(s: System, e: Event)
    requires Wellformed(s) && Possible(s, e)
    ensures RegistryWellformed(Step(s, e).registries[e.process], Step(s, e).used)
  {
    assert RegistryWellformed(s.registries[e.process], s.used);
  }

  lemma StepKeepsRowTokens(s: System, e: Event)
    requires Wellformed(s) && Possible(s, e)
    ensures forall c :: c in Step(s, e).rows ==> Step(s, e).rows[c].token in Step(s, e).used
  {
    assert RegistryWellformed(s.registries[e.process], s.used);
    if e.Register? && e.reg.card in s.rows {
      ClaimMeaning(s.rows[e.reg.card], e.reg.owner, e.reg.token, e.reg.version, e.now);
    }
  }

  lemma StepKeepsWellformed(s: System, e: Event)
    requires Wellformed(s) && Possible(s, e)
    ensures Wellformed(Step(s, e))
  {
    StepKeepsRegistry(s, e);
    StepKeepsRowTokens(s, e);
    var t := Step(s, e);
    assert s.used <= t.used;
    forall p | p in t.registries && p != e.process
      ensures RegistryWellformed(t.registries[p], t.used)
    {
      assert RegistryWellformed(s.registries[p], s.used);
    }
  }

  lemma {:induction false} AlwaysWellformed(states: seq<System>, events: seq<Event>, i: nat)
    requires Execution(states, events) && Initial(states[0]) && i < |states|
    ensures Wellformed(states[i])
  {
    if i > 0 {
      AlwaysWellformed(states, events, i - 1);
      Edge(states, events, i - 1);
      StepKeepsWellformed(states[i - 1], events[i - 1]);
    }
  }

  /**
    Snapshots change only when a registry commits a publication whose token is the row's
    current one and is still in that registry's memory; then all four periods of that card
    are replaced together, each total the sum of its parts, and no other card is touched.
   */
  lemma OnlyCurrentTokenPublishes(s: System, e: Event)
    requires Wellformed(s) && Possible(s, e) && Step(s, e).snapshots != s.snapshots
    ensures e.Commit?
    ensures var r := s.registries[e.process];
            && r.hold.Publishing? && InMemory(r, r.hold.reg) && Guard(s.rows, r.hold.reg)
            && (forall k: Period ::
                  && SnapshotKey(r.hold.reg.card, k) in Step(s, e).snapshots
                  && Step(s, e).snapshots[SnapshotKey(r.hold.reg.card, k)] == r.hold.publication.At(k)
                  && Consistent(r.hold.publication.At(k)))
            && (forall key :: key in s.snapshots && key.card != r.hold.reg.card ==>
                                key in Step(s, e).snapshots && Step(s, e).snapshots[key] == s.snapshots[key])
  {
    var r := s.registries[e.process];
    assert RegistryWellformed(r, s.used);
    forall key: SnapshotKey {
      PublishReplacesFour(s.snapshots, r.hold.reg.card, r.hold.publication, key);
    }
    forall k: Period
      ensures SnapshotKey(r.hold.reg.card, k) in Step(s, e).snapshots
      ensures Step(s, e).snapshots[SnapshotKey(r.hold.reg.card, k)] == r.hold.publication.At(k)
    {
      PublishReplacesFour(s.snapshots, r.hold.reg.card, r.hold.publication, SnapshotKey(r.hold.reg.card, k));
    }
  }

  /** What a step makes of the registry that takes it, and of the others. */
  lemma ActingRegistry(s: System, e: Event)
    requires Possible(s, e)
    ensures e.process in s.registries && Step(s, e).registries.Keys == s.registries.Keys
    ensures forall q :: q in s.registries && q != e.process ==> Step(s, e).registries[q] == s.registries[q]
    ensures var r, after := s.registries[e.process], Step(s, e).registries[e.process];
            && (forall c :: c in after.memory ==>
                              || (c in r.memory && after.memory[c] == r.memory[c])
                              || (e.Insert? && r.hold.Inserting? && c == r.hold.reg.card
                                  && after.memory[c] == r.hold.reg))
            && (|| after.hold.Unlocked? || after.hold == r.hold
                || (e.Register? && after.hold == Inserting(e.reg))
                || (e.Close? && after.hold == Deactivating(e.reg))
                || (e.Apply? && InMemory(r, e.reg) && !after.hold.Inserting? && after.hold.reg == e.reg))
    ensures Step(s, e).used == s.used || (e.Register? && Step(s, e).used == s.used + {e.reg.token})
  {
    hide Claim, Deactivate, MarkFailure, MarkSuccess, Publish, Guard, Collected;
  }

  /** A publication waiting for its transaction was made by the collection applied before it, of that one's answers. */
  lemma {:induction false} PublicationIsApplied(states: seq<System>, events: seq<Event>, j: nat, p: nat)
    returns (i: nat)
    requires Execution(states, events) && Initial(states[0]) && j < |states|
    requires p in states[j].registries && states[j].registries[p].hold.Publishing?
    ensures i < j && events[i].Apply? && events[i].process == p
    ensures var hold := states[j].registries[p].hold;
            && events[i].reg == hold.reg && events[i].at == hold.at && events[i].key == hold.key
            && ShowsAll(hold.publication, events[i].answers)
            && forall k: Period :: Acceptable(events[i].answers[k], hold.reg.version)
  {
    Edge(states, events, j - 1);
    var e, before := events[j - 1], states[j - 1];
    ActingRegistry(before, e);
    if e.process == p && before.registries[p].hold != states[j].registries[p].hold {
      i := j - 1;
      AppliedShows(before, e);
    } else {
      hide Step, Possible, ShowsAll;
      i := PublicationIsApplied(states, events, j - 1, p);
    }
  }

  lemma AppliedShows(s: System, e: Event)
    requires Possible(s, e) && Step(s, e).registries[e.process].hold.Publishing?
    requires Step(s, e).registries[e.process].hold != s.registries[e.process].hold
    ensures var hold := Step(s, e).registries[e.process].hold;
            && e.Apply? && e.reg == hold.reg && e.at == hold.at && e.key == hold.key
            && ShowsAll(hold.publication, e.answers)
            && forall k: Period :: Acceptable(e.answers[k], hold.reg.version)
  {
    hide ShowsAll, Acceptable, Claim, Deactivate, MarkFailure, MarkSuccess, Publish, Guard;
  }

  /**
    Whatever snapshots a commit changes, the four it leaves show the answers that the collection of the
    card's current registration was given, period by period.
   */
  lemma PublishedCountsAreAnswers(states: seq<System>, events: seq<Event>, j: nat) returns (i: nat)
    requires Execution(states, events) && Initial(states[0]) && j < |events|
    requires states[j + 1].snapshots != states[j].snapshots
    ensures i < j && events[i].Apply? && events[j] == Commit(events[i].process)
    ensures events[i].reg.card in states[j].rows && states[j].rows[events[i].reg.card].token == events[i].reg.token
    ensures forall k: Period ::
              && SnapshotKey(events[i].reg.card, k) in states[j + 1].snapshots && k in events[i].answers
              && Shows(states[j + 1].snapshots[SnapshotKey(events[i].reg.card, k)], events[i].answers[k])
  {
    Edge(states, events, j);
    AlwaysWellformed(states, events, j);
    OnlyCurrentTokenPublishes(states[j], events[j]);
    i := PublicationIsApplied(states, events, j, events[j].process);
  }

  /**
    A collection is taken up while its registration is in memory, and published exactly when all four
    answers are sound.
  */
  lemma ApplyDecides(s: System, e: Event)
    requires Possible(s, e) && e.Apply?
    ensures var r, hold := s.registries[e.process], Step(s, e).registries[e.process].hold;
            var current := e.reg.card in r.memory && r.memory[e.reg.card].token == e.reg.token;
            && Step(s, e).rows == s.rows && Step(s, e).snapshots == s.snapshots
            && (!current ==> hold == r.hold)
            && (current && (forall k: Period :: k in e.answers && Acceptable(e.answers[k], e.reg.version)) ==>
                  hold.Publishing? && hold.reg == e.reg && hold.at == e.at && hold.key == e.key)
            && (current && !(forall k: Period :: k in e.answers && Acceptable(e.answers[k], e.reg.version)) ==>
                  hold == Failing(e.reg, e.at))
  {
  }

  /** A commit that finds its registration current records the attempt; one that does not changes nothing. */
  lemma CommitRecords(s: System, e: Event)
    requires Possible(s, e) && e.Commit?
    ensures var hold, after := s.registries[e.process].hold, Step(s, e);
            var reg := hold.reg;
            && after.registries[e.process].hold.Unlocked? && OthersStay(s.rows, after.rows, reg.card)
            && (!Current(s.rows, reg) ==> after.rows == s.rows && after.snapshots == s.snapshots)
            && (Current(s.rows, reg) ==>
                  && reg.card in after.rows && after.rows[reg.card].lastAttempt == Some(hold.at)
                  && (hold.Publishing? ==>
                        && !after.rows[reg.card].stale && after.rows[reg.card].lastSuccess == Some(hold.at)
                        && after.rows[reg.card].lastKey == Some(hold.key) && after.rows[reg.card].lastError == None)
                  && (hold.Failing? ==>
                        && after.rows[reg.card].stale && after.rows[reg.card].lastError.Some?
                        && after.rows[reg.card].lastSuccess == s.rows[reg.card].lastSuccess
                        && after.snapshots == s.snapshots))
  {
    var hold := s.registries[e.process].hold;
    if hold.Publishing? {
      SuccessLeaves(s.rows, hold.reg, hold.at, hold.key);
    } else {
      FailureLeaves(s.rows, hold.reg, hold.at, "provider statistics failed");
    }
    hide MarkSuccess, MarkFailure, Publish;
  }

  ghost predicate OtherRegistriesStay(before: map<nat, Registry>, after: map<nat, Registry>, p: nat) {
    after.Keys == before.Keys && forall q <- before :: q != p ==> after[q] == before[q]
  }

  /**
    A registration is refused while the card is taken in this process or its row is another owner's; else it
    is claimed.
  */
  lemma RegisterDecides(s: System, e: Event)
    requires Possible(s, e) && e.Register?
    ensures var r, after := s.registries[e.process], Step(s, e);
            var foreign := e.reg.card in s.rows && s.rows[e.reg.card].owner != e.reg.owner;
            && after.snapshots == s.snapshots && OtherRegistriesStay(s.registries, after.registries, e.process)
            && OthersStay(s.rows, after.rows, e.reg.card)
            && (e.reg.card in r.memory || foreign ==> after.rows == s.rows && after.registries[e.process] == r)
            && (e.reg.card !in r.memory && !foreign ==>
                  && IsClaimed(s.rows, after.rows, e.reg, e.now)
                  && after.registries[e.process].memory == r.memory
                  && after.registries[e.process].hold == Inserting(e.reg))
  {
    ClaimLeaves(s.rows, e.reg, e.now);
    hide Claim;
  }

  /** Then it enters the memory, and its handle is given out. */
  lemma InsertAdds(s: System, e: Event)
    requires Possible(s, e) && e.Insert?
    ensures var r, after := s.registries[e.process], Step(s, e);
            var reg, now := r.hold.reg, after.registries[e.process];
            && after.rows == s.rows && after.snapshots == s.snapshots
            && OtherRegistriesStay(s.registries, after.registries, e.process)
            && now.hold.Unlocked? && reg.card in now.memory && now.memory[reg.card] == reg
            && (forall c <- now.memory :: c == reg.card || (c in r.memory && now.memory[c] == r.memory[c]))
            && (forall c <- r.memory :: c in now.memory)
            && (forall g :: g in now.issued <==> g in r.issued || g == reg)
  {
  }

  /** A handle closes its own registration while that is in memory; later it closes nothing. */
  lemma CloseDecides(s: System, e: Event)
    requires Possible(s, e) && e.Close?
    ensures var r, after := s.registries[e.process], Step(s, e);
            && after.rows == s.rows && after.snapshots == s.snapshots
            && OtherRegistriesStay(s.registries, after.registries, e.process)
            && (if e.reg.card in r.memory && r.memory[e.reg.card].token == e.reg.token then
                  && after.registries[e.process].hold == Deactivating(e.reg)
                  && (forall c :: c in after.registries[e.process].memory <==> c in r.memory && c != e.reg.card)
                  && (forall c <- after.registries[e.process].memory ::
                        after.registries[e.process].memory[c] == r.memory[c])
                else after.registries[e.process] == r)
  {
  }

  /** A closed card is inactive and stale afterwards, unless its row was claimed anew. */
  lemma CloseDeactivates(s: System, e: Event)
    requires Possible(s, e) && e.DeactivateRow?
    ensures var reg, after := s.registries[e.process].hold.reg, Step(s, e);
            && after.snapshots == s.snapshots && after.registries[e.process].hold.Unlocked?
            && after.registries[e.process].memory == s.registries[e.process].memory
            && OtherRegistriesStay(s.registries, after.registries, e.process)
            && OthersStay(s.rows, after.rows, reg.card)
            && (!Current(s.rows, reg) ==> after.rows == s.rows)
            && (Current(s.rows, reg) ==>
                  reg.card in after.rows && !after.rows[reg.card].active && after.rows[reg.card].stale)
  {
    DeactivationLeaves(s.rows, s.registries[e.process].hold.reg, e.now);
    hide Deactivate;
  }

  // ----- whose registrations a process holds

  /** Every registration in memory, or about to get there, is of the card's owner. */
  predicate OfOwner(rows: map<Card, Row>, reg: Registration) {
    reg.card in rows && rows[reg.card].owner == reg.owner
  }

  predicate HoldsOwned(r: Registry, rows: map<Card, Row>) {
    && (forall c <- r.memory :: OfOwner(rows, r.memory[c]))
    && (!r.hold.Unlocked? ==> OfOwner(rows, r.hold.reg))
    && (forall reg <- r.issued :: OfOwner(rows, reg))
  }

  ghost predicate AllOwned(s: System) {
    forall p <- s.registries :: HoldsOwned(s.registries[p], s.rows)
  }

  lemma StepKeepsOwner(s: System, e: Event, reg: Registration)
    requires Possible(s, e) && OfOwner(s.rows, reg)
    ensures OfOwner(Step(s, e).rows, reg)
  {
    OwnerIsFixed(s, e, reg.card);
  }

  lemma ActingStaysOwned(s: System, e: Event)
    requires Possible(s, e) && HoldsOwned(s.registries[e.process], s.rows)
    ensures HoldsOwned(Step(s, e).registries[e.process], Step(s, e).rows)
  {
    if e.Register? {
      ClaimLeaves(s.rows, e.reg, e.now);
    }
    hide ClaimUpdate, Deactivate, MarkFailure, MarkSuccess, Publish, Collected;
    var r, after := s.registries[e.process], Step(s, e).registries[e.process];
    forall reg | OfOwner(s.rows, reg) ensures OfOwner(Step(s, e).rows, reg) {
      StepKeepsOwner(s, e, reg);
    }
  }

  /** No process ever holds a registration of a card that is another owner's. */
  lemma {:induction false} AlwaysOwned(states: seq<System>, events: seq<Event>, i: nat)
    requires Execution(states, events) && Initial(states[0]) && i < |states|
    ensures AllOwned(states[i])
  {
    if i > 0 {
      AlwaysOwned(states, events, i - 1);
      Edge(states, events, i - 1);
      StepKeepsOwned(states[i - 1], events[i - 1]);
    }
  }

  lemma StepKeepsOwned(s: System, e: Event)
    requires AllOwned(s) && Possible(s, e)
    ensures AllOwned(Step(s, e))
  {
    ActingRegistry(s, e);
    ActingStaysOwned(s, e);
    hide Step, Possible, OfOwner;
    forall p | p in s.registries && p != e.process ensures HoldsOwned(s.registries[p], Step(s, e).rows) {
      assert HoldsOwned(s.registries[p], s.rows);
      forall reg | OfOwner(s.rows, reg) ensures OfOwner(Step(s, e).rows, reg) {
        StepKeepsOwner(s, e, reg);
      }
    }
  }

  // ----- retired tokens

  /** The token was drawn, and the card's row carries another one. */
  predicate Superseded(s: System, reg: Registration) {
    reg.token in s.used && (reg.card in s.rows ==> s.rows[reg.card].token != reg.token)
  }

  lemma SupersededStays(s: System, e: Event, reg: Registration)
    requires Possible(s, e) && Superseded(s, reg)
    ensures Superseded(Step(s, e), reg)
  {
    if e.Register? && e.reg.card in s.rows {
      ClaimMeaning(s.rows[e.reg.card], e.reg.owner, e.reg.token, e.reg.version, e.now);
    }
  }

  /** Nothing a superseded registration does reaches the store: not its close, not its collections. */
  lemma SupersededChangesNothing(s: System, e: Event, reg: Registration)
    requires Possible(s, e) && Superseded(s, reg)
    requires e.DeactivateRow? || e.Commit?
    requires s.registries[e.process].hold.reg == reg
    ensures Step(s, e).rows == s.rows && Step(s, e).snapshots == s.snapshots
  {
  }

  /** The token was drawn, and this registry has it neither in memory nor in a held lock that could apply it. */
  predicate Dropped(s: System, p: nat, t: Token)
  {
    && p in s.registries && t in s.used
    && (forall c :: c in s.registries[p].memory ==> s.registries[p].memory[c].token != t)
    && (s.registries[p].hold.Unlocked? || s.registries[p].hold.Deactivating? || s.registries[p].hold.reg.token != t)
  }

  lemma DroppedStays(s: System, e: Event, p: nat, t: Token)
    requires Wellformed(s) && Possible(s, e) && Dropped(s, p, t)
    ensures Dropped(Step(s, e), p, t)
  {
    ActingRegistry(s, e);
    assert e.Register? ==> e.reg.token !in s.used;
    hide Step, Possible, Wellformed;
  }

  /** Closing a handle that is still in memory drops its token. */
  lemma CloseDrops(s: System, p: nat, reg: Registration)
    requires Wellformed(s) && Possible(s, Close(p, reg)) && TokensDistinct(s.registries[p])
    ensures Dropped(Step(s, Close(p, reg)), p, reg.token) || !InMemory(s.registries[p], reg)
  {
  }

  /** No two cards of one registry share a token. */
  predicate TokensDistinct(r: Registry) {
    forall c, d :: c in r.memory && d in r.memory && r.memory[c].token == r.memory[d].token ==> c == d
  }

  predicate Apart(r: Registry) {
    && TokensDistinct(r)
    && (r.hold.Inserting? ==> forall c :: c in r.memory ==> r.memory[c].token != r.hold.reg.token)
  }

  /** Nor do two registries, counting the one that a claim is about to insert. */
  predicate Disjoint(a: Registry, b: Registry) {
    && (forall c, d :: c in a.memory && d in b.memory ==> a.memory[c].token != b.memory[d].token)
    && (a.hold.Inserting? ==> forall d :: d in b.memory ==> b.memory[d].token != a.hold.reg.token)
    && (b.hold.Inserting? ==> forall c :: c in a.memory ==> a.memory[c].token != b.hold.reg.token)
    && (a.hold.Inserting? && b.hold.Inserting? ==> a.hold.reg.token != b.hold.reg.token)
  }

  ghost predicate AllDistinct(s: System) {
    && (forall p :: p in s.registries ==> Apart(s.registries[p]))
    && (forall p, q :: p in s.registries && q in s.registries && p != q ==> Disjoint(s.registries[p], s.registries[q]))
  }

  /** The registry that steps stays apart from any other: a token it takes up is one it had, or one just drawn. */
  lemma StepKeepsDisjoint(s: System, e: Event, q: nat)
    requires Possible(s, e) && q in s.registries && q != e.process && Disjoint(s.registries[e.process], s.registries[q])
    requires RegistryWellformed(s.registries[q], s.used)
    ensures q in Step(s, e).registries && Step(s, e).registries[q] == s.registries[q]
    ensures Disjoint(Step(s, e).registries[e.process], s.registries[q])
  {
    ActingRegistry(s, e);
    assert e.Register? ==> e.reg.token !in s.used;
    hide Step, Possible;
  }

  lemma StepKeepsApart(s: System, e: Event)
    requires Possible(s, e) && Apart(s.registries[e.process]) && RegistryWellformed(s.registries[e.process], s.used)
    ensures Apart(Step(s, e).registries[e.process])
  {
    ActingRegistry(s, e);
    assert e.Register? ==> e.reg.token !in s.used;
    hide Step, Possible;
  }

  lemma DisjointBothWays(a: Registry, b: Registry)
    ensures Disjoint(a, b) <==> Disjoint(b, a)
  {
  }

  lemma StepKeepsDistinct(s: System, e: Event)
    requires Wellformed(s) && AllDistinct(s) && Possible(s, e)
    ensures AllDistinct(Step(s, e))
  {
    hide Step, Apart, Possible, RegistryWellformed, Disjoint;
    var t, at := Step(s, e), e.process;
    ActingRegistry(s, e);
    StepKeepsApart(s, e);
    forall q | q in s.registries && q != at
      ensures t.registries[q] == s.registries[q]
      ensures Disjoint(t.registries[at], t.registries[q]) && Disjoint(t.registries[q], t.registries[at])
    {
      StepKeepsDisjoint(s, e, q);
      DisjointBothWays(t.registries[at], t.registries[q]);
    }
  }

  lemma {:induction false} AlwaysDistinct(states: seq<System>, events: seq<Event>, i: nat)
    requires Execution(states, events) && Initial(states[0]) && i < |states|
    ensures AllDistinct(states[i])
  {
    if i > 0 {
      AlwaysDistinct(states, events, i - 1);
      AlwaysWellformed(states, events, i - 1);
      Edge(states, events, i - 1);
      StepKeepsDistinct(states[i - 1], events[i - 1]);
    }
  }

  lemma {:induction false} DroppedForever(states: seq<System>, events: seq<Event>, i: nat, j: nat, p: nat, t: Token)
    requires Execution(states, events) && Initial(states[0]) && i <= j < |states| && Dropped(states[i], p, t)
    ensures Dropped(states[j], p, t)
    decreases j
  {
    hide Step, Possible, Wellformed, Dropped;
    if i < j {
      DroppedForever(states, events, i, j - 1, p, t);
      AlwaysWellformed(states, events, j - 1);
      Edge(states, events, j - 1);
      DroppedStays(states[j - 1], events[j - 1], p, t);
    }
  }

  lemma {:induction false} SupersededForever(states: seq<System>, events: seq<Event>, i: nat, j: nat, reg: Registration)
    requires Execution(states, events) && i <= j < |states| && Superseded(states[i], reg)
    ensures Superseded(states[j], reg)
    decreases j
  {
    if i < j {
      SupersededForever(states, events, i, j - 1, reg);
      Edge(states, events, j - 1);
      SupersededStays(states[j - 1], events[j - 1], reg);
    }
  }

  /**
    A collection that overlaps its handle's close publishes nothing: once the close has
    happened, whatever comes back with that registration in that process is never committed.
   */
  lemma ClosedNeverPublishes(states: seq<System>, events: seq<Event>, i: nat, j: nat, p: nat, reg: Registration)
    requires Execution(states, events) && Initial(states[0]) && i < j < |events|
    requires events[i] == Close(p, reg) && events[j] == Commit(p)
    requires p in states[i].registries && InMemory(states[i].registries[p], reg)
    ensures p in states[j].registries && !HoldsToken(states[j].registries[p], reg.token)
  {
    Edge(states, events, i);
    Edge(states, events, j);
    AlwaysWellformed(states, events, i);
    AlwaysDistinct(states, events, i);
    assert Apart(states[i].registries[p]);
    CloseDrops(states[i], p, reg);
    DroppedForever(states, events, i + 1, j, p, reg.token);
  }

  /** A registration superseded by another claim never changes the store again, whatever is still in flight. */
  lemma SupersededNeverPublishes(states: seq<System>, events: seq<Event>, i: nat, j: nat, reg: Registration)
    requires Execution(states, events) && i <= j < |events| && Superseded(states[i], reg)
    requires events[j].Commit? || events[j].DeactivateRow?
    requires events[j].process in states[j].registries && !states[j].registries[events[j].process].hold.Unlocked?
    requires states[j].registries[events[j].process].hold.reg == reg
    ensures states[j + 1].rows == states[j].rows && states[j + 1].snapshots == states[j].snapshots
  {
    Edge(states, events, j);
    SupersededForever(states, events, i, j, reg);
    SupersededChangesNothing(states[j], events[j], reg);
  }

  /** A successful claim supersedes every registration drawn before it for that card. */
  lemma ClaimSupersedes(s: System, p: nat, latest: Registration, now: int, reg: Registration)
    requires Wellformed(s) && Possible(s, Register(p, latest, now))
    requires latest.card !in s.registries[p].memory
             && (latest.card in s.rows ==> s.rows[latest.card].owner == latest.owner)
    requires reg.card == latest.card && reg.token in s.used
    ensures Superseded(Step(s, Register(p, latest, now)), reg)
  {
    if latest.card in s.rows {
      ClaimMeaning(s.rows[latest.card], latest.owner, latest.token, latest.version, now);
    }
  }

  // ----- what the rows say

  /** Not stale: active, with a recorded success of this owner and version, and no error. */
  predicate FreshRow(s: System, c: Card)
    requires c in s.rows
  {
    !s.rows[c].stale ==>
      && s.rows[c].active && s.rows[c].lastSuccess.Some? && s.rows[c].lastError.None?
      && c in s.published
      && s.published[c].0.owner == s.rows[c].owner && s.published[c].0.version == s.rows[c].version
      && s.rows[c].lastSuccess == Some(s.published[c].2)
  }

  /** The four stored snapshots of a card are those of one publication. */
  predicate OnePublication(s: System, c: Card, k: Period) {
    && (SnapshotKey(c, k) in s.snapshots <==> c in s.published)
    && (c in s.published ==> s.snapshots[SnapshotKey(c, k)] == s.published[c].1.At(k)
                             && Consistent(s.published[c].1.At(k)))
  }

  ghost predicate RowsTellTruth(s: System) {
    && (forall c :: c in s.rows ==> FreshRow(s, c))
    && (forall c, k :: OnePublication(s, c, k))
  }

  lemma StepKeepsRow(s: System, e: Event, c: Card)
    requires Wellformed(s) && Possible(s, e) && (c in s.rows ==> FreshRow(s, c)) && c in Step(s, e).rows
    ensures FreshRow(Step(s, e), c)
  {
    assert RegistryWellformed(s.registries[e.process], s.used);
    if e.Register? && c in s.rows {
      ClaimMeaning(s.rows[c], e.reg.owner, e.reg.token, e.reg.version, e.now);
    }
  }

  lemma StepKeepsPublication(s: System, e: Event, c: Card, k: Period)
    requires Wellformed(s) && Possible(s, e) && OnePublication(s, c, k)
    ensures OnePublication(Step(s, e), c, k)
  {
    var r := s.registries[e.process];
    assert RegistryWellformed(r, s.used);
    if e.Commit? && r.hold.Publishing? {
      PublishReplacesFour(s.snapshots, r.hold.reg.card, r.hold.publication, SnapshotKey(c, k));
    }
  }

  lemma StepKeepsTruth(s: System, e: Event)
    requires Wellformed(s) && RowsTellTruth(s) && Possible(s, e)
    ensures RowsTellTruth(Step(s, e))
  {
    hide Step, Wellformed, Possible, FreshRow, OnePublication;
    forall c | c in Step(s, e).rows
      ensures FreshRow(Step(s, e), c)
    {
      StepKeepsRow(s, e, c);
    }
    forall c, k
      ensures OnePublication(Step(s, e), c, k)
    {
      StepKeepsPublication(s, e, c, k);
    }
  }

  /** In every reachable state of every interleaving. */
  lemma {:induction false} AlwaysTruthful(states: seq<System>, events: seq<Event>, i: nat)
    requires Execution(states, events) && Initial(states[0]) && i < |states|
    ensures RowsTellTruth(states[i])
  {
    if i > 0 {
      AlwaysTruthful(states, events, i - 1);
      AlwaysWellformed(states, events, i - 1);
      Edge(states, events, i - 1);
      StepKeepsTruth(states[i - 1], events[i - 1]);
    }
  }
}

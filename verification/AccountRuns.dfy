/** User administration over any sequence of operations after setup. */
module AccountRuns {
  import opened Wrappers
  import opened Accounts
  import Text

  /** Tokens drawn by the manager are part of the operation. */
  datatype Op =
    | SetAdminPassword(password: string, id: string)
    | LogIn(username: string, password: string, sid: string, now: int)
    | Touch(sid: string, now: int, ttl: int)
    | LogOut(sid: string)
    | CreateUser(username: string, password: string, role: string, enabled: bool, display: string, actor: string,
                 id: string)
    | UpdateUser(id: string, edit: Edit, actor: string)
    | ResetPassword(id: string, password: string, actor: string, preserve: string)
    | DeleteUser(id: string, actor: string)

  /** The tokens an operation draws are new. */
  predicate Possible(s: State, op: Op) {
    match op
    case SetAdminPassword(_, id) => id != ""
    case LogIn(_, _, sid, _) => sid != "" && sid !in s.sessions
    case CreateUser(_, _, _, _, _, _, id) => id != "" && Index(s.accounts, id) == |s.accounts|
    case _ => true
  }

  function Step(s: State, op: Op, customs: set<string>): State {
    match op
    case SetAdminPassword(password, id) => if SetupRequired(s) then Setup(s, password, id).0 else s
    case LogIn(username, password, sid, now) => Login(s, username, password, sid, now).0
    case Touch(sid, now, ttl) => Validate(s, sid, now, ttl).0
    case LogOut(sid) => Logout(s, sid)
    case CreateUser(username, password, role, enabled, display, actor, id) =>
      Create(s, Requested(username, password, role, enabled, display, id, customs), actor).0
    case UpdateUser(id, edit, actor) => Update(s, id, edit, actor, customs).0
    case ResetPassword(id, password, actor, preserve) => Reset(s, id, password, actor, preserve).0
    case DeleteUser(id, actor) => Delete(s, id, actor).0
  }

  // ----- invariant

  /** Ids are distinct, and names are normal and distinct ignoring case. */
  ghost predicate NamesHold(accounts: seq<Account>) {
    && (forall i :: 0 <= i < |accounts| ==>
                      accounts[i].id != "" && NormalizeUsername(accounts[i].username) == Success(accounts[i].username))
    && (forall i, j :: 0 <= i < j < |accounts| ==>
                         accounts[i].id != accounts[j].id
                         && Text.LowerText(accounts[i].username) != Text.LowerText(accounts[j].username))
  }

  predicate IsInitial(a: Account) { a.username == INITIAL && a.role.Admin? && a.enabled }

  /** The initial administrator is there, enabled, and an administrator. */
  ghost predicate InitialHolds(accounts: seq<Account>) {
    exists i :: 0 <= i < |accounts| && IsInitial(accounts[i])
  }

  predicate Owns(accounts: seq<Account>, i: nat, session: Session) {
    i < |accounts| && accounts[i].id == session.account && accounts[i].enabled
    && accounts[i].username == session.username
  }

  /** The session is one of an account that exists and is enabled, under its name. */
  ghost predicate Owned(accounts: seq<Account>, session: Session) {
    exists i :: Owns(accounts, i, session)
  }

  ghost predicate SessionsHold(s: State) {
    "" !in s.sessions && forall sid <- s.sessions :: Owned(s.accounts, s.sessions[sid])
  }

  ghost predicate Invariant(s: State) {
    NamesHold(s.accounts) && InitialHolds(s.accounts) && SessionsHold(s)
  }

  // ----- single changes of the table

  /** One account replaced by one with the same id and name. */
  lemma ReplacedKeeps(accounts: seq<Account>, i: nat, a: Account)
    requires NamesHold(accounts) && i < |accounts| && a.id == accounts[i].id && a.username == accounts[i].username
    ensures NamesHold(accounts[i := a])
    ensures InitialHolds(accounts) && (accounts[i].username == INITIAL ==> a.role.Admin? && a.enabled)
            ==> InitialHolds(accounts[i := a])
  {
    hide NormalizeUsername;
    if InitialHolds(accounts) && (accounts[i].username == INITIAL ==> a.role.Admin? && a.enabled) {
      var k :| 0 <= k < |accounts| && IsInitial(accounts[k]);
      assert IsInitial(accounts[i := a][k]);
    }
  }

  lemma SessionsAfterReplace(s: State, i: nat, a: Account, sessions: map<string, Session>)
    requires SessionsHold(s) && NamesHold(s.accounts) && i < |s.accounts| && a.id == s.accounts[i].id
             && a.username == s.accounts[i].username
    requires forall sid <- sessions :: sid in s.sessions && sessions[sid] == s.sessions[sid]
    requires a.enabled || forall sid <- sessions :: sessions[sid].account != a.id
    ensures SessionsHold(State(s.accounts[i := a], sessions))
  {
    forall sid | sid in sessions ensures Owned(s.accounts[i := a], sessions[sid]) {
      var k :| Owns(s.accounts, k, s.sessions[sid]);
      assert Owns(s.accounts[i := a], k, sessions[sid]);
    }
  }

  lemma AppendedKeeps(s: State, a: Account)
    requires Invariant(s) && a.id != "" && NormalizeUsername(a.username) == Success(a.username)
    requires Index(s.accounts, a.id) == |s.accounts| && NameFrom(s.accounts, a.username, 0) == |s.accounts|
    ensures Invariant(s.(accounts := s.accounts + [a]))
  {
    hide NormalizeUsername;
    var after := s.accounts + [a];
    var k :| 0 <= k < |s.accounts| && IsInitial(s.accounts[k]);
    assert IsInitial(after[k]);
    forall sid | sid in s.sessions ensures Owned(after, s.sessions[sid]) {
      var i :| Owns(s.accounts, i, s.sessions[sid]);
      assert Owns(after, i, s.sessions[sid]);
    }
  }

  /** Removal leaves the others, in order: each later position comes from one in the original, and back. */
  lemma {:induction false} WithoutHas(accounts: seq<Account>, id: string, a: Account)
    ensures a in Without(accounts, id) <==> a in accounts && a.id != id
  {
    if accounts != [] {
      var n := |accounts| - 1;
      WithoutHas(accounts[..n], id, a);
      assert accounts == accounts[..n] + [accounts[n]];
    }
  }

  lemma {:induction false} WithoutKeepsNames(accounts: seq<Account>, id: string)
    requires NamesHold(accounts)
    ensures NamesHold(Without(accounts, id))
  {
    hide NormalizeUsername;
    if accounts != [] {
      var n := |accounts| - 1;
      var front := accounts[..n];
      WithoutKeepsNames(front, id);
      var rest := Without(front, id);
      forall i | 0 <= i < |rest|
        ensures rest[i].id != accounts[n].id
        ensures Text.LowerText(rest[i].username) != Text.LowerText(accounts[n].username)
      {
        WithoutHas(front, id, rest[i]);
        assert rest[i] in rest;
        var j :| 0 <= j < |front| && front[j] == rest[i];
        assert accounts[j] == rest[i];
      }
    }
  }

  lemma RemovedKeeps(s: State, id: string)
    requires Invariant(s) && Index(s.accounts, id) < |s.accounts|
             && s.accounts[Index(s.accounts, id)].username != INITIAL
    ensures Invariant(State(Without(s.accounts, id), WithoutSessionsOf(s.sessions, id, "")))
  {
    hide NormalizeUsername, Without, NamesHold;
    var rest, sessions := Without(s.accounts, id), WithoutSessionsOf(s.sessions, id, "");
    WithoutKeepsNames(s.accounts, id);
    InitialStays(s.accounts, id);
    forall sid | sid in sessions ensures Owned(rest, sessions[sid]) {
      OwnedStays(s.accounts, id, sessions[sid]);
    }
  }

  lemma InitialStays(accounts: seq<Account>, id: string)
    requires NamesHold(accounts) && InitialHolds(accounts)
    requires Index(accounts, id) < |accounts| && accounts[Index(accounts, id)].username != INITIAL
    ensures InitialHolds(Without(accounts, id))
  {
    hide NormalizeUsername, Without;
    var k :| 0 <= k < |accounts| && IsInitial(accounts[k]);
    var i := Index(accounts, id);
    assert k != i && accounts[k].id != id;
    Remains(accounts, id, k);
    var rest := Without(accounts, id);
    var m :| 0 <= m < |rest| && rest[m] == accounts[k];
    assert IsInitial(rest[m]);
  }

  lemma Remains(accounts: seq<Account>, id: string, k: nat)
    requires k < |accounts| && accounts[k].id != id
    ensures exists m :: 0 <= m < |Without(accounts, id)| && Without(accounts, id)[m] == accounts[k]
  {
    hide Without;
    WithoutHas(accounts, id, accounts[k]);
    assert accounts[k] in accounts;
  }

  lemma OwnedStays(accounts: seq<Account>, id: string, session: Session)
    requires Owned(accounts, session) && session.account != id
    ensures Owned(Without(accounts, id), session)
  {
    hide Without;
    var i: nat :| Owns(accounts, i, session);
    Remains(accounts, id, i);
    var rest := Without(accounts, id);
    var j :| 0 <= j < |rest| && rest[j] == accounts[i];
    assert Owns(rest, j, session);
  }

  // ----- every operation keeps the invariant

  lemma SetupKeeps(s: State, password: string, id: string)
    requires id != "" && Acceptable(password) && s.sessions == map[]
    ensures Invariant(Setup(s, password, id).0)
  {
    var accounts := Setup(s, password, id).0.accounts;
    assert IsInitial(accounts[0]);
  }

  lemma LoginKeeps(s: State, username: string, password: string, sid: string, now: int)
    requires Invariant(s) && sid != ""
    ensures Invariant(Login(s, username, password, sid, now).0)
  {
    hide NormalizeUsername, NamesHold, InitialHolds;
      var (after, r) := Login(s, username, password, sid, now);
    if r.Success? && r.value.Some? {
      var name := NormalizeUsername(if username == "" then INITIAL else username);
      var i := NameFrom(s.accounts, name.value, 0);
      assert Owns(s.accounts, i, after.sessions[sid]);
    }
  }

  lemma ValidateKeeps(s: State, sid: string, now: int, ttl: int)
    requires Invariant(s)
    ensures Invariant(Validate(s, sid, now, ttl).0)
  {
    hide NamesHold, InitialHolds;
    var after := Validate(s, sid, now, ttl).0;
    forall k | k in after.sessions ensures Owned(s.accounts, after.sessions[k]) {
      var i :| Owns(s.accounts, i, s.sessions[k]);
      assert Owns(s.accounts, i, after.sessions[k]);
    }
  }

  lemma CreateKeeps(s: State, requested: Result<Account, Error>, actor: string)
    requires Invariant(s)
    requires requested.Success? ==>
               && requested.value.id != "" && Index(s.accounts, requested.value.id) == |s.accounts|
               && NormalizeUsername(requested.value.username) == Success(requested.value.username)
    ensures Invariant(Create(s, requested, actor).0)
  {
    hide Invariant, NormalizeUsername, InitialAdmin;
    if requested.Success? && NameFrom(s.accounts, requested.value.username, 0) == |s.accounts| {
      AppendedKeeps(s, requested.value);
    }
  }

  lemma RequestedIsNormal(username: string, password: string, role: string, enabled: bool, display: string,
                          id: string, customs: set<string>)
    requires Requested(username, password, role, enabled, display, id, customs).Success?
    ensures var a := Requested(username, password, role, enabled, display, id, customs).value;
            a.id == id && NormalizeUsername(a.username) == Success(a.username)
  {
    hide NormalizeDisplayName, NormalizeRole, Acceptable;
  }

  /** What an accepted edit does to an account named as the initial administrator. */
  lemma EditSparesInitial(target: Account, actorName: string, actor: string, edit: Edit, customs: set<string>)
    requires EditRefused(target, actorName, actor, edit, customs).None? && Edited(target, edit).Success?
    requires NormalizeUsername(target.username) == Success(target.username)
    ensures Edited(target, edit).value.id == target.id && Edited(target, edit).value.username == target.username
    ensures Edited(target, edit).value.enabled == if edit.enabled.Some? then edit.enabled.value else target.enabled
    ensures target.username == INITIAL && IsInitial(target) ==> IsInitial(Edited(target, edit).value)
    ensures actor != "" && InitialAdmin(actorName) != Success(true)
            ==> !target.role.Admin? && !Edited(target, edit).value.role.Admin?
  {
    hide NormalizeUsername, NormalizeDisplayName, NormalizeRole;
  }

  lemma UpdateKeeps(s: State, id: string, edit: Edit, actor: string, customs: set<string>)
    requires Invariant(s)
    ensures Invariant(Update(s, id, edit, actor, customs).0)
  {
    hide NormalizeUsername, EditRefused, Edited, HasEnabledAdmin;
      var (after, error) := Update(s, id, edit, actor, customs);
    if error.None? {
      var i := Index(s.accounts, id);
      var target := s.accounts[i];
      EditSparesInitial(target, NameOf(s.accounts, actor), actor, edit, customs);
      var a := Edited(target, edit).value;
      ReplacedKeeps(s.accounts, i, a);
      SessionsAfterReplace(s, i, a, after.sessions);
    }
  }

  lemma ResetKeeps(s: State, id: string, password: string, actor: string, preserve: string)
    requires Invariant(s)
    ensures Invariant(Reset(s, id, password, actor, preserve).0)
  {
    hide NormalizeUsername, TouchRefused, Acceptable;
      var (after, error) := Reset(s, id, password, actor, preserve);
    if error.None? {
      var i := Index(s.accounts, id);
      var a := s.accounts[i].(password := password);
      ReplacedKeeps(s.accounts, i, a);
      SessionsAfterReplace(s, i, a, after.sessions);
    }
  }

  lemma DeleteKeeps(s: State, id: string, actor: string)
    requires Invariant(s)
    ensures Invariant(Delete(s, id, actor).0)
  {
    hide TouchRefused, HasEnabledAdmin, Without, NormalizeUsername;
      var (after, error) := Delete(s, id, actor);
    if error.None? {
      RemovedKeeps(s, id);
    }
  }

  lemma InvariantHasInitial(s: State)
    requires Invariant(s)
    ensures InitialHolds(s.accounts)
  {
  }

  lemma StepKeeps(s: State, op: Op, customs: set<string>)
    requires Invariant(s) && Possible(s, op)
    ensures Invariant(Step(s, op, customs))
  {
    assert InitialHolds(s.accounts);
    hide Invariant, Login, Validate, Create, Requested, Update, Reset, Delete;
    match op
    case SetAdminPassword(password, id) =>
    case LogIn(username, password, sid, now) => LoginKeeps(s, username, password, sid, now);
    case Touch(sid, now, ttl) => ValidateKeeps(s, sid, now, ttl);
    case LogOut(sid) =>
    case CreateUser(username, password, role, enabled, display, actor, id) =>
      var requested := Requested(username, password, role, enabled, display, id, customs);
      if requested.Success? { RequestedIsNormal(username, password, role, enabled, display, id, customs); }
      CreateKeeps(s, requested, actor);
    case UpdateUser(id, edit, actor) => UpdateKeeps(s, id, edit, actor, customs);
    case ResetPassword(id, password, actor, preserve) => ResetKeeps(s, id, password, actor, preserve);
    case DeleteUser(id, actor) => DeleteKeeps(s, id, actor);
  }

  // ----- whole runs

  /** Operations one after the other; the custom roles are those defined at the time. */
  ghost predicate Execution(run: seq<State>, ops: seq<Op>, customs: seq<set<string>>) {
    && |run| == |ops| + 1 && |customs| == |ops|
    && forall k, n :: 0 <= k < |ops| && n == k + 1
                      ==> Possible(run[k], ops[k]) && run[n] == Step(run[k], ops[k], customs[k])
  }

  ghost predicate AfterSetup(s: State) {
    exists password, id :: id != "" && Acceptable(password) && s == Setup(State([], map[]), password, id).0
  }

  /**
    At every point after setup: names are unique ignoring case, the initial administrator stands, every
    session is an enabled account's.
  */
  lemma {:induction false} AlwaysHolds(run: seq<State>, ops: seq<Op>, customs: seq<set<string>>, k: nat)
    requires Execution(run, ops, customs) && AfterSetup(run[0]) && k < |run|
    ensures Invariant(run[k]) && HasEnabledAdmin(run[k].accounts) && !SetupRequired(run[k])
  {
    hide Step, Possible, Invariant;
    if k == 0 {
      var password, id :| id != "" && Acceptable(password) && run[0] == Setup(State([], map[]), password, id).0;
      SetupKeeps(State([], map[]), password, id);
    } else {
      AlwaysHolds(run, ops, customs, k - 1);
      assert run[k] == Step(run[k - 1], ops[k - 1], customs[k - 1]);
      StepKeeps(run[k - 1], ops[k - 1], customs[k - 1]);
    }
    InvariantHasInitial(run[k]);
  }

  // ----- who may change administrators

  function ActorOf(op: Op): string {
    match op
    case CreateUser(_, _, _, _, _, actor, _) => actor
    case UpdateUser(_, _, actor) => actor
    case ResetPassword(_, _, actor, _) => actor
    case DeleteUser(_, actor) => actor
    case _ => ""
  }

  function Admins(accounts: seq<Account>): set<Account> {
    set a | a in accounts && a.role.Admin?
  }

  predicate ActsAsInitial(s: State, actor: string) {
    NameOf(s.accounts, actor) == INITIAL
  }

  lemma ReplacedAdmins(accounts: seq<Account>, i: nat, a: Account)
    requires i < |accounts| && !a.role.Admin? && !accounts[i].role.Admin?
    ensures Admins(accounts[i := a]) == Admins(accounts)
  {
    var after := accounts[i := a];
    forall x | x in Admins(accounts) ensures x in after {
      var k :| 0 <= k < |accounts| && accounts[k] == x;
      assert after[k] == x;
    }
  }

  lemma RemovedAdmins(accounts: seq<Account>, id: string)
    requires forall a <- accounts :: a.role.Admin? ==> a.id != id
    ensures Admins(Without(accounts, id)) == Admins(accounts)
  {
    hide Without;
    forall a: Account | true ensures a in Admins(Without(accounts, id)) <==> a in Admins(accounts) {
      WithoutHas(accounts, id, a);
    }
  }

  lemma CreateSparesAdmins(s: State, requested: Result<Account, Error>, actor: string)
    requires actor != "" && InitialAdmin(NameOf(s.accounts, actor)) != Success(true)
    ensures Admins(Create(s, requested, actor).0.accounts) == Admins(s.accounts)
  {
    hide InitialAdmin, NormalizeUsername;
  }

  lemma UpdateSparesAdmins(s: State, id: string, edit: Edit, actor: string, customs: set<string>)
    requires NamesHold(s.accounts) && actor != "" && InitialAdmin(NameOf(s.accounts, actor)) != Success(true)
    ensures Admins(Update(s, id, edit, actor, customs).0.accounts) == Admins(s.accounts)
  {
    hide NormalizeUsername, InitialAdmin, Admins, Edited, EditRefused, HasEnabledAdmin;
    if Update(s, id, edit, actor, customs).1.None? {
      var i := Index(s.accounts, id);
      EditSparesInitial(s.accounts[i], NameOf(s.accounts, actor), actor, edit, customs);
      ReplacedAdmins(s.accounts, i, Edited(s.accounts[i], edit).value);
    }
  }

  lemma ResetSparesAdmins(s: State, id: string, password: string, actor: string, preserve: string)
    requires actor != "" && InitialAdmin(NameOf(s.accounts, actor)) != Success(true)
    ensures Admins(Reset(s, id, password, actor, preserve).0.accounts) == Admins(s.accounts)
  {
    hide NormalizeUsername, InitialAdmin, Admins, Acceptable;
    if Reset(s, id, password, actor, preserve).1.None? {
      var i := Index(s.accounts, id);
      ReplacedAdmins(s.accounts, i, s.accounts[i].(password := password));
    }
  }

  lemma DeleteSparesAdmins(s: State, id: string, actor: string)
    requires NamesHold(s.accounts) && actor != "" && InitialAdmin(NameOf(s.accounts, actor)) != Success(true)
    ensures Admins(Delete(s, id, actor).0.accounts) == Admins(s.accounts)
  {
    hide NormalizeUsername, InitialAdmin, Admins, HasEnabledAdmin, Without, NamesHold;
    if Delete(s, id, actor).1.None? {
      NoAdminWith(s, id);
      RemovedAdmins(s.accounts, id);
    }
  }

  /** An identified actor other than the initial administrator adds, removes and alters no administrator's account. */
  lemma OnlyInitialChangesAdmins(s: State, op: Op, customs: set<string>)
    requires Invariant(s) && Possible(s, op) && ActorOf(op) != "" && !ActsAsInitial(s, ActorOf(op))
    ensures Admins(Step(s, op, customs).accounts) == Admins(s.accounts)
  {
    hide InitialAdmin, Admins, Requested, Create, Update, Reset, Delete, NamesHold;
    var actor := ActorOf(op);
    NotInitial(s, actor);
    match op
    case CreateUser(username, password, role, enabled, display, _, id) =>
      CreateSparesAdmins(s, Requested(username, password, role, enabled, display, id, customs), actor);
    case UpdateUser(id, edit, _) => UpdateSparesAdmins(s, id, edit, actor, customs);
    case ResetPassword(id, password, _, preserve) => ResetSparesAdmins(s, id, password, actor, preserve);
    case DeleteUser(id, _) => DeleteSparesAdmins(s, id, actor);
  }

  lemma NotInitial(s: State, actor: string)
    requires NamesHold(s.accounts) && !ActsAsInitial(s, actor)
    ensures InitialAdmin(NameOf(s.accounts, actor)) != Success(true)
  {
    var i := Index(s.accounts, actor);
    if i == |s.accounts| {
      assert Text.RStrip("") == "" && Text.LStrip("") == "";
    }
  }

  lemma NoAdminWith(s: State, id: string)
    requires NamesHold(s.accounts) && Index(s.accounts, id) < |s.accounts|
             && !s.accounts[Index(s.accounts, id)].role.Admin?
    ensures forall a <- s.accounts :: a.role.Admin? ==> a.id != id
  {
    hide NormalizeUsername;
    var i := Index(s.accounts, id);
    forall a | a in s.accounts && a.role.Admin? ensures a.id != id {
      var k :| 0 <= k < |s.accounts| && s.accounts[k] == a;
      assert k < i || k > i;
    }
  }

  /** An edit by an actor the table does not know, the empty id included, is refused and changes nothing. */
  lemma UnknownActorEditsNothing(s: State, id: string, edit: Edit, actor: string, customs: set<string>)
    requires Index(s.accounts, actor) == |s.accounts|
    ensures Update(s, id, edit, actor, customs).1.Some? && Update(s, id, edit, actor, customs).0 == s
  {
    hide NormalizeRole, NormalizeDisplayName;
    assert Text.RStrip("") == "" && Text.LStrip("") == "";
  }

  // ----- what a session carries

  /**
    While it lives a session keeps the account, name and role it was opened with, whatever becomes of the
    account's role.
  */
  lemma SessionsKeepTheirRole(s: State, op: Op, customs: set<string>, sid: string)
    requires Possible(s, op) && sid in s.sessions && sid in Step(s, op, customs).sessions
    ensures var after := Step(s, op, customs).sessions[sid];
            after.account == s.sessions[sid].account && after.username == s.sessions[sid].username
            && after.role == s.sessions[sid].role
  {
    hide NormalizeUsername, Requested, Edited, EditRefused, TouchRefused, Acceptable, HasEnabledAdmin, Without,
      InitialAdmin;
  }

  /**
    A role edit leaves every session as it was: a live session's role differs from its account's whenever
    the edit changed it.
  */
  lemma EditLeavesSessionRoles(s: State, id: string, edit: Edit, actor: string, customs: set<string>, sid: string)
    requires Update(s, id, edit, actor, customs).1.None? && edit.enabled != Some(false) && sid in s.sessions
    requires Index(s.accounts, id) < |s.accounts| && s.sessions[sid].role == s.accounts[Index(s.accounts, id)].role
    ensures var after := Update(s, id, edit, actor, customs).0;
            && sid in after.sessions && Index(s.accounts, id) < |after.accounts|
            && (after.sessions[sid].role == after.accounts[Index(s.accounts, id)].role <==>
                edit.role.None? || NormalizeRole(edit.role.value) == Success(s.accounts[Index(s.accounts, id)].role))
  {
    hide NormalizeUsername, NormalizeRole, NormalizeDisplayName, EditRefused, HasEnabledAdmin;
  }
}

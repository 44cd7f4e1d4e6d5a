/** The manager's methods, step by step, on the users table and the session dict. */
module AuthManagement {
  import opened Wrappers
  import opened Capabilities
  import opened Accounts
  import Text

  /** `_find_user_index` */
  method FindIndex(accounts: seq<Account>, id: string) returns (i: nat)
    ensures i == Index(accounts, id)
  {
    i := 0;
    while i < |accounts|
      invariant i <= |accounts| && Index(accounts, id) == IndexFrom(accounts, id, i)
    {
      if accounts[i].id == id {
        return;
      }
      i := i + 1;
    }
  }

  /** `_find_user_by_username`, of a normalised name. */
  method FindName(accounts: seq<Account>, name: string) returns (i: nat)
    ensures i == NameFrom(accounts, name, 0)
  {
    i := 0;
    while i < |accounts|
      invariant i <= |accounts| && NameFrom(accounts, name, 0) == NameFrom(accounts, name, i)
    {
      if Text.LowerText(accounts[i].username) == Text.LowerText(name) {
        return;
      }
      i := i + 1;
    }
  }

  /** The account at position i is the first with the name, whatever its case. */
  predicate FirstNamed(accounts: seq<Account>, name: string, i: int) {
    && 0 <= i < |accounts| && Text.LowerText(accounts[i].username) == Text.LowerText(name)
    && forall j :: 0 <= j < i ==> Text.LowerText(accounts[j].username) != Text.LowerText(name)
  }

  /** `_ensure_enabled_admin_exists` */
  method EnabledAdminExists(accounts: seq<Account>) returns (found: bool)
    ensures found <==> HasEnabledAdmin(accounts)
  {
    var i := 0;
    while i < |accounts|
      invariant 0 <= i <= |accounts| && forall j :: 0 <= j < i ==> !(accounts[j].role.Admin? && accounts[j].enabled)
    {
      if accounts[i].role.Admin? && accounts[i].enabled {
        return true;
      }
      i := i + 1;
    }
    return false;
  }

  method Remaining(accounts: seq<Account>, id: string) returns (rest: seq<Account>)
    ensures rest == Without(accounts, id)
  {
    rest := [];
    assert accounts[..0] == [];
    var i := 0;
    while i < |accounts|
      invariant 0 <= i <= |accounts| && rest == Without(accounts[..i], id)
    {
      assert accounts[..i + 1][..i] == accounts[..i];
      if accounts[i].id != id {
        rest := rest + [accounts[i]];
      }
      i := i + 1;
    }
    assert accounts[..i] == accounts;
  }

  class AuthManager {
    var accounts: seq<Account>
    var sessions: map<string, Session>

    constructor ()
      ensures Now() == State([], map[])
    {
      accounts, sessions := [], map[];
    }

    function Now(): State
      reads this
    {
      State(accounts, sessions)
    }

    /** `_drop_sessions_for_user` */
    method DropSessions(account: string, preserve: string)
      modifies this`sessions
      ensures sessions == WithoutSessionsOf(old(sessions), account, preserve)
    {
      var rest := sessions.Keys;
      while rest != {}
        invariant rest <= old(sessions).Keys
        invariant forall sid :: sid in sessions <==>
                                sid in old(sessions) && (sid in rest || old(sessions)[sid].account != account
                                                         || sid == preserve)
        invariant forall sid <- sessions :: sessions[sid] == old(sessions)[sid]
        decreases rest
      {
        var sid :| sid in rest;
        if sessions[sid].account == account && sid != preserve {
          sessions := sessions - {sid};
        }
        rest := rest - {sid};
      }
    }

    /** `set_admin_password` behind the server's `setup_required` check. */
    method SetAdminPassword(password: string, id: string) returns (done: bool, error: Option<Error>)
      modifies this
      ensures !SetupRequired(old(Now())) ==> !done && Now() == old(Now())
      ensures SetupRequired(old(Now())) ==> (Now(), error) == Setup(old(Now()), password, id) && (done <==> error.None?)
    {
      var i := 0;
      while i < |accounts|
        invariant 0 <= i <= |accounts| && forall j :: 0 <= j < i ==> !accounts[j].enabled
      {
        if accounts[i].enabled {
          return false, None;
        }
        i := i + 1;
      }
      if !Acceptable(password) {
        return false, Some(BadPassword);
      }
      accounts := [Account(id, INITIAL, "管理员", Admin, password, true)];
      return true, None;
    }

    method LoginUser(username: string, password: string, sid: string, now: int)
      returns (r: Result<Option<Session>, Error>)
      modifies this
      ensures (Now(), r) == Login(old(Now()), username, password, sid, now)
      ensures accounts == old(accounts)
      ensures var name := NormalizeUsername(if username == "" then "admin" else username);
              && (r.Failure? <==> name.Failure?)
              && (r.Success? && r.value.Some? <==>
                  && name.Success?
                  && exists i :: FirstNamed(accounts, name.value, i) && accounts[i].enabled
                                 && accounts[i].password == password)
              && (r.Success? && r.value.Some? ==>
                    exists i :: FirstNamed(accounts, name.value, i) && accounts[i].password == password
                                && r.value.value == Session(accounts[i].id, accounts[i].username, accounts[i].role,
                                                            now))
      ensures sessions == if r.Success? && r.value.Some? then old(sessions)[sid := r.value.value] else old(sessions)
    {
      var name := NormalizeUsername(if username == "" then INITIAL else username);
      if name.Failure? {
        return Failure(name.error);
      }
      var i := FindName(accounts, name.value);
      assert i < |accounts| ==> FirstNamed(accounts, name.value, i);
      if i == |accounts| || !accounts[i].enabled || accounts[i].password != password {
        return Success(None);
      }
      var session := Session(accounts[i].id, accounts[i].username, accounts[i].role, now);
      sessions := sessions[sid := session];
      return Success(Some(session));
    }

    method ValidateSession(sid: string, now: int, ttl: int) returns (r: Option<Session>)
      modifies this`sessions
      ensures (Now(), r) == Validate(old(Now()), sid, now, ttl)
    {
      if sid !in sessions {
        return None;
      }
      if sessions[sid].active + ttl < now {
        sessions := sessions - {sid};
        return None;
      }
      sessions := sessions[sid := sessions[sid].(active := now)];
      return Some(sessions[sid]);
    }

    method LogoutSession(sid: string)
      modifies this`sessions
      ensures Now() == Logout(old(Now()), sid)
    {
      sessions := sessions - {sid};
    }

    method CreateUser(username: string, password: string, role: string, enabled: bool, display: string, actor: string,
                      id: string, customs: set<string>) returns (error: Option<Error>)
      modifies this`accounts
      ensures (Now(), error) == Create(old(Now()), Requested(username, password, role, enabled, display, id, customs),
                                       actor)
    {
      var requested := Requested(username, password, role, enabled, display, id, customs);
      if requested.Failure? {
        return Some(requested.error);
      }
      var a := requested.value;
      var taken := FindName(accounts, a.username);
      if taken < |accounts| {
        return Some(UsernameTaken);
      }
      var k := FindIndex(accounts, actor);
      if actor != "" && a.role.Admin? {
        var initial := InitialAdmin(if k < |accounts| then accounts[k].username else "");
        if initial.Failure? {
          return Some(initial.error);
        }
        if !initial.value {
          return Some(OnlyInitialCreatesAdmins);
        }
      }
      accounts := accounts + [a];
      return None;
    }

    method UpdateUser(id: string, edit: Edit, actor: string, customs: set<string>) returns (error: Option<Error>)
      modifies this
      ensures (Now(), error) == Update(old(Now()), id, edit, actor, customs)
    {
      hide EditRefused, Edited, WithoutSessionsOf, HasEnabledAdmin;
      var i := FindIndex(accounts, id);
      if i == |accounts| {
        return Some(NotFound);
      }
      var target := accounts[i];
      var k := FindIndex(accounts, actor);
      var refused := EditRefused(target, if k < |accounts| then accounts[k].username else "", actor, edit, customs);
      if refused.Some? {
        return refused;
      }
      var edited := Edited(target, edit);
      if edited.Failure? {
        return Some(edited.error);
      }
      var updated := accounts[i := edited.value];
      var ok := EnabledAdminExists(updated);
      if !ok {
        return Some(NoEnabledAdmin);
      }
      accounts := updated;
      if edit.enabled == Some(false) {
        DropSessions(target.id, "");
      }
      return None;
    }

    method ResetPassword(id: string, password: string, actor: string, preserve: string) returns (error: Option<Error>)
      modifies this
      ensures (Now(), error) == Reset(old(Now()), id, password, actor, preserve)
    {
      hide TouchRefused, WithoutSessionsOf, Acceptable;
      if !Acceptable(password) {
        return Some(BadPassword);
      }
      var i := FindIndex(accounts, id);
      if i == |accounts| {
        return Some(NotFound);
      }
      var refused := TouchRefused(accounts, accounts[i], actor);
      if refused.Some? {
        return refused;
      }
      accounts := accounts[i := accounts[i].(password := password)];
      DropSessions(accounts[i].id, preserve);
      return None;
    }

    method DeleteUser(id: string, actor: string) returns (error: Option<Error>)
      modifies this
      ensures (Now(), error) == Delete(old(Now()), id, actor)
    {
      hide TouchRefused, WithoutSessionsOf, HasEnabledAdmin, InitialAdmin;
      if id == actor {
        return Some(CannotDeleteSelf);
      }
      var i := FindIndex(accounts, id);
      if i == |accounts| {
        return Some(NotFound);
      }
      var target := accounts[i];
      var initial := InitialAdmin(target.username);
      if initial.Failure? {
        return Some(initial.error);
      }
      if initial.value {
        return Some(InitialDeleted);
      }
      var refused := TouchRefused(accounts, target, actor);
      if refused.Some? {
        return refused;
      }
      var rest := Remaining(accounts, id);
      var ok := EnabledAdminExists(rest);
      if !ok {
        return Some(NoEnabledAdmin);
      }
      accounts := rest;
      DropSessions(target.id, "");
      return None;
    }
  }
}

/** User administration: names and roles, the operations on the users table, and live sessions. */
module Accounts {
  import opened Wrappers
  import opened Capabilities
  import Text

  datatype Account = Account(id: string, username: string, displayName: string, role: Role, password: string,
                             enabled: bool)

  /** The role is the one at login; it is not refreshed. */
  datatype Session = Session(account: string, username: string, role: Role, active: int)

  datatype Error =
    | BadUsername | BadDisplayName | BadRole | BadPassword | UnknownRole | UsernameTaken | NotFound
    | OnlyInitialCreatesAdmins | DelegatedEditsAdmin | CannotDisableSelf | CannotDeleteSelf
    | InitialDisabled | InitialDemoted | InitialDeleted | NoEnabledAdmin

  const INITIAL := "admin"

  // ----- names, roles and passwords

  predicate NameChar(c: char) {
    'A' <= c <= 'Z' || 'a' <= c <= 'z' || '0' <= c <= '9' || c == '_' || c == '.' || c == '-'
  }

  /** `_normalize_username` */
  function NormalizeUsername(text: string): (r: Result<string, Error>)
    ensures r.Success? ==> 0 < |r.value| <= 64 && forall i :: 0 <= i < |r.value| ==> NameChar(r.value[i])
  {
    var v := Text.Strip(text);
    if v == "" || |v| > 64 then Failure(BadUsername)
    else if forall i :: 0 <= i < |v| ==> NameChar(v[i]) then Success(v)
    else Failure(BadUsername)
  }

  /** `_normalize_display_name` */
  function NormalizeDisplayName(text: string, username: string): Result<string, Error> {
    var own := Text.Strip(text);
    var v := if own != "" then own else if Text.LowerText(username) == INITIAL then "管理员" else Text.Strip(username);
    if |v| > 64 then Failure(BadDisplayName) else Success(v)
  }

  predicate CustomCode(v: string) {
    && |v| <= 32 && |v| > 7 && v[..7] == "custom_"
    && forall i :: 0 <= i < |v| ==> 'a' <= v[i] <= 'z' || '0' <= v[i] <= '9' || v[i] == '_'
  }

  /** `_normalize_role`; retired roles count as the ordinary user. */
  function NormalizeRole(text: string): Result<Role, Error> {
    var v := if text == "" then "user" else Text.Strip(text);
    if v in ["governance", "regulatory_report", "data_middle", "fund_custody"] then Success(User)
    else if v == "admin" then Success(Admin)
    else if v == "user" then Success(User)
    else if CustomCode(v) then Success(Custom(v))
    else Failure(BadRole)
  }

  predicate RoleExists(role: Role, customs: set<string>) {
    role.Custom? ==> role.code in customs
  }

  /** `validate_auth_password` */
  predicate Acceptable(password: string) {
    |password| >= 6 && exists i :: 0 <= i < |password| && ('A' <= password[i] <= 'Z' || 'a' <= password[i] <= 'z')
  }

  // ----- lookups

  /** First position from k of an account with the id, or the length. */
  function IndexFrom(accounts: seq<Account>, id: string, k: nat): (i: nat)
    requires k <= |accounts|
    ensures k <= i <= |accounts| && (i < |accounts| ==> accounts[i].id == id)
    ensures forall j :: k <= j < i ==> accounts[j].id != id
    decreases |accounts| - k
  {
    if k == |accounts| || accounts[k].id == id then k else IndexFrom(accounts, id, k + 1)
  }

  function Index(accounts: seq<Account>, id: string): (i: nat)
    ensures i <= |accounts| && (i < |accounts| ==> accounts[i].id == id)
    ensures forall j :: 0 <= j < i ==> accounts[j].id != id
  {
    IndexFrom(accounts, id, 0)
  }

  function NameFrom(accounts: seq<Account>, name: string, k: nat): (i: nat)
    requires k <= |accounts|
    ensures k <= i <= |accounts| && (i < |accounts| ==> Text.LowerText(accounts[i].username) == Text.LowerText(name))
    ensures forall j :: k <= j < i ==> Text.LowerText(accounts[j].username) != Text.LowerText(name)
    decreases |accounts| - k
  {
    if k == |accounts| || Text.LowerText(accounts[k].username) == Text.LowerText(name)
    then k
    else NameFrom(accounts, name, k + 1)
  }

  /** `_is_initial_admin`: raises for a name it cannot normalise, so also when there is no such user. */
  function InitialAdmin(username: string): Result<bool, Error> {
    match NormalizeUsername(username)
    case Success(v) => Success(v == INITIAL)
    case Failure(e) => Failure(e)
  }

  function NameOf(accounts: seq<Account>, id: string): string {
    var i := Index(accounts, id);
    if i < |accounts| then accounts[i].username else ""
  }

  predicate HasEnabledAdmin(accounts: seq<Account>) {
    exists i :: 0 <= i < |accounts| && accounts[i].role.Admin? && accounts[i].enabled
  }

  // ----- operations

  datatype State = State(accounts: seq<Account>, sessions: map<string, Session>)

  function WithoutSessionsOf(sessions: map<string, Session>, account: string, preserve: string): map<string, Session> {
    map sid | sid in sessions && (sessions[sid].account != account || sid == preserve) :: sessions[sid]
  }

  /** `setup_required` */
  predicate SetupRequired(s: State) { forall i :: 0 <= i < |s.accounts| ==> !s.accounts[i].enabled }

  /** `set_admin_password`, which the server only calls while setup is required. */
  function Setup(s: State, password: string, id: string): (State, Option<Error>) {
    if !Acceptable(password) then (s, Some(BadPassword))
    else (s.(accounts := [Account(id, INITIAL, "管理员", Admin, password, true)]), None)
  }

  function Login(s: State, username: string, password: string, sid: string, now: int):
    (State, Result<Option<Session>, Error>)
  {
    var name := NormalizeUsername(if username == "" then INITIAL else username);
    if name.Failure? then (s, Failure(name.error))
    else
      var i := NameFrom(s.accounts, name.value, 0);
      if i == |s.accounts| || !s.accounts[i].enabled || s.accounts[i].password != password then (s, Success(None))
      else
        var a := s.accounts[i];
        var session := Session(a.id, a.username, a.role, now);
        (s.(sessions := s.sessions[sid := session]), Success(Some(session)))
  }

  function Validate(s: State, sid: string, now: int, ttl: int): (State, Option<Session>) {
    if sid !in s.sessions then (s, None)
    else if s.sessions[sid].active + ttl < now then (s.(sessions := s.sessions - {sid}), None)
    else
      var session := s.sessions[sid].(active := now);
      (s.(sessions := s.sessions[sid := session]), Some(session))
  }

  function Logout(s: State, sid: string): State {
    s.(sessions := s.sessions - {sid})
  }

  /** The account `create_user` would add, from its arguments alone. */
  function Requested(username: string, password: string, role: string, enabled: bool, display: string, id: string,
                     customs: set<string>):
    Result<Account, Error>
  {
    var name := NormalizeUsername(username);
    if name.Failure? then Failure(name.error)
    else
      var shown := NormalizeDisplayName(display, name.value);
      if shown.Failure? then Failure(shown.error)
      else
        var r := NormalizeRole(role);
        if r.Failure? then Failure(r.error)
        else if !Acceptable(password) then Failure(BadPassword)
        else if !RoleExists(r.value, customs) then Failure(UnknownRole)
        else Success(Account(id, name.value, shown.value, r.value, password, enabled))
  }

  function Create(s: State, requested: Result<Account, Error>, actor: string): (State, Option<Error>) {
    if requested.Failure? then (s, Some(requested.error))
    else
      var a := requested.value;
      var initial := InitialAdmin(NameOf(s.accounts, actor));
      if NameFrom(s.accounts, a.username, 0) < |s.accounts| then (s, Some(UsernameTaken))
      else if actor != "" && a.role.Admin? && initial.Failure? then (s, Some(initial.error))
      else if actor != "" && a.role.Admin? && !initial.value then (s, Some(OnlyInitialCreatesAdmins))
      else (s.(accounts := s.accounts + [a]), None)
  }

  datatype Edit = Edit(role: Option<string>, enabled: Option<bool>, display: Option<string>)

  /** The checks `update_user` makes before it touches the account. */
  function EditRefused(target: Account, actorName: string, actor: string, edit: Edit,
                       customs: set<string>): Option<Error> {
    var byInitial := InitialAdmin(actorName);
    if byInitial.Failure? then Some(byInitial.error)
    else
      var role := if edit.role.Some?
                  then NormalizeRole(edit.role.value)
                  else Success(if target.role.Admin? then Admin else User);
      if role.Failure? then Some(role.error)
      else if edit.role.Some? && !RoleExists(role.value, customs) then Some(UnknownRole)
      else if edit.enabled == Some(false) && target.id == actor then Some(CannotDisableSelf)
      else
        var isInitial := InitialAdmin(target.username);
        if isInitial.Failure? then Some(isInitial.error)
        else if edit.enabled == Some(false) && isInitial.value then Some(InitialDisabled)
        else if isInitial.value && edit.role.Some? && !role.value.Admin? then Some(InitialDemoted)
        else if actor != "" && !byInitial.value && target.role.Admin? then Some(DelegatedEditsAdmin)
        else if actor != "" && !byInitial.value && role.value.Admin? then Some(OnlyInitialCreatesAdmins)
        else None
  }

  function Edited(target: Account, edit: Edit): Result<Account, Error> {
    var shown := if edit.display.Some?
                 then NormalizeDisplayName(edit.display.value, target.username)
                 else Success(target.displayName);
    if shown.Failure? then Failure(shown.error)
    else
      var role := if edit.role.Some? then NormalizeRole(edit.role.value) else Success(target.role);
      if role.Failure? then Failure(role.error)
      else
        Success(target.(role := role.value, displayName := shown.value,
                enabled := if edit.enabled.Some? then edit.enabled.value else target.enabled))
  }

  /** `update_user` */
  function Update(s: State, id: string, edit: Edit, actor: string, customs: set<string>): (State, Option<Error>) {
    var i := Index(s.accounts, id);
    if i == |s.accounts| then (s, Some(NotFound))
    else
      var target := s.accounts[i];
      var refused := EditRefused(target, NameOf(s.accounts, actor), actor, edit, customs);
      if refused.Some? then (s, refused)
      else
        var edited := Edited(target, edit);
        if edited.Failure? then (s, Some(edited.error))
        else
          var accounts := s.accounts[i := edited.value];
          if !HasEnabledAdmin(accounts) then (s, Some(NoEnabledAdmin))
          else
            var sessions := if edit.enabled == Some(false)
                            then WithoutSessionsOf(s.sessions, target.id, "")
                            else s.sessions;
            (State(accounts, sessions), None)
  }

  /**
    An identified actor who is not the initial administrator may not touch an administrator; an unknown
    actor raises.
  */
  function TouchRefused(accounts: seq<Account>, target: Account, actor: string): Option<Error> {
    if actor == "" then None
    else
      var byInitial := InitialAdmin(NameOf(accounts, actor));
      if byInitial.Failure? then Some(byInitial.error)
      else if !byInitial.value && target.role.Admin? then Some(DelegatedEditsAdmin)
      else None
  }

  /** `reset_password` */
  function Reset(s: State, id: string, password: string, actor: string, preserve: string): (State, Option<Error>) {
    var i := Index(s.accounts, id);
    if !Acceptable(password) then (s, Some(BadPassword))
    else if i == |s.accounts| then (s, Some(NotFound))
    else
      var refused := TouchRefused(s.accounts, s.accounts[i], actor);
      if refused.Some? then (s, refused)
      else (State(s.accounts[i := s.accounts[i].(password := password)],
            WithoutSessionsOf(s.sessions, s.accounts[i].id, preserve)), None)
  }

  function Without(accounts: seq<Account>, id: string): seq<Account> {
    if accounts == [] then []
    else
      var rest := Without(accounts[..|accounts| - 1], id);
      if accounts[|accounts| - 1].id == id then rest else rest + [accounts[|accounts| - 1]]
  }

  /** `delete_user` */
  function Delete(s: State, id: string, actor: string): (State, Option<Error>) {
    var i := Index(s.accounts, id);
    if id == actor then (s, Some(CannotDeleteSelf))
    else if i == |s.accounts| then (s, Some(NotFound))
    else
      var target := s.accounts[i];
      var isInitial := InitialAdmin(target.username);
      var refused := TouchRefused(s.accounts, target, actor);
      if isInitial.Failure? then (s, Some(isInitial.error))
      else if isInitial.value then (s, Some(InitialDeleted))
      else if refused.Some? then (s, refused)
      else if !HasEnabledAdmin(Without(s.accounts, id)) then (s, Some(NoEnabledAdmin))
      else (State(Without(s.accounts, id), WithoutSessionsOf(s.sessions, target.id, "")), None)
  }
}

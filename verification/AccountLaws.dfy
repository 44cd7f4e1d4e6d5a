/**
  What each operation on accounts and sessions accepts, and what it leaves, without reference
  to its steps: which texts are names, roles and passwords, when a login opens a session, who
  may create, edit, reset and delete whom, and that an enabled administrator always remains.
  Over runs: an account's password is the one last set, and decides its logins.
 */
module AccountLaws {
  import opened Wrappers
  import opened Capabilities
  import opened Accounts
  import opened AccountRuns
  import Text

  // ----- texts

  /** The texts that stand for each role; any other is refused. */
  lemma RoleTexts(text: string)
    ensures NormalizeRole(text) == Success(Admin) <==> Text.Strip(text) == "admin"
    ensures NormalizeRole(text) == Success(User) <==>
            || text == "" || Text.Strip(text) == "user" || Text.Strip(text) == "governance"
            || Text.Strip(text) == "regulatory_report" || Text.Strip(text) == "data_middle"
            || Text.Strip(text) == "fund_custody"
    ensures forall c :: NormalizeRole(text) == Success(Custom(c)) ==> c == Text.Strip(text)
    ensures (exists c :: NormalizeRole(text) == Success(Custom(c))) <==> text != "" && IsCustomText(Text.Strip(text))
  {
    assert Text.Strip("") == "" by {
      assert Text.RStrip("") == "" && Text.LStrip("") == "";
    }
    CustomTextIsNoOther(Text.Strip(text));
    if text != "" && IsCustomText(Text.Strip(text)) {
      assert NormalizeRole(text) == Success(Custom(Text.Strip(text)));
    }
  }

  predicate IsCustomText(v: string) {
    && 8 <= |v| <= 32 && v[0] == 'c' && v[1] == 'u' && v[2] == 's' && v[3] == 't' && v[4] == 'o' && v[5] == 'm'
    && v[6] == '_'
    && forall c <- v :: 'a' <= c <= 'z' || '0' <= c <= '9' || c == '_'
  }

  lemma CustomTextIsNoOther(v: string)
    ensures CustomCode(v) <==> IsCustomText(v)
    ensures IsCustomText(v)
            ==> v !in ["governance", "regulatory_report", "data_middle", "fund_custody", "admin", "user"]
  {
    if |v| > 7 {
      assert v[..7] == "custom_" <==> v[0] == 'c' && v[1] == 'u' && v[2] == 's' && v[3] == 't' && v[4] == 'o'
                                      && v[5] == 'm' && v[6] == '_';
    }
    assert forall i :: 0 <= i < |v| ==> v[i] in v;
  }

  /** The name that is shown: the text given, or one that follows from the user name. */
  lemma DisplayNames(text: string, username: string)
    ensures Text.Strip(text) != "" ==>
              NormalizeDisplayName(text, username)
              == if |Text.Strip(text)| <= 64 then Success(Text.Strip(text)) else Failure(BadDisplayName)
    ensures Text.Strip(text) == "" && Text.LowerText(username) == "admin" ==>
              NormalizeDisplayName(text, username) == Success("管理员")
    ensures Text.Strip(text) == "" && Text.LowerText(username) != "admin" ==>
              NormalizeUsername(username) == Success(username) ==>
                NormalizeDisplayName(text, username) == Success(username)
  {
  }

  /** Names of 1 to 64 letters, digits, underscores, dots and dashes are accepted, without the spaces around them. */
  lemma NamesAccepted(text: string)
    ensures var v := Text.Strip(text);
            && (NormalizeUsername(text).Success? <==>
                && 1 <= |v| <= 64
                && forall c <- v :: 'A' <= c <= 'Z' || 'a' <= c <= 'z' || '0' <= c <= '9' || c in {'_', '.', '-'})
            && (NormalizeUsername(text).Success? ==> NormalizeUsername(text).value == v)
  {
    var v := Text.Strip(text);
    assert forall i :: 0 <= i < |v| ==> v[i] in v;
  }

  // ----- login and sessions

  predicate Named(a: Account, name: string) { Text.LowerText(a.username) == Text.LowerText(name) }

  /** A session is opened exactly for the name, whatever its case, and the password of an enabled account. */
  lemma LoginIff(s: State, username: string, password: string, sid: string, now: int)
    requires NamesHold(s.accounts)
    ensures var name := NormalizeUsername(if username == "" then "admin" else username);
            var (after, r) := Login(s, username, password, sid, now);
            && (r.Failure? <==> name.Failure?)
            && (r.Success? ==>
                  (r.value.Some? <==>
                   exists a <- s.accounts :: Named(a, name.value) && a.enabled && a.password == password))
            && (r.Success? && r.value.Some? ==>
                  && r.value.value.active == now && after == s.(sessions := s.sessions[sid := r.value.value])
                  && exists a <- s.accounts ::
                       && Named(a, name.value) && a.enabled && a.password == password
                       && r.value.value.account == a.id && r.value.value.username == a.username
                       && r.value.value.role == a.role)
            && (r.Failure? || r.value.None? ==> after == s)
  {
    hide NormalizeUsername;
    var name := NormalizeUsername(if username == "" then "admin" else username);
    if name.Success? {
      var i := NameFrom(s.accounts, name.value, 0);
      forall a | a in s.accounts && Named(a, name.value) ensures i < |s.accounts| && a == s.accounts[i] {
        var k :| 0 <= k < |s.accounts| && s.accounts[k] == a;
        assert k == i;
      }
      if i < |s.accounts| {
        assert s.accounts[i] in s.accounts;
      }
    }
  }

  /**
    A session is accepted exactly while it has not been idle for longer than its lifetime; then its idle
    time starts anew.
  */
  lemma ValidateIff(s: State, sid: string, now: int, ttl: int)
    ensures var (after, r) := Validate(s, sid, now, ttl);
            && (r.Some? <==> sid in s.sessions && now - s.sessions[sid].active <= ttl)
            && (r.Some? ==> r.value == s.sessions[sid].(active := now) && sid in after.sessions
                            && after.sessions[sid] == r.value)
            && (r.None? ==> sid !in after.sessions)
            && after.accounts == s.accounts
            && forall other <- s.sessions ::
                 other != sid ==> other in after.sessions && after.sessions[other] == s.sessions[other]
  {
  }

  lemma LogoutEnds(s: State, sid: string)
    ensures var after := Logout(s, sid);
            && sid !in after.sessions && after.accounts == s.accounts
            && forall other <- s.sessions ::
                 other != sid ==> other in after.sessions && after.sessions[other] == s.sessions[other]
  {
  }

  // ----- actors

  ghost predicate Known(s: State, id: string) { exists a <- s.accounts :: a.id == id }

  ghost predicate IsInitialId(s: State, id: string) { exists a <- s.accounts :: a.id == id && a.username == "admin" }

  ghost predicate IsAdminId(s: State, id: string) { exists a <- s.accounts :: a.id == id && a.role.Admin? }

  lemma IdAt(s: State, id: string)
    requires NamesHold(s.accounts)
    ensures Known(s, id) <==> Index(s.accounts, id) < |s.accounts|
    ensures forall a <- s.accounts :: a.id == id ==> a == s.accounts[Index(s.accounts, id)]
  {
    hide NormalizeUsername;
    var i := Index(s.accounts, id);
    if i < |s.accounts| {
      assert s.accounts[i] in s.accounts;
    }
    forall a | a in s.accounts && a.id == id ensures i < |s.accounts| && a == s.accounts[i] {
      var k :| 0 <= k < |s.accounts| && s.accounts[k] == a;
      assert k == i;
    }
  }

  lemma ActorIs(s: State, actor: string)
    requires NamesHold(s.accounts)
    ensures InitialAdmin(NameOf(s.accounts, actor)).Success? <==> Known(s, actor)
    ensures InitialAdmin(NameOf(s.accounts, actor)) == Success(true) <==> IsInitialId(s, actor)
  {
    IdAt(s, actor);
    var i := Index(s.accounts, actor);
    if i < |s.accounts| {
      assert s.accounts[i] in s.accounts;
      hide NormalizeUsername;
    } else {
      assert Text.RStrip("") == "" && Text.LStrip("") == "";
    }
  }

  // ----- the operations on accounts

  ghost predicate GoodPassword(password: string) {
    |password| >= 6 && exists c <- password :: 'A' <= c <= 'Z' || 'a' <= c <= 'z'
  }

  lemma PasswordRule(password: string)
    ensures Acceptable(password) <==> GoodPassword(password)
  {
    if Acceptable(password) {
      var i :| 0 <= i < |password| && ('A' <= password[i] <= 'Z' || 'a' <= password[i] <= 'z');
      assert password[i] in password;
    }
  }

  /** The role a text stands for exists: a custom role must have been defined. */
  predicate GoodRole(text: string, customs: set<string>) {
    match NormalizeRole(text)
    case Success(Custom(c)) => c in customs
    case Success(_) => true
    case Failure(_) => false
  }

  /** What a creation asks for is in order, whoever asks. */
  ghost predicate GoodRequest(username: string, password: string, role: string, display: string, customs: set<string>) {
    && NormalizeUsername(username).Success? && GoodPassword(password) && GoodRole(role, customs)
    && NormalizeDisplayName(display, Text.Strip(username)).Success?
  }

  lemma RequestedIff(username: string, password: string, role: string, enabled: bool, display: string, id: string,
                     customs: set<string>)
    ensures var r := Requested(username, password, role, enabled, display, id, customs);
            && (r.Success? <==> GoodRequest(username, password, role, display, customs))
            && (r.Success? ==>
                  && r.value.id == id && r.value.username == Text.Strip(username) && r.value.password == password
                  && r.value.enabled == enabled && NormalizeRole(role) == Success(r.value.role)
                  && NormalizeDisplayName(display, r.value.username) == Success(r.value.displayName))
  {
    PasswordRule(password);
    NamesAccepted(username);
    hide NormalizeUsername, NormalizeDisplayName, Acceptable, GoodPassword;
  }

  /**
    An account is created exactly for a sound request with a name not yet taken, and an administrator's only
    by the initial one.
  */
  lemma CreateAcceptedIff(s: State, username: string, password: string, role: string, enabled: bool, display: string,
                          id: string, customs: set<string>, actor: string)
    requires NamesHold(s.accounts)
    ensures var (after, error) := Create(s, Requested(username, password, role, enabled, display, id, customs), actor);
            && (error.None? <==>
                && GoodRequest(username, password, role, display, customs)
                && (forall a <- s.accounts :: !Named(a, Text.Strip(username)))
                && (actor != "" && NormalizeRole(role) == Success(Admin) ==> IsInitialId(s, actor)))
            && (error.Some? ==> after == s)
            && (error.None? ==>
                  && after.sessions == s.sessions && |after.accounts| == |s.accounts| + 1
                  && after.accounts[..|s.accounts|] == s.accounts
                  && var a := after.accounts[|s.accounts|];
                  && a.id == id && a.username == Text.Strip(username) && a.password == password
                  && a.enabled == enabled && NormalizeRole(role) == Success(a.role)
                  && NormalizeDisplayName(display, a.username) == Success(a.displayName))
  {
    RequestedIff(username, password, role, enabled, display, id, customs);
    ActorIs(s, actor);
    hide NormalizeUsername, NormalizeDisplayName, NormalizeRole, Requested, GoodRequest, InitialAdmin, NamesHold;
    var name := Text.Strip(username);
    var i := NameFrom(s.accounts, name, 0);
    if i < |s.accounts| {
      assert s.accounts[i] in s.accounts;
    }
  }

  /**
    An actor may touch an account: nobody, the initial administrator, or a known account when it is no
    administrator's.
  */
  ghost predicate MayTouch(s: State, id: string, actor: string) {
    actor == "" || IsInitialId(s, actor) || (Known(s, actor) && !IsAdminId(s, id))
  }

  lemma TouchIff(s: State, id: string, actor: string)
    requires NamesHold(s.accounts) && Index(s.accounts, id) < |s.accounts|
    ensures TouchRefused(s.accounts, s.accounts[Index(s.accounts, id)], actor).None? <==> MayTouch(s, id, actor)
  {
    ActorIs(s, actor);
    IdAt(s, id);
    assert s.accounts[Index(s.accounts, id)] in s.accounts;
    hide InitialAdmin, NamesHold;
  }

  /** Only the sessions of the account go, and of those not the preserved one. */
  ghost predicate SessionsDropped(before: map<string, Session>, after: map<string, Session>, id: string,
                                  preserve: string) {
    && (forall sid <- after :: sid in before && after[sid] == before[sid])
    && (forall sid <- before :: sid in after <==> before[sid].account != id || sid == preserve)
  }

  lemma DroppedAre(sessions: map<string, Session>, id: string, preserve: string)
    ensures SessionsDropped(sessions, WithoutSessionsOf(sessions, id, preserve), id, preserve)
  {
  }

  /**
    A password is reset exactly when it is good, the account exists, and the actor may touch it; nothing
    else changes.
  */
  lemma ResetAcceptedIff(s: State, id: string, password: string, actor: string, preserve: string)
    requires NamesHold(s.accounts)
    ensures var (after, error) := Reset(s, id, password, actor, preserve);
            && (error.None? <==> GoodPassword(password) && Known(s, id) && MayTouch(s, id, actor))
            && (error.Some? ==> after == s)
            && (error.None? ==>
                  && |after.accounts| == |s.accounts|
                  && (forall i :: 0 <= i < |s.accounts| ==>
                                    after.accounts[i] == if s.accounts[i].id == id
                                    then s.accounts[i].(password := password)
                                    else s.accounts[i])
                  && SessionsDropped(s.sessions, after.sessions, id, preserve))
  {
    PasswordRule(password);
    IdAt(s, id);
    var i := Index(s.accounts, id);
    if i < |s.accounts| {
      TouchIff(s, id, actor);
      OneAt(s, id);
      DroppedAre(s.sessions, id, preserve);
    }
    hide GoodPassword, Acceptable, TouchRefused, MayTouch, NamesHold, SessionsDropped, WithoutSessionsOf;
  }

  lemma OneAt(s: State, id: string)
    requires NamesHold(s.accounts) && Index(s.accounts, id) < |s.accounts|
    ensures forall i :: 0 <= i < |s.accounts| ==> (s.accounts[i].id == id <==> i == Index(s.accounts, id))
  {
    hide NormalizeUsername;
  }

  ghost predicate OtherAdmin(s: State, id: string) {
    exists a <- s.accounts :: a.id != id && a.role.Admin? && a.enabled
  }

  /**
    An account is deleted exactly when it exists, is neither the actor's own nor the initial administrator's,
    may be touched, and leaves an enabled administrator behind.
   */
  lemma DeleteAcceptedIff(s: State, id: string, actor: string)
    requires NamesHold(s.accounts)
    ensures var (after, error) := Delete(s, id, actor);
            && (error.None? <==>
                id != actor && Known(s, id) && !IsInitialId(s, id) && MayTouch(s, id, actor) && OtherAdmin(s, id))
            && (error.Some? ==> after == s)
            && (error.None? ==>
                  && (forall a :: a in after.accounts <==> a in s.accounts && a.id != id)
                  && SessionsDropped(s.sessions, after.sessions, id, ""))
  {
    IdAt(s, id);
    var i := Index(s.accounts, id);
    if i < |s.accounts| {
      TouchIff(s, id, actor);
      RemovalLeaves(s, id);
      DroppedAre(s.sessions, id, "");
    }
    hide NamesHold, IsInitialId, TouchRefused, MayTouch, Without, InitialAdmin, HasEnabledAdmin, SessionsDropped,
      WithoutSessionsOf, OtherAdmin;
  }

  lemma RemovalLeaves(s: State, id: string)
    requires NamesHold(s.accounts) && Index(s.accounts, id) < |s.accounts|
    ensures InitialAdmin(s.accounts[Index(s.accounts, id)].username) == Success(IsInitialId(s, id))
    ensures HasEnabledAdmin(Without(s.accounts, id)) <==> OtherAdmin(s, id)
    ensures forall a :: a in Without(s.accounts, id) <==> a in s.accounts && a.id != id
  {
    hide Without;
    ActorIs(s, id);
    var rest := Without(s.accounts, id);
    forall a: Account ensures a in rest <==> a in s.accounts && a.id != id {
      WithoutHas(s.accounts, id, a);
    }
    EnabledAdminIs(rest);
    hide NamesHold, InitialAdmin, HasEnabledAdmin;
  }

  lemma EnabledAdminIs(accounts: seq<Account>)
    ensures HasEnabledAdmin(accounts) <==> exists a <- accounts :: a.role.Admin? && a.enabled
  {
    if HasEnabledAdmin(accounts) {
      var i :| 0 <= i < |accounts| && accounts[i].role.Admin? && accounts[i].enabled;
      assert accounts[i] in accounts;
    }
  }

  /** An edit asks for the administrator's role. */
  predicate AsksAdmin(edit: Edit) { edit.role.Some? && NormalizeRole(edit.role.value) == Success(Admin) }

  /**
    An edit is accepted exactly when the account and the actor are known, its role and display name are in
    order, no one disables themselves, the initial administrator is neither disabled nor given another role,
    and administrators are touched and made by the initial one alone.
   */
  ghost predicate EditAllowed(s: State, id: string, edit: Edit, actor: string, customs: set<string>) {
    && Known(s, id) && Known(s, actor)
    && (edit.role.Some? ==> GoodRole(edit.role.value, customs))
    && (edit.display.Some? ==> |Text.Strip(edit.display.value)| <= 64)
    && !(edit.enabled == Some(false) && id == actor)
    && (IsInitialId(s, id) ==> edit.enabled != Some(false) && (edit.role.Some? ==> AsksAdmin(edit)))
    && (IsInitialId(s, actor) || (!IsAdminId(s, id) && !AsksAdmin(edit)))
  }

  /** The account after an accepted edit. */
  predicate EditApplied(before: Account, after: Account, edit: Edit) {
    && after.id == before.id && after.username == before.username && after.password == before.password
    && (if edit.enabled.Some? then after.enabled == edit.enabled.value else after.enabled == before.enabled)
    && (if edit.role.Some? then NormalizeRole(edit.role.value) == Success(after.role) else after.role == before.role)
    && (if edit.display.Some?
        then NormalizeDisplayName(edit.display.value, before.username) == Success(after.displayName)
        else after.displayName == before.displayName)
  }

  lemma DisplayAccepted(text: string, username: string)
    requires NormalizeUsername(username) == Success(username)
    ensures NormalizeDisplayName(text, username).Success? <==> |Text.Strip(text)| <= 64
  {
    DisplayNames(text, username);
  }

  lemma EditedIs(target: Account, edit: Edit)
    requires NormalizeUsername(target.username) == Success(target.username)
    ensures Edited(target, edit).Success? <==>
            && (edit.display.Some? ==> |Text.Strip(edit.display.value)| <= 64)
            && (edit.role.Some? ==> NormalizeRole(edit.role.value).Success?)
    ensures Edited(target, edit).Success? ==> EditApplied(target, Edited(target, edit).value, edit)
  {
    if edit.display.Some? {
      DisplayAccepted(edit.display.value, target.username);
    }
    hide NormalizeUsername, NormalizeDisplayName, NormalizeRole;
  }

  lemma RefusedIff(s: State, id: string, edit: Edit, actor: string, customs: set<string>)
    requires NamesHold(s.accounts) && Index(s.accounts, id) < |s.accounts|
    ensures EditRefused(s.accounts[Index(s.accounts, id)], NameOf(s.accounts, actor), actor, edit, customs).None? <==>
            && Known(s, actor)
            && (edit.role.Some? ==> GoodRole(edit.role.value, customs))
            && !(edit.enabled == Some(false) && id == actor)
            && (IsInitialId(s, id) ==> edit.enabled != Some(false) && (edit.role.Some? ==> AsksAdmin(edit)))
            && (IsInitialId(s, actor) || (!IsAdminId(s, id) && !AsksAdmin(edit)))
  {
    ActorIs(s, actor);
    ActorIs(s, id);
    IdAt(s, id);
    IdAt(s, actor);
    var target := s.accounts[Index(s.accounts, id)];
    assert target in s.accounts;
    assert actor == "" ==> !Known(s, actor);
    assert NameOf(s.accounts, id) == target.username;
    hide NormalizeRole, NormalizeUsername, InitialAdmin, NameOf, NamesHold, Index, IsInitialId, Known;
  }

  /** After the edit some administrator is enabled: another one, or the edited account. */
  ghost predicate EditLeavesAdmin(s: State, id: string, edit: Edit) {
    || OtherAdmin(s, id)
    || (&& (if edit.role.Some? then AsksAdmin(edit) else IsAdminId(s, id))
        && (if edit.enabled.Some? then edit.enabled.value else exists a <- s.accounts :: a.id == id && a.enabled))
  }

  lemma UpdateAcceptedIff(s: State, id: string, edit: Edit, actor: string, customs: set<string>)
    requires NamesHold(s.accounts)
    ensures var (after, error) := Update(s, id, edit, actor, customs);
            && (error.None? <==> EditAllowed(s, id, edit, actor, customs) && EditLeavesAdmin(s, id, edit))
            && (error.Some? ==> after == s)
            && (error.None? ==>
                  && |after.accounts| == |s.accounts|
                  && (forall i :: 0 <= i < |s.accounts| ==>
                                    if s.accounts[i].id == id then EditApplied(s.accounts[i], after.accounts[i], edit)
                                    else after.accounts[i] == s.accounts[i])
                  && (if edit.enabled == Some(false) then SessionsDropped(s.sessions, after.sessions, id, "")
                      else after.sessions == s.sessions))
  {
    IdAt(s, id);
    var i := Index(s.accounts, id);
    if i < |s.accounts| {
      OneAt(s, id);
      RefusedIff(s, id, edit, actor, customs);
      EditedIs(s.accounts[i], edit);
      if Edited(s.accounts[i], edit).Success? {
        AdminAfterEdit(s, id, edit);
      }
      DroppedAre(s.sessions, id, "");
    }
    hide NamesHold, IsInitialId, EditRefused, Edited, HasEnabledAdmin, NormalizeRole, EditApplied, IsAdminId, NameOf,
      SessionsDropped, WithoutSessionsOf, GoodRole, AsksAdmin, EditLeavesAdmin;
  }

  lemma AdminAfterEdit(s: State, id: string, edit: Edit)
    requires NamesHold(s.accounts) && Index(s.accounts, id) < |s.accounts|
    requires Edited(s.accounts[Index(s.accounts, id)], edit).Success?
    ensures var i := Index(s.accounts, id);
            HasEnabledAdmin(s.accounts[i := Edited(s.accounts[i], edit).value]) <==> EditLeavesAdmin(s, id, edit)
  {
    IdAt(s, id);
    OneAt(s, id);
    var i := Index(s.accounts, id);
    var target, edited := s.accounts[i], Edited(s.accounts[i], edit).value;
    EditedIs(target, edit);
    assert EditApplied(target, edited, edit);
    var after := s.accounts[i := edited];
    EnabledAdminIs(after);
    hide NamesHold, Edited, HasEnabledAdmin, NormalizeRole;
    forall a | a in after && a != edited ensures a in s.accounts && a.id != id {
      var k :| 0 <= k < |after| && after[k] == a;
      assert s.accounts[k] == a;
    }
    forall a | a in s.accounts && a.id != id ensures a in after {
      var k :| 0 <= k < |s.accounts| && s.accounts[k] == a;
      assert after[k] == a;
    }
    assert after[i] == edited && target in s.accounts;
  }

  /** After setup the last condition always holds: the initial administrator is there, enabled, and spared. */
  lemma NeverTheLastAdmin(s: State, id: string, edit: Edit, actor: string, customs: set<string>)
    requires Invariant(s)
    ensures EditAllowed(s, id, edit, actor, customs) ==> EditLeavesAdmin(s, id, edit)
    ensures Known(s, id) && !IsInitialId(s, id) ==> OtherAdmin(s, id)
  {
    var k :| 0 <= k < |s.accounts| && IsInitial(s.accounts[k]);
    var first := s.accounts[k];
    assert first in s.accounts;
    hide NormalizeUsername, NormalizeRole, GoodRole;
  }

  // ----- which error, when several apply

  lemma FailuresAre(username: string, display: string, role: string)
    ensures NormalizeUsername(username).Failure? ==> NormalizeUsername(username) == Failure(BadUsername)
    ensures NormalizeDisplayName(display, username).Failure? ==>
              NormalizeDisplayName(display, username) == Failure(BadDisplayName)
    ensures NormalizeRole(role).Failure? ==> NormalizeRole(role) == Failure(BadRole)
  {
  }

  lemma UnknownActor(s: State, actor: string)
    requires NamesHold(s.accounts) && !Known(s, actor)
    ensures InitialAdmin(NameOf(s.accounts, actor)) == Failure(BadUsername)
  {
    IdAt(s, actor);
    assert Text.RStrip("") == "" && Text.LStrip("") == "";
    hide NamesHold;
  }

  /** Why an actor may not touch an account. */
  ghost function TouchError(s: State, id: string, actor: string): Option<Error> {
    if actor == "" then None
    else if !Known(s, actor) then Some(BadUsername)
    else if !IsInitialId(s, actor) && IsAdminId(s, id) then Some(DelegatedEditsAdmin)
    else None
  }

  lemma TouchErrorIs(s: State, id: string, actor: string)
    requires NamesHold(s.accounts) && Index(s.accounts, id) < |s.accounts|
    ensures TouchRefused(s.accounts, s.accounts[Index(s.accounts, id)], actor) == TouchError(s, id, actor)
  {
    ActorIs(s, actor);
    IdAt(s, id);
    assert s.accounts[Index(s.accounts, id)] in s.accounts;
    if !Known(s, actor) {
      UnknownActor(s, actor);
    }
    hide InitialAdmin, NamesHold;
  }

  lemma ResetErrorIs(s: State, id: string, password: string, actor: string, preserve: string)
    requires NamesHold(s.accounts)
    ensures Reset(s, id, password, actor, preserve).1 ==
            if !GoodPassword(password) then Some(BadPassword)
            else if !Known(s, id) then Some(NotFound)
            else TouchError(s, id, actor)
  {
    PasswordRule(password);
    IdAt(s, id);
    if Known(s, id) {
      TouchErrorIs(s, id, actor);
    }
    hide GoodPassword, Acceptable, TouchRefused, TouchError, NamesHold, WithoutSessionsOf;
  }

  lemma DeleteErrorIs(s: State, id: string, actor: string)
    requires NamesHold(s.accounts)
    ensures Delete(s, id, actor).1 ==
            if id == actor then Some(CannotDeleteSelf)
            else if !Known(s, id) then Some(NotFound)
            else if IsInitialId(s, id) then Some(InitialDeleted)
            else if TouchError(s, id, actor).Some? then TouchError(s, id, actor)
            else if !OtherAdmin(s, id) then Some(NoEnabledAdmin)
            else None
  {
    IdAt(s, id);
    if Known(s, id) {
      TouchErrorIs(s, id, actor);
      RemovalLeaves(s, id);
    }
    hide NamesHold, IsInitialId, TouchRefused, TouchError, Without, InitialAdmin, HasEnabledAdmin, WithoutSessionsOf,
      OtherAdmin;
  }

  lemma CreateErrorIs(s: State, username: string, password: string, role: string, enabled: bool, display: string,
                      id: string, customs: set<string>, actor: string)
    requires NamesHold(s.accounts)
    ensures Create(s, Requested(username, password, role, enabled, display, id, customs), actor).1 ==
            if NormalizeUsername(username).Failure? then Some(BadUsername)
            else if NormalizeDisplayName(display, Text.Strip(username)).Failure? then Some(BadDisplayName)
            else if NormalizeRole(role).Failure? then Some(BadRole)
            else if !GoodPassword(password) then Some(BadPassword)
            else if !GoodRole(role, customs) then Some(UnknownRole)
            else if exists a <- s.accounts :: Named(a, Text.Strip(username)) then Some(UsernameTaken)
            else if actor == "" || NormalizeRole(role) != Success(Admin) || IsInitialId(s, actor) then None
            else if !Known(s, actor) then Some(BadUsername)
            else Some(OnlyInitialCreatesAdmins)
  {
    CreateAcceptedIff(s, username, password, role, enabled, display, id, customs, actor);
    RequestedErrorIs(username, password, role, enabled, display, id, customs);
    RequestedIff(username, password, role, enabled, display, id, customs);
    ActorIs(s, actor);
    if !Known(s, actor) {
      UnknownActor(s, actor);
    }
    hide NormalizeUsername, NormalizeDisplayName, NormalizeRole, Requested, InitialAdmin, NamesHold, GoodRole,
      GoodPassword;
    var i := NameFrom(s.accounts, Text.Strip(username), 0);
    if i < |s.accounts| {
      assert s.accounts[i] in s.accounts;
    }
  }

  lemma RequestedErrorIs(username: string, password: string, role: string, enabled: bool, display: string, id: string,
                         customs: set<string>)
    ensures var r := Requested(username, password, role, enabled, display, id, customs);
            r.Failure? ==>
              r.error ==
              if NormalizeUsername(username).Failure? then BadUsername
              else if NormalizeDisplayName(display, Text.Strip(username)).Failure? then BadDisplayName
              else if NormalizeRole(role).Failure? then BadRole
              else if !GoodPassword(password) then BadPassword
              else UnknownRole
  {
    PasswordRule(password);
    FailuresAre(username, display, role);
    NamesAccepted(username);
    FailuresAre(Text.Strip(username), display, role);
    hide NormalizeUsername, NormalizeDisplayName, NormalizeRole, Acceptable, GoodPassword;
  }

  lemma UpdateErrorIs(s: State, id: string, edit: Edit, actor: string, customs: set<string>)
    requires NamesHold(s.accounts)
    ensures Update(s, id, edit, actor, customs).1 ==
            if !Known(s, id) then Some(NotFound)
            else if EditError(s, id, edit, actor, customs).Some? then EditError(s, id, edit, actor, customs)
            else if edit.display.Some? && |Text.Strip(edit.display.value)| > 64 then Some(BadDisplayName)
            else if !EditLeavesAdmin(s, id, edit) then Some(NoEnabledAdmin)
            else None
  {
    IdAt(s, id);
    if Known(s, id) {
      var target := s.accounts[Index(s.accounts, id)];
      assert target in s.accounts;
      EditErrorIs(s, id, edit, actor, customs);
      RefusedIff(s, id, edit, actor, customs);
      EditedIs(target, edit);
      EditedErrorIs(target, edit);
      if Edited(target, edit).Success? {
        AdminAfterEdit(s, id, edit);
      }
    }
    hide NamesHold, EditRefused, EditError, Edited, HasEnabledAdmin, NormalizeRole, NameOf, WithoutSessionsOf,
      EditLeavesAdmin, IsInitialId, IsAdminId, AsksAdmin;
  }

  lemma EditedErrorIs(target: Account, edit: Edit)
    ensures Edited(target, edit).Failure? && (edit.role.Some? ==> NormalizeRole(edit.role.value).Success?) ==>
              Edited(target, edit) == Failure(BadDisplayName)
  {
    if edit.display.Some? {
      FailuresAre(target.username, edit.display.value, "");
    }
    hide NormalizeUsername, NormalizeDisplayName, NormalizeRole;
  }

  /** Why an edit of a known account is refused before it is tried. */
  ghost function EditError(s: State, id: string, edit: Edit, actor: string, customs: set<string>): Option<Error> {
    if !Known(s, actor) then Some(BadUsername)
    else if edit.role.Some? && NormalizeRole(edit.role.value).Failure? then Some(BadRole)
    else if edit.role.Some? && !GoodRole(edit.role.value, customs) then Some(UnknownRole)
    else if edit.enabled == Some(false) && id == actor then Some(CannotDisableSelf)
    else if edit.enabled == Some(false) && IsInitialId(s, id) then Some(InitialDisabled)
    else if IsInitialId(s, id) && edit.role.Some? && !AsksAdmin(edit) then Some(InitialDemoted)
    else if !IsInitialId(s, actor) && IsAdminId(s, id) then Some(DelegatedEditsAdmin)
    else if !IsInitialId(s, actor) && AsksAdmin(edit) then Some(OnlyInitialCreatesAdmins)
    else None
  }

  /** The role an edit asks for, as the checks see it. */
  lemma RoleAsked(edit: Edit, customs: set<string>)
    requires edit.role.Some?
    ensures var r := NormalizeRole(edit.role.value);
            && (r.Failure? ==> r == Failure(BadRole))
            && (r.Success? ==> (RoleExists(r.value, customs) <==> GoodRole(edit.role.value, customs)))
            && (r.Success? ==> (r.value.Admin? <==> AsksAdmin(edit)))
            && (r.Failure? ==> !GoodRole(edit.role.value, customs) && !AsksAdmin(edit))
  {
    FailuresAre("", "", edit.role.value);
    hide NormalizeRole;
  }

  lemma EditErrorIs(s: State, id: string, edit: Edit, actor: string, customs: set<string>)
    requires NamesHold(s.accounts) && Index(s.accounts, id) < |s.accounts|
    ensures EditRefused(s.accounts[Index(s.accounts, id)], NameOf(s.accounts, actor), actor, edit, customs)
         == EditError(s, id, edit, actor, customs)
  {
    ActorIs(s, actor);
    ActorIs(s, id);
    IdAt(s, id);
    IdAt(s, actor);
    if !Known(s, actor) {
      UnknownActor(s, actor);
    }
    if edit.role.Some? {
      RoleAsked(edit, customs);
    }
    var target := s.accounts[Index(s.accounts, id)];
    assert target in s.accounts;
    assert actor == "" ==> !Known(s, actor);
    assert NameOf(s.accounts, id) == target.username;
    hide NormalizeRole, NormalizeUsername, InitialAdmin, NameOf, NamesHold, Index, IsInitialId, Known, GoodRole,
      AsksAdmin, RoleExists;
  }

  /** Setup is accepted exactly with a good password, and leaves the initial administrator alone in the table. */
  lemma SetupLeaves(s: State, password: string, id: string)
    ensures var (after, error) := Setup(s, password, id);
            && (error.None? <==> GoodPassword(password))
            && (error.Some? ==> after == s)
            && (error.None? ==>
                  && after.sessions == s.sessions && |after.accounts| == 1
                  && after.accounts[0].id == id && after.accounts[0].username == "admin"
                  && after.accounts[0].role.Admin? && after.accounts[0].enabled
                  && after.accounts[0].password == password
                  && NormalizeDisplayName("", "admin") == Success(after.accounts[0].displayName))
    ensures SetupRequired(s) <==> forall a <- s.accounts :: !a.enabled
  {
    PasswordRule(password);
    AdminLower();
    DisplayNames("", "admin");
    assert Text.RStrip("") == "" && Text.LStrip("") == "";
    forall a | a in s.accounts ensures exists i :: 0 <= i < |s.accounts| && s.accounts[i] == a {}
    hide GoodPassword, Acceptable;
  }

  lemma AdminLower()
    ensures Text.LowerText("admin") == "admin"
  {
    assert "admin"[1..] == "dmin" && "dmin"[1..] == "min" && "min"[1..] == "in" && "in"[1..] == "n" && "n"[1..] == "";
  }

  // ----- passwords over whole runs

  ghost predicate HasPassword(s: State, id: string, password: string) {
    exists a <- s.accounts :: a.id == id && a.password == password
  }

  /** The operation is an accepted reset or deletion of the account. */
  predicate Touches(s: State, op: Op, id: string) {
    match op
    case ResetPassword(target, password, actor, preserve) =>
      target == id && Reset(s, target, password, actor, preserve).1.None?
    case DeleteUser(target, actor) => target == id && Delete(s, target, actor).1.None?
    case _ => false
  }

  lemma PositionOf(s: State, id: string, password: string) returns (i: nat)
    requires HasPassword(s, id, password)
    ensures i < |s.accounts| && s.accounts[i].id == id && s.accounts[i].password == password
  {
    i :| 0 <= i < |s.accounts| && s.accounts[i].id == id && s.accounts[i].password == password;
  }

  /** No other operation changes an account's password or removes it. */
  lemma CreateKeepsPassword(s: State, op: Op, customs: set<string>, i: nat)
    requires Invariant(s) && Possible(s, op) && op.CreateUser? && i < |s.accounts|
    ensures HasPassword(Step(s, op, customs), s.accounts[i].id, s.accounts[i].password)
  {
    var after := Step(s, op, customs);
    CreateAcceptedIff(s, op.username, op.password, op.role, op.enabled, op.display, op.id, customs, op.actor);
    hide Create, Requested, GoodRequest, Invariant, Possible;
    if after != s {
      assert after.accounts[..|s.accounts|][i] == s.accounts[i];
    }
    assert after.accounts[i] in after.accounts;
  }

  lemma UpdateKeepsPassword(s: State, id: string, edit: Edit, actor: string, customs: set<string>, i: nat)
    requires NamesHold(s.accounts) && i < |s.accounts|
    ensures HasPassword(Update(s, id, edit, actor, customs).0, s.accounts[i].id, s.accounts[i].password)
  {
    var (after, error) := Update(s, id, edit, actor, customs);
    UpdateAcceptedIff(s, id, edit, actor, customs);
    hide Update, EditAllowed, EditLeavesAdmin, NormalizeRole, NormalizeDisplayName, SessionsDropped, NamesHold;
    if error.None? && s.accounts[i].id == id {
      assert EditApplied(s.accounts[i], after.accounts[i], edit);
    }
    assert after.accounts[i].id == s.accounts[i].id && after.accounts[i].password == s.accounts[i].password;
    assert after.accounts[i] in after.accounts;
  }

  lemma StepKeepsPassword(s: State, op: Op, customs: set<string>, id: string, password: string)
    requires Invariant(s) && Possible(s, op) && HasPassword(s, id, password) && !Touches(s, op, id)
    ensures HasPassword(Step(s, op, customs), id, password)
  {
    InvariantHasInitial(s);
    var i := PositionOf(s, id, password);
    var after := Step(s, op, customs);
    match op
    case SetAdminPassword(_, _) =>
    case LogIn(username, attempt, sid, now) => LoginIff(s, username, attempt, sid, now);
    case Touch(sid, now, ttl) =>
    case LogOut(sid) =>
    case CreateUser(_, _, _, _, _, _, _) => CreateKeepsPassword(s, op, customs, i);
    case UpdateUser(target, edit, actor) =>
      UpdateKeepsPassword(s, target, edit, actor, customs, i);
      hide Update;
    case ResetPassword(target, p, actor, preserve) =>
      ResetAcceptedIff(s, target, p, actor, preserve);
      hide Reset;
      assert after.accounts[i] in after.accounts;
    case DeleteUser(target, actor) =>
      DeleteAcceptedIff(s, target, actor);
      hide Delete;
      assert s.accounts[i] in s.accounts;
  }

  lemma {:induction false} PasswordStays(run: seq<State>, ops: seq<Op>, customs: seq<set<string>>, k: nat, n: nat,
                                         id: string, password: string)
    requires Execution(run, ops, customs) && AfterSetup(run[0]) && k <= n < |run|
    requires HasPassword(run[k], id, password)
    requires forall m :: k <= m < n ==> !Touches(run[m], ops[m], id)
    ensures HasPassword(run[n], id, password)
    decreases n
  {
    hide Step, Possible, Touches, HasPassword;
    if k < n {
      PasswordStays(run, ops, customs, k, n - 1, id, password);
      AlwaysHolds(run, ops, customs, n - 1);
      assert run[n] == Step(run[n - 1], ops[n - 1], customs[n - 1]);
      StepKeepsPassword(run[n - 1], ops[n - 1], customs[n - 1], id, password);
    }
  }

  /**
    From an accepted reset until the next reset or the deletion of the account, a login under its name opens a
    session exactly with the password of that reset, whatever else happens; the old one opens none.
   */
  lemma ResetDecidesLogin(run: seq<State>, ops: seq<Op>, customs: seq<set<string>>, k: nat, n: nat,
                          username: string, attempt: string, sid: string, now: int)
    requires Execution(run, ops, customs) && AfterSetup(run[0]) && k < n < |run|
    requires ops[k].ResetPassword? && Touches(run[k], ops[k], ops[k].id)
    requires forall m :: k < m < n ==> !Touches(run[m], ops[m], ops[k].id)
    ensures Known(run[n], ops[k].id)
    ensures var name := NormalizeUsername(if username == "" then "admin" else username);
            forall a <- run[n].accounts ::
              a.id == ops[k].id && a.enabled && name.Success? && Named(a, name.value) ==>
                var r := Login(run[n], username, attempt, sid, now).1;
                r.Success? && (r.value.Some? <==> attempt == ops[k].password)
  {
    var id, password := ops[k].id, ops[k].password;
    AlwaysHolds(run, ops, customs, k);
    AlwaysHolds(run, ops, customs, n);
    assert run[k + 1] == Step(run[k], ops[k], customs[k]);
    ResetSetsPassword(run[k], ops[k], customs[k]);
    PasswordStays(run, ops, customs, k + 1, n, id, password);
    hide Step, Possible, Touches, Execution, NormalizeUsername;
    OnlyOneNamed(run[n], id, password);
    LoginIff(run[n], username, attempt, sid, now);
  }

  lemma ResetSetsPassword(s: State, op: Op, customs: set<string>)
    requires Invariant(s) && op.ResetPassword? && Touches(s, op, op.id)
    ensures HasPassword(Step(s, op, customs), op.id, op.password)
  {
    ResetAcceptedIff(s, op.id, op.password, op.actor, op.preserve);
    hide Reset;
    var i :| 0 <= i < |s.accounts| && s.accounts[i].id == op.id;
    var after := Step(s, op, customs);
    assert after.accounts[i] in after.accounts;
  }

  /** An account's id and name are its own, so its password is the one found under either. */
  lemma OnlyOneNamed(s: State, id: string, password: string)
    requires NamesHold(s.accounts) && HasPassword(s, id, password)
    ensures Known(s, id)
    ensures forall a <- s.accounts :: a.id == id ==> a.password == password
    ensures forall a, b, name :: a in s.accounts && b in s.accounts && Named(a, name) && Named(b, name) ==> a == b
  {
    hide NormalizeUsername;
    IdAt(s, id);
    forall a, b, name | a in s.accounts && b in s.accounts && Named(a, name) && Named(b, name) ensures a == b {
      var i :| 0 <= i < |s.accounts| && s.accounts[i] == a;
      var j :| 0 <= j < |s.accounts| && s.accounts[j] == b;
      assert i == j;
    }
  }
}

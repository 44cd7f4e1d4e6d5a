/** The role-capability matrix: defaults, migration of old codes, clean-up on load, and the checks on save. */
module Capabilities {
  import opened Wrappers

  /** `CAPABILITY_DEFINITIONS`: the registered codes, each constructor spelling one out. */
  datatype Capability =
    | MenuReportNavigation | MenuHome | MenuAutoCheck | MenuHistory | MenuTools
    | SysSettings | SysSettingsAdmin | SysUsers | SysRolePermissions | SysDictionaries | SysScheduledTasks
    | HistoryDelete | ReportNavigationEditSchedule | ReportNavigationEditStats
    | RspView | RspDetail | RspCreate | RspEdit | RspConfirm | RspVoid | RspReopen | RspDelete
    | SysDashboardManagement | SysDashboardManagementManage | SysDashboardManagementTestSql
    | SysDashboardManagementExternalApiMonitor | SysDashboardManagementExternalApiTokenManage
    | SysDashboardManagementExternalApiIpWhitelistManage

  /** Any text that can stand as a code in stored data: a registered one, one of the two retired ones, or another. */
  datatype Code = Known(cap: Capability) | OldMenuSmartReconcile | OldReportNavigationAdmin | Unregistered(text: string)

  datatype Role = Admin | User | Custom(code: string)

  type Caps = map<Code, bool>
  type Matrix = map<Role, Caps>

  function Codes(): set<Code> {
    set cap: Capability | true :: Known(cap)
  }

  predicate Registered(c: Code) { c.Known? }

  /** `REQUIRED_CAPABILITIES` */
  function RequiredCodes(): set<Code> { {Known(MenuReportNavigation)} }

  /** `ADMIN_ONLY_CAPABILITIES` */
  function AdminOnlyCodes(): set<Code> {
    set cap: Capability | IsAdminOnly(cap) :: Known(cap)
  }

  predicate IsAdminOnly(c: Capability) {
    c.SysSettingsAdmin? || c.SysUsers? || c.SysRolePermissions? || c.SysScheduledTasks?
    || c.SysDashboardManagementExternalApiTokenManage? || c.SysDashboardManagementExternalApiIpWhitelistManage?
  }

  /** `_STANDARD_TIER_TRUE` */
  predicate Standard(c: Capability) {
    c.MenuReportNavigation? || c.MenuHome? || c.MenuAutoCheck? || c.MenuHistory? || c.MenuTools? || c.SysSettings?
    || c.RspView? || c.RspDetail? || c.RspCreate? || c.RspEdit? || c.RspVoid? || c.RspReopen?
  }

  lemma Lists(c: Code)
    ensures c in Codes() <==> Registered(c)
    ensures c in RequiredCodes() <==> c == Known(MenuReportNavigation)
    ensures c in AdminOnlyCodes() <==> c.Known? && IsAdminOnly(c.cap)
    ensures c in RequiredCodes() ==> Standard(c.cap) && LegacyOf(c).None? && c !in AdminOnlyCodes() && c in Codes()
    ensures c in AdminOnlyCodes() ==> !Standard(c.cap) && LegacyOf(c).None? && c in Codes()
  {
  }

  /** Six codes are the administrator's alone. */
  lemma AdminOnlyAre()
    ensures |AdminOnlyCodes()| == 6
  {
    assert AdminOnlyCodes() ==
           {Known(SysSettingsAdmin), Known(SysUsers), Known(SysRolePermissions), Known(SysScheduledTasks),
            Known(SysDashboardManagementExternalApiTokenManage),
            Known(SysDashboardManagementExternalApiIpWhitelistManage)};
  }

  /** Twelve are on by default for ordinary users. */
  lemma StandardAre()
    ensures |set cap: Capability | Standard(cap)| == 12
  {
    var own := {MenuReportNavigation, MenuHome, MenuAutoCheck, MenuHistory, MenuTools, SysSettings};
    var rsp := {RspView, RspDetail, RspCreate, RspEdit, RspVoid, RspReopen};
    assert |own| == 6 && |rsp| == 6 && own !! rsp;
    assert (set cap: Capability | Standard(cap)) == own + rsp;
  }

  // ----- defaults and migration

  /** `LEGACY_CAPABILITY_MIGRATIONS`: what the retired codes stood for. */
  function Legacy(): seq<(Code, seq<Code>)> {
    [(OldMenuSmartReconcile, [Known(MenuHome), Known(MenuAutoCheck), Known(MenuHistory)]),
     (OldReportNavigationAdmin, [Known(ReportNavigationEditSchedule), Known(ReportNavigationEditStats)])]
  }

  /** The retired code a code takes its value from. */
  function LegacyOf(c: Code): Option<Code> {
    if !c.Known? then None
    else if c.cap.MenuHome? || c.cap.MenuAutoCheck? || c.cap.MenuHistory? then Some(OldMenuSmartReconcile)
    else if c.cap.ReportNavigationEditSchedule? || c.cap.ReportNavigationEditStats? then Some(OldReportNavigationAdmin)
    else None
  }

  /** `default_matrix_for_role`, at one code. */
  predicate Default(role: Role, c: Code) { role.Admin? || (c.Known? && Standard(c.cap)) }

  /** `all_known_roles` */
  function Roles(custom: seq<string>): set<Role> {
    {Admin, User} + set r | r in custom :: Custom(r)
  }

  /** A role's value for a code: its own, else the retired code's, else the default. */
  predicate Value(role: Role, row: Caps, c: Code) {
    if c in row then row[c]
    else if LegacyOf(c).Some? && LegacyOf(c).value in row then row[LegacyOf(c).value]
    else Default(role, c)
  }

  function MergedRow(role: Role, row: Caps): Caps {
    map c | c in Codes() :: Value(role, row, c)
  }

  function RowOf(m: Matrix, role: Role): Caps {
    if role in m then m[role] else map[]
  }

  /** `merge_matrix` */
  function Merge(stored: Matrix, custom: seq<string>): Matrix {
    map role | role in Roles(custom) :: MergedRow(role, RowOf(stored, role))
  }

  function Assigned(row: Caps, codes: set<Code>, value: bool): Caps {
    row + map c | c in codes :: value
  }

  /** `sanitize_admin_only` */
  function SanitizeAdminOnly(m: Matrix): Matrix {
    map role | role in m :: if role.Admin? then m[role] else Assigned(m[role], AdminOnlyCodes(), false)
  }

  /** `sanitize_required` */
  function SanitizeRequired(m: Matrix): Matrix {
    map role | role in m :: Assigned(m[role], RequiredCodes(), true)
  }

  // ----- the checks on save

  function Get(row: Caps, c: Code, missing: bool): bool {
    if c in row then row[c] else missing
  }

  /** `assert_admin_column_unchanged` passes. */
  predicate AdminUnchanged(previous: Matrix, incoming: Matrix) {
    forall c <- Codes() :: Get(RowOf(previous, Admin), c, false) == Get(RowOf(incoming, Admin), c, false)
  }

  /** `assert_required_unchanged` passes. */
  predicate RequiredKept(m: Matrix) {
    forall role <- m :: role.Admin? || forall c <- RequiredCodes() :: Get(m[role], c, true)
  }

  /** `assert_admin_only_unchanged` passes. */
  predicate AdminOnlyKept(m: Matrix) {
    forall role <- m :: role.Admin? || forall c <- AdminOnlyCodes() :: !Get(m[role], c, false)
  }

  datatype Refusal = AdminLocked | RequiredDisabled | AdminOnlyGranted

  // ----- load and save; nothing is stored before the first save

  /** `load_role_capability_matrix` */
  function Loaded(stored: Option<Matrix>, custom: seq<string>): Matrix {
    Merge(SanitizeRequired(SanitizeAdminOnly(if stored.Some? then stored.value else map[])), custom)
  }

  /** `save_role_capability_matrix`: what is written and returned. */
  function Saved(stored: Option<Matrix>, m: Matrix, custom: seq<string>): Result<Matrix, Refusal> {
    var merged := Merge(m, custom);
    if !AdminUnchanged(Loaded(stored, custom), merged) then Failure(AdminLocked)
    else if !RequiredKept(merged) then Failure(RequiredDisabled)
    else if !AdminOnlyKept(merged) then Failure(AdminOnlyGranted)
    else Success(merged)
  }

  /** A stored row as the two clean-ups leave it. */
  function Cleaned(role: Role, row: Caps): Caps {
    Assigned(if role.Admin? then row else Assigned(row, AdminOnlyCodes(), false), RequiredCodes(), true)
  }

  lemma CleanedValue(role: Role, row: Caps, c: Code)
    requires c in Codes()
    ensures Value(role, Cleaned(role, row), c) ==
            if c in RequiredCodes() then true else if c in AdminOnlyCodes() && !role.Admin? then false
            else Value(role, row, c)
    ensures Value(role, map[], c) ==
            if c in RequiredCodes() then true else if c in AdminOnlyCodes() && !role.Admin? then false
            else Value(role, map[], c)
  {
    hide Codes, RequiredCodes, AdminOnlyCodes;
    Lists(c);
    if LegacyOf(c).Some? {
      Lists(LegacyOf(c).value);
    }
  }

  lemma LoadedRow(stored: Option<Matrix>, custom: seq<string>, role: Role)
    requires role in Roles(custom)
    ensures role in Loaded(stored, custom)
    ensures Loaded(stored, custom)[role] ==
            MergedRow(role, if stored.Some? && role in stored.value then Cleaned(role, stored.value[role]) else map[])
  {
    hide MergedRow, Assigned, Roles;
  }

  /** At each role and code, what a load gives. */
  lemma LoadedAt(stored: Option<Matrix>, custom: seq<string>, role: Role, c: Code)
    requires role in Roles(custom) && c in Codes()
    ensures var m := Loaded(stored, custom);
            var row := if stored.Some? then RowOf(stored.value, role) else map[];
            && role in m && c in m[role]
            && m[role][c] ==
               if c in RequiredCodes() then true
               else if c in AdminOnlyCodes() && !role.Admin? then false
               else Value(role, row, c)
  {
    hide Codes, RequiredCodes, AdminOnlyCodes, Value, Loaded, Roles, Cleaned;
    LoadedRow(stored, custom, role);
    CleanedValue(role, if stored.Some? then RowOf(stored.value, role) else map[], c);
  }

  /** A merged matrix has exactly the known roles and the registered codes, and merging it again changes nothing. */
  lemma MergeIsIdempotent(m: Matrix, custom: seq<string>)
    ensures Merge(m, custom).Keys == Roles(custom)
    ensures forall role <- Merge(m, custom) :: Merge(m, custom)[role].Keys == Codes()
    ensures Merge(Merge(m, custom), custom) == Merge(m, custom)
  {
    hide Codes, MergedRow, Roles;
    forall role | role in Roles(custom)
      ensures MergedRow(role, MergedRow(role, RowOf(m, role))) == MergedRow(role, RowOf(m, role))
      ensures MergedRow(role, RowOf(m, role)).Keys == Codes()
    {
      MergedRowIsFull(role, RowOf(m, role));
    }
  }

  lemma MergedRowIsFull(role: Role, row: Caps)
    ensures MergedRow(role, row).Keys == Codes()
    ensures MergedRow(role, MergedRow(role, row)) == MergedRow(role, row)
  {
    hide Codes, LegacyOf, Default;
  }

  /** Whatever is stored, what is loaded passes all three checks and can be saved back as it is. */
  lemma LoadedCanBeSaved(stored: Option<Matrix>, custom: seq<string>)
    ensures var m := Loaded(stored, custom);
            && RequiredKept(m) && AdminOnlyKept(m) && Merge(m, custom) == m
            && Saved(stored, m, custom) == Success(m)
  {
    hide Codes, RequiredCodes, AdminOnlyCodes, Merge, SanitizeRequired, SanitizeAdminOnly;
    var m := Loaded(stored, custom);
    MergeIsIdempotent(SanitizeRequired(SanitizeAdminOnly(if stored.Some? then stored.value else map[])), custom);
    forall role, c | role in m && c in Codes()
      ensures c in m[role] && (c in RequiredCodes() ==> m[role][c])
              && (c in AdminOnlyCodes() && !role.Admin? ==> !m[role][c])
    {
      LoadedAt(stored, custom, role, c);
      Lists(c);
    }
    forall c | c in RequiredCodes() || c in AdminOnlyCodes() ensures c in Codes() { Lists(c); }
  }

  /** A load after a save, with the same roles, returns what the save returned. */
  lemma LoadReturnsSaved(stored: Option<Matrix>, m: Matrix, custom: seq<string>)
    requires Saved(stored, m, custom).Success?
    ensures Loaded(Some(Saved(stored, m, custom).value), custom) == Saved(stored, m, custom).value
  {
    hide Codes, RequiredCodes, AdminOnlyCodes, Value;
    hide Merge, Loaded, Saved, Roles;
    var saved := Saved(stored, m, custom).value;
    var loaded := Loaded(Some(saved), custom);
    SavedIsMerged(stored, m, custom);
    MergeIsIdempotent(m, custom);
    LoadedRoles(Some(saved), custom);
    forall role | role in saved ensures role in loaded && loaded[role] == saved[role] {
      LoadedKeys(Some(saved), custom, role);
      forall c | c in Codes() ensures c in loaded[role] && loaded[role][c] == saved[role][c] {
        SavedAt(stored, m, custom, role, c);
      }
    }
  }

  lemma SavedIsMerged(stored: Option<Matrix>, m: Matrix, custom: seq<string>)
    requires Saved(stored, m, custom).Success?
    ensures Saved(stored, m, custom).value == Merge(m, custom)
  {
  }

  lemma LoadedRoles(stored: Option<Matrix>, custom: seq<string>)
    ensures Loaded(stored, custom).Keys == Roles(custom)
  {
  }

  lemma LoadedKeys(stored: Option<Matrix>, custom: seq<string>, role: Role)
    requires role in Roles(custom)
    ensures role in Loaded(stored, custom) && Loaded(stored, custom)[role].Keys == Codes()
  {
    hide Codes, SanitizeRequired, SanitizeAdminOnly;
  }

  lemma SavedAt(stored: Option<Matrix>, m: Matrix, custom: seq<string>, role: Role, c: Code)
    requires Saved(stored, m, custom).Success? && role in Roles(custom) && c in Codes()
    ensures var saved := Saved(stored, m, custom).value;
            && role in saved && c in saved[role] && Loaded(Some(saved), custom)[role][c] == saved[role][c]
            && saved[role][c] == Value(role, RowOf(m, role), c)
  {
    hide Codes, RequiredCodes, AdminOnlyCodes, SanitizeRequired, SanitizeAdminOnly, Loaded;
    var saved := Saved(stored, m, custom).value;
    LoadedAt(Some(saved), custom, role, c);
    Lists(c);
    if role.Admin? && c in RequiredCodes() {
      LoadedAt(stored, custom, Admin, c);
      assert Get(RowOf(Loaded(stored, custom), Admin), c, false);
    }
  }

  lemma AdminColumnAt(stored: Option<Matrix>, m: Matrix, custom: seq<string>)
    ensures Admin in Loaded(stored, custom) && Loaded(stored, custom)[Admin].Keys == Codes()
    ensures AdminUnchanged(Loaded(stored, custom), Merge(m, custom)) <==>
            forall c <- Codes() :: Value(Admin, RowOf(m, Admin), c) == Loaded(stored, custom)[Admin][c]
  {
    hide Codes, Value, Loaded;
    LoadedKeys(stored, custom, Admin);
    var loaded, merged := Loaded(stored, custom), Merge(m, custom);
    assert RowOf(merged, Admin) == MergedRow(Admin, RowOf(m, Admin));
    assert forall c <- Codes() :: Get(RowOf(merged, Admin), c, false) == Value(Admin, RowOf(m, Admin), c);
    assert forall c <- Codes() :: Get(RowOf(loaded, Admin), c, false) == loaded[Admin][c];
  }

  lemma ChecksAt(m: Matrix, custom: seq<string>, role: Role, c: Code)
    requires role in Roles(custom) && !role.Admin?
    ensures role in Merge(m, custom)
    ensures c in RequiredCodes() ==> Get(Merge(m, custom)[role], c, true) == Get(RowOf(m, role), c, true)
    ensures c in AdminOnlyCodes() ==> Get(Merge(m, custom)[role], c, false) == Get(RowOf(m, role), c, false)
  {
    hide Codes, RequiredCodes, AdminOnlyCodes, Roles;
    Lists(c);
    assert Merge(m, custom)[role] == MergedRow(role, RowOf(m, role));
  }

  /** No role but Admin is granted what only administrators have, or denied what everyone has. */
  ghost predicate Permissible(m: Matrix, custom: seq<string>) {
    forall role <- Roles(custom) :: !role.Admin? ==>
                                      && (forall c <- RequiredCodes() :: Get(RowOf(m, role), c, true))
                                      && (forall c <- AdminOnlyCodes() :: !Get(RowOf(m, role), c, false))
  }

  lemma ChecksPassIff(m: Matrix, custom: seq<string>)
    ensures RequiredKept(Merge(m, custom)) && AdminOnlyKept(Merge(m, custom)) <==> Permissible(m, custom)
  {
    hide Codes, RequiredCodes, AdminOnlyCodes, Get, Merge, RowOf;
    MergedRoles(m, custom);
    forall role, c | role in Roles(custom) && !role.Admin?
      ensures c in RequiredCodes() ==> Get(Merge(m, custom)[role], c, true) == Get(RowOf(m, role), c, true)
      ensures c in AdminOnlyCodes() ==> Get(Merge(m, custom)[role], c, false) == Get(RowOf(m, role), c, false)
    {
      ChecksAt(m, custom, role, c);
    }
  }

  lemma MergedRoles(m: Matrix, custom: seq<string>)
    ensures Merge(m, custom).Keys == Roles(custom)
  {
  }

  /** A save is accepted exactly when it is permissible and leaves the administrators' column as it was. */
  lemma SavedIff(stored: Option<Matrix>, m: Matrix, custom: seq<string>)
    ensures Admin in Loaded(stored, custom) && Loaded(stored, custom)[Admin].Keys == Codes()
    ensures Saved(stored, m, custom).Success? <==>
            && Permissible(m, custom)
            && forall c <- Codes() :: Value(Admin, RowOf(m, Admin), c) == Loaded(stored, custom)[Admin][c]
  {
    hide Loaded, Merge, AdminUnchanged, RequiredKept, AdminOnlyKept, Permissible, Codes;
    AdminColumnAt(stored, m, custom);
    ChecksPassIff(m, custom);
  }

  // ----- any sequence of saves

  /** A save, with the roles defined at the time; the remarks' save stores what it loads when nothing is stored yet. */
  datatype Write = SaveMatrix(m: Matrix, custom: seq<string>) | SaveRemarks(custom: seq<string>)

  function Written(stored: Option<Matrix>, w: Write): Option<Matrix> {
    match w
    case SaveMatrix(m, custom) =>
      var r := Saved(stored, m, custom);
      if r.Success? then Some(r.value) else stored
    case SaveRemarks(custom) => if stored.Some? then stored else Some(Loaded(None, custom))
  }

  function AllWritten(writes: seq<Write>): Option<Matrix> {
    if writes == [] then None else Written(AllWritten(writes[..|writes| - 1]), writes[|writes| - 1])
  }

  /** Every administrator capability is granted. */
  predicate AdminFull(stored: Option<Matrix>) {
    stored.Some? ==> Admin in stored.value && forall c <- Codes() :: c in stored.value[Admin] && stored.value[Admin][c]
  }

  lemma FullLoads(stored: Option<Matrix>, custom: seq<string>)
    requires AdminFull(stored)
    ensures Admin in Loaded(stored, custom) && AdminFull(Some(Loaded(stored, custom)))
  {
    hide Codes, Loaded;
    LoadedKeys(stored, custom, Admin);
    forall c | c in Codes() ensures Loaded(stored, custom)[Admin][c] {
      LoadedAt(stored, custom, Admin, c);
    }
  }

  /**
    From an empty store, whatever is saved and in whatever order, every load grants administrators every
    capability.
  */
  lemma {:induction false} AdminAlwaysFull(writes: seq<Write>, custom: seq<string>)
    ensures AdminFull(AllWritten(writes)) && AdminFull(Some(Loaded(AllWritten(writes), custom)))
  {
    hide Codes, Loaded, Saved, Merge;
    if writes != [] {
      var before, w := AllWritten(writes[..|writes| - 1]), writes[|writes| - 1];
      AdminAlwaysFull(writes[..|writes| - 1], w.custom);
      if w.SaveMatrix? && Saved(before, w.m, w.custom).Success? {
        SavedKeepsAdmin(before, w.m, w.custom);
      }
    }
    FullLoads(AllWritten(writes), custom);
  }

  lemma SavedKeepsAdmin(stored: Option<Matrix>, m: Matrix, custom: seq<string>)
    requires AdminFull(Some(Loaded(stored, custom))) && Saved(stored, m, custom).Success?
    ensures AdminFull(Some(Saved(stored, m, custom).value))
  {
    hide Codes, Loaded;
    SavedIff(stored, m, custom);
    SavedIsMerged(stored, m, custom);
    assert Merge(m, custom)[Admin] == MergedRow(Admin, RowOf(m, Admin));
  }

  /**
    `has_capability` in a given matrix: an unknown role counts as the ordinary user, an unknown code as not
    granted.
  */
  predicate HasCapability(role: Role, c: Code, m: Matrix) {
    var own := RowOf(m, role);
    Get(if own != map[] then own else RowOf(m, User), c, false)
  }

  /** Who may do what, after any sequence of saves from an empty store, for any role and any code. */
  lemma AccessLaw(writes: seq<Write>, custom: seq<string>, role: Role, c: Code)
    ensures var m := Loaded(AllWritten(writes), custom);
            && (HasCapability(Admin, c, m) <==> c in Codes())
            && (c in RequiredCodes() ==> HasCapability(role, c, m))
            && (c in AdminOnlyCodes() && !role.Admin? ==> !HasCapability(role, c, m))
            && (c !in Codes() ==> !HasCapability(role, c, m))
  {
    hide Codes, RequiredCodes, AdminOnlyCodes, Loaded, AllWritten, Value;
    var stored := AllWritten(writes);
    Lists(c);
    AdminAlwaysFull(writes, custom);
    LoadedRoles(stored, custom);
    LoadedKeys(stored, custom, Admin);
    LoadedKeys(stored, custom, User);
    Lists(Known(MenuReportNavigation));
    var known := if role in Roles(custom) then role else User;
    LoadedKeys(stored, custom, known);
    if c in Codes() {
      LoadedAt(stored, custom, known, c);
    }
  }

  // ----- what a role may do after a save, code by code

  /** The two built-in roles and the custom ones. */
  lemma RolesAre(custom: seq<string>, role: Role)
    ensures role in Roles(custom) <==> role == Admin || role == User || (role.Custom? && role.code in custom)
  {
  }

  /**
    What ordinary users are not given by default: administration, deletion, confirmation, and the editing of
    reports.
  */
  predicate Withheld(c: Capability) {
    || c.SysSettingsAdmin? || c.SysUsers? || c.SysRolePermissions? || c.SysDictionaries? || c.SysScheduledTasks?
    || c.HistoryDelete? || c.ReportNavigationEditSchedule? || c.ReportNavigationEditStats?
    || c.RspConfirm? || c.RspDelete? || c.SysDashboardManagement? || c.SysDashboardManagementManage?
    || c.SysDashboardManagementTestSql? || c.SysDashboardManagementExternalApiMonitor?
    || c.SysDashboardManagementExternalApiTokenManage? || c.SysDashboardManagementExternalApiIpWhitelistManage?
  }

  /**
    The value a row gives a code: its own; else that of the retired code it came from; else the default of
    the role.
  */
  predicate Granted(role: Role, row: Caps, c: Capability) {
    if Known(c) in row then row[Known(c)]
    else if (c.MenuHome? || c.MenuAutoCheck? || c.MenuHistory?) && OldMenuSmartReconcile in row
    then row[OldMenuSmartReconcile]
    else if (c.ReportNavigationEditSchedule? || c.ReportNavigationEditStats?) && OldReportNavigationAdmin in row
      then row[OldReportNavigationAdmin]
      else role == Admin || !Withheld(c)
  }

  lemma ValueIsGranted(role: Role, row: Caps, c: Capability)
    ensures Value(role, row, Known(c)) == Granted(role, row, c)
  {
  }

  /** After an accepted save, `has_capability` gives each role what the saved matrix says, or its default. */
  lemma AccessAsSaved(stored: Option<Matrix>, m: Matrix, custom: seq<string>, role: Role, c: Capability)
    requires Saved(stored, m, custom).Success? && role in Roles(custom)
    ensures HasCapability(role, Known(c), Loaded(Some(Saved(stored, m, custom).value), custom))
       <==> Granted(role, RowOf(m, role), c)
  {
    ValueIsGranted(role, RowOf(m, role), c);
    Lists(Known(c));
    SavedAt(stored, m, custom, role, Known(c));
    LoadedKeys(Some(Saved(stored, m, custom).value), custom, role);
    hide Loaded, Saved, Value, Granted, Codes, Roles;
  }

  /** Why a save is refused: the first of the three checks that fails. */
  lemma RefusalIs(stored: Option<Matrix>, m: Matrix, custom: seq<string>)
    ensures Admin in Loaded(stored, custom) && Loaded(stored, custom)[Admin].Keys == Codes()
    ensures var sameColumn := forall c <- Codes() :: Value(Admin, RowOf(m, Admin), c)
                                                     == Loaded(stored, custom)[Admin][c];
            var denied := exists role <- Roles(custom), c <- RequiredCodes() ::
                            role != Admin && !Get(RowOf(m, role), c, true);
            && (Saved(stored, m, custom) == Failure(AdminLocked) <==> !sameColumn)
            && (Saved(stored, m, custom) == Failure(RequiredDisabled) <==> sameColumn && denied)
  {
    AdminColumnAt(stored, m, custom);
    DeniedIff(m, custom);
    hide Loaded, Merge, AdminUnchanged, RequiredKept, AdminOnlyKept, Codes, RequiredCodes, Value, Roles, Get, RowOf;
  }

  lemma DeniedIff(m: Matrix, custom: seq<string>)
    ensures !RequiredKept(Merge(m, custom)) <==>
            exists role <- Roles(custom), c <- RequiredCodes() :: role != Admin && !Get(RowOf(m, role), c, true)
  {
    MergedRoles(m, custom);
    forall role, c | role in Roles(custom) && !role.Admin?
      ensures c in RequiredCodes() ==> Get(Merge(m, custom)[role], c, true) == Get(RowOf(m, role), c, true)
    {
      ChecksAt(m, custom, role, c);
    }
    hide Merge, RequiredCodes, Roles, Get, RowOf;
  }

  // ----- the store over writes

  lemma LastWrite(writes: seq<Write>, w: Write)
    ensures AllWritten(writes + [w]) == Written(AllWritten(writes), w)
  {
    assert (writes + [w])[..|writes|] == writes;
  }

  /** An accepted save is what is loaded next; a refused one, and one of remarks, change nothing that is loaded. */
  lemma WriteThenLoad(writes: seq<Write>, w: Write, custom: seq<string>)
    ensures w.SaveMatrix? && w.custom == custom && Saved(AllWritten(writes), w.m, custom).Success? ==>
              Loaded(AllWritten(writes + [w]), custom) == Saved(AllWritten(writes), w.m, custom).value
    ensures w.SaveMatrix? && Saved(AllWritten(writes), w.m, w.custom).Failure? ==>
              Loaded(AllWritten(writes + [w]), custom) == Loaded(AllWritten(writes), custom)
    ensures w.SaveRemarks? ==> Loaded(AllWritten(writes + [w]), custom) == Loaded(AllWritten(writes), custom)
    ensures w.SaveRemarks? ==>
              && AllWritten(writes + [w]).Some?
              && (if AllWritten(writes).Some? then AllWritten(writes + [w]) == AllWritten(writes)
                  else AllWritten(writes + [w]).value.Keys == Roles(w.custom))
  {
    LastWrite(writes, w);
    LoadedRoles(None, w.custom);
    var stored := AllWritten(writes);
    hide Loaded, Saved, AllWritten;
    if w.SaveMatrix? && w.custom == custom && Saved(stored, w.m, custom).Success? {
      LoadReturnsSaved(stored, w.m, custom);
    }
    if w.SaveRemarks? && stored.None? {
      DefaultsLoadAgain(w.custom, custom);
    }
  }

  /** The defaults of one set of roles, once stored, load as the defaults of another. */
  lemma DefaultsLoadAgain(first: seq<string>, custom: seq<string>)
    ensures Loaded(Some(Loaded(None, first)), custom) == Loaded(None, custom)
  {
    var a, b := Loaded(Some(Loaded(None, first)), custom), Loaded(None, custom);
    LoadedRoles(Some(Loaded(None, first)), custom);
    LoadedRoles(None, custom);
    LoadedRoles(None, first);
    hide Loaded, Codes, Roles, Value;
    forall role | role in Roles(custom) ensures a[role] == b[role] {
      LoadedKeys(Some(Loaded(None, first)), custom, role);
      LoadedKeys(None, custom, role);
      forall c | c in Codes() ensures a[role][c] == b[role][c] {
        DefaultLoadsAgain(first, custom, role, c);
      }
    }
  }

  lemma DefaultLoadsAgain(first: seq<string>, custom: seq<string>, role: Role, c: Code)
    requires role in Roles(custom) && c in Codes()
    ensures var a, b := Loaded(Some(Loaded(None, first)), custom), Loaded(None, custom);
            role in a && c in a[role] && role in b && c in b[role] && a[role][c] == b[role][c]
  {
    LoadedAt(Some(Loaded(None, first)), custom, role, c);
    LoadedAt(None, custom, role, c);
    LoadedRoles(None, first);
    if role in Roles(first) {
      LoadedAt(None, first, role, c);
      LoadedKeys(None, first, role);
    }
    hide Loaded, Codes, Roles, RequiredCodes, AdminOnlyCodes;
  }
}

/** The matrix as it is built and checked, dict by dict, and the one row that stores it. */
module CapabilityStore {
  import opened Wrappers
  import opened Capabilities

  // ----- migration of one row

  /** A row after one retired code has been carried over to the codes it stood for that have no value yet. */
  function Adopted(migrated: Caps, row: Caps, retired: Code, codes: seq<Code>): Caps {
    if retired in row then (map c | c in codes :: row[retired]) + migrated else migrated
  }

  function Migrated(row: Caps, table: seq<(Code, seq<Code>)>): Caps {
    if table == [] then row
    else
      var last := table[|table| - 1];
      Adopted(Migrated(row, table[..|table| - 1]), row, last.0, last.1)
  }

  /** After the migration of both retired codes, a row has the value `Value` names, or leaves it to the default. */
  lemma MigratedValue(role: Role, row: Caps, c: Code)
    requires Registered(c)
    ensures Get(Migrated(row, Legacy()), c, Default(role, c)) == Value(role, row, c)
  {
    hide Adopted;
    var home := [Known(MenuHome), Known(MenuAutoCheck), Known(MenuHistory)];
    var edit := [Known(ReportNavigationEditSchedule), Known(ReportNavigationEditStats)];
    MigratedTwice(row, OldMenuSmartReconcile, home, OldReportNavigationAdmin, edit);
    var first := Adopted(row, row, OldMenuSmartReconcile, home);
    AdoptedAt(row, row, OldMenuSmartReconcile, home, c);
    AdoptedAt(first, row, OldReportNavigationAdmin, edit, c);
    assert c in home <==> c.cap.MenuHome? || c.cap.MenuAutoCheck? || c.cap.MenuHistory?;
    assert c in edit <==> c.cap.ReportNavigationEditSchedule? || c.cap.ReportNavigationEditStats?;
  }

  lemma AdoptedAt(migrated: Caps, row: Caps, retired: Code, codes: seq<Code>, c: Code)
    ensures var after := Adopted(migrated, row, retired, codes);
            && (c in after <==> c in migrated || (retired in row && c in codes))
            && (c in after ==> after[c] == if c in migrated then migrated[c] else row[retired])
  {
  }

  lemma MigratedTwice(row: Caps, a: Code, aCodes: seq<Code>, b: Code, bCodes: seq<Code>)
    ensures Migrated(row, [(a, aCodes), (b, bCodes)]) == Adopted(Adopted(row, row, a, aCodes), row, b, bCodes)
  {
    hide Adopted;
    var both := [(a, aCodes), (b, bCodes)];
    assert both[..1] == [(a, aCodes)] && both[..1][..0] == [];
    assert Migrated(row, both[..1]) == Adopted(row, row, a, aCodes);
  }

  /** The inner loops of `merge_matrix` over the retired codes. */
  method MigrateRow(row: Caps, table: seq<(Code, seq<Code>)>) returns (migrated: Caps)
    ensures migrated == Migrated(row, table)
  {
    migrated := row;
    assert table[..0] == [];
    var i := 0;
    while i < |table|
      invariant 0 <= i <= |table| && migrated == Migrated(row, table[..i])
    {
      assert table[..i + 1][..i] == table[..i];
      var (retired, codes) := table[i];
      if retired in row {
        ghost var before := migrated;
        var j := 0;
        while j < |codes|
          invariant 0 <= j <= |codes|
          invariant migrated == (map c | c in codes[..j] :: row[retired]) + before
        {
          assert codes[..j + 1] == codes[..j] + [codes[j]];
          if codes[j] !in migrated {
            migrated := migrated[codes[j] := row[retired]];
          }
          j := j + 1;
        }
        assert codes[..j] == codes;
      }
      i := i + 1;
    }
    assert table[..i] == table;
  }

  /** One role's row of the merged matrix. */
  method MergeRow(role: Role, row: Caps) returns (merged: Caps)
    ensures merged == MergedRow(role, row)
  {
    hide Migrated, Value, Codes;
    var migrated := MigrateRow(row, Legacy());
    merged := map[];
    var rest := Codes();
    while rest != {}
      invariant rest <= Codes() && merged.Keys == Codes() - rest
      invariant forall c <- merged :: merged[c] == Value(role, row, c)
      decreases rest
    {
      var c :| c in rest;
      Lists(c);
      MigratedValue(role, row, c);
      merged := merged[c := if c in migrated then migrated[c] else Default(role, c)];
      rest := rest - {c};
    }
  }

  method MergeMatrix(stored: Matrix, custom: seq<string>) returns (merged: Matrix)
    ensures merged == Merge(stored, custom)
  {
    hide MergedRow;
    merged := map[];
    var rest := Roles(custom);
    while rest != {}
      invariant rest <= Roles(custom) && merged.Keys == Roles(custom) - rest
      invariant forall role <- merged :: merged[role] == MergedRow(role, RowOf(stored, role))
      decreases rest
    {
      var role :| role in rest;
      var row := MergeRow(role, RowOf(stored, role));
      merged := merged[role := row];
      rest := rest - {role};
    }
  }

  // ----- clean-up

  method Assign(row: Caps, codes: set<Code>, value: bool) returns (r: Caps)
    ensures r == Assigned(row, codes, value)
  {
    r := row;
    var rest := codes;
    while rest != {}
      invariant rest <= codes && r == Assigned(row, codes - rest, value)
      decreases rest
    {
      var c :| c in rest;
      r := r[c := value];
      rest := rest - {c};
    }
    assert codes - rest == codes;
  }

  method CleanAdminOnly(stored: Matrix) returns (m: Matrix)
    ensures m == SanitizeAdminOnly(stored)
  {
    hide AdminOnlyCodes, Assigned;
    m := stored;
    var rest := stored.Keys;
    while rest != {}
      invariant rest <= stored.Keys && m.Keys == stored.Keys
      invariant forall role <- stored :: m[role] == if role in rest
                                                    then stored[role]
                                                    else SanitizeAdminOnly(stored)[role]
      decreases rest
    {
      var role :| role in rest;
      if !role.Admin? {
        var row := Assign(m[role], AdminOnlyCodes(), false);
        m := m[role := row];
      }
      rest := rest - {role};
    }
  }

  method CleanRequired(stored: Matrix) returns (m: Matrix)
    ensures m == SanitizeRequired(stored)
  {
    hide RequiredCodes, Assigned;
    m := stored;
    var rest := stored.Keys;
    while rest != {}
      invariant rest <= stored.Keys && m.Keys == stored.Keys
      invariant forall role <- stored :: m[role] == if role in rest
                                                    then stored[role]
                                                    else SanitizeRequired(stored)[role]
      decreases rest
    {
      var role :| role in rest;
      var row := Assign(m[role], RequiredCodes(), true);
      m := m[role := row];
      rest := rest - {role};
    }
  }

  // ----- checks

  method CheckAdminColumn(previous: Matrix, incoming: Matrix) returns (ok: bool)
    ensures ok <==> AdminUnchanged(previous, incoming)
  {
    hide Codes, Get, RowOf;
    var before, after := RowOf(previous, Admin), RowOf(incoming, Admin);
    var rest := Codes();
    while rest != {}
      invariant rest <= Codes() && forall c <- Codes() - rest :: Get(before, c, false) == Get(after, c, false)
      decreases rest
    {
      var c :| c in rest;
      if Get(before, c, false) != Get(after, c, false) {
        return false;
      }
      rest := rest - {c};
    }
    return true;
  }

  /** Whether a role's row gives each of the codes the value, where it has the code at all. */
  method CheckRow(row: Caps, codes: set<Code>, value: bool) returns (ok: bool)
    ensures ok <==> forall c <- codes :: Get(row, c, value) == value
  {
    var rest := codes;
    while rest != {}
      invariant rest <= codes && forall c <- codes - rest :: Get(row, c, value) == value
      decreases rest
    {
      var c :| c in rest;
      if Get(row, c, value) != value {
        return false;
      }
      rest := rest - {c};
    }
    return true;
  }

  method CheckRequired(m: Matrix) returns (ok: bool)
    ensures ok <==> RequiredKept(m)
  {
    hide RequiredCodes, Get;
    var rest := m.Keys;
    while rest != {}
      invariant rest <= m.Keys
      invariant forall role <- m.Keys - rest :: role.Admin? || forall c <- RequiredCodes() :: Get(m[role], c, true)
      decreases rest
    {
      var role :| role in rest;
      if !role.Admin? {
        var kept := CheckRow(m[role], RequiredCodes(), true);
        if !kept {
          return false;
        }
      }
      rest := rest - {role};
    }
    return true;
  }

  method CheckAdminOnly(m: Matrix) returns (ok: bool)
    ensures ok <==> AdminOnlyKept(m)
  {
    hide AdminOnlyCodes, Get;
    var rest := m.Keys;
    while rest != {}
      invariant rest <= m.Keys
      invariant forall role <- m.Keys - rest :: role.Admin? || forall c <- AdminOnlyCodes() :: !Get(m[role], c, false)
      decreases rest
    {
      var role :| role in rest;
      if !role.Admin? {
        var kept := CheckRow(m[role], AdminOnlyCodes(), false);
        if !kept {
          return false;
        }
      }
      rest := rest - {role};
    }
    return true;
  }

  // ----- the stored row

  class RoleCapabilitySettings {
    var stored: Option<Matrix>

    constructor ()
      ensures stored == AllWritten([])
    {
      stored := None;
    }

    method LoadRoleCapabilityMatrix(custom: seq<string>) returns (m: Matrix)
      ensures m == Loaded(stored, custom)
    {
      hide Merge, SanitizeAdminOnly, SanitizeRequired;
      var cleaned := CleanAdminOnly(if stored.Some? then stored.value else map[]);
      cleaned := CleanRequired(cleaned);
      m := MergeMatrix(cleaned, custom);
    }

    method SaveRoleCapabilityMatrix(m: Matrix, custom: seq<string>) returns (r: Result<Matrix, Refusal>)
      modifies this
      ensures r == Saved(old(stored), m, custom)
      ensures stored == Written(old(stored), SaveMatrix(m, custom))
      ensures r.Success? ==> stored == Some(r.value) && Loaded(stored, custom) == r.value
    {
      hide Merge, Loaded, AdminUnchanged, RequiredKept, AdminOnlyKept;
      var previous := LoadRoleCapabilityMatrix(custom);
      var merged := MergeMatrix(m, custom);
      var ok := CheckAdminColumn(previous, merged);
      if !ok {
        return Failure(AdminLocked);
      }
      ok := CheckRequired(merged);
      if !ok {
        return Failure(RequiredDisabled);
      }
      ok := CheckAdminOnly(merged);
      if !ok {
        return Failure(AdminOnlyGranted);
      }
      LoadReturnsSaved(stored, m, custom);
      stored := Some(merged);
      return Success(merged);
    }

    /** What `save_role_remarks` does to the matrix. */
    method SaveRoleRemarks(custom: seq<string>)
      modifies this
      ensures stored == Written(old(stored), SaveRemarks(custom))
    {
      if stored.None? {
        var m := LoadRoleCapabilityMatrix(custom);
        stored := Some(m);
      }
    }
  }
}

/**
  Attaching contract start dates to asset rows: by a join with the greatest start of each
  contract when both tables are in one database, by a second query and a lookup otherwise.
*/
module ContractJoin {
  import opened Wrappers

  /** Rows of `am_project_invest` and `am_pact_asset`; None stands for NULL. */
  datatype Invest = Invest(project: Option<string>, date: string, pact: Option<string>, start: Option<int>)

  datatype Pact = Pact(project: Option<string>, date: string, asset: Option<string>, stock: Option<string>,
                       pact: Option<string>,
                       spv: Option<string>, kind: Option<string>, source: Option<string>)

  /** A row of the grouped query. */
  datatype Group = Group(project: Option<string>, pact: Option<string>, start: Option<int>)

  datatype Asset = Asset(project: string, asset: string, stock: string, pact: string, spv: string, kind: string,
                         start: Option<int>, source: string)

  /** `str(value)` */
  function Str(t: Option<string>): string { if t.None? then "None" else t.value }

  /** `str(value or "")` */
  function OrEmpty(t: Option<string>): string { if t.None? then "" else t.value }

  function Later(a: Option<int>, b: Option<int>): Option<int> {
    if a.None? then b else if b.None? || a.value >= b.value then a else b
  }

  // ----- the grouped query

  predicate Same(g: Group, project: Option<string>, pact: Option<string>) { g.project == project && g.pact == pact }

  function Find(groups: seq<Group>, project: Option<string>, pact: Option<string>): (i: nat)
    ensures i <= |groups| && (i < |groups| ==> Same(groups[i], project, pact))
    ensures forall j :: 0 <= j < i ==> !Same(groups[j], project, pact)
  {
    if groups == [] || Same(groups[0], project, pact) then 0 else 1 + Find(groups[1..], project, pact)
  }

  /** `GROUP BY project, pact` with `MAX(start)`, of the rows of one date. */
  function Groups(invests: seq<Invest>, date: string): seq<Group> {
    if invests == [] then []
    else
      var groups, row := Groups(invests[..|invests| - 1], date), invests[|invests| - 1];
      if row.date != date then groups
      else
        var i := Find(groups, row.project, row.pact);
        if i == |groups| then groups + [Group(row.project, row.pact, row.start)]
        else groups[i := groups[i].(start := Later(groups[i].start, row.start))]
  }

  predicate Distinct(groups: seq<Group>) {
    forall i, j :: 0 <= i < j < |groups| ==> !Same(groups[j], groups[i].project, groups[i].pact)
  }

  lemma {:induction false} GroupsAreDistinct(invests: seq<Invest>, date: string)
    ensures Distinct(Groups(invests, date))
  {
    if invests != [] {
      GroupsAreDistinct(invests[..|invests| - 1], date);
    }
  }

  /** The greatest start among a date's rows of one contract, by the definition of a maximum. */
  ghost predicate Greatest(invests: seq<Invest>, date: string, project: Option<string>, pact: Option<string>,
                           start: Option<int>) {
    && (forall r <- invests :: r.date == date && r.project == project && r.pact == pact && r.start.Some? ==>
                                 start.Some? && r.start.value <= start.value)
    && (start.Some? ==> Invest(project, date, pact, start) in invests)
  }

  function StartOf(groups: seq<Group>, project: Option<string>, pact: Option<string>): Option<int> {
    var i := Find(groups, project, pact);
    if i < |groups| then groups[i].start else None
  }

  lemma GreatestGrows(front: seq<Invest>, row: Invest, date: string, project: Option<string>, pact: Option<string>,
                      start: Option<int>)
    requires Greatest(front, date, project, pact, start)
    ensures var mine := row.date == date && row.project == project && row.pact == pact;
            Greatest(front + [row], date, project, pact, if mine then Later(start, row.start) else start)
  {
    forall r <- front + [row] ensures r in front || r == row {}
  }

  lemma {:induction false} GroupHasGreatest(invests: seq<Invest>, date: string, project: Option<string>,
                                            pact: Option<string>)
    ensures Greatest(invests, date, project, pact, StartOf(Groups(invests, date), project, pact))
  {
    if invests != [] {
      var front, row := invests[..|invests| - 1], invests[|invests| - 1];
      assert invests == front + [row];
      GroupHasGreatest(front, date, project, pact);
      GroupsAreDistinct(front, date);
      GrownStart(Groups(front, date), row, project, pact);
      GreatestGrows(front, row, date, project, pact, StartOf(Groups(front, date), project, pact));
      hide Greatest, StartOf, Distinct, Later;
    }
  }

  /** How one more row of the date changes a contract's start. */
  lemma GrownStart(groups: seq<Group>, row: Invest, project: Option<string>, pact: Option<string>)
    requires Distinct(groups)
    ensures var i := Find(groups, row.project, row.pact);
            var after := if i == |groups| then groups + [Group(row.project, row.pact, row.start)]
                         else groups[i := groups[i].(start := Later(groups[i].start, row.start))];
            StartOf(after, project, pact) ==
            if row.project == project && row.pact == pact then Later(StartOf(groups, project, pact), row.start)
            else StartOf(groups, project, pact)
  {
    var i := Find(groups, row.project, row.pact);
    var after := if i == |groups| then groups + [Group(row.project, row.pact, row.start)]
    else groups[i := groups[i].(start := Later(groups[i].start, row.start))];
    var k, n := Find(groups, project, pact), Find(after, project, pact);
    assert forall j :: 0 <= j < |groups| ==> (Same(after[j], project, pact) <==> Same(groups[j], project, pact));
    if k < |groups| {
      assert Same(after[k], project, pact);
      assert n == k;
    } else {
      assert n >= |groups|;
      if i == |groups| {
        assert Same(after[i], project, pact) <==> row.project == project && row.pact == pact;
      }
    }
  }

  // ----- the join

  /** `ON` compares with `=`: NULL matches nothing. */
  predicate On(p: Pact, g: Group) { p.project.Some? && p.pact.Some? && Same(g, p.project, p.pact) }

  function Matches(p: Pact, groups: seq<Group>): seq<Group> {
    if groups == [] then []
    else if On(p, groups[0]) then [groups[0]] + Matches(p, groups[1..])
    else Matches(p, groups[1..])
  }

  function Starts(groups: seq<Group>): (s: seq<Option<int>>)
    ensures |s| == |groups| && forall i :: 0 <= i < |s| ==> s[i] == groups[i].start
  {
    seq(|groups|, i requires 0 <= i < |groups| => groups[i].start)
  }

  /** The `LEFT JOIN`: what one asset row becomes, a row for every match, or one without a start. */
  function Joined(p: Pact, groups: seq<Group>): seq<Option<int>> {
    if Matches(p, groups) == [] then [None] else Starts(Matches(p, groups))
  }

  lemma {:induction false} NoMatch(p: Pact, groups: seq<Group>)
    requires forall i :: 0 <= i < |groups| ==> !On(p, groups[i])
    ensures Matches(p, groups) == []
  {
    if groups != [] {
      NoMatch(p, groups[1..]);
    }
  }

  lemma {:induction false} MatchesAre(p: Pact, groups: seq<Group>)
    requires Distinct(groups)
    ensures var i := Find(groups, p.project, p.pact);
            Matches(p, groups) == if p.project.Some? && p.pact.Some? && i < |groups| then [groups[i]] else []
  {
    if groups != [] {
      var rest := groups[1..];
      assert forall i, j :: 0 <= i < j < |rest| ==> rest[i] == groups[i + 1] && rest[j] == groups[j + 1];
      if On(p, groups[0]) {
        forall i | 0 <= i < |rest| ensures !On(p, rest[i]) {
          assert !Same(groups[i + 1], groups[0].project, groups[0].pact);
        }
        NoMatch(p, rest);
      } else {
        MatchesAre(p, rest);
      }
    }
  }

  /** The join neither drops nor doubles an asset row, and gives it the greatest start of its own contract. */
  lemma JoinedOnce(p: Pact, invests: seq<Invest>, date: string)
    ensures |Joined(p, Groups(invests, date))| == 1
    ensures p.project.Some? && p.pact.Some? ==>
              Greatest(invests, date, p.project, p.pact, Joined(p, Groups(invests, date))[0])
    ensures p.project.None? || p.pact.None? ==> Joined(p, Groups(invests, date))[0] == None
  {
    GroupsAreDistinct(invests, date);
    MatchesAre(p, Groups(invests, date));
    GroupHasGreatest(invests, date, p.project, p.pact);
  }

  // ----- the lookup

  /** The dict of `_project_invest_contract_starts_by_date`: later rows of the result overwrite earlier ones. */
  function Lookup(groups: seq<Group>): map<(string, string), int> {
    if groups == [] then map[]
    else
      var dict, g := Lookup(groups[..|groups| - 1]), groups[|groups| - 1];
      if g.start.None? then dict else dict[(Str(g.project), OrEmpty(g.pact)) := g.start.value]
  }

  function Found(dict: map<(string, string), int>, p: Pact): Option<int> {
    var key := (Str(p.project), OrEmpty(p.pact));
    if key in dict then Some(dict[key]) else None
  }

  predicate SameText(g: Group, p: Pact) { Str(g.project) == Str(p.project) && OrEmpty(g.pact) == OrEmpty(p.pact) }

  /** When a row's texts are those of no other contract, the lookup finds that contract's start. */
  lemma {:induction false} FoundIs(groups: seq<Group>, p: Pact)
    requires Distinct(groups)
    requires forall i :: 0 <= i < |groups| && SameText(groups[i], p) ==> Same(groups[i], p.project, p.pact)
    ensures Found(Lookup(groups), p) == StartOf(groups, p.project, p.pact)
  {
    if groups != [] {
      var front, g := groups[..|groups| - 1], groups[|groups| - 1];
      assert forall i :: 0 <= i < |front| ==> front[i] == groups[i];
      FoundIs(front, p);
      var k, n := Find(front, p.project, p.pact), Find(groups, p.project, p.pact);
      if k < |front| {
        assert Same(groups[k], p.project, p.pact);
        assert n == k && !Same(g, groups[k].project, groups[k].pact);
      } else {
        assert n >= |front|;
      }
    }
  }

  // ----- the two paths

  function AssetOf(p: Pact, start: Option<int>): Asset {
    Asset(Str(p.project), OrEmpty(p.asset), OrEmpty(p.stock), OrEmpty(p.pact), OrEmpty(p.spv), OrEmpty(p.kind), start,
          OrEmpty(p.source))
  }

  function AssetsOf(p: Pact, starts: seq<Option<int>>): seq<Asset> {
    if starts == [] then [] else AssetsOf(p, starts[..|starts| - 1]) + [AssetOf(p, starts[|starts| - 1])]
  }

  /** The rows built when both tables are in one database. */
  function JoinPath(pacts: seq<Pact>, groups: seq<Group>, date: string): seq<Asset> {
    if pacts == [] then []
    else
      var before, p := JoinPath(pacts[..|pacts| - 1], groups, date), pacts[|pacts| - 1];
      if p.date == date then before + AssetsOf(p, Joined(p, groups)) else before
  }

  /** The rows built when they are not. */
  function LookupPath(pacts: seq<Pact>, dict: map<(string, string), int>, date: string): seq<Asset> {
    if pacts == [] then []
    else
      var before, p := LookupPath(pacts[..|pacts| - 1], dict, date), pacts[|pacts| - 1];
      if p.date == date then before + [AssetOf(p, Found(dict, p))] else before
  }

  /** A NULL project reads as the text None, any other NULL as an empty text. */
  predicate ReadsAs(column: Option<string>, text: string, blank: string) {
    match column
    case Some(t) => text == t
    case None => text == blank
  }

  /** The asset row shows the columns of the table's row, each in its own field. */
  predicate ShowsRow(p: Pact, a: Asset) {
    && ReadsAs(p.project, a.project, "None") && ReadsAs(p.asset, a.asset, "") && ReadsAs(p.stock, a.stock, "")
    && ReadsAs(p.pact, a.pact, "") && ReadsAs(p.spv, a.spv, "") && ReadsAs(p.kind, a.kind, "")
    && ReadsAs(p.source, a.source, "")
  }

  /** The table's rows of one date, in order. */
  function OfDate(pacts: seq<Pact>, date: string): seq<Pact> {
    if pacts == [] then []
    else OfDate(pacts[..|pacts| - 1], date) + if pacts[|pacts| - 1].date == date then [pacts[|pacts| - 1]] else []
  }

  lemma {:induction false} OfDateAre(pacts: seq<Pact>, date: string, p: Pact)
    ensures p in OfDate(pacts, date) <==> p in pacts && p.date == date
  {
    if pacts != [] {
      OfDateAre(pacts[..|pacts| - 1], date, p);
      assert pacts == pacts[..|pacts| - 1] + [pacts[|pacts| - 1]];
    }
  }

  /** What the join makes of a row: its columns, and the greatest start of its contract. */
  ghost predicate JoinedAs(p: Pact, a: Asset, invests: seq<Invest>, date: string) {
    && ShowsRow(p, a)
    && (if p.project.Some? && p.pact.Some?
        then Greatest(invests, date, p.project, p.pact, a.start)
        else a.start == None)
  }

  lemma OneJoined(p: Pact, invests: seq<Invest>, date: string)
    ensures var assets := AssetsOf(p, Joined(p, Groups(invests, date)));
            |assets| == 1 && JoinedAs(p, assets[0], invests, date)
  {
    var starts := Joined(p, Groups(invests, date));
    JoinedOnce(p, invests, date);
    assert starts == [starts[0]];
    OneAsset(p, starts[0]);
    hide Joined, Groups, Greatest;
  }

  /** The join makes one asset row of each of the date's rows, in order. */
  lemma {:induction false} JoinPathIs(pacts: seq<Pact>, invests: seq<Invest>, date: string)
    ensures var rows, path := OfDate(pacts, date), JoinPath(pacts, Groups(invests, date), date);
            |path| == |rows| && forall i :: 0 <= i < |rows| ==> JoinedAs(rows[i], path[i], invests, date)
  {
    hide JoinedAs, AssetsOf, Joined, Groups;
    if pacts != [] {
      JoinPathIs(pacts[..|pacts| - 1], invests, date);
      OneJoined(pacts[|pacts| - 1], invests, date);
    }
  }

  /**
    So does the lookup; its starts are those of the rows' own contracts when the row is clean, or no key is
    missing.
  */
  lemma {:induction false} LookupPathIs(pacts: seq<Pact>, invests: seq<Invest>, date: string)
    ensures var rows, path := OfDate(pacts, date), LookupPath(pacts, Lookup(Groups(invests, date)), date);
            && |path| == |rows|
            && forall i :: 0 <= i < |rows| ==>
                             && ShowsRow(rows[i], path[i])
                             && (Clean(rows[i]) || (KeyPresent(rows[i]) && KeysPresent(invests, date)) ==>
                                   Greatest(invests, date, rows[i].project, rows[i].pact, path[i].start))
  {
    if pacts != [] {
      var front, p := pacts[..|pacts| - 1], pacts[|pacts| - 1];
      LookupPathIs(front, invests, date);
      if Clean(p) || (KeyPresent(p) && KeysPresent(invests, date)) {
        RowAgrees(p, invests, date);
        JoinedOnce(p, invests, date);
      }
      hide Greatest, Joined, Groups, Lookup, Found, KeysPresent;
    }
  }

  predicate KeyPresent(p: Pact) { p.project.Some? && p.pact.Some? }

  predicate KeysPresent(invests: seq<Invest>, date: string) {
    forall r <- invests :: r.date == date ==> r.project.Some? && r.pact.Some?
  }

  /** The keys of a row, and not the texts that NULL is read as. */
  predicate Clean(p: Pact) { KeyPresent(p) && p.project.value != "None" && p.pact.value != "" }

  lemma {:induction false} GroupsComeFromRows(invests: seq<Invest>, date: string)
    requires KeysPresent(invests, date)
    ensures forall i :: 0 <= i < |Groups(invests, date)|
                        ==> Groups(invests, date)[i].project.Some? && Groups(invests, date)[i].pact.Some?
  {
    if invests != [] {
      var front := invests[..|invests| - 1];
      assert invests == front + [invests[|invests| - 1]];
      GroupsComeFromRows(front, date);
    }
  }

  predicate Agrees(p: Pact, invests: seq<Invest>, date: string) {
    Joined(p, Groups(invests, date)) == [Found(Lookup(Groups(invests, date)), p)]
  }

  /** One row agrees when its key is there and either it is clean or no investment row of the date lacks a key. */
  lemma RowAgrees(p: Pact, invests: seq<Invest>, date: string)
    requires KeyPresent(p) && (Clean(p) || KeysPresent(invests, date))
    ensures Agrees(p, invests, date)
  {
    var groups := Groups(invests, date);
    GroupsAreDistinct(invests, date);
    MatchesAre(p, groups);
    if KeysPresent(invests, date) {
      GroupsComeFromRows(invests, date);
    }
    FoundIs(groups, p);
  }

  lemma OneRow(r: Invest)
    ensures Groups([r], r.date) == [Group(r.project, r.pact, r.start)]
    ensures r.start.Some? ==> Lookup(Groups([r], r.date)) == map[(Str(r.project), OrEmpty(r.pact)) := r.start.value]
  {
    assert [r][..0] == [];
    assert Groups([], r.date) == [];
    var groups := Groups([r], r.date);
    assert groups[..0] == [];
    assert Lookup([]) == map[];
  }

  /** A row that is not clean disagrees beside a single investment row whose missing key reads as its own. */
  lemma DirtyDisagrees(p: Pact, date: string) returns (r: Invest)
    requires !Clean(p)
    ensures !Agrees(p, [r], date)
  {
    var project := if p.project == Some("None") then None else p.project;
    var pact := if p.pact == Some("") || (p.project.Some? && p.project.value != "None") then None else p.pact;
    r := Invest(project, date, pact, Some(1));
    OneRow(r);
    hide Groups, Lookup;
    var g := Group(project, pact, Some(1));
    assert !On(p, g);
    assert Matches(p, [g]) == [] by { NoMatch(p, [g]); }
    assert SameText(g, p);
    assert Found(Lookup([g]), p) == Some(1);
  }

  /** Over every content of the other table, the two ways agree on an asset row exactly when the row is clean. */
  lemma AlwaysAgreesIff(p: Pact, date: string)
    ensures (forall invests :: Agrees(p, invests, date)) <==> Clean(p)
  {
    assert Clean(p) ==> KeyPresent(p);
    hide Agrees, Clean;
    if Clean(p) {
      forall invests ensures Agrees(p, invests, date) {
        RowAgrees(p, invests, date);
      }
    } else {
      var r := DirtyDisagrees(p, date);
    }
  }

  /** On rows with keys, the two paths build the same asset rows, in the same number and order. */
  lemma {:induction false} PathsAgree(pacts: seq<Pact>, invests: seq<Invest>, date: string)
    requires KeysPresent(invests, date) || forall p <- pacts :: p.date == date ==> Clean(p)
    requires forall p <- pacts :: p.date == date ==> KeyPresent(p)
    ensures JoinPath(pacts, Groups(invests, date), date) == LookupPath(pacts, Lookup(Groups(invests, date)), date)
  {
    if pacts != [] {
      var front, p := pacts[..|pacts| - 1], pacts[|pacts| - 1];
      assert pacts == front + [p];
      PathsAgree(front, invests, date);
      if p.date == date {
        RowAgrees(p, invests, date);
        var start := Found(Lookup(Groups(invests, date)), p);
        OneAsset(p, start);
      }
    }
  }

  lemma OneAsset(p: Pact, start: Option<int>)
    ensures AssetsOf(p, [start]) == [AssetOf(p, start)]
  {
    assert [start][..0] == [];
    assert AssetsOf(p, []) == [];
  }
}

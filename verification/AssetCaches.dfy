/**
  Asset rows grouped by project and asset, regrouped by project, and kept per date over a
  fixed database. The groups are dicts of lists whose keys stay in the order they came; both
  groupings keep every row, and a cached answer equals its recomputation, whichever of the
  two contract-start paths filled the cache and however often it is asked for again.
 */
module AssetCaches {
  import opened ContractJoin

  type Key = (string, string)

  /** A dict of lists with its keys in the order they came. */
  datatype Grouped = Grouped(keys: seq<Key>, lists: map<Key, seq<Asset>>)

  function KeyOf(a: Asset): Key { (a.project, a.asset) }

  function ListAt<K>(lists: map<K, seq<Asset>>, k: K): seq<Asset> {
    if k in lists then lists[k] else []
  }

  function Append(g: Grouped, a: Asset): Grouped {
    Grouped(if KeyOf(a) in g.lists then g.keys else g.keys + [KeyOf(a)],
            g.lists[KeyOf(a) := ListAt(g.lists, KeyOf(a)) + [a]])
  }

  /** Grouping by project and asset name, in the order of the rows. */
  function ByName(rows: seq<Asset>): Grouped {
    if rows == [] then Grouped([], map[]) else Append(ByName(rows[..|rows| - 1]), rows[|rows| - 1])
  }

  /** The lists one after the other. */
  function Flat(g: Grouped, keys: seq<Key>): seq<Asset> {
    if keys == [] then [] else Flat(g, keys[..|keys| - 1]) + ListAt(g.lists, keys[|keys| - 1])
  }

  function AppendTo(projects: map<string, seq<Asset>>, assets: seq<Asset>): map<string, seq<Asset>> {
    if assets == [] then projects
    else
      var before, a := AppendTo(projects, assets[..|assets| - 1]), assets[|assets| - 1];
      before[a.project := ListAt(before, a.project) + [a]]
  }

  /** Regrouping by project, list by list. */
  function ByProject(g: Grouped, keys: seq<Key>): map<string, seq<Asset>> {
    if keys == [] then map[] else AppendTo(ByProject(g, keys[..|keys| - 1]), ListAt(g.lists, keys[|keys| - 1]))
  }

  // ----- what grouping keeps

  function Named(rows: seq<Asset>, k: Key): seq<Asset> {
    if rows == [] then []
    else Named(rows[..|rows| - 1], k) + if KeyOf(rows[|rows| - 1]) == k then [rows[|rows| - 1]] else []
  }

  lemma {:induction false} NamedAre(rows: seq<Asset>, k: Key, a: Asset)
    ensures a in Named(rows, k) <==> a in rows && a.project == k.0 && a.asset == k.1
  {
    if rows != [] {
      var n := |rows| - 1;
      NamedAre(rows[..n], k, a);
      assert rows == rows[..n] + [rows[n]];
    }
  }

  function OfProject(rows: seq<Asset>, project: string): seq<Asset> {
    if rows == [] then []
    else OfProject(rows[..|rows| - 1], project) + if rows[|rows| - 1].project == project then [rows[|rows| - 1]] else []
  }

  /** A name's list is its rows, in order; each key stands once. */
  lemma {:induction false} ListsAreRows(rows: seq<Asset>, k: Key)
    ensures ListAt(ByName(rows).lists, k) == Named(rows, k)
    ensures k in ByName(rows).lists <==> k in ByName(rows).keys
    ensures forall i, j :: 0 <= i < j < |ByName(rows).keys| ==> ByName(rows).keys[i] != ByName(rows).keys[j]
  {
    if rows != [] {
      var front, a := rows[..|rows| - 1], rows[|rows| - 1];
      ListsAreRows(front, k);
      ListsAreRows(front, KeyOf(a));
    }
  }

  lemma AppendedLists(g: Grouped, a: Asset, k: Key)
    ensures ListAt(Append(g, a).lists, k) == ListAt(g.lists, k) + if k == KeyOf(a) then [a] else []
  {
  }

  lemma {:induction false} FlatSkips(g: Grouped, a: Asset, keys: seq<Key>)
    requires KeyOf(a) !in keys
    ensures Flat(Append(g, a), keys) == Flat(g, keys)
  {
    hide Append, ListAt;
    if keys != [] {
      var n := |keys| - 1;
      assert keys == keys[..n] + [keys[n]];
      AppendedLists(g, a, keys[n]);
      FlatSkips(g, a, keys[..n]);
    }
  }

  lemma {:induction false} FlatGrows(g: Grouped, a: Asset, keys: seq<Key>)
    requires KeyOf(a) in keys && forall i, j :: 0 <= i < j < |keys| ==> keys[i] != keys[j]
    ensures multiset(Flat(Append(g, a), keys)) == multiset(Flat(g, keys)) + multiset{a}
  {
    hide Append, ListAt, KeyOf;
    var n := |keys| - 1;
    var front := keys[..n];
    assert keys == front + [keys[n]];
    AppendedLists(g, a, keys[n]);
    if keys[n] == KeyOf(a) {
      FlatSkips(g, a, front);
    } else {
      FlatGrows(g, a, front);
    }
  }

  /** Laid end to end, the lists hold every row as often as it came. */
  lemma {:induction false} FlatKeepsRows(rows: seq<Asset>)
    ensures multiset(Flat(ByName(rows), ByName(rows).keys)) == multiset(rows)
  {
    if rows != [] {
      var front, a := rows[..|rows| - 1], rows[|rows| - 1];
      var g, after := ByName(front), ByName(rows);
      assert rows == front + [a];
      FlatKeepsRows(front);
      ListsAreRows(front, KeyOf(a));
      if KeyOf(a) in g.lists {
        FlatGrows(g, a, g.keys);
      } else {
        FlatSkips(g, a, g.keys);
        assert after.keys[..|after.keys| - 1] == g.keys;
      }
    }
  }

  lemma {:induction false} OfProjectConcat(a: seq<Asset>, b: seq<Asset>, project: string)
    ensures OfProject(a + b, project) == OfProject(a, project) + OfProject(b, project)
  {
    if b == [] {
      assert a + b == a;
    } else {
      assert (a + b)[..|a + b| - 1] == a + b[..|b| - 1];
      OfProjectConcat(a, b[..|b| - 1], project);
    }
  }

  lemma {:induction false} AppendToAt(projects: map<string, seq<Asset>>, assets: seq<Asset>, project: string)
    ensures ListAt(AppendTo(projects, assets), project) == ListAt(projects, project) + OfProject(assets, project)
  {
    if assets != [] {
      AppendToAt(projects, assets[..|assets| - 1], project);
    }
  }

  lemma {:induction false} ByProjectAt(g: Grouped, keys: seq<Key>, project: string)
    ensures ListAt(ByProject(g, keys), project) == OfProject(Flat(g, keys), project)
  {
    if keys != [] {
      var n := |keys| - 1;
      ByProjectAt(g, keys[..n], project);
      AppendToAt(ByProject(g, keys[..n]), ListAt(g.lists, keys[n]), project);
      OfProjectConcat(Flat(g, keys[..n]), ListAt(g.lists, keys[n]), project);
    }
  }

  lemma {:induction false} OfProjectCounts(rows: seq<Asset>, project: string, a: Asset)
    ensures multiset(OfProject(rows, project))[a] == if a.project == project then multiset(rows)[a] else 0
  {
    if rows != [] {
      var n := |rows| - 1;
      assert rows == rows[..n] + [rows[n]];
      OfProjectCounts(rows[..n], project, a);
    }
  }

  /** Regrouped by project, every project has exactly its rows, each as often as it came. */
  lemma RegroupingKeepsRows(rows: seq<Asset>, project: string)
    ensures multiset(ListAt(ByProject(ByName(rows), ByName(rows).keys), project)) == multiset(OfProject(rows, project))
  {
    var g := ByName(rows);
    var flat := Flat(g, g.keys);
    ByProjectAt(g, g.keys, project);
    FlatKeepsRows(rows);
    forall a: Asset | true ensures multiset(OfProject(flat, project))[a] == multiset(OfProject(rows, project))[a] {
      OfProjectCounts(flat, project, a);
      OfProjectCounts(rows, project, a);
    }
  }

  // ----- the caches

  class AssetRepository {
    const pacts: seq<Pact>
    const invests: seq<Invest>
    /** Whether both tables are in one database. */
    const joinable: bool
    var startCache: map<string, map<(string, string), int>>
    var nameCache: map<string, Grouped>
    var projectCache: map<string, map<string, seq<Asset>>>

    constructor (pacts: seq<Pact>, invests: seq<Invest>, joinable: bool)
      ensures this.pacts == pacts && this.invests == invests && this.joinable == joinable && Valid()
    {
      this.pacts, this.invests, this.joinable := pacts, invests, joinable;
      startCache, nameCache, projectCache := map[], map[], map[];
    }

    /** The asset rows of a date, computed anew. */
    ghost function Rows(date: string): seq<Asset> {
      if joinable
      then JoinPath(pacts, Groups(invests, date), date)
      else LookupPath(pacts, Lookup(Groups(invests, date)), date)
    }

    /** Every cached entry equals its recomputation. */
    ghost predicate Valid()
      reads this
    {
      && (forall d <- startCache :: startCache[d] == Lookup(Groups(invests, d)))
      && (forall d <- nameCache :: nameCache[d] == ByName(Rows(d)))
      && (forall d <- projectCache :: projectCache[d] == ByProject(ByName(Rows(d)), ByName(Rows(d)).keys))
    }

    method ContractStartsByDate(date: string) returns (dict: map<(string, string), int>)
      requires Valid()
      modifies this`startCache
      ensures Valid() && dict == Lookup(Groups(invests, date))
    {
      if date in startCache {
        return startCache[date];
      }
      var groups := Groups(invests, date);
      dict := map[];
      var i := 0;
      assert groups[..0] == [];
      while i < |groups|
        invariant 0 <= i <= |groups| && dict == Lookup(groups[..i])
      {
        assert groups[..i + 1][..i] == groups[..i];
        if groups[i].start.Some? {
          dict := dict[(Str(groups[i].project), OrEmpty(groups[i].pact)) := groups[i].start.value];
        }
        i := i + 1;
      }
      assert groups[..i] == groups;
      startCache := startCache[date := dict];
    }

    method PactAssetsByDate(date: string) returns (g: Grouped)
      requires Valid()
      modifies this`startCache, this`nameCache
      ensures Valid() && g == ByName(Rows(date)) && date in nameCache
    {
      assert Rows(date) == if joinable then JoinPath(pacts, Groups(invests, date), date)
                           else LookupPath(pacts, Lookup(Groups(invests, date)), date);
      hide Rows, Groups, JoinPath, LookupPath, Lookup;
      if date in nameCache {
        return nameCache[date];
      }
      var rows;
      if joinable {
        rows := JoinPath(pacts, Groups(invests, date), date);
      } else {
        var dict := ContractStartsByDate(date);
        rows := LookupPath(pacts, dict, date);
      }
      g := GroupByName(rows);
      nameCache := nameCache[date := g];
    }

    static method GroupByName(rows: seq<Asset>) returns (g: Grouped)
      ensures g == ByName(rows)
    {
      g := Grouped([], map[]);
      assert rows[..0] == [];
      var i := 0;
      while i < |rows|
        invariant 0 <= i <= |rows| && g == ByName(rows[..i])
      {
        assert rows[..i + 1][..i] == rows[..i];
        var k := KeyOf(rows[i]);
        if k !in g.lists {
          g := Grouped(g.keys + [k], g.lists[k := []]);
        }
        g := g.(lists := g.lists[k := g.lists[k] + [rows[i]]]);
        i := i + 1;
      }
      assert rows[..i] == rows;
    }

    /** The asset rows of a date are the table's rows of that date, in order, column by column. */
    lemma RowsShow(date: string)
      ensures |Rows(date)| == |OfDate(pacts, date)|
      ensures forall i :: 0 <= i < |Rows(date)| ==> ShowsRow(OfDate(pacts, date)[i], Rows(date)[i])
    {
      JoinPathIs(pacts, invests, date);
      LookupPathIs(pacts, invests, date);
      hide JoinPath, LookupPath, OfDate, Lookup, Groups;
    }

    lemma NamedShow(project: string, date: string, asset: string)
      ensures forall a <- Named(Rows(date), (project, asset)) ::
                a.project == project && a.asset == asset && exists p <- pacts :: p.date == date && ShowsRow(p, a)
      ensures forall p <- pacts ::
                p.date == date && ReadsAs(p.project, project, "None") && ReadsAs(p.asset, asset, "") ==>
                  exists a <- Named(Rows(date), (project, asset)) :: ShowsRow(p, a)
    {
      RowsShow(date);
      hide Rows;
      var rows, table := Rows(date), OfDate(pacts, date);
      forall a | a in Named(rows, (project, asset))
        ensures a.project == project && a.asset == asset && exists p <- pacts :: p.date == date && ShowsRow(p, a)
      {
        NamedAre(rows, (project, asset), a);
        var i :| 0 <= i < |rows| && rows[i] == a;
        OfDateAre(pacts, date, table[i]);
        assert table[i] in table;
      }
      forall p | p in pacts && p.date == date && ReadsAs(p.project, project, "None") && ReadsAs(p.asset, asset, "")
        ensures exists a <- Named(rows, (project, asset)) :: ShowsRow(p, a)
      {
        OfDateAre(pacts, date, p);
        var i :| 0 <= i < |table| && table[i] == p;
        NamedAre(rows, (project, asset), rows[i]);
        assert rows[i] in rows;
      }
    }

    method ListPactAssets(project: string, date: string, asset: string) returns (rows: seq<Asset>)
      requires Valid()
      modifies this`startCache, this`nameCache
      ensures Valid() && rows == Named(Rows(date), (project, asset))
      // the rows of that name in the table, column by column
      ensures forall a <- rows ::
                a.project == project && a.asset == asset && exists p <- pacts :: p.date == date && ShowsRow(p, a)
      ensures forall p <- pacts ::
                p.date == date && ReadsAs(p.project, project, "None") && ReadsAs(p.asset, asset, "") ==>
                  exists a <- rows :: ShowsRow(p, a)
    {
      NamedShow(project, date, asset);
      hide Rows, ShowsRow, ReadsAs, Named;
      var g := PactAssetsByDate(date);
      ListsAreRows(Rows(date), (project, asset));
      return ListAt(g.lists, (project, asset));
    }

    static method GroupByProject(g: Grouped) returns (projects: map<string, seq<Asset>>)
      ensures projects == ByProject(g, g.keys)
    {
      hide AppendTo;
      projects := map[];
      assert g.keys[..0] == [];
      var i := 0;
      while i < |g.keys|
        invariant 0 <= i <= |g.keys| && projects == ByProject(g, g.keys[..i])
      {
        assert g.keys[..i + 1][..i] == g.keys[..i];
        projects := AppendList(projects, ListAt(g.lists, g.keys[i]));
        i := i + 1;
      }
      assert g.keys[..i] == g.keys;
    }

    static method AppendList(before: map<string, seq<Asset>>, list: seq<Asset>)
      returns (projects: map<string, seq<Asset>>)
      ensures projects == AppendTo(before, list)
    {
      projects := before;
      assert list[..0] == [];
      var j := 0;
      while j < |list|
        invariant 0 <= j <= |list| && projects == AppendTo(before, list[..j])
      {
        assert list[..j + 1][..j] == list[..j];
        projects := projects[list[j].project := ListAt(projects, list[j].project) + [list[j]]];
        j := j + 1;
      }
      assert list[..j] == list;
    }

    method ListProjectPactAssets(project: string, date: string) returns (rows: seq<Asset>)
      requires Valid()
      modifies this
      ensures Valid() && multiset(rows) == multiset(OfProject(Rows(date), project))
    {
      hide Rows, ByName, ByProject;
      if date !in projectCache {
        var g := PactAssetsByDate(date);
        var projects := GroupByProject(g);
        projectCache := projectCache[date := projects];
      }
      RegroupingKeepsRows(Rows(date), project);
      return ListAt(projectCache[date], project);
    }
  }
}

/**
 * The batch run of spiders/generate_team_pages.py: `create_team_page` against the
 * directory of pages, the loop of `generate_all_team_pages` that creates pages,
 * collects the team summaries and registers every team in the registry, and the
 * order and links of the index page of `create_teams_index`.
 */
module TeamPages {
  import opened Wrappers
  import opened Text
  import opened Slug
  import opened Registry

  /** The tournament ids applied to every team. */
  const Leagues: seq<string> := ["brasileiro26"]

  /** The built-in table of teams: name and Wikipedia article, in dictionary order. */
  const Teams: seq<(string, string)> := [
    ("Athletico Paranaense", "https://pt.wikipedia.org/wiki/Club_Athletico_Paranaense"),
    ("Atlético Mineiro", "https://pt.wikipedia.org/wiki/Clube_Atlético_Mineiro"),
    ("Bahia", "https://pt.wikipedia.org/wiki/Esporte_Clube_Bahia"),
    ("Botafogo", "https://pt.wikipedia.org/wiki/Botafogo_de_Futebol_e_Regatas"),
    ("Chapecoense", "https://pt.wikipedia.org/wiki/Associação_Chapecoense_de_Futebol"),
    ("Corinthians", "https://pt.wikipedia.org/wiki/Sport_Club_Corinthians_Paulista"),
    ("Coritiba", "https://pt.wikipedia.org/wiki/Coritiba_Foot_Ball_Club"),
    ("Cruzeiro", "https://pt.wikipedia.org/wiki/Cruzeiro_Esporte_Clube"),
    ("Flamengo", "https://pt.wikipedia.org/wiki/Clube_de_Regatas_do_Flamengo"),
    ("Fluminense", "https://pt.wikipedia.org/wiki/Fluminense_Football_Club"),
    ("Grêmio", "https://pt.wikipedia.org/wiki/Grêmio_Foot-Ball_Porto_Alegrense"),
    ("Internacional", "https://pt.wikipedia.org/wiki/Sport_Club_Internacional"),
    ("Mirassol", "https://pt.wikipedia.org/wiki/Mirassol_Futebol_Clube"),
    ("Palmeiras", "https://pt.wikipedia.org/wiki/Sociedade_Esportiva_Palmeiras"),
    ("Red Bull Bragantino", "https://pt.wikipedia.org/wiki/Red_Bull_Bragantino"),
    ("Remo", "https://pt.wikipedia.org/wiki/Clube_do_Remo"),
    ("Santos", "https://pt.wikipedia.org/wiki/Santos_Futebol_Clube"),
    ("São Paulo", "https://pt.wikipedia.org/wiki/São_Paulo_Futebol_Clube"),
    ("Vasco da Gama", "https://pt.wikipedia.org/wiki/Club_de_Regatas_Vasco_da_Gama"),
    ("Vitória", "https://pt.wikipedia.org/wiki/Esporte_Clube_Vitória")
  ]

  /** The index page, in the same directory as the team pages. */
  const IndexFile: string := "index.html"

  /** The page of a team, relative to the pages directory. */
  function PagePath(name: string): string {
    Slugify(name) + ".html"
  }

  /** The set of `f(x)` for the elements `x` of `s`, collected front to back. */
  function Image<T>(s: seq<T>, f: T -> string): set<string>
    decreases |s|
  {
    if s == [] then {}
    else Image(s[..|s| - 1], f) + {f(s[|s| - 1])}
  }

  /** The image holds the value of every element and nothing else. */
  lemma {:induction false} ImageMembers<T>(s: seq<T>, f: T -> string)
    ensures forall y :: y in Image(s, f) <==> exists j :: 0 <= j < |s| && y == f(s[j])
    decreases |s|
  {
    if s != [] {
      var n := |s| - 1;
      ImageMembers(s[..n], f);
      forall y ensures y in Image(s, f) <==> exists j :: 0 <= j < |s| && y == f(s[j]) {
        if y in Image(s[..n], f) {
          var j :| 0 <= j < n && y == f(s[..n][j]);
          assert y == f(s[j]);
        }
        if exists j :: 0 <= j < |s| && y == f(s[j]) {
          var j :| 0 <= j < |s| && y == f(s[j]);
          if j < n { assert y == f(s[..n][j]); }
        }
      }
    }
  }

  /** The page of a row of the team table. */
  function RowPage(row: (string, string)): string {
    PagePath(row.0)
  }

  /** The pages of the teams of `table`. */
  function PagesOf(table: seq<(string, string)>): set<string> {
    Image(table, RowPage)
  }

  /** The pages directory, as the set of page paths that exist in it. */
  class PageDirectory {
    var files: set<string>

    constructor (existing: set<string>)
      ensures files == existing
    {
      files := existing;
    }

    /** `create_team_page`: skips a team whose page exists, and writes it otherwise. */
    method CreateTeamPage(name: string) returns (created: bool)
      modifies this
      ensures created <==> PagePath(name) !in old(files)
      ensures files == old(files) + {PagePath(name)}
    {
      var path := PagePath(name);
      if path in files {
        return false;
      }
      files := files + {path};
      return true;
    }

    /** The write of the index page by `create_teams_index`: the file is created, or
        overwritten when it exists. */
    method WriteIndex()
      modifies this
      ensures files == old(files) + {IndexFile}
    {
      files := files + {IndexFile};
    }
  }

  /** The record data handed to the registry for a team. */
  function InfoFor(name: string): TeamInfo {
    TeamInfo(Slugify(name), name, Some(Slugify(name)), Some(""), Some(""), Some(0))
  }

  /** The record data of every row of the table, in order. */
  function Infos(table: seq<(string, string)>): (r: seq<TeamInfo>)
    ensures |r| == |table|
  {
    seq(|table|, i requires 0 <= i < |table| => InfoFor(table[i].0))
  }

  /** The registry after the loop, with its two counters. */
  datatype RegisterStats = RegisterStats(teams: seq<Team>, newTeams: nat, updated: nat)

  /** Every record of `infos` merged with `input`, in order: a new id counts as a new team,
      a known id that gained a tournament counts as updated. */
  function RegisterAll(teams: seq<Team>, infos: seq<TeamInfo>, input: seq<string>): RegisterStats
    decreases |infos|
  {
    if infos == [] then RegisterStats(teams, 0, 0)
    else
      var r := RegisterAll(teams, infos[..|infos| - 1], input);
      var o := Merge(r.teams, infos[|infos| - 1], input);
      RegisterStats(o.teams, r.newTeams + (if o.isNew then 1 else 0),
        r.updated + (if !o.isNew && o.added != [] then 1 else 0))
  }

  /** The new-team counter is the growth of the registry, and no team is counted twice. */
  lemma {:induction false} RegisterAllCounts(teams: seq<Team>, infos: seq<TeamInfo>, input: seq<string>)
    ensures var r := RegisterAll(teams, infos, input);
      |r.teams| == |teams| + r.newTeams && r.newTeams + r.updated <= |infos|
    decreases |infos|
  {
    if infos != [] {
      var n := |infos| - 1;
      RegisterAllCounts(teams, infos[..n], input);
      MergeIsAdditive(RegisterAll(teams, infos[..n], input).teams, infos[n], input);
    }
  }

  /** After the loop the record at position `j` is registered with all of the non-empty
      `input`. */
  lemma {:induction false} RegisterAllRegistersAt(teams: seq<Team>, infos: seq<TeamInfo>,
                                                  input: seq<string>, j: int)
    requires forall t :: t in input ==> t != ""
    requires 0 <= j < |infos|
    ensures Registered(RegisterAll(teams, infos, input).teams, infos[j].id, input)
    decreases |infos|
  {
    var n := |infos| - 1;
    var front := RegisterAll(teams, infos[..n], input).teams;
    if j == n {
      MergeRegisters(front, infos[n], input);
    } else {
      RegisterAllRegistersAt(teams, infos[..n], input, j);
      assert infos[..n][j] == infos[j];
      MergeKeepsRegistered(front, infos[n], input, infos[j].id, input);
    }
  }

  /** After the loop every record is registered with all of the non-empty `input`. */
  lemma RegisterAllRegisters(teams: seq<Team>, infos: seq<TeamInfo>, input: seq<string>)
    requires forall t :: t in input ==> t != ""
    ensures forall i :: 0 <= i < |infos| ==>
      Registered(RegisterAll(teams, infos, input).teams, infos[i].id, input)
  {
    forall i | 0 <= i < |infos|
      ensures Registered(RegisterAll(teams, infos, input).teams, infos[i].id, input)
    {
      RegisterAllRegistersAt(teams, infos, input, i);
    }
  }

  /** When every record is registered already, the loop changes nothing and counts nothing. */
  lemma {:induction false} RegisterAllNoop(teams: seq<Team>, infos: seq<TeamInfo>, input: seq<string>)
    requires forall i :: 0 <= i < |infos| ==> Registered(teams, infos[i].id, input)
    ensures RegisterAll(teams, infos, input) == RegisterStats(teams, 0, 0)
    decreases |infos|
  {
    if infos != [] {
      var n := |infos| - 1;
      forall i | 0 <= i < n ensures Registered(teams, infos[..n][i].id, input) {
        assert infos[..n][i] == infos[i];
      }
      RegisterAllNoop(teams, infos[..n], input);
      MergeRegisteredIsNoop(teams, infos[n], input);
    }
  }

  /** Running the loop a second time leaves the registry as the first run left it, with no
      new and no updated team. */
  lemma RegisterAllIdempotent(teams: seq<Team>, infos: seq<TeamInfo>, input: seq<string>)
    requires forall t :: t in input ==> t != ""
    ensures var once := RegisterAll(teams, infos, input).teams;
      RegisterAll(once, infos, input) == RegisterStats(once, 0, 0)
  {
    RegisterAllRegisters(teams, infos, input);
    RegisterAllNoop(RegisterAll(teams, infos, input).teams, infos, input);
  }

  /** The loop keeps the registry well formed (unique ids, duplicate-free tournaments). */
  lemma {:induction false} RegisterAllKeepsWellFormed(teams: seq<Team>, infos: seq<TeamInfo>, input: seq<string>)
    requires WellFormed(teams) && NoDuplicates(input)
    ensures WellFormed(RegisterAll(teams, infos, input).teams)
    decreases |infos|
  {
    if infos != [] {
      var n := |infos| - 1;
      RegisterAllKeepsWellFormed(teams, infos[..n], input);
      MergeKeepsWellFormed(RegisterAll(teams, infos[..n], input).teams, infos[n], input);
    }
  }

  /** A second run of the generator over the same table neither adds nor updates a team. */
  lemma SecondRunChangesNothing(teams: seq<Team>, table: seq<(string, string)>)
    ensures var once := RegisterAll(teams, Infos(table), Leagues).teams;
      RegisterAll(once, Infos(table), Leagues) == RegisterStats(once, 0, 0)
  {
    assert forall t :: t in Leagues ==> t != "";
    RegisterAllIdempotent(teams, Infos(table), Leagues);
  }

  /** After a run of the generator every team of the table is registered under its slug
      with every league. */
  lemma GeneratorRegistersEveryTeam(teams: seq<Team>, table: seq<(string, string)>)
    ensures forall i :: 0 <= i < |table| ==>
      Registered(RegisterAll(teams, Infos(table), Leagues).teams, Slugify(table[i].0), Leagues)
  {
    assert forall t :: t in Leagues ==> t != "";
    RegisterAllRegisters(teams, Infos(table), Leagues);
    forall i | 0 <= i < |table|
      ensures Registered(RegisterAll(teams, Infos(table), Leagues).teams, Slugify(table[i].0), Leagues)
    {
      assert Infos(table)[i].id == Slugify(table[i].0);
    }
  }

  /** The `all_teams` value of a team. */
  datatype TeamSummary = TeamSummary(leagues: seq<string>, wikiUrl: string)

  /** `all_teams` after the loop: one summary per name, the last row of a name winning. */
  function Summaries(table: seq<(string, string)>): map<string, TeamSummary>
    decreases |table|
  {
    if table == [] then map[]
    else
      var n := |table| - 1;
      Summaries(table[..n])[table[n].0 := TeamSummary(Leagues, table[n].1)]
  }

  /** The keys of `all_teams` are the names of the table, each with `Leagues`. */
  lemma {:induction false} SummariesKeys(table: seq<(string, string)>)
    ensures Summaries(table).Keys == set i | 0 <= i < |table| :: table[i].0
    ensures forall name :: name in Summaries(table) ==> Summaries(table)[name].leagues == Leagues
    decreases |table|
  {
    if table != [] {
      var n := |table| - 1;
      SummariesKeys(table[..n]);
      assert forall i :: 0 <= i < n ==> table[..n][i] == table[i];
      assert (set i | 0 <= i < |table| :: table[i].0) ==
        (set i | 0 <= i < n :: table[..n][i].0) + {table[n].0};
    }
  }

  /** One entry of the index page: link, name, leagues joined by ", ", Wikipedia link. */
  datatype IndexEntry = IndexEntry(name: string, leagues: string, wikiUrl: string) {
    /** The link to the team's page, `{slug}.html`. */
    function Href(): string {
      PagePath(name)
    }
  }

  function EntryFor(name: string, summary: TeamSummary): IndexEntry {
    IndexEntry(name, Join(", ", summary.leagues), summary.wikiUrl)
  }

  /** Names in strictly increasing code-point order. */
  predicate StrictlySorted(names: seq<string>) {
    forall i, j :: 0 <= i < j < |names| ==> StrLess(names[i], names[j])
  }

  function NamesOf(entries: seq<IndexEntry>): seq<string> {
    seq(|entries|, i requires 0 <= i < |entries| => entries[i].name)
  }

  /** Python's `sorted` on a set of strings: every element once, in increasing code-point
      order, found by repeatedly taking the least of the elements left. */
  method SortedNames(keys: set<string>) returns (names: seq<string>)
    ensures StrictlySorted(names)
    ensures forall x :: x in keys <==> x in names
  {
    names := [];
    var remaining := keys;
    while remaining != {}
      invariant StrictlySorted(names)
      invariant forall x :: x in keys <==> x in names || x in remaining
      invariant forall i, r :: 0 <= i < |names| && r in remaining ==> StrLess(names[i], r)
      decreases |remaining|
    {
      LeastExists(remaining);
      var least :| least in remaining && forall r :: r in remaining && r != least ==> StrLess(least, r);
      names := names + [least];
      remaining := remaining - {least};
    }
  }

  /** The values `entry(n, m[n])` of the keys `n` of `names`, in order. */
  function EntriesOf<V>(names: seq<string>, m: map<string, TeamSummary>,
                        entry: (string, TeamSummary) -> V): seq<V>
    requires forall n :: n in names ==> n in m
    decreases |names|
  {
    if names == [] then []
    else
      var n := |names| - 1;
      EntriesOf(names[..n], m, entry) + [entry(names[n], m[names[n]])]
  }

  /** The value at each position is the one of the key at that position. */
  lemma {:induction false} EntriesOfAt<V>(names: seq<string>, m: map<string, TeamSummary>,
                                         entry: (string, TeamSummary) -> V)
    requires forall n :: n in names ==> n in m
    ensures |EntriesOf(names, m, entry)| == |names|
    ensures forall j :: 0 <= j < |names| ==>
      EntriesOf(names, m, entry)[j] == entry(names[j], m[names[j]])
    decreases |names|
  {
    if names != [] {
      var n := |names| - 1;
      EntriesOfAt(names[..n], m, entry);
      forall j | 0 <= j < n
        ensures EntriesOf(names, m, entry)[j] == entry(names[j], m[names[j]])
      {
        assert names[..n][j] == names[j];
      }
    }
  }

  /** `create_teams_index`: one entry per team, in `sorted` order of the names. */
  method CreateTeamsIndex(teams: map<string, TeamSummary>) returns (entries: seq<IndexEntry>)
    ensures StrictlySorted(NamesOf(entries))
    ensures forall i :: 0 <= i < |entries| ==>
      entries[i].name in teams && entries[i] == EntryFor(entries[i].name, teams[entries[i].name])
    ensures forall name :: name in teams <==> name in NamesOf(entries)
  {
    var names := SortedNames(teams.Keys);
    entries := [];
    var i := 0;
    while i < |names|
      invariant 0 <= i <= |names| && entries == EntriesOf(names[..i], teams, EntryFor)
    {
      assert names[..i + 1][..i] == names[..i];
      entries := entries + [EntryFor(names[i], teams[names[i]])];
      i := i + 1;
    }
    assert names[..i] == names;
    IndexInOrder(names, teams, entries);
  }

  /** The entries of the sorted names list every team once, in order, each with its own
      summary. */
  lemma IndexInOrder(names: seq<string>, teams: map<string, TeamSummary>, entries: seq<IndexEntry>)
    requires StrictlySorted(names) && forall x :: x in teams.Keys <==> x in names
    requires entries == EntriesOf(names, teams, EntryFor)
    ensures StrictlySorted(NamesOf(entries))
    ensures forall i :: 0 <= i < |entries| ==>
      entries[i].name in teams && entries[i] == EntryFor(entries[i].name, teams[entries[i].name])
    ensures forall name :: name in teams <==> name in NamesOf(entries)
  {
    EntriesOfAt(names, teams, EntryFor);
    forall j | 0 <= j < |names| ensures entries[j].name == names[j] && names[j] in teams {
      assert names[j] in names;
    }
    assert NamesOf(entries) == names;
  }

  /** The index order is determined by the names alone: two strictly sorted lists of the
      same names are equal. */
  lemma {:induction false} StrictlySortedUnique(a: seq<string>, b: seq<string>)
    requires StrictlySorted(a) && StrictlySorted(b)
    requires forall x :: x in a <==> x in b
    ensures a == b
    decreases |a|
  {
    SameElementsEmpty(a, b);
    if a != [] {
      assert a[0] in a && b[0] in b;
      var j :| 0 <= j < |b| && b[j] == a[0];
      var i :| 0 <= i < |a| && a[i] == b[0];
      if a[0] != b[0] {
        StrLessTransitive(a[0], b[0], a[0]);
        StrLessIrreflexive(a[0]);
        assert false;
      }
      forall x ensures x in a[1..] <==> x in b[1..] {
        SortedTailMember(a, b, x);
        SortedTailMember(b, a, x);
      }
      StrictlySortedUnique(a[1..], b[1..]);
    }
  }

  /** Two sequences with the same elements are both empty or both non-empty. */
  lemma SameElementsEmpty(a: seq<string>, b: seq<string>)
    requires forall x :: x in a <==> x in b
    ensures a == [] <==> b == []
  {
    if a != [] { assert a[0] in a; }
    if b != [] { assert b[0] in b; }
  }

  /** An element of the tail of one of two sorted lists with the same head and the same
      elements is in the tail of the other. */
  lemma SortedTailMember(a: seq<string>, b: seq<string>, x: string)
    requires StrictlySorted(a) && StrictlySorted(b)
    requires forall y :: y in a <==> y in b
    requires a != [] && b != [] && a[0] == b[0]
    ensures x in a[1..] ==> x in b[1..]
  {
    if x in a[1..] {
      var i :| 0 <= i < |a[1..]| && a[1..][i] == x;
      assert StrLess(a[0], a[i + 1]);
      if x == a[0] { StrLessIrreflexive(x); }
      assert x in a;
      var j :| 0 <= j < |b| && b[j] == x;
      assert b[1..][j - 1] == x;
    }
  }

  /** The counters the run reports. */
  datatype RunStats = RunStats(created: nat, skipped: nat, newTeams: nat, tournamentsUpdated: nat)

  /** The loop of `generate_all_team_pages`: for each team of the table, create its page
      unless it exists, record its summary, and merge it into the registry with `Leagues`,
      counting pages created and skipped, teams new and updated. */
  method ProcessTeams(table: seq<(string, string)>, dir: PageDirectory, registry: TeamRegistry)
    returns (stats: RunStats, allTeams: map<string, TeamSummary>)
    modifies dir, registry
    ensures dir.files == old(dir.files) + PagesOf(table)
    ensures stats.created == |PagesOf(table) - old(dir.files)|
    ensures stats.created + stats.skipped == |table|
    ensures RegisterAll(old(registry.teams), Infos(table), Leagues) ==
      RegisterStats(registry.teams, stats.newTeams, stats.tournamentsUpdated)
    ensures allTeams == Summaries(table)
  {
    stats := RunStats(0, 0, 0, 0);
    allTeams := map[];
    var i := 0;
    while i < |table|
      invariant 0 <= i <= |table|
      invariant RowsDone(table, i, old(dir.files), dir.files, old(registry.teams), registry.teams,
                         stats, allTeams)
    {
      stats, allTeams := ProcessRow(table, i, dir, registry, old(dir.files), old(registry.teams),
                                    stats, allTeams);
      i := i + 1;
    }
    assert table[..i] == table && Infos(table)[..i] == Infos(table);
  }

  /** The state after the first `i` rows of the loop, from the directory `existing` and
      the registry `base` it started with. */
  predicate RowsDone(table: seq<(string, string)>, i: int, existing: set<string>, files: set<string>,
                     base: seq<Team>, teams: seq<Team>, stats: RunStats,
                     allTeams: map<string, TeamSummary>)
    requires 0 <= i <= |table|
  {
    && files == existing + PagesOf(table[..i])
    && stats.created == |PagesOf(table[..i]) - existing|
    && stats.created + stats.skipped == i
    && RegisterAll(base, Infos(table)[..i], Leagues) ==
       RegisterStats(teams, stats.newTeams, stats.tournamentsUpdated)
    && allTeams == Summaries(table[..i])
  }

  /** One pass of the loop: the row's page, its summary and its registry record. */
  method ProcessRow(table: seq<(string, string)>, i: int, dir: PageDirectory, registry: TeamRegistry,
                    ghost existing: set<string>, ghost base: seq<Team>,
                    stats: RunStats, allTeams: map<string, TeamSummary>)
    returns (stats': RunStats, allTeams': map<string, TeamSummary>)
    requires 0 <= i < |table|
    requires RowsDone(table, i, existing, dir.files, base, registry.teams, stats, allTeams)
    modifies dir, registry
    ensures RowsDone(table, i + 1, existing, dir.files, base, registry.teams, stats', allTeams')
  {
    var created, skipped := PageRow(dir, table, i, existing, stats.created, stats.skipped);
    allTeams' := SummaryRow(table, i, allTeams);
    var newTeams, updated := RegisterRow(registry, table, i, base, stats.newTeams,
                                         stats.tournamentsUpdated);
    stats' := RunStats(created, skipped, newTeams, updated);
  }


  /** `generate_all_team_pages`: the loop, then the index page of all teams, written to the
      same directory: one entry per team in name order, every link leading to a page
      that exists. */
  method GenerateAllTeamPages(table: seq<(string, string)>, dir: PageDirectory, registry: TeamRegistry)
    returns (stats: RunStats, allTeams: map<string, TeamSummary>, index: seq<IndexEntry>)
    modifies dir, registry
    ensures dir.files == old(dir.files) + PagesOf(table) + {IndexFile}
    ensures stats.created == |PagesOf(table) - old(dir.files)|
    ensures stats.created + stats.skipped == |table|
    ensures RegisterAll(old(registry.teams), Infos(table), Leagues) ==
      RegisterStats(registry.teams, stats.newTeams, stats.tournamentsUpdated)
    ensures allTeams == Summaries(table)
    ensures StrictlySorted(NamesOf(index))
    ensures forall i :: 0 <= i < |index| ==>
      index[i].name in allTeams && index[i] == EntryFor(index[i].name, allTeams[index[i].name])
    ensures forall name :: name in allTeams <==> name in NamesOf(index)
    ensures forall i :: 0 <= i < |index| ==> index[i].Href() in dir.files
  {
    stats, allTeams := ProcessTeams(table, dir, registry);
    index := CreateTeamsIndex(allTeams);
    dir.WriteIndex();
    IndexLinksArePages(table, index, dir.files);
  }

  /** The page part of one pass of the loop: create the row's page unless it exists, and
      count it as created or skipped. */
  method PageRow(dir: PageDirectory, table: seq<(string, string)>, i: int,
                 ghost existing: set<string>, created: nat, skipped: nat)
    returns (created': nat, skipped': nat)
    requires 0 <= i < |table|
    requires dir.files == existing + PagesOf(table[..i])
    requires created == |PagesOf(table[..i]) - existing| && created + skipped == i
    modifies dir
    ensures dir.files == existing + PagesOf(table[..i + 1])
    ensures created' == |PagesOf(table[..i + 1]) - existing| && created' + skipped' == i + 1
  {
    PagesStep(table, i);
    var isCreated := dir.CreateTeamPage(table[i].0);
    CountStep(PagesOf(table[..i]), existing, RowPage(table[i]), isCreated);
    if isCreated {
      created', skipped' := created + 1, skipped;
    } else {
      created', skipped' := created, skipped + 1;
    }
  }

  /** The `all_teams` part of one pass of the loop: record the row's summary under its
      name. */
  method SummaryRow(table: seq<(string, string)>, i: int, allTeams: map<string, TeamSummary>)
    returns (allTeams': map<string, TeamSummary>)
    requires 0 <= i < |table| && allTeams == Summaries(table[..i])
    ensures allTeams' == Summaries(table[..i + 1])
  {
    var (name, wikiUrl) := table[i];
    SummariesStep(table, i);
    allTeams' := allTeams[name := TeamSummary(Leagues, wikiUrl)];
  }

  /** The registry part of one pass of the loop: merge the row's team with `Leagues` and
      count it as new, or as updated when it gained a tournament. */
  method RegisterRow(registry: TeamRegistry, table: seq<(string, string)>, i: int,
                     ghost base: seq<Team>, newTeams: nat, updated: nat)
    returns (newTeams': nat, updated': nat)
    requires 0 <= i < |table|
    requires RegisterAll(base, Infos(table)[..i], Leagues) == RegisterStats(registry.teams, newTeams, updated)
    modifies registry
    ensures RegisterAll(base, Infos(table)[..i + 1], Leagues) == RegisterStats(registry.teams, newTeams', updated')
  {
    ghost var infos := Infos(table);
    assert infos[..i + 1][..i] == infos[..i];
    var info := InfoFor(table[i].0);
    assert infos[i] == info;
    var isNew, added := registry.AddOrUpdateTeam(info, Leagues);
    newTeams', updated' := newTeams, updated;
    if isNew {
      newTeams' := newTeams + 1;
    } else if added != [] {
      updated' := updated + 1;
    }
  }

  /** Every link of an index built from the summaries of `table` is one of its pages. */
  lemma IndexLinksArePages(table: seq<(string, string)>, index: seq<IndexEntry>, files: set<string>)
    requires forall i :: 0 <= i < |index| ==>
      index[i].name in Summaries(table) &&
      index[i] == EntryFor(index[i].name, Summaries(table)[index[i].name])
    requires PagesOf(table) <= files
    ensures forall i :: 0 <= i < |index| ==> index[i].Href() in files
  {
    SummariesKeys(table);
    ImageMembers(table, RowPage);
    forall k | 0 <= k < |index| ensures index[k].Href() in files {
      var j :| 0 <= j < |table| && table[j].0 == index[k].name;
      assert index[k].Href() == RowPage(table[j]);
    }
  }

  /** One more row of the summaries. */
  lemma SummariesStep(table: seq<(string, string)>, i: int)
    requires 0 <= i < |table|
    ensures Summaries(table[..i + 1]) == Summaries(table[..i])[table[i].0 := TeamSummary(Leagues, table[i].1)]
  {
    assert table[..i + 1][..i] == table[..i];
  }

  /** The pages of one more row. */
  lemma PagesStep(table: seq<(string, string)>, i: int)
    requires 0 <= i < |table|
    ensures PagesOf(table[..i + 1]) == PagesOf(table[..i]) + {RowPage(table[i])}
  {
    assert table[..i + 1][..i] == table[..i];
  }

  /** The created count grows by one exactly when the page is neither old nor already
      created in this run. */
  lemma CountStep(pages: set<string>, existing: set<string>, p: string, created: bool)
    requires created <==> p !in existing + pages
    ensures |(pages + {p}) - existing| == |pages - existing| + (if created then 1 else 0)
  {
    if created {
      assert (pages + {p}) - existing == (pages - existing) + {p};
    } else {
      assert (pages + {p}) - existing == pages - existing;
    }
  }
}

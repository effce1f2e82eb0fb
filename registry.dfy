/**
 * The team registry of spiders/generate_team_pages.py: the `teams` list of
 * teams.json, the lookup `get_team_by_id` and the strictly additive upsert
 * `add_or_update_team`.
 */
module Registry {
  import opened Wrappers
  import opened Seqs

  datatype Colors = Colors(primary: string, secondary: string)

  /** One record of teams.json. */
  datatype Team = Team(
    id: string, name: string, slug: string, logo: string,
    state: string, stadium: string, founded: int,
    tournaments: seq<string>, colors: Colors)

  /** The `team_info` dict handed to `add_or_update_team`; `None` is a key the dict lacks. */
  datatype TeamInfo = TeamInfo(
    id: string, name: string, slug: Option<string>,
    state: Option<string>, stadium: Option<string>, founded: Option<int>)

  /** What `add_or_update_team` leaves behind: the new list and its return pair. */
  datatype MergeOutcome = MergeOutcome(teams: seq<Team>, isNew: bool, added: seq<string>)

  predicate NoDuplicates(s: seq<string>) {
    forall i, j :: 0 <= i < j < |s| ==> s[i] != s[j]
  }

  /** Record ids are unique across the registry. */
  predicate UniqueIds(teams: seq<Team>) {
    forall i, j :: 0 <= i < j < |teams| ==> teams[i].id != teams[j].id
  }

  /** The position of the first record whose id is `id`, if any. */
  function FindFirst(teams: seq<Team>, id: string): (r: Option<nat>)
    ensures r.Some? ==> r.value < |teams| && teams[r.value].id == id
    ensures r.Some? ==> forall j :: 0 <= j < r.value ==> teams[j].id != id
    ensures r.None? <==> forall j :: 0 <= j < |teams| ==> teams[j].id != id
  {
    if teams == [] then None
    else if teams[0].id == id then Some(0)
    else match FindFirst(teams[1..], id)
      case None => None
      case Some(k) => Some(k + 1)
  }

  /** The record the insert branch of `add_or_update_team` builds for an unknown id. */
  function NewTeam(info: TeamInfo, tournaments: seq<string>): Team {
    Team(info.id, info.name, info.slug.GetOr(info.id),
         "/assets/times/" + info.id + ".png",
         info.state.GetOr(""), info.stadium.GetOr(""), info.founded.GetOr(0),
         tournaments, Colors("#000000", "#FFFFFF"))
  }

  /** The tournament ids the update loop of `add_or_update_team` appends to `existing`:
      the non-empty ids of `input` not already present, in input order, each once. */
  function AppendMissing(existing: seq<string>, input: seq<string>): seq<string>
    decreases |input|
  {
    if input == [] then []
    else
      var x := input[0];
      if x != "" && x !in existing then [x] + AppendMissing(existing + [x], input[1..])
      else AppendMissing(existing, input[1..])
  }

  /** What the update loop appends: only non-empty input ids that were missing, each once,
      and every non-empty input id ends up present. */
  lemma {:induction false} AppendMissingSpec(existing: seq<string>, input: seq<string>)
    ensures var added := AppendMissing(existing, input);
      && (forall x :: x in added ==> x in input && x != "" && x !in existing)
      && NoDuplicates(added)
      && (forall x :: x in input && x != "" ==> x in existing || x in added)
    decreases |input|
  {
    if input != [] {
      var x := input[0];
      if x != "" && x !in existing {
        AppendMissingSpec(existing + [x], input[1..]);
        var rest := AppendMissing(existing + [x], input[1..]);
        assert x in existing + [x];
        assert forall j :: 0 <= j < |rest| ==> rest[j] in rest && rest[j] != x;
        assert forall y :: y in input ==> y == x || y in input[1..];
      } else {
        AppendMissingSpec(existing, input[1..]);
        assert forall y :: y in input ==> y == x || y in input[1..];
      }
    }
  }

  /** `add_or_update_team` as a function of the registry before the call. */
  function Merge(teams: seq<Team>, info: TeamInfo, input: seq<string>): MergeOutcome {
    match FindFirst(teams, info.id)
    case None => MergeOutcome(teams + [NewTeam(info, input)], true, input)
    case Some(k) =>
      var added := AppendMissing(teams[k].tournaments, input);
      MergeOutcome(teams[k := teams[k].(tournaments := teams[k].tournaments + added)], false, added)
  }

  /** Everything but the tournament list is the same, and that list only grew at its end. */
  predicate ExtendsRecord(after: Team, before: Team) {
    after.(tournaments := before.tournaments) == before &&
    before.tournaments <= after.tournaments
  }

  /** `add_or_update_team` is strictly additive: it returns whether the id was new, keeps
      every earlier record except for tournaments appended to the first record with the id,
      and appends one record exactly when no record had the id. */
  lemma MergeIsAdditive(teams: seq<Team>, info: TeamInfo, input: seq<string>)
    ensures var o := Merge(teams, info, input);
      && (o.isNew <==> forall j :: 0 <= j < |teams| ==> teams[j].id != info.id)
      && |o.teams| == |teams| + (if o.isNew then 1 else 0)
      && (forall j :: 0 <= j < |teams| ==> ExtendsRecord(o.teams[j], teams[j]))
      && (forall j :: 0 <= j < |teams| && teams[j].id != info.id ==> o.teams[j] == teams[j])
  {
    var o := Merge(teams, info, input);
    match FindFirst(teams, info.id)
    case None =>
    case Some(k) =>
      forall j | 0 <= j < |teams| ensures ExtendsRecord(o.teams[j], teams[j]) {
        if j == k { assert teams[k].tournaments <= teams[k].tournaments + o.added; }
      }
  }

  /** The insert branch of `add_or_update_team`: an unknown id gets one record appended
      at the end with the defaults (slug = id, empty state and stadium, founded 0), the
      logo path "/assets/times/<id>.png", black and white colours and the input
      tournament list copied as it is; the call returns (True, input). */
  lemma MergeNewTeam(teams: seq<Team>, info: TeamInfo, input: seq<string>)
    requires forall j :: 0 <= j < |teams| ==> teams[j].id != info.id
    ensures var o := Merge(teams, info, input);
      && o.isNew && o.added == input
      && |o.teams| == |teams| + 1 && o.teams[..|teams|] == teams
      && var t := o.teams[|teams|];
         && t.id == info.id && t.name == info.name
         && t.slug == (if info.slug.Some? then info.slug.value else info.id)
         && t.logo == "/assets/times/" + info.id + ".png"
         && t.state == (if info.state.Some? then info.state.value else "")
         && t.stadium == (if info.stadium.Some? then info.stadium.value else "")
         && t.founded == (if info.founded.Some? then info.founded.value else 0)
         && t.colors == Colors("#000000", "#FFFFFF")
         && t.tournaments == input
  {
  }

  /** The update branch of `add_or_update_team`: a known id keeps the registry's length,
      changes only the tournaments of the first record with that id, which become the old
      list followed by `added`, and returns (False, added). */
  lemma MergeExistingTeam(teams: seq<Team>, info: TeamInfo, input: seq<string>, k: nat)
    requires k < |teams| && teams[k].id == info.id
    requires forall j :: 0 <= j < k ==> teams[j].id != info.id
    ensures var o := Merge(teams, info, input);
      && !o.isNew
      && |o.teams| == |teams|
      && o.teams[k].tournaments == teams[k].tournaments + o.added
      && o.teams[k].(tournaments := teams[k].tournaments) == teams[k]
      && (forall j :: 0 <= j < |teams| && j != k ==> o.teams[j] == teams[j])
  {
    assert FindFirst(teams, info.id) == Some(k);
  }

  /** When every non-empty input id is already present, the update loop appends nothing. */
  lemma {:induction false} AppendMissingNothingNew(existing: seq<string>, input: seq<string>)
    requires forall x :: x in input && x != "" ==> x in existing
    ensures AppendMissing(existing, input) == []
  {
    if input != [] {
      assert forall x :: x in input[1..] ==> x in input;
      AppendMissingNothingNew(existing, input[1..]);
    }
  }

  /** The ids the update loop appends come from the input in the input's order. */
  lemma {:induction false} AppendMissingKeepsOrder(existing: seq<string>, input: seq<string>)
    ensures IsSubsequence(AppendMissing(existing, input), input)
    decreases |input|
  {
    if input != [] {
      var x := input[0];
      if x != "" && x !in existing {
        AppendMissingKeepsOrder(existing + [x], input[1..]);
      } else {
        AppendMissingKeepsOrder(existing, input[1..]);
        SubsequenceOfTail(AppendMissing(existing, input[1..]), input);
      }
    }
  }

  /** One iteration of the update loop. */
  lemma AppendMissingStep(current: seq<string>, input: seq<string>, i: nat)
    requires i < |input|
    ensures AppendMissing(current, input[i..]) ==
      if input[i] != "" && input[i] !in current
      then [input[i]] + AppendMissing(current + [input[i]], input[i + 1..])
      else AppendMissing(current, input[i + 1..])
  {
    assert input[i..][0] == input[i] && input[i..][1..] == input[i + 1..];
  }

  lemma AppendAssoc(a: seq<string>, t: string, b: seq<string>)
    ensures a + ([t] + b) == (a + [t]) + b
  {
  }

  /** The lookup looks at ids only. */
  lemma FindFirstSameIds(a: seq<Team>, b: seq<Team>, id: string)
    requires |a| == |b| && forall j :: 0 <= j < |a| ==> a[j].id == b[j].id
    ensures FindFirst(a, id) == FindFirst(b, id)
  {
    var ra, rb := FindFirst(a, id), FindFirst(b, id);
    if ra.Some? && rb.Some? {
      assert !(ra.value < rb.value) && !(rb.value < ra.value);
    }
  }

  /** Merging the same id and tournament list twice is the same as merging it once: the
      second call returns (False, []) and leaves the registry as the first call left it. */
  lemma MergeIdempotent(teams: seq<Team>, info: TeamInfo, input: seq<string>)
    ensures var o := Merge(teams, info, input);
      Merge(o.teams, info, input) == MergeOutcome(o.teams, false, [])
  {
    var o := Merge(teams, info, input);
    match FindFirst(teams, info.id)
    case None =>
      var n := |teams|;
      assert o.teams[n].id == info.id;
      assert forall j :: 0 <= j < n ==> o.teams[j] == teams[j];
      assert FindFirst(o.teams, info.id) == Some(n);
      AppendMissingNothingNew(input, input);
      assert o.teams[n].tournaments + [] == o.teams[n].tournaments;
      assert o.teams[n := o.teams[n].(tournaments := o.teams[n].tournaments + [])] == o.teams;
    case Some(k) =>
      FindFirstSameIds(teams, o.teams, info.id);
      AppendMissingSpec(teams[k].tournaments, input);
      AppendMissingNothingNew(o.teams[k].tournaments, input);
      assert o.teams[k].tournaments + [] == o.teams[k].tournaments;
      assert o.teams[k := o.teams[k].(tournaments := o.teams[k].tournaments + [])] == o.teams;
  }

  /** The update path never puts a duplicate into a record's tournament list, even when the
      input repeats an id. */
  lemma MergeUpdateKeepsNoDuplicates(teams: seq<Team>, info: TeamInfo, input: seq<string>, k: nat)
    requires FindFirst(teams, info.id) == Some(k)
    requires NoDuplicates(teams[k].tournaments)
    ensures NoDuplicates(Merge(teams, info, input).teams[k].tournaments)
  {
    var old_ := teams[k].tournaments;
    var added := AppendMissing(old_, input);
    AppendMissingSpec(old_, input);
    var t := old_ + added;
    forall i, j | 0 <= i < j < |t| ensures t[i] != t[j] {
      if j >= |old_| {
        assert t[j] == added[j - |old_|];
        if i < |old_| { assert t[i] in old_; }
      }
    }
  }

  /** Unique ids and duplicate-free tournament lists, the registry's invariant. */
  predicate WellFormed(teams: seq<Team>) {
    UniqueIds(teams) && forall j :: 0 <= j < |teams| ==> NoDuplicates(teams[j].tournaments)
  }

  /** A merge keeps the registry well formed, provided that a brand-new record is given a
      duplicate-free list (the insert path copies the input list without filtering it). */
  lemma MergeKeepsWellFormed(teams: seq<Team>, info: TeamInfo, input: seq<string>)
    requires WellFormed(teams)
    requires FindFirst(teams, info.id).None? ==> NoDuplicates(input)
    ensures WellFormed(Merge(teams, info, input).teams)
  {
    match FindFirst(teams, info.id)
    case None =>
    case Some(k) => MergeUpdateKeepsNoDuplicates(teams, info, input, k);
  }

  /** The two paths filter differently: a new record takes empty and repeated ids verbatim,
      while the update path drops both. */
  lemma InsertAndUpdateDiffer()
    ensures var info := TeamInfo("x", "X", None, None, None, None);
      var o1 := Merge([], info, ["a", "a", ""]);
      && o1.teams[0].tournaments == ["a", "a", ""]
      && var o2 := Merge(o1.teams, info, ["b", "b", ""]);
      o2.teams[0].tournaments == ["a", "a", "", "b"]
  {
    var info := TeamInfo("x", "X", None, None, None, None);
    var o1 := Merge([], info, ["a", "a", ""]);
    assert FindFirst(o1.teams, "x") == Some(0);
    var e := ["a", "a", ""];
    assert AppendMissing(e + ["b"], [""]) == [];
    assert "b" in e + ["b"];
    assert AppendMissing(e + ["b"], ["b", ""]) == [];
    assert "b" !in e;
    assert AppendMissing(e, ["b", "b", ""]) == ["b"];
  }

  /** The end-to-end example of the registry: "gremio" is inserted with one tournament,
      then merged again with a second one; one record, both tournaments. */
  lemma GremioExample()
    ensures var info := TeamInfo("gremio", "Grêmio", None, None, None, None);
      var o1 := Merge([], info, ["brasileirao"]);
      var o2 := Merge(o1.teams, info, ["brasileirao", "libertadores"]);
      && o1.isNew && |o1.teams| == 1 && o1.teams[0].tournaments == ["brasileirao"]
      && !o2.isNew && o2.added == ["libertadores"] && |o2.teams| == 1
      && o2.teams[0].tournaments == ["brasileirao", "libertadores"]
  {
    var info := TeamInfo("gremio", "Grêmio", None, None, None, None);
    var o1 := Merge([], info, ["brasileirao"]);
    assert FindFirst(o1.teams, "gremio") == Some(0);
    assert AppendMissing(["brasileirao"], ["brasileirao", "libertadores"]) == ["libertadores"];
  }

  /** The first record with id `id` is at position `j`. */
  lemma FindFirstAt(teams: seq<Team>, id: string, j: nat)
    requires j < |teams| && teams[j].id == id
    requires forall i :: 0 <= i < j ==> teams[i].id != id
    ensures FindFirst(teams, id) == Some(j)
  {
  }

  /** The first record with the id exists and lists every tournament of `tournaments`. */
  predicate Registered(teams: seq<Team>, id: string, tournaments: seq<string>) {
    match FindFirst(teams, id)
    case None => false
    case Some(k) => forall t :: t in tournaments ==> t in teams[k].tournaments
  }

  /** After a merge the id is registered with every non-empty tournament of the input. */
  lemma MergeRegisters(teams: seq<Team>, info: TeamInfo, input: seq<string>)
    requires forall t :: t in input ==> t != ""
    ensures Registered(Merge(teams, info, input).teams, info.id, input)
  {
    var o := Merge(teams, info, input);
    match FindFirst(teams, info.id)
    case None =>
      FindFirstAt(o.teams, info.id, |teams|);
    case Some(k) =>
      FindFirstSameIds(teams, o.teams, info.id);
      AppendMissingSpec(teams[k].tournaments, input);
  }

  /** A merge never unregisters anything: every id keeps its first record and that record
      keeps all its tournaments. */
  lemma MergeKeepsRegistered(teams: seq<Team>, info: TeamInfo, input: seq<string>,
                             id: string, tournaments: seq<string>)
    requires Registered(teams, id, tournaments)
    ensures Registered(Merge(teams, info, input).teams, id, tournaments)
  {
    var o := Merge(teams, info, input);
    var j := FindFirst(teams, id).value;
    MergeIsAdditive(teams, info, input);
    match FindFirst(teams, info.id)
    case None =>
      FindFirstAt(o.teams, id, j);
    case Some(k) =>
      FindFirstSameIds(teams, o.teams, id);
      assert teams[j].tournaments <= o.teams[j].tournaments;
  }

  /** Merging tournaments an id is already registered with changes nothing. */
  lemma MergeRegisteredIsNoop(teams: seq<Team>, info: TeamInfo, input: seq<string>)
    requires Registered(teams, info.id, input)
    ensures Merge(teams, info, input) == MergeOutcome(teams, false, [])
  {
    var k := FindFirst(teams, info.id).value;
    AppendMissingNothingNew(teams[k].tournaments, input);
    assert teams[k].tournaments + [] == teams[k].tournaments;
    assert teams[k := teams[k].(tournaments := teams[k].tournaments + [])] == teams;
  }

  /** The `teams` list of teams.json, held in memory and updated in place. */
  class TeamRegistry {
    var teams: seq<Team>

    /** `load_teams_json` when teams.json does not exist: an empty list. */
    constructor Empty()
      ensures teams == []
    {
      teams := [];
    }

    /** `load_teams_json` when teams.json exists: the records it holds. */
    constructor Loaded(records: seq<Team>)
      ensures teams == records
    {
      teams := records;
    }

    /** `get_team_by_id`: the position of the first record with the id, standing for the
        reference to that record that the Python function returns. */
    method GetTeamById(id: string) returns (r: Option<nat>)
      ensures r == FindFirst(teams, id)
    {
      var i := 0;
      while i < |teams|
        invariant 0 <= i <= |teams|
        invariant forall j :: 0 <= j < i ==> teams[j].id != id
      {
        if teams[i].id == id {
          return Some(i);
        }
        i := i + 1;
      }
      return None;
    }

    /** The update loop of `add_or_update_team`: appends to the tournaments of record `k`,
        in place, each non-empty input id it does not list yet. */
    method AppendTournaments(k: nat, input: seq<string>) returns (added: seq<string>)
      requires k < |teams|
      modifies this
      ensures added == AppendMissing(old(teams)[k].tournaments, input)
      ensures teams == old(teams)[k := old(teams)[k].(tournaments := old(teams)[k].tournaments + added)]
    {
      ghost var before := teams[k];
      added := [];
      assert before.tournaments + added == before.tournaments;
      var i := 0;
      while i < |input|
        invariant 0 <= i <= |input|
        invariant teams == old(teams)[k := before.(tournaments := before.tournaments + added)]
        invariant added + AppendMissing(before.tournaments + added, input[i..])
                  == AppendMissing(before.tournaments, input)
      {
        var t := input[i];
        ghost var current := teams[k].tournaments;
        AppendMissingStep(current, input, i);
        if t != "" && t !in teams[k].tournaments {
          teams := teams[k := teams[k].(tournaments := teams[k].tournaments + [t])];
          AppendAssoc(added, t, AppendMissing(current + [t], input[i + 1..]));
          added := added + [t];
          assert current + [t] == before.tournaments + added;
        }
        i := i + 1;
      }
      assert input[i..] == [];
    }

    /** `add_or_update_team`. */
    method AddOrUpdateTeam(info: TeamInfo, tournamentsToAdd: seq<string>)
      returns (isNew: bool, added: seq<string>)
      modifies this
      ensures MergeOutcome(teams, isNew, added) == Merge(old(teams), info, tournamentsToAdd)
    {
      var found := GetTeamById(info.id);
      if found.Some? {
        added := AppendTournaments(found.value, tournamentsToAdd);
        isNew := false;
      } else {
        teams := teams + [NewTeam(info, tournamentsToAdd)];
        isNew, added := true, tournamentsToAdd;
      }
    }
  }
}

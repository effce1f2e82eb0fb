/**
 * The page state of app.js: the module-level `filteredMatches` and `activeFilter`,
 * the search box, the displayed day and the match cards in `matchesContainer`,
 * with the handlers that change them.
 */
module Browser {
  import opened Wrappers
  import opened Seqs
  import opened Matches

  class App {
    /** `mockMatches`, the list every filter starts from. */
    const allMatches: seq<Match>
    /** `currentDate`, as a day number. */
    var currentDay: int
    var filteredMatches: seq<Match>
    var activeFilter: string
    /** The value of the search input. */
    var searchValue: string
    /** The match cards of `matchesContainer`, in document order. */
    var cards: seq<Match>
    var emptyStateShown: bool
    var containerShown: bool

    /** The page shows `matches`: their cards in time order, or the empty state. */
    predicate Shows(matches: seq<Match>)
      reads this
    {
      cards == SortByTime(matches) &&
      emptyStateShown == (matches == []) && containerShown == (matches != [])
    }

    /** The filtered list comes from the full list, and it is what the page shows. */
    predicate Valid()
      reads this
    {
      IsSubsequence(filteredMatches, allMatches) && Shows(filteredMatches)
    }

    /** The initial state followed by `init()`, which renders the whole list. */
    constructor Init(today: int)
      ensures Valid()
      ensures allMatches == MockMatches && filteredMatches == MockMatches
      ensures currentDay == today
      ensures activeFilter == "todos" && searchValue == ""
    {
      allMatches := MockMatches;
      currentDay := today;
      filteredMatches := MockMatches;
      activeFilter := "todos";
      searchValue := "";
      cards := [];
      emptyStateShown := false;
      containerShown := true;
      new;
      SubsequenceReflexive(MockMatches);
      RenderMatches(MockMatches);
    }

    /** `renderMatches`: clears the container, shows the empty state for an empty list, and
        otherwise appends one card per match of a time-sorted copy. */
    method RenderMatches(matches: seq<Match>)
      modifies this
      ensures Shows(matches)
      ensures currentDay == old(currentDay) && filteredMatches == old(filteredMatches)
      ensures activeFilter == old(activeFilter) && searchValue == old(searchValue)
    {
      if |matches| == 0 {
        cards := [];
        emptyStateShown, containerShown := true, false;
        return;
      }
      var shown := BuildCards(SortByTime(matches));
      cards := shown;
      emptyStateShown, containerShown := false, true;
    }

    /** The `forEach` of `renderMatches`: one card per match, appended in order. */
    static method BuildCards(sorted: seq<Match>) returns (shown: seq<Match>)
      ensures shown == sorted
    {
      shown := [];
      var i := 0;
      while i < |sorted|
        invariant 0 <= i <= |sorted| && shown == sorted[..i]
      {
        shown := shown + [sorted[i]];
        i := i + 1;
      }
      assert sorted[..i] == sorted;
    }

    /** `filterMatches`: the team filter unless it is "todos", then the search unless the
        term is empty; the result becomes `filteredMatches` and is rendered. */
    method FilterMatches(searchTerm: string, teamFilter: string)
      modifies this
      ensures filteredMatches == FilterResult(allMatches, searchTerm, teamFilter)
      ensures Valid()
      ensures currentDay == old(currentDay)
      ensures activeFilter == old(activeFilter) && searchValue == old(searchValue)
    {
      var matches := allMatches;
      if teamFilter != "todos" {
        matches := Filter(matches, TeamTest(teamFilter));
      }
      if searchTerm != "" {
        matches := Filter(matches, SearchTest(searchTerm));
      }
      FilterResultSpec(allMatches, searchTerm, teamFilter);
      filteredMatches := matches;
      RenderMatches(filteredMatches);
    }

    /** `handleSearch`: the typed term, with the active team filter. */
    method HandleSearch(value: string)
      modifies this
      ensures searchValue == value && activeFilter == old(activeFilter)
      ensures filteredMatches == FilterResult(allMatches, value, old(activeFilter))
      ensures Valid() && currentDay == old(currentDay)
    {
      searchValue := value;
      FilterMatches(value, activeFilter);
    }

    /** `handleTeamFilter`: a click outside any chip does nothing; a chip becomes the active
        filter and is applied with the current search box value. */
    method HandleTeamFilter(chip: Option<string>)
      requires Valid()
      modifies this
      ensures chip.None? ==> filteredMatches == old(filteredMatches) && activeFilter == old(activeFilter)
      ensures chip.Some? ==>
        (activeFilter == chip.value &&
         filteredMatches == FilterResult(allMatches, old(searchValue), chip.value))
      ensures Valid() && currentDay == old(currentDay) && searchValue == old(searchValue)
    {
      if chip.None? {
        return;
      }
      var team := chip.value;
      activeFilter := team;
      FilterMatches(searchValue, team);
    }

    /** `handleDateChange`: one day back for "prev", one day forward otherwise, then the
        filtered list is rendered again once the loading delay is over. */
    method HandleDateChange(direction: string)
      requires Valid()
      modifies this
      ensures currentDay == old(currentDay) + (if direction == "prev" then -1 else 1)
      ensures filteredMatches == old(filteredMatches) && activeFilter == old(activeFilter)
      ensures searchValue == old(searchValue) && Valid()
    {
      if direction == "prev" {
        currentDay := currentDay - 1;
      } else {
        currentDay := currentDay + 1;
      }
      RenderMatches(filteredMatches);
    }
  }
}

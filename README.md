# Football schedule site: verified model of the team-page generator and the match list

This project models two programs of a site that lists televised Brazilian football
matches:

- `spiders/generate_team_pages.py`. It turns team names into URL slugs (`slugify`). It keeps a registry of team records (`teams.json`) with the lookup `get_team_by_id` and the strictly additive upsert `add_or_update_team`. It filters Wikipedia league-table links down to club links (`extract_teams_from_league`). It creates one page per team and skips pages that exist (`create_team_page`). It runs the batch loop of `generate_all_team_pages` with its four counters, and it writes the alphabetically sorted index page (`create_teams_index`).
- `app.js`. It normalises strings for accent- and case-insensitive matching (`normalizeString`). It has the team-chip filter and the free-text search of `filterMatches`. `renderMatches` shows the list sorted by kick-off time, or shows the empty state. The event handlers `handleSearch`, `handleTeamFilter` and `handleDateChange` and the start-up `init` change the page state.

Modules:

| module | file | contents |
|---|---|---|
| `Wrappers`, `Seqs`, `Text` | `text.dfy` | `Option`; order-preserving subsequences; lowercasing, prefix and substring tests, code-point string order |
| `Slug` | `slug.dfy` | `slugify` and its properties (output shape, idempotence, fixed points, letters kept) |
| `Registry` | `registry.dfy` | team records, the pure `Merge` specification of `add_or_update_team`, and the class `TeamRegistry`, whose methods update the record list in place |
| `Links` | `links.dfy` | the club-link predicate and the loop that collects accepted links into a dictionary |
| `TeamPages` | `team_pages.dfy` | the page directory as a class, the generator loop, the team summaries and the sorted index |
| `Matches` | `matches.dfy` | match records, `normalizeString`, the two filters, the `"HH:MM"` key and the stable sort by it |
| `Browser` | `app.dfy` | the page state of `app.js` as the class `App`, with one method per function that changes it |

Python's `str.lower()` and JavaScript's `toLowerCase()` are modelled for ASCII and the Latin-1 capitals. `normalize('NFD')` is modelled as the decomposition of the precomposed Latin-1 letters; every other character is left unchanged. Python's `sorted` on strings and the `in` test on lists are modelled exactly: code-point order, and equality of strings.

## Model

| member | source | states |
|---|---|---|
| Slug.SlugifyIsSlug | spiders/generate_team_pages.py:47-58 | A slug holds only `a-z`, `0-9` and single hyphens. It neither starts nor ends with a hyphen. |
| Slug.SlugifyFixedPoints | spiders/generate_team_pages.py:47-58 | `slugify(t) == t` exactly when `t` is already a slug. |
| Slug.SlugifyIdempotent | spiders/generate_team_pages.py:47-58 | Slugifying a slug changes nothing. |
| Slug.SlugifyKeepsAlnums | spiders/generate_team_pages.py:47-58 | The letters and digits of the slug are those of the lowercased, accent-folded name, in order. Only separator runs change. |
| Slug.SlugifyTwoWords | spiders/generate_team_pages.py:55-56 | Two words separated by any run of non-alphanumerics become `word1-word2`. |
| Slug.SlugifyExamples | spiders/generate_team_pages.py:47-58 | "São Paulo", "Grêmio" and "Atlético Mineiro" give "sao-paulo", "gremio" and "atletico-mineiro". |
| Slug.CollapseIsSlugBody | spiders/generate_team_pages.py:56 | Replacing each run of non-alphanumerics by one hyphen leaves no double hyphen and nothing outside `a-z0-9-`. |
| Slug.TrimStartKeeps | spiders/generate_team_pages.py:57 | Stripping leading hyphens gives a suffix of the input that does not start with a hyphen. |
| Slug.TrimEndKeeps | spiders/generate_team_pages.py:57 | Stripping trailing hyphens gives a prefix of the input that is a slug. |
| Slug.CollapseFixesSlugBody | spiders/generate_team_pages.py:56 | The hyphen substitution leaves text that has already been collapsed unchanged. |
| Slug.AlnumsCollapse | spiders/generate_team_pages.py:56 | The hyphen substitution keeps every letter and digit, in order. |
| Registry.FindFirst | spiders/generate_team_pages.py:76-81 | The result is the position of the first record with the id, or `None` exactly when no record has it. |
| Registry.TeamRegistry.GetTeamById | spiders/generate_team_pages.py:76-81 | The scan returns the first matching record, or `None`. |
| Registry.TeamRegistry.AppendTournaments | spiders/generate_team_pages.py:99-104 | The in-place loop appends to record `k` exactly the non-empty, missing, not yet appended ids, in input order. No other record changes. |
| Registry.TeamRegistry.AddOrUpdateTeam | spiders/generate_team_pages.py:83-122 | The new record list and the returned pair `(is_new, added)` are those of the specification `Merge`. |
| Registry.AppendMissingSpec | spiders/generate_team_pages.py:100-103 | Every appended id is non-empty, comes from the input, was missing, and appears once. Every non-empty input id ends up present. |
| Registry.AppendMissingKeepsOrder | spiders/generate_team_pages.py:100-103 | The appended ids keep their input order. |
| Registry.AppendMissingNothingNew | spiders/generate_team_pages.py:100-103 | If every non-empty input id is present, nothing is appended. |
| Registry.MergeIsAdditive | spiders/generate_team_pages.py:83-122 | `is_new` holds exactly when no record has the id. At most one record is appended. Every record keeps all its fields, and its tournament list only grows at the end. Records with other ids are unchanged. |
| Registry.MergeNewTeam | spiders/generate_team_pages.py:105-122 | An unknown id gets one record at the end. That record has the defaults: slug = id, empty state and stadium, founded 0, each unless given. It also has the logo path, black/white colours and the input list verbatim. The call returns `(True, input)`. |
| Registry.MergeExistingTeam | spiders/generate_team_pages.py:97-104 | A known id changes only the tournaments of its first record: the old list followed by `added`. The call returns `(False, added)`. |
| Registry.MergeIdempotent | spiders/generate_team_pages.py:83-122 | A second identical call returns `(False, [])` and changes nothing. |
| Registry.MergeUpdateKeepsNoDuplicates | spiders/generate_team_pages.py:100-103 | The update path never puts a duplicate into a tournament list. |
| Registry.MergeKeepsWellFormed | spiders/generate_team_pages.py:83-122 | Unique ids and duplicate-free tournament lists are preserved, when a new id comes with a duplicate-free list. |
| Registry.InsertAndUpdateDiffer | spiders/generate_team_pages.py:97-122 | The insert path keeps empty and repeated ids that the update path drops. |
| Registry.GremioExample | spiders/generate_team_pages.py:83-122 | An insert then an update gives one record listing both tournaments. |
| Registry.FindFirstSameIds | spiders/generate_team_pages.py:76-81 | The lookup depends only on the ids of the records. |
| Registry.MergeRegisters | spiders/generate_team_pages.py:83-122 | After the call, the id's first record lists every (non-empty) input tournament. |
| Registry.MergeKeepsRegistered | spiders/generate_team_pages.py:83-122 | No call unregisters an id or removes a tournament. |
| Registry.MergeRegisteredIsNoop | spiders/generate_team_pages.py:97-104 | Merging tournaments already listed returns `(False, [])` and changes nothing. |
| Links.CollectTeamLinks | spiders/generate_team_pages.py:137-158 | The scan loop builds the dictionary `Collected(links)`. |
| Links.CollectedKeys | spiders/generate_team_pages.py:150-158 | The keys are exactly the texts of the accepted links. |
| Links.CollectedLastWins | spiders/generate_team_pages.py:155-158 | Each value is the entry of the last accepted link with that text. |
| Links.EntryWellFormed | spiders/generate_team_pages.py:150-158 | An accepted link has a text longer than 2 characters that is not a number. Its entry is named by that text and points at `https://pt.wikipedia.org/wiki/…`. |
| Links.CollectedEntriesWellFormed | spiders/generate_team_pages.py:150-158 | Every stored entry is keyed by its own name and has a Wikipedia article URL. |
| Links.ColonFreeHrefIsArticle | spiders/generate_team_pages.py:150 | A `/wiki/` href without a colon is never in an excluded namespace. |
| Links.FutebolTextIndicatorIsDead | spiders/generate_team_pages.py:151-153 | "Futebol" in the text-indicator list can never admit a link. |
| Links.AcceptedExample | spiders/generate_team_pages.py:150-155 | A club link from a league table is accepted. |
| Links.RejectedExamples | spiders/generate_team_pages.py:150-151 | A file link, a year link and a two-letter text are rejected. |
| TeamPages.PageDirectory.CreateTeamPage | spiders/generate_team_pages.py:167-178 | The result is `True` exactly when `<slug>.html` did not exist. Afterwards the page exists. |
| TeamPages.ImageMembers | spiders/generate_team_pages.py:172-173 | A path is among the pages of a table exactly when it is some row's page. |
| TeamPages.RegisterAllCounts | spiders/generate_team_pages.py:339-346 | The registry grows by exactly the new-team counter. New plus updated never exceeds the number of rows. |
| TeamPages.RegisterAllRegisters | spiders/generate_team_pages.py:313-346 | After the loop every row's id is registered with every league. |
| TeamPages.RegisterAllNoop | spiders/generate_team_pages.py:339-346 | If every id is already registered with every league, the loop changes nothing and both counters stay 0. |
| TeamPages.RegisterAllIdempotent | spiders/generate_team_pages.py:313-346 | A second loop over the same rows changes nothing and counts nothing. |
| TeamPages.RegisterAllKeepsWellFormed | spiders/generate_team_pages.py:313-346 | The loop preserves unique ids and duplicate-free tournament lists. |
| TeamPages.SecondRunChangesNothing | spiders/generate_team_pages.py:293-346 | Running the generator twice over the same table adds and updates nothing the second time. |
| TeamPages.GeneratorRegistersEveryTeam | spiders/generate_team_pages.py:329-340 | After a run, every team of the table is registered under its slug with `LEAGUES`. |
| TeamPages.SummariesKeys | spiders/generate_team_pages.py:326 | The keys of `all_teams` are the names of the table, and each is mapped to `LEAGUES`. |
| TeamPages.SortedNames | spiders/generate_team_pages.py:377 | The names are strictly increasing in code-point order, and they are exactly the keys. |
| TeamPages.CreateTeamsIndex | spiders/generate_team_pages.py:372-390 | One entry per key of the dictionary, in ascending name order. Each entry joins the leagues with ", " and has the wiki URL and the link `<slug>.html`. |
| TeamPages.IndexInOrder | spiders/generate_team_pages.py:377-390 | The entries built over the sorted names are sorted and cover exactly the dictionary. |
| TeamPages.StrictlySortedUnique | spiders/generate_team_pages.py:377 | Two strictly sorted lists with the same elements are equal, so the sorted order is unique. |
| TeamPages.ProcessTeams | spiders/generate_team_pages.py:306-348 | After the loop, the page set is the old one plus every row's page. `created` counts the pages that were missing, and `created + skipped` is the number of rows. The registry and the two registry counters are those of `RegisterAll`. `all_teams` is `Summaries(table)`. |
| TeamPages.GenerateAllTeamPages | spiders/generate_team_pages.py:293-370 | Everything `ProcessTeams` states, except that the directory also gains `index.html`. The index has exactly one entry per key of `all_teams`, in ascending name order. Each entry is built from that team's summary, and every index link points at a page that exists. |
| TeamPages.PageDirectory.WriteIndex | spiders/generate_team_pages.py:374-415 | `index.html` exists afterwards, in the same directory as the team pages, and no other file changes. |
| TeamPages.ProcessRow | spiders/generate_team_pages.py:313-346 | One pass of the loop over a row (page, summary, registry record) carries the whole loop state, `RowsDone`, from `i` rows to `i + 1`. |
| TeamPages.SummaryRow | spiders/generate_team_pages.py:326 | Recording a row's summary gives the `all_teams` of one more row: its name maps to `LEAGUES` and its wiki URL. |
| TeamPages.PageRow | spiders/generate_team_pages.py:319-323 | One row's page step keeps the created/skipped invariant. |
| TeamPages.RegisterRow | spiders/generate_team_pages.py:328-346 | One row's registry step keeps the registry-counter invariant. |
| TeamPages.IndexLinksArePages | spiders/generate_team_pages.py:372-390 | Every `href` of the index names a page created or found by the loop. |
| TeamPages.CountStep | spiders/generate_team_pages.py:320-323 | The created counter grows by one exactly when the page was new. |
| Text.LeastExists | spiders/generate_team_pages.py:377 | Every non-empty set of names has a least element in code-point order. |
| Text.StrLessTransitive | spiders/generate_team_pages.py:377 | The string order is transitive. |
| Text.StrLessTotal | spiders/generate_team_pages.py:377 | Any two distinct strings are ordered. |
| Text.ContainsLower | spiders/generate_team_pages.py:151 | A substring stays a substring after both strings are lowercased. |
| Matches.Filter | app.js:246-268 | `Array.prototype.filter` keeps exactly the elements that pass. |
| Matches.FilterIsSubsequence | app.js:246-268 | The filtered list keeps the original order. |
| Matches.FilterFusion | app.js:246-269 | Filtering twice equals filtering once with the conjunction. |
| Matches.NormalizeIsNormal | app.js:139-144 | `normalizeString` output holds no upper-case letter, no precomposed letter and no combining mark. |
| Matches.NormalizeIdempotent | app.js:139-144 | `normalizeString` is idempotent. |
| Matches.NormalizeExample | app.js:139-144 | "São" normalises to "sao". |
| Matches.Decompose | app.js:142 | NFD splits exactly the precomposed letters into an ASCII letter and a combining mark, and leaves other characters unchanged. |
| Matches.FilterResultIsKept | app.js:242-269 | The chained team and search filters equal one filter by "passes both active tests". |
| Matches.FilterResultSpec | app.js:242-269 | The result is an order-preserving subsequence of the match list. It holds exactly the matches that pass the active filters (`'todos'` and the empty term switch a filter off), and it is the whole list when both are off. |
| Matches.SplitColonRoundTrip | app.js:216-217 | `split(':')` is undone by `join(':')`, and no field holds a colon. |
| Matches.TwoDigits | app.js:216-217 | A zero-padded two-digit numeral reads back as its value. |
| Matches.ClockKey | app.js:216-218 | For every `"HH:MM"` the comparator key is `HH * 60 + MM`. |
| Matches.InsertBy | app.js:215-219 | Inserting into a sorted list keeps it sorted and adds exactly one element. |
| Matches.SortBy | app.js:215-219 | The sort result is ordered by key and is a permutation of the input. |
| Matches.SortByStable | app.js:215-219 | Elements with equal keys keep their relative order (ES2019 stable sort). |
| Matches.SortByTimeSpec | app.js:215-219 | The sorted copy is a permutation of the matches, in ascending minutes after midnight, with ties in their original order. |
| Browser.App.Init | app.js:323-328 | Initially the filter is `'todos'`, the search box is empty, and the filtered list is the whole list, rendered. |
| Browser.App.RenderMatches | app.js:202-223 | The container holds the cards of the matches sorted by time, or the empty state is shown for an empty list. No other state changes. |
| Browser.App.BuildCards | app.js:221-223 | The `forEach` appends one card per sorted match, in order. |
| Browser.App.FilterMatches | app.js:242-273 | `filteredMatches` becomes the filter result over the whole list. That result is rendered, and the page state stays valid. |
| Browser.App.HandleSearch | app.js:283-286 | The search box takes the value, and the list is filtered with the active chip. |
| Browser.App.HandleTeamFilter | app.js:288-300 | A click outside a chip changes nothing. A chip becomes the active filter and is applied together with the search box value. |
| Browser.App.HandleDateChange | app.js:302-320 | The day moves back for "prev" and forward otherwise. The same filtered list is rendered again. |

## Left out

- Network access and HTML parsing (`requests`, BeautifulSoup) are not modelled. The league-table links are a parameter of `Links.CollectTeamLinks`, and a failed request (which returns `{}`) is not modelled.
- The HTML text of the team pages and of the index page is not modelled, and neither are `print`, `time.sleep` and the `__main__` block. Only the page paths, the index order, the leagues text, the wiki URL and the link target are modelled.
- Reading and writing `teams.json` and `teams_data.json` are not modelled. A missing `teams.json` is the `Registry.TeamRegistry.Empty` constructor, an existing one is `Loaded`, and the saved data is the final `teams` field and `Summaries`.
- The generator's built-in `TEAMS` table is the constant `TeamPages.Teams`, kept for reference only: no lemma is specialised to it. `GenerateAllTeamPages` takes the table as a parameter, so its properties hold for any table, including this one.
- The directory records which files exist, not what they hold. A team whose slug is `index` gets the page path `index.html`, which the index page then overwrites. The model shows only that the path exists, so the next run skips that team's page, as the source does.
- Records whose dict lacks the `id` or `tournaments` key, and a `teams.json` without a `teams` key, are not modelled: every record has all its fields.
- `get_team_by_id` returns a reference to the record dict. The model returns the record's position, and the in-place update replaces that record in the `teams` sequence.
- Registry.TeamRegistry.AddOrUpdateTeam: ids are strings, so the `TypeError` that a missing id (`None`) would raise when the logo path is built is not modelled.
- `download_logos.py` is not part of this model.
- Case mapping covers ASCII and Latin-1 only, and `normalize('NFD')` covers only the precomposed Latin-1 lower-case letters and their capitals. Other Unicode letters are left as they are.
- Links.IsTeamLikeText: Python's `str.isdigit()` also accepts non-ASCII digits; the model accepts only `0-9`.
- The DOM, the match-card HTML, the click handlers on cards, `navigateToMatchDetail`, `formatDate`, `updateDateDisplay`, the loading indicator, `console.log` and the 500 ms `setTimeout` are not modelled. The date is an integer day number, and the delayed re-render happens at once.
- Matches.KeyOf: `Number` also accepts whitespace, signs and other numeric forms, and a time that does not parse gives `NaN`, so the JavaScript comparator's order is then left to the engine. The model reads only ASCII digit fields and gives unparsable times the key 0.
- Matches.SortByTime: the sort is modelled as the unique stable order (insertion sort) that ES2019 requires of `Array.prototype.sort`, not the engine's algorithm.
- The literal `mockMatches` list is the constant `Matches.MockMatches`. Its sorted order is not computed in the model, but `ClockKey` gives the key of every `"HH:MM"` time in it.
- TeamPages.SortedNames: `sorted()` is modelled as a selection loop that repeatedly takes the least remaining key. Only its result is claimed, not Python's algorithm.
- `extract_teams_from_league` is modelled only through its link filter and the collecting loop; the league URLs it would fetch are not part of the model.

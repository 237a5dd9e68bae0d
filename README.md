# DCAM Paradise binge calculator — selection and recommendation engine in Dafny

This project models the logic inside the `BingeCalculator` React component of DCAM Paradise
(`src/BingeCalculator.js`). The component shows a fixed catalog of DC animated movies. The user
builds a selection by clicking movies, and can save, clear and restore it. A greedy recommender
fills a time budget. The component also shows the total runtime of the selection and a view of
the catalog filtered by search text and hero tag and sorted by id or title.

Files and modules:

- `catalog.dfy`, module `Catalog`: the `Movie` record, what makes a catalog valid (unique ids,
  positive runtimes), `Array.prototype.filter` as `Filter`, subsequences, duplicate-freedom and
  runtime sums, with their lemmas.
- `selection.dfy`, module `Selection`: the list `toggleMovie` installs, the id snapshot a save
  writes and the list the mount effect restores from it, with the toggle and round-trip laws.
- `recommender.dfy`, module `Recommender`: the greedy pass as a specification function
  (`GreedyFrom`/`Greedy`). The loop of `generateRecommendation` is the method `Recommend`, proved
  equal to it. Lemmas cover the budget bound, order, the keep/skip rule and negative budgets.
- `aggregator.dfy`, module `Aggregator`: `totalMinutes`, `hours` and `minutes`, and how the total
  reacts to toggles, reordering and a save/restore.
- `filter_sort.dfy`, module `FilterSort`: `filteredMovies`. It filters on a case-insensitive title
  search and on the hero tag (`"All"` is the wildcard), then sorts stably by id or, for `"alpha"`,
  by title.
- `binge_calculator.dfy`, module `BingeCalculator`: the class `BingeStore` holds the component's
  state (`selected`, `recommendation`, the saved storage entry). Each handler is a method that
  updates it atomically and keeps the invariant that the selection holds catalog movies, each
  once. Two client methods chain the handlers: save then reload, and clear then reload.

Where the system's design document and the code differ, the model follows the code:

- Budget guard. `if (!timeLimit) return` skips only a budget of 0 or NaN. A negative budget still
  runs the loop. It yields an empty list, and that list replaces the selection.
- Restore order. Restoring gives the saved movies in catalog order, not in the order they were
  saved. So save-then-restore is a permutation of the selection, not the selection itself.
- Double toggle. Toggling an unselected movie twice restores the selection exactly. Toggling a
  selected movie twice keeps the same movies but moves that one to the end.
- Progress ratio. The design document asks for a guard against an empty catalog. The code has none. The
  ratio is left out (see below).

## Model

| member | source | states |
|---|---|---|
| Catalog.Filter | src/BingeCalculator.js:21 | `Array.prototype.filter`: the result is no longer than the input, every element of it is an input element that passes the test, and every input element that passes is kept |
| Catalog.FilterMembership | src/BingeCalculator.js:21 | a value is in the filtered list exactly when it is in the input and passes the test |
| Catalog.Sum | src/BingeCalculator.js:66 | the `reduce` that adds runtimes from 0; it is never negative when no runtime is |
| Selection.Other | src/BingeCalculator.js:28 | the removal callback `m !== movie`: rejects the toggled movie and accepts every other one |
| Selection.SavedIn | src/BingeCalculator.js:20-21 | the restore callback: accepts a record exactly when its id is among the saved ids |
| Selection.Without | src/BingeCalculator.js:28 | the filtered list is no longer than the selection and holds exactly its members other than the movie |
| Selection.WithoutIsSubseq | src/BingeCalculator.js:28 | removing keeps the other movies in their order: a subsequence of the selection |
| Selection.Toggled | src/BingeCalculator.js:26-32 | the toggled movie is selected afterwards exactly when it was not before, and every other movie keeps its status |
| Selection.Restored | src/BingeCalculator.js:20-21 | the restored list is no longer than the catalog and holds exactly the catalog records whose id was saved |
| Selection.WithoutAt | src/BingeCalculator.js:28 | removing a movie that occurs once at position i yields the selection with that position cut out |
| Selection.ToggleAbsentAppends | src/BingeCalculator.js:29-30 | toggling an unselected movie appends it at the end |
| Selection.TogglePresentRemoves | src/BingeCalculator.js:27-28 | toggling a selected movie removes it and keeps the others in order; a duplicate-free list shrinks by exactly one |
| Selection.ToggleKeepsNoDup | src/BingeCalculator.js:26-32 | a toggle never introduces a duplicate |
| Selection.ToggleTwiceAbsent | src/BingeCalculator.js:26-32 | toggling an unselected movie twice gives back exactly the original selection |
| Selection.ToggleTwicePresent | src/BingeCalculator.js:26-32 | toggling a selected movie twice yields the others in order followed by that movie: the same members, and a permutation when there are no duplicates |
| Selection.Snapshot | src/BingeCalculator.js:35 | the saved list has one id per selected movie, position by position |
| Selection.RestoredSpec | src/BingeCalculator.js:20-21 | the restored list is a subsequence of the catalog (catalog order, not save order); with unique catalog ids it holds no duplicate |
| Selection.SaveRestoreRoundTrip | src/BingeCalculator.js:17-37 | restoring what was saved gives a permutation of the selection, in catalog order |
| Recommender.GreedyFrom | src/BingeCalculator.js:55-60 | the pass over the remaining movies keeps some of them, never more than it scans |
| Recommender.Greedy | src/BingeCalculator.js:50-60 | the recommendation holds only catalog movies, and its runtimes fit into any non-negative budget |
| Recommender.Recommend | src/BingeCalculator.js:50-60 | the loop's list equals the greedy specification, and its runtime sum is within a non-negative budget |
| Recommender.GreedyWithinBudget | src/BingeCalculator.js:56-58 | starting within the budget, the running sum plus the kept runtimes never exceeds the limit |
| Recommender.GreedyIsSubseq | src/BingeCalculator.js:55-60 | the kept movies are a subsequence of the scanned movies, in original order |
| Recommender.GreedyFromSnoc | src/BingeCalculator.js:55-60 | scanning one more movie appends it exactly when it fits on top of the kept sum, and otherwise leaves the result unchanged |
| Recommender.GreedyPrefixStep | src/BingeCalculator.js:55-60 | movie i is kept if and only if the sum of the movies kept before it plus its runtime is within the limit; a skipped movie would have exceeded it and the scan continues |
| Recommender.GreedyNegativeBudget | src/BingeCalculator.js:47-60 | with positive runtimes, a budget below the running sum keeps nothing |
| Recommender.GreedySpec | src/BingeCalculator.js:50-62 | for a valid catalog the recommendation is a duplicate-free subsequence of catalog movies, within a non-negative budget and empty for a negative one |
| Recommender.GreedyExample | src/BingeCalculator.js:55-60 | runtimes 60, 50 and 30 with a 100-minute budget keep the first and third movies, 90 minutes |
| Aggregator.TotalMinutes | src/BingeCalculator.js:66 | the total of an empty selection is 0; with positive runtimes it is at least one minute per movie |
| Aggregator.Hours | src/BingeCalculator.js:67 | hours is the floor of the total divided by 60 |
| Aggregator.Minutes | src/BingeCalculator.js:68 | minutes is JavaScript's remainder: below 60 in magnitude, with the sign of the total, and congruent to it modulo 60 |
| Aggregator.HoursMinutesReconstruct | src/BingeCalculator.js:66-68 | for a non-negative total, hours*60 + minutes == total, with 0 <= minutes < 60 |
| Aggregator.SumAtLeastLength | src/BingeCalculator.js:66 | a sum of positive runtimes is at least the number of movies |
| Aggregator.SumPermutation | src/BingeCalculator.js:66 | reordering the selection does not change the total |
| Aggregator.SumWithout | src/BingeCalculator.js:66 | removing a movie that occurs once subtracts its runtime from the total |
| Aggregator.TotalAfterToggle | src/BingeCalculator.js:66 | after a toggle the total rises by the movie's runtime when it is selected and falls by it when it is deselected |
| Aggregator.TotalAfterRestore | src/BingeCalculator.js:66 | a saved and restored selection has the same total as before the save |
| FilterSort.LowerChar | src/BingeCalculator.js:75 | no capital is left; a capital becomes the lower-case letter at the same alphabet position; letters stay letters; every other character is unchanged |
| FilterSort.Lower | src/BingeCalculator.js:75 | lower-casing keeps the length and lower-cases each character in place |
| FilterSort.LowerIdempotent | src/BingeCalculator.js:75 | lower-casing twice equals lower-casing once |
| FilterSort.Contains | src/BingeCalculator.js:75 | `includes`: the empty text is contained in every title, and no text longer than the title is |
| FilterSort.ContainsAt | src/BingeCalculator.js:75 | the text is contained exactly when it is a prefix of the title at some offset k with k + its length within the title (both directions) |
| FilterSort.StartsWith | src/BingeCalculator.js:75 | the text is a prefix of the title |
| FilterSort.MatchesSearch | src/BingeCalculator.js:75 | `matchesSearch`: the lower-cased title contains the lower-cased search text |
| FilterSort.SearchIgnoresCase | src/BingeCalculator.js:75 | the search ignores case: lower-casing the search text, or the title, first does not change whether a movie matches |
| FilterSort.MatchesTag | src/BingeCalculator.js:77 | `matchesTag`: the active tag is "All" or one of the movie's tags |
| FilterSort.Matches | src/BingeCalculator.js:73-79 | the filter callback: a movie passes when it matches both the search and the tag |
| FilterSort.EmptySearchMatchesAll | src/BingeCalculator.js:75 | the empty search text matches every title |
| FilterSort.TitleLe | src/BingeCalculator.js:81 | `a.title.localeCompare(b.title) <= 0`, as lexicographic order on character codes |
| FilterSort.TitleLeTotal | src/BingeCalculator.js:81 | any two titles are comparable |
| FilterSort.TitleLeTransitive | src/BingeCalculator.js:81 | the title order is transitive |
| FilterSort.InOrder | src/BingeCalculator.js:80-83 | the comparator returns at most 0: titles in order under "alpha", otherwise ids in order |
| FilterSort.InOrderTotal | src/BingeCalculator.js:80-83 | the comparator orders any two movies one way or the other, for either sort type |
| FilterSort.InOrderTransitive | src/BingeCalculator.js:80-83 | the comparator's order is transitive for either sort type |
| FilterSort.Insert | src/BingeCalculator.js:80-83 | inserting adds exactly that movie to the list's members |
| FilterSort.SortMovies | src/BingeCalculator.js:80-83 | sorting is a permutation |
| FilterSort.InsertSorted | src/BingeCalculator.js:80-83 | inserting into a sorted list keeps it sorted |
| FilterSort.SortMoviesSorted | src/BingeCalculator.js:80-83 | the sorted list is ordered by the comparator of the active sort type |
| FilterSort.SortMoviesIdempotent | src/BingeCalculator.js:80-83 | sorting a sorted list leaves it unchanged, so sorting twice equals sorting once |
| FilterSort.HeadIsFirst | src/BingeCalculator.js:82 | in a list with increasing ids the head has the smallest id, and no other member shares it |
| FilterSort.SortedByIdUnique | src/BingeCalculator.js:82 | two lists with the same members and strictly increasing ids are equal, so every correct sort by id gives this order |
| FilterSort.FilteredMovies | src/BingeCalculator.js:72-83 | the view is no longer than the catalog and shows only catalog movies that match both the search and the tag |
| FilterSort.FilteredMoviesSpec | src/BingeCalculator.js:72-83 | the view holds exactly the catalog movies matching search and tag (sound and complete), each once, as a permutation of the filtered catalog, sorted; with the id order the ids strictly increase |
| FilterSort.WildcardShowsAll | src/BingeCalculator.js:72-79 | with the tag "All" and empty search text the view is a permutation of the whole catalog |
| FilterSort.UnknownTagShowsNothing | src/BingeCalculator.js:77 | a tag other than "All" that no movie carries gives an empty view |
| BingeCalculator.BudgetAccepted | src/BingeCalculator.js:47-48 | `!timeLimit` does not return: the parsed budget is a number (not NaN) other than 0 |
| BingeCalculator.BingeStore.constructor | src/BingeCalculator.js:7-15 | the component mounts with an empty selection, no recommendation, and the stored entry as it was |
| BingeCalculator.BingeStore.RestoreSaved | src/BingeCalculator.js:17-24 | with a saved entry the selection becomes the restored list; without one it is unchanged; the invariant is kept |
| BingeCalculator.BingeStore.ToggleMovie | src/BingeCalculator.js:26-32 | the selection becomes the toggled list; the movie is selected afterwards exactly when it was not selected before; no duplicates |
| BingeCalculator.BingeStore.HandleSave | src/BingeCalculator.js:34-37 | the stored entry becomes the ids of the selection; the selection is unchanged |
| BingeCalculator.BingeStore.HandleClear | src/BingeCalculator.js:39-42 | the selection is empty and the stored entry is removed |
| BingeCalculator.BingeStore.GenerateRecommendation | src/BingeCalculator.js:46-63 | a budget of 0 or NaN changes nothing; any other budget sets both recommendation and selection to the greedy list, so a negative budget empties the selection; storage is untouched |
| BingeCalculator.SaveAndReload | src/BingeCalculator.js:17-37 | saving and mounting again on the stored entry brings back a permutation of the selection, in catalog order |
| BingeCalculator.ClearAndReload | src/BingeCalculator.js:17-42 | after a clear, the next mount starts with an empty selection |

## Left out

- Rendering (JSX, styles, the recharts bar chart, hover tooltips, src/BingeCalculator.js:88-236): presentation only, nothing to prove.
- Browser storage, `JSON.stringify`/`JSON.parse` and `alert` (src/BingeCalculator.js:18, 20, 35-36, 41): this is I/O. The stored entry is an optional list of ids. Malformed stored text, which would make `JSON.parse` throw, is not modelled.
- `parseInt` (src/BingeCalculator.js:47): string parsing. The budget arrives already parsed as `Option<int>`, with `None` for NaN.
- `progressPercentage` (src/BingeCalculator.js:69): floating-point division. It has no guard for an empty catalog.
- Locale collation and Unicode case mapping (src/BingeCalculator.js:75, 81): `localeCompare` is modelled as lexicographic order on character codes, and `toLowerCase` as ASCII lower-casing.
- FilterSort.FilteredMoviesSpec: the sort is stable, which matters for movies with equal titles under "alpha". Stability is not stated. Under the id order the result is unique (FilterSort.SortedByIdUnique), so there stability does not matter.
- BingeCalculator.BingeStore.ToggleMovie: requires a catalog movie. The handler itself accepts any value, but its only caller (the movie grid, src/BingeCalculator.js:192-195) passes movies from the catalog. Reference identity in `includes` and `!==` is modelled as equality of records.
- Aggregator.HoursMinutesReconstruct: holds only for non-negative totals. For a negative total, `Math.floor` and JavaScript's truncating `%` do not recombine. With positive runtimes the total is never negative.
- React state scheduling and batching: each handler is one atomic update of the store's fields.
- The `year` and `poster` fields and loading `dcam_data.json` (src/BingeCalculator.js:2): the catalog is an immutable parameter, and only `id`, `title`, `runtime` and `tags` are modelled.
- The `heroFilters` button list (src/BingeCalculator.js:86): the active tag is any string, and `"All"` is the wildcard.
- JavaScript numbers are doubles. Integers are modelled unbounded, which agrees below 2^53.
- src/App.js: routing and navigation only.

# Meal app core: stores, pantry intersection and selection

A Dafny model of the pure logic under the React views of a recipe-discovery
app. It covers four pieces:

- **Meal-plan store** (`src/utils/mealPlan.js`). A map from ISO date string
  to an ordered list of planned meals. It has an add that trims the name and
  refuses duplicates (same truthy catalog id, or same lower-cased name), and a
  positional remove that deletes a date whose list empties.
- **Liked-meals store** (`src/utils/likes.js`). An ordered list of
  `{id, name, thumb}` records with set semantics by id. It supports a toggle
  and a membership test.
- **Pantry search** (`src/views/Pantry.jsx`). One catalog list per selected
  ingredient. Each list becomes a JavaScript `Map` keyed by meal id, modelled
  with its insertion order in `IdIndex`. The result is the meals whose id is
  in every map, taken from the first map in that map's order. The selection
  effect is modelled as a state machine. A generation counter stands for each
  run's `ignore` flag: a run is ignored once a later selection change or the
  unmount has cleaned it up.
- **Pantry sidebar** (`src/components/PantrySidebar.jsx`). Toggle and
  clear-all on the selected ingredient names, and the search filter on the
  ingredient list.

Storage is a value, not a device. A store operation receives what reading
its key produced (`Storage.Stored`: missing, unparseable or parsed). It
returns the value the source function returns, together with the value it
writes (`None` when it writes nothing). The generated `_id` of a planned meal
is a parameter. Network responses are parameters too: each is a settled
per-ingredient response, either failed or received with a possibly-null
`meals` field.

Modules: `Optional`, `Seqs` (order-preserving filter, subsequence,
drop-by-index), `Text` (JavaScript `trim`, ASCII `toLowerCase`, `includes`),
`Storage`, `Catalog`, `MealPlan`, `Likes`, `PantrySidebar`, `IdIndex`,
`Pantry`, `PantryEffect`.

Where the code differs from a natural reading of the design, the model
follows the code:

- Duplicate detection compares ids by JavaScript truthiness, not by being
  non-null. Two entries whose id is the empty string are not duplicates. The
  per-day invariant `MealPlan.DayOk` is stated that way.
- On a failed fetch the selection effect sets the error and leaves the shown
  meals as they were; it does not empty them.
- Within the first ingredient's list, the record kept for an id is the LAST
  one with that id. `Map.set` overwrites the value in place, so the record
  stays at the id's first position.
- Clearing the selection only empties the meal list; see Findings.

## Model

| member | source | states |
|---|---|---|
| `MealPlan.LoadPlan` | src/utils/mealPlan.js:4-6 | a missing or unparseable stored plan reads as the empty plan; a parsed one is returned as stored |
| `MealPlan.AnyDuplicate` | src/utils/mealPlan.js:21-24 | the `some` scan is true exactly when some entry of the day shares the new meal's truthy id or, having a name, its lower-cased trimmed name |
| `MealPlan.AddMealToDate` | src/utils/mealPlan.js:12-38 | a blank name returns the loaded plan and writes nothing; otherwise the add is refused with the plan unchanged and nothing written exactly when the new entry would duplicate one on that day; an accepted add writes and returns a plan whose only change is that day's list, which becomes the old list (empty if absent) plus one entry at the end with the trimmed name, id/thumbnail defaulting to null and the given or fresh `_id` |
| `MealPlan.AddKeepsPlanOk` | src/utils/mealPlan.js:21-35 | add preserves the plan invariant: every date has a non-empty list with no two duplicate entries |
| `MealPlan.AddTwiceKeepsOne` | src/utils/mealPlan.js:21-25 | adding the same meal again after it was accepted is refused, so that day keeps one copy |
| `Seqs.DropIndex` | src/utils/mealPlan.js:43 | filtering out position `idx` removes exactly that element and keeps the rest in order; a negative or too-large index removes nothing |
| `MealPlan.RemoveMealFromDate` | src/utils/mealPlan.js:40-48 | always writes and returns the updated plan; that date maps to the remaining list if it is non-empty and is absent otherwise (absent stays absent); every other date keeps its list |
| `MealPlan.DropKeepsDayOk` | src/utils/mealPlan.js:43 | removing one position keeps a day free of duplicates |
| `MealPlan.RemoveKeepsPlanOk` | src/utils/mealPlan.js:42-45 | remove preserves the plan invariant; in particular no date is left with an empty list |
| `Text.Trim` | src/utils/mealPlan.js:17 | the result is a slice of the input with only white space outside it, starts and ends with a non-space, and is empty exactly when the input is all white space |
| `Likes.GetLikedMeals` | src/utils/likes.js:9-16 | a missing or unparseable stored list reads as the empty list |
| `Likes.HasId` | src/utils/likes.js:19 | the `some` scan is true exactly when some record has the id |
| `Likes.IsLiked` | src/utils/likes.js:18-20 | true exactly when a stored record has the id |
| `Seqs.Filter` | src/utils/likes.js:28 | the kept elements are a subsequence of the input (order kept), contain exactly the elements satisfying the predicate with their multiplicities, and stay duplicate-free |
| `Likes.ToggleLike` | src/utils/likes.js:22-33 | returns true exactly when no record had the meal's id; then it writes the old list plus the projected record at the end; otherwise it writes the old list in order without every record of that id; afterwards `isLiked` equals the returned state; distinct ids stay distinct |
| `Likes.FilterKeepsDistinctIds` | src/utils/likes.js:28 | dropping records from a list with distinct ids leaves distinct ids |
| `Likes.ToggleTwiceRestores` | src/utils/likes.js:27-29 | liking an unliked meal and toggling it again restores the stored list exactly |
| `PantrySidebar.Toggle` | src/components/PantrySidebar.jsx:37-43 | an unselected name is appended; a selected one loses every occurrence with the rest kept in order; only the toggled name changes membership; no duplicates are introduced |
| `PantrySidebar.ToggleTwiceRestores` | src/components/PantrySidebar.jsx:39-41 | toggling an unselected name twice restores the selection |
| `PantrySidebar.ClearAll` | src/components/PantrySidebar.jsx:45-47 | afterwards no name is selected |
| `Text.Lower` | src/utils/mealPlan.js:23 | same length; each ASCII upper-case letter becomes its lower-case partner, every other character is kept, and no ASCII upper-case letter remains |
| `Text.LowerIdempotent` | src/components/PantrySidebar.jsx:30-33 | lower-casing an already lower-cased text changes nothing |
| `Text.Includes` | src/components/PantrySidebar.jsx:33 | true exactly when the needle occurs at some position of the text |
| `PantrySidebar.Filtered` | src/components/PantrySidebar.jsx:29-35 | a query that trims to nothing returns the list unchanged; otherwise the result is a subsequence of the ingredients holding exactly those with a name whose lower-cased form contains the trimmed, lower-cased query, each with all its occurrences |
| `Pantry.MealsOf` | src/views/Pantry.jsx:45 | a null `meals` field counts as the empty list |
| `IdIndex.Set` | src/views/Pantry.jsx:68 | after `set` the key maps to the given meal; a key already present keeps its position, a new key goes last, and every other key keeps its presence and value |
| `IdIndex.Build` | src/views/Pantry.jsx:66-70 | the map has one key per distinct id of the list, keys in first-occurrence order, each mapped to the last meal with that id |
| `Pantry.KeepCommon` | src/views/Pantry.jsx:73-77 | the surviving ids are a subsequence of the first map's keys, exactly those every other map has, and stay duplicate-free |
| `Pantry.FilterKeepsOrder` | src/views/Pantry.jsx:76 | one filtering round keeps the ids in first-occurrence order |
| `Pantry.KeepCommonKeepsOrder` | src/views/Pantry.jsx:75-77 | the whole loop keeps the ids in first-occurrence order |
| `Pantry.Records` | src/views/Pantry.jsx:80 | one record per surviving id, looked up in the first map |
| `Pantry.Intersect` | src/views/Pantry.jsx:66-80 | no two results share an id; an id is in the result exactly when every list has it; each result is the last record with its id in the first list; results follow first-occurrence order in the first list |
| `Pantry.OrderedByFirstUnique` | src/views/Pantry.jsx:66-80 | the shape the intersection promises (distinct ids, last records, first-occurrence order) determines the list from its id set |
| `Pantry.SingleIsDedup` | src/views/Pantry.jsx:73-80 | with one ingredient the result is that list deduplicated by id |
| `Pantry.SingleIngredient` | src/views/Pantry.jsx:73-80 | with one ingredient the result equals every list that deduplicates the ingredient's list by id |
| `Pantry.NoMealsEmptiesResult` | src/views/Pantry.jsx:45 | one ingredient with a null `meals` field makes the intersection empty |
| `PantryEffect.Select` | src/views/Pantry.jsx:49-63 | the previous run is superseded and the new one gets the next generation, in flight exactly when the selection is non-empty; an empty selection only empties the meals and issues no fetch; a non-empty one clears the error, starts loading, keeps the meals and fetches once per selected name in order |
| `PantryEffect.Lists` | src/views/Pantry.jsx:63 | the lists intersected are the normalised responses, one per ingredient |
| `PantryEffect.Settle` | src/views/Pantry.jsx:61-88 | an ignored run writes nothing; a failure (or a run over no lists) sets the error, ends loading and keeps the meals; success ends loading, keeps the error and shows the intersection of the lists (so exactly the ids common to every list, each once, in first-list order); a run that was written to is no longer in flight |
| `PantryEffect.Step` | src/views/Pantry.jsx:49-93 | no event moves the generation back, so a superseded run stays superseded; a selection change always starts a new generation; unmounting leaves the view as it is and supersedes the run in flight |
| `PantryEffect.WithoutRun` | src/views/Pantry.jsx:92 | the events with one run's settling removed and every other event kept, in order and with its multiplicity |
| `PantryEffect.CurrentRunSettles` | src/views/Pantry.jsx:56-88 | a non-empty selection's own run, settling next, ends loading and shows either the intersection of the received lists with the error cleared or the error message with the meals kept |
| `PantryEffect.UnmountSilencesRun` | src/views/Pantry.jsx:91-93 | after unmounting, removing the settling of the run that was in flight from any later history leaves the final state the same |
| `PantryEffect.StaleRunHasNoEffect` | src/views/Pantry.jsx:56-92 | once a run is cleaned up, removing its settling from any later history leaves the final state the same |
| `PantryEffect.LastSelectionWins` | src/views/Pantry.jsx:49-93 | with two overlapping runs, either settling order gives the state of the later run alone |
| `PantryEffect.LoadingOutlivesClearedSelection` | src/views/Pantry.jsx:51-54 | as written: select, clear before the fetch settles, then the fetch settles, and loading is still on |
| `PantryEffect.SelectClearing` | src/views/Pantry.jsx:51-54 | corrected empty case: clearing the selection starts the next generation with no run in flight and shows no meals, no error and no loading; a non-empty selection behaves as written |
| `PantryEffect.ClearedSelectionStaysIdle` | src/views/Pantry.jsx:51-54 | with the corrected empty case, the view stays idle after a clear until the selection changes again |

## Left out

- Browser storage and JSON. `localStorage`, `JSON.parse`, `JSON.stringify` and the cross-tab `storage` event are modelled as the `Stored` value and the written value. The stored JSON text `null` is not distinguished from a parsed list: the source's `getLikedMeals` would return `null` for it.
- The generated entry id. `Date.now()` and `Math.random()` are replaced by the `freshId` parameter.
- Fetching and concurrency. `fetch`, `res.json()` and `Promise.all` are replaced by settled responses. Any rejection, including malformed JSON, is one `Failed` response.
- The ingredient-list effect (`src/views/Pantry.jsx:23-39`). It loads the sidebar's list and writes the same `error` field, and is I/O only.
- Selection persistence under the `pantrySelected` key (`src/components/PantrySidebar.jsx:12-26`). It is storage I/O.
- Text.Lower: lower-cases ASCII letters only. JavaScript's `toLowerCase` is Unicode-aware.
- Dynamic typing. Non-string names or ids, non-array stored values and non-integer remove indexes are not modelled. A missing `strMeal` on a stored entry is the empty string, which is equally falsy.
- The calendar grid in `src/views/MealPlanner.jsx`, which depends on local time and UTC dates, and all rendering, routing, authentication and the language-model proxy.

## Findings

| source | as written | input that shows it | evidently intended | confidence | as-written member | corrected member |
|---|---|---|---|---|---|---|
| src/views/Pantry.jsx:51-54 | with an empty selection the effect only calls `setMeals([])`. The cleanup has already set `ignore` on the run in flight, so that run's `finally` never turns `loadingMeals` off, and a previous error also stays. | select one ingredient, then clear the selection before its fetch settles. The loading indicator stays on next to "Select ingredients to see what you can cook". | clearing the selection also clears the loading state and the error | medium, not executed | `PantryEffect.LoadingOutlivesClearedSelection` (on `PantryEffect.Select`) | `PantryEffect.SelectClearing`, with `PantryEffect.ClearedSelectionStaysIdle` |

The effect machine takes a `Policy` (`AsWritten` or `Clearing`). Its
general lemmas, `StaleRunHasNoEffect` and `LastSelectionWins`, hold under
both policies.

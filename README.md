# store_finder core in Dafny

This is a model of the logic behind a store-locator web application. The
application lists supermarket stores, suggests cities, streets and store
names while the user types, tells whether a store is open now, pages through
the list and shows the most popular cities. It also answers three GraphQL
queries over the store list. The model covers:

- **`Text`**: the string helpers of `utils/helper.ts`. `NormalizeStr` is the
  search key: lower-case, then keep only `a-z` and `0-9`. It also has
  `Capitalize` and the early return of `HighlightMatch`.
- **`SearchHelper`**: the suggestion engine of `utils/searchHelper.ts`.
  - `GetSuggestions` is a method with the source's loop. It updates three
    insertion-ordered maps, one per facet (city, street, store name).
  - `MapToSuggestions` sorts one map's groups stably by descending size and
    turns each group into a suggestion.
- **`OrderedMap`**: the JavaScript `Map` those groupings live in. It is an
  association list:
  - `set` on a present key overwrites that entry in place;
  - `set` on a new key appends it.
- **`Seqs`**: generic sequence facts:
  - `Filter`;
  - `Take`, which is `slice(0, n)`;
  - a stable sort by descending key.
- **`Opening`**: `utils/getOpeningStatus.ts`, with `GetNextOpenTime` as a
  method with the source's bounded loop and early return. "Now" is a weekday
  (0 = Sunday) and a time of day in milliseconds.
- **`StoreState`**: the Pinia store of `stores/store.ts`, as the class
  `StoreStore`:
  - its state fields;
  - the getters `FilteredStores`, `PagedStores` and `MaxPage` as functions of
    the state;
  - `PopularCities` as a method with the counting loop;
  - the actions as methods with `modifies` clauses.
- **`Resolvers`**: the `store`, `storesByCity` and `storesWithFacility` queries
  of `server/graphql/resolvers/store.ts`, as functions of the store list.
- **`StoreTypes`**: the records of `types/store.ts` that these read.

Two behaviours of the code are worth knowing:

- A failed fetch leaves `stores` as it was. The empty list in the error test
  comes from the initial state.
- The scan for the next opening runs `i = 1..7`, so today is checked last, at
  `i = 7`. A store open only today, asked before today's opening time,
  reports today's opening time a week on (`Opening.OnlyOneDay`).

## Model

| member | source | states |
|---|---|---|
| Text.NormalizeStr | utils/helper.ts:22-26 | the result holds only `a-z` and `0-9` and is never longer than the input |
| Text.NormalizeIdempotent | utils/helper.ts:22-26 | normalising twice gives the same string as normalising once |
| Text.NormalizeIsAlnumSubsequence | utils/helper.ts:23-25 | the result is an in-order subsequence of the lower-cased input, and it holds each letter or digit as often as the lower-cased input does and nothing else |
| Text.StripCounts | utils/helper.ts:25 | the `[^a-z0-9]` removal keeps each letter or digit with its multiplicity and drops every other character |
| Text.CapitalizeShape | utils/helper.ts:1-4 | length is kept; the empty string stays empty and only it; the first character is upper-cased and every later one lower-cased |
| Text.CapitalizeIgnoresCase | utils/helper.ts:3 | `capitalize` gives the same result on the lower-cased word and is idempotent |
| Text.CapitalizeExamples | utils/__test__/helper.spec.ts:5-13 | "hello", "HELLO" and "hELLo" give "Hello"; "" gives "" |
| Text.HighlightMatch | utils/helper.ts:5-6 | an empty search text returns the text unchanged; otherwise the result is the replacement step's |
| Text.ContainsEmpty | utils/searchHelper.ts:20-24 | every string contains the empty string, so an empty normalised query matches any value |
| OrderedMap.SetKeys | utils/searchHelper.ts:26 | `set` keeps keys distinct; an existing key keeps its position and a new key is appended last |
| OrderedMap.GetSet | utils/searchHelper.ts:26 | after `set(k, v)`, `get(k)` is `v` and every other key reads as before |
| OrderedMap.MapValuesGetSet | stores/store.ts:39 | mapping the values commutes with `get` and with `set` |
| Seqs.Filter | server/graphql/resolvers/store.ts:46-48 | the result keeps exactly the elements satisfying the predicate, each with its multiplicity, as a subsequence of the input |
| Seqs.SortDescSorted | utils/searchHelper.ts:53 | the sort's result is non-increasing by key |
| Seqs.SortDescStable | utils/searchHelper.ts:53 | two results with equal keys are found at input positions in the same order |
| Seqs.SortDescKeepsTies | utils/searchHelper.ts:53 | for every key, the elements with that key come out in the order they went in, repeated elements included |
| Seqs.Take | stores/store.ts:44 | `slice(0, n)` is the prefix of length `min(n, len)` |
| SearchHelper.GetSuggestions | utils/searchHelper.ts:4-44 | the loop's three maps are the groupings of the stores seen so far, so the result is the City block, then the Street block, then the Store block of `Suggestions` |
| SearchHelper.MapToSuggestions | utils/searchHelper.ts:47-61 | one suggestion per map entry |
| SearchHelper.GroupedSpec | utils/searchHelper.ts:11-37 | a facet's map has distinct keys; each key is a matching raw value whose entry is exactly the stores with that value; keys come in first-occurrence order; every matching store's value is a key |
| SearchHelper.StoresWithCounts | utils/searchHelper.ts:26 | a group holds each store with that facet value as often as the input does, and no other store |
| SearchHelper.StoresWithOrder | utils/searchHelper.ts:26 | a group keeps the input order |
| SearchHelper.SectionEntry | utils/searchHelper.ts:54-60 | each suggestion of a facet has that facet's type and id `<type lower-cased>-<text>`; its count is the number of its stores; its data is exactly the non-empty group of stores with that value; its text matches the query |
| SearchHelper.SectionDistinct | utils/searchHelper.ts:7-9 | no text occurs twice within one facet |
| SearchHelper.SectionSorted | utils/searchHelper.ts:53 | a facet's suggestions come by non-increasing count |
| SearchHelper.SectionTies | utils/searchHelper.ts:26 | equal counts keep the order in which the values first occur in the input |
| SearchHelper.SectionComplete | utils/searchHelper.ts:25-35 | every store whose normalised facet value contains the normalised query has its raw value among that facet's suggestions |
| SearchHelper.SuggestionsEntry | utils/searchHelper.ts:54-60 | every returned suggestion has `id == lowercase(type) + "-" + text`, `count` equal to the number of its stores, and data exactly the stores whose facet value is `text`; the text matches the query |
| SearchHelper.SuggestionsWitness | utils/searchHelper.ts:25-35 | every suggestion's text is the raw facet value of a store of the input that it carries, and it matches the query |
| SearchHelper.SuggestionsByKind | utils/searchHelper.ts:39-43 | all City suggestions come before all Street ones, which come before all Store ones |
| SearchHelper.SuggestionsWithinKind | utils/searchHelper.ts:52-53 | within one type: distinct texts, non-increasing counts, and ties in first-seen order |
| SearchHelper.SuggestionsComplete | utils/searchHelper.ts:11-37 | every matching store and facet has a suggestion of that type whose text is its raw value |
| SearchHelper.SuggestionsNone | utils/__test__/searchHelpers.spec.ts:26-29 | a query that matches no facet of any store yields no suggestions |
| SearchHelper.SuggestionsBlankQuery | utils/searchHelper.ts:20-24 | a query with no letter or digit, the empty query among them, suggests every facet value of every store |
| Opening.GetNextOpenTime | utils/getOpeningStatus.ts:31-45 | the loop returns `NextOpenTime`, the scan of the next seven days |
| Opening.NextOpenTimeFirst | utils/getOpeningStatus.ts:32-44 | the result is the offset-free `opensAt` of the first day `(today + i) % 7`, `i = 1..7`, with an `opensAt`; only `opensAt` is looked at; with no such day it is "Closed" |
| Opening.NoOpeningAllWeek | utils/getOpeningStatus.ts:44 | a week without an opening time gives "Closed" |
| Opening.ScanCoversWeek | utils/getOpeningStatus.ts:32-33 | each weekday is reached by exactly one step `i` of the scan, and today by the last one, `i = 7` |
| Opening.GetOpeningStatus | utils/getOpeningStatus.ts:5-46 | the method returns `StatusAt` for the given weekday and time |
| Opening.OpenIff | utils/getOpeningStatus.ts:12-25 | open exactly when today has both times, both parse, and now lies between them inclusive |
| Opening.OpenUntil | utils/getOpeningStatus.ts:26 | when open, `to` is today's `closesAt` before the first `+` |
| Opening.ClosedMeansScan | utils/getOpeningStatus.ts:29 | when not open, the result is the forward scan |
| Opening.ClosedDay | utils/getOpeningStatus.ts:12-14 | a day with an empty `opensAt` or `closesAt` is never open and gives the forward scan |
| Opening.OnlyOneDay | utils/getOpeningStatus.ts:32-41 | a store open on one weekday only, when not open now, next opens on that weekday, also when it is today |
| Opening.ParseNumber | utils/getOpeningStatus.ts:16-17 | `Number` gives a value exactly for digit strings, and 0 for the empty string |
| Opening.ClockMs | utils/getOpeningStatus.ts:16-23 | an instant exists only when the time has a minute part |
| Opening.ClockOf | utils/getOpeningStatus.ts:16-23 | any `HH:MM` whose parts `Number` reads as hour and minute is `hour * 3600000 + minute * 60000` ms after midnight |
| Opening.ClockNine | utils/getOpeningStatus.ts:16-20 | "09:00" and "09:00:00" are nine hours after midnight |
| Opening.ClockSix | utils/getOpeningStatus.ts:17-23 | "18:00" is eighteen hours after midnight |
| Opening.ClockInvalid | utils/getOpeningStatus.ts:16-20 | a time without a minute part, or with a non-digit, gives no instant |
| Opening.SplitJoin | utils/getOpeningStatus.ts:16 | splitting and joining again gives the string back, and no part holds the separator |
| Opening.StripOffset | utils/getOpeningStatus.ts:26 | the offset-free time is the prefix of the original up to, not including, the first `+`, or all of it when there is none |
| Opening.NextOpenWedThu | utils/__test__/getOpeningStatus.spec.ts:55-62 | open Wednesday and Thursday, the scan from Wednesday finds Thursday's "09:00" |
| Opening.NineToSixToday | utils/__test__/getOpeningStatus.spec.ts:37-62 | on Wednesday 09:00-18:00 it is open until "18:00" exactly between nine and eighteen hours, ends included |
| Opening.WednesdayMorning | utils/__test__/getOpeningStatus.spec.ts:37-44 | Wednesday 10:00 is open until "18:00" |
| Opening.WednesdayOutsideHours | utils/__test__/getOpeningStatus.spec.ts:46-62 | Wednesday 08:00 and 20:00 are closed, next opening "09:00" |
| Opening.ShutWeek | utils/__test__/getOpeningStatus.spec.ts:64-80 | no opening time all week gives "Closed" |
| Resolvers.FindStore | server/graphql/resolvers/store.ts:39-42 | none exactly when no store has the id; otherwise a store of the list with that id |
| Resolvers.FindStoreFirst | server/graphql/resolvers/store.ts:41 | the store found is the first with that id |
| Resolvers.StoresByCity | server/graphql/resolvers/store.ts:44-49 | exactly the stores whose lower-cased city contains the lower-cased argument, with multiplicity, in input order and no longer than the input |
| Resolvers.StoresByCityEmpty | server/graphql/resolvers/store.ts:47 | an empty city returns every store |
| Resolvers.StoresByCityIgnoresCase | server/graphql/resolvers/store.ts:47 | the case of the argument does not matter |
| Resolvers.StoresWithFacility | server/graphql/resolvers/store.ts:51-57 | exactly the stores whose facility is the boolean `true`, with multiplicity, in input order and no longer than the input |
| Resolvers.StoresWithFacilityNotFlag | server/graphql/resolvers/store.ts:55 | a name that is not a boolean facility selects no store |
| Resolvers.TextFacilitiesSelectNothing | types/store.ts:38-42 | `parking`, `locationType`, `pickUpType` and the empty name select no store |
| Resolvers.StoresWithWifi | server/graphql/resolvers/store.ts:53-56 | `wifi` selects exactly the stores with the wifi flag set |
| StoreTypes.FlagNamesExact | types/store.ts:32-47 | a facility name reads a boolean exactly when it is one of the eleven boolean fields |
| StoreState.PageOf | stores/store.ts:29-33 | from page 1 on, at most `size` stores, those from position `(page - 1) * size` on |
| StoreState.PageLength | stores/store.ts:30-32 | a page holds `min(size, len - start)` stores when it starts inside the list, else none |
| StoreState.MaxPageIsCeiling | stores/store.ts:47-49 | for a positive size, the page count is the least number of pages that holds every store, and 0 only for an empty list; size 0 gives no finite count |
| StoreState.PageNonEmptyIff | stores/store.ts:29-33 | with a positive size, a page from 1 on is non-empty exactly when it does not exceed the page count |
| StoreState.PageOfStore | stores/store.ts:29-33 | store `k` is at position `k % size` of page `k / size + 1`, within the page count |
| StoreState.PageZero | stores/store.ts:30-32 | page 0 is empty |
| StoreState.JsSlice | stores/store.ts:32 | a slice is never longer than the list |
| StoreState.CountCitiesAreGroupSizes | stores/store.ts:36-40 | the city counts are the sizes of the city groups, in first-occurrence order |
| StoreState.UnsortedCities | stores/store.ts:36-42 | before sorting: each city once, in first-occurrence order, with exactly its number of stores, at least one |
| StoreState.UnsortedCovers | stores/store.ts:37-40 | every store's city is in the unsorted list with its exact count |
| StoreState.PopularCitiesDistinct | stores/store.ts:35-45 | each popular city's count is the number of stores in that exact city; no city is listed twice |
| StoreState.PopularCitiesOrder | stores/store.ts:43 | counts are non-increasing, ties in first-seen order |
| StoreState.PopularCitiesTop | stores/store.ts:41-44 | a city left out has no more stores than any listed one, and then exactly ten are listed |
| StoreState.PopularCitiesExample | stores/__test__/store.spec.ts:119-127 | one store in NUENEN and two in ST. OEDENRODE give ST. OEDENRODE 2, then NUENEN 1 |
| StoreState.AcceptedPagesHoldStores | stores/store.ts:72-75 | with a positive size, `changeCurrentPage` accepts a page exactly when that page holds stores |
| StoreState.FetchTwice | stores/__test__/store.spec.ts:63-71 | a second fetch returns the first one's stores, and the fetch was called only once |
| StoreState.FetchFails | stores/__test__/store.spec.ts:53-61 | a failed fetch returns [] and keeps the error's message; a later fetch is tried again and succeeds |
| StoreState.StoreStore.constructor | stores/store.ts:6-16 | the initial state: no stores, not loading, no error, not fetched, page 1 of 10, nothing selected; the state invariant holds |
| StoreState.StoreStore.FilteredStores | stores/store.ts:19-27 | a selected suggestion's data; else, with a city, exactly the stores in that city, in order; else all stores |
| StoreState.StoreStore.PagedStores | stores/store.ts:29-33 | the current page of the filtered stores, with its exact length |
| StoreState.StoreStore.MaxPage | stores/store.ts:47-49 | for a positive size, the ceiling of the filtered count over the size, 0 exactly on an empty filter |
| StoreState.StoreStore.PopularCities | stores/store.ts:35-45 | the counting loop returns `PopularCitiesOf(stores)` |
| StoreState.StoreStore.FetchAllStores | stores/store.ts:53-70 | once fetched, it returns the stores and changes nothing; on success it stores the response's stores (or []) and sets `fetched`; on failure it keeps the stores, records the message (or "Unknown error") and returns []; `loading` ends false |
| StoreState.StoreStore.ChangeCurrentPage | stores/store.ts:72-75 | a page below 1 or beyond the page count leaves the state unchanged; otherwise only the page changes |
| StoreState.StoreStore.FilterByCity | stores/store.ts:77-82 | city set, search text and suggestion cleared, page 1 |
| StoreState.StoreStore.ClearSearch | stores/store.ts:84-88 | search text and suggestion cleared, page 1, city kept |
| StoreState.StoreStore.Select | stores/store.ts:90-94 | the suggestion is selected and is then the filtered list; city cleared, page 1, search text kept |

## Left out

- The clock, time zones and daylight saving: `getOpeningStatus` reads the current date itself. Here the weekday and the time of day are parameters, and an `HH:MM` instant is midnight plus those hours and minutes of the same day.
- `Number` on strings with whitespace, signs, decimals, exponents (`1e1`), hexadecimal digits or `Infinity` is not modelled. Such strings give no value, as non-digit strings do. An hour of 24 or more is simply a later offset, as `setHours` rolls it into the next day.
- Full Unicode case mapping: `toLowerCase` and `toUpperCase` are modelled on ASCII letters only.
- Text.HighlightMatch: the regular-expression highlighting after the early return is a parameter, not modelled, because it rests on JavaScript `RegExp` semantics.
- `getMapUrl` is not modelled. It is string interpolation around `encodeURIComponent`.
- Asynchrony, Pinia reactivity and the visibility of `loading` while a fetch is pending. The fetch outcome is a parameter, and a ghost counter records the fetch calls.
- The fetch returning no value at all, which throws a `TypeError` inside the `try`: only a response with or without `stores` and a thrown value are modelled.
- `getStoresData` is not modelled (storage read and JSON parsing), nor the `stores` query, which returns it. The GraphQL schema and the Apollo server/client are not modelled either. The resolvers take the store list as a parameter.
- Debounced watches, focus trapping, body scroll locking and the UI components are DOM and timer code outside the core.
- Store fields the core does not read are not modelled (house number, postal code, coordinates, commerce, website, complex number). The location is reduced to street and city.
- Page numbers are integers. A fractional or `NaN` page passed to `changeCurrentPage` is not modelled.
- `select` copies the suggestion with a spread; as a value, the copy equals the suggestion.
- StoreState.JsSlice: only the length bound is stated; its exact content is stated through StoreState.PageOf and StoreState.PageLength.
- SearchHelper.MapToSuggestions: its own contract gives only the length; what each suggestion holds and the order are proved in SearchHelper.SectionEntry, SectionSorted, SectionTies and SectionDistinct.

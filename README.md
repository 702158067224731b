# University finder: a Dafny model of its client-side state machine

This project models the client-side logic of a university search page. It covers:

- the **listing client** (`lib/api.ts`): which filter entries become query pairs, the
  request URLs, the default base URL, and how a non-success response becomes an error;
- the **filter panel** (`components/UniversityFilters.tsx`): `update`, which trims the
  typed text and collapses whitespace to "unset"; `reset`; and `activeFilterCount`;
- the **finder component** (`components/UniversityFinder.tsx`): the comparison selector
  (a bounded, toggling selection of at most two ids with eviction of the oldest),
  opening and closing the comparison view, the join of the selection with the fetched
  list, client-side pagination with a page size of 3, the "Showing X–Y of N" range, and
  the state changes of a listing load;
- the **comparison table** (`components/CompareModal.tsx`): the nine labelled rows and
  the per-cell rules (`Free`, `#` ranking, `N/A`, `Yes`/`No`, first four courses).

Layout: `wrappers.dfy` (Option, Result and small helpers), `api.dfy` (module `Api`),
`filter_state.dfy` (module `FilterState`), `compare_modal.dfy` (module `CompareModal`),
`finder.dfy` (module `Finder`).

The filter object is modelled as the list of its own entries in insertion order, which
is what `Object.entries` yields. This keeps two things the source relies on: the query
pairs follow that order, and `update` leaves the key present with an explicit
`undefined`. `Api.Criteria` gives the abstract view, a map from filter key to the value
actually set. The component is a class, `Finder.UniversityFinder`, with one field per
piece of `useState` state except `filterOptions` (see "## Left out"). Its methods are
the state updates. A load is split into `StartLoad` (request sent) and
`SettleLoadAsWritten` (outcome applied); `SettleLoad` is the corrected settle of the
finding below. The outcome is an
`Api.FetchUniversities` result, which takes the transport as a function parameter.

Two behaviours of the code are worth stating up front, and the model follows the code in both:

- The page goes back to 1 when a listing request starts, not when its response is
  applied. A page chosen while the request is in flight therefore survives a smaller
  response. Resetting the page when the response is applied would keep it in range.
  See the finding below.
- An empty string or `undefined` means "unset" to the query builder, which also drops
  `null`. `activeFilterCount` counts `null` as active. `update` and `reset` never store
  `null`, so on the objects they build the two agree
  (`FilterState.ActiveCountIsCriteriaSize`).

## Model

| member | source | states |
|---|---|---|
| `Api.ApiBase` | lib/api.ts:1 | an unset or empty configured URL falls back to `http://localhost:3001`; a non-empty one is used as is; the base is never empty |
| `Api.QueryPairs` | lib/api.ts:47-51 | at most one query pair per filter entry |
| `Api.QueryPairsMembership` | lib/api.ts:47-51 | a pair is emitted iff some entry's value is not undefined, null or '', and the pair is that entry's key name and value unchanged |
| `Api.QueryPairsAppend` | lib/api.ts:47-49 | emitted pairs follow entry order: the pairs of a concatenation are the concatenated pairs |
| `Api.QueryPairsAreCriteria` | lib/api.ts:47-51 | for a well-formed object, `(name, s)` is sent iff the key called `name` is set to `s` in the object's criteria |
| `Api.KeyNameInjective` | lib/api.ts:16-29 | distinct filter properties have distinct parameter names |
| `Api.BuildQueryPairs` | lib/api.ts:45-51 | the `forEach` loop that appends to the parameter buffer yields exactly the specified pairs |
| `Api.FormSerialize` | lib/api.ts:53 | the serialized query is empty iff there are no pairs |
| `Api.UniversitiesUrl` | lib/api.ts:43-53 | with no emitted pairs (for example the default `{}`) the URL is `base + "/api/universities"` with no `?`; otherwise it is that plus `?` and the serialized pairs |
| `Api.Settle` | lib/api.ts:56-60 | a result is data iff the response arrived with `ok`, and then it is the body; a non-ok response is the thrown error |
| `Api.UniversityUrl` | lib/api.ts:64 | the detail URL is the base, then `/api/universities/`, then the id, and nothing else |
| `Api.UniversityUrlInjective` | lib/api.ts:64 | on one base, distinct ids give distinct detail URLs |
| `Api.FilterOptionsUrl` | lib/api.ts:74 | the options URL is the base followed by `/api/filters` |
| `Api.EndpointsDistinct` | lib/api.ts:43-74 | the options URL differs from the listing URL and from every detail URL on the same base |
| `Api.FetchUniversities` | lib/api.ts:42-61 | the response to the listing URL yields data only when ok; non-ok gives "Failed to fetch universities" |
| `Api.FetchUniversityById` | lib/api.ts:63-71 | the response to `/api/universities/{id}` yields data only when ok; non-ok gives "University not found" |
| `Api.FetchFilterOptions` | lib/api.ts:73-81 | the response to `/api/filters` yields data only when ok; non-ok gives "Failed to fetch filter options" |
| `FilterState.TrimStart` | components/UniversityFilters.tsx:109 | drops exactly the longest whitespace prefix |
| `FilterState.TrimEnd` | components/UniversityFilters.tsx:109 | drops exactly the longest whitespace suffix |
| `FilterState.Trim` | components/UniversityFilters.tsx:109 | the trimmed text is empty iff the input is whitespace only |
| `FilterState.TrimmedEnds` | components/UniversityFilters.tsx:109 | a non-empty trimmed text neither starts nor ends with whitespace |
| `FilterState.Assign` | components/UniversityFilters.tsx:109 | object spread `{...f, [k]: v}`: `k` reads `v`, every other key reads as before, an existing key keeps its position, a new key is appended |
| `FilterState.AssignKeys` | components/UniversityFilters.tsx:109 | the spread adds `k` to the keys and never duplicates a key |
| `FilterState.Normalize` | components/UniversityFilters.tsx:109 | the stored value is `undefined` iff the value is whitespace only, and otherwise the non-empty trimmed text |
| `FilterState.Update` | components/UniversityFilters.tsx:107-114 | `update(k, v)` stores `trim(v)` under `k`, or `undefined` when `v` is whitespace only; every other key is unchanged |
| `FilterState.UpdateCriteria` | components/UniversityFilters.tsx:109 | on the criteria map, `update` sets `k` to `trim(v)` or removes `k` when that is empty, and keeps the other criteria |
| `FilterState.AssignCriteria` | components/UniversityFilters.tsx:109 | the spread sets or removes one criterion and keeps the others |
| `FilterState.WhitespaceIsClearing` | components/UniversityFilters.tsx:109 | whitespace-only input gives the same object as clearing the field |
| `FilterState.AssignTwice` | components/UniversityFilters.tsx:109 | spreading the same key twice equals spreading it once with the later value |
| `FilterState.UpdateLastWins` | components/UniversityFilters.tsx:109 | for one key the last update wins, on the whole object |
| `FilterState.UpdateIdempotent` | components/UniversityFilters.tsx:109 | applying the same update twice equals applying it once |
| `FilterState.Reset` | components/UniversityFilters.tsx:116-120 | `reset` yields an object with no criteria and no query pairs |
| `FilterState.ActiveValues` | components/UniversityFilters.tsx:126 | a value is active iff it is `null` or a non-empty string; `null` is the one active value the query does not send |
| `FilterState.ActiveFilterCount` | components/UniversityFilters.tsx:126 | the count is at most the number of entries, and zero iff every value is undefined or '' |
| `FilterState.ResetHasNoActiveFilter` | components/UniversityFilters.tsx:116-126 | after `reset` the active-filter count is 0 |
| `FilterState.UpdateKeepsCanonical` | components/UniversityFilters.tsx:109 | `update` stores only `undefined` or non-empty strings and never duplicates a key |
| `FilterState.ActiveCountIsCriteriaSize` | components/UniversityFilters.tsx:126 | on objects built by `update`/`reset`, the active-filter count equals the number of criteria set |
| `CompareModal.LabelsDistinct` | components/CompareModal.tsx:33-52 | nine rows whose labels (the rows' React keys) are pairwise distinct |
| `CompareModal.FormatCurrency` | components/CompareModal.tsx:6-14 | an amount renders as "Free" iff it is 0; any other amount goes to the USD formatter |
| `CompareModal.Digits` | components/CompareModal.tsx:38 | the decimal digits of a natural number, non-empty and with no leading zero |
| `CompareModal.DigitsRoundTrip` | components/CompareModal.tsx:38 | the digits read back as the number |
| `CompareModal.JoinComma` | components/CompareModal.tsx:50 | `join(', ')`: total length is the courses' lengths plus two per separator, starting with the first course |
| `CompareModal.JoinCommaSnoc` | components/CompareModal.tsx:50 | appending a course appends `", "` and that course, so the courses appear in order with `", "` between each two |
| `CompareModal.GetValue` | components/CompareModal.tsx:33-52 | name, country and location cells show the field as text; the year cell is the year as a number; a USD cell occurs iff the field is tuition and the fee is non-zero, and it holds the fee; only the year and IELTS rows give number cells |
| `CompareModal.TuitionCell` | components/CompareModal.tsx:37 | the tuition cell reads "Free" iff the fee is 0 |
| `CompareModal.RankingCell` | components/CompareModal.tsx:38 | the ranking cell is `#` followed by digits that read back as the ranking |
| `CompareModal.IeltsCell` | components/CompareModal.tsx:40-43 | Min IELTS shows the score when present (0 included) and "N/A" iff absent |
| `CompareModal.ScholarshipsCell` | components/CompareModal.tsx:44-47 | "Yes" iff `scholarshipsAvailable` is true; "No" otherwise |
| `CompareModal.CoursesCell` | components/CompareModal.tsx:48-51 | "N/A" for an absent or empty list; otherwise the first one to four courses joined by ", " |
| `CompareModal.RowsFor` | components/CompareModal.tsx:90-98 | one row per field in field order, each with its label, `getValue(a)` and `getValue(b)` |
| `CompareModal.Render` | components/CompareModal.tsx:30-52 | an empty list renders nothing; exactly one record makes the render throw; two or more render the 9 rows in fixed order for the first two records |
| `Finder.Without` | components/UniversityFinder.tsx:57 | the filtered selection holds exactly the other ids |
| `Finder.Toggle` | components/UniversityFinder.tsx:54-64 | toggling flips whether the id is selected |
| `Finder.WithoutAt` | components/UniversityFinder.tsx:57 | in a duplicate-free list, filtering out an id removes just its one position |
| `Finder.ToggleRemoves` | components/UniversityFinder.tsx:55-57 | toggling a selected id removes exactly it and keeps the rest in order |
| `Finder.ToggleAdds` | components/UniversityFinder.tsx:59-62 | a new id is appended below two; at two the oldest is evicted, giving `[prev[1], id]` of size 2 |
| `Finder.ToggleKeepsInvariant` | components/UniversityFinder.tsx:54-64 | every toggle keeps the selection at most 2 long and duplicate-free |
| `Finder.TogglesKeepInvariant` | components/UniversityFinder.tsx:24-64 | from `[]`, any sequence of toggles keeps length ≤ 2 and no duplicates |
| `Finder.CompareSelection` | components/UniversityFinder.tsx:72 | the join holds exactly the fetched records whose id is selected |
| `Finder.CompareSelectionAppend` | components/UniversityFinder.tsx:72 | the joined records follow fetched-list order |
| `Finder.CompareSelectionCount` | components/UniversityFinder.tsx:72 | with unique ids, two distinct ids join to one record per id that is listed |
| `Finder.CompareSelectionSingle` | components/UniversityFinder.tsx:72 | with unique ids, one selected id joins to one record iff it is listed, else to none |
| `Finder.CompareSelectionPair` | components/UniversityFinder.tsx:186 | the join has two records (the modal's guard) iff both selected ids are in the fetched list |
| `Finder.ShownModalRendersTable` | components/UniversityFinder.tsx:186-187 | when the guard holds, the modal renders the table, never the empty or throwing case |
| `Finder.TotalPages` | components/UniversityFinder.tsx:74 | `ceil(total/3)` for positive totals, 1 for a total of 0, always ≥ 1 for totals ≥ 0 |
| `Finder.StartIndex` | components/UniversityFinder.tsx:75 | for a page ≥ 1, the first item's position is a non-negative multiple of 3 whose quotient by 3 is the page minus one |
| `Finder.ClampPage` | components/UniversityFinder.tsx:79 | the page is kept when in `[1, totalPages]`, otherwise it saturates to the nearest bound |
| `Finder.Slice` | components/UniversityFinder.tsx:76 | for non-negative bounds, `slice` holds `min(end, len) - start` consecutive items from `start` |
| `Finder.PageItems` | components/UniversityFinder.tsx:75-76 | the visible page holds at most 3 items, the ones from `(p-1)*3` on, truncated to the list |
| `Finder.RangeFirst` | components/UniversityFinder.tsx:109 | X is 0 iff the total is 0 (for a page ≥ 1), and otherwise the one-based position of the page's first item |
| `Finder.RangeLast` | components/UniversityFinder.tsx:110 | Y is the smaller of the total and the page's end position |
| `Finder.RangeDescribesPage` | components/UniversityFinder.tsx:75-76 | when the list holds `total` items and the page is in range, "Showing X–Y of N" names exactly the visible items, or 0–0 for no results |
| `Finder.UniversityFinder.CompareUniversities` | components/UniversityFinder.tsx:72 | the records handed to the modal are exactly the fetched records whose id is selected |
| `Finder.UniversityFinder.ModalShown` | components/UniversityFinder.tsx:186-187 | when the modal is mounted the view is open and the modal renders the table |
| `Finder.UniversityFinder.VisibleUniversities` | components/UniversityFinder.tsx:75-76 | the cards shown are at most 3, the list's items from the page's start index on |
| `Finder.UniversityFinder.ActiveBadgeCountsCriteria` | components/UniversityFilters.tsx:126 | in every state the component reaches, the active-filter badge equals the number of criteria the next query sends |
| `Finder.UniversityFinder.ModalShownMeansBothListed` | components/UniversityFinder.tsx:186-187 | with unique ids in the list, a mounted modal means exactly two ids are selected and both are in the list |
| `Finder.UniversityFinder.constructor` | components/UniversityFinder.tsx:19-26 | the initial state: no results, total 0, no filters, loading, empty selection, view closed, page 1 |
| `Finder.UniversityFinder.UpdateFilter` | components/UniversityFilters.tsx:107-114 | the filters become `update(old filters, key, value)`, keeping them canonical |
| `Finder.UniversityFinder.ResetFilters` | components/UniversityFilters.tsx:116-120 | the filters become the empty object |
| `Finder.UniversityFinder.StartLoad` | components/UniversityFinder.tsx:28-30 | a load sets `loading` and goes back to page 1 |
| `Finder.UniversityFinder.SettleLoadAsWritten` | components/UniversityFinder.tsx:31-40 | data replaces list and total, failure gives `[]` and 0; loading ends; the page is left as it was |
| `Finder.UniversityFinder.SettleLoad` | components/UniversityFinder.tsx:28-40 | as above, and the page is 1 when the outcome is applied, so it is in range |
| `Finder.UniversityFinder.GoToPage` | components/UniversityFinder.tsx:78-80 | the page becomes the clamped request, always in range |
| `Finder.UniversityFinder.HandleCompareAdd` | components/UniversityFinder.tsx:54-64 | the selection becomes the toggle of the old one and keeps its bound |
| `Finder.UniversityFinder.HandleOpenCompare` | components/UniversityFinder.tsx:66-68 | the view opens only when exactly 2 ids are selected |
| `Finder.UniversityFinder.HandleCloseCompare` | components/UniversityFinder.tsx:70 | closing clears only the open flag; the selection is unchanged |
| `Finder.StaleResponseScenario` | components/UniversityFinder.tsx:28-40 | as written, a page chosen while a request is in flight stays current after a smaller response: page 3 of 1, no cards shown, and the range reads "Showing 7–3" |

## Findings

| source | as written | input that shows it | evidently intended | confidence | as-written member | corrected member |
|---|---|---|---|---|---|---|
| components/UniversityFinder.tsx:28-40 | `loadUniversities` sets the page to 1 before awaiting the response; applying the response does not touch the page | 9 results are shown; a filter change starts a new request (page back to 1); while it is in flight the user goes to page 3; the response has `total` 3, so there is 1 page but page 3 stays current, the grid is empty and the range reads "Showing 7–3 of 3" | the page is reset (or clamped) when the response is applied, so `1 ≤ currentPage ≤ totalPages` always holds | medium, not executed | `Finder.StaleResponseScenario` (with `Finder.UniversityFinder.SettleLoadAsWritten`) | `Finder.UniversityFinder.SettleLoad` |

## Left out

- The 300 ms debounce (`setTimeout`/`clearTimeout`, components/UniversityFinder.tsx:43-46) and `async` scheduling are timer and event-loop behaviour. A load is one start step and one settle step. The last-writer-wins race between overlapping loads, where an older response overwrites a newer one, is not modelled.
- `fetch`, `res.json()` and the environment lookup are I/O. The transport is a function parameter and the configured base URL is an `Option` parameter. A malformed JSON body is not modelled.
- The one-shot `fetchFilterOptions` effect and the `filterOptions` state (components/UniversityFinder.tsx:48-52) are not modelled. Only the fetcher's URL and error mapping are.
- Percent-encoding by `URLSearchParams` (the application/x-www-form-urlencoded serializer of the WHATWG URL Standard) is a library. `Api.FormSerialize` joins raw `key=value` pairs with `&`. It keeps only the property the URL relies on: the serialization is empty iff there are no pairs.
- `Intl.NumberFormat` for non-zero fees (components/CompareModal.tsx:8-13) is a locale-dependent foreign call. Such a cell is `Usd(amount)`.
- JavaScript's number-to-string conversion for the year and IELTS cells is left out: those cells carry the number. Rankings are integers, so the `#` cell writes the integer in decimal. A fractional ranking is not modelled.
- `total` is an integer with the exact `Math.ceil(total / 3) || 1` behaviour. A fractional or NaN total from the service is not modelled.
- `Finder.TotalPages`: its contract states the ceiling only for totals ≥ 0. For negative totals the function computes the JavaScript value, but no property is stated.
- `Finder.Slice`: its contract covers non-negative bounds, the only ones pagination uses. The body also models negative bounds.
- `String.prototype.trim` uses the ECMAScript WhiteSpace and LineTerminator code points, written out in `FilterState.IsWhitespace`. Strings are sequences of code points, not UTF-16 units. This makes no difference here, because all of those code points are single units.
- React plumbing is left out: the `local` mirror and its sync effect (components/UniversityFilters.tsx:105, 122-124), the Escape listener and backdrop click (components/CompareModal.tsx:22-28, 60), JSX and styling. The "result"/"results" word choice is also left out.
- components/UniversityCard.tsx, components/Header.tsx, components/Footer.tsx, components/PromoBanner.tsx, app/page.tsx, app/layout.tsx and app/universities/page.tsx are markup and are not part of this model. The card disables its button when `compareDisabled && !compareSelected`, so the eviction branch of the toggle cannot be reached from the page. `Finder.Toggle` still models that branch as written.

# Users table: query pipeline and page loading, in Dafny

This project models the client-side core of a small Angular application. The
application shows a table of users. It fetches the whole user list, then
filters, searches, sorts and pages it in the browser, and grows the table
when the user scrolls near its bottom. The model covers five parts:

- **The query engine** (`UsersService`, `users_service.dfy`). It runs four
  stages in order:
  - a filter stage: AND across filters, OR across a filter's tokens, with the
    special tokens `ADULTS`, `NOT_ADULTS`, `ACTIVE` and `NOT_ACTIVE`;
  - a case-insensitive search over `firstName`, `lastName` and `phone`;
  - a stable in-place sort on one field;
  - a page slice with a `completed` flag.

  The filter and search stages are functions. The sort is an in-place
  insertion sort over an `array`, proved equal to a functional stable sort
  (`SortedBy`). `ApplyPageable` is a method that copies the data, runs the
  stages and cuts the page. It is proved equal to the specification function
  `PageOf`.
- **The page-load coordinator** (`AppComponent`, `app_component.dfy`). It is
  a class holding the page descriptor `pageQuery` and the list on screen,
  `userList`. Each handler is a method with its full new state as a
  postcondition. The class invariant `Consistent` says that after any fetch
  the screen holds the pages shown so far, laid end to end. The lemmas show
  that this is always a prefix of the processed list.
- **The infinite-scroll trigger** (`InfiniteScrollDirective`,
  `infinite_scroll.dfy`). A class with the one-bit `alreadyTriggered` state.
  `Run` feeds it a whole sequence of scroll events in a loop, and is proved
  to emit exactly where the closed-form `Emissions` says. Between any two
  emissions the viewport has left the near-bottom zone.
- **The table's query-param normaliser** (`table_component.dfy`). A pure
  function that picks the first active sort and the filters that have a value.
- **The highlight pipe** (`highlight_pipe.dfy`). A left-to-right,
  non-overlapping, case-insensitive literal scan into pieces, rendered with
  `<mark>` tags.

Shared definitions:

- `models.dfy`: the data shapes. A record is a map from field name to a small
  `Value` datatype: null, boolean, calendar date or string.
- `value_order.dfy`: the total order the sort compares keys with.
- `text.dfy`: ASCII lower-casing, substring search and decimal rendering.
- `seqs.dfy`: `filter` over sequences, and what it means to be an
  order-preserving subsequence.

The fetch is modelled as a synchronous call of the query engine on a fixed
dataset. The current year, which the source reads from the clock, is a
parameter.

Two behaviours are modelled as written, because the code does them:

- `completed` compares the length of the *raw* data, not of the filtered
  list, with the end of the page.
- In append mode a page that comes back `completed` is dropped entirely.
  So with 25 unfiltered records in pages of 20, load-more never shows the
  last five (`TwentyFiveRecordsShowTwenty`).

## Model

| member | source | states |
|---|---|---|
| UsersService.CalculateAge | src/app/common/services/users.service.ts:18-21 | the age is the difference of calendar years, so a person counts as 18 or older exactly when born in or before `currentYear - 18`, and as 0 in their birth year |
| UsersService.DateYear | src/app/common/services/users.service.ts:19-20 | the year `new Date(value)` falls in: a date's own year; the epoch year 1970 for a boolean, which converts to 0 or 1 milliseconds; none (an invalid date) for a string |
| UsersService.TokenMatches | src/app/common/services/users.service.ts:39-57 | `ADULTS` and `NOT_ADULTS` fail on a value with no date and otherwise split on age 18; `ACTIVE` and `NOT_ACTIVE` split on truthiness |
| UsersService.BooleanAgeIsFromEpoch | src/app/common/services/users.service.ts:39-46 | a boolean field passes an `ADULTS` filter and fails a `NOT_ADULTS` filter whenever `currentYear >= 1988`, because its date is in 1970 |
| UsersService.ApplyFilters | src/app/common/services/users.service.ts:28-31 | a null or empty filter list returns the input unchanged; the output is never longer than the input |
| UsersService.ApplyFiltersMembers | src/app/common/services/users.service.ts:31-38 | a record survives the filter stage iff it is in the input and every filter admits it |
| UsersService.FilterSemantics | src/app/common/services/users.service.ts:31-58 | a record survives iff, for every filter with a non-empty token list, its field is non-null and at least one token matches it |
| UsersService.NullFieldExcluded | src/app/common/services/users.service.ts:33-36 | a record whose filtered field is null is dropped by any filter that carries tokens |
| UsersService.UnconstrainedFilterIsNoOp | src/app/common/services/users.service.ts:33 | adding a filter with a null or empty token list changes nothing |
| UsersService.FiltersCompose | src/app/common/services/users.service.ts:32 | filtering by `fs1 + fs2` equals filtering by `fs1` and then by `fs2` (AND across filters) |
| UsersService.ApplyFiltersIsSubsequence | src/app/common/services/users.service.ts:31 | the filter stage keeps records in their input order |
| UsersService.TokenSemantics | src/app/common/services/users.service.ts:18-57 | `ADULTS` matches iff the value's year (a date's year, 1970 for a boolean) is at least 18 before `currentYear`, and `NOT_ADULTS` iff it is fewer, so they are complementary on dates and booleans; neither matches a string; `ACTIVE` and `NOT_ACTIVE` are complementary and test truthiness; any other token matches iff its lower-cased text occurs in the lower-cased value |
| UsersService.ApplySearchQuery | src/app/common/services/users.service.ts:68-78 | the search output is never longer than its input |
| UsersService.ApplySearchQueryMembers | src/app/common/services/users.service.ts:68-78 | a record survives the search iff `firstName`, `lastName` or `phone` is non-null and contains the query, ignoring case |
| UsersService.ApplySearchQueryIsSubsequence | src/app/common/services/users.service.ts:70 | the search keeps records in their input order |
| UsersService.Before | src/app/common/services/users.service.ts:87-93 | the comparator returns a negative number only for records whose keys differ; equal keys give 0 |
| UsersService.SameYearSortsByMonth | src/app/common/services/users.service.ts:87-91 | dates sort chronologically: of two users born in the same year, the earlier month goes first when ascending and last when descending |
| UsersService.BeforeAsymmetric | src/app/common/services/users.service.ts:87-93 | the comparator never puts both records of a pair first, and records it orders have different keys |
| UsersService.NotBeforeTransitive | src/app/common/services/users.service.ts:87-93 | "does not go before" is transitive, so the comparator is consistent |
| UsersService.SortedByPermutes | src/app/common/services/users.service.ts:86-94 | sorting leaves a permutation of the input (same multiset, same length) |
| UsersService.SortedByOrdered | src/app/common/services/users.service.ts:86-94 | after sorting, no record is strictly preceded by a later one |
| UsersService.SortedByKeysMonotone | src/app/common/services/users.service.ts:90-91 | with direction `"ascend"` keys are non-decreasing; with any other direction they are non-increasing |
| UsersService.SortedByStable | src/app/common/services/users.service.ts:87 | records with equal keys keep their relative order (stable sort) |
| UsersService.SortedBySameKeyIsIdentity | src/app/common/services/users.service.ts:92 | when all keys are equal, for instance the field is absent everywhere, the order is unchanged |
| UsersService.SortedByMembers | src/app/common/services/users.service.ts:86-94 | sorting neither adds nor removes records |
| UsersService.InsertOrdered | src/app/common/services/users.service.ts:87-93 | inserting one record into an ordered list keeps it ordered |
| UsersService.InsertKeepsKeyOrder | src/app/common/services/users.service.ts:87-93 | inserting a record adds it after the records with its key and leaves every other key class as it was |
| UsersService.InsertInto | src/app/common/services/users.service.ts:87 | one pass of the in-place sort: the first `i + 1` slots become the sorted insertion of `result[i]` into `result[..i]`; later slots are untouched |
| UsersService.ApplySorting | src/app/common/services/users.service.ts:86-94 | the array afterwards is the stable sort `SortedBy` of its old contents |
| UsersService.ToArray | src/app/common/services/users.service.ts:102 | the working copy is a fresh array holding the data, so the caller's list is never modified |
| UsersService.ApplyPageable | src/app/common/services/users.service.ts:101-127 | the result is `PageOf`: the processed list (filter if filters are non-empty, search if the query is non-empty, sort if a sort is given, in that order) sliced at `[page*size, page*size+size)`; `completed` iff `data.length <= (page+1)*size` |
| UsersService.ProcessedMembers | src/app/common/services/users.service.ts:102-117 | a record is in the processed list iff it is in the data and passes every stage that is switched on |
| UsersService.ProcessedOrder | src/app/common/services/users.service.ts:102-117 | without a sort the processed list is an order-preserving subsequence of the data; with one it is ordered; it is never longer than the data |
| UsersService.ProcessedIgnoresPage | src/app/common/services/users.service.ts:102-117 | which records are processed does not depend on the page index |
| UsersService.PageContent | src/app/common/services/users.service.ts:120-126 | the page holds at most `size` records, is empty when `page*size` is past the end, and its `k`-th record is record `page*size + k` of the processed list |
| UsersService.CompletedThenNextEmpty | src/app/common/services/users.service.ts:120-126 | once a page is completed, the next page is completed and empty |
| UsersService.PageEndIsNextStart | src/app/common/services/users.service.ts:120-121 | each page ends where the next one starts |
| UsersService.PageIsSlice | src/app/common/services/users.service.ts:120-124 | page `k` is the processed list cut between the starts of pages `k` and `k + 1` |
| UsersService.PagesTile | src/app/common/services/users.service.ts:120-124 | pages `0 .. n-1` laid end to end are exactly the processed records before the start of page `n` |
| UsersService.TwentyFiveRecords | src/app/common/services/users.service.ts:120-126 | 25 records in pages of 20: page 0 is full and not completed, page 1 holds the last five and is completed |
| ValueOrder.LessTransitive | src/app/common/services/users.service.ts:90-91 | the key order the comparator uses is transitive |
| ValueOrder.LessTotal | src/app/common/services/users.service.ts:90-91 | any two distinct keys are comparable |
| ValueOrder.NotLessIsLessOrEqual | src/app/common/services/users.service.ts:92 | "neither is less" (comparator returns 0) happens only for equal keys |
| Text.ToLower | src/app/common/services/users.service.ts:57 | lower-casing keeps the length and lowers each character |
| Text.Contains | src/app/common/services/users.service.ts:57 | `includes` is true iff the pattern occurs at some index; the empty pattern occurs everywhere |
| Seqs.KeepMembers | src/app/common/services/users.service.ts:31 | `filter` keeps exactly the input elements that satisfy the predicate |
| Seqs.KeepIsSubsequence | src/app/common/services/users.service.ts:31 | `filter` keeps elements in their input order |
| AppComponentModule.OrEmpty | src/app/app.component.ts:94-95 | the fallback to `''` gives the key when present and `''` when it is null |
| AppComponentModule.ToFilters | src/app/app.component.ts:97-100 | the filters are renamed entry by entry, `key` to `field` and `value` to `value`, in the same order and number |
| AppComponentModule.PagesShownBounds | src/app/app.component.ts:108-111 | after load-more requests up to page `p`, between 1 and `p + 1` pages are on screen |
| AppComponentModule.CompletedLater | src/app/common/services/users.service.ts:125 | a completed page stays completed for every later page index |
| AppComponentModule.NotCompletedAllShown | src/app/app.component.ts:77-79 | when page `p` comes back not completed, all `p` earlier pages are on screen |
| AppComponentModule.CompletedStopsGrowth | src/app/app.component.ts:78 | once a page comes back completed, no later load-more adds anything to the screen |
| AppComponentModule.ShownIsPrefix | src/app/app.component.ts:75-84 | what is on screen is a prefix of the processed list: the records before the first page not shown |
| AppComponentModule.TwentyFiveRecordsShowTwenty | src/app/app.component.ts:77-79 | with 25 unfiltered records and pages of 20, the screen holds the first 20 records however often more is requested |
| AppComponentModule.EmptySortFieldKeepsOrder | src/app/app.component.ts:93-96 | the sort `{field: '', …}` that a cleared table sort becomes leaves records without a `''` field in their order |
| AppComponentModule.AppComponent.constructor | src/app/app.component.ts:59-63 | the initial state is page 0, size 20, query `''`, no sort, no filters, and an empty list |
| AppComponentModule.AppComponent.NgOnInit | src/app/app.component.ts:65-67 | one fetch in replace mode: the list becomes the current page and the descriptor is unchanged |
| AppComponentModule.AppComponent.GetUsers | src/app/app.component.ts:75-84 | replace mode sets the list to the page's content; append mode appends the content in order, or leaves the list unchanged when the page is completed; the descriptor is unchanged |
| AppComponentModule.ReplaceShowsFirstPage | src/app/app.component.ts:80-81 | a replace-mode fetch of page 0 puts on screen exactly the pages shown at page 0 |
| AppComponentModule.AppComponent.OnQueryParamsChange | src/app/app.component.ts:90-103 | page 0, sort from the table's key and order with null mapped to `''`, filters renamed in order, query and size unchanged, list replaced, screen consistent |
| AppComponentModule.AppComponent.OnLoadMore | src/app/app.component.ts:108-111 | page goes up by exactly one with no guard, everything else in the descriptor unchanged, fetch in append mode, consistency kept |
| AppComponentModule.LoadMoreShowsNextPage | src/app/app.component.ts:77-79 | an append-mode fetch of page p after the pages shown at p - 1 leaves on screen the pages shown at p |
| AppComponentModule.AppComponent.OnSearch | src/app/app.component.ts:117-121 | page 0 and the new query, sort, filters and size unchanged, list replaced, screen consistent |
| InfiniteScroll.DistanceFromBottom | src/app/common/directives/infinite-scroll.directive.ts:44 | the pixels between the bottom of the viewport and the bottom of the content: at most 0 exactly when the viewport reaches the content's end, at most the default 150 exactly when it is within 150 pixels of it |
| InfiniteScroll.EmissionsSeparated | src/app/common/directives/infinite-scroll.directive.ts:46-53 | every emission happens near the bottom, and between two emissions some event is away from the bottom |
| InfiniteScroll.OneEmissionPerStay | src/app/common/directives/infinite-scroll.directive.ts:46-50 | while the viewport stays near the bottom, only the first event of the stay can emit |
| InfiniteScroll.InfiniteScrollDirective.constructor | src/app/common/directives/infinite-scroll.directive.ts:8-15 | the default threshold is 150 and the flag starts clear |
| InfiniteScroll.InfiniteScrollDirective.WithThreshold | src/app/common/directives/infinite-scroll.directive.ts:8-15 | a bound threshold is used as given and the flag starts clear |
| InfiniteScroll.InfiniteScrollDirective.OnScroll | src/app/common/directives/infinite-scroll.directive.ts:38-54 | with `distance = scrollHeight - (scrollTop + clientHeight)`: it emits iff `distance <= threshold` and the flag was clear; the flag afterwards is `distance <= threshold` |
| InfiniteScroll.InfiniteScrollDirective.Run | src/app/common/directives/infinite-scroll.directive.ts:38-54 | over a sequence of events, the emissions are exactly `Emissions`: near the bottom, with the previous event (or the initial flag) away from it |
| TableComponentModule.OrNull | src/app/common/components/table/table.component.ts:37-38 | the fallback to `null` gives null for a null or empty string, and the string itself otherwise |
| TableComponentModule.FindActiveSort | src/app/common/components/table/table.component.ts:32 | finds the first sort entry with a non-null order, and nothing iff every order is null |
| TableComponentModule.OnQueryParamsChange | src/app/common/components/table/table.component.ts:30-42 | the sort is the first active entry's key and order with `''` mapped to null, or null and null when none is active |
| TableComponentModule.SortFromFirstActive | src/app/common/components/table/table.component.ts:32-38 | the emitted sort comes from the first entry with a non-null order, whatever comes before or after it |
| TableComponentModule.NoActiveSortEmitsNull | src/app/common/components/table/table.component.ts:36-38 | with no active sort, the emitted key and order are both null |
| TableComponentModule.EmittedFilters | src/app/common/components/table/table.component.ts:33-40 | the emitted filters are exactly the entries with a non-null value, in their original order |
| HighlightPipeModule.Transform | src/app/common/pipes/highlight.pipe.ts:14-15 | an empty query returns the value unchanged |
| HighlightPipeModule.Render | src/app/common/pipes/highlight.pipe.ts:18 | the `<mark>$1</mark>` replacement: with no marked piece the output is the text itself, and the tags only ever add characters |
| HighlightPipeModule.LetterlessQueryMarksItself | src/app/common/pipes/highlight.pipe.ts:16-17 | the escaped query is literal text: for a query without letters (such as `.`, `*`, `(`) every marked run is exactly the query |
| HighlightPipeModule.Scan | src/app/common/pipes/highlight.pipe.ts:17-18 | every marked piece has the query's length and equals the query ignoring case |
| HighlightPipeModule.ScanUnwraps | src/app/common/pipes/highlight.pipe.ts:18 | removing the marks gives back the value |
| HighlightPipeModule.ScanSuffix | src/app/common/pipes/highlight.pipe.ts:17-18 | the scan resumes right after each piece: from piece `i` on it is the scan of the value from that piece's offset |
| HighlightPipeModule.ScanHead | src/app/common/pipes/highlight.pipe.ts:18 | the first piece is marked iff the query matches at the start, and then it is the value's own text there |
| HighlightPipeModule.ScanPositions | src/app/common/pipes/highlight.pipe.ts:16-18 | at each piece's offset: a marked piece is the value's text there, in its own casing, and the query matches there; a plain piece is the character there, and the query does not match there |
| HighlightPipeModule.NoOccurrenceIsIdentity | src/app/common/pipes/highlight.pipe.ts:18 | if the query does not occur in the value, ignoring case, the output equals the value |
| HighlightPipeModule.DotMarksDot | src/app/common/pipes/highlight.pipe.ts:16 | example: `Transform("a.b", ".")` marks the dot and nothing else |
| HighlightPipeModule.DotMarksNothingElse | src/app/common/pipes/highlight.pipe.ts:16 | example: `Transform("axb", ".")` marks nothing, since `.` does not match `x` |
| HighlightPipeModule.CaseIsKept | src/app/common/pipes/highlight.pipe.ts:17-18 | example: `Transform("Ann", "aN")` marks `An`; matching ignores case, and the marked text keeps the value's casing |

## Left out

- The HTTP fetch of `users.json` and the rxjs `subscribe` callback are replaced by a synchronous call on a fixed dataset. In-flight requests, their order and stale results are not modelled.
- AppComponent.OnLoadMore: `getUsers(this.pageQuery)` passes the descriptor by reference, and `applyPageable` reads `page` only when the response arrives. So two load-more events before the first response should both fetch the later page: that page is appended twice and the page between is skipped. This reading is not executed. The synchronous model applies each fetch before the next event and cannot show it.
- `SearchDirective` is not part of this model. Its only logic is a 300 ms debounce, which is time-based scheduling.
- The DOM wiring of the scroll directive (`ngAfterViewInit`, `ngOnDestroy`, `querySelector`, `addEventListener`, the warning when no element is found) is left out. The `customSelector` input is left out too.
- Scroll geometry and the threshold are integers; the browser's fractional pixel values are not modelled.
- `threshold` is a constant of the directive; a bound value that changes after construction is not modelled.
- Dates: the clock is the `currentYear` parameter. A date of birth is a calendar year, month and day. Ages read only the year, as `getFullYear` differences do. The sort compares dates chronologically, which is how their zero-padded `YYYY-MM-DD` text compares under `<`.
- TokenMatches: on a date field, the substring test for an ordinary token looks at the year's decimal digits only, not at the full date string.
- TokenMatches / TokenSemantics: the age tokens take 1970 as the year of a boolean, which is `getFullYear` of the epoch in UTC and in zones east of it. West of UTC the source sees 31 December 1969; the local time zone is not modelled. A string field is taken as an invalid date with no year, so both age tokens fail on it. The source's `Date` parser would accept a date-like string, and that parsing is not modelled.
- Sort keys: the source compares raw values with JavaScript's `<` and `>`, which is not a total order on mixed or missing values. The model orders values by kind first (null, boolean, date, string), then naturally within a kind. Strings compare by Unicode code points. JavaScript compares UTF-16 code units, which differ from code points for characters outside the Basic Multilingual Plane.
- `Array.prototype.sort` is modelled as a stable insertion sort, as the language standard requires stability. The engine's own algorithm and its exact comparison calls are not modelled.
- Lower-casing and the `i` flag of the highlight regular expression are ASCII-only; Unicode case mapping is not modelled.
- ApplyPageable: requires `size > 0`; the code has no check, and a zero or negative size is not modelled. `page` is a natural number.
- The column definitions, templates, styles and the table library are left out. `tableColumn.ts` and `queryParams.ts` serve only as data shapes.

# Profile browser: a Dafny model

The repository is a single-page client that looks up a GitHub user, shows
the profile and its repositories in a table, filters and sorts that table
on the client, deletes rows through a backend call, and takes a replacement
profile pushed over a socket on a "dataSaved" event. All of its logic sits
in the `App` component of `src/App.tsx`; the records it handles are
declared in `src/types/repo.ts` and `src/types/user.ts`.

This project models that component:

- `types.dfy` (module `Types`): the `Repo` and `Profile` records with their
  nullable fields as `Option`, `User` as an optional profile, the sort key,
  order and settings, the push payload, and the settled outcome of an HTTP
  request (`Reply`).
- `text.dfy` (module `Text`): the string operations the component uses:
  `toLowerCase` (on ASCII letters), `includes`, and `<` on strings as
  lexicographic order on `seq<char>`, with the facts `sort` needs of `<`
  (asymmetry, trichotomy, transitivity).
- `array_ops.dfy` (module `ArrayOps`): `Array.prototype.filter` and
  `Array.prototype.sort` on sequences. The sort is an insertion sort
  parameterised by a comparison function. For a consistent comparator
  (antisymmetric, with a transitive "not after"), it is proved to return a
  sorted and stable permutation of its input. It is also proved to be the
  only such sequence, so it is what any stable sort returns, and
  `Array.prototype.sort` is one.
- `repo_view.dfy` (module `RepoView`): the derived table `sortedRepos`.
  It filters by a case-insensitive name match, then sorts stably with the
  component's comparator, and is `[]` without a user or a repository list.
  The module also holds the removal of rows by identifier that the delete
  handler uses.
- `sort_toggle.dfy` (module `SortToggle`): the rule a header click applies
  to the sort settings and the three-way choice of header icon.
- `app.dfy` (module `App`): class `ProfileBrowser` with the component's
  state `user`, `searchTerm`, `sortKey` and `sortOrder`, and one method per
  handler. The HTTP outcome of a lookup or a delete and the push payload
  are parameters.

Two points follow from the code:

- A confirmed delete removes every row whose `id` equals the identifier,
  since line 46 of `src/App.tsx` filters the whole list; it does not stop
  after one entry.
  The identifier may be null (`repo.id` is `number | null`), and then the
  rows whose `id` is null are the ones removed.
- The component reads `user?.repos` with optional chaining and falls back
  to `[]`, so a profile without a repository list is modelled, and it
  gives an empty table.

## Model

| member | source | states |
|---|---|---|
| `Text.LowerChar` | src/App.tsx:59 | the lower-cased character is never an ASCII capital; a capital's code point rises by 32, taking it to its small letter; other characters are unchanged |
| `Text.Lower` | src/App.tsx:59 | `toLowerCase` keeps the length and lower-cases each position independently |
| `Text.StartsWith` | src/App.tsx:59 | `p` is a prefix of `s`; a helper of `Includes` |
| `Text.Includes` | src/App.tsx:59 | `s.includes(t)`, defined by recursion on `s`; `IncludesIffOccurs` gives its meaning |
| `Text.IncludesIffOccurs` | src/App.tsx:59 | `s.includes(t)` holds exactly when `t` occurs in `s` at some index |
| `Text.IncludesEmpty` | src/App.tsx:59 | every string includes the empty search term |
| `Text.LexLess` | src/App.tsx:63-64 | string `<`, defined by recursion: a proper prefix comes first, otherwise the first differing character decides; `LexLessAsymmetric`, `LexLessTrichotomy` and `LexLessTransitive` show it is a strict total order |
| `Text.LexLessAsymmetric` | src/App.tsx:63-64 | string `<` never holds in both directions, so the two comparisons of the comparator exclude each other |
| `Text.LexLessTrichotomy` | src/App.tsx:63-65 | for two strings either `<`, equality or `>` holds, so the comparator returns 0 only on equal strings |
| `Text.LexLessTransitive` | src/App.tsx:63-64 | string `<` is transitive |
| `ArrayOps.Keep` | src/App.tsx:59 | `filter` keeps every element satisfying the predicate exactly as often as it occurs, and nothing else |
| `ArrayOps.KeepIsSubsequence` | src/App.tsx:59 | `filter` returns an order-preserving subsequence of its input |
| `ArrayOps.KeepAll` | src/App.tsx:59 | `filter` with a predicate every element satisfies returns its input |
| `ArrayOps.KeepIdempotent` | src/App.tsx:59 | filtering twice with one predicate equals filtering once |
| `ArrayOps.KeepCommutes` | src/App.tsx:46 | two filters give the same list whichever runs first |
| `ArrayOps.Insert` | src/App.tsx:59-65 | inserting an element adds exactly that element to the multiset |
| `ArrayOps.InsertSorted` | src/App.tsx:59-65 | inserting into a sorted list keeps it sorted under a consistent comparator |
| `ArrayOps.Sort` | src/App.tsx:59-65 | the sort returns a permutation of its input in which every pair is in comparator order |
| `ArrayOps.InsertTies` | src/App.tsx:59-65 | insertion places the new element ahead of every element it ties with and keeps their order |
| `ArrayOps.SortStable` | src/App.tsx:59-65 | elements that tie under the comparator keep their original relative order |
| `ArrayOps.SortAllTies` | src/App.tsx:60 | a comparator that returns 0 everywhere leaves the input unchanged |
| `ArrayOps.StableSortUnique` | src/App.tsx:59-65 | two sorted permutations of the same elements with the same order among ties are equal |
| `ArrayOps.SortUnique` | src/App.tsx:59-65 | every sorted, stable permutation of the input equals the modelled sort |
| `ArrayOps.KeepSorted` | src/App.tsx:46 | filtering a sorted list keeps it sorted |
| `ArrayOps.KeepSortCommutes` | src/App.tsx:46 | filtering the sorted list equals sorting the filtered list |
| `RepoView.NameMatches` | src/App.tsx:59 | the row's lower-cased name includes the lower-cased term; `SearchFilterMembers` states it as an occurrence at some index |
| `RepoView.Matching` | src/App.tsx:59 | the callback passed to `filter`, as a function value; `SearchFilter` states what it keeps |
| `RepoView.SearchFilter` | src/App.tsx:59 | each row whose lower-cased name includes the lower-cased term is kept as often as it occurs; no other row is kept |
| `RepoView.SearchFilterMembers` | src/App.tsx:59 | a row is in the filtered list if and only if it is in the list and the lower-cased term occurs in its lower-cased name |
| `RepoView.SearchFilterIsSubsequence` | src/App.tsx:59 | the filtered list is an order-preserving subsequence of the repositories |
| `RepoView.SearchFilterEmptyTerm` | src/App.tsx:59 | the empty search term keeps every row in its place |
| `RepoView.SearchFilterIdempotent` | src/App.tsx:59 | re-applying the same search term changes nothing |
| `RepoView.Unlike` | src/App.tsx:46 | the callback `repo.id !== id` as a function value; `RemoveId` and `RemoveIdSpec` state what it keeps |
| `RepoView.RemoveId` | src/App.tsx:46 | rows whose `id` differs from the deleted one, null and non-null alike, are kept as often as they occur; rows with that `id` are dropped, so a null identifier drops the null-id rows |
| `RepoView.RemoveIdSpec` | src/App.tsx:46 | no remaining row carries the id, every other row remains, and the order is preserved |
| `RepoView.RemoveAbsentId` | src/App.tsx:46 | deleting an id no row carries leaves the list unchanged |
| `RepoView.SortValue` | src/App.tsx:61-62 | the lower-cased column value, null read as `""`; `CompareZero` states that the comparator ties exactly the rows with equal values |
| `RepoView.Compare` | src/App.tsx:60-65 | the comparator returns -1, 0 or 1 |
| `RepoView.Comparator` | src/App.tsx:60-65 | the comparator as the function value `sort` receives; `ComparatorConsistent` states its consistency |
| `RepoView.CompareAntisymmetric` | src/App.tsx:63-64 | swapping the two rows negates the comparator, in both sort orders |
| `RepoView.CompareZero` | src/App.tsx:60-65 | the comparator is 0 exactly when there is no sort key or the two lower-cased values (null read as `""`) are equal |
| `RepoView.CompareTransitive` | src/App.tsx:61-65 | the comparator's "not after" relation is transitive |
| `RepoView.ComparatorConsistent` | src/App.tsx:60-65 | the component's comparator is consistent, as `sort` requires for a defined order |
| `RepoView.SortRows` | src/App.tsx:60-65 | sorting with the settings returns a permutation of the rows, sorted under the component's comparator |
| `RepoView.SortedValues` | src/App.tsx:61-64 | a sorted list has non-decreasing lower-cased values when ascending and non-increasing ones when descending |
| `RepoView.SortWithoutKey` | src/App.tsx:60 | with a null sort key the sort returns its input unchanged |
| `RepoView.SortRowsStable` | src/App.tsx:60-65 | rows with equal lower-cased sort values keep their relative order |
| `RepoView.SortRowsUnique` | src/App.tsx:60-65 | any sorted, stable permutation of the rows under the component's comparator is the modelled sort's result |
| `RepoView.RepoList` | src/App.tsx:59-66 | `user?.repos`, with a null user or list read as `[]`; `Derive` and `DeriveAfterReset` state what the table holds |
| `RepoView.Derive` | src/App.tsx:59-66 | the table is `[]` without a user or a repository list; otherwise it holds each matching row as often as the profile does and nothing else, sorted by the settings |
| `RepoView.DeriveUnsorted` | src/App.tsx:59-60 | without a sort key the table is the filtered list in the profile's order, an order-preserving subsequence of the repositories |
| `RepoView.DeriveSorted` | src/App.tsx:59-66 | with a sort key the table is ordered by the lower-cased column value, up for asc and down for desc, and ties stay in filtered order |
| `RepoView.DeriveAfterReset` | src/App.tsx:16-19 | with the settings a lookup resets to, the table is every repository in the profile's order |
| `RepoView.RemoveIdNamed` | src/App.tsx:46 | removing rows by id keeps every remaining row named |
| `RepoView.SearchFilterRemoveId` | src/App.tsx:46-59 | deleting then searching equals searching then deleting |
| `RepoView.SortRowsRemoveId` | src/App.tsx:46-65 | deleting then sorting equals sorting then deleting |
| `RepoView.DeriveOfProfile` | src/App.tsx:59-66 | for a profile with a list, the table is the list filtered by the term and then sorted |
| `RepoView.TableRemoveId` | src/App.tsx:46-65 | deleting before or after filtering and sorting a list gives the same table |
| `RepoView.DeriveAfterDelete` | src/App.tsx:44-47 | after a confirmed delete, the table is the old table without the rows carrying the id, in the same order, under any search and sort settings |
| `RepoView.LowerExample` | src/App.tsx:61-62 | "Beta" lower-cases to "beta", and "alpha" is unchanged |
| `RepoView.CompareExample` | src/App.tsx:61-64 | by name ascending, "Beta" compares after "alpha" |
| `RepoView.SortByNameExample` | src/App.tsx:61-63 | sorting rows named "Beta" and "alpha" by name ascending yields "alpha" first |
| `SortToggle.Toggle` | src/App.tsx:53-57 | a click sets the clicked key, with desc exactly when that key was already sorted ascending |
| `SortToggle.SortIcon` | src/App.tsx:68-72 | the neutral icon when the column is not the sort key, otherwise up for asc and down for desc |
| `SortToggle.ToggleFlips` | src/App.tsx:54 | on the current sort column each click flips the order, and two clicks restore the settings |
| `SortToggle.ThreeClicks` | src/App.tsx:54-56 | three clicks on a column that is not the sort key give asc, desc, asc |
| `SortToggle.IconAfterToggle` | src/App.tsx:53-72 | after a click the clicked header's arrow flips (or appears as up), and other headers go neutral |
| `App.ProfileBrowser.constructor` | src/App.tsx:9-12 | the component starts with no user, an empty search, no sort key and ascending order |
| `App.ProfileBrowser.MakeRequest` | src/App.tsx:14-20 | a received profile replaces the user and resets search and sort; a rejected request changes nothing |
| `App.ProfileBrowser.OnDataSaved` | src/App.tsx:25-28 | the pushed `payload.user` replaces the user; search and sort are unchanged |
| `App.ProfileBrowser.SetSearchTerm` | src/App.tsx:110 | typing in the filter box sets the search term and nothing else |
| `App.ProfileBrowser.HandleDelete` | src/App.tsx:35-51 | an ok response replaces the profile's repositories by those not carrying the id (null or not), keeping every other profile field; otherwise the user is unchanged; search and sort are never touched |
| `App.ProfileBrowser.HandleSort` | src/App.tsx:53-57 | the sort settings become the toggle of the old ones; user and search are unchanged |

## Left out

- The HTTP calls (axios `post`, `fetch` with `DELETE`) and the socket.io
  connection with its subscribe/unsubscribe effect: their outcomes are
  parameters (`Reply`, the `responseOk` flag, the `DataSaved` payload).
- The `username` state and its input box: the name is only sent to the
  server, whose reply is a parameter of `MakeRequest`.
- Interleavings of an in-flight lookup with push events or deletes, and the
  socket created on every render: these are asynchronous scheduling, not
  sequential logic; every handler is modelled as running to completion.
- JSX rendering, styling and the icons themselves beyond the three-way
  choice; `console.log` and `console.error`.
- Text.LowerChar: lower-cases ASCII capitals only, not full Unicode `toLowerCase`.
- Text.LexLess: orders Unicode scalar values, while JavaScript compares UTF-16 code units; the two differ only beyond the Basic Multilingual Plane.
- RepoView.Derive: requires every row to have a name, because line 59 throws on a null name.
- App.ProfileBrowser.HandleDelete: requires a user with a repository list when the response is ok; with a null user the code would store an object holding only an undefined `repos`, and with null `repos` its update throws.
- JavaScript numbers are modelled as unbounded integers; identifiers are only compared for equality.
- The engine's sorting algorithm itself: `sort` is modelled by an insertion sort, and `SortUnique` shows that any stable sort gives the same result.

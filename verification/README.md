# Movie recommendation page: genre selection, query and loading model

A Dafny model of the logic in the single-page movie recommendation client
(`src/App.tsx`). The user ticks genres from a fixed catalog of nineteen,
picks a match type, and asks the recommendation service for filtered or
random movies. The model covers:

- **Catalog** (`catalog.dfy`): the genre table with movie counts, and the two
  special genres `Documentary` and `TV Movie`.
- **Selection** (`selection.dfy`): the toggle handler on a `seq<string>`
  selection that starts as `[""]`, the special-genre disabled predicate, the
  check-box's combined disabled condition (rule or cap), the gated toggle
  (a click only acts on an enabled box), and the invariants of every
  reachable selection.
- **Query** (`query.dfy`): ASCII lower-casing, joining with the literal `%2C`,
  and the `genre` parameter. A decoder `Split` states that the parameter
  preserves the lower-cased selection in order.
- **Movies** (`movies.dfy`): the movie record and `ExtractYear`, the text of a
  release date before its first `-`.
- **App** (`app.dfy`): the page state `{selection, matchType, isLoading,
  movies}`, the two fetch handlers as atomic transitions whose network outcome
  is an input (`Fetched(data)` or `FetchFailed`), user events, and the
  invariant of every reachable page state.

The model follows the code as written. Notable behaviour of the code:

- The selection starts as `[""]`, not empty. The placeholder is never
  removed (no check-box has that value), stays first, takes one of the five
  slots, and sends a leading empty entry in the query (`%2Caction`).
- The toggle handler enforces only the cap of five. The special-genre rule
  lives only in the disabled predicate, so legality is a property of the
  gated toggle. Because the selection is never empty, both special genres are
  disabled in every reachable state and can never be selected.
- Remove-then-add is not a round trip: re-adding moves the genre to the end
  (`RemoveThenAdd`). Only add-then-remove is (`AddThenRemove`).
- There is no failed state: only a boolean `isLoading` that is cleared on
  every exit path. A failure keeps the previous movie list.
- Nothing prevents a second request while one is loading: the "Get Movies"
  button checks only the selection length.

## Model

| member | source | states |
|---|---|---|
| Catalog.SpecialMeansRare | src/App.tsx:16-36 | a catalog entry is special exactly when it has fewer than ten movies |
| Catalog.SpecialsInCatalog | src/App.tsx:16-36 | both special genres are catalog entries |
| Catalog.CatalogNamesPlain | src/App.tsx:16-36 | no catalog name is empty or contains `%`, so no check-box can toggle the placeholder |
| Selection.Remove | src/App.tsx:47-48 | removal leaves exactly the multiset of the selection with every copy of the genre dropped |
| Selection.RemoveAppend | src/App.tsx:47-48 | removal distributes over concatenation, so survivors keep their relative order |
| Selection.RemoveAbsent | src/App.tsx:47-48 | removing an absent genre leaves the selection unchanged |
| Selection.RemoveNoDup | src/App.tsx:47-48 | removal keeps a duplicate-free selection duplicate-free |
| Selection.RemoveHeld | src/App.tsx:47-48 | in a duplicate-free selection, removing the genre at index k gives the entries before k followed by those after k |
| Selection.RemoveSingle | src/App.tsx:47-48 | removing the one occurrence of a genre closes the gap around it |
| Selection.Toggle | src/App.tsx:45-57 | a held genre is removed (every copy dropped, the rest in order), an absent one is appended below five entries, otherwise no change; the genre ends up held iff it was absent and there was room; other genres' membership unchanged; at most five stays at most five; no duplicates preserved |
| Selection.AddThenRemove | src/App.tsx:45-57 | toggling an absent genre twice below the cap restores the selection |
| Selection.RemoveThenAdd | src/App.tsx:45-57 | toggling a held genre twice moves it to the end; the selection is restored iff the genre was last |
| Selection.IsGenreDisabled | src/App.tsx:60-82 | a held special genre disables every ordinary genre and the other special one but not itself; with no special held a non-empty selection disables both specials and no ordinary genre |
| Selection.DisabledMatchesRule | src/App.tsx:60-82 | on an unmixed selection a genre is enabled iff it is held (so may be removed) or may legally be added: nothing special held and the genre ordinary or the selection empty |
| Selection.IsCheckboxDisabled | src/App.tsx:153-157 | a box is disabled by the rule or by a full selection when its genre is absent, and enabled when the rule allows it and its genre is held or there is room |
| Selection.EnabledToggleKeepsUnmixed | src/App.tsx:153-157 | a toggle through an enabled box keeps the selection unmixed |
| Selection.GatedToggle | src/App.tsx:151-157 | a disabled box does nothing, an enabled one toggles, and a legal selection (cap, no duplicates, unmixed) stays legal |
| Selection.RunKeepsLegal | src/App.tsx:45-82 | any sequence of gated clicks keeps a legal selection legal |
| Selection.InitialReachable | src/App.tsx:39 | the initial `[""]` satisfies the reachable-selection invariant |
| Selection.RemoveKeepsReachable | src/App.tsx:47-48 | removing a real, non-special genre from a reachable selection keeps the placeholder first and the selection reachable |
| Selection.ClickKeepsReachable | src/App.tsx:45-82 | a click on a catalog box keeps the placeholder first, entries in the catalog, no special genre held, and legality |
| Selection.ReachableClickProgress | src/App.tsx:45-82 | on a reachable selection a click on an ordinary catalog genre removes it when held, appends it when absent and there is room, and does nothing at the cap; a special genre's click does nothing |
| Selection.RunKeepsReachable | src/App.tsx:45-82 | the reachable-selection invariant holds after any sequence of catalog clicks |
| Selection.ReachableFromInitial | src/App.tsx:39-82 | from `[""]`: at most five entries, no duplicates, unmixed, at most four real genres after the placeholder, and both special check-boxes disabled |
| Selection.EmptyStartScenario | src/App.tsx:45-82 | from an empty selection, one special genre can be chosen alone and then blocks the others |
| Selection.CapScenario | src/App.tsx:153-157 | with five genres held a sixth is refused and nothing changes |
| Query.LowerChar | src/App.tsx:87 | lower-casing leaves no upper-case letter, fixes other characters, and shifts letters by the case offset |
| Query.Lower | src/App.tsx:87 | lower-casing keeps the length, shifts each upper-case letter to its lower-case counterpart, keeps other characters and introduces no `%` |
| Query.LowerIdempotent | src/App.tsx:87 | lower-casing twice equals lower-casing once |
| Query.LowerAll | src/App.tsx:86-87 | every entry lower-cased, same length and order |
| Query.Join | src/App.tsx:88 | a join starts with its first part and ends with its last |
| Query.SplitPlain | src/App.tsx:88 | a part without `%` decodes to itself |
| Query.SplitLeading | src/App.tsx:88 | a `%`-free part followed by `%2C` decodes as that part then the rest |
| Query.SplitJoin | src/App.tsx:88 | decoding a non-empty `%2C` join of `%`-free parts gives the parts back |
| Query.GenreParam | src/App.tsx:86-88 | the genre parameter starts with the first entry lower-cased and decodes to the lower-cased selection in selection order |
| Query.PlaceholderExample | src/App.tsx:86-88 | `["", "Action"]` gives `%2Caction` |
| Movies.ExtractYear | src/App.tsx:118-120 | the year is a prefix of the date with no `-` that ends at the date's end or at a `-` |
| Movies.ExtractYearUnique | src/App.tsx:118-120 | any prefix with those properties is the extracted year |
| Movies.ExtractYearOfDate | src/App.tsx:118-120 | a `-`-free year followed by `-` and anything extracts to that year |
| App.Fetch | src/App.tsx:90-99 | loading is raised before the request and cleared after; success replaces the movie list, failure keeps it; selection and match type untouched |
| App.HandleGetMovies | src/App.tsx:85-100 | sends a filtered request whose genre decodes to the lower-cased selection and whose match type is lower-cased, with the loading bookkeeping |
| App.HandleGetRandom | src/App.tsx:103-116 | sends the random request with the same loading bookkeeping |
| App.Step | src/App.tsx:151-181 | a genre click runs the gated toggle; the drop-down sets the match type; "Get Movies" with a non-empty selection and "Get Random" replace the movie list on success and keep it on failure; "Get Movies" with an empty selection does nothing; each control changes only its own part of the state; loading is never left raised; a genre click keeps a legal selection legal |
| App.InitialStateReachable | src/App.tsx:39-42 | the start state satisfies the page invariant |
| App.StepKeepsReachable | src/App.tsx:151-181 | one page action keeps the page invariant |
| App.RunEventsKeepsReachable | src/App.tsx:151-181 | any sequence of page actions keeps the page invariant |
| App.ReachableRequest | src/App.tsx:86-89 | in every reachable state nothing is loading, "Get Movies" is enabled, the genre parameter decodes to the lower-cased selection led by the empty placeholder, and the match type is `contains` or `exact` |

## Left out

- Markup, logos, credits and styling (src/App.tsx:1-4, 122-228): presentation only.
- `fetch`, `response.json()` and `console.error`: network I/O and JSON decoding are an outcome input `Fetched(data)` or `FetchFailed`; the logged error is not modelled.
- App.FetchOutcome: `Fetched` assumes the body decodes to a movie list. In the code `fetch` does not reject on an error status, so a non-2xx response with a JSON body (an error object, say) is a success and replaces the movie list (src/App.tsx:93-94, 109-110); only a network error or a non-JSON body takes the failure path that keeps the old list.
- The backend base URL and the URL text around the parameters: a request is modelled by its two parameter values.
- Poster URL templating and `vote_average.toFixed(1)`: display formatting, floating point.
- The render condition for the movie list (src/App.tsx:190): presentation.
- React state-update scheduling and async interleaving: each handler is one atomic transition, so a click during a request is not modelled and no single-flight property is claimed.
- Query.Lower: maps only ASCII `A`–`Z`; JavaScript's `toLowerCase` also folds non-ASCII letters. Catalog names and the match-type values are ASCII.
- Query.LowerChar: ASCII only, for the same reason.
- The drop-down's displayed value starting as `Contains` while its options are `contains` and `exact` affects only what is shown; the request lower-cases it either way.

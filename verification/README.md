# Astro dashboard list view, modelled in Dafny

The dashboard page (`src/app/components/home/index.tsx`) fetches the full list
of staking addresses once, numbers the entries in fetch order, and shows a
derived view of them: either one page of 50 entries, or, when the search box
holds a 42-character term (the length of a full address), every entry whose
owner address equals the term ignoring case. Each shown entry gets a
`shortAddress`, the first 7 characters, `...`, and the last 4. Prev/Next
buttons, rendered only outside filter mode, move the page number.

This project models that logic as pure functions and proves what it promises.

- `wrappers.dfy` (`Wrappers`): `Option`, for the `null`-able record fields.
- `js_text.dfy` (`JsText`): JavaScript `slice` with its lenient semantics
  (negative positions count from the end, positions are clamped, crossed
  positions give an empty result) and ASCII `toLowerCase`.
- `types.dfy` (`Types`): the `ListItem` record of `types.ts`, the entry as
  delivered before numbering (`RawItem`) and the displayed entry with its
  `shortAddress` (`DerivedItem`).
- `home.dfy` (`Home`): index assignment on load, filter mode, paginate mode,
  `shortAddress`, and `CurrentList`, the view derivation from
  (full list, page number, search term).
- `paging.dfy` (`Paging`): the view state, `onPrev`/`onNext`, a step function
  over events (button presses, typing, the list load), and the reachability
  invariant of the page number.

The page number is an unbounded `int`, as a JavaScript number is for all
values a session can reach. The derivation is total for every page number,
as the code is: for a page below 1 the JavaScript `slice` arithmetic is
modelled as written. The stated page facts assume page 1 or above, and
`Paging.SessionStaysBounded` proves that every reachable state has one.

## Model

| member | source | states |
|---|---|---|
| JsText.RelativeIndex | src/app/components/home/index.tsx:43-47 | a `slice` position lies in `[0, n]`; a non-negative one is clamped to `n`, a negative one counts back from the end and is clamped to 0 |
| JsText.Slice | src/app/components/home/index.tsx:43-46 | `slice` never fails and yields no more than the list holds; with bounds `0 <= start <= end` it is the window `[min(start,n), min(end,n))`; it is never longer than `end - start` |
| JsText.SliceFrom | src/app/components/home/index.tsx:47 | `slice(-k)` is the last `min(k, n)` elements; `slice(i)` for `i >= 0` is the suffix from `min(i, n)` |
| JsText.LowerChar | src/app/components/home/index.tsx:40 | lower-casing a character leaves no upper-case ASCII letter and changes only `A`..`Z`, each to its lower-case letter |
| JsText.Lower | src/app/components/home/index.tsx:40 | lower-casing keeps the length and lower-cases every character in place |
| JsText.LowerIdempotent | src/app/components/home/index.tsx:40 | lower-casing twice equals lower-casing once |
| JsText.LowerEqualSameLength | src/app/components/home/index.tsx:40 | strings equal ignoring case have equal length |
| Types.Numbered | src/app/components/home/index.tsx:63-67 | numbering an entry sets its index and keeps every delivered field |
| Home.NumberFrom | src/app/components/home/index.tsx:63-67 | numbering from `first` keeps the length; entry `i` gets index `first + i` and keeps its delivered fields |
| Home.AssignIndices | src/app/components/home/index.tsx:63-67 | after load, the entry at fetch position `i` has index `i + 1` and all its delivered fields unchanged |
| Home.IndicesAreOneToN | src/app/components/home/index.tsx:63-67 | the indices of a loaded list are exactly `1..n`, strictly increasing along the list |
| Home.FilterByOwner | src/app/components/home/index.tsx:40 | an entry is kept if and only if it is in the list and its owner address equals the term ignoring case; never more entries than the list |
| Home.MatchPositions | src/app/components/home/index.tsx:40 | the matching positions at or after `from`, strictly increasing, containing every matching position and nothing else |
| Home.FilterSuffixFollowsPositions | src/app/components/home/index.tsx:40 | the filter over a suffix of the list yields the entries at the suffix's matching positions, in order |
| Home.FilterKeepsOrder | src/app/components/home/index.tsx:40 | the filter's k-th result is the entry at the k-th matching position: original relative order and multiplicity are kept; zero or several matches are possible |
| Home.FilterIgnoresTermCase | src/app/components/home/index.tsx:40 | lower-casing the term beforehand changes neither which entries match nor the filter's result, since both sides are lower-cased before comparing |
| Home.Paginate | src/app/components/home/index.tsx:42-43 | a page holds at most 50 entries; for page `p >= 1` it is the window `[min(s,n), min(s+50,n))` with `s = (p-1)*50`; a page past the end is empty, not an error |
| Home.EntryOnItsPage | src/app/components/home/index.tsx:42-43 | every entry `i` appears on page `i / 50 + 1` at position `i % 50`, and no other page's window covers it |
| Home.ShortAddress | src/app/components/home/index.tsx:46-50 | the short address is `a[..min(7,n)] + "..." + a[max(n-4,0)..]` for every length; its length is `min(7,n) + 3 + min(4,n)`, exactly 14 when `n >= 11`, with the first 7 and last 4 characters of the address around `...` |
| Home.ShortAddressExample | src/app/components/home/index.tsx:46-50 | `0x1234567890abcdef1234` abbreviates to `0x12345...1234` |
| Home.Decorate | src/app/components/home/index.tsx:48-51 | the displayed entry has every field of the list entry, index included, plus the entry's short address |
| Home.DecorateAll | src/app/components/home/index.tsx:45-52 | decorating keeps the number and order of the selected entries and every original field, adding only the short address |
| Home.Select | src/app/components/home/index.tsx:39-44 | with a 42-character term the selection holds exactly the entries whose owner matches the term ignoring case; with any other term it holds at most 50 entries, and for page `p >= 1` exactly the window `L[min(s,n) .. min(s+50,n)]` |
| Home.CurrentList | src/app/components/home/index.tsx:37-53 | the displayed list is the selection of the active mode with each entry decorated, fields unchanged, in order |
| Home.ModeSelection | src/app/components/home/index.tsx:39-44 | a term of any length other than 42 shows the same as an empty term (no filtering), and a 42-character term shows the same on every page number |
| Home.PaginateModeWindow | src/app/components/home/index.tsx:41-44 | outside filter mode on page `p >= 1`, the displayed entries are `L[min(s,n) .. min(s+50,n)]` in order, at most 50, and none past the end |
| Home.FilterModeMatches | src/app/components/home/index.tsx:39-40 | in filter mode an entry is displayed if and only if its owner address equals the term ignoring case; the results are the matches in original order; each has a 42-character address |
| Home.PageShowsLoadIndices | src/app/components/home/index.tsx:42-67 | on a loaded list, entry `k` of page `p` carries index `(p-1)*50 + k + 1` and is the delivered entry at that position: derivation never renumbers |
| Home.HundredTwentyEntries | src/app/components/home/index.tsx:42-43 | with 120 entries, page 1 shows indices 1..50 and page 3 shows the 20 entries with indices 101..120 |
| Paging.OnPrev | src/app/components/home/index.tsx:75-78 | Prev on page 1 changes nothing; on any other page it moves back exactly one page; list and term are untouched; a page number of at least 1 stays at least 1 |
| Paging.OnNext | src/app/components/home/index.tsx:79-82 | Next changes nothing while fewer than 50 entries are shown, and otherwise moves forward exactly one page in every state; list and term are untouched; outside filter mode on a page `p >= 1` it advances exactly when page `p` is full, `(p-1)*50 + 50 <= n` |
| Paging.InitialState | src/app/components/home/index.tsx:27-35 | on mount the term is empty, the list is empty and the page is 1, so nothing is displayed and the Prev/Next controls are shown |
| Paging.Step | src/app/components/home/index.tsx:63-130 | Prev and Next do nothing while a 42-character term hides the buttons, and act as `OnPrev`/`OnNext` otherwise; typing replaces only the term; the list load replaces only the list, numbered in fetch order; no event resets the page |
| Paging.StepKeepsPageAtLeastOne | src/app/components/home/index.tsx:75-82 | no event takes a page number of at least 1 below 1 |
| Paging.PageNeverBelowOne | src/app/components/home/index.tsx:75-82 | from a page of at least 1 (the initial value is 1), any sequence of events keeps the page at least 1 |
| Paging.StepKeepsBounded | src/app/components/home/index.tsx:75-82 | over a fixed list, Prev, Next and typing keep `1 <= p` and `(p-1)*50 <= n` |
| Paging.StepBeforeLoad | src/app/components/home/index.tsx:79-82 | before the list arrives the buttons leave page 1 unchanged, and the load leads to a bounded state |
| Paging.RunBounded | src/app/components/home/index.tsx:75-82 | from an unloaded state with at most one load, or a bounded state with none, every run ends bounded |
| Paging.SessionStaysBounded | src/app/components/home/index.tsx:35-82 | in a session from mount with the one list load, every reachable state has page at least 1 and `(page-1)*50 <= n` |
| Paging.FullLastPageQuirk | src/app/components/home/index.tsx:79-82 | when the list ends exactly on a full page `k`, Next moves once to the empty page `k+1`, and Next there changes nothing |
| Paging.NextStopsOnPartialLastPage | src/app/components/home/index.tsx:79-82 | when the list does not end on a full page, its last page shows between 1 and 49 entries and Next there changes nothing |

## Left out

- The two HTTP fetches, the `.json()` parsing and the `|| {}` / `|| []` fallbacks (lines 6-23): network I/O over untyped JSON; the loaded list is the `Loaded` event's input.
- The summary record and its `Object.assign` merge (line 58), and `types.ts`'s `SummaryData`: display-only data with dynamic keys.
- React hooks and the memoization of `currentList`: the derivation is modelled as a plain function of its three inputs; caching does not change its result.
- Rendering: the JSX, `toLocaleString`, `+item.point`, the camel-case label regex, and the display-time `shortAddress.toLowerCase()` (lines 84-148).
- JsText.Lower: lower-cases ASCII `A`..`Z` only, where JavaScript's `toLowerCase` follows full Unicode case mapping. Some characters change length under the full mapping (`İ`, U+0130, becomes two UTF-16 units), so in JavaScript an owner address whose length is not 42 can still match a 42-character term. Home.FilterModeMatches therefore promises a 42-character address for every match only under the ASCII model.
- String length is the number of Dafny characters (Unicode scalar values), where JavaScript's `length` counts UTF-16 code units. The two agree for the hexadecimal addresses the list holds, but not for every search term a user can type. A term of 21 characters outside the Basic Multilingual Plane is 42 UTF-16 units long, so JavaScript enters filter mode and hides the buttons; Home.FilterMode sees length 21 and stays in paginate mode. Mode selection is therefore modelled faithfully only for terms made of BMP characters.
- Paging.SessionStaysBounded: covers sessions with at most one list load, as the code fetches once on mount; a second load of a shorter list, which the code never performs, could leave the page past the end.
- State updates after the component is torn down and the unhandled rejection of a failed fetch: runtime behaviour with no effect on the derived view.

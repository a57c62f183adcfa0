# Query history page, modelled in Dafny

The query-history page lists a signed-in user's past natural-language-to-SQL
sessions. It keeps four pieces of state (`historyEntries`, `searchTerm`,
`selectedEntry`, `copied`). When the user is known it turns each stored
`query_history` row into a `HistoryEntry`. It filters the entries by a
case-insensitive search of the prompt text, and it opens one entry in a dialog
from which its SQL can be copied to the clipboard.

The model has four modules:

- `Text` (Text.dfy) holds the string operations the page uses. `IndexOf` is the
  first-occurrence search. `Includes` is `String.prototype.includes`. `Split` is
  `split` with a string separator, and `Join` is its inverse. `Take` is
  `slice(0, n)` and `Lower` is an ASCII `toLowerCase`. `Occurrences` counts
  non-overlapping left-to-right occurrences independently of `Split`, and the
  lemmas connect the two.
- `History` (History.dfy) holds the stored row, the view-model entry, the
  row→entry mapping (`ToEntry`, `ToEntries`) and the search filter (`Matches`,
  `Filter`), with lemmas on order, multiplicity, idempotence and the empty term.
- `Page` (Page.dfy) holds the class `QueryHistoryPage`. Its fields are the four
  `useState` values and its methods are the callbacks that overwrite them. Each
  method states the new value of every field. `Valid()` is the invariant that
  every entry on the page was shaped from a row.
- `Scenarios` (Scenarios.dfy) works the example row
  `"SELECT * FROM sales\n---\nSELECT count(*) FROM sales"` through the
  mapping and the search.

The model's inputs stand in for the page's external collaborators:

- The signed-in user is an `Option<String>`.
- The backend's answer is an `Option<seq<Row>>`, with `None` for a null `data`.
- The clipboard write's outcome is a `bool`.
- The timer firing is a method call.

Where the code and the design description differ, the model follows the code:

- `queryCount` is at least 1 for every response, the empty one included. `""
  .split(sep)` has one segment.
- When there is no user, the list is left as it was. It is not cleared.

## Model

| member | source | states |
|---|---|---|
| Text.IndexOf | src/pages/QueryHistory.tsx:55 | the result is an index where the separator occurs with no occurrence before it; `None` means it occurs nowhere |
| Text.Includes | src/pages/QueryHistory.tsx:64 | `includes` is true exactly when the needle occurs somewhere in the string |
| Text.IncludesEmpty | src/pages/QueryHistory.tsx:64 | every string includes the empty string |
| Text.Occurrences | src/pages/QueryHistory.tsx:55 | the non-overlapping occurrences of the separator fit in the string: count × separator length ≤ string length |
| Text.Split | src/pages/QueryHistory.tsx:55 | `split` always returns at least one segment |
| Text.SplitCount | src/pages/QueryHistory.tsx:55 | `split` returns one segment more than the non-overlapping left-to-right occurrences of the separator |
| Text.JoinSplit | src/pages/QueryHistory.tsx:55 | joining the segments with the separator gives back the response, so no text is lost or reordered |
| Text.SplitSegmentsFree | src/pages/QueryHistory.tsx:55 | no segment contains the separator |
| Text.SplitSingle | src/pages/QueryHistory.tsx:55 | the single segment is the whole string exactly when the separator does not occur |
| Text.Take | src/pages/QueryHistory.tsx:53 | `slice(0, n)` is a prefix of the string of length min(n, length) |
| Text.LowerChar | src/pages/QueryHistory.tsx:64 | the folded character is never an ASCII capital, non-capitals are unchanged, and capitals move to their lower-case letter |
| Text.Lower | src/pages/QueryHistory.tsx:64 | `toLowerCase` keeps the length and folds every character in place |
| Text.LowerIdempotent | src/pages/QueryHistory.tsx:64 | lower-casing twice is lower-casing once |
| History.ToEntry | src/pages/QueryHistory.tsx:50-57 | `id`, `description` (the prompt) and `response` are copied verbatim; `date` is a prefix of `created_at` of length min(10, length); `queryCount` is the separator count plus 1, hence ≥ 1 |
| History.QueryCountOne | src/pages/QueryHistory.tsx:55 | an entry counts one query exactly when its response has no separator |
| History.ToEntries | src/pages/QueryHistory.tsx:49-58 | the mapping keeps the number and order of rows: entry i is built from row i |
| History.Filter | src/pages/QueryHistory.tsx:63-65 | an entry is in the result exactly when it is in the list and its lower-cased prompt includes the lower-cased term; the result is no longer than the list |
| History.FilterIsSubsequence | src/pages/QueryHistory.tsx:63-65 | the result is a subsequence of the list, in the original order |
| History.FilterMultiplicity | src/pages/QueryHistory.tsx:63-65 | a matching entry keeps every copy it had; a non-matching one has none |
| History.FilterConcat | src/pages/QueryHistory.tsx:63-65 | filtering a concatenation is concatenating the filtered parts |
| History.FilterAllMatch | src/pages/QueryHistory.tsx:63-65 | a list whose entries all match is returned unchanged |
| History.FilterIdempotent | src/pages/QueryHistory.tsx:63-65 | filtering the filtered entries with the same term gives them back |
| History.FilterEmptyTerm | src/pages/QueryHistory.tsx:63-65 | an empty search term keeps every entry |
| Scenarios.SalesSplit | src/pages/QueryHistory.tsx:55 | the example response splits into its two statements |
| Scenarios.SalesScenario | src/pages/QueryHistory.tsx:49-57 | the example row gives `queryCount` 2, `date` "2024-01-02" and `description` "show sales" |
| Scenarios.SearchScenario | src/pages/QueryHistory.tsx:63-65 | "SALES" matches the prompt "show sales" and "orders" does not |
| Page.QueryHistoryPage.constructor | src/pages/QueryHistory.tsx:33-36 | the initial state is an empty search, an empty list, no selection, not copied |
| Page.QueryHistoryPage.SetSearchTerm | src/pages/QueryHistory.tsx:112 | the search box replaces `searchTerm` and nothing else |
| Page.QueryHistoryPage.Load | src/pages/QueryHistory.tsx:39-61 | with a user and data, the list is replaced wholesale by the mapped rows; with no user or null data it is unchanged; no other state changes |
| Page.QueryHistoryPage.View | src/pages/QueryHistory.tsx:139-154 | View on the k-th shown card selects that entry, which is on the page and matches the search; nothing else changes |
| Page.QueryHistoryPage.OnOpenChange | src/pages/QueryHistory.tsx:199 | `onOpenChange(false)` clears the selection and `onOpenChange(true)` leaves it; nothing else changes |
| Page.QueryHistoryPage.Close | src/pages/QueryHistory.tsx:234 | Close clears the selection and so closes the dialog; nothing else changes |
| Page.QueryHistoryPage.Copy | src/pages/QueryHistory.tsx:76-85 | the open entry's response goes to the clipboard. On success `copied` becomes true, the "Copied!" toast shows and a 2000 ms reset is scheduled. On failure `copied` is unchanged, the destructive "Failed to copy." toast shows and no reset is scheduled |
| Page.QueryHistoryPage.TimerFired | src/pages/QueryHistory.tsx:81 | the reset timer sets `copied` to false and changes nothing else |

## Left out

- The backend query (`query_history` filtered by user and ordered newest first) and the
  authentication hook are external services. Their results are the inputs of `Load`. The
  rows' order and their owner are whatever the backend returned.
- `time` (`toLocaleTimeString`) and `formatDate` (`toLocaleDateString`) depend on the
  locale and the Date library. The entry has no `time` field.
- Text.Lower: folds only the ASCII letters A–Z, not the full Unicode `toLowerCase`.
- Text.Split: models only a non-empty string separator, which is the only kind the page
  passes. It also ignores `split`'s limit of 2^32−1 segments.
- Text.Take: models `slice(0, n)` for `n ≥ 0` only, which is the only form the page uses.
  Negative and relative bounds are not modelled.
- Page.QueryHistoryPage.Copy: the clipboard write, the toast display and the `setTimeout`
  scheduling are asynchronous platform calls. Only their outcome is modelled: success or
  failure, the toast produced and the delay requested. Overlapping timers are not
  modelled, nor is a timer firing after a later copy.
- A late fetch response arriving after the user has changed is asynchronous interleaving
  and is not modelled.
- The JSX rendering, the inert "Filter" and "Load More History" buttons and the UI
  component libraries are not modelled.

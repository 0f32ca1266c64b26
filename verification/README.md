# Photo critique: result history, rankings and share text

A Dafny model of the two pieces of sequential logic in a browser app that
scores screenshots from a social VR platform:

- **Result store and ranking query** (`services/storage.ts`). `saveAnalysisResult`
  reads the stored history. It appends the new result with a fresh id, the
  current time and a thumbnail. It sorts the list newest first, keeps 50 items
  and writes the list back, and it swallows every error. `getRankings` keeps the
  items younger than a day, a week or a month and orders them by total score,
  best first. It returns an empty list on any failure.
- **Share text** (`App.tsx`, inside `handleShare`). The app builds a four-line
  post: the score line, the title in corner brackets (cut to 10 code units),
  the summary with its line breaks flattened and cut to what is left of a
  100-code-unit budget, and `#VRChat`.

Modules:

- `Types` (`types.dfy`): the analysis result and the flat history item. Text is
  a sequence of UTF-16 code units, which are what JavaScript's `length` and
  `substring` count.
- `StableSort` (`stable_sort.dfy`): the sort that `Array.prototype.sort` performs
  with a comparator `(a, b) => key(b) - key(a)`. ECMA-262 requires that sort to
  be stable (section 23.1.3.30 of the 2023 edition). The specification
  `IsStableSortDesc` says the result is a rearrangement of the input, is
  non-increasing by key, and keeps the input order within each key. An
  insertion sort `SortDesc` meets it, and `StableSortUnique` shows the
  specification fixes the result.
- `Storage` (`storage.dfy`): local storage is one abstract cell,
  `Absent | Corrupt | Valid(items)`. `Absent` is a missing key or an empty
  string; both are falsy in JavaScript. `Corrupt` is any blob that `JSON.parse`
  rejects or that parses to a non-array (`push` or `filter` then throws). The
  clock, the id generator and the outcome of `setItem` are parameters
  (`now`, `id`, `writeFails`). Both operations are total functions, so neither
  can throw. `GetRankings` returns no new cell, so it never writes storage.
- `StorageExamples` (`storage_examples.dfy`): four items aged 25 hours, 2 days,
  10 days and 40 days, and what each window returns.
- `Share` (`share.dfy`): the share-text pipeline, with the score line as an
  input.

Behaviour of the code worth knowing:

- The ranking window is strict (`now - timestamp < window`), so an item 25
  hours old is not in the day ranking (`StorageExamples.WindowExample`).
- Equal scores keep their stored order, which is newest first, because
  `Array.prototype.sort` is stable.
- The new item is stored first when the clock is ahead of every stored
  timestamp (`Storage.SaveNewestFirst`). An item stamped no later than 50
  stored items sorts after them, being appended last, and is cut at once
  (`Storage.AppendedToFullStoreOfNewer`).

## Model

| member | source | states |
|---|---|---|
| `StableSort.SortDesc` | services/storage.ts:22 | the comparator sort gives a rearrangement of the input, non-increasing by key, with equal keys in input order |
| `StableSort.StableSortUnique` | services/storage.ts:22 | any two results meeting that stable-sort specification are equal, so "the stable sort" is well defined |
| `StableSort.SortDescOfSorted` | services/storage.ts:22 | re-sorting a list that is already newest first leaves it unchanged |
| `StableSort.InsertWithKey` | services/storage.ts:22 | inserting an element puts it ahead of every element with the same key and leaves the other keys' order alone |
| `Storage.NewItem` | services/storage.ts:7-12 | the new item carries every analysis-result field unchanged (its result part round-trips) plus the given id, `timestamp = now` and the thumbnail |
| `Storage.Appended` | services/storage.ts:18-22 | the written list has min(50, n+1) items, is newest first, and holds only old items and the new one |
| `Storage.SaveAnalysisResult` | services/storage.ts:5-30 | an unparseable blob or a failed write leaves storage unchanged; an absent key yields exactly `[newItem]`; otherwise the store holds at most 50 items, newest first; the well-formed-store invariant is preserved |
| `Storage.AppendedIsStableSortPrefix` | services/storage.ts:18-22 | the list written is exactly the first min(50, n+1) items of any list meeting the stable newest-first sort specification for the old items plus the new one |
| `Storage.SaveIsStableSortPrefix` | services/storage.ts:14-24 | for the whole save: the stored list is exactly the first min(50, n+1) items of the stable newest-first sort of the old list plus the new item |
| `Storage.AppendedKeepsAllBelowCap` | services/storage.ts:18-22 | with fewer than 50 old items the written list is a rearrangement of all old items plus the new one |
| `Storage.SaveKeepsAllBelowCap` | services/storage.ts:18-22 | for the whole save: below the cap no item is dropped, and the stored list is a rearrangement of the old items plus the new one |
| `Storage.AppendedEvictsOldest` | services/storage.ts:22 | every item cut by the cap is no newer than every item written |
| `Storage.SaveEvictsOldest` | services/storage.ts:22 | for the whole save: every dropped item is no newer than every kept item |
| `Storage.AppendedNewestFirst` | services/storage.ts:10-22 | a new item newer than every old item is written first |
| `Storage.AppendedToFullStoreOfNewer` | services/storage.ts:18-22 | appending an item no newer than any of 50 stored newest-first items writes the old list back unchanged, so the new item is cut |
| `Storage.SaveNewestFirst` | services/storage.ts:10-22 | for the whole save: when `now` is later than every stored timestamp the new item is stored at index 0 |
| `Storage.SaveThenRanked` | services/storage.ts:5-54 | when `now` is later than every stored timestamp, a result saved at `now` appears in any later ranking whose window still covers `now` |
| `Storage.WindowMs` | services/storage.ts:42-48 | a window is between one day and 30 days of milliseconds, and is one day exactly for the day ranking |
| `Storage.Recent` | services/storage.ts:41-51 | the window filter's output is no longer than its input and every item in it lies strictly inside the window |
| `Storage.RecentMembers` | services/storage.ts:41-51 | an item passes the window filter iff it is stored and `now - timestamp` is strictly below 1, 7 or 30 days of milliseconds |
| `Storage.RecentSubMultiset` | services/storage.ts:41-51 | the window filter adds no item and duplicates none |
| `Storage.RecentNested` | services/storage.ts:45-48 | filtering with a narrower window after a wider one is filtering with the narrower one |
| `Storage.GetRankings` | services/storage.ts:32-59 | absent or unparseable storage gives `[]`; otherwise the result is the stable score-descending sort of the in-window items, and an item appears iff it is stored and inside the window |
| `Storage.RankingsNested` | services/storage.ts:45-48 | the day ranking is contained in the week ranking, which is contained in the month ranking |
| `StorageExamples.WindowExample` | services/storage.ts:41-54 | for items aged 25 h, 2 d, 10 d and 40 d the day ranking is empty, the week ranking is the first two and the month ranking the first three |
| `Share.Substring` | App.tsx:168 | `substring` clamps its bounds and returns the plain slice for in-range bounds, the empty string for non-positive ones, and only code units of its input |
| `Share.TruncateTitle` | App.tsx:167-168 | a title of at most 10 code units is kept; a longer one becomes its first 9 plus "…", exactly 10 long |
| `Share.TruncateTitleIdempotent` | App.tsx:167-168 | shortening an already shortened title changes nothing |
| `Share.TitleLine` | App.tsx:169 | the title line is "「" + shortened title + "」", 2 to 12 code units |
| `Share.NormalizeNewlines` | App.tsx:176 | the flattened summary contains no line feed and is no longer than the input |
| `Share.NormalizeIsTwoPass` | App.tsx:176 | the one-pass replacement equals dropping each CR before an LF and then turning every LF into a space |
| `Share.NormalizeUnchangedIff` | App.tsx:176 | flattening leaves the summary unchanged iff it has no line feed |
| `Share.TruncateSummary` | App.tsx:177-179 | a summary that fits is kept; a longer one becomes its first max−1 code units plus "…", exactly max long when max ≥ 1, and a lone "…" when max ≤ 0; no line feed is introduced |
| `Share.ShareText` | App.tsx:172-181 | the share text is as long as the fixed part plus the fitted summary; the fixed part (`FixedLength`, App.tsx:172) counts score line, title line, `#VRChat` and three line feeds, the room left (`MaxSummaryLength`, App.tsx:173) is 100 minus that, and the third line (`SummaryLine`, App.tsx:176-179) is the flattened summary fitted to that room |
| `Share.ShareTextLength` | App.tsx:169-172 | the fixed part is at most 22 code units longer than the score line |
| `Share.ShareTextWithinBudget` | App.tsx:172-181 | when max ≥ 1 the text is at most 100 code units, and exactly 100 iff the flattened summary is at least max long (cut, or filling the budget exactly) |
| `Share.ShareTextBudgetIff` | App.tsx:172-181 | the text is within 100 code units iff max ≥ 1, or max = 0 with an empty flattened summary |
| `Share.ShortScoreLineFits` | App.tsx:163-181 | a score line of at most 77 code units always leaves room, so the text is within 100 code units |
| `Share.ShareTextLines` | App.tsx:181 | with no newline in the score line or title, splitting the text at newlines gives back score line, title line, fitted summary and `#VRChat` |

## Left out

- JSON serialisation and parsing, `localStorage`, `crypto.randomUUID` and `Date.now` are foreign calls. They become the abstract cell and the `now`, `id` and `writeFails` parameters. A stored array is taken to hold well-formed items, and a JSON round trip is taken to preserve them.
- `console.error` logging in the catch blocks is output only and is not modelled.
- `totalScore` and `timestamp` are JavaScript numbers. The model uses unbounded integers, so non-integer or NaN scores and float rounding in `now - timestamp` are not modelled.
- The `default: return true` branch of the period switch (services/storage.ts:49) cannot be reached with the typed period, which the model's `Period` datatype captures.
- The race between browser tabs on save's read-modify-write (the last writer wins) is concurrency and is not modelled.
- The guard at the start of `handleShare` (no result or no image) and the share dispatch after the text (`atob`, `File`, `navigator.share`, `window.open`) are browser I/O.
- The formatting of the score line (`totalScore` to string, App.tsx:163) is not modelled. The score line is an input.
- Image compression and thumbnail creation, the calls to the scoring service (services/gemini.ts, api/gemini.js, test-gemini.js) and the UI components are I/O, network and rendering.
- `Share.Lines` models `split("\n")` only to state that the share text's four lines can be recovered. The source never splits the text.

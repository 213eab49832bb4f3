# CHR GT Manager — a verified model of the sheet ingestion, loading and client filters

CHR GT Manager is a single-page map of client locations. It reads a Google Sheet exported as
CSV text and turns each data row into a `Client` record. When the sheet cannot be reached it
falls back to the last snapshot kept in the browser's `localStorage`. A side panel lists the
clients and filters them by a search text, a division and a store.

This project models that core in Dafny:

- `types.dfy` (module `Types`): the `Client` record of `types.ts` and an `Option` type.
- `text.dfy` (module `Text`): the JavaScript string built-ins the code relies on: `trim`,
  `toLowerCase`/`toUpperCase`, `includes`, `indexOf`, `replace` with a one-character pattern,
  `split` on one character, `parseInt`, and the decimal form of a number.
- `lists.dfy` (module `Lists`): `filter`, `map`, `Array.from(new Set(...))` and the default
  string `sort`.
- `csv_helper.dfy` (module `CsvHelper`): `utils/csvHelper.ts`. It covers:
  - `extractSheetId`;
  - `sanitizeLogoUrl`, both as written and corrected (see Findings);
  - the `parseCSVLine` tokenizer;
  - the tiered column resolver `getColIndex` and `idxMap`;
  - `getValue`;
  - `parseCSV`, an imperative loop proved against a specification function.
- `app.dfy` (module `App`): `loadData` of `App.tsx`. It is a class whose fields are the React
  state (`clients`, `isOfflineMode`, `isLoading`, `errorMsg`) plus the storage map. The
  loading and error screen gates are modelled too.
- `sidebar.dfy` (module `Sidebar`): `components/Sidebar.tsx`. It covers:
  - the sorted division and store option lists;
  - the search / division / store filter;
  - the selection state, including the effect that resets the store when the division changes.
- `legacy_sidebar.dfy` (module `LegacySidebar`): the older `Sidebar.tsx`. Its option lists are
  unsorted and its store list is not scoped by division. It also computes the two-letter avatar.

Network and browser services enter as parameters:

- A fetch outcome is `Fetch = Throws | NotOk | Ok(body)`.
- A stored snapshot is `Json(clients)` or `Corrupt(text)`.
- Whether `localStorage.setItem` succeeds is a boolean.
- `parseFloat` is a function `string -> Option<real>`, where `None` stands for NaN or an
  infinity. Every property holds for any such function.

The code behaves as follows on points where a reader might expect otherwise, and the model does
the same:

- Only the comma is a field separator. No semicolon detection exists.
- Within a tier, the leftmost matching header wins, whatever the order of the keywords. The
  order of the candidate lists does not matter.
- Blank lines are skipped, but they still count toward the `row-<i>` index.
- A parse that yields no record still counts as a success. It overwrites the snapshot with an
  empty list.
- The proxy's answer is used whatever its length. Only the direct answer is held to the
  50-character threshold.
- The snapshot holds the client list only, with no timestamp.

## Model

| member | source | states |
|---|---|---|
| Text.Trim | utils/csvHelper.ts:35 | the result is the slice of the input that has only white space before and after it, and it neither starts nor ends with white space; it is empty exactly when every character is white space |
| Text.TrimIdempotent | utils/csvHelper.ts:35 | trimming twice is trimming once |
| Text.TrimUnpadded | utils/csvHelper.ts:35 | a string with no white space at either end is its own trim |
| Text.IndexOf | utils/csvHelper.ts:100 | -1 exactly when the character is absent; otherwise the position of its first occurrence |
| Text.ReplaceFirst | utils/csvHelper.ts:100 | only the first occurrence of the character is replaced; every other position is unchanged |
| Text.SplitOn | utils/csvHelper.ts:46 | one piece more than there are separators, no piece holds the separator, and joining the pieces gives back the text |
| Text.SplitOnJoin | utils/csvHelper.ts:46 | splitting undoes joining when no piece holds the separator |
| Text.ParseInt | utils/csvHelper.ts:132 | a number is read only when the text holds a digit |
| Text.ParseIntDecimal | utils/csvHelper.ts:132 | `parseInt` reads a decimal form back to its number |
| Text.DecimalInjective | utils/csvHelper.ts:124 | different row indices have different decimal forms |
| Lists.Filter | components/Sidebar.tsx:45 | an element is kept exactly when it is in the list and passes the predicate |
| Lists.FilterIsSubseq | components/Sidebar.tsx:45 | a filter result is an order-preserving sub-list of its input |
| Lists.FilterAll | components/Sidebar.tsx:45 | a predicate that holds everywhere keeps the whole list |
| Lists.FilterNone | Sidebar.tsx:35-45 | a predicate that holds nowhere gives the empty list |
| Lists.FilterSamePredicate | Sidebar.tsx:35-45 | predicates that agree on every element filter alike |
| Lists.FilterFirstIndex | Sidebar.tsx:26 | filtering keeps the relative order of first occurrences of kept values |
| Lists.Distinct | Sidebar.tsx:26 | `Array.from(new Set(xs))` holds each element of the list exactly once |
| Lists.DistinctOrder | Sidebar.tsx:26 | the distinct values come in the order of their first occurrence |
| Lists.Sort | components/Sidebar.tsx:32 | the result is sorted in code-unit order and is a permutation of the input |
| Lists.StrLeTotal | components/Sidebar.tsx:32 | any two strings are ordered one way or the other |
| Lists.StrLeAntisymmetric | components/Sidebar.tsx:32 | two strings ordered both ways are equal |
| Lists.StrLeTransitive | components/Sidebar.tsx:32 | the string order is transitive |
| Lists.SortDistinct | components/Sidebar.tsx:31-32 | sorting a duplicate-free list keeps it duplicate-free with the same elements |
| Lists.SortedSetUnique | components/Sidebar.tsx:31-32 | two sorted, duplicate-free lists with the same elements are equal |
| CsvHelper.ExtractSheetId | utils/csvHelper.ts:3-6 | null exactly when no `/d/` occurrence can complete the match; otherwise the text after the first completing `/d/`, which never contains `/` |
| CsvHelper.CaptureEndWithoutBreaks | utils/csvHelper.ts:4 | on a line without line terminators the lazy capture after `/d/` always completes |
| CsvHelper.SheetIdOfOneLineUrl | utils/csvHelper.ts:3-6 | for a one-line URL the result is null exactly when the URL does not contain `/d/` |
| CsvHelper.StripQuotes | utils/csvHelper.ts:13 | one leading and one trailing quote are removed, each on its own; a lone quote gives `''`; a string with no quote at either end is left as it is |
| CsvHelper.DriveFileId | utils/csvHelper.ts:16-17 | an id is found exactly when the URL holds a Drive or Docs host followed on the same line by `id=` or `d/` and an id character; the id is the run of id characters after the first such marker behind the leftmost matching host |
| CsvHelper.DriveFileIdAsWritten | utils/csvHelper.ts:16-17 | the same existence condition, but the id follows the last such marker on the line, because the `.*` of the regular expression is greedy |
| CsvHelper.DriveIdFindsMatch | utils/csvHelper.ts:16-17 | the match starts at the first host; the lazy reading takes the first marker after it, the greedy reading the last marker on the line |
| CsvHelper.SanitizeLogoUrl | utils/csvHelper.ts:9-26 | `''` gives `''`; a cleaned URL in which a Drive id is found gives the thumbnail URL of that id; any other gives the cleaned URL |
| CsvHelper.SanitizeLogoUrlAsWritten | utils/csvHelper.ts:9-26 | the same three cases, with the id taken by the greedy capture of the code as written |
| CsvHelper.ShareLinkThumbnail | utils/csvHelper.ts:9-21 | a Drive share link `https://drive.google.com/file/d/<id><tail>` becomes the thumbnail URL of `<id>` |
| CsvHelper.GreedyTakesNextSegment | utils/csvHelper.ts:16-21 | as written, a share link `https://drive.google.com/file/d/<id>/<v>` that ends with `<v>`, a run of id characters, yields the thumbnail of `<v>` whenever `<id>` ends in `d` |
| CsvHelper.GreedyIdCounterexample | utils/csvHelper.ts:16-21 | as written, `https://drive.google.com/file/d/1abcd/view` yields the thumbnail of `view` |
| CsvHelper.CorrectedIdOnTrailingD | utils/csvHelper.ts:16-21 | corrected, the same link yields the thumbnail of `1abcd` |
| CsvHelper.FirstSplitFrom | utils/csvHelper.ts:31 | the first comma after a position that is followed by an even number of quotes, or -1 |
| CsvHelper.SplitFieldsJoin | utils/csvHelper.ts:31-32 | joining the fields with commas gives back the line |
| CsvHelper.SplitFieldsCuts | utils/csvHelper.ts:31-32 | the line is cut exactly at its split points: a comma is where one field ends and the next begins if and only if an even number of quotes follows it |
| CsvHelper.SplitFieldsQuoteFree | utils/csvHelper.ts:31-32 | on a line without quotes, the split is the plain split on commas |
| CsvHelper.CleanField | utils/csvHelper.ts:34-42 | a field without quotes is only trimmed |
| CsvHelper.CleanFieldQuoted | utils/csvHelper.ts:35-41 | a field whose trimmed text is `"v"` gives `v` with every `""` made `"` |
| CsvHelper.CleanFieldBare | utils/csvHelper.ts:35-41 | a value with no quote or white space at either end, its quotes doubled but not wrapped in quotes, is cleaned back to the value |
| CsvHelper.UndoubleDouble | utils/csvHelper.ts:41 | un-doubling undoes the doubling of quotes |
| CsvHelper.CleanFieldEncode | utils/csvHelper.ts:35-41 | a value wrapped in quotes with its quotes doubled is cleaned back to the value |
| CsvHelper.ParseCsvLine | utils/csvHelper.ts:29-43 | one cleaned field per split piece, and at least one field |
| CsvHelper.ParseCsvLineRoundTrip | utils/csvHelper.ts:29-43 | any list of values, each quoted with doubled quotes and joined by commas, parses back to that list, commas and quotes inside values included |
| CsvHelper.ParseCsvLineQuoteFree | utils/csvHelper.ts:29-42 | a quote-free line with k commas yields k+1 fields, each the trimmed piece |
| CsvHelper.AnyKeywordMeaning | utils/csvHelper.ts:58 | `keywords.some(...)` holds exactly when some keyword matches at the tier |
| CsvHelper.FindAtTier | utils/csvHelper.ts:58 | `findIndex` returns the first matching header at or after the start, or -1 with no match there |
| CsvHelper.ColIndex | utils/csvHelper.ts:54-71 | the index is -1 or a valid header index |
| CsvHelper.ColIndexTiers | utils/csvHelper.ts:54-71 | an exact match beats a prefix match, which beats a substring match with a keyword longer than 3; the leftmost header of the winning tier is returned; -1 exactly when no tier matches |
| CsvHelper.ColIndexKeywordOrder | utils/csvHelper.ts:58 | reordering the keywords does not change the column |
| CsvHelper.ColumnsResolve | utils/csvHelper.ts:74-89 | each field's column is `getColIndex` of the header row with that field's keyword list |
| CsvHelper.GetValue | utils/csvHelper.ts:98 | the cell when the index is inside the row, `''` when it is -1 or beyond the row |
| CsvHelper.CoordText | utils/csvHelper.ts:100-101 | the cell with its first comma replaced by a dot and nothing else changed; any comma left implies that dot |
| CsvHelper.LogoFor | utils/csvHelper.ts:106-119 | division `O152` or `Y150` forces its fixed thumbnail whatever the cell; otherwise the sanitized cell |
| CsvHelper.RowId | utils/csvHelper.ts:124 | the positional id starts with `row-` |
| CsvHelper.RowIdInjective | utils/csvHelper.ts:124 | different line indices give different positional ids |
| CsvHelper.DayCount | utils/csvHelper.ts:132 | `parseInt` of the cell, or 0 when that is NaN |
| CsvHelper.DayCountDecimal | utils/csvHelper.ts:132 | a decimal cell gives its number |
| CsvHelper.RowRecordFields | utils/csvHelper.ts:95-140 | a record exists exactly when both coordinates parse; its coordinates, code, division and logo are read from their columns; `id` is the code, or `row-<i>` when the code is empty |
| CsvHelper.SplitLines | utils/csvHelper.ts:46 | one line more than there are line feeds, and no line holds a line feed |
| CsvHelper.SplitLinesJoin | utils/csvHelper.ts:46 | splitting lines joined by line feeds gives them back |
| CsvHelper.SplitLinesCrlf | utils/csvHelper.ts:46 | splitting lines joined by CRLF gives them back, a line ending in a carriage return of its own included |
| CsvHelper.AcceptedLines | utils/csvHelper.ts:91-122 | the accepted data lines in strictly increasing order, all of them and nothing else |
| CsvHelper.EmitRangeLines | utils/csvHelper.ts:91-141 | the k-th record is the record of the k-th accepted line |
| CsvHelper.ReadRow | utils/csvHelper.ts:95-140 | the loop body with the reassigned logo computes the row's record |
| CsvHelper.ParseCsv | utils/csvHelper.ts:45-144 | the loop returns exactly the records of the specification, one per accepted line in line order |
| CsvHelper.SingleLineNoRecords | utils/csvHelper.ts:46-47 | a text without a line feed, the empty text included, gives no record |
| CsvHelper.ParsedRecordsOrigin | utils/csvHelper.ts:91-141 | every record comes from a non-blank line after the header and is that line's record; records follow line order; every such line with finite coordinates gives one |
| App.DirectText | App.tsx:32-42 | the text stays empty unless the direct response was ok |
| App.SheetText | App.tsx:31-50 | the text handed to the parser is the body of an ok direct or proxy response; `None` is the exception path |
| App.LongDirectAnswerWins | App.tsx:45 | a direct answer of 50 characters or more is used whatever the proxy would do |
| App.ShortDirectAnswerUsesProxy | App.tsx:44-50 | otherwise only the proxy decides; a thrown, non-ok or short direct attempt behave alike |
| App.FetchSheet | App.tsx:31-50 | the two attempts give the specified text; the proxy is tried exactly when the direct text is empty or shorter than 50 |
| App.Recover | App.tsx:61-72 | a parseable snapshot is restored; a corrupt non-empty one and a missing or empty one give two different messages |
| App.Cached | App.tsx:62 | a snapshot is read exactly when the `chr_gt_clients` key is present |
| App.ScreenOf | App.tsx:95-104 | the loading screen exactly while loading with no clients; the error screen only with a non-empty message, no clients and not loading; the map whenever there is a client |
| App.ScreenAfterLoad | App.tsx:95-104 | after a load the loading screen is gone, and the error screen shows exactly when there is a message and no client |
| App.MessagesShown | App.tsx:26-71 | every message loading can set reaches the error screen, and the two fallback messages differ |
| App.AppState.constructor | App.tsx:11-19 | the first render has no clients, is loading and shows the loading screen |
| App.AppState.BeginLoad | App.tsx:22-23 | every load starts loading with the error cleared, leaving the rest unchanged |
| App.AppState.FallBack | App.tsx:58-72 | the catch block restores the snapshot with the offline flag, or sets the matching message; storage is never written |
| App.AppState.Settle | App.tsx:52-72 | a parsed list is shown online and saved; a failed attempt or a failed save falls back on the old snapshot, after the parsed list (if any) was shown |
| App.AppState.LoadData | App.tsx:21-76 | no URL: an error and no request; the proxy is tried exactly when the direct text is short; success shows the parsed list online and overwrites the snapshot even when empty; otherwise the fallback on the old snapshot; loading always ends |
| Sidebar.SortedOptions | components/Sidebar.tsx:31-32 | sorted, duplicate-free, and exactly the non-blank values |
| Sidebar.Divisions | components/Sidebar.tsx:30-33 | sorted, duplicate-free, exactly the non-blank divisions of some client |
| Sidebar.DivisionsUnique | components/Sidebar.tsx:30-33 | any sorted, duplicate-free list of exactly those divisions is the division list |
| Sidebar.InDivision | components/Sidebar.tsx:37-40 | the clients of the selected division, or all of them for `'all'` |
| Sidebar.AvailableStores | components/Sidebar.tsx:36-43 | sorted, duplicate-free, exactly the non-blank stores of clients in the selected division (any division for `'all'`) |
| Sidebar.FilteredClients | components/Sidebar.tsx:45-55 | an order-preserving sub-list keeping a client exactly when the query is in its name, city or code and the division and store selections admit it |
| Sidebar.AllPass | components/Sidebar.tsx:45-55 | an empty query with both selections `'all'` lists every client |
| Sidebar.SidebarState.constructor | components/Sidebar.tsx:20-22 | an empty query with both selections `'all'`; the selection is valid |
| Sidebar.SidebarState.Visible | components/Sidebar.tsx:45-55 | the shown list is an order-preserving sub-list of the clients |
| Sidebar.SidebarState.SetSearchQuery | components/Sidebar.tsx:20 | only the query changes |
| Sidebar.SidebarState.SelectDivision | components/Sidebar.tsx:24-27 | a changed division resets the store to `'all'`, re-selecting keeps it, and the selected store stays one the panel offers |
| Sidebar.SidebarState.SelectStore | components/Sidebar.tsx:22 | only the store changes, to `'all'` or an offered store |
| Sidebar.ValidSelectionShowsClients | components/Sidebar.tsx:24-55 | with the reset, an offered store and an empty query, a non-empty division shows at least one client |
| LegacySidebar.FirstOccurrences | Sidebar.tsx:25-31 | duplicate-free, exactly the non-empty values, in order of first occurrence |
| LegacySidebar.Divisions | Sidebar.tsx:25-27 | exactly the non-empty divisions, with white-space-only ones kept, each once |
| LegacySidebar.Stores | Sidebar.tsx:29-31 | exactly the non-empty stores of all clients, whatever division is selected |
| LegacySidebar.FilteredClients | Sidebar.tsx:34-46 | an order-preserving sub-list keeping a client exactly when the query is in its name, code or city and both selections admit it |
| LegacySidebar.SameFilterAsSidebar | Sidebar.tsx:34-46 | the older filter returns the same list as the newer one |
| LegacySidebar.DisjointSelectionEmpty | Sidebar.tsx:41-42 | a division and a store that no client shares leave the list empty |
| LegacySidebar.AvatarInitials | Sidebar.tsx:139 | the first two characters of the name (fewer for a shorter name), upper-cased; a prefix of the upper-cased name |

## Left out

- Networking: `fetch`, the proxy address built with `encodeURIComponent`, and `response.text()`. Each attempt is a `Fetch` value. An error thrown while reading a direct body counts as `Throws`.
- Storage and JSON: `localStorage`, `JSON.stringify` and `JSON.parse`. The snapshot is `Json(clients)` or `Corrupt(text)`. Valid JSON that is not a client list is not modelled. The round trip of a list through JSON is taken as exact. That holds for the coordinates, which are finite, but not for a day count: `parseInt` of a cell of 309 or more digits is `Infinity`, the `|| 0` of utils/csvHelper.ts:132 keeps it, and `JSON.stringify` writes it as `null`. The model's day count is an unbounded integer.
- `localStorage.setItem` failing (for example a full quota) is the `saveOk` flag. No other way of throwing after the fetch exists, since the parser never throws.
- Floating point: `parseFloat` and `Number.isFinite` are the `parseFloat` parameter.
- `parseInt`: the value is exact and unbounded. Precision loss above 2^53 is not modelled.
- Text.LowerChar, Text.UpperChar: only ASCII and Latin-1 letters change case, and each to one Latin-1 letter. `ß`, `ÿ` and `µ` are left unchanged, although JavaScript upper-cases them outside Latin-1, and `"ß".toUpperCase()` is `"SS"`. Other Unicode case mappings are left out.
- LegacySidebar.AvatarInitials: promises as many characters as the name has, up to two. In JavaScript `"ßa"` gives three (`"SSA"`), because `"ß"` upper-cases to `"SS"`.
- JavaScript strings are UTF-16. A `char` here is a Unicode scalar value. Only characters outside the Basic Multilingual Plane differ, for example in `substring(0, 2)` of the avatar.
- Asynchrony and React scheduling: `loadData` runs to completion as one method. The renders during the awaits are covered only through `BeginLoad` and `ScreenOf`.
- Sidebar.SidebarState: a change of the `clients` input after mounting is not modelled.
- Sidebar.SidebarState.SelectDivision: merges the division change and the store reset into one step. In the component the reset is an effect (components/Sidebar.tsx:25-27), so one render pairs the new division with the old store, which the new division may not offer. The model does not capture that intermediate render.
- The legacy panel's selection setters are not modelled as state; its filter is a function of the three selection values.
- The dead `lines.length === 0` exit of `parseCSV` is not modelled, because `split` never returns an empty array.
- The service-worker registration, `handleSelectClient`, `handleLocateMe`, the JSX, the CSS classes and the icons.
- `components/MapView.tsx`, `MapView.tsx` and `ClientSheet.tsx` are not part of this model. They only render.
- The header tie-breaks for concrete sample headers are not stated as lemmas. They follow from `CsvHelper.ColIndexTiers` for any header row.

## Findings

| source | as written | input that shows it | evidently intended | confidence | as-written member | corrected member |
|---|---|---|---|---|---|---|
| utils/csvHelper.ts:16 | `.*` before `(?:id=\|d/)` is greedy, so the id is taken after the LAST `id=` or `d/` on the line | `https://drive.google.com/file/d/1abcd/view`: the id ends in `d`, so `d/` also occurs before `view`, and the logo becomes the thumbnail of `view` | the id after the first marker, here `1abcd` | medium; not executed | CsvHelper.GreedyIdCounterexample | CsvHelper.CorrectedIdOnTrailingD |

The corrected reading (`CsvHelper.SanitizeLogoUrl`) is the one the record builder uses. The
code as written is kept as `CsvHelper.SanitizeLogoUrlAsWritten`.
`CsvHelper.GreedyTakesNextSegment` shows the same effect for every share link of the form
`https://drive.google.com/file/d/<id>/<v>` whose id ends in `d` and whose last path segment
`<v>` is a run of id characters ending the link. Longer tails are not covered by the lemma.

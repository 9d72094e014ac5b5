# History list of the barcode scanner, modelled in Dafny

The `bs-history` custom element shows the values the scanner has read. Its
history is an ordered list of `{item, comment}` records kept in an external
key-value store. The element mirrors that list as one `<li>` row per record,
keyed by the record's `item` through its `data-value` attribute. Its
operations first rewrite the whole list in the store. Only when the store
reports success do they update the rows:

- `add` appends a record whose item is non-empty and not yet present, if
  the `addToHistory` setting is on;
- `remove` writes back the list without the records that have the key, then
  drops that key's row;
- `empty` writes an empty list, then clears the rows;
- `updateLatestComment` replaces the comment of the last record, then the
  comment text of the last row;
- the export button builds a `data:text/csv` string with one `item,comment`
  line per record.

The model has four modules:

- `HistoryList` (`history_list.dfy`) holds the records and the new lists the
  operations compute: `Find` (the duplicate check of `add`), `Filter` (the
  list `remove` writes) and `WithLatestComment` (the list
  `updateLatestComment` writes), with lemmas about them.
- `HistoryCsv` (`history_csv.dfy`) holds the export string. A small
  reference parser, which is not part of the source, reads the rows back.
  The round-trip lemma states what the unescaped format preserves.
- `CssSelector` (`css_selector.dfy`) models how a browser reads the selector
  `remove` builds: CSS Syntax Module Level 3 preprocessing (section 3.3), the
  string token (section 4.3.5) and its escapes (section 4.3.7). It is the
  reference against which the unescaped selector is judged.
- `HistoryComponent` (`history_component.dfy`) holds the class `BSHistory`.
  Its field `stored` is the list in the store and `rows` is the rendered
  rows. `Valid()` is the invariant the
  code relies on: items are pairwise distinct and non-empty, and `rows`
  equals `Render(stored)`. This invariant matters because `remove` deletes
  only the first row whose key matches, and `updateLatestComment` edits the
  last row. Every operation preserves `Valid()`.

The store calls `getHistory` and `setHistory` return an `(error, value)`
pair. Each operation therefore takes one boolean per call, saying whether
that call succeeds (`readOk`, `writeOk`). `GetHistory` and `SetHistory` are
the store's stand-ins. A failed write leaves the stored list as it was.
`add` reads the `addToHistory` setting afresh on every call, so `Add` takes
the result of that read as a parameter: `Some(flag)`, or `None` when the
read fails.

`add` re-renders every row rather than appending one. Under `Valid()` this
gives the same rows as appending, and `Add`'s contract states both.

`remove` finds the row through the CSS selector `li[data-value="${item}"]`,
built without escaping. `BSHistory.Remove` and `BSHistory.QueryRow` model
the intended lookup, which compares keys exactly. The code as written is
modelled separately by `RemoveAsWritten`, the subject of the Findings rows.
It drops the first row whose key equals the value `ReadSelector` reads from
the selector. For some keys that leaves the removed item's row on screen,
and for others it removes the row of a different item.

## Model

| member | source | states |
|---|---|---|
| HistoryList.Find | src/js/components/bs-history.js:207 | the index of the first record with that item when there is one, and none exactly when no record has it |
| HistoryList.Filter | src/js/components/bs-history.js:232 | a record is in the filtered list iff it was in the list and its item differs from the removed key, so no survivor has the key; the list never grows |
| HistoryList.FilterAppend | src/js/components/bs-history.js:232 | filtering distributes over concatenation, so the remaining records keep their relative order |
| HistoryList.FilterAbsent | src/js/components/bs-history.js:232 | removing a key no record has writes back the same list |
| HistoryList.FilterDistinctAt | src/js/components/bs-history.js:232-240 | in a list without duplicates, removing a present key drops exactly the record at its position, so the length falls by one |
| HistoryList.FilterPreservesInvariant | src/js/components/bs-history.js:232 | the filtered list keeps items pairwise distinct and non-empty |
| HistoryList.AppendFresh | src/js/components/bs-history.js:204-209 | appending a record with a fresh, non-empty item keeps items distinct and non-empty, and `Find` then returns the new last position |
| HistoryList.WithLatestComment | src/js/components/bs-history.js:403-404 | the rewritten list has the same length as the list read |
| HistoryList.LatestCommentKeepsItems | src/js/components/bs-history.js:403-404 | every item is unchanged, every record but the last is unchanged, the last comment is the new one, and distinctness and non-empty items are preserved |
| HistoryList.LatestCommentOverrides | src/js/components/bs-history.js:395-406 | a second comment update overrides the first |
| HistoryList.LatestCommentUnchanged | src/js/components/bs-history.js:403-404 | writing back the last record's own comment gives the list it came from |
| HistoryCsv.Line | src/js/components/bs-history.js:379 | a record's line is never empty, its item ends at a comma, and it holds no newline unless a field does |
| HistoryCsv.Lines | src/js/components/bs-history.js:379 | the export has one line per record |
| HistoryCsv.JoinLines | src/js/components/bs-history.js:379 | the joined text starts with the first line |
| HistoryCsv.SplitJoinLines | src/js/components/bs-history.js:379 | splitting the joined text at newlines gives the lines back when no line holds a newline |
| HistoryCsv.CsvRows | src/js/components/bs-history.js:379 | the exported rows are empty iff the history is |
| HistoryCsv.CsvContent | src/js/components/bs-history.js:377-379 | the export string starts with `data:text/csv;charset=utf-8,` |
| HistoryCsv.ExportExamples | src/js/components/bs-history.js:377-379 | the empty history exports just the prefix, and `[{A, x}]` exports the prefix followed by `A,x` |
| HistoryCsv.CsvRowsAppend | src/js/components/bs-history.js:379 | lines appear in list order, so appending a record appends a newline and its `item,comment` line |
| HistoryCsv.CommaInItemIsAmbiguous | src/js/components/bs-history.js:379 | fields are not escaped, so two different histories can export the same text |
| HistoryCsv.CsvRoundTrip | src/js/components/bs-history.js:377-379 | reading the exported rows back gives the history, record for record and in order, when no item holds a comma or newline and no comment a newline |
| HistoryComponent.Render | src/js/components/bs-history.js:261-275 | one row per record |
| HistoryComponent.RenderKeys | src/js/components/bs-history.js:288 | each row's key is its record's item, a key has no row iff no record has it, and a duplicate-free list gives distinct row keys |
| HistoryComponent.DropRow | src/js/components/bs-history.js:236-240 | removing the row found by an exact key lookup keeps only rows that were there, and shortens the rows by one iff some row has the key |
| HistoryComponent.DropRowMirrorsFilter | src/js/components/bs-history.js:232-240 | on rows rendered from a duplicate-free list, dropping the key's row gives the rendering of the filtered list |
| CssSelector.ReadSelector | src/js/components/bs-history.js:236 | the browser's reading of the selector built from `key`: a value read is at most the key plus the template's `"]`; `PlainKeyReadsItself` and `ReadsItselfIffPlain` state when it is the key itself |
| CssSelector.ReadsItselfIffPlain | src/js/components/bs-history.js:236 | the selector reads as the single equality `data-value == key` iff the key holds none of `"`, `\`, line feed, carriage return, form feed or NUL |
| CssSelector.PlainKeyReadsItself | src/js/components/bs-history.js:236 | for a key holding none of `"`, `\`, line feed, carriage return, form feed or NUL, the unescaped selector reads as the single equality `data-value == key` |
| CssSelector.QuotedKeyIsInvalid | src/js/components/bs-history.js:236 | for the key `a"b` the value closes after `a` and `b"]` is left over, so the selector is not one equality (it is invalid) |
| CssSelector.EscapedKeyReadsOtherValue | src/js/components/bs-history.js:236 | for the key `a\x` the selector looks for the value `ax` |
| CssSelector.HexEscapedKeyReadsCodePoint | src/js/components/bs-history.js:236 | for the key `\41 b` the hex escape stands for `A`, so the selector looks for the value `Ab` |
| CssSelector.InjectedKeyIsSelectorList | src/js/components/bs-history.js:236 | for the key `"],li,[x="` the value is empty and `],li,[x=""]` follows, so the selector is not one equality |
| HistoryComponent.RemoveAsWritten | src/js/components/bs-history.js:224-241 | as written, given a non-empty key and both store calls succeeding, the stored list keeps exactly the records of other keys, and otherwise it keeps every record; the rows never gain a row and lose at most one |
| HistoryComponent.EscapedKeyRemovesOtherRow | src/js/components/bs-history.js:224-241 | as written, `remove('a\x')` on `[{ax, ''}, {a\x, ''}]` with both store calls succeeding stores `[{ax, ''}]` but shows only the row `a\x`: the wrong row goes |
| HistoryComponent.QuotedKeyRowSurvivesRemove | src/js/components/bs-history.js:224-241 | as written, `remove('a"b')` with both store calls succeeding on the one-record history `[{a"b, ''}]` leaves `stored == []` and the row `a"b` still shown, so the rows no longer mirror the store |
| HistoryComponent.RemoveAsWrittenSafeKey | src/js/components/bs-history.js:224-241 | as written, `remove` keeps the rows mirroring the store for every key holding none of `"`, `\`, line feed, carriage return, form feed or NUL |
| HistoryComponent.BSHistory.constructor | src/js/components/bs-history.js:172-177 | after the initial load the rows are the rendering of the stored list and the invariant holds |
| HistoryComponent.BSHistory.RenderHistoryList | src/js/components/bs-history.js:261-275 | the loop replaces the rows with exactly `Render(data)` |
| HistoryComponent.BSHistory.QueryRow | src/js/components/bs-history.js:236-240 | the corrected selector lookup: the first row whose key equals the key exactly, or none iff no row has it |
| HistoryComponent.BSHistory.Add | src/js/components/bs-history.js:195-217 | stored becomes `old + [rec]` and rows gain that record's row iff the item is non-empty, the settings read succeeds with recording on, the read succeeds, the item is absent and the write succeeds; otherwise nothing changes; the invariant is kept |
| HistoryComponent.BSHistory.Remove | src/js/components/bs-history.js:224-243 | with the corrected lookup: given a non-empty key and both store calls succeeding, stored becomes the order-preserving filter, one shorter if the key was present and unchanged otherwise, and the rows lose the key's row; otherwise nothing changes; the invariant is kept |
| HistoryComponent.BSHistory.Empty | src/js/components/bs-history.js:248-254 | whatever the prior contents, a successful write empties both the stored list and the rows; a failed one changes nothing |
| HistoryComponent.BSHistory.UpdateLatestComment | src/js/components/bs-history.js:395-418 | on a non-empty list with both store calls succeeding, only the last record's comment becomes the new one, and the last row follows; on an empty list or a failed call nothing changes; the invariant is kept |
| HistoryComponent.BSHistory.ExportCsv | src/js/components/bs-history.js:370-379 | the export string of the stored list, or nothing when the read fails |

## Left out

- Styles and the HTML template (lines 4-157): presentation only.
- Row construction beyond the key and the comment text: the uuid-based ids, aria labels, the copy widget, the delete button and its SVG (lines 286-336).
- URL detection with `new URL(item)` (lines 292-300). It only chooses between a link and a span for the item text, so rows carry no kind.
- `encodeURI` and the anchor-click download (lines 381-387). The model stops at the string before encoding.
- The `window.confirm` prompts in the click handlers (lines 346-365), the event listener wiring, `disconnectedCallback` and `defineCustomElement`. These are user-interaction and registration plumbing.
- Async interleaving: each operation is one atomic step, so two overlapping operations cannot race on the store.
- The storage service and the `uuid` module are external. Their results are the operations' parameters: a boolean per history read or write, and the settings read as an `Option`.
- Store values that are not arrays, and the `history = []` default for a missing value. The stored list is always a sequence of records here.
- The missing-element guard in `#renderHistoryList` and the null `#historyListEl` in `remove` and `empty`. The element is assumed to be connected.
- Null records, missing comments and a truthy non-boolean `addToHistory`. Items and comments are strings and the flag is a boolean.
- HistoryComponent.RemoveAsWritten: when the selector does not read as one `data-value` equality (`ReadSelector` gives `OtherSelector`), the rows are left unchanged. That matches the source when the selector is invalid, as for `a"b`, where `querySelector` throws. A key can instead inject a selector list or a compound selector, such as `"],li,[x="`. `querySelector` then searches every element under the list, not only the rows, and `remove()` deletes the first element the injected selector matches. That may be the key's own row, another row, or a part of a row such as its item or comment span (for `"],.comment,[x="` the first row loses its comment text). `Row` cannot represent a row with a part missing, and selectors beyond the attribute value are not parsed.
- CssSelector.Preprocess: lone surrogates, which preprocessing replaces with U+FFFD, cannot occur in a Dafny `char`, so that step is not modelled.
- CssSelector.ReadSelector: a string cut off by the end of the input, as when the key ends in a backslash, is taken as closed there together with the attribute block, as CSS error recovery does. Browser differences in that recovery are not modelled.
- HistoryComponent.BSHistory.constructor: models only an initial load whose read succeeds and whose stored list is already free of duplicates and empty items. When that read fails, `connectedCallback` renders no rows even though the store may hold records, so the invariant does not hold.

## Findings

| source | as written | input that shows it | evidently intended | confidence | as-written member | corrected member |
|---|---|---|---|---|---|---|
| src/js/components/bs-history.js:236 | `remove` finds the row with `` li[data-value="${item}"] ``, interpolating the key without escaping. A key holding `"`, `\`, a line break, form feed or NUL gives a selector that is invalid, looks for a different value, or becomes another selector that the key injects; exactly the keys free of these characters are read back as themselves. For `a"b` the selector is invalid, so `querySelector` throws after `setHistory` has succeeded and the returned promise rejects. | history `[{item: 'a"b', comment: ''}]`, `remove('a"b')` with both store calls succeeding: the stored list becomes `[]` but the row stays | the row of the removed item disappears, e.g. by escaping the key with `CSS.escape` or by comparing `dataset.value` | medium, not executed | HistoryComponent.QuotedKeyRowSurvivesRemove | HistoryComponent.BSHistory.Remove |
| src/js/components/bs-history.js:236 | A backslash in the key starts a CSS escape, so the selector looks for a different value. For `a\x` it looks for `ax`. | history `[{item: 'ax', comment: ''}, {item: 'a\x', comment: ''}]`, `remove('a\x')` with both store calls succeeding: the stored list becomes `[{ax}]`, but the row `ax` is removed and the row `a\x` stays | the row of the removed item disappears and every other row stays | medium, not executed | HistoryComponent.EscapedKeyRemovesOtherRow | HistoryComponent.BSHistory.Remove |

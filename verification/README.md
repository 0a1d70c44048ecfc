# Bitácora: a Dafny model of the logbook's record store and view

The logbook page (`main.js`) keeps a list of time-tracking entries (`registros`).
Each entry has a date, a number of hours, an activity, a detail, a month and an
optional evidence attachment. Entries are added from an entry form or from an
uploaded spreadsheet. The page shows the entries through three optional filters
(exact date, exact month, case-insensitive activity substring), ten rows per
page. Under the table it shows the total hours of every matching entry. A row
can be edited in place, and evidence can be attached to a row that has none.

This project models that logic with the DOM taken away. The modules are:

- `JsValues` (`jsvalues.dfy`): the JavaScript values the logic observes.
  - `undefined` text.
  - Numbers that may be NaN, with NaN-absorbing `+`.
  - ASCII `toLowerCase`.
  - `includes`, with a proof that it means "occurs as a contiguous block".
  - `Array.prototype.slice` with its index resolution.
- `Records` (`records.dfy`): the record, and how the entry form, an uploaded row
  and an edit commit produce record fields. The file loader is written as a loop
  (`LoadRows`), just as the script's `forEach`/`push` is.
- `Filtering` (`filtering.dfy`): the three criteria and the filter. It also holds
  the filter exactly as the script writes it (`FilterAsWritten`), which can raise
  a TypeError (see Findings).
- `Totals` (`totals.dfy`): the left-to-right `reduce` of hours, and a reference
  definition it is proved against ("NaN if any hours are NaN, else the real sum").
- `Paging` (`paging.dfy`): the page count, the repair of a stale page number, the
  page slice, and the navigation controls with the page each click leads to.
- `Bitacora` (`bitacora.dfy`): the page as a state machine. Its state is
  `App(store: Store(records, currentPage), criteria, modes)`, where `modes` holds
  the Viewing/Editing mode of each visible row. `RenderAsWritten` models
  `mostrarRegistros` as written, including its TypeError. `Render` is the same
  redraw with the corrected filter (see Findings), and the state machine uses it.
  `Step` runs one event handler to completion.

Numbers are modelled as `Hours = NaN | Num(real)`. `parseFloat` is a parameter
`parse: string -> Hours`, so the model shows exactly where parsed values enter
the store. Three behaviours of `main.js` shape the model:

- An unparsable hours value is stored as whatever `parseFloat` returns (NaN),
  and the total of any filtered list holding it is then NaN, which
  `Bitacora.TotalOfMatches` states.
- The file loader keeps rows with an empty or missing date.
- A column missing from an uploaded file gives `undefined`, not "".

## Model

| member | source | states |
|---|---|---|
| `JsValues.IncludesIsOccurrence` | main.js:53 | `includes` holds exactly when the lower-cased filter occurs as a contiguous block of the lower-cased activity |
| `JsValues.LowerEmpty` | main.js:48-53 | lower-casing keeps emptiness, so testing `!filterActividad` after `toLowerCase` is the same as testing the raw input |
| `JsValues.SliceNonNegative` | main.js:63-65 | with non-negative ends, `slice` is the block between the ends cut to the list length |
| `Records.LoadRows` | main.js:192-202 | the `forEach`/`push` loop appends exactly one record per row after all earlier records, which stay unchanged, and none is dropped |
| `Filtering.Positions` | main.js:50-54 | the kept store positions are ascending; each one holds a record passing all three tests, and every such record's position is among them |
| `Filtering.FilterSelectsPositions` | main.js:50-54 | the filtered list is exactly the records at those positions, in store order, so it is the in-order subsequence of matching records |
| `Filtering.NoCriteriaKeepsAll` | main.js:50-54 | with all three filters empty, the filtered list is the whole store |
| `Filtering.FilterAppend` | main.js:50-54 | filtering distributes over concatenation, so appended records never change earlier matches |
| `Filtering.FilterSound` | main.js:50-54 | every record in the filtered list is a store record that passes all three tests |
| `Filtering.FilterComplete` | main.js:50-54 | every store record that passes all three tests is in the filtered list |
| `Filtering.FilterAsWrittenAgrees` | main.js:50-54 | the filter as written raises exactly when some record passes the date and month tests, the activity filter is non-empty, and the activity is undefined; otherwise it returns `Filter` |
| `Filtering.DefinedStoreNeverThrows` | main.js:22-29 | a store whose records all have defined text fields (as form and edit records do) never makes the filter raise |
| `Filtering.MissingActivityColumnThrows` | main.js:193-200 | after any store, a record uploaded from a row without an "Actividad" column makes the filter as written raise under any non-empty activity filter (with empty date and month filters); the corrected filter hides that record and keeps the earlier matches |
| `Totals.SumFromSpec` | main.js:57 | the left fold from any starting value is NaN if the start or any record's hours are NaN; otherwise it is the start plus the real sum |
| `Totals.TotalSpec` | main.js:57 | the total is NaN exactly when some record's hours are NaN; otherwise it is the sum of all the hours; it is 0 for no records |
| `Totals.TotalAppend` | main.js:57 | the total of two blocks of records is the sum of their totals |
| `Totals.RealSumAppend` | main.js:57 | the reference sum is additive over concatenation |
| `Paging.PageCount` | main.js:60 | the page count is the ceiling of n/10: the smallest count whose pages hold n records, and 0 only for an empty list |
| `Paging.Clamp` | main.js:61 | a page number of at least 1 ends in `[1, max(count, 1)]`; a page within range is kept; a page beyond the count snaps to the last page, or to 1 when nothing matches |
| `Paging.PageBounds` | main.js:63-65 | page p is positions `[(p-1)*10, min(p*10, n))` of the filtered list; it has at most 10 records and is non-empty for a page in range of a non-empty list |
| `Paging.PagesPrefix` | main.js:63-65 | pages `1..k` put together are the first `min(10k, n)` filtered records |
| `Paging.PagesConcat` | main.js:60-65 | pages `1..count` put together in order give back the whole filtered list |
| `Paging.NavigationInRange` | main.js:140-159 | from a page in range: with at most one page there are no controls; "previous" works exactly off page 1, "next" exactly before the last page, and a page button exactly for `1..count`; every target is in range |
| `Bitacora.RenderAsWritten` | main.js:42-65 | the redraw as written raises exactly when some record passes the date and month tests with an undefined activity under a non-empty activity filter; otherwise it draws exactly what `Render` draws |
| `Bitacora.DefinedStoreRendersAsWritten` | main.js:22-29 | when every record has defined text fields, as form and edit records do, the redraw as written never raises and equals `Render` |
| `Bitacora.Render` | main.js:42-65 | a redraw keeps the store's records; it leaves a page of at least 1 in `[1, max(count, 1)]` and a page already in range untouched; it shows at most 10 rows, each with a store position |
| `Bitacora.PageOfPositions` | main.js:50-65 | on any page, each row of the filtered list is the matching store record at the same page of the kept positions |
| `Bitacora.RowsAreMatchingRecords` | main.js:50-67 | each visible row is the store record at its row index, and it passes the filters |
| `Bitacora.RowsInStoreOrder` | main.js:50-67 | visible rows appear in store order |
| `Bitacora.RenderIdempotent` | main.js:42-65 | drawing again from the state a redraw leaves gives the same view and page, so the view holds no hidden state |
| `Bitacora.TotalIgnoresPage` | main.js:56-65 | the total shown under the table is the same whatever page is being displayed |
| `Bitacora.TotalOfMatches` | main.js:50-57 | the total is NaN exactly when some matching store record has NaN hours; otherwise it is the real sum over the matching records |
| `Bitacora.TotalOfFlatten` | main.js:57 | the total of blocks put together is the sum of the blocks' totals |
| `Bitacora.TotalIsSumOfPages` | main.js:56-65 | the total is the sum of the totals of all pages, not only the visible one |
| `Bitacora.StalePageSnapsToLast` | main.js:60-65 | a page number beyond the new page count becomes the last page (1 when nothing matches); when something matches, that page shows exactly the records left after the full pages before it, and at least one |
| `Bitacora.InitialConsistent` | main.js:6-8 | the page starts with no records, on page 1, with no rows |
| `Bitacora.RedrawFacts` | main.js:42-85 | a redraw keeps the records and the filters and redraws every row with its "Editar" button, in Viewing |
| `Bitacora.RedrawConsistent` | main.js:42-65 | after any redraw from a page of at least 1, the page is in range and every visible row is in Viewing |
| `Bitacora.NavigateConsistent` | main.js:140-159 | a navigation click leaves the page in range and one edit mode per visible row |
| `Bitacora.EditClickConsistent` | main.js:106-126 | an edit-button click, whether it begins an edit or saves one, leaves the page in range and one edit mode per visible row |
| `Bitacora.EvidenceChosenConsistent` | main.js:94-99 | attaching evidence leaves the page in range and one edit mode per visible row |
| `Bitacora.StepPreservesConsistency` | main.js:11-206 | every event handler leaves the page number in `[1, max(count, 1)]` and gives one edit mode per visible row |
| `Bitacora.FilterInputResetsPage` | main.js:37-39 | any filter input sets page 1 before the redraw, keeps the records, and shows page 1 of the new filtered list |
| `Bitacora.AppendKeepsPage` | main.js:31 | appending records never shrinks the filtered list, so the current page is never repaired |
| `Bitacora.SubmitAppends` | main.js:11-33 | a form submit appends exactly one record after the earlier, unchanged ones; it holds the form's strings, the parser's hours (NaN included) and the chosen evidence; page and filters are unchanged |
| `Bitacora.FileLoadAppends` | main.js:184-204 | loading n rows appends exactly n records in row order after the earlier, unchanged ones; none has evidence, an empty or missing date is kept, and page and filters are unchanged |
| `Bitacora.NavigateMoves` | main.js:140-159 | "previous" goes to p-1 and does nothing on page 1; "next" goes to p+1 and does nothing on the last page; a page button goes to its page; with at most one page nothing happens; records and filters are unchanged |
| `Bitacora.BeginEditChangesOnlyMode` | main.js:107-115 | a click on "Editar" only switches that row to Editing; the store, page, filters and other rows' modes are unchanged |
| `Bitacora.CommitEditChangesOneRecord` | main.js:116-126 | a click on "Guardar" overwrites the five editable fields of that row's record (hours through the parser) and keeps its evidence; other records and the store length are unchanged; every row returns to Viewing |
| `Bitacora.AttachEvidenceChangesOnlyEvidence` | main.js:88-101 | choosing a file for a row without evidence sets only that record's evidence reference; other fields, other records and the store length are unchanged |

## Left out

- Bitacora.Render: the state machine redraws with the corrected filter, so it never takes the TypeError path. What the page shows after the redraw raises is not modelled. The table is already cleared (main.js:43), the total and the pagination bar keep their earlier contents, and `currentPage` is not repaired. `Bitacora.RenderAsWritten` states exactly when the raise happens.
- DOM construction and row rendering (`innerHTML`, main.js:43, 67-85, 131, 138-160) are left out. The model produces the view's contents, not its markup.
- The evidence modal, its close button and `window.onclick` (main.js:164-181) are left out. They are display only.
- `URL.createObjectURL` (main.js:19, 97) is an opaque `BlobUrl` token. An evidence change with no file chosen (main.js:96) is modelled as an event that changes nothing. The loader's change event with no file (main.js:186) returns at once and has no event in the model.
- `Papa.parse` (main.js:188-191) is a foreign library. Only its output is modelled, as a sequence of header-keyed rows. Skipping empty lines is the parser's job.
- `parseFloat` is a parameter, not a definition. Doubles are reals: there is no rounding and no Infinity.
- `toLowerCase` handles ASCII letters only. Unicode case mapping is not modelled.
- The edit inputs' initial values (main.js:109-113) are not modelled. The commit takes whatever five values the inputs hold when "Guardar" is clicked.
- The model assumes a filter's value changes only together with its event. The month filter listens to `change` (main.js:38), so if it is a text box, its value could change before the event fires.
- Page numbers are unbounded integers. The script's doubles are exact in this range.
- The remote published-sheet loader is not part of this model. It does not appear in `main.js`.

## Findings

| source | as written | input that shows it | evidently intended | confidence | as-written member | corrected member |
|---|---|---|---|---|---|---|
| main.js:53 | `r.actividad.toLowerCase()` runs on every record that passes the date and month tests; records uploaded from a file without an `Actividad` column hold `undefined` there (main.js:196) | upload a file with header `Fecha,CantidadHoras,Detalle,Mes` and one data row, then type "a" into the activity filter: the filter raises a TypeError, so the table is left empty and the total and pagination are not redrawn | such a record does not match a non-empty activity filter and is hidden | medium; not executed | `Filtering.FilterAsWritten` (shown by `Filtering.MissingActivityColumnThrows`) | `Filtering.Filter` (characterised by `Filtering.FilterSelectsPositions`, related by `Filtering.FilterAsWrittenAgrees`, used by `Bitacora.Render`; the redraw as written is `Bitacora.RenderAsWritten`) |

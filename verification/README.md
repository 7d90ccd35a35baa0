# Art gallery cross-page selection, modelled in Dafny

The gallery is a browser view over a paginated artwork catalogue. It shows one
page of records at a time (10 per page) in a checkbox table and keeps a global
set of selected record identifiers. Its one piece of real logic is the bulk
select "select the first N rows". It fetches pages 1, 2, ... at the display
page size and appends their records to a buffer. It stops when the buffer
reaches N or the reported total, or when a request fails. Then it replaces the
selection with the identifiers of the first N buffered records. The table marks
as checked those rows of the current page whose identifier is selected.

Modules, one file each:

- `Artworks` (artworks.dfy): the record type, the page response and the
  endpoint type `Fetcher`. A `Fetcher` takes a 1-based page and a page size and
  returns `None` for a failed request. Also the identifier projection `Ids` and
  the leading slice `Take`.
- `BulkSelect` (bulk_select.dfy): `PagesUpTo` specifies the buffer after k
  pages. `IsLoopOutcome` characterises where the loop stops. `Accumulate` is the
  loop itself, proved against both. The lemmas cover determinism, provenance
  and termination.
- `Catalogue` (catalogue.dfy): a reference endpoint serving a fixed catalogue
  page by page. Against it, bulk select picks exactly the catalogue's first N
  records.
- `DataTableWithPopover` (data_table.dfy): the checked-row overlay, the first
  displayed row index, and the per-page selection merge (see Findings).
- `ArtGallery` (art_gallery.dfy): class `Gallery`, which holds the view's state
  fields. It has one method per handler. Each method states its whole new
  state; its `modifies` frame says which fields it may change.

The endpoint is a parameter (`fetch`). Every handler is one atomic step.

The model follows the code, including where a cross-page selection would be
expected to behave differently:
- The table's selection callback replaces the whole selection with the
  identifiers of the current page's checked rows. It does not add or remove
  one identifier. See Findings.
- No busy flag blocks a page change or a second submit while a bulk select is
  running. `loading` is only displayed.
- The bulk-select loop compares against `totalRecords` as it stood when the
  submit began. It never uses the total carried by the responses it fetches.

## Model

| member | source | states |
|---|---|---|
| Artworks.Ids | src/components/ArtGallery.tsx:43 | every record's identifier is in the set, every member of the set is some record's identifier, and the set is no larger than the list |
| Artworks.Take | src/components/ArtGallery.tsx:71 | `slice(0, n)` yields a prefix of the buffer of length min(n, buffer length) |
| BulkSelect.ValidTarget | src/components/ArtGallery.tsx:52 | defines the targets a submit accepts: 0 < inputRows <= totalRecords; any other target returns before a request |
| BulkSelect.Below | src/components/ArtGallery.tsx:58 | defines the loop guard: the buffer is shorter than both inputRows and totalRecords |
| BulkSelect.PagesUpTo | src/components/ArtGallery.tsx:58-64 | defines the buffer after k successful iterations: the records of pages 1..k fetched at the page size, concatenated in order; it is present iff every request for pages 1..k succeeds |
| BulkSelect.IsLoopOutcome | src/components/ArtGallery.tsx:58-68 | defines where the loop ends: the buffer is pages 1..pages, the guard held before each of those pages, and the loop left because the guard became false or because the request for page pages + 1 failed |
| Artworks.DistinctIdsCount | src/components/DataTableWithPopover.tsx:56 | when identifiers are unique, a list of records has exactly as many identifiers as records |
| Artworks.IdInPrefixIff | src/components/ArtGallery.tsx:71 | when identifiers are unique, record k's identifier is among those of the first n records iff k < n |
| BulkSelect.Accumulate | src/components/ArtGallery.tsx:55-69 | the loop ends with the buffer equal to pages 1..currentPage in order; the guard held before each of those pages; it left because buffer length reached the target or the total, or because the request for page currentPage + 1 failed, which does not advance currentPage; it stops within the given page count |
| BulkSelect.FailureSticks | src/components/ArtGallery.tsx:65-68 | once one page request has failed, no longer run of pages is complete |
| BulkSelect.PagesPrefix | src/components/ArtGallery.tsx:63 | the buffer only grows: the records of pages 1..k are a prefix of those of pages 1..m for k <= m |
| BulkSelect.LoopOutcomeUnique | src/components/ArtGallery.tsx:50-73 | two submits against an unchanged endpoint gather the same buffer after the same number of pages, so they commit the same selection |
| BulkSelect.EarlierOutcomeImpossible | src/components/ArtGallery.tsx:58-68 | no loop outcome stops at an earlier page than another outcome for the same inputs |
| BulkSelect.BufferFromFetchedPages | src/components/ArtGallery.tsx:63 | every buffered record was returned by one of the successfully fetched pages 1..k |
| BulkSelect.SelectionFromFetchedPages | src/components/ArtGallery.tsx:71 | the committed selection holds at most inputRows identifiers, each of them the identifier of a record of a fetched page |
| BulkSelect.ProgressingHalts | src/components/ArtGallery.tsx:58-64 | if every request made while the guard holds succeeds with at least one record, the loop stops (a halting page count exists) |
| BulkSelect.ProgressingFillsTarget | src/components/ArtGallery.tsx:52-71 | for a valid target, with no failures and non-empty pages, the committed prefix has exactly inputRows records and is a prefix of every longer run of pages |
| Catalogue.CataloguePagesUpTo | src/components/ArtGallery.tsx:60-63 | fetching pages 1..k of a fixed catalogue at limit records per page gathers exactly its first min(k * limit, size) records |
| Catalogue.CatalogueHalts | src/components/ArtGallery.tsx:58 | against a fixed catalogue with at least one record per page and a target no larger than the catalogue, the loop stops within target pages |
| Catalogue.CatalogueBulkSelect | src/components/ArtGallery.tsx:52-71 | for a valid target the committed prefix is exactly the catalogue's first inputRows records; with unique identifiers the selection has exactly inputRows members |
| DataTableWithPopover.SelectionOverlay | src/components/DataTableWithPopover.tsx:54 | a record is shown checked iff it is on the current page and its identifier is selected; the checked rows are a subsequence of the page, in page order |
| DataTableWithPopover.OverlayMultiplicity | src/components/DataTableWithPopover.tsx:54 | the overlay keeps every copy of a selected record and no copy of an unselected one, so with its order it is exactly `filter` |
| DataTableWithPopover.FirstRow | src/components/DataTableWithPopover.tsx:52 | defines the table's first displayed row index, page * rows, with page 0-based |
| DataTableWithPopover.OverlayIds | src/components/DataTableWithPopover.tsx:54 | the identifiers shown checked are exactly the page's identifiers that are selected |
| DataTableWithPopover.FirstRowMatchesFetchedPage | src/components/DataTableWithPopover.tsx:52 | the first displayed row index page * rows is the catalogue index of the first record of the page the gallery fetches (1-based page + 1) |
| DataTableWithPopover.OverlayOfSlice | src/components/DataTableWithPopover.tsx:54 | a displayed catalogue slice whose records are selected exactly below index n shows exactly its records below n as checked |
| DataTableWithPopover.OverlayOfPrefixSelection | src/components/DataTableWithPopover.tsx:54 | after the first n catalogue records are selected, a catalogue slice lo..hi shows exactly its records before index n as checked |
| DataTableWithPopover.DisplayedPageAfterBulkSelect | src/components/DataTableWithPopover.tsx:52-54 | after a bulk selection of the first n records, the displayed page shows checked the rows from its first row up to record n, clamped to the page (25 records, 10 per page, n = 15: page 2 shows records 11-15 checked and 16-20 unchecked) |
| DataTableWithPopover.EchoedOverlayDropsOffPageIds | src/components/DataTableWithPopover.tsx:55 | as written: a selected identifier not on the current page is absent from what the table reports, so replacing the selection with the report loses it |
| DataTableWithPopover.MergePageSelection | src/components/DataTableWithPopover.tsx:55 | corrected callback: defines the selection after a report as the old selection minus the current page's identifiers, plus the identifiers of the reported checked rows |
| DataTableWithPopover.MergeKeepsOtherPages | src/components/DataTableWithPopover.tsx:55 | corrected callback: identifiers off the current page keep their membership; on the page, membership follows the reported checked rows |
| DataTableWithPopover.MergeOverlay | src/components/DataTableWithPopover.tsx:54-55 | corrected callback: merging the overlay of any wanted set changes exactly the page's identifiers, to their membership in that set |
| DataTableWithPopover.MergeOverlayRoundTrip | src/components/DataTableWithPopover.tsx:54-55 | corrected callback: reporting the displayed overlay back unchanged leaves the selection as it was |
| DataTableWithPopover.UncheckRemovesOnlyThatId | src/components/DataTableWithPopover.tsx:54-55 | corrected callback: unchecking the row with identifier x removes exactly x from the selection |
| DataTableWithPopover.CheckAddsOnlyThatId | src/components/DataTableWithPopover.tsx:54-55 | corrected callback: checking the row with identifier x adds exactly x to the selection |
| ArtGallery.Gallery.constructor | src/components/ArtGallery.tsx:16-22 | initial state: no records, empty selection, page 0, total 0, 10 rows per page, not loading, input 0 |
| ArtGallery.Gallery.FetchArtworks | src/components/ArtGallery.tsx:24-36 | requests 1-based page p + 1; on success the page's records and the reported total replace the old ones; on failure both stay as they were; loading ends false; the selection and page are not in its frame |
| ArtGallery.Gallery.Refresh | src/components/ArtGallery.tsx:38-40 | reloads the page on display, with the same outcome as FetchArtworks for it |
| ArtGallery.Gallery.HandleRowSelect | src/components/ArtGallery.tsx:42-44 | the selection becomes exactly the identifiers of the given rows; previously selected identifiers not among them are removed |
| ArtGallery.Gallery.HandleInputChange | src/components/ArtGallery.tsx:46-48 | records the typed number and changes nothing else |
| ArtGallery.Gallery.HandleSubmit | src/components/ArtGallery.tsx:50-73 | a target <= 0 or > totalRecords changes nothing (selection and loading unchanged, no page gathered); otherwise the loop's outcome is IsLoopOutcome for the display page size and the current total, the selection becomes the identifiers of the first inputRows buffered records, and loading ends false |
| ArtGallery.Gallery.OnPageChange | src/components/ArtGallery.tsx:75-77 | only the page changes |
| ArtGallery.Gallery.OnSelectionChange | src/components/DataTableWithPopover.tsx:55 | corrected callback: the selection becomes the merge of the old selection with the reported rows of the current page |

## Left out

- The HTTP requests, the URL strings and the JSON shape are left out. The endpoint is the `fetch` parameter, which yields a page's records and reported total, or a failure.
- React's state hooks, effect scheduling and asynchronous interleaving are left out. Each handler is one atomic step, so a page change arriving during a running bulk select is not modelled. `loading` is recorded as the value it has when the handler finishes.
- The rendering is not part of this model: columns, overlay panel, header image and the form component (src/components/FormPopover.tsx). The form's `min={0}` bound is enforced by the widget library, so the model accepts any integer and the submit guard rejects the bad ones.
- src/components/PopOver.jsx is not part of this model. It is an unused UI stub. src/App.tsx only composes the view.
- Console error logging is left out.
- ArtGallery.Gallery.FetchArtworks: a failure replaces neither field. The source can also update only one. A response that has `data` but no `pagination` throws at src/components/ArtGallery.tsx:31, after line 30 has already replaced `artworks`, so `totalRecords` keeps its old value. The model leaves out malformed responses along with the JSON shape.
- BulkSelect.Accumulate: the source loop never ends if the endpoint keeps answering with empty pages while the buffer is below the guard. The model takes a ghost page count `stop` and requires `Halts`: the loop is known to have stopped by page `stop`. Runs that never stop are not modelled. `ProgressingHalts` and `CatalogueHalts` supply `stop` for well-behaved endpoints.
- ArtGallery.Gallery.HandleInputChange: the widget reports `null` when the field is cleared. That value is modelled as an integer. JavaScript compares `null` as 0, so the guard rejects it like 0.
- ArtGallery.Gallery.HandleSubmit: the fetch count is not observable in the model. "No request is made for an invalid target" is stated as an empty buffer and zero pages; the body returns before the loop.

## Findings

| source | as written | input that shows it | evidently intended | confidence | as-written member | corrected member |
|---|---|---|---|---|---|---|
| src/components/DataTableWithPopover.tsx:55 | The table reports only the current page's checked rows. `handleRowSelect` (src/components/ArtGallery.tsx:43) then replaces the whole selection with their identifiers. | Bulk-select 15 records at 10 per page, show page 2, uncheck record 15. The table reports records 11-14, and the identifiers of records 1-10 are dropped. | The report decides membership for the current page's identifiers only; selections on other pages are kept, and one toggle changes exactly one identifier. | medium, not executed | DataTableWithPopover.EchoedOverlayDropsOffPageIds | ArtGallery.Gallery.OnSelectionChange |

`HandleRowSelect` keeps the replacing behaviour as written. The bulk select relies on it, because replacing the whole set is what a bulk select intends. `OnSelectionChange` is the table callback with the corrected merge. `MergeOverlayRoundTrip`, `UncheckRemovesOnlyThatId`, `CheckAddsOnlyThatId` and `MergeKeepsOtherPages` prove the intended properties of that merge.

/**
 * The gallery view's state and its handlers. Every handler runs as one atomic
 * step; the endpoint is the `fetch` parameter.
 */
module ArtGallery {
  import opened Artworks
  import opened BulkSelect
  import DataTableWithPopover

  class Gallery {
    /** The records of the page on display. */
    var artworks: seq<Artwork>
    /** The identifiers of the selected records, across all pages. */
    var globalSelections: set<int>
    /** The page on display, 0-based. */
    var page: nat
    /** The total record count the endpoint last reported. */
    var totalRecords: int
    /** Records per page; never changed. */
    const rows: nat
    var loading: bool
    /** The number typed into the bulk-select form. */
    var inputRows: int

    constructor ()
      ensures artworks == [] && globalSelections == {} && page == 0 && totalRecords == 0
      ensures rows == PageSize && !loading && inputRows == 0
    {
      artworks, globalSelections, page, totalRecords := [], {}, 0, 0;
      rows := PageSize;
      loading, inputRows := false, 0;
    }

    /**
     * Loads 0-based page `p` (1-based page `p + 1` of the endpoint). On
     * success the page's records and the reported total replace the old ones;
     * on failure both are left as they were. The selection is not touched.
     */
    method FetchArtworks(fetch: Fetcher, p: nat)
      modifies this`artworks, this`totalRecords, this`loading
      ensures fetch(p + 1, rows).Some? ==>
        artworks == fetch(p + 1, rows).value.data && totalRecords == fetch(p + 1, rows).value.total
      ensures fetch(p + 1, rows).None? ==>
        artworks == old(artworks) && totalRecords == old(totalRecords)
      ensures !loading
    {
      loading := true;
      match fetch(p + 1, rows) {
        case Some(response) =>
          artworks := response.data;
          totalRecords := response.total;
        case None =>
      }
      loading := false;
    }

    /** The effect that reloads the page on display whenever `page` changes. */
    method Refresh(fetch: Fetcher)
      modifies this`artworks, this`totalRecords, this`loading
      ensures fetch(page + 1, rows).Some? ==>
        artworks == fetch(page + 1, rows).value.data && totalRecords == fetch(page + 1, rows).value.total
      ensures fetch(page + 1, rows).None? ==>
        artworks == old(artworks) && totalRecords == old(totalRecords)
      ensures !loading
    {
      FetchArtworks(fetch, page);
    }

    /** Replaces the whole selection by the identifiers of `selectedRows`. */
    method HandleRowSelect(selectedRows: seq<Artwork>)
      modifies this`globalSelections
      ensures globalSelections == Ids(selectedRows)
    {
      globalSelections := Ids(selectedRows);
    }

    /** Records the number typed into the form. */
    method HandleInputChange(value: int)
      modifies this`inputRows
      ensures inputRows == value
    {
      inputRows := value;
    }

    /**
     * Bulk select: an invalid target returns at once with nothing changed and
     * no request made. Otherwise the accumulation loop runs at the display page
     * size against the total last reported, and the selection becomes the
     * identifiers of the first `inputRows` gathered records. `buffer` and
     * `pages` expose the loop's final buffer and page cursor to the contract.
     */
    method HandleSubmit(fetch: Fetcher, ghost stop: nat) returns (ghost buffer: seq<Artwork>, ghost pages: nat)
      requires ValidTarget(inputRows, totalRecords) ==> Halts(fetch, rows, inputRows, totalRecords, stop)
      modifies this`loading, this`globalSelections
      ensures !ValidTarget(inputRows, totalRecords) ==>
        loading == old(loading) && globalSelections == old(globalSelections) && buffer == [] && pages == 0
      ensures ValidTarget(inputRows, totalRecords) ==>
        && IsLoopOutcome(fetch, rows, inputRows, totalRecords, buffer, pages)
        && globalSelections == Ids(Take(buffer, inputRows as nat))
        && !loading
    {
      if !ValidTarget(inputRows, totalRecords) {
        return [], 0;
      }
      loading := true;
      var fetched, currentPage := Accumulate(fetch, rows, inputRows, totalRecords, stop);
      HandleRowSelect(Take(fetched, inputRows as nat));
      loading := false;
      buffer, pages := fetched, currentPage;
    }

    /** The paginator's page change: only `page` changes. */
    method OnPageChange(p: nat)
      modifies this`page
      ensures page == p
    {
      page := p;
    }

    /**
     * The table's selection callback with a per-page merge: the rows reported
     * checked decide the membership of the current page's identifiers, every
     * identifier on another page keeps its membership, and one toggle changes
     * exactly one identifier.
     */
    method OnSelectionChange(checked: seq<Artwork>)
      modifies this`globalSelections
      ensures globalSelections == DataTableWithPopover.MergePageSelection(old(globalSelections), artworks, checked)
    {
      globalSelections := DataTableWithPopover.MergePageSelection(globalSelections, artworks, checked);
    }
  }
}

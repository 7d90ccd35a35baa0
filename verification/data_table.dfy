/**
 * The table component's own logic: the rows it shows as checked (the current
 * page's records whose identifier is in the global selection) and the index of
 * the first row it displays. Also a per-page selection merge for the table's
 * selection callback, under which identifiers on other pages keep their
 * membership and one toggle changes exactly one identifier (see
 * MergePageSelection).
 */
module DataTableWithPopover {
  import opened Artworks
  import opened Catalogue

  /** `s` is obtained from `t` by deleting elements, keeping the order of the rest. */
  ghost predicate IsSubsequence(s: seq<Artwork>, t: seq<Artwork>)
    decreases |t|
  {
    if s == [] then true
    else if t == [] then false
    else (s[0] == t[0] && IsSubsequence(s[1..], t[1..])) || IsSubsequence(s, t[1..])
  }

  /** The checked rows: `artworks.filter(a => globalSelections.has(a.id))`. */
  function SelectionOverlay(artworks: seq<Artwork>, globalSelections: set<int>): (checked: seq<Artwork>)
    ensures forall a :: a in checked <==> a in artworks && a.id in globalSelections
    ensures IsSubsequence(checked, artworks)
  {
    if artworks == [] then []
    else
      var rest := SelectionOverlay(artworks[1..], globalSelections);
      if artworks[0].id in globalSelections then [artworks[0]] + rest else rest
  }

  /**
   * The overlay keeps every copy of a selected record and no copy of an
   * unselected one, so together with the order it is exactly the filter.
   */
  lemma {:induction false} OverlayMultiplicity(artworks: seq<Artwork>, globalSelections: set<int>, a: Artwork)
    ensures multiset(SelectionOverlay(artworks, globalSelections))[a]
         == if a.id in globalSelections then multiset(artworks)[a] else 0
  {
    if artworks != [] {
      OverlayMultiplicity(artworks[1..], globalSelections, a);
      assert artworks == [artworks[0]] + artworks[1..];
    }
  }

  /** The identifiers shown as checked are those of the page that are selected. */
  lemma OverlayIds(artworks: seq<Artwork>, globalSelections: set<int>)
    ensures Ids(SelectionOverlay(artworks, globalSelections)) == Ids(artworks) * globalSelections
  {
    var checked := SelectionOverlay(artworks, globalSelections);
    forall i | i in Ids(artworks) * globalSelections ensures i in Ids(checked) {
      var a :| a in artworks && a.id == i;
      assert a in checked;
    }
  }

  /** The table's `first` prop: the index of the first displayed row (page is 0-based). */
  function FirstRow(page: nat, rows: nat): nat {
    page * rows
  }

  /**
   * The first displayed row index agrees with the page the gallery fetches
   * (1-based page `page + 1`): that page starts with the catalogue record at
   * index `FirstRow(page, rows)`.
   */
  lemma FirstRowMatchesFetchedPage(catalogue: seq<Artwork>, rows: nat, page: nat)
    requires rows >= 1
    requires FirstRow(page, rows) < |catalogue|
    ensures CatalogPage(catalogue, rows, page + 1) != []
    ensures CatalogPage(catalogue, rows, page + 1)[0] == catalogue[FirstRow(page, rows)]
  {
  }

  function Clamp(n: int, lo: int, hi: int): int {
    if n < lo then lo else if n > hi then hi else n
  }

  /**
   * A displayed slice `lo..hi` of the catalogue whose records are selected
   * exactly when their index is below `n` shows its records before `n` as
   * checked.
   */
  lemma {:induction false} OverlayOfSlice(catalogue: seq<Artwork>, selection: set<int>, n: nat, lo: nat, hi: nat)
    requires lo <= hi <= |catalogue|
    requires forall k :: lo <= k < hi ==> (catalogue[k].id in selection <==> k < n)
    ensures SelectionOverlay(catalogue[lo..hi], selection) == catalogue[lo..Clamp(n, lo, hi)]
    decreases hi - lo
  {
    if lo < hi {
      var page := catalogue[lo..hi];
      OverlayOfSlice(catalogue, selection, n, lo + 1, hi);
      assert page[0] == catalogue[lo] && page[1..] == catalogue[lo + 1..hi];
      if lo < n {
        assert catalogue[lo..Clamp(n, lo, hi)] == [catalogue[lo]] + catalogue[lo + 1..Clamp(n, lo + 1, hi)];
      }
    }
  }

  /**
   * After the first `n` catalogue records are selected, a displayed slice
   * `lo..hi` of the catalogue shows exactly its records before index `n` as
   * checked (identifiers unique within the catalogue).
   */
  lemma {:induction false} OverlayOfPrefixSelection(catalogue: seq<Artwork>, n: nat, lo: nat, hi: nat)
    requires DistinctIds(catalogue)
    requires n <= |catalogue| && lo <= hi <= |catalogue|
    ensures SelectionOverlay(catalogue[lo..hi], Ids(catalogue[..n])) == catalogue[lo..Clamp(n, lo, hi)]
  {
    forall k | lo <= k < hi ensures catalogue[k].id in Ids(catalogue[..n]) <==> k < n {
      IdInPrefixIff(catalogue, n, k);
    }
    OverlayOfSlice(catalogue, Ids(catalogue[..n]), n, lo, hi);
  }

  /**
   * The displayed page `page` (0-based) after a bulk selection of the first
   * `n` records: the checked rows run from the page's first row up to record
   * `n`, clamped to the page.
   */
  lemma {:induction false} DisplayedPageAfterBulkSelect(catalogue: seq<Artwork>, rows: nat, page: nat, n: nat)
    requires DistinctIds(catalogue)
    requires n <= |catalogue|
    ensures var lo := Min(FirstRow(page, rows), |catalogue|);
            var hi := Min(FirstRow(page, rows) + rows, |catalogue|);
            SelectionOverlay(CatalogPage(catalogue, rows, page + 1), Ids(catalogue[..n])) == catalogue[lo..Clamp(n, lo, hi)]
  {
    var lo := Min(FirstRow(page, rows), |catalogue|);
    var hi := Min(FirstRow(page, rows) + rows, |catalogue|);
    assert CatalogPage(catalogue, rows, page + 1) == catalogue[lo..hi];
    OverlayOfPrefixSelection(catalogue, n, lo, hi);
  }

  /**
   * The table reports the checked rows of the current page only, and the
   * gallery replaces the whole selection by their identifiers. Even when the
   * report is the displayed overlay unchanged, a selected identifier that is
   * not on the current page is missing from it, so it is lost.
   */
  lemma EchoedOverlayDropsOffPageIds(globalSelections: set<int>, artworks: seq<Artwork>, x: int)
    requires x in globalSelections && x !in Ids(artworks)
    ensures x !in Ids(SelectionOverlay(artworks, globalSelections))
    ensures Ids(SelectionOverlay(artworks, globalSelections)) != globalSelections
  {
    OverlayIds(artworks, globalSelections);
  }

  /**
   * The selection after the table reports the checked rows of the current
   * page: membership of identifiers on the page follows the report, and every
   * other identifier keeps its membership.
   */
  function MergePageSelection(globalSelections: set<int>, artworks: seq<Artwork>, checked: seq<Artwork>): set<int> {
    (globalSelections - Ids(artworks)) + Ids(checked)
  }

  /** Identifiers off the current page keep their membership; on the page, the report decides. */
  lemma MergeKeepsOtherPages(globalSelections: set<int>, artworks: seq<Artwork>, checked: seq<Artwork>, i: int)
    requires forall a :: a in checked ==> a in artworks
    ensures i !in Ids(artworks) ==> (i in MergePageSelection(globalSelections, artworks, checked) <==> i in globalSelections)
    ensures i in Ids(artworks) ==> (i in MergePageSelection(globalSelections, artworks, checked) <==> i in Ids(checked))
  {
    if i in Ids(checked) {
      var a :| a in checked && a.id == i;
      assert a in artworks;
    }
  }

  /** Merging the overlay of any selection `wanted` sets exactly the page's identifiers to `wanted`. */
  lemma MergeOverlay(globalSelections: set<int>, artworks: seq<Artwork>, wanted: set<int>)
    ensures MergePageSelection(globalSelections, artworks, SelectionOverlay(artworks, wanted))
         == (globalSelections - Ids(artworks)) + (Ids(artworks) * wanted)
  {
    OverlayIds(artworks, wanted);
  }

  /** Reporting the displayed overlay back unchanged leaves the selection as it was. */
  lemma MergeOverlayRoundTrip(globalSelections: set<int>, artworks: seq<Artwork>)
    ensures MergePageSelection(globalSelections, artworks, SelectionOverlay(artworks, globalSelections)) == globalSelections
  {
    MergeOverlay(globalSelections, artworks, globalSelections);
  }

  /** Unchecking the row with identifier `x` removes exactly `x` from the selection. */
  lemma UncheckRemovesOnlyThatId(globalSelections: set<int>, artworks: seq<Artwork>, x: int)
    requires x in Ids(artworks)
    ensures MergePageSelection(globalSelections, artworks, SelectionOverlay(artworks, globalSelections - {x}))
         == globalSelections - {x}
  {
    var merged := MergePageSelection(globalSelections, artworks, SelectionOverlay(artworks, globalSelections - {x}));
    MergeOverlay(globalSelections, artworks, globalSelections - {x});
    assert forall i :: i in merged <==> i in globalSelections && i != x;
  }

  /** Checking the row with identifier `x` adds exactly `x` to the selection. */
  lemma CheckAddsOnlyThatId(globalSelections: set<int>, artworks: seq<Artwork>, x: int)
    requires x in Ids(artworks)
    ensures MergePageSelection(globalSelections, artworks, SelectionOverlay(artworks, globalSelections + {x}))
         == globalSelections + {x}
  {
    var merged := MergePageSelection(globalSelections, artworks, SelectionOverlay(artworks, globalSelections + {x}));
    MergeOverlay(globalSelections, artworks, globalSelections + {x});
    assert forall i :: i in merged <==> i in globalSelections || i == x;
  }
}

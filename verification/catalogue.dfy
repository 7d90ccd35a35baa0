/**
 * A reference oracle for the artwork endpoint: a fixed catalogue, served one
 * page at a time, with the catalogue's size as the reported total and no
 * failures. Against it the accumulator's result is the catalogue's first N
 * records.
 */
module Catalogue {
  import opened Artworks
  import opened BulkSelect

  function Min(a: int, b: int): int {
    if a <= b then a else b
  }

  /** Page `p` (1-based) of `catalogue` at `limit` records per page; page 0 is empty. */
  function CatalogPage(catalogue: seq<Artwork>, limit: nat, p: nat): seq<Artwork> {
    if p == 0 then []
    else
      var start := Min((p - 1) * limit, |catalogue|);
      catalogue[start..Min((p - 1) * limit + limit, |catalogue|)]
  }

  /** The endpoint answering every request from `catalogue`. */
  function CatalogFetch(catalogue: seq<Artwork>): Fetcher {
    (p: nat, limit: nat) => Some(PageResponse(CatalogPage(catalogue, limit, p), |catalogue|))
  }

  /** Fetching pages 1..k of the catalogue gathers its first k * limit records. */
  lemma {:induction false} CataloguePagesUpTo(catalogue: seq<Artwork>, limit: nat, k: nat)
    ensures PagesUpTo(CatalogFetch(catalogue), limit, k) == Some(catalogue[..Min(k * limit, |catalogue|)])
  {
    if k > 0 {
      CataloguePagesUpTo(catalogue, limit, k - 1);
      assert k * limit == (k - 1) * limit + limit;
      var lo := Min((k - 1) * limit, |catalogue|);
      var hi := Min(k * limit, |catalogue|);
      assert catalogue[..lo] + catalogue[lo..hi] == catalogue[..hi];
    }
  }

  /** With at least one record per page, the loop stops within `target` pages. */
  lemma {:induction false} CatalogueHalts(catalogue: seq<Artwork>, limit: nat, target: int, total: int)
    requires limit >= 1
    requires target <= |catalogue|
    ensures Halts(CatalogFetch(catalogue), limit, target, total, if target < 0 then 0 else target)
  {
    var stop: nat := if target < 0 then 0 else target;
    CataloguePagesUpTo(catalogue, limit, stop);
    assert stop * limit >= stop;
  }

  /**
   * Bulk selection against an unchanged catalogue: for a valid target the
   * committed prefix is exactly the catalogue's first `target` records, and
   * with unique identifiers the selection has exactly `target` of them.
   */
  lemma {:induction false} CatalogueBulkSelect(catalogue: seq<Artwork>, limit: nat, target: int, total: int,
                                            buffer: seq<Artwork>, pages: nat)
    requires limit >= 1
    requires ValidTarget(target, total) && target <= |catalogue|
    requires IsLoopOutcome(CatalogFetch(catalogue), limit, target, total, buffer, pages)
    ensures Take(buffer, target as nat) == catalogue[..target]
    ensures DistinctIds(catalogue) ==> |Ids(Take(buffer, target as nat))| == target
  {
    CataloguePagesUpTo(catalogue, limit, pages);
    assert !Below(buffer, target, total);
    assert Take(buffer, target as nat) == catalogue[..target];
    if DistinctIds(catalogue) {
      var prefix := catalogue[..target];
      assert DistinctIds(prefix) by {
        forall j, k | 0 <= j < k < |prefix| ensures prefix[j].id != prefix[k].id {
          assert prefix[j] == catalogue[j] && prefix[k] == catalogue[k];
        }
      }
      DistinctIdsCount(prefix);
    }
  }
}

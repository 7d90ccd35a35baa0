/**
 * The "select the first N rows" accumulator of the gallery's submit handler:
 * starting from an empty buffer and page cursor 0, it fetches 1-based page
 * `cursor + 1` at the display page size and appends its records, for as long
 * as the buffer is shorter than both the target and the total record count;
 * a failed request ends the loop with what has been gathered.
 *
 * `PagesUpTo` is the specification of the buffer after a number of pages,
 * `IsLoopOutcome` characterises where the loop stops, and `Accumulate` is the
 * loop itself, proved against both.
 */
module BulkSelect {
  import opened Artworks

  /**
   * The records of pages 1..k concatenated in order, or None when one of
   * those requests fails.
   */
  function PagesUpTo(fetch: Fetcher, limit: nat, k: nat): (r: Option<seq<Artwork>>)
    ensures r.Some? <==> forall p :: 1 <= p <= k ==> fetch(p, limit).Some?
  {
    if k == 0 then Some([])
    else
      match PagesUpTo(fetch, limit, k - 1)
      case None => None
      case Some(buffer) =>
        match fetch(k, limit)
        case None => None
        case Some(response) => Some(buffer + response.data)
  }

  /** The target a submit accepts: anything else returns before any request. */
  predicate ValidTarget(target: int, total: int) {
    0 < target <= total
  }

  /** The loop guard: the buffer is shorter than both the target and the total. */
  predicate Below(buffer: seq<Artwork>, target: int, total: int) {
    |buffer| < target && |buffer| < total
  }

  /** Pages 1..j succeeded and the guard still held after each of them, for every j < pages. */
  predicate ContinuedThrough(fetch: Fetcher, limit: nat, target: int, total: int, pages: nat) {
    forall j :: 0 <= j < pages ==>
      PagesUpTo(fetch, limit, j).Some? && Below(PagesUpTo(fetch, limit, j).value, target, total)
  }

  /**
   * The loop stops at or before `pages`: either a request among pages
   * 1..pages fails, or after them the guard is false.
   */
  predicate Halts(fetch: Fetcher, limit: nat, target: int, total: int, stop: nat) {
    match PagesUpTo(fetch, limit, stop)
    case None => true
    case Some(buffer) => !Below(buffer, target, total)
  }

  /**
   * `buffer` and `pages` are where the loop ends: the buffer is exactly pages
   * 1..pages, the guard held before each of those pages was fetched, and the
   * loop left either because the guard became false or because the request for
   * page `pages + 1` failed.
   */
  predicate IsLoopOutcome(fetch: Fetcher, limit: nat, target: int, total: int,
                          buffer: seq<Artwork>, pages: nat)
  {
    && PagesUpTo(fetch, limit, pages) == Some(buffer)
    && ContinuedThrough(fetch, limit, target, total, pages)
    && (Below(buffer, target, total) ==> fetch(pages + 1, limit).None?)
  }

  /**
   * The accumulation loop. `pages` is the source's `currentPage`, `buffer`
   * its `fetchedArtworks`; `stop` is a page count by which the loop is known
   * to have stopped.
   */
  method Accumulate(fetch: Fetcher, limit: nat, target: int, total: int, ghost stop: nat)
    returns (buffer: seq<Artwork>, pages: nat)
    requires Halts(fetch, limit, target, total, stop)
    ensures IsLoopOutcome(fetch, limit, target, total, buffer, pages)
    ensures pages <= stop
  {
    buffer, pages := [], 0;
    while Below(buffer, target, total)
      invariant pages <= stop
      invariant PagesUpTo(fetch, limit, pages) == Some(buffer)
      invariant ContinuedThrough(fetch, limit, target, total, pages)
      decreases stop - pages
    {
      match fetch(pages + 1, limit)
      case None =>
        break;
      case Some(response) =>
        buffer := buffer + response.data;
        pages := pages + 1;
    }
  }

  /** Once a request has failed, every longer run of pages fails too. */
  lemma {:induction false} FailureSticks(fetch: Fetcher, limit: nat, k: nat, m: nat)
    requires k <= m
    requires PagesUpTo(fetch, limit, k).None?
    ensures PagesUpTo(fetch, limit, m).None?
    decreases m - k
  {
    if k < m {
      FailureSticks(fetch, limit, k + 1, m);
    }
  }

  /** The buffer only grows: pages 1..k are a prefix of pages 1..m. */
  lemma {:induction false} PagesPrefix(fetch: Fetcher, limit: nat, k: nat, m: nat)
    requires k <= m
    requires PagesUpTo(fetch, limit, m).Some?
    ensures PagesUpTo(fetch, limit, k).Some?
    ensures PagesUpTo(fetch, limit, k).value <= PagesUpTo(fetch, limit, m).value
    decreases m - k
  {
    if k < m {
      PagesPrefix(fetch, limit, k, m - 1);
    }
  }

  /**
   * The loop's outcome is determined by the oracle, the page size, the target
   * and the total: two submits against an unchanged catalogue gather the same
   * buffer after the same number of pages.
   */
  lemma LoopOutcomeUnique(fetch: Fetcher, limit: nat, target: int, total: int,
                          buffer1: seq<Artwork>, pages1: nat,
                          buffer2: seq<Artwork>, pages2: nat)
    requires IsLoopOutcome(fetch, limit, target, total, buffer1, pages1)
    requires IsLoopOutcome(fetch, limit, target, total, buffer2, pages2)
    ensures pages1 == pages2 && buffer1 == buffer2
  {
    if pages1 < pages2 {
      EarlierOutcomeImpossible(fetch, limit, target, total, buffer1, pages1, buffer2, pages2);
    } else if pages2 < pages1 {
      EarlierOutcomeImpossible(fetch, limit, target, total, buffer2, pages2, buffer1, pages1);
    }
  }

  /** No loop outcome stops earlier than another one. */
  lemma EarlierOutcomeImpossible(fetch: Fetcher, limit: nat, target: int, total: int,
                                 buffer1: seq<Artwork>, pages1: nat,
                                 buffer2: seq<Artwork>, pages2: nat)
    requires IsLoopOutcome(fetch, limit, target, total, buffer1, pages1)
    requires IsLoopOutcome(fetch, limit, target, total, buffer2, pages2)
    ensures pages2 <= pages1
  {
    if pages1 < pages2 {
      // the guard held after page pages1, so page pages1 + 1 failed
      assert PagesUpTo(fetch, limit, pages1).Some?;
      assert PagesUpTo(fetch, limit, pages1 + 1).None?;
      FailureSticks(fetch, limit, pages1 + 1, pages2);
    }
  }

  /** Every record in the buffer was returned by one of the fetched pages. */
  lemma {:induction false} BufferFromFetchedPages(fetch: Fetcher, limit: nat, k: nat,
                                                  buffer: seq<Artwork>, a: Artwork)
    requires PagesUpTo(fetch, limit, k) == Some(buffer)
    requires a in buffer
    ensures exists p :: 1 <= p <= k && fetch(p, limit).Some? && a in fetch(p, limit).value.data
  {
    if k > 0 {
      var previous := PagesUpTo(fetch, limit, k - 1).value;
      var response := fetch(k, limit).value;
      assert buffer == previous + response.data;
      if a in previous {
        BufferFromFetchedPages(fetch, limit, k - 1, previous, a);
      } else {
        assert a in response.data;
      }
    }
  }

  /**
   * The selection a submit commits, `Ids(Take(buffer, n))`, holds at most `n`
   * identifiers, and each of them is the identifier of a record of a page the
   * loop fetched.
   */
  lemma SelectionFromFetchedPages(fetch: Fetcher, limit: nat, pages: nat,
                                  buffer: seq<Artwork>, n: nat)
    requires PagesUpTo(fetch, limit, pages) == Some(buffer)
    ensures |Ids(Take(buffer, n))| <= n
    ensures forall i :: i in Ids(Take(buffer, n)) ==>
      exists p, a :: 1 <= p <= pages && fetch(p, limit).Some? && a in fetch(p, limit).value.data && a.id == i
  {
    var prefix := Take(buffer, n);
    forall i | i in Ids(prefix)
      ensures exists p, a :: 1 <= p <= pages && fetch(p, limit).Some? && a in fetch(p, limit).value.data && a.id == i
    {
      var a :| a in prefix && a.id == i;
      assert a in buffer;
      BufferFromFetchedPages(fetch, limit, pages, buffer, a);
    }
  }

  /**
   * Each request up to the point the loop could stop succeeds with at least
   * one record: while the buffer is below the guard, the next page is there
   * and is not empty.
   */
  ghost predicate Progressing(fetch: Fetcher, limit: nat, target: int, total: int) {
    forall k: nat :: PagesUpTo(fetch, limit, k).Some? && Below(PagesUpTo(fetch, limit, k).value, target, total) ==>
      fetch(k + 1, limit).Some? && |fetch(k + 1, limit).value.data| > 0
  }

  /** A progressing oracle makes the loop stop: a halting page count exists. */
  lemma {:induction false} ProgressingHalts(fetch: Fetcher, limit: nat, target: int, total: int,
                                            k: nat, buffer: seq<Artwork>)
    returns (stop: nat)
    requires Progressing(fetch, limit, target, total)
    requires PagesUpTo(fetch, limit, k) == Some(buffer) && k <= |buffer|
    ensures k <= stop
    ensures Halts(fetch, limit, target, total, stop)
    decreases target - k
  {
    if !Below(buffer, target, total) {
      stop := k;
    } else {
      var response := fetch(k + 1, limit).value;
      stop := ProgressingHalts(fetch, limit, target, total, k + 1, buffer + response.data);
    }
  }

  /**
   * With a valid target and a progressing oracle, the loop fills the target:
   * the committed prefix has exactly `target` records, the first `target`
   * records of the pages in order.
   */
  lemma ProgressingFillsTarget(fetch: Fetcher, limit: nat, target: int, total: int,
                               buffer: seq<Artwork>, pages: nat)
    requires Progressing(fetch, limit, target, total)
    requires ValidTarget(target, total)
    requires IsLoopOutcome(fetch, limit, target, total, buffer, pages)
    ensures |Take(buffer, target as nat)| == target
    ensures forall m: nat :: pages <= m && PagesUpTo(fetch, limit, m).Some? ==>
      Take(buffer, target as nat) <= PagesUpTo(fetch, limit, m).value
  {
    assert !Below(buffer, target, total);
    forall m: nat | pages <= m && PagesUpTo(fetch, limit, m).Some?
      ensures Take(buffer, target as nat) <= PagesUpTo(fetch, limit, m).value
    {
      PagesPrefix(fetch, limit, pages, m);
    }
  }
}

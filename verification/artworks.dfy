/**
 * The records of the artwork catalogue and the two projections the gallery
 * takes of a list of them: the set of their identifiers, and a leading slice.
 */
module Artworks {

  datatype Option<+T> = None | Some(value: T)

  /** One catalogue record, as the artwork endpoint returns it. */
  datatype Artwork = Artwork(
    id: int,
    title: string,
    placeOfOrigin: string,
    artistDisplay: string,
    inscriptions: string,
    dateStart: int,
    dateEnd: int)

  /** The two parts of a page response the gallery reads: `data` and `pagination.total`. */
  datatype PageResponse = PageResponse(data: seq<Artwork>, total: int)

  /**
   * The catalogue endpoint: given a 1-based page number and a page size
   * (`limit`), the page's records and the reported total, or None when the
   * request fails (network or HTTP error).
   */
  type Fetcher = (nat, nat) -> Option<PageResponse>

  /** The gallery's page size: the `rows` state, which is never updated. */
  const PageSize: nat := 10

  /** The identifiers of `rows`: `new Set(rows.map(row => row.id))`. */
  function Ids(rows: seq<Artwork>): (ids: set<int>)
    ensures forall a :: a in rows ==> a.id in ids
    ensures forall i :: i in ids ==> exists a :: a in rows && a.id == i
    ensures |ids| <= |rows|
  {
    if rows == [] then {} else {rows[0].id} + Ids(rows[1..])
  }

  /** `s.slice(0, n)`: the first `n` elements, or all of `s` when it is shorter. */
  function Take<T>(s: seq<T>, n: nat): (r: seq<T>)
    ensures r <= s
    ensures |r| == if n <= |s| then n else |s|
  {
    if n <= |s| then s[..n] else s
  }

  /** No identifier occurs twice (identifiers are unique within the catalogue). */
  predicate DistinctIds(rows: seq<Artwork>) {
    forall j, k :: 0 <= j < k < |rows| ==> rows[j].id != rows[k].id
  }

  /** With unique identifiers, a list of records has as many identifiers as records. */
  lemma {:induction false} DistinctIdsCount(rows: seq<Artwork>)
    requires DistinctIds(rows)
    ensures |Ids(rows)| == |rows|
  {
    if rows != [] {
      DistinctSplit(rows);
      DistinctIdsCount(rows[1..]);
    }
  }

  /** The first record's identifier does not recur, and the rest are still unique. */
  lemma DistinctSplit(rows: seq<Artwork>)
    requires DistinctIds(rows) && rows != []
    ensures DistinctIds(rows[1..])
    ensures rows[0].id !in Ids(rows[1..])
  {
    var tail := rows[1..];
    forall a | a in tail ensures a.id != rows[0].id {
      var k :| 0 <= k < |tail| && tail[k] == a;
      assert rows[k + 1] == a;
    }
  }

  /**
   * With unique identifiers, the record at index `k` has its identifier among
   * those of the first `n` records exactly when `k < n`.
   */
  lemma IdInPrefixIff(rows: seq<Artwork>, n: nat, k: nat)
    requires DistinctIds(rows)
    requires n <= |rows| && k < |rows|
    ensures rows[k].id in Ids(rows[..n]) <==> k < n
  {
    if k < n {
      assert rows[..n][k] == rows[k];
    }
  }
}

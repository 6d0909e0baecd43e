/** The page cut shared by both branches of `getAllMovies`
    (backend/controllers/movieController.js): a 1-based page of `limit` items,
    the item total and the number of pages. */
module Pagination {

  function Min(a: int, b: int): int {
    if a <= b then a else b
  }

  /** Offset of the first item of `page`. */
  function Offset(page: int, limit: int): (o: int)
    requires page >= 1 && limit >= 1
    ensures o >= 0
  {
    (page - 1) * limit
  }

  /** `list.slice((page - 1) * limit, page * limit)`; also what
      `.skip((page - 1) * limit).limit(limit)` returns from the store. Both
      clamp to the end of the list, so a page past the end is empty. */
  function Page<T>(s: seq<T>, page: int, limit: int): (r: seq<T>)
    requires page >= 1 && limit >= 1
    ensures |r| <= limit
    ensures |r| == if Offset(page, limit) >= |s| then 0 else Min(limit, |s| - Offset(page, limit))
    ensures forall i :: 0 <= i < |r| ==> Offset(page, limit) + i < |s| && r[i] == s[Offset(page, limit) + i]
  {
    var start := Min((page - 1) * limit, |s|);
    var end := Min(page * limit, |s|);
    assert page * limit == (page - 1) * limit + limit;
    s[start..end]
  }

  /** `Math.ceil(total / limit)` for a non-negative total and a positive limit. */
  function TotalPages(total: nat, limit: int): (pages: nat)
    requires limit >= 1
    ensures total == 0 ==> pages == 0
    ensures total > 0 ==> (pages - 1) * limit < total <= pages * limit
  {
    var q := (total + limit - 1) / limit;
    CeilingBounds(total, limit, q);
    q
  }

  lemma CeilingBounds(total: nat, limit: int, q: int)
    requires limit >= 1 && q == (total + limit - 1) / limit
    ensures q >= 0
    ensures total == 0 ==> q == 0
    ensures total > 0 ==> (q - 1) * limit < total <= q * limit
  {
    var r := (total + limit - 1) % limit;
    assert total + limit - 1 == q * limit + r && 0 <= r < limit;
    assert (q - 1) * limit == q * limit - limit;
  }

  /** A page beyond the last one is empty. */
  lemma PagePastLastIsEmpty<T>(s: seq<T>, page: int, limit: int)
    requires limit >= 1 && page > TotalPages(|s|, limit)
    ensures Page(s, page, limit) == []
  {
    var t := TotalPages(|s|, limit);
    assert page - 1 >= t;
    MulMonotone(t, page - 1, limit);
  }

  lemma MulMonotone(a: int, b: int, c: int)
    requires 0 <= a <= b && c >= 0
    ensures a * c <= b * c
  {
  }

  /** Pages 1 to n, one after another. */
  function FirstPages<T>(s: seq<T>, n: nat, limit: int): seq<T>
    requires limit >= 1
  {
    if n == 0 then [] else FirstPages(s, n - 1, limit) + Page(s, n, limit)
  }

  /** The first n pages are the first n * limit items. */
  lemma {:induction false} FirstPagesArePrefix<T>(s: seq<T>, n: nat, limit: int)
    requires limit >= 1
    ensures FirstPages(s, n, limit) == s[..Min(n * limit, |s|)]
  {
    if n > 0 {
      FirstPagesArePrefix(s, n - 1, limit);
      assert Offset(n, limit) == (n - 1) * limit;
      assert n * limit == (n - 1) * limit + limit;
      var lo := Min((n - 1) * limit, |s|);
      var hi := Min(n * limit, |s|);
      assert Page(s, n, limit) == s[lo..hi];
      assert s[..lo] + s[lo..hi] == s[..hi];
    }
  }

  /** Concatenating pages 1 to `TotalPages` rebuilds the whole list. */
  lemma PagesRebuildList<T>(s: seq<T>, limit: int)
    requires limit >= 1
    ensures FirstPages(s, TotalPages(|s|, limit), limit) == s
  {
    var t := TotalPages(|s|, limit);
    FirstPagesArePrefix(s, t, limit);
    assert Min(t * limit, |s|) == |s|;
  }
}

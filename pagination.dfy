/**
 * Page arithmetic of listings: which page a query asks for, and the
 * bookkeeping (first and last position shown, next/previous links) of the
 * response built around one page of items.
 */
module Pagination {
  import opened Wrappers

  /** The query's page and page size, each optional. */
  datatype Pagination = Pagination(page: Option<int>, pageSize: Option<int>)

  datatype PaginatedResponse<T> = PaginatedResponse(
    items: seq<T>,
    total: int,
    start: int,
    end: int,
    page: int,
    pageSize: int,
    hasNext: bool,
    hasPrev: bool)

  /** `Pagination::default`: the first page of fifteen. */
  function DefaultPagination(): (p: Pagination)
    ensures p.page == Some(1) && p.pageSize == Some(15)
  {
    Pagination(Some(1), Some(15))
  }

  /** The page, page size and row offset `paginate` queries with. */
  function PageArgs(p: Pagination): (r: (int, int, int))
    ensures r.0 == (if p.page.Some? then p.page.value else 1)
    ensures r.1 == (if p.pageSize.Some? then p.pageSize.value else 10)
    ensures r.2 == (r.0 - 1) * r.1
    ensures p.page.None? ==> r.2 == 0
  {
    var page := p.page.GetOr(1);
    var pageSize := p.pageSize.GetOr(10);
    (page, pageSize, (page - 1) * pageSize)
  }

  /** `PaginatedResponse::new`. */
  function NewResponse<T>(items: seq<T>, total: int, page: int, pageSize: int): (r: PaginatedResponse<T>)
    ensures r.items == items && r.total == total && r.page == page && r.pageSize == pageSize
    ensures r.hasPrev <==> page > 1
    ensures r.hasNext <==> (page - 1) * pageSize + |items| < total
    ensures r.start == (page - 1) * pageSize + 1
    ensures page == 1 ==> r.start == 1 && !r.hasPrev
    ensures r.end <= total && r.end <= page * pageSize
    ensures r.end == total || r.end == page * pageSize
  {
    var offset := (page - 1) * pageSize;
    var hasPrev := page > 1;
    var hasNext := offset + |items| < total;
    var start := (page - 1) * pageSize + 1;
    var end := if page * pageSize <= total then page * pageSize else total;
    PaginatedResponse(items, total, start, end, page, pageSize, hasNext, hasPrev)
  }

  /** `PaginatedResponse::default`: an empty first page of ten. */
  function DefaultResponse<T>(): (r: PaginatedResponse<T>)
    ensures r.items == [] && r.total == 0 && r.page == 1 && r.pageSize == 10
    ensures r.start == 1 && r.end == 1 && !r.hasNext && !r.hasPrev
  {
    PaginatedResponse([], 0, 1, 1, 1, 10, false, false)
  }

  /**
   * The default response is not the one `new` builds for an empty first page
   * of ten: it reports `end` 1 where `new` reports 0; every other field agrees.
   */
  lemma DefaultDiffersFromEmptyPage<T>()
    ensures NewResponse<T>([], 0, 1, 10) == DefaultResponse<T>().(end := 0)
  {
  }

  /** The rows a `LIMIT limit OFFSET offset` query returns, for non-negative bounds. */
  function PageRows<T>(rows: seq<T>, offset: nat, limit: nat): (r: seq<T>)
    ensures |r| == if offset >= |rows| then 0 else if offset + limit <= |rows| then limit else |rows| - offset
    ensures offset + |r| <= |rows| || r == []
    ensures forall k :: 0 <= k < |r| ==> r[k] == rows[offset + k]
  {
    if offset >= |rows| then []
    else if offset + limit <= |rows| then rows[offset..offset + limit]
    else rows[offset..]
  }

  /**
   * A response built from page `page` of `rows` (page and page size at least
   * one) is consistent with the rows it shows: there is a next page exactly
   * when some row lies after this page, `start` and `end` are the 1-based
   * positions of the first and last row shown, and a page past the end shows
   * nothing and has `end` before `start`.
   */
  lemma {:induction false} ResponseMatchesRows<T>(rows: seq<T>, page: int, pageSize: int)
    requires page >= 1 && pageSize >= 1
    ensures var offset := (page - 1) * pageSize;
      var items := PageRows(rows, offset, pageSize);
      var r := NewResponse(items, |rows|, page, pageSize);
      && (r.hasNext <==> page * pageSize < |rows|)
      && (items == [] <==> offset >= |rows|)
      && (items != [] ==> r.start == offset + 1 && r.end == offset + |items|)
      && (items == [] ==> r.end < r.start)
  {
    var offset := (page - 1) * pageSize;
    assert offset >= 0 && page * pageSize == offset + pageSize;
  }
}

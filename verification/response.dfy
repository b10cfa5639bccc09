/** The response envelopes the controllers send, and the page count of a
    paginated listing (`Math.ceil(total / limit)`). */
module Response {
  import opened Common

  datatype ApiResponse<T> = ApiResponse(success: bool, message: string, data: T)

  datatype Pagination = Pagination(page: int, limit: nat, total: nat, totalPages: nat)

  datatype PaginatedResponse<T> = PaginatedResponse(success: bool, data: seq<T>, pagination: Pagination)

  const DefaultMessage: string := "Operation successful"

  /** The number of pages of `limit` rows needed to show `total` rows:
      the least `n` with `n * limit >= total`. */
  function TotalPages(total: nat, limit: nat): (n: nat)
    requires limit > 0
    ensures n * limit >= total
    ensures n == 0 || (n - 1) * limit < total
    ensures n == 0 <==> total == 0
  {
    CeilingBounds(total, limit);
    (total + limit - 1) / limit
  }

  lemma CeilingBounds(total: nat, limit: nat)
    requires limit > 0
    ensures var n := (total + limit - 1) / limit;
      n >= 0 && n * limit >= total && (n == 0 || (n - 1) * limit < total) && (n == 0 <==> total == 0)
  {
    var x := total + limit - 1;
    var n, m := x / limit, x % limit;
    assert x == n * limit + m && 0 <= m < limit;
    assert n * limit == x - m;
    assert (n - 1) * limit == x - m - limit;
  }

  /** No smaller page count covers every row: the count is the least one. */
  lemma TotalPagesLeast(total: nat, limit: nat, k: nat)
    requires limit > 0
    requires k * limit >= total
    ensures TotalPages(total, limit) <= k
  {
  }

  /** A page whose offset is still inside the rows is one the page count
      includes. */
  lemma OffsetWithinPages(total: nat, limit: nat, p: nat)
    requires limit > 0 && p * limit < total
    ensures p < TotalPages(total, limit)
  {
    var n := TotalPages(total, limit);
    assert p * limit < n * limit;
    assert (n - p) * limit > 0;
  }

  /** The rows a page skips, `(page - 1) * limit`: every earlier page's worth. */
  function Offset(page: int, limit: nat): (skip: nat)
    requires page >= 1
    ensures page == 1 ==> skip == 0
  {
    var before: nat := page - 1;
    before * limit
  }

  /** Every row is shown on exactly one page, at the position its index
      gives: row `k` is row `k % limit` of page `k / limit + 1`, a page that
      the page count includes. */
  lemma EveryRowOnAPage<T>(rows: seq<T>, limit: nat, k: nat)
    requires limit > 0 && k < |rows|
    ensures var page := k / limit + 1;
      var w := Window(rows, Offset(page, limit), limit);
      && 1 <= page <= TotalPages(|rows|, limit)
      && k % limit < |w| && w[k % limit] == rows[k]
  {
    var q, m := k / limit, k % limit;
    assert k == q * limit + m && 0 <= m < limit;
    assert Offset(q + 1, limit) == q * limit;
    OffsetWithinPages(|rows|, limit, q);
  }

  /** `successResponse(data, message)`. */
  function SuccessResponse<T>(data: T, message: Option<string>): (r: ApiResponse<T>)
    ensures r.success && r.data == data
    ensures r.message == OrDefault(message, DefaultMessage)
    ensures r.message != ""
  {
    ApiResponse(true, OrDefault(message, DefaultMessage), data)
  }

  /** `paginatedResponse(data, page, limit, total)`. */
  function Paginated<T>(data: seq<T>, page: int, limit: nat, total: nat): (r: PaginatedResponse<T>)
    requires limit > 0
    ensures r.success && r.data == data
    ensures r.pagination.page == page && r.pagination.limit == limit && r.pagination.total == total
    ensures r.pagination.totalPages == TotalPages(total, limit)
    ensures r.pagination.totalPages * limit >= total
    ensures r.pagination.totalPages == 0 <==> total == 0
  {
    PaginatedResponse(true, data, Pagination(page, limit, total, TotalPages(total, limit)))
  }
}

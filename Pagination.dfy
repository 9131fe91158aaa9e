/**
  Offset pagination of the news listing: the query's `page` and `limit`
  are coerced to usable bounds, then turned into an offset and a page count.
  A query value is `None` when it is missing or not a number (JavaScript's
  `Number(...)` gives NaN for both).
 */
module Pagination {
  import opened Http

  const DefaultLimit := 10
  const MaxLimit := 100

  /** `Number(q) || d`: NaN and 0 are falsy and give the default. */
  function OrDefault(q: Option<int>, d: int): int
  {
    if q.Some? && q.value != 0 then q.value else d
  }

  /** The page after `|| 1` and the `page <= 0` reset. */
  function NormalisePage(q: Option<int>): (page: int)
    ensures page >= 1
    ensures q.Some? && q.value >= 1 ==> page == q.value
    ensures q.None? || q.value < 1 ==> page == 1
  {
    var page := OrDefault(q, 1);
    if page <= 0 then 1 else page
  }

  /** The limit after `|| 10` and the reset of values outside 1..100. */
  function NormaliseLimit(q: Option<int>): (limit: int)
    ensures 1 <= limit <= MaxLimit
    ensures q.Some? && 1 <= q.value <= MaxLimit ==> limit == q.value
    ensures q.None? || q.value < 1 || q.value > MaxLimit ==> limit == DefaultLimit
  {
    var limit := OrDefault(q, DefaultLimit);
    if limit <= 0 || limit > MaxLimit then DefaultLimit else limit
  }

  /** Records before the requested page. */
  function Skip(page: int, limit: int): (skip: int)
    requires page >= 1 && limit >= 1
    ensures skip >= 0
    ensures page == 1 <==> skip == 0
  {
    (page - 1) * limit
  }

  /** `Math.ceil(total / limit)`: the fewest pages of `limit` records that hold `total` records. */
  function TotalPages(total: nat, limit: int): (pages: nat)
    requires limit >= 1
    ensures pages * limit >= total
    ensures pages == 0 || (pages - 1) * limit < total
  {
    CeilDivBounds(total, limit);
    (total + limit - 1) / limit
  }

  lemma CeilDivBounds(total: nat, limit: int)
    requires limit >= 1
    ensures (total + limit - 1) / limit >= 0
    ensures (total + limit - 1) / limit * limit >= total
    ensures (total + limit - 1) / limit == 0 || ((total + limit - 1) / limit - 1) * limit < total
  {
    var q, r := (total + limit - 1) / limit, (total + limit - 1) % limit;
    assert total + limit - 1 == q * limit + r && 0 <= r < limit;
    assert q * limit >= total;
    if q > 0 {
      assert (q - 1) * limit == q * limit - limit;
    }
  }

  /** Number of records on a page of a listing of `total` records. */
  function PageLength(total: nat, page: int, limit: int): (n: nat)
    requires page >= 1 && limit >= 1
    ensures n <= limit
    ensures Skip(page, limit) + n <= total || n == 0
    ensures n == 0 <==> Skip(page, limit) >= total
    // a full page while at least `limit` records remain, otherwise the rest of the listing
    ensures Skip(page, limit) + limit <= total ==> n == limit
    ensures Skip(page, limit) < total < Skip(page, limit) + limit ==> Skip(page, limit) + n == total
  {
    var skip := Skip(page, limit);
    if skip >= total then 0 else if total - skip < limit then total - skip else limit
  }

  /**
    A page holds records exactly when its number is at most the page count
    reported in the metadata.
   */
  lemma {:induction false} NonEmptyPageIffWithinTotal(total: nat, page: int, limit: int)
    requires page >= 1 && limit >= 1
    ensures PageLength(total, page, limit) > 0 <==> page <= TotalPages(total, limit)
  {
    var pages := TotalPages(total, limit);
    var skip := Skip(page, limit);
    if page <= pages {
      MulMonotone(page - 1, pages - 1, limit);
      assert skip <= (pages - 1) * limit < total;
    } else {
      MulMonotone(pages, page - 1, limit);
      assert skip >= pages * limit >= total;
    }
  }

  lemma MulMonotone(a: int, b: int, c: int)
    requires a <= b && c >= 0
    ensures a * c <= b * c
  {
    assert b * c - a * c == (b - a) * c;
  }
}

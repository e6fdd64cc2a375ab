/** The paging of `list_users`: the LIMIT/OFFSET window the query returns
    and the pagination block computed in Python from the row count. */
module Pagination {
  import opened Http

  /** Python's floor division `a // b`. Dafny's `/` is Euclidean, which
      agrees with flooring only for a positive divisor. */
  function FloorDiv(a: int, b: int): (q: int)
    requires b != 0
    ensures b > 0 ==> q * b <= a < q * b + b
    ensures b < 0 ==> q * b + b < a <= q * b
  {
    if b > 0 then a / b else (-a) / (-b)
  }

  /** LIMIT and OFFSET take a bigint. */
  const MaxBigint := 0x7FFF_FFFF_FFFF_FFFF

  /** A LIMIT or OFFSET value PostgreSQL accepts: a negative one is refused,
      and one beyond the bigint range fails its conversion to bigint. */
  predicate LimitAccepted(x: int) {
    0 <= x <= MaxBigint
  }

  /** The "pagination" object of the response. */
  datatype PageInfo = PageInfo(total: int, limit: int, offset: int, hasMore: bool, pages: int)

  /** The pagination block for `total` matching rows; a zero `limit` makes
      `(total + limit - 1) // limit` raise ZeroDivisionError, which the
      handler reports as an internal error. */
  function Paginate(total: int, limit: int, offset: int): (r: Result<PageInfo, ApiError>)
    ensures r.Err? <==> limit == 0
    ensures r.Err? ==> r.error == Internal
    ensures r.Ok? ==> r.value.total == total && r.value.limit == limit && r.value.offset == offset
    ensures r.Ok? ==> (r.value.hasMore <==> offset + limit < total)
    ensures r.Ok? && limit > 0 && total >= 0 ==>
              (r.value.pages - 1) * limit < total <= r.value.pages * limit
  {
    if limit == 0 then Err(Internal)
    else
      var pages := FloorDiv(total + limit - 1, limit);
      CeilingBounds(total, limit, pages);
      Ok(PageInfo(total, limit, offset, offset + limit < total, pages))
  }

  lemma CeilingBounds(total: int, limit: int, pages: int)
    requires limit > 0 ==> pages * limit <= total + limit - 1 < pages * limit + limit
    ensures limit > 0 ==> (pages - 1) * limit < total <= pages * limit
  {}

  /** For a positive limit, `pages` is the number of pages of `limit` rows
      needed for `total` rows: the least count whose pages hold them all, so
      no rows give no pages and a partly filled last page still counts. */
  lemma PagesIsCeiling(total: nat, limit: int)
    requires limit > 0
    ensures Paginate(total, limit, 0).Ok?
    ensures var p := Paginate(total, limit, 0).value.pages;
            p >= 0 && p * limit >= total && (p == 0 || (p - 1) * limit < total)
    ensures Paginate(total, limit, 0).value.pages == 0 <==> total == 0
    ensures total % limit == 0 ==> Paginate(total, limit, 0).value.pages * limit == total
  {
    var p := Paginate(total, limit, 0).value.pages;
    if p < 0 {
      NegTimesPositive(p, limit);
    }
    if total == 0 && p > 0 {
      NonNegTimesPositive(p - 1, limit);
    }
    if total % limit == 0 {
      var k := total / limit;
      assert total == k * limit;
      if p > k {
        StepTimes(k, p, limit);
      } else if p < k {
        StepTimes(p, k, limit);
      }
    }
  }

  lemma StepTimes(a: int, b: int, c: int)
    requires a < b && c > 0
    ensures a * c <= (b - 1) * c && (b - 1) * c + c == b * c
  {}

  lemma NegTimesPositive(a: int, b: int)
    requires a < 0 && b > 0
    ensures a * b <= -b
  {}

  lemma NonNegTimesPositive(a: int, b: int)
    requires a >= 0 && b > 0
    ensures a * b >= 0
  {}

  /** `LIMIT limit OFFSET offset` applied to the ordered rows: the rows from
      position `offset` on, at most `limit` of them. */
  function Window<T>(s: seq<T>, limit: nat, offset: nat): (w: seq<T>)
    ensures |w| <= limit
    ensures |w| == if offset >= |s| then 0 else if offset + limit <= |s| then limit else |s| - offset
    ensures forall i | 0 <= i < |w| :: w[i] == s[offset + i]
  {
    if offset >= |s| then [] else if offset + limit <= |s| then s[offset..offset + limit] else s[offset..]
  }

  /** `has_more` is true exactly when rows that match lie beyond the page
      returned: fewer than `total` rows are covered by the offset and the page. */
  lemma HasMoreIffRowsBeyondPage<T>(s: seq<T>, limit: nat, offset: nat)
    requires limit > 0
    ensures Paginate(|s|, limit, offset).Ok?
    ensures Paginate(|s|, limit, offset).value.hasMore <==> offset + |Window(s, limit, offset)| < |s|
  {}
}

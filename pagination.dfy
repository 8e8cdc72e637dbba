/** The pagination arithmetic every list endpoint repeats (for instance
    backend/src/controllers/video.controller.js lines 21-23 and 92):
    `pageNumber = max(page, 1)`, `limitNumber = min(limit, 50)`,
    `skip = (pageNumber - 1) * limitNumber`, `totalPages = ceil(total / limitNumber)`.
    Note that nothing clamps `limit` from below. */
module Pagination {
  import opened Common
  import opened Pipeline

  const DefaultPage := 1
  const DefaultLimit := 10
  const MaxLimit := 50

  datatype Page = Page(pageNumber: int, limitNumber: int, skip: int)

  /** `req.query`'s `page` and `limit` after `parseInt`; an absent one takes
      the destructuring default (`page = 1`, `limit = 10`). */
  function Paginate(page: Option<int>, limit: Option<int>): (p: Page)
    ensures var asked := if page.Some? then page.value else DefaultPage;
            p.pageNumber >= 1 && p.pageNumber >= asked && (p.pageNumber == asked || p.pageNumber == 1)
    ensures var asked := if limit.Some? then limit.value else DefaultLimit;
            p.limitNumber <= MaxLimit && p.limitNumber <= asked && (p.limitNumber == asked || p.limitNumber == MaxLimit)
    ensures p.skip == (p.pageNumber - 1) * p.limitNumber
    ensures p.limitNumber >= 0 ==> p.skip >= 0
  {
    var pageNumber := Max(if page.Some? then page.value else DefaultPage, 1);
    var limitNumber := Min(if limit.Some? then limit.value else DefaultLimit, MaxLimit);
    assert limitNumber >= 0 ==> (pageNumber - 1) * limitNumber >= 0;
    Page(pageNumber, limitNumber, (pageNumber - 1) * limitNumber)
  }

  /** Changing only the page keeps the limit; a page number of 1 or more
      is used as given. */
  lemma PaginateAtPage(page: int, limit: Option<int>, other: Option<int>)
    requires page >= 1
    ensures var p := Paginate(Some(page), limit);
            p.pageNumber == page && p.limitNumber == Paginate(other, limit).limitNumber &&
            p.skip == (page - 1) * p.limitNumber
  {
  }

  /** MongoDB accepts the `$skip` / `$limit` stages only when the limit is
      positive and the skip is not negative. */
  predicate Accepted(p: Page) {
    p.limitNumber >= 1 && p.skip >= 0
  }

  const SkipRejected := "MongoServerError: the skip must be non-negative"
  const LimitRejected := "MongoServerError: the limit must be positive"

  /** Why MongoDB refuses a page. Every list pipeline here has `$skip`
      before `$limit`, and stages are checked in order, so a negative skip
      is the one reported. */
  function Rejection(p: Page): (reason: string)
    requires !Accepted(p)
  {
    if p.skip < 0 then SkipRejected else LimitRejected
  }

  /** A refused request fails at `$skip` exactly when it asks for a negative
      limit and a page beyond the first; otherwise at `$limit`. */
  lemma RejectionStage(page: Option<int>, limit: Option<int>)
    requires !Accepted(Paginate(page, limit))
    ensures Rejection(Paginate(page, limit)) == SkipRejected <==>
              limit.Some? && limit.value < 0 && page.Some? && page.value >= 2
    ensures Rejection(Paginate(page, limit)) == LimitRejected <==>
              !(limit.Some? && limit.value < 0 && page.Some? && page.value >= 2)
  {
    var p := Paginate(page, limit);
    if limit.Some? && limit.value < 0 && page.Some? && page.value >= 2 {
      assert p.pageNumber - 1 >= 1 && p.limitNumber < 0;
      MulNegative(p.pageNumber - 1, p.limitNumber);
    }
  }

  lemma MulNegative(a: int, b: int)
    requires a >= 1 && b < 0
    ensures a * b < 0
  {
  }

  /** A positive requested limit always gives a page MongoDB accepts, with
      1 <= limitNumber <= 50; a limit below 1 never does. */
  lemma PaginateAccepted(page: Option<int>, limit: Option<int>)
    ensures var p := Paginate(page, limit);
            Accepted(p) <==> (if limit.Some? then limit.value else DefaultLimit) >= 1
    ensures var p := Paginate(page, limit);
            Accepted(p) ==> 1 <= p.limitNumber <= MaxLimit
  {
    var p := Paginate(page, limit);
    if p.limitNumber >= 1 {
      assert (p.pageNumber - 1) * p.limitNumber >= 0;
    }
  }

  /** `Math.ceil(total / limitNumber)` for a positive limit: the least page
      count whose pages hold `total` rows. */
  function TotalPages(total: nat, limitNumber: int): (pages: nat)
    requires limitNumber >= 1
    ensures pages * limitNumber >= total
    ensures pages == 0 || (pages - 1) * limitNumber < total
  {
    var n := total + limitNumber - 1;
    var q := n / limitNumber;
    assert n == q * limitNumber + n % limitNumber;
    assert (q - 1) * limitNumber == q * limitNumber - limitNumber;
    q
  }

  lemma TotalPagesZero(total: nat, limitNumber: int)
    requires limitNumber >= 1
    ensures TotalPages(total, limitNumber) == 0 <==> total == 0
  {
  }

  /** The `pagination` object of every list response. */
  datatype PageInfo = PageInfo(total: nat, page: int, limit: int, totalPages: nat)

  function Envelope(total: nat, p: Page): (info: PageInfo)
    requires p.limitNumber >= 1
    ensures info.total == total && info.page == p.pageNumber && info.limit == p.limitNumber
    ensures info.totalPages * info.limit >= total
    ensures info.totalPages == 0 || (info.totalPages - 1) * info.limit < total
  {
    PageInfo(total, p.pageNumber, p.limitNumber, TotalPages(total, p.limitNumber))
  }

  /** Pages 1..n of a listing, one after the other. */
  function FirstPages<T(!new)>(s: seq<T>, limit: nat, n: nat): seq<T> {
    if n == 0 then [] else FirstPages(s, limit, n - 1) + Window(s, (n - 1) * limit, limit)
  }

  /** Consecutive pages neither overlap nor leave gaps: pages 1..n are exactly
      the first n * limit rows. */
  lemma {:induction false} FirstPagesArePrefix<T(!new)>(s: seq<T>, limit: nat, n: nat)
    requires limit >= 1
    ensures FirstPages(s, limit, n) == s[..Min(n * limit, |s|)]
  {
    if n > 0 {
      FirstPagesArePrefix(s, limit, n - 1);
      var start := (n - 1) * limit;
      var m := Min(n * limit, |s|);
      MulSucc(n - 1, limit);
      assert FirstPages(s, limit, n) == s[..Min(start, |s|)] + Window(s, start, limit);
      if start >= |s| {
        assert Window(s, start, limit) == [];
        assert Min(start, |s|) == |s| == m;
      } else {
        assert Window(s, start, limit) == s[start..m];
        assert s[..m] == s[..start] + s[start..m];
      }
    }
  }

  lemma MulSucc(k: nat, limit: nat)
    ensures (k + 1) * limit == k * limit + limit
  {
  }

  lemma MulMono(a: nat, b: nat, c: nat)
    requires a <= b
    ensures a * c <= b * c
  {
  }

  /** The `totalPages` an endpoint reports is exactly enough: its pages,
      read one after the other, give back every row once, in order. */
  lemma AllPagesCover<T(!new)>(s: seq<T>, limit: int)
    requires limit >= 1
    ensures FirstPages(s, limit, TotalPages(|s|, limit)) == s
  {
    FirstPagesArePrefix(s, limit, TotalPages(|s|, limit));
  }

  /** `x` is one of the rows of page `page` (counted from 1). */
  ghost predicate OnPage<T(!new)>(s: seq<T>, limit: nat, page: int, x: T) {
    page >= 1 && x in Window(s, (page - 1) * limit, limit)
  }

  /** Every row of a listing of at most `total` rows is on one of the pages
      1..totalPages. */
  lemma OnSomePage<T(!new)>(s: seq<T>, limit: int, total: nat, i: nat)
    requires limit >= 1 && |s| <= total && i < |s|
    ensures exists page: int :: page <= TotalPages(total, limit) && OnPage(s, limit, page, s[i])
  {
    var q := i / limit;
    var start := q * limit;
    assert start <= i < start + limit by {
      assert i == q * limit + i % limit;
    }
    var pages := TotalPages(total, limit);
    assert q < pages by {
      if pages <= q {
        MulMono(pages, q, limit);
      }
    }
    var page := q + 1;
    assert (page - 1) * limit == start;
    var w := Window(s, start, limit);
    assert w[i - start] == s[i];
    assert OnPage(s, limit, page, s[i]);
  }

  /** The same, for the page a request names: with the request's limit
      kept, every row of the listing is returned by the request for one of
      the pages 1..totalPages. */
  lemma OnSomeRequestedPage<T(!new)>(s: seq<T>, total: nat, page: Option<int>, limit: Option<int>, x: T)
    requires Paginate(page, limit).limitNumber >= 1 && |s| <= total && x in s
    ensures exists n: int ::
              1 <= n <= TotalPages(total, Paginate(page, limit).limitNumber) &&
              x in Window(s, Paginate(Some(n), limit).skip, Paginate(Some(n), limit).limitNumber)
  {
    var L := Paginate(page, limit).limitNumber;
    var i :| 0 <= i < |s| && s[i] == x;
    OnSomePage(s, L, total, i);
    var n: int :| n <= TotalPages(total, L) && OnPage(s, L, n, x);
    PaginateAtPage(n, limit, page);
  }

  /** Page 3 with limit 10 of a 25-row listing holds rows 21-25, and the
      listing has 3 pages. */
  lemma ThirdPageOfTwentyFive<T(!new)>(s: seq<T>)
    requires |s| == 25
    ensures var p := Paginate(Some(3), Some(10));
            p.skip == 20 && p.limitNumber == 10 &&
            Window(s, p.skip, p.limitNumber) == s[20..25] &&
            TotalPages(|s|, p.limitNumber) == 3
  {
    var p := Paginate(Some(3), Some(10));
    assert p.skip == 20;
    var pages := TotalPages(25, 10);
    assert pages * 10 >= 25 && (pages == 0 || (pages - 1) * 10 < 25);
  }

  /** A limit above the cap is clamped to 50. */
  lemma LimitCapped(page: Option<int>, limit: int)
    requires limit > MaxLimit
    ensures Paginate(page, Some(limit)).limitNumber == MaxLimit
  {
  }
}

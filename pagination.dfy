/**
 * Page arithmetic of the listing: normalising `page` and `limit`, the offset
 * of a page, the window of rows it shows and the metadata sent with it.
 */
module Pagination {
  import opened Wrappers

  const DefaultPage := 1
  const DefaultLimit := 10

  /** `page = Number(page) > 0 ? Number(page) : 1`, with an absent page defaulting to 1. */
  function NormalisePage(page: Option<int>): (p: int)
    ensures p >= 1
    ensures page.Some? && page.value > 0 ==> p == page.value
    ensures page.None? || page.value <= 0 ==> p == DefaultPage
  {
    if page.Some? && page.value > 0 then page.value else DefaultPage
  }

  /** `limit = Number(limit) > 0 ? Number(limit) : 10`, with an absent limit defaulting to 10. */
  function NormaliseLimit(limit: Option<int>): (l: int)
    ensures l >= 1
    ensures limit.Some? && limit.value > 0 ==> l == limit.value
    ensures limit.None? || limit.value <= 0 ==> l == DefaultLimit
  {
    if limit.Some? && limit.value > 0 then limit.value else DefaultLimit
  }

  /** Normalised values are left as they are by a second normalisation. */
  lemma NormaliseIdempotent(page: Option<int>, limit: Option<int>)
    ensures NormalisePage(Some(NormalisePage(page))) == NormalisePage(page)
    ensures NormaliseLimit(Some(NormaliseLimit(limit))) == NormaliseLimit(limit)
  {
  }

  /** Rows before page `page`: the `page - 1` full pages in front of it. */
  function Skip(page: int, limit: int): (s: nat)
    requires page >= 1 && limit >= 1
    ensures s % limit == 0 && s / limit == page - 1
  {
    WholePages(page - 1, limit);
    (page - 1) * limit
  }

  lemma WholePages(n: nat, limit: int)
    requires limit >= 1
    ensures (n * limit) % limit == 0 && (n * limit) / limit == n
  {
    var q, r := (n * limit) / limit, (n * limit) % limit;
    assert q * limit + r == n * limit;
    if q < n {
      MulMonotone(q + 1, n, limit);
      MulStep(q, limit);
    } else if q > n {
      MulMonotone(n + 1, q, limit);
      MulStep(n, limit);
    }
  }

  lemma SkipSteps(page: int, limit: int)
    requires page >= 1 && limit >= 1
    ensures Skip(1, limit) == 0
    ensures Skip(page + 1, limit) == Skip(page, limit) + limit
    ensures Skip(page, limit) > 0 <==> page > 1
  {
  }

  function Min(a: int, b: int): (r: int)
  {
    if a <= b then a else b
  }

  /** `skip` and `take` on an ordered listing: the rows at positions `skip .. skip + take - 1` that exist. */
  function Window<T>(rows: seq<T>, skip: nat, take: nat): (r: seq<T>)
    ensures |r| == if skip >= |rows| then 0 else Min(take, |rows| - skip)
    ensures forall i :: 0 <= i < |r| ==> r[i] == rows[skip + i]
  {
    rows[Min(skip, |rows|)..Min(skip + take, |rows|)]
  }

  lemma MulStep(a: int, b: int)
    ensures a * b + b == (a + 1) * b
  {
  }

  lemma MulMonotone(a: int, b: int, c: int)
    requires c >= 0
    ensures a <= b ==> a * c <= b * c
  {
  }

  /** `Math.ceil(total / limit)` on integers. */
  function PageCount(total: nat, limit: int): (pages: nat)
    requires limit >= 1
    ensures (pages - 1) * limit < total <= pages * limit
  {
    var q := (total + limit - 1) / limit;
    var rem := (total + limit - 1) % limit;
    assert q * limit + rem == total + limit - 1;
    q
  }

  /** Only one number satisfies the ceiling bounds. */
  lemma PageCountUnique(total: nat, limit: int, n: int)
    requires limit >= 1
    requires (n - 1) * limit < total <= n * limit
    ensures n == PageCount(total, limit)
  {
    var p: int := PageCount(total, limit);
    MulMonotone(n, p - 1, limit);
    MulMonotone(p, n - 1, limit);
  }

  datatype Meta = Meta(total: nat, page: int, pages: nat, hasNextPage: bool, hasPrevPage: bool)

  /** The `meta` object of a listing response. */
  function PageMeta(total: nat, page: int, limit: int): (m: Meta)
    requires page >= 1 && limit >= 1
    ensures m.total == total && m.page == page && m.pages == PageCount(total, limit)
    ensures m.hasNextPage <==> Skip(page, limit) + limit < total
    ensures m.hasPrevPage <==> Skip(page, limit) > 0
  {
    var pages := PageCount(total, limit);
    MulMonotone(page, pages - 1, limit);
    MulMonotone(pages, page, limit);
    Meta(total, page, pages, page < pages, page > 1)
  }

  /** There is a next page exactly when rows remain after the ones this page shows. */
  lemma NextPageIffRowsRemain<T>(rows: seq<T>, page: int, limit: int)
    requires page >= 1 && limit >= 1
    ensures var shown := Window(rows, Skip(page, limit), limit);
            PageMeta(|rows|, page, limit).hasNextPage <==> Skip(page, limit) + |shown| < |rows|
  {
  }

  /** The pages of `rows` from offset `skip` on, `limit` rows each: what paging with `hasNextPage` visits. */
  function PagesFrom<T>(rows: seq<T>, skip: nat, limit: int): (pages: seq<seq<T>>)
    requires limit >= 1
    decreases |rows| - skip
  {
    if skip >= |rows| then [] else [Window(rows, skip, limit)] + PagesFrom(rows, skip + limit, limit)
  }

  function Flatten<T>(pages: seq<seq<T>>): (r: seq<T>)
  {
    if pages == [] then [] else pages[0] + Flatten(pages[1..])
  }

  lemma {:induction false} PagesCoverRows<T>(rows: seq<T>, skip: nat, limit: int)
    requires limit >= 1 && skip <= |rows|
    ensures Flatten(PagesFrom(rows, skip, limit)) == rows[skip..]
    decreases |rows| - skip
  {
    if skip < |rows| {
      var pages := PagesFrom(rows, skip, limit);
      var next := Min(skip + limit, |rows|);
      assert pages[0] == rows[skip..next];
      assert pages[1..] == PagesFrom(rows, skip + limit, limit);
      if skip + limit <= |rows| {
        PagesCoverRows(rows, skip + limit, limit);
      } else {
        assert pages[1..] == [];
      }
      assert Flatten(pages) == rows[skip..next] + rows[next..];
      assert rows[skip..] == rows[skip..next] + rows[next..];
    }
  }

  lemma {:induction false} PagesFromCount<T>(rows: seq<T>, skip: nat, limit: int)
    requires limit >= 1
    ensures |PagesFrom(rows, skip, limit)| == PageCount(if skip >= |rows| then 0 else |rows| - skip, limit)
    decreases |rows| - skip
  {
    if skip >= |rows| {
      PageCountUnique(0, limit, 0);
    } else {
      var rest := |rows| - skip;
      PagesFromCount(rows, skip + limit, limit);
      var q: int := PageCount(if skip + limit >= |rows| then 0 else rest - limit, limit);
      MulStep(q, limit);
      MulStep(q - 1, limit);
      PageCountUnique(rest, limit, q + 1);
    }
  }

  lemma {:induction false} PagesFromAt<T>(rows: seq<T>, skip: nat, limit: int, i: nat)
    requires limit >= 1 && i < |PagesFrom(rows, skip, limit)|
    ensures PagesFrom(rows, skip, limit)[i] == Window(rows, skip + i * limit, limit)
    decreases i
  {
    var pages := PagesFrom(rows, skip, limit);
    var later := PagesFrom(rows, skip + limit, limit);
    assert pages == [Window(rows, skip, limit)] + later;
    if i == 0 {
      assert i * limit == 0;
    } else {
      PagesFromAt(rows, skip + limit, limit, i - 1);
      MulStep(i - 1, limit);
      var offset := skip + limit + (i - 1) * limit;
      assert offset == skip + i * limit;
      assert pages[i] == later[i - 1] == Window(rows, offset, limit);
    }
  }

  /**
   * Paging through pages 1 to `pages` shows every row of the listing exactly
   * once and in order, and page `p` of that walk is the window `Skip(p, limit)`.
   */
  lemma PagesPartitionListing<T>(rows: seq<T>, limit: int)
    requires limit >= 1
    ensures var pages := PagesFrom(rows, 0, limit);
            && |pages| == PageCount(|rows|, limit)
            && Flatten(pages) == rows
            && forall p :: 1 <= p <= |pages| ==> pages[p - 1] == Window(rows, Skip(p, limit), limit)
  {
    PagesFromCount(rows, 0, limit);
    PagesCoverRows(rows, 0, limit);
    forall p | 1 <= p <= |PagesFrom(rows, 0, limit)|
      ensures PagesFrom(rows, 0, limit)[p - 1] == Window(rows, Skip(p, limit), limit)
    {
      PagesFromAt(rows, 0, limit, p - 1);
    }
  }

  /** Twenty-five rows at ten per page: page 2 of 3, with pages on either side. */
  lemma MetaExample()
    ensures PageMeta(25, 2, 10) == Meta(25, 2, 3, true, true)
  {
  }
}

/**
  `LIMIT $n OFFSET $m` with the offset `(page-1)*limit` that the listing
  and search operations compute in Go's 64-bit `int` before sending it.

  PostgreSQL computes the offset first and refuses a negative one
  ("OFFSET must not be negative", SQLSTATE 2201X), then refuses a negative
  limit (2201W); otherwise it skips `offset` rows and returns at most
  `limit` of the rest.
 */
module Pagination {
  import opened Errors

  const MinInt64: int := -0x8000_0000_0000_0000
  const MaxInt64: int := 0x7fff_ffff_ffff_ffff

  /** The values of a Go `int` on a 64-bit platform. */
  type Int64 = x: int | MinInt64 <= x <= MaxInt64

  /** Two's-complement wrap-around of a mathematical integer into 64 bits. */
  function Wrap64(x: int): (w: Int64)
    ensures MinInt64 <= x <= MaxInt64 ==> w == x
  {
    var m := x % 0x1_0000_0000_0000_0000;
    if m <= MaxInt64 then m else m - 0x1_0000_0000_0000_0000
  }

  /** The wrapped value differs from the true one by a multiple of 2^64. */
  lemma Wrap64Congruent(x: int)
    ensures (Wrap64(x) - x) % 0x1_0000_0000_0000_0000 == 0
  {
    var m := x % 0x1_0000_0000_0000_0000;
    assert x == (x / 0x1_0000_0000_0000_0000) * 0x1_0000_0000_0000_0000 + m;
  }

  /** The offset the source sends: `(page-1)*limit` in Go arithmetic. */
  function Offset(page: Int64, limit: Int64): Int64
  {
    Wrap64(Wrap64(page - 1) * limit)
  }

  function Min(a: int, b: int): int { if a <= b then a else b }

  /** `LIMIT limit OFFSET offset` over the rows a query would return, in order. */
  function LimitOffset<T>(rows: seq<T>, limit: int, offset: int): (r: Result<seq<T>>)
    ensures offset < 0 ==> r == Err(PgError(InvalidRowCountInResultOffsetClause))
    ensures offset >= 0 && limit < 0 ==> r == Err(PgError(InvalidRowCountInLimitClause))
    ensures offset >= 0 && limit >= 0 ==> r.Ok?
    // a window of consecutive rows starting at the offset, as long as the limit allows
    ensures r.Ok? ==> |r.value| == Min(limit, if offset <= |rows| then |rows| - offset else 0)
    ensures r.Ok? ==> forall i :: 0 <= i < |r.value| ==> offset + i < |rows| && r.value[i] == rows[offset + i]
  {
    if offset < 0 then Err(PgError(InvalidRowCountInResultOffsetClause))
    else if limit < 0 then Err(PgError(InvalidRowCountInLimitClause))
    else
      var start := Min(offset, |rows|);
      Ok(rows[start..Min(start + limit, |rows|)])
  }

  /** The page the listing operations return, as the source computes it. */
  function Page<T>(rows: seq<T>, page: Int64, limit: Int64): Result<seq<T>>
  {
    LimitOffset(rows, limit, Offset(page, limit))
  }

  /**
    The rows a listing's `for rows.Next()` loop reads. The server refuses a
    negative offset or limit only when the query executes, after pgx's
    `Query` has returned without error; `rows.Next()` then answers false and
    the refusal waits in `rows.Err()`. A loop that never reads `rows.Err()`
    sees a refused page as a page without rows.
   */
  function ScannedPage<T>(rows: seq<T>, page: Int64, limit: Int64): (r: seq<T>)
    ensures Offset(page, limit) < 0 || limit < 0 ==> r == []
    ensures Offset(page, limit) >= 0 && limit >= 0 ==> Page(rows, page, limit) == Ok(r)
    ensures |r| <= if limit < 0 then 0 else limit
  {
    var p := Page(rows, page, limit);
    if p.Ok? then p.value else []
  }

  /**
    The page the caller asked for: the offset `(page-1)*limit` taken as a
    mathematical integer, so that a page starting past the last row is
    empty however large its number.
   */
  function PageIntended<T>(rows: seq<T>, page: int, limit: int): (r: Result<seq<T>>)
    requires page >= 1 && limit >= 0
    ensures r.Ok?
    ensures (page - 1) * limit >= |rows| ==> r.value == []
    ensures (page - 1) * limit < |rows| ==> r.value == rows[(page - 1) * limit..Min(page * limit, |rows|)]
  {
    assert (page - 1) * limit + limit == page * limit;
    LimitOffset(rows, limit, (page - 1) * limit)
  }

  /** While `page * limit` fits in 64 bits, the source's page is the intended one. */
  lemma PageAgreesWithoutOverflow<T>(rows: seq<T>, page: Int64, limit: Int64)
    requires 1 <= page && limit >= 0 && page * limit <= MaxInt64
    ensures Page(rows, page, limit) == PageIntended(rows, page, limit)
  {
    OffsetExact(page, limit);
  }

  /**
    Past 64 bits the offset wraps: page 2^62 + 1 with four rows a page asks
    for offset 2^64, which Go turns into 0, so the first page comes back
    where the intended answer is an empty page.
   */
  lemma OffsetWrapsToFirstPage<T>(rows: seq<T>)
    requires 0 < |rows| <= MaxInt64
    ensures Offset(0x4000_0000_0000_0001, 4) == 0
    ensures Page(rows, 0x4000_0000_0000_0001, 4) == Page(rows, 1, 4)
    ensures Page(rows, 0x4000_0000_0000_0001, 4).value != []
    ensures PageIntended(rows, 0x4000_0000_0000_0001, 4) == Ok([])
  {
    assert Wrap64(0x4000_0000_0000_0000 * 4) == 0;
  }

  /** Pages 1 to n, one after the other. */
  function FirstPages<T>(rows: seq<T>, n: nat, limit: nat): seq<T>
  {
    if n == 0 then [] else FirstPages(rows, n - 1, limit) + PageIntended(rows, n, limit).value
  }

  /**
    Reading pages 1, 2, ..., n in turn yields the first `n * limit` rows,
    each once and in order: consecutive pages neither overlap nor leave a
    gap.
   */
  lemma {:induction false} PagesPartitionRows<T>(rows: seq<T>, n: nat, limit: nat)
    ensures FirstPages(rows, n, limit) == rows[..Min(n * limit, |rows|)]
  {
    if n > 0 {
      PagesPartitionRows(rows, n - 1, limit);
      MulStep(n, limit);
      var prev, next := (n - 1) * limit, n * limit;
      var page := PageIntended(rows, n, limit).value;
      assert page == if prev < |rows| then rows[prev..Min(next, |rows|)] else [];
      PrefixThenWindow(rows, prev, next);
    }
  }

  /** The rows before `lo`, then the window from `lo` to `hi`, are the rows before `hi`. */
  lemma PrefixThenWindow<T>(rows: seq<T>, lo: nat, hi: nat)
    requires lo <= hi
    ensures rows[..Min(lo, |rows|)] + (if lo < |rows| then rows[lo..Min(hi, |rows|)] else [])
         == rows[..Min(hi, |rows|)]
  {
    if lo < |rows| {
      assert rows[..lo] + rows[lo..Min(hi, |rows|)] == rows[..Min(hi, |rows|)];
    }
  }

  /** One more page moves the offset on by one limit. */
  lemma MulStep(n: int, limit: int)
    requires n >= 1 && limit >= 0
    ensures (n - 1) * limit + limit == n * limit
    ensures 0 <= (n - 1) * limit <= n * limit
  {
    assert (n - 1) * limit + limit == n * limit;
  }

  /** While `page * limit` fits in 64 bits, the offset is computed without wrapping. */
  lemma OffsetExact(page: int, limit: Int64)
    requires 1 <= page <= MaxInt64 && limit >= 0 && page * limit <= MaxInt64
    ensures (page - 1) * limit + limit == page * limit
    ensures 0 <= (page - 1) * limit <= MaxInt64 && Offset(page, limit) == (page - 1) * limit
  {
    MulStep(page, limit);
    var prev := (page - 1) * limit;
    assert Wrap64(page - 1) == page - 1;
    assert Wrap64(prev) == prev;
  }

  /** A first page at least as long as the rows is all of them, in order. */
  lemma FirstPageIsAll<T>(rows: seq<T>, limit: Int64)
    requires limit >= |rows|
    ensures Page(rows, 1, limit) == Ok(rows)
  {
    assert Offset(1, limit) == 0;
    assert rows[0..|rows|] == rows;
  }
}

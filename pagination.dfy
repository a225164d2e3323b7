/**
 * Page arithmetic of the listing: ten rows to a page, a 1-based requested page, the
 * row offset it selects, the zero-based page links, and the window of rows shown.
 */
module Pagination {

  /** Rows shown on one page. */
  const PageLimit: nat := 10

  /** The page shown when a request names none. */
  const DefaultPage: int := 1

  /** A parsed page number; pages are counted from 1. */
  type PageNumber = n: int | n >= 1 witness 1

  /** The first row shown on `page`: every page starts on a multiple of the page size, the first one at row 0. */
  function Offset(page: PageNumber): (offset: nat)
    ensures offset % PageLimit == 0 && offset / PageLimit == page - 1
  {
    (page - 1) * PageLimit
  }

  /** The number of pages `count` rows fill: the ceiling of count / PageLimit. */
  function PageCount(count: nat): (n: nat)
    ensures n * PageLimit >= count
    ensures n == 0 || (n - 1) * PageLimit < count
  {
    (count + PageLimit - 1) / PageLimit
  }

  /** The list 0, 1, ..., n - 1. */
  function Range(n: nat): (r: seq<nat>)
    ensures |r| == n
    ensures forall i :: 0 <= i < n ==> r[i] == i
  {
    if n == 0 then [] else Range(n - 1) + [n - 1]
  }

  /** The page links for `count` rows: one zero-based index per page. */
  function PageIndices(count: nat): (r: seq<nat>)
    ensures |r| == PageCount(count)
    ensures forall i :: 0 <= i < |r| ==> r[i] == i
    ensures count == 0 <==> r == []
  {
    Range(PageCount(count))
  }

  function Min(a: int, b: int): int {
    if a <= b then a else b
  }

  /** The rows a query with this offset and `LIMIT PageLimit` returns. */
  function Window<T>(rows: seq<T>, offset: nat): (r: seq<T>)
    ensures |r| <= PageLimit
    ensures |r| == if offset >= |rows| then 0 else Min(PageLimit, |rows| - offset)
    ensures forall i :: 0 <= i < |r| ==> r[i] == rows[offset + i]
  {
    if offset >= |rows| then [] else rows[offset..Min(offset + PageLimit, |rows|)]
  }

  /** Every row lies on a listed page: row i is entry i % PageLimit of page i / PageLimit + 1. */
  lemma RowOnItsPage<T>(rows: seq<T>, i: nat)
    requires i < |rows|
    ensures i / PageLimit < |PageIndices(|rows|)|
    ensures var w := Window(rows, Offset(i / PageLimit + 1));
            i % PageLimit < |w| && w[i % PageLimit] == rows[i]
  {
    var k := i / PageLimit;
    var n := PageCount(|rows|);
    assert Offset(k + 1) == k * PageLimit;
    assert k * PageLimit + i % PageLimit == i;
  }

  /** Every listed page link leads to a page holding at least one row. */
  lemma ListedPageIsNotEmpty<T>(rows: seq<T>, k: nat)
    requires k < |PageIndices(|rows|)|
    ensures Window(rows, Offset(k + 1)) != []
  {
    var n := PageCount(|rows|);
    assert k * PageLimit <= (n - 1) * PageLimit;
  }

  /** A page beyond the last one shows no rows; it is neither clamped nor an error. */
  lemma PageBeyondEndIsEmpty<T>(rows: seq<T>, page: PageNumber)
    requires page > PageCount(|rows|)
    ensures Window(rows, Offset(page)) == []
  {
    var n := PageCount(|rows|);
    assert (page - 1) * PageLimit >= n * PageLimit;
  }

  /** Twenty-five rows fill three pages: rows 1 to 10 on the first, rows 21 to 25 on the third. */
  lemma TwentyFiveRows<T>(rows: seq<T>)
    requires |rows| == 25
    ensures PageIndices(|rows|) == [0, 1, 2]
    ensures Window(rows, Offset(1)) == rows[..10]
    ensures Window(rows, Offset(3)) == rows[20..]
  {
  }
}

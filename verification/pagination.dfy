/** The paging of the audit table in the browser (`audit.js`): twenty rows
    a page, a "previous" and a "next" button, and the counters shown over
    the rows that were loaded. */
module Pagination {
  import opened Common
  import opened Query

  /** `itemsPerPage`. */
  const PageSize: nat := 20

  /** `Math.ceil(length / itemsPerPage)`. */
  function TotalPages(length: nat): (n: nat)
    ensures n * PageSize >= length
    ensures n == 0 || (n - 1) * PageSize < length
  {
    (length + PageSize - 1) / PageSize
  }

  /** The state of the table: the loaded rows and the page shown. */
  datatype View<T> = View(rows: seq<T>, page: int)

  /** The page lies within `[1, totalPages]`, or is 1 when there is no
      page at all. */
  predicate ValidPage<T>(v: View<T>) {
    1 <= v.page && (v.page <= TotalPages(|v.rows|) || v.page == 1)
  }

  /** `applyClientFilters`: new data always starts at page 1. */
  function Load<T>(rows: seq<T>): (v: View<T>)
    ensures v.page == 1 && v.rows == rows
    ensures ValidPage(v)
  {
    View(rows, 1)
  }

  /** `filteredData.slice(startIndex, endIndex)`, with JavaScript's `slice`
      clamping both ends to the array. */
  function Clamp(i: int, n: nat): (r: nat)
    ensures r <= n
    ensures 0 <= i <= n ==> r == i
  {
    if i < 0 then 0 else if i > n then n else i
  }

  /** The rows `renderAuditTable` shows. */
  function PageRows<T>(v: View<T>): (r: seq<T>)
    ensures |r| <= PageSize
    ensures v.page >= 1 && (v.page - 1) * PageSize < |v.rows| ==>
      |r| == if |v.rows| - (v.page - 1) * PageSize < PageSize then |v.rows| - (v.page - 1) * PageSize else PageSize
    ensures v.page >= 1 && (v.page - 1) * PageSize >= |v.rows| ==> r == []
    ensures v.page >= 1 ==> forall k :: 0 <= k < |r| ==> r[k] == v.rows[(v.page - 1) * PageSize + k]
  {
    var start := Clamp((v.page - 1) * PageSize, |v.rows|);
    var end := Clamp((v.page - 1) * PageSize + PageSize, |v.rows|);
    if start <= end then v.rows[start..end] else []
  }

  /** The text over the table: "Mostrando 0 de 0" when no row was loaded,
      otherwise "Mostrando a-b de n" with the first row shown, the last one
      (`min(endIndex, length)`) and the total. */
  datatype Info = NoRows | Showing(first: int, last: int, total: nat)

  function InfoOf<T>(v: View<T>): (r: Info)
    ensures r.NoRows? <==> v.rows == []
    ensures r.Showing? ==> r.total == |v.rows|
    ensures ValidPage(v) && r.Showing? ==> r.last - r.first + 1 == |PageRows(v)|
    ensures ValidPage(v) && r.Showing? ==>
      1 <= r.first <= r.last <= |v.rows|
      && PageRows(v)[0] == v.rows[r.first - 1]
      && PageRows(v)[|PageRows(v)| - 1] == v.rows[r.last - 1]
  {
    if |v.rows| == 0 then NoRows
    else
      var start := (v.page - 1) * PageSize;
      var end := start + PageSize;
      Showing(start + 1, if end < |v.rows| then end else |v.rows|, |v.rows|)
  }

  /** The controls `updatePagination` shows: hidden with at most one
      page; otherwise "previous" is disabled on the first page and "next"
      on the last. */
  datatype Controls = Hidden | Shown(prevDisabled: bool, nextDisabled: bool, page: int, of: nat)

  function ControlsOf<T>(v: View<T>): (c: Controls)
    ensures c.Hidden? <==> TotalPages(|v.rows|) <= 1
    ensures c.Shown? ==> (c.prevDisabled <==> v.page == 1)
    ensures c.Shown? ==> (c.nextDisabled <==> v.page == TotalPages(|v.rows|))
  {
    var n := TotalPages(|v.rows|);
    if n <= 1 then Hidden else Shown(v.page == 1, v.page == n, v.page, n)
  }

  /** `previousPage`: back one page unless on the first. */
  function Previous<T>(v: View<T>): (r: View<T>)
    ensures r.rows == v.rows
    ensures v.page > 1 ==> r.page == v.page - 1
    ensures v.page <= 1 ==> r == v
    ensures ValidPage(v) ==> ValidPage(r)
  {
    if v.page > 1 then v.(page := v.page - 1) else v
  }

  /** `nextPage`: forward one page unless on the last. */
  function Next<T>(v: View<T>): (r: View<T>)
    ensures r.rows == v.rows
    ensures v.page < TotalPages(|v.rows|) ==> r.page == v.page + 1
    ensures v.page >= TotalPages(|v.rows|) ==> r == v
    ensures ValidPage(v) ==> ValidPage(r)
  {
    if v.page < TotalPages(|v.rows|) then v.(page := v.page + 1) else v
  }

  /** The buttons tell the truth: a disabled "previous" or "next" is one
      that would not move, and an enabled one moves by a page. */
  lemma ButtonsMatchMoves<T>(v: View<T>)
    requires ValidPage(v)
    ensures var c := ControlsOf(v);
      c.Shown? ==> (c.prevDisabled <==> Previous(v) == v) && (c.nextDisabled <==> Next(v) == v)
  {
  }

  /** Going forward then back returns to the same page. */
  lemma NextThenPrevious<T>(v: View<T>)
    requires ValidPage(v) && v.page < TotalPages(|v.rows|)
    ensures Previous(Next(v)) == v
  {
  }

  /** Every row lies on exactly one page: the pages, taken in order, are
      the rows. */
  lemma {:induction false} PagesCoverRows<T>(rows: seq<T>, page: nat)
    requires 1 <= page
    ensures Pages(rows, page) == rows[Clamp((page - 1) * PageSize, |rows|)..]
    decreases |rows| - (page - 1) * PageSize
  {
    if (page - 1) * PageSize < |rows| {
      PagesCoverRows(rows, page + 1);
      PageThenRest(rows, page);
    }
  }

  /** The rows from a page on are that page's rows, then those from the
      next page on. */
  lemma PageThenRest<T>(rows: seq<T>, page: nat)
    requires 1 <= page
    ensures rows[Clamp((page - 1) * PageSize, |rows|)..]
         == PageRows(View(rows, page)) + rows[Clamp((page + 1 - 1) * PageSize, |rows|)..]
  {
    var a := (page - 1) * PageSize;
    assert (page + 1 - 1) * PageSize == a + PageSize;
    var start := Clamp(a, |rows|);
    var next := Clamp(a + PageSize, |rows|);
    assert PageRows(View(rows, page)) == rows[start..next];
    assert rows[start..] == rows[start..next] + rows[next..];
  }

  /** The rows of `page` and of every page after it. */
  function Pages<T>(rows: seq<T>, page: nat): (r: seq<T>)
    requires 1 <= page
    decreases |rows| - (page - 1) * PageSize
  {
    if (page - 1) * PageSize < |rows| then PageRows(View(rows, page)) + Pages(rows, page + 1) else []
  }

  // ---------------------------------------------------------------------
  // Counters
  // ---------------------------------------------------------------------

  /** The counters of `updateStatistics` for a security list; a row
      without severity counts in none of the three. */
  datatype Counters = Counters(high: nat, medium: nat, low: nat, total: nat)

  function CountersOf(severities: seq<Option<string>>): (c: Counters)
    ensures c.total == |severities|
    ensures c.high + c.medium + c.low <= c.total
  {
    var c := Counters(Count(severities, s => s == Some("high")), Count(severities, s => s == Some("medium")),
                      Count(severities, s => s == Some("low")), |severities|);
    ThreeDisjointCounts(severities);
    c
  }

  /** Three predicates no row meets twice count at most all the rows. */
  lemma {:induction false} ThreeDisjointCounts(rows: seq<Option<string>>)
    ensures Count(rows, s => s == Some("high")) + Count(rows, s => s == Some("medium"))
          + Count(rows, s => s == Some("low")) <= |rows|
    decreases |rows|
  {
    if rows != [] {
      ThreeDisjointCounts(rows[1..]);
    }
  }
}

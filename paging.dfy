/** Page arithmetic of the catalogue view: eight books per page, pages
    numbered from 1. */
module Paging {

  /** `booksPerPage`. */
  const BooksPerPage: nat := 8

  /** `currentPage` starts at 1 and `prevPage` never takes it below 1. */
  type PageNumber = n: nat | 1 <= n witness 1

  /** `Math.ceil(n / booksPerPage)`: the fewest pages that hold `n` books. */
  function TotalPages(n: nat): (r: nat)
    ensures r * BooksPerPage >= n
    ensures r > 0 ==> (r - 1) * BooksPerPage < n
    ensures r == 0 <==> n == 0
  {
    (n + BooksPerPage - 1) / BooksPerPage
  }

  lemma TotalPagesMonotone(n: nat, m: nat)
    requires n <= m
    ensures TotalPages(n) <= TotalPages(m)
  {
  }

  /** Index of the first book on `page`. */
  function PageStart(page: PageNumber): nat {
    (page - 1) * BooksPerPage
  }

  /** `list.slice(start, start + booksPerPage)` with `start = PageStart(page)`:
      the books at indices `[start, start + 8)`, cut at the end of the list. */
  function PageSlice<T>(list: seq<T>, page: PageNumber): (r: seq<T>)
    ensures |r| <= BooksPerPage
    ensures PageStart(page) >= |list| <==> r == []
    ensures PageStart(page) < |list| ==>
              |r| == if PageStart(page) + BooksPerPage <= |list| then BooksPerPage else |list| - PageStart(page)
    ensures forall i :: 0 <= i < |r| ==> PageStart(page) + i < |list| && r[i] == list[PageStart(page) + i]
  {
    var start := PageStart(page);
    if start >= |list| then []
    else if start + BooksPerPage <= |list| then list[start..start + BooksPerPage]
    else list[start..]
  }

  /** Every book is on exactly the page its index says. */
  lemma BookOnItsPage<T>(list: seq<T>, i: nat)
    requires i < |list|
    ensures 1 <= i / BooksPerPage + 1 <= TotalPages(|list|)
    ensures var p: PageNumber := i / BooksPerPage + 1;
            i % BooksPerPage < |PageSlice(list, p)| && PageSlice(list, p)[i % BooksPerPage] == list[i]
  {
    var p: PageNumber := i / BooksPerPage + 1;
    assert PageStart(p) == i - i % BooksPerPage;
  }

  /** The pages that show something are exactly pages 1 to `TotalPages`. */
  lemma NonEmptyPages<T>(list: seq<T>, page: PageNumber)
    ensures PageSlice(list, page) != [] <==> page <= TotalPages(|list|)
  {
  }

  /** The last page of a non-empty list holds `N - (TotalPages - 1) * 8`
      books, between 1 and 8. */
  lemma LastPageSize<T>(list: seq<T>)
    requires |list| > 0
    ensures var last: PageNumber := TotalPages(|list|);
            |PageSlice(list, last)| == |list| - (last - 1) * BooksPerPage
            && 1 <= |PageSlice(list, last)| <= BooksPerPage
  {
  }

  /** What `updatePaginationControls` renders: "Page X of Y", Previous
      disabled on page 1, Next disabled when the page equals the count. */
  datatype Controls = Controls(page: nat, totalPages: nat, prevDisabled: bool, nextDisabled: bool)

  function RenderControls(page: PageNumber, bookCount: nat): (c: Controls)
    ensures c.page == page && c.totalPages == TotalPages(bookCount)
    ensures c.prevDisabled <==> page == 1
    ensures c.nextDisabled <==> page == TotalPages(bookCount)
  {
    var total := TotalPages(bookCount);
    Controls(page, total, page == 1, page == total)
  }

  /** The guard of `prevPage`: it refuses on page 1 only, and once it lets
      the page through, the page before is still a page number. */
  function CanGoBack(page: PageNumber): (r: bool)
    ensures r <==> page != 1
    ensures r ==> 1 <= page - 1
  {
    page > 1
  }

  /** The guard of `nextPage`, against the count of the whole catalogue: it
      lets the page through exactly when the next page of `bookCount` books
      has something on it. */
  function CanGoForward(page: PageNumber, bookCount: nat): (r: bool)
    ensures r <==> PageStart(page + 1) < bookCount
  {
    page < TotalPages(bookCount)
  }

  /** On a page within range, a button is disabled exactly when its handler
      would do nothing. */
  lemma ControlsMatchGuards(page: PageNumber, bookCount: nat)
    requires page <= TotalPages(bookCount)
    ensures RenderControls(page, bookCount).prevDisabled <==> !CanGoBack(page)
    ensures RenderControls(page, bookCount).nextDisabled <==> !CanGoForward(page, bookCount)
  {
  }

  /** Out of range the two disagree: with no books the view reads "Page 1 of
      0" and Next is enabled, yet `nextPage` does nothing; past the last page
      Next is enabled as well and does nothing. */
  lemma NextEnabledButInert(page: PageNumber, bookCount: nat)
    requires page > TotalPages(bookCount)
    ensures !RenderControls(page, bookCount).nextDisabled && !CanGoForward(page, bookCount)
  {
  }
}

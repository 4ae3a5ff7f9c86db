/** The catalogue view state of the browser client: the fetched `books`, the
    1-based `currentPage` and the favourites toggle, with the handlers that
    change them.  What the page shows is kept as two fields: the books on the
    cards (`shown`) and the pagination controls (`controls`). */
module Catalogue {
  import opened Text
  import opened Books
  import opened Listing
  import opened Paging
  import opened Sorting

  function Max(a: nat, b: nat): nat {
    if a < b then b else a
  }

  /** A filtered list never needs more pages than the whole catalogue, yet the
      controls always show the catalogue's count. */
  lemma FilteredPagesNoMore(books: seq<Book>, input: string)
    ensures TotalPages(|Search(books, input)|) <= TotalPages(|books|)
    ensures TotalPages(|Favorites(books)|) <= TotalPages(|books|)
  {
    TotalPagesMonotone(|Search(books, input)|, |books|);
    TotalPagesMonotone(|Favorites(books)|, |books|);
  }

  /** A search whose results fit on fewer pages than the current page number
      shows an empty list: nothing resets `currentPage`. */
  lemma SearchPastItsPages(books: seq<Book>, input: string, page: PageNumber)
    ensures PageSlice(Search(books, input), page) == [] <==> TotalPages(|Search(books, input)|) < page
  {
    NonEmptyPages(Search(books, input), page);
  }

  class ClientState {
    var books: seq<Book>
    var currentPage: PageNumber
    var isShowingFavorites: bool
    /** The books on the cards in the list element. */
    var shown: seq<Book>
    /** The "Page X of Y" line and its two buttons. */
    var controls: Controls

    /** `currentPage` names a page of `books`, or page 1 of an empty one. */
    predicate PageInRange()
      reads this
    {
      currentPage <= Max(1, TotalPages(|books|))
    }

    /** The page as `paginateBooks(list)` leaves it. */
    predicate Rendered(list: seq<Book>)
      reads this
    {
      shown == PageSlice(list, currentPage) && controls == RenderControls(currentPage, |books|)
    }

    /** Script start-up and the first `fetchBooks()`, which returns `initial`. */
    constructor (initial: seq<Book>)
      ensures books == initial && currentPage == 1 && !isShowingFavorites
      ensures Rendered(initial) && PageInRange()
    {
      books := initial;
      currentPage := 1;
      isShowingFavorites := false;
      shown := PageSlice(initial, 1);
      controls := RenderControls(1, |initial|);
    }

    /** `paginateBooks(list)`: show the current page of `list`; the controls
        count the pages of `books`, whatever `list` is. */
    method Paginate(list: seq<Book>)
      modifies this`shown, this`controls
      ensures Rendered(list)
    {
      shown := PageSlice(list, currentPage);
      controls := RenderControls(currentPage, |books|);
    }

    /** The end of `fetchBooks()`: `books` replaced wholesale by what the
        server returned, the page number left as it was. */
    method Refresh(fetched: seq<Book>)
      modifies this
      ensures books == fetched
      ensures currentPage == old(currentPage) && isShowingFavorites == old(isShowingFavorites)
      ensures Rendered(fetched)
    {
      books := fetched;
      Paginate(books);
    }

    /** `prevPage()`. */
    method PrevPage()
      modifies this
      ensures books == old(books) && isShowingFavorites == old(isShowingFavorites)
      ensures old(CanGoBack(currentPage)) ==> currentPage == old(currentPage) - 1 && Rendered(books)
      ensures !old(CanGoBack(currentPage)) ==>
                currentPage == old(currentPage) && shown == old(shown) && controls == old(controls)
      ensures old(PageInRange()) ==> PageInRange()
    {
      if CanGoBack(currentPage) {
        currentPage := currentPage - 1;
        Paginate(books);
      }
    }

    /** `nextPage()`: the bound is the page count of the whole catalogue. */
    method NextPage()
      modifies this
      ensures books == old(books) && isShowingFavorites == old(isShowingFavorites)
      ensures old(CanGoForward(currentPage, |books|)) ==> currentPage == old(currentPage) + 1 && Rendered(books)
      ensures !old(CanGoForward(currentPage, |books|)) ==>
                currentPage == old(currentPage) && shown == old(shown) && controls == old(controls)
      ensures old(PageInRange()) ==> PageInRange()
    {
      if CanGoForward(currentPage, |books|) {
        currentPage := currentPage + 1;
        Paginate(books);
      }
    }

    /** The search button: show the current page of the matches. */
    method SearchClicked(input: string)
      modifies this
      ensures books == old(books) && currentPage == old(currentPage)
      ensures isShowingFavorites == old(isShowingFavorites)
      ensures Rendered(Search(books, input))
      ensures old(PageInRange()) ==> PageInRange()
    {
      Paginate(Search(books, input));
    }

    /** The sort drop-down: reorder `books` in place, then show the current
        page of it. */
    method SortChanged(value: string)
      modifies this
      ensures books == SortBooks(KeyOf(value), old(books))
      ensures currentPage == old(currentPage) && isShowingFavorites == old(isShowingFavorites)
      ensures Rendered(books)
      ensures old(PageInRange()) ==> PageInRange()
    {
      books := SortBooks(KeyOf(value), books);
      Paginate(books);
    }

    /** The favourites button: flip the toggle and show the current page of
        the favourites, or of every book. */
    method FavoritesClicked()
      modifies this
      ensures isShowingFavorites == !old(isShowingFavorites)
      ensures books == old(books) && currentPage == old(currentPage)
      ensures isShowingFavorites ==> Rendered(Favorites(books))
      ensures !isShowingFavorites ==> Rendered(books)
      ensures old(PageInRange()) ==> PageInRange()
    {
      isShowingFavorites := !isShowingFavorites;
      if isShowingFavorites {
        Paginate(Favorites(books));
      } else {
        Paginate(books);
      }
    }
  }

  const Dune := Book("d", "Dune", 1965, "SciFi", 5, false)
  const Emma := Book("e", "Emma", 1815, "Romance", 4, false)

  /** Sorting the two books by year puts Emma (1815) before Dune (1965). */
  lemma ExampleSortByYear()
    ensures SortBooks(KeyOf("year"), [Dune, Emma]) == [Emma, Dune]
  {
    assert Precedes(ByYear, Emma, Dune) && !Precedes(ByYear, Dune, Emma);
    assert SortBooks(ByYear, [Emma]) == [Emma];
    assert [Dune, Emma][1..] == [Emma];
  }

  lemma DuneMatches()
    ensures Matches(Dune, Lower("Dun"))
  {
    assert Lower("Dun") == "dun";
    assert Lower(Dune.title) == "dune";
  }

  lemma EmmaDoesNotMatch()
    ensures !Matches(Emma, Lower("Dun"))
  {
    assert Lower("Dun") == "dun";
    EmmaTitleLacksTerm();
    EmmaCategoryLacksTerm();
    EmmaYearLacksTerm();
  }

  lemma EmmaTitleLacksTerm()
    ensures !Contains(Lower(Emma.title), "dun")
  {
    LowerAvoids(Emma.title, 'd');
    NotContainsFirstChar(Lower(Emma.title), "dun");
  }

  lemma EmmaCategoryLacksTerm()
    ensures !Contains(Lower(Emma.category), "dun")
  {
    LowerAvoids(Emma.category, 'd');
    NotContainsFirstChar(Lower(Emma.category), "dun");
  }

  lemma EmmaYearLacksTerm()
    ensures !Contains(IntToDecimal(Emma.year), "dun")
  {
    assert IntToDecimal(Emma.year) == "1815";
    NotContainsFirstChar("1815", "dun");
  }

  lemma SearchDuneAlone()
    ensures Search([Dune], "Dun") == [Dune]
  {
    DuneMatches();
    SearchSingle(Dune, "Dun");
  }

  lemma SearchEmmaAlone()
    ensures Search([Emma], "Dun") == []
  {
    EmmaDoesNotMatch();
    SearchSingle(Emma, "Dun");
  }

  /** Searching "Dun" finds Dune alone, whatever the order of the catalogue. */
  lemma ExampleSearch()
    ensures Search([Emma, Dune], "Dun") == [Dune]
    ensures Search([Dune, Emma], "Dun") == [Dune]
  {
    SearchDuneAlone();
    SearchEmmaAlone();
    SearchPair(Emma, Dune, "Dun");
    SearchPair(Dune, Emma, "Dun");
  }

  /** The same two books through the handlers: one page, sorted by year,
      searched, and "Next" staying put. */
  method Walkthrough() {
    ExampleSortByYear();
    ExampleSearch();
    FirstPageOfTwo(Dune, Emma);
    var view := new ClientState([Dune, Emma]);
    assert view.shown == [Dune, Emma];
    assert view.controls.totalPages == 1;

    view.SortChanged("year");
    assert view.books == [Emma, Dune];

    view.SearchClicked("Dun");
    FirstPageOfTwo(Emma, Dune);
    assert view.shown == PageSlice([Dune], 1);
    assert view.books == [Emma, Dune];

    view.NextPage();
    assert view.currentPage == 1;
  }

  lemma FirstPageOfTwo(a: Book, b: Book)
    ensures PageSlice([a, b], 1) == [a, b] && TotalPages(2) == 1
    ensures PageSlice([a], 1) == [a]
  {
  }
}

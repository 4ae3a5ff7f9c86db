/** The two in-memory filters of the catalogue: the search box and the
    favourites-only view.  Both are `books.filter(..)` with a predicate. */
module Listing {
  import opened Text
  import opened Books

  /** `s.filter(p)`: the elements satisfying `p`, in their original order. */
  function Filter<T(!new)>(s: seq<T>, p: T -> bool): (r: seq<T>)
    ensures |r| <= |s|
    ensures forall x :: x in r <==> x in s && p(x)
    ensures multiset(r) <= multiset(s)
    ensures forall i :: 0 <= i < |r| ==> p(r[i])
  {
    if s == [] then []
    else
      assert s == [s[0]] + s[1..];
      (if p(s[0]) then [s[0]] else []) + Filter(s[1..], p)
  }

  /** Filtering a concatenation filters each part: the kept elements stay in
      the order they had. */
  lemma {:induction false} FilterAppend<T(!new)>(a: seq<T>, b: seq<T>, p: T -> bool)
    ensures Filter(a + b, p) == Filter(a, p) + Filter(b, p)
  {
    if a == [] {
      assert a + b == b;
    } else {
      assert (a + b)[1..] == a[1..] + b;
      FilterAppend(a[1..], b, p);
    }
  }

  /** When every element passes, the filter returns the sequence itself. */
  lemma {:induction false} FilterKeepsAll<T(!new)>(s: seq<T>, p: T -> bool)
    requires forall i :: 0 <= i < |s| ==> p(s[i])
    ensures Filter(s, p) == s
  {
    if s != [] {
      FilterKeepsAll(s[1..], p);
    }
  }

  lemma FilterIdempotent<T(!new)>(s: seq<T>, p: T -> bool)
    ensures Filter(Filter(s, p), p) == Filter(s, p)
  {
    FilterKeepsAll(Filter(s, p), p);
  }

  // --------------------------------------------------------------- search

  /** The search predicate for an already lower-cased term: the lower-cased
      title, the lower-cased category or the year's decimal text contains it.
      The empty term matches every book. */
  function Matches(book: Book, term: string): (r: bool)
    ensures term == [] ==> r
    ensures r ==> |term| <= |book.title| || |term| <= |book.category| || |term| <= |IntToDecimal(book.year)|
  {
    Contains(Lower(book.title), term)
    || Contains(Lower(book.category), term)
    || Contains(IntToDecimal(book.year), term)
  }

  /** A book matches exactly when the term occurs at some index of one of
      the three texts. */
  lemma MatchesIff(book: Book, term: string)
    ensures Matches(book, term) <==>
              ((exists i :: OccursAt(Lower(book.title), term, i))
               || (exists i :: OccursAt(Lower(book.category), term, i))
               || (exists i :: OccursAt(IntToDecimal(book.year), term, i)))
  {
    ContainsIff(Lower(book.title), term);
    ContainsIff(Lower(book.category), term);
    ContainsIff(IntToDecimal(book.year), term);
    assert Matches(book, term) == (Contains(Lower(book.title), term)
                                   || Contains(Lower(book.category), term)
                                   || Contains(IntToDecimal(book.year), term));
  }

  /** The search button: the term is lower-cased once, then `books` is
      filtered by `Matches`. */
  function Search(books: seq<Book>, input: string): (r: seq<Book>)
    ensures |r| <= |books| && multiset(r) <= multiset(books)
    ensures forall b :: b in r <==> b in books && Matches(b, Lower(input))
  {
    Filter(books, b => Matches(b, Lower(input)))
  }

  /** An empty search box keeps every record. */
  lemma SearchEmpty(books: seq<Book>)
    ensures Search(books, "") == books
  {
    FilterKeepsAll(books, b => Matches(b, Lower("")));
  }

  /** The case of the search term does not matter. */
  lemma SearchIgnoresCase(books: seq<Book>, input: string)
    ensures Search(books, input) == Search(books, Lower(input))
  {
    LowerIdempotent(input);
    assert (b => Matches(b, Lower(input))) == (b => Matches(b, Lower(Lower(input))));
  }

  /** A record whose year's text contains the term is found; so is one whose
      title contains it in any mixture of case. */
  lemma SearchFindsYearAndTitle(books: seq<Book>, input: string, b: Book)
    requires b in books
    ensures Contains(IntToDecimal(b.year), Lower(input)) ==> b in Search(books, input)
    ensures Contains(Lower(b.title), Lower(input)) ==> b in Search(books, input)
  {
  }

  /** A one-book catalogue: the book is kept exactly when it matches. */
  lemma SearchSingle(b: Book, input: string)
    ensures Search([b], input) == if Matches(b, Lower(input)) then [b] else []
  {
    assert [b][1..] == [];
  }

  lemma SearchPair(a: Book, b: Book, input: string)
    ensures Search([a, b], input) == Search([a], input) + Search([b], input)
  {
    assert [a, b] == [a] + [b];
    SearchAppend([a], [b], input);
  }

  /** Searching the results again with the same term changes nothing. */
  lemma SearchIdempotent(books: seq<Book>, input: string)
    ensures Search(Search(books, input), input) == Search(books, input)
  {
    FilterIdempotent(books, b => Matches(b, Lower(input)));
  }

  /** Search of a catalogue in two parts is the search of each part, so the
      results keep the catalogue's order. */
  lemma SearchAppend(a: seq<Book>, b: seq<Book>, input: string)
    ensures Search(a + b, input) == Search(a, input) + Search(b, input)
  {
    FilterAppend(a, b, x => Matches(x, Lower(input)));
  }

  // ----------------------------------------------------------- favourites

  /** `books.filter(book => book.favorite)`. */
  function Favorites(books: seq<Book>): (r: seq<Book>)
    ensures |r| <= |books| && multiset(r) <= multiset(books)
    ensures forall b :: b in r <==> b in books && b.favorite
  {
    Filter(books, (b: Book) => b.favorite)
  }

  lemma FavoritesAppend(a: seq<Book>, b: seq<Book>)
    ensures Favorites(a + b) == Favorites(a) + Favorites(b)
  {
    FilterAppend(a, b, (x: Book) => x.favorite);
  }

  /** A catalogue of favourites only is its own favourites view. */
  lemma FavoritesOfFavorites(books: seq<Book>)
    requires forall i :: 0 <= i < |books| ==> books[i].favorite
    ensures Favorites(books) == books
  {
    FilterKeepsAll(books, (b: Book) => b.favorite);
  }
}

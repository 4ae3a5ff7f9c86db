# Book Explorer catalogue view, modelled in Dafny

Book Explorer is a small book-catalogue web application. Its browser client
fetches the whole collection of book records from a REST service and then
does everything else in memory: it shows eight books per page, searches by
title, category or year, sorts by title, year or rating, switches to a
favourites-only view, and builds the request bodies for adding, editing and
favouriting a book. This project models that client-side logic
(`client/script.js`) and proves what it does.

Modules, one per concern of the script:

- `Text` (`text.dfy`): the JavaScript built-ins the script leans on. It
  models ASCII `toLowerCase`, `includes`, the decimal `toString` of an
  integer, and `parseInt(s, 10) || 0`.
- `Books` (`books.dfy`): the fetched record, the form's four inputs, and the
  request bodies built by add, edit and the favourite toggle. It also models
  `books.find` by id.
- `Listing` (`listing.dfy`): `filter`, the search predicate, and the
  favourites filter.
- `Paging` (`paging.dfy`): `booksPerPage = 8`, the page slice, the page
  count, and the Previous/Next controls.
- `Sorting` (`sorting.dfy`): the comparator picked by the sort drop-down, and
  a stable sort.
- `Catalogue` (`catalogue.dfy`): the class `ClientState`. Its fields are
  `books`, `currentPage` and `isShowingFavorites`, plus two fields for what
  the page shows: `shown` (the books on the cards) and `controls` (the
  "Page X of Y" line and its buttons). Its methods are the event handlers.
  The module ends with a two-book walkthrough.

A quirk of the script is kept as written. The page count always counts the
whole `books` collection, never the filtered list on screen. Previous and
Next always re-render `books`, even while search results or favourites are
shown. No handler resets `currentPage`. So a search with few matches, seen
from a later page, shows an empty list under a "Page 3 of 4" line
(`SearchPastItsPages`, `FilteredPagesNoMore`).

Three further points follow the code rather than what one might expect of
such a view:

- Page moves are not bounded to `[1, totalPages]`. `prevPage` decrements
  whenever the page is above 1, even when it is past the last page. That
  happens after a refresh with fewer books.
  So `PageInRange` is kept by every handler except `Refresh`, which can
  leave the page past the new last page.
- The year of a fetched record is a number, but the add and edit bodies send
  the year input's raw text (`BookPayload.year` is a string). The rating is
  the number `parseInt` reads from its input, or 0.
- With an empty catalogue the controls read "Page 1 of 0" and Next is
  enabled, but `nextPage` does nothing. The same happens on any page past the
  last one (`NextEnabledButInert`).

## Model

| member | source | states |
|---|---|---|
| Text.LowerChar | client/script.js:155 | 'A'..'Z' become the letter 32 code points up ('a'..'z'); every other character is kept |
| Text.Lower | client/script.js:155-159 | lower-casing keeps the length, turns each upper-case ASCII letter into its lower-case partner (32 code points up), keeps every other character, and leaves no upper-case letter |
| Text.LowerAvoids | client/script.js:155-159 | a character that no lower-cased character of a string equals does not occur in its lower-case form |
| Text.LowerIdempotent | client/script.js:155-159 | lower-casing twice is lower-casing once |
| Text.LowerOfLower | client/script.js:155-160 | a string with no upper-case letter (such as a year's digits) is its own lower-case form |
| Text.Contains | client/script.js:158-160 | `includes`: the empty term is always contained, and a contained term is no longer than the string |
| Text.ContainsIff | client/script.js:158-160 | `includes` holds exactly when the term occurs at some index of the string |
| Text.NotContainsFirstChar | client/script.js:158-160 | a term whose first character is absent from the string is not contained in it |
| Text.IntToDecimal | client/script.js:160 | a year's text is non-empty, all digits for a non-negative year, starts with '-' exactly for a negative one, and has no leading zero (only "0" starts with '0') |
| Text.ParseInt | client/script.js:84 | `parseInt(s, 10)` gives a number for a run of digits and NaN for the empty string |
| Text.ParseSigned | client/script.js:84 | after the white space, a number is read for a run of digits and NaN for nothing; a number read after '-' is at most 0, one read without it at least 0 |
| Text.SkipSpace | client/script.js:84 | `parseInt` drops a leading run of white space and nothing more: what is left is a suffix that does not start with white space |
| Text.DigitPrefix | client/script.js:84 | the digits read are the longest prefix made of digits only |
| Text.SkipSpaceOver | client/script.js:84 | white space in front of a text that does not start with white space is dropped exactly |
| Text.DigitPrefixOfRun | client/script.js:84 | a run of digits followed by a non-digit is read as that run |
| Text.ParseSignedOfLayout | client/script.js:84 | a sign, a run of digits and a rest that does not start with a digit are read as the signed value of the run |
| Text.ParseIntOfLayout | client/script.js:84 | for `s` = white space + optional sign + non-empty digit run + rest not starting with a digit, `parseInt` gives the run's value, negated after '-' (`"  +12abc"` gives 12) |
| Text.ParseIntHasLayout | client/script.js:84 | every string `parseInt` reads a number from has that layout |
| Text.ParseIntNoneIff | client/script.js:84 | `parseInt` gives NaN exactly when the string has no such layout, that is when no digit follows the white space and the sign |
| Text.ParseIntOfSignedDigits | client/script.js:84 | a bare sign and digits are read as the signed value of the digits |
| Text.ParseIntOrZero | client/script.js:84 | `parseInt(..) \|\| 0` is 0 when `parseInt` gives NaN, and otherwise the number read |
| Text.ParseIntOfDecimal | client/script.js:84 | reading back the decimal text of any integer, negative ones included, gives that integer |
| Text.DigitsValueOfDecimal | client/script.js:84 | the digits that `toString` writes for a natural number denote that number |
| Books.FindBook | client/script.js:101 | `find` by id gives none exactly when no book has that id; otherwise it gives a listed book with that id |
| Books.FindBookIsFirst | client/script.js:101 | the book found is the first book in the list with that id |
| Books.AddPayload | client/script.js:80-86 | the add body always has `favorite` false, carries the form's title, year and category, and has rating `parseInt(rating) \|\| 0`, so 0 when the rating input is not a number |
| Books.PrefillForm | client/script.js:103-106 | the edit form is filled with the book's title and category, and with year and rating texts that read back as the book's year and rating |
| Books.EditPayload | client/script.js:109-115 | the edit body keeps the edited book's `favorite` flag, carries the form's title, year and category as submitted, and has rating `parseInt(rating) \|\| 0`, so 0 when the rating input is not a number |
| Books.EditUnchangedFormKeepsBook | client/script.js:103-115 | submitting the edit form untouched sends back the book's title, category, rating and favourite flag, and its year as text |
| Books.EditRequest | client/script.js:100-115 | an edit sends nothing when no book has the id; otherwise it sends the edit body of a book with that id, `books` being the list as it was when Edit was clicked |
| Books.Toggled | client/script.js:143 | the toggled record has `favorite` negated and every other field equal to the book's |
| Books.ToggledTwice | client/script.js:143 | toggling a record twice gives back the original record |
| Books.ToggleFavoriteRequest | client/script.js:140-143 | a toggle sends nothing when no book has the id; otherwise it sends a record with that id whose toggled form is a listed book |
| Listing.Filter | client/script.js:156-161 | `filter` keeps exactly the elements that pass, drawn from the input (sub-multiset) and no more of them |
| Listing.FilterAppend | client/script.js:156-161 | filtering a concatenation is concatenating the filtered parts, so kept elements keep their order |
| Listing.FilterKeepsAll | client/script.js:156-161 | when every element passes, `filter` returns the input unchanged |
| Listing.FilterIdempotent | client/script.js:156-161 | filtering twice with one predicate is filtering once |
| Listing.Matches | client/script.js:157-160 | the empty term matches every book; a matching term is no longer than the title, the category or the year's text |
| Listing.MatchesIff | client/script.js:157-160 | a book matches exactly when the term occurs at some index of its lower-cased title, its lower-cased category or its year's text |
| Listing.Search | client/script.js:154-161 | a book is in the search result exactly when it is in `books` and its lower-cased title or category, or its year text, contains the lower-cased term |
| Listing.SearchEmpty | client/script.js:155-161 | an empty search term keeps every book, in order |
| Listing.SearchIgnoresCase | client/script.js:155 | searching a term gives the same result as searching its lower-case form |
| Listing.SearchFindsYearAndTitle | client/script.js:158-160 | a book whose year text, or lower-cased title, contains the lower-cased term is found |
| Listing.SearchSingle | client/script.js:156-161 | a one-book list keeps its book exactly when the book matches |
| Listing.SearchPair | client/script.js:156-161 | searching two books is searching each and concatenating, in order |
| Listing.SearchIdempotent | client/script.js:154-161 | searching the results again with the same term changes nothing |
| Listing.SearchAppend | client/script.js:156-161 | search results keep the catalogue's order: the results for a concatenation are the results for each part, concatenated |
| Listing.Favorites | client/script.js:181 | a book is in the favourites view exactly when it is in `books` with `favorite` true |
| Listing.FavoritesAppend | client/script.js:181 | the favourites view keeps the catalogue's order |
| Listing.FavoritesOfFavorites | client/script.js:181 | a list of favourites only is its own favourites view |
| Paging.TotalPages | client/script.js:53 | the page count is the least number of 8-book pages that holds the books, and 0 exactly when there are none |
| Paging.TotalPagesMonotone | client/script.js:53 | more books never mean fewer pages |
| Paging.PageSlice | client/script.js:45-47 | the page shows at most 8 books, taken in order from index `(page-1)*8` and cut at the list's end; it is empty exactly when that index is at or past the end |
| Paging.BookOnItsPage | client/script.js:45-47 | the book at index i is on page `i/8+1`, at position `i%8`, and that page is within the page count |
| Paging.NonEmptyPages | client/script.js:45-53 | a page shows something exactly when its number is at most the page count |
| Paging.LastPageSize | client/script.js:45-53 | for a non-empty list the last page holds `N - (totalPages-1)*8` books, between 1 and 8 |
| Paging.RenderControls | client/script.js:53-58 | the controls show the page and the page count; Previous is disabled on page 1, Next on the page equal to the count |
| Paging.CanGoBack | client/script.js:63 | Previous acts on every page but page 1, and the page it moves to is still a page number (at least 1) |
| Paging.CanGoForward | client/script.js:70-71 | Next acts exactly when the next page of the whole catalogue has a book on it |
| Paging.ControlsMatchGuards | client/script.js:56-71 | on a page within range, each button is disabled exactly when its handler's guard refuses |
| Paging.NextEnabledButInert | client/script.js:53-71 | past the page count (for example "Page 1 of 0"), Next is enabled but `nextPage` does nothing |
| Sorting.KeyOf | client/script.js:167-171 | the drop-down values "title", "year" and "rating" select their comparators; any other value selects none |
| Sorting.CompareStrings | client/script.js:169 | title comparison gives -1, 0 or 1 |
| Sorting.CompareStringsMeaning | client/script.js:169 | a title compares no greater than another exactly when it is a prefix of it, or has the smaller character where they first differ |
| Sorting.CompareStringsAntisymmetric | client/script.js:169 | swapping the titles negates the comparison |
| Sorting.CompareStringsTransitive | client/script.js:169 | title order is transitive |
| Sorting.LexNoLaterTail | client/script.js:169 | titles with the same first character are ordered as their tails are |
| Sorting.LexTailToWhole | client/script.js:169 | if the tails are in order and the first characters equal, the titles are in order |
| Sorting.LexWholeToTail | client/script.js:169 | if the titles are in order and the first characters equal, the tails are in order |
| Sorting.LexNoLaterHead | client/script.js:169 | titles whose first characters differ are ordered by those characters |
| Sorting.Compare | client/script.js:168-171 | the comparator puts `a` no later than `b` exactly when its title is lexicographically no later, its year no greater, or its rating no smaller, as the key says; it gives 0 exactly for equal years or equal ratings, and always 0 for an unknown key |
| Sorting.PrecedesTotal | client/script.js:168-172 | for every key, of two books one may stand before the other |
| Sorting.PrecedesTransitive | client/script.js:168-172 | for every key, "may stand before" is transitive |
| Sorting.Insert | client/script.js:168 | inserting adds exactly one element and keeps all others |
| Sorting.SortedCons | client/script.js:168 | a book that may precede every element of a sorted list can be put at its front |
| Sorting.SortedTail | client/script.js:168 | the tail of a sorted list is sorted, and its head may precede every element of the tail |
| Sorting.InsertKeepsSorted | client/script.js:168 | inserting into a sorted list keeps it sorted |
| Sorting.SortBooks | client/script.js:168-172 | the sort is a permutation of `books`, non-decreasing by title or by year, or non-increasing by rating, as the key says |
| Sorting.RankClassCons | client/script.js:168-172 | the books ranking alike with `x` in a list are those of its head followed by those of its tail |
| Sorting.InsertRankClass | client/script.js:168-172 | inserting a book puts it first among the books that rank alike with it and leaves the order of every rank class otherwise unchanged |
| Sorting.SortBooksStable | client/script.js:168-172 | the sort is stable: for every book `x`, the books that rank alike with `x` appear in the sorted catalogue in the order they had before |
| Sorting.SortByTitleIsLexicographic | client/script.js:169 | sorted by title means every earlier title is no later, in lexicographic order, than every later one |
| Sorting.SortSortedIsIdentity | client/script.js:168-172 | a sort leaves an already-ordered catalogue exactly as it was |
| Sorting.SortIdempotent | client/script.js:168-172 | sorting twice by one key is sorting once |
| Sorting.SortUnorderedKeepsOrder | client/script.js:167-172 | with a drop-down value other than the three keys, the catalogue keeps its order |
| Catalogue.FilteredPagesNoMore | client/script.js:53-58 | search results and the favourites view never need more pages than `books`, which is what the controls count |
| Catalogue.SearchPastItsPages | client/script.js:45-47 | the search results on the current page are empty exactly when that page is past the results' own page count |
| Catalogue.ClientState.constructor | client/script.js:13-23 | at start-up the page is 1, favourites are off, and the first fetch's books are shown from page 1 |
| Catalogue.ClientState.Paginate | client/script.js:45-60 | the cards show the current page of the given list; the controls count the pages of `books`, whatever list is shown |
| Catalogue.ClientState.Refresh | client/script.js:19-23 | a fetch replaces `books` wholesale, leaves the page and the favourites toggle alone, and re-renders `books` |
| Catalogue.ClientState.PrevPage | client/script.js:62-67 | Previous steps back one page and re-renders `books` when the page is above 1; otherwise nothing changes; `books` stays; the page stays in range |
| Catalogue.ClientState.NextPage | client/script.js:69-75 | Next steps forward one page and re-renders `books` when the page is below the count of `books`; otherwise nothing changes; `books` stays; the page stays in range |
| Catalogue.ClientState.SearchClicked | client/script.js:154-163 | search shows the current page of the matches and changes neither `books`, the page, nor the toggle; the page stays in range |
| Catalogue.ClientState.SortChanged | client/script.js:166-174 | the sort replaces `books` by its sorted permutation, keeps the page, and re-renders `books`; the page stays in range |
| Catalogue.ClientState.FavoritesClicked | client/script.js:177-186 | the toggle flips (twice restores it) and shows the favourites when on, all of `books` when off; `books` and the page are unchanged; the page stays in range |
| Catalogue.DuneMatches | client/script.js:154-161 | a search for "Dun" matches the book titled "Dune" |
| Catalogue.EmmaDoesNotMatch | client/script.js:154-161 | a search for "Dun" does not match "Emma" (Romance, 1815) |
| Catalogue.EmmaTitleLacksTerm | client/script.js:158 | the lower-cased title "emma" does not contain "dun" |
| Catalogue.EmmaCategoryLacksTerm | client/script.js:159 | the lower-cased category "romance" does not contain "dun" |
| Catalogue.EmmaYearLacksTerm | client/script.js:160 | the year text "1815" does not contain "dun" |
| Catalogue.SearchDuneAlone | client/script.js:154-161 | a search for "Dun" keeps Dune when it is the only book |
| Catalogue.SearchEmmaAlone | client/script.js:154-161 | a search for "Dun" drops Emma when it is the only book |
| Catalogue.ExampleSortByYear | client/script.js:166-172 | sorting Dune (1965) and Emma (1815) by year puts Emma first |
| Catalogue.ExampleSearch | client/script.js:154-161 | searching "Dun" finds Dune alone, in either order of the two books |
| Catalogue.FirstPageOfTwo | client/script.js:45-53 | two books fit on page 1 of 1 |

## Left out

- `server/server.js` is not part of this model. It is Express routing over a
  Mongoose schema, and the validation (required fields, rating in [1, 5],
  `favorite` defaulting to false) is done by that library.
- DOM work is not modelled: element lookups, card HTML, button labels and
  the favourites button's text. The rendered state is reduced to the `shown`
  list and the `Controls` value.
- Network calls, `async`/`await` ordering and failures are not modelled.
  A successful fetch is `ClientState.Refresh(fetched)`, with the server's
  answer as a parameter. When `fetch` itself rejects, `fetchBooks` stops
  before the assignment and the state stays as it was. When the server
  answers the GET with its error object (status 500, server/server.js:36),
  client/script.js:21 stores that object in `books`, and `paginateBooks`
  then throws at `books.slice` (client/script.js:47). The model's `books` is
  always a list of records, so that broken state is not represented.
  Add, edit and toggle are modelled as the request bodies they build
  (`AddPayload`, `EditRequest`, `ToggleFavoriteRequest`), not as requests.
- The delete handler (client/script.js:132-137) is not modelled on its own.
  It builds no record. It asks `confirm`, sends the DELETE request
  (client/script.js:134, a network call and so not modelled), and then
  refreshes. That refresh is `Refresh`, with whatever list the server now
  returns.
- The form is not modelled as state. That covers writing the inputs,
  clearing them, and the submit handlers. `PrefillForm` and `EditPayload`
  model the values that pass through the form.
- Books.EditRequest: models only the PUT body of an edit, not everything an
  edit submission does. The add listener (client/script.js:78) is never
  removed, and `form.onsubmit` (client/script.js:107) is a second handler
  beside it. So an edit submission also POSTs `AddPayload(form)`, a duplicate
  book with `favorite` false. The edit handler then throws a ReferenceError
  at client/script.js:125, because `addBookHandler` is not defined. So the
  refresh at client/script.js:126 never runs, and the edit handler stays
  bound: every later add also PUTs the edit body to the old id. The handlers
  are never swapped back.
- `localeCompare` is approximated by code-point lexicographic order
  (`CompareStrings`).
- `toLowerCase` is modelled as ASCII-only. `parseInt` skips only ASCII white
  space.
- Number formatting and precision are not modelled. Years and ratings are
  unbounded integers. `toString` exponent notation for huge values, and the
  precision `parseInt` loses past 2^53, are floating-point effects.
- `Array.prototype.sort` is modelled by a stable insertion sort
  (`SortBooks`, `SortBooksStable`). The engine's algorithm and the number of
  comparator calls are not modelled; only the resulting order is.

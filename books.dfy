/** The book record as the client receives it from `GET /api/books`, and the
    request bodies the client builds for add, edit and the favourite toggle. */
module Books {
  import opened Text

  /** A fetched record: `_id`, title, year, category, rating, favourite flag. */
  datatype Book = Book(id: string, title: string, year: int, category: string, rating: int, favorite: bool)

  /** The text in the four inputs of the book form. */
  datatype BookForm = BookForm(title: string, year: string, category: string, rating: string)

  /** The JSON body sent by add (POST) and edit (PUT): the year travels as the
      input's text, the rating as the number `parseInt` read from it. */
  datatype BookPayload = BookPayload(title: string, year: string, category: string, rating: int, favorite: bool)

  /** `books.find(b => b._id === id)`. */
  function FindBook(books: seq<Book>, id: string): (r: Option<Book>)
    ensures r.None? <==> forall b :: b in books ==> b.id != id
    ensures r.Some? ==> r.value in books && r.value.id == id
  {
    if books == [] then None
    else if books[0].id == id then Some(books[0])
    else FindBook(books[1..], id)
  }

  /** The book found is the first one with that id. */
  lemma {:induction false} FindBookIsFirst(books: seq<Book>, id: string)
    requires FindBook(books, id).Some?
    ensures exists k :: 0 <= k < |books| && books[k] == FindBook(books, id).value
                        && (forall j :: 0 <= j < k ==> books[j].id != id)
  {
    if books[0].id != id {
      FindBookIsFirst(books[1..], id);
      var k :| 0 <= k < |books[1..]| && books[1..][k] == FindBook(books, id).value
               && (forall j :: 0 <= j < k ==> books[1..][j].id != id);
      assert books[k + 1] == FindBook(books, id).value;
      forall j | 0 <= j < k + 1 ensures books[j].id != id {
        if j > 0 { assert books[j] == books[1..][j - 1]; }
      }
    } else {
      assert books[0] == FindBook(books, id).value;
    }
  }

  /** The body the add form sends: the form's fields, the rating read with
      `parseInt(..) || 0`, and `favorite` always false. */
  function AddPayload(form: BookForm): (r: BookPayload)
    ensures !r.favorite
    ensures r.title == form.title && r.year == form.year && r.category == form.category
    ensures r.rating == ParseIntOrZero(form.rating)
    ensures ParseInt(form.rating).None? ==> r.rating == 0
  {
    BookPayload(form.title, form.year, form.category, ParseIntOrZero(form.rating), false)
  }

  /** What `editBook` writes into the form before the user edits it. */
  function PrefillForm(book: Book): (f: BookForm)
    ensures f.title == book.title && f.category == book.category
    ensures ParseIntOrZero(f.rating) == book.rating
    ensures ParseIntOrZero(f.year) == book.year
  {
    ParseIntOfDecimal(book.rating);
    ParseIntOfDecimal(book.year);
    BookForm(book.title, IntToDecimal(book.year), book.category, IntToDecimal(book.rating))
  }

  /** The body the edit form sends: the form as it is at submission, and the
      `favorite` flag of the book that was being edited. */
  function EditPayload(book: Book, form: BookForm): (r: BookPayload)
    ensures r.favorite == book.favorite
    ensures r.title == form.title && r.year == form.year && r.category == form.category
    ensures r.rating == ParseIntOrZero(form.rating)
    ensures ParseInt(form.rating).None? ==> r.rating == 0
  {
    BookPayload(form.title, form.year, form.category, ParseIntOrZero(form.rating), book.favorite)
  }

  /** Submitting the edit form without touching it sends the book back as it
      was: same title, category, rating and favourite flag, and the year as
      its decimal text. */
  lemma EditUnchangedFormKeepsBook(book: Book)
    ensures EditPayload(book, PrefillForm(book))
         == BookPayload(book.title, IntToDecimal(book.year), book.category, book.rating, book.favorite)
  {
  }

  /** The edit request for `id`: none when no fetched book has that id.
      `books` is the list as it was when Edit was clicked: the handler keeps
      the record it found then and sends that record's `favorite`, even if a
      later refresh has replaced `books` before the form is submitted. */
  function EditRequest(books: seq<Book>, id: string, form: BookForm): (r: Option<BookPayload>)
    ensures r.None? <==> forall b :: b in books ==> b.id != id
    ensures r.Some? ==> exists b :: b in books && b.id == id && r.value == EditPayload(b, form)
  {
    match FindBook(books, id)
    case None => None
    case Some(b) => Some(EditPayload(b, form))
  }

  /** `{ ...book, favorite: !book.favorite }`. */
  function Toggled(book: Book): (r: Book)
    ensures r.favorite == !book.favorite
    ensures r.(favorite := book.favorite) == book
  {
    book.(favorite := !book.favorite)
  }

  lemma ToggledTwice(book: Book)
    ensures Toggled(Toggled(book)) == book
  {
  }

  /** The record `toggleFavorite(id)` sends: none when no fetched book has
      that id. */
  function ToggleFavoriteRequest(books: seq<Book>, id: string): (r: Option<Book>)
    ensures r.None? <==> forall b :: b in books ==> b.id != id
    ensures r.Some? ==> r.value.id == id && Toggled(r.value) in books
  {
    match FindBook(books, id)
    case None => None
    case Some(b) => Some(Toggled(b))
  }
}

/** The books page: the search box, the issued/available badge, deletion behind the reference
    check, and the edit dialog, which saves without an ISBN check. */
module BooksPage {
  import opened LibraryTypes
  import opened Seqs
  import opened Text
  import opened Rules
  import opened LibraryContext

  /** A genre that is absent or empty counts as missing (`book.genre && ...`, `|| ""`). */
  function GenreText(g: Option<string>): string {
    if g.Some? then g.value else ""
  }

  /** Title, author or ISBN contains the lowercased term, or a non-empty genre does. */
  function BookMatches(term: string): Book -> bool {
    (b: Book) => Contains(Lower(b.title), term) || Contains(Lower(b.author), term) || Contains(Lower(b.isbn), term) ||
                 (GenreText(b.genre) != "" && Contains(Lower(GenreText(b.genre)), term))
  }

  /** The books the table lists. The filter always runs; an empty term keeps every book. */
  function FilteredBooks(books: seq<Book>, searchTerm: string): (r: seq<Book>)
    ensures forall b :: b in r <==> b in books && BookMatches(Lower(searchTerm))(b)
    ensures searchTerm == "" ==> r == books
  {
    var term := Lower(searchTerm);
    assert searchTerm == "" ==> forall i :: 0 <= i < |books| ==> BookMatches(term)(books[i]) by {
      if searchTerm == "" {
        forall i | 0 <= i < |books| ensures BookMatches(term)(books[i]) {
          ContainsEmpty(Lower(books[i].title));
        }
      }
    }
    Filter(books, BookMatches(term))
  }

  /** A book with no genre is found only through its title, author or ISBN. */
  lemma GenreMatchedOnlyWhenPresent(b: Book, term: string)
    requires b.genre.None?
    ensures BookMatches(term)(b) <==> Contains(Lower(b.title), term) || Contains(Lower(b.author), term) || Contains(Lower(b.isbn), term)
  {
  }

  /** `isBookIssued`: some record, loan or request, refers to the book. */
  predicate IsBookIssued(issues: seq<BookIssue>, bookId: string) {
    BookReferenced(issues, bookId)
  }

  datatype Availability = IssuedLabel | AvailableLabel

  /** The badge: a book is "Available" exactly when it is in the available set, so a requested
      book shows "Issued". */
  function AvailabilityBadge(books: seq<Book>, issues: seq<BookIssue>, b: Book): (l: Availability)
    requires b in books
    ensures l == AvailableLabel <==> b in AvailableBooks(books, issues)
  {
    if IsBookIssued(issues, b.id) then IssuedLabel else AvailableLabel
  }

  /** Saving an edit can give a book another book's ISBN: the page does not check. */
  lemma SaveEditCanDuplicateIsbn()
    ensures var a := Book("book-1", "A", "X", "111", None);
            var b := Book("book-2", "B", "Y", "222", None);
            IsbnsDistinct([a, b]) && !IsbnsDistinct(ReplaceBook([a, b], b.(isbn := "111")))
  {
    var a := Book("book-1", "A", "X", "111", None);
    var b := Book("book-2", "B", "Y", "222", None);
    var after := ReplaceBook([a, b], b.(isbn := "111"));
    assert after[0].isbn == after[1].isbn;
  }

  class BooksPage {
    const store: LibraryStore
    var searchTerm: string
    var editingBook: Option<Book>
    var editTitle: string
    var editAuthor: string
    var editIsbn: string
    var editGenre: string

    constructor (store: LibraryStore)
      ensures this.store == store && searchTerm == "" && editingBook == None
      ensures editTitle == "" && editAuthor == "" && editIsbn == "" && editGenre == ""
    {
      this.store := store;
      searchTerm := "";
      editingBook := None;
      editTitle, editAuthor, editIsbn, editGenre := "", "", "", "";
    }

    /** The rows shown (the filter effect's result). */
    function Shown(): seq<Book>
      reads this, store
    {
      FilteredBooks(store.books, searchTerm)
    }

    method SetSearchTerm(t: string)
      modifies this
      ensures searchTerm == t && editingBook == old(editingBook)
      ensures editTitle == old(editTitle) && editAuthor == old(editAuthor) &&
              editIsbn == old(editIsbn) && editGenre == old(editGenre)
    {
      searchTerm := t;
    }

    /** Opens the edit dialog; a missing genre becomes "". */
    method HandleEdit(b: Book)
      modifies this
      ensures editingBook == Some(b)
      ensures editTitle == b.title && editAuthor == b.author && editIsbn == b.isbn && editGenre == GenreText(b.genre)
      ensures searchTerm == old(searchTerm)
    {
      editingBook := Some(b);
      editTitle := b.title;
      editAuthor := b.author;
      editIsbn := b.isbn;
      editGenre := GenreText(b.genre);
    }

    /** Deletes the book only when no record, loan or request, refers to it. */
    method HandleDelete(bookId: string)
      modifies store
      ensures IsBookIssued(old(store.issuedBooks), bookId) ==> store.books == old(store.books)
      ensures !IsBookIssued(old(store.issuedBooks), bookId) ==>
                store.books == Filter(old(store.books), KeyIsNot(BookId, bookId))
      ensures store.user == old(store.user) && store.students == old(store.students) && store.issuedBooks == old(store.issuedBooks)
    {
      if IsBookIssued(store.issuedBooks, bookId) {
        return;
      }
      store.DeleteBook(bookId);
    }

    /** Saves the dialog: nothing without a book being edited; otherwise the book is replaced
        under its own id with the edited fields (genre always present) and the dialog closes. */
    method HandleSaveEdit()
      modifies this, store
      ensures old(editingBook).None? ==> unchanged(this) && unchanged(store)
      ensures old(editingBook).Some? ==>
                store.books == ReplaceBook(old(store.books),
                  Book(old(editingBook).value.id, old(editTitle), old(editAuthor), old(editIsbn), Some(old(editGenre)))) &&
                editingBook == None &&
                searchTerm == old(searchTerm) && editTitle == old(editTitle) && editAuthor == old(editAuthor) &&
                editIsbn == old(editIsbn) && editGenre == old(editGenre)
      ensures BookIdsDistinct(old(store.books)) ==> BookIdsDistinct(store.books)
      ensures store.user == old(store.user) && store.students == old(store.students) && store.issuedBooks == old(store.issuedBooks)
    {
      if editingBook.None? {
        return;
      }
      var nb := Book(editingBook.value.id, editTitle, editAuthor, editIsbn, Some(editGenre));
      ReplaceBookKeepsIds(store.books, nb);
      store.UpdateBook(nb);
      editingBook := None;
    }
  }
}

/** The add-book page (administrators): the duplicate-ISBN check and the append. */
module AddBookPage {
  import opened LibraryTypes
  import opened Text
  import opened Rules
  import opened LibraryContext

  class AddBookPage {
    const store: LibraryStore
    var title: string
    var author: string
    var isbn: string
    var genre: string
    var isSubmitting: bool

    constructor (store: LibraryStore)
      ensures this.store == store && title == "" && author == "" && isbn == "" && genre == "" && !isSubmitting
    {
      this.store := store;
      title, author, isbn, genre := "", "", "", "";
      isSubmitting := false;
    }

    /** Refused when a catalog book has the ISBN; otherwise appends the book under id "book-" +
        the clock in milliseconds and clears the form. ISBNs stay distinct. */
    method HandleSubmit(clockMs: nat)
      modifies this, store
      ensures IsbnTaken(old(store.books), old(isbn)) ==>
                store.books == old(store.books) &&
                title == old(title) && author == old(author) && isbn == old(isbn) && genre == old(genre)
      ensures !IsbnTaken(old(store.books), old(isbn)) ==>
                store.books == old(store.books) +
                  [Book("book-" + Decimal(clockMs), old(title), old(author), old(isbn), Some(old(genre)))] &&
                title == "" && author == "" && isbn == "" && genre == ""
      ensures IsbnsDistinct(old(store.books)) ==> IsbnsDistinct(store.books)
      ensures store.user == old(store.user) && store.students == old(store.students) && store.issuedBooks == old(store.issuedBooks)
      ensures !isSubmitting
    {
      isSubmitting := true;
      if IsbnTaken(store.books, isbn) {
        isSubmitting := false;
        return;
      }
      var b := Book("book-" + Decimal(clockMs), title, author, isbn, Some(genre));
      if IsbnsDistinct(store.books) {
        AddBookKeepsIsbnsDistinct(store.books, b);
      }
      store.AddBook(b);
      title, author, isbn, genre := "", "", "", "";
      isSubmitting := false;
    }
  }
}

/** The fifteen books both copies of the application start from. The client store and the Flask
    session are seeded with the same list. */
module SampleData {
  import opened LibraryTypes
  import opened Seqs
  import opened Rules

  /** The seed catalog, ids "book-1" to "book-15", each with a genre. */
  function SampleBooks(): (r: seq<Book>)
    ensures |r| == 15
    ensures forall i :: 0 <= i < |r| ==> r[i].genre.Some?
  {
    [
      Book("book-1", "To Kill a Mockingbird", "Harper Lee", "9780061120084", Some("Fiction")),
      Book("book-2", "1984", "George Orwell", "9780451524935", Some("Science Fiction")),
      Book("book-3", "The Great Gatsby", "F. Scott Fitzgerald", "9780743273565", Some("Fiction")),
      Book("book-4", "Pride and Prejudice", "Jane Austen", "9780141439518", Some("Romance")),
      Book("book-5", "The Catcher in the Rye", "J.D. Salinger", "9780316769488", Some("Fiction")),
      Book("book-6", "The Hobbit", "J.R.R. Tolkien", "9780547928227", Some("Fantasy")),
      Book("book-7", "Harry Potter and the Philosopher's Stone", "J.K. Rowling", "9780747532743", Some("Fantasy")),
      Book("book-8", "The Lord of the Rings", "J.R.R. Tolkien", "9780618640157", Some("Fantasy")),
      Book("book-9", "The Alchemist", "Paulo Coelho", "9780062315007", Some("Fiction")),
      Book("book-10", "The Da Vinci Code", "Dan Brown", "9780307474278", Some("Mystery")),
      Book("book-11", "The Hunger Games", "Suzanne Collins", "9780439023481", Some("Science Fiction")),
      Book("book-12", "The Shining", "Stephen King", "9780307743657", Some("Horror")),
      Book("book-13", "Brave New World", "Aldous Huxley", "9780060850524", Some("Science Fiction")),
      Book("book-14", "The Odyssey", "Homer", "9780140268867", Some("Classic")),
      Book("book-15", "Moby-Dick", "Herman Melville", "9780142437247", Some("Adventure"))
    ]
  }

  /** The seed catalog satisfies the invariants the guards protect: no two books share an id
      and no two share an ISBN. */
  lemma SampleBooksDistinct()
    ensures BookIdsDistinct(SampleBooks()) && IsbnsDistinct(SampleBooks())
  {
  }
}

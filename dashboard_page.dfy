/** The dashboard cards, computed on every render from the store. */
module DashboardPage {
  import opened LibraryTypes
  import opened Seqs
  import opened Rules

  /** The cards: total books, total students (admin only), the user's issued figure, and the
      available figure. */
  datatype Cards = Cards(totalBooks: nat, totalStudents: Option<nat>, issued: nat, available: int)

  function CardsFor(user: User, books: seq<Book>, students: seq<Student>, issues: seq<BookIssue>): Cards {
    Cards(|books|, if user.role == AdminRole then Some(|students|) else None,
          UserIssuedCount(user, issues), DisplayedAvailableCount(books, issues))
  }

  /** The students card is the admin's alone; a student's figure counts their own records,
      requests included; the available figure is the size of the available set under the
      one-issue-per-existing-book invariant, and can go negative without it. */
  lemma CardFacts(user: User, books: seq<Book>, students: seq<Student>, issues: seq<BookIssue>)
    ensures CardsFor(user, books, students, issues).totalStudents.Some? <==> user.role == AdminRole
    ensures user.role == StudentRole ==>
              CardsFor(user, books, students, issues).issued == |StudentIssues(issues, user.id)|
    ensures CardsFor(user, books, students, issues).issued <= |issues|
    ensures BookIdsDistinct(books) && OneIssuePerExistingBook(books, issues) ==>
              CardsFor(user, books, students, issues).available == |AvailableBooks(books, issues)| >= 0
  {
    FilterLength(issues, KeyIs(IssueStudentId, user.id));
    if BookIdsDistinct(books) && OneIssuePerExistingBook(books, issues) {
      AvailableCountFormula(books, issues);
    }
  }
}

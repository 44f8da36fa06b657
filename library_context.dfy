/** The client-side store: the session user and the three collections, with the thirteen
    operations the pages call. The store applies every operation as asked; the checks
    (ISBN and username uniqueness, references before a delete, availability) live in the
    pages. Persistence to the browser's storage is not modelled. */
module LibraryContext {
  import opened LibraryTypes
  import opened Seqs
  import opened Rules
  import opened SampleData

  /** The fixed administrator identity `loginAdmin` installs. */
  const AdminUser := User("admin", "Admin", AdminRole)

  /** The identity `loginStudent` installs: the student's id and name, role student. */
  function StudentUser(s: Student): User {
    User(s.id, s.name, StudentRole)
  }

  /** An issue record with its status set to issued and everything else kept. */
  function Approved(x: BookIssue): BookIssue {
    x.(status := Issued)
  }

  /** The issue list after `approveRequest(id)`: every record with the id becomes issued. */
  function ApproveAll(issues: seq<BookIssue>, id: string): (r: seq<BookIssue>)
    ensures |r| == |issues|
    ensures forall i :: 0 <= i < |issues| ==>
              r[i].id == issues[i].id && r[i].bookId == issues[i].bookId &&
              r[i].studentId == issues[i].studentId && r[i].issueDate == issues[i].issueDate &&
              r[i].returnDate == issues[i].returnDate
    ensures forall i :: 0 <= i < |issues| ==>
              r[i].status == (if issues[i].id == id then Issued else issues[i].status)
  {
    KeyIsMeaning(IssueId, id);
    MapWhere(issues, KeyIs(IssueId, id), Approved)
  }

  /** Approving twice is approving once. */
  lemma ApproveIdempotent(issues: seq<BookIssue>, id: string)
    ensures ApproveAll(ApproveAll(issues, id), id) == ApproveAll(issues, id)
  {
    var once := ApproveAll(issues, id);
    var twice := ApproveAll(once, id);
    forall i | 0 <= i < |issues| ensures twice[i] == once[i] {
    }
  }

  /** Approving an id no record carries changes nothing. */
  lemma ApproveAbsent(issues: seq<BookIssue>, id: string)
    requires !HasKey(issues, IssueId, id)
    ensures ApproveAll(issues, id) == issues
  {
    MapWhereNoHit(issues, KeyIs(IssueId, id), Approved);
  }

  /** Approving a request does not change which books are available (a request already
      holds its book). */
  lemma ApproveKeepsAvailability(books: seq<Book>, issues: seq<BookIssue>, id: string)
    ensures AvailableBooks(books, ApproveAll(issues, id)) == AvailableBooks(books, issues)
  {
    var after := ApproveAll(issues, id);
    forall b: Book ensures NotReferencedBy(after)(b) == NotReferencedBy(issues)(b) {
      if BookReferenced(issues, b.id) {
        var i :| 0 <= i < |issues| && IssueBookId(issues[i]) == b.id;
        assert IssueBookId(after[i]) == b.id;
      }
      if BookReferenced(after, b.id) {
        var i :| 0 <= i < |after| && IssueBookId(after[i]) == b.id;
        assert IssueBookId(issues[i]) == b.id;
      }
    }
    FilterCongruent(books, NotReferencedBy(after), NotReferencedBy(issues));
  }

  /** The book list after `updateBook(b)`: every book with `b`'s id is replaced by `b`. */
  function ReplaceBook(books: seq<Book>, b: Book): (r: seq<Book>)
    ensures |r| == |books|
    ensures forall i :: 0 <= i < |books| ==> r[i] == (if books[i].id == b.id then b else books[i])
  {
    KeyIsMeaning(BookId, b.id);
    assert forall x: Book :: Always(b)(x) == b;
    MapWhere(books, KeyIs(BookId, b.id), Always(b))
  }

  /** Replacing a book keeps the set of ids, so it keeps ids distinct, and replacing an id no
      book has changes nothing. */
  lemma ReplaceBookKeepsIds(books: seq<Book>, b: Book)
    ensures forall i :: 0 <= i < |books| ==> ReplaceBook(books, b)[i].id == books[i].id
    ensures BookIdsDistinct(books) ==> BookIdsDistinct(ReplaceBook(books, b))
    ensures !HasKey(books, BookId, b.id) ==> ReplaceBook(books, b) == books
  {
    if BookIdsDistinct(books) {
      MapWhereKeepsKeys(books, BookId, b.id, b);
    }
    if !HasKey(books, BookId, b.id) {
      MapWhereNoHit(books, KeyIs(BookId, b.id), Always(b));
    }
  }

  /** The student list after `updateStudent(s)`: every student with `s`'s id is replaced. */
  function ReplaceStudent(students: seq<Student>, s: Student): (r: seq<Student>)
    ensures |r| == |students|
    ensures forall i :: 0 <= i < |students| ==> r[i] == (if students[i].id == s.id then s else students[i])
  {
    KeyIsMeaning(StudentId, s.id);
    assert forall x: Student :: Always(s)(x) == s;
    MapWhere(students, KeyIs(StudentId, s.id), Always(s))
  }

  /** Replacing a student keeps ids distinct, and replacing an absent id changes nothing. */
  lemma ReplaceStudentKeepsIds(students: seq<Student>, s: Student)
    ensures StudentIdsDistinct(students) ==> StudentIdsDistinct(ReplaceStudent(students, s))
    ensures !HasKey(students, StudentId, s.id) ==> ReplaceStudent(students, s) == students
  {
    if StudentIdsDistinct(students) {
      MapWhereKeepsKeys(students, StudentId, s.id, s);
    }
    if !HasKey(students, StudentId, s.id) {
      MapWhereNoHit(students, KeyIs(StudentId, s.id), Always(s));
    }
  }

  /** Deleting by a unique id removes exactly one record; deleting an absent id changes
      nothing; what remains is everything with another id. */
  lemma DeleteByIdEffect<T(!new)>(s: seq<T>, key: T -> string, k: string)
    ensures forall x :: x in Filter(s, KeyIsNot(key, k)) <==> x in s && key(x) != k
    ensures DistinctBy(s, key) && HasKey(s, key, k) ==> |Filter(s, KeyIsNot(key, k))| == |s| - 1
    ensures !HasKey(s, key, k) ==> Filter(s, KeyIsNot(key, k)) == s
  {
    if DistinctBy(s, key) && HasKey(s, key, k) {
      RemoveUniqueKey(s, key, k);
    }
    if !HasKey(s, key, k) {
      RemoveAbsentKey(s, key, k);
    }
  }

  /** Returning the only record that refers to a book makes that book available again. */
  lemma ReturnRestoresAvailability(books: seq<Book>, issues: seq<BookIssue>, issueId: string, bookId: string)
    requires forall j :: 0 <= j < |issues| && issues[j].bookId == bookId ==> issues[j].id == issueId
    ensures forall b :: b in books && b.id == bookId ==>
              b in AvailableBooks(books, Filter(issues, KeyIsNot(IssueId, issueId)))
  {
    var after := Filter(issues, KeyIsNot(IssueId, issueId));
    assert !BookReferenced(after, bookId) by {
      forall j | 0 <= j < |after| ensures after[j].bookId != bookId {
        assert after[j] in after;
      }
    }
  }

  class LibraryStore {
    var user: Option<User>
    var books: seq<Book>
    var students: seq<Student>
    var issuedBooks: seq<BookIssue>

    /** Nobody logged in, the sample catalog, no students and no issues. */
    constructor ()
      ensures user == None && books == SampleBooks() && students == [] && issuedBooks == []
    {
      user := None;
      books := SampleBooks();
      students := [];
      issuedBooks := [];
    }

    method LoginAdmin()
      modifies this
      ensures user == Some(AdminUser)
      ensures books == old(books) && students == old(students) && issuedBooks == old(issuedBooks)
    {
      user := Some(AdminUser);
    }

    /** Installs the student's identity; the student need not be registered. */
    method LoginStudent(s: Student)
      modifies this
      ensures user == Some(StudentUser(s)) && user.value.role == StudentRole && user.value.id == s.id
      ensures books == old(books) && students == old(students) && issuedBooks == old(issuedBooks)
    {
      user := Some(StudentUser(s));
    }

    /** Appends the student without checking its username. */
    method RegisterStudent(s: Student)
      modifies this
      ensures students == old(students) + [s]
      ensures user == old(user) && books == old(books) && issuedBooks == old(issuedBooks)
    {
      students := students + [s];
    }

    method Logout()
      modifies this
      ensures user == None
      ensures books == old(books) && students == old(students) && issuedBooks == old(issuedBooks)
    {
      user := None;
    }

    /** Appends the book without checking its ISBN. */
    method AddBook(b: Book)
      modifies this
      ensures books == old(books) + [b]
      ensures user == old(user) && students == old(students) && issuedBooks == old(issuedBooks)
    {
      books := books + [b];
    }

    method UpdateBook(b: Book)
      modifies this
      ensures books == ReplaceBook(old(books), b)
      ensures user == old(user) && students == old(students) && issuedBooks == old(issuedBooks)
    {
      books := ReplaceBook(books, b);
    }

    /** Removes every book with the id; issue records referring to it are kept. */
    method DeleteBook(bookId: string)
      modifies this
      ensures books == Filter(old(books), KeyIsNot(BookId, bookId))
      ensures user == old(user) && students == old(students) && issuedBooks == old(issuedBooks)
    {
      books := Filter(books, KeyIsNot(BookId, bookId));
    }

    method UpdateStudent(s: Student)
      modifies this
      ensures students == ReplaceStudent(old(students), s)
      ensures user == old(user) && books == old(books) && issuedBooks == old(issuedBooks)
    {
      students := ReplaceStudent(students, s);
    }

    /** Removes every student with the id; issue records referring to it are kept. */
    method DeleteStudent(studentId: string)
      modifies this
      ensures students == Filter(old(students), KeyIsNot(StudentId, studentId))
      ensures user == old(user) && books == old(books) && issuedBooks == old(issuedBooks)
    {
      students := Filter(students, KeyIsNot(StudentId, studentId));
    }

    /** Appends the record as given, without checking availability. */
    method IssueBook(x: BookIssue)
      modifies this
      ensures issuedBooks == old(issuedBooks) + [x]
      ensures user == old(user) && books == old(books) && students == old(students)
    {
      issuedBooks := issuedBooks + [x];
    }

    /** Removes every record with the id, whatever its status (return and cancel alike). */
    method ReturnBook(issueId: string)
      modifies this
      ensures issuedBooks == Filter(old(issuedBooks), KeyIsNot(IssueId, issueId))
      ensures user == old(user) && books == old(books) && students == old(students)
    {
      issuedBooks := Filter(issuedBooks, KeyIsNot(IssueId, issueId));
    }

    /** Appends the request as given; the same list holds requests and loans. */
    method RequestBook(x: BookIssue)
      modifies this
      ensures issuedBooks == old(issuedBooks) + [x]
      ensures user == old(user) && books == old(books) && students == old(students)
    {
      issuedBooks := issuedBooks + [x];
    }

    method ApproveRequest(requestId: string)
      modifies this
      ensures issuedBooks == ApproveAll(old(issuedBooks), requestId)
      ensures user == old(user) && books == old(books) && students == old(students)
    {
      issuedBooks := ApproveAll(issuedBooks, requestId);
    }
  }
}

/** The guard predicates and derived views the pages and the Flask routes share: reference
    checks before a delete, ISBN and username uniqueness, the credential match, the
    available-book set and a student's issue list. The store itself checks none of them. */
module Rules {
  import opened LibraryTypes
  import opened Seqs

  /** Some issue record, of any status, refers to the book. */
  predicate BookReferenced(issues: seq<BookIssue>, bookId: string) {
    HasKey(issues, IssueBookId, bookId)
  }

  /** Some issue record, of any status, refers to the student. */
  predicate StudentReferenced(issues: seq<BookIssue>, studentId: string) {
    HasKey(issues, IssueStudentId, studentId)
  }

  /** Some catalog book already has the ISBN. */
  predicate IsbnTaken(books: seq<Book>, isbn: string) {
    HasKey(books, Isbn, isbn)
  }

  /** A book other than `id` already has the ISBN. */
  predicate IsbnTakenByOther(books: seq<Book>, isbn: string, id: string) {
    exists i :: 0 <= i < |books| && books[i].isbn == isbn && books[i].id != id
  }

  /** Some student already has the username. */
  predicate UsernameTaken(students: seq<Student>, username: string) {
    HasKey(students, Username, username)
  }

  /** A student other than `id` already has the username. */
  predicate UsernameTakenByOther(students: seq<Student>, username: string, id: string) {
    exists i :: 0 <= i < |students| && students[i].username == username && students[i].id != id
  }

  /** Catalog invariants the guards protect. */
  predicate IsbnsDistinct(books: seq<Book>) { DistinctBy(books, Isbn) }
  predicate UsernamesDistinct(students: seq<Student>) { DistinctBy(students, Username) }
  predicate BookIdsDistinct(books: seq<Book>) { DistinctBy(books, BookId) }
  predicate StudentIdsDistinct(students: seq<Student>) { DistinctBy(students, StudentId) }

  function NotReferencedBy(issues: seq<BookIssue>): Book -> bool {
    (b: Book) => !BookReferenced(issues, b.id)
  }

  /** The books no issue record refers to, in catalog order. A pending request already takes
      a book out of this set. */
  function AvailableBooks(books: seq<Book>, issues: seq<BookIssue>): (r: seq<Book>)
    ensures |r| <= |books|
    ensures forall b :: b in r <==> b in books && !BookReferenced(issues, b.id)
  {
    Filter(books, NotReferencedBy(issues))
  }

  /** The available set keeps catalog order: a book appended to the catalog comes last. */
  lemma AvailableBooksAppend(books: seq<Book>, b: Book, issues: seq<BookIssue>)
    ensures AvailableBooks(books + [b], issues) ==
            AvailableBooks(books, issues) + (if BookReferenced(issues, b.id) then [] else [b])
  {
    FilterConcat(books, [b], NotReferencedBy(issues));
  }

  /** After a new issue record for a book, no book with that id is available. */
  lemma IssuedBookUnavailable(books: seq<Book>, issues: seq<BookIssue>, x: BookIssue)
    ensures forall b :: b in AvailableBooks(books, issues + [x]) ==> b.id != x.bookId
  {
    var all := issues + [x];
    assert IssueBookId(all[|issues|]) == x.bookId;
  }

  /** The issue records of one student, requests included, in stored order. */
  function StudentIssues(issues: seq<BookIssue>, studentId: string): (r: seq<BookIssue>)
    ensures |r| <= |issues|
    ensures forall x :: x in r <==> x in issues && x.studentId == studentId
    ensures |r| == 0 <==> !StudentReferenced(issues, studentId)
  {
    var r := Filter(issues, KeyIs(IssueStudentId, studentId));
    FilterLength(issues, KeyIs(IssueStudentId, studentId));
    KeyIsMeaning(IssueStudentId, studentId);
    r
  }

  function CredentialsMatch(username: string, password: string): Student -> bool {
    (s: Student) => s.username == username && s.password == password
  }

  /** Position `k` holds a matching student and no earlier position does. */
  predicate FirstCredentialAt(students: seq<Student>, username: string, password: string, k: int) {
    0 <= k < |students| && students[k].username == username && students[k].password == password &&
    forall j :: 0 <= j < k ==> !(students[j].username == username && students[j].password == password)
  }

  /** The first student whose username and password both match. */
  function FindCredential(students: seq<Student>, username: string, password: string): (r: Option<Student>)
    ensures r.Some? <==> exists i :: 0 <= i < |students| && students[i].username == username && students[i].password == password
    ensures r.Some? ==> r.value.username == username && r.value.password == password
    ensures r.Some? ==> exists k :: FirstCredentialAt(students, username, password, k) && students[k] == r.value
  {
    match FirstIndex(students, CredentialsMatch(username, password))
    case Some(k) => Some(students[k])
    case None => None
  }

  /** `k` is the first position holding a book with the id. */
  predicate FirstBookAt(books: seq<Book>, id: string, k: int) {
    0 <= k < |books| && books[k].id == id && forall j :: 0 <= j < k ==> books[j].id != id
  }

  /** `k` is the first position holding a student with the id. */
  predicate FirstStudentAt(students: seq<Student>, id: string, k: int) {
    0 <= k < |students| && students[k].id == id && forall j :: 0 <= j < k ==> students[j].id != id
  }

  /** The first book with the id (`books.find`, `get_book_by_id`). */
  function FindBook(books: seq<Book>, id: string): (r: Option<Book>)
    ensures r.Some? <==> HasKey(books, BookId, id)
    ensures r.Some? ==> r.value in books && r.value.id == id
    ensures r.Some? ==> exists k :: FirstBookAt(books, id, k) && books[k] == r.value
  {
    KeyIsMeaning(BookId, id);
    FindFirst(books, KeyIs(BookId, id))
  }

  /** The first student with the id (`students.find`, `get_student_by_id`). */
  function FindStudent(students: seq<Student>, id: string): (r: Option<Student>)
    ensures r.Some? <==> HasKey(students, StudentId, id)
    ensures r.Some? ==> r.value in students && r.value.id == id
    ensures r.Some? ==> exists k :: FirstStudentAt(students, id, k) && students[k] == r.value
  {
    KeyIsMeaning(StudentId, id);
    FindFirst(students, KeyIs(StudentId, id))
  }

  /** Adding a book whose ISBN the guard found free keeps ISBNs distinct. */
  lemma AddBookKeepsIsbnsDistinct(books: seq<Book>, b: Book)
    requires IsbnsDistinct(books) && !IsbnTaken(books, b.isbn)
    ensures IsbnsDistinct(books + [b])
  {
    AppendKeepsDistinct(books, Isbn, b);
  }

  /** Registering a student whose username the guard found free keeps usernames distinct. */
  lemma RegisterKeepsUsernamesDistinct(students: seq<Student>, s: Student)
    requires UsernamesDistinct(students) && !UsernameTaken(students, s.username)
    ensures UsernamesDistinct(students + [s])
  {
    AppendKeepsDistinct(students, Username, s);
  }

  /** Putting `v` at position `k` keeps a key distinct when no other element has `v`'s key. */
  lemma SetKeepsDistinct<T, K>(s: seq<T>, key: T -> K, k: nat, v: T)
    requires k < |s| && DistinctBy(s, key)
    requires forall i :: 0 <= i < |s| && i != k ==> key(s[i]) != key(v)
    ensures DistinctBy(s[k := v], key)
  {
  }

  /** An edit that passed the "held by another book" check keeps ISBNs distinct, when book ids
      are distinct and the edit keeps the id. */
  lemma EditBookKeepsIsbnsDistinct(books: seq<Book>, id: string, nb: Book)
    requires IsbnsDistinct(books) && BookIdsDistinct(books)
    requires nb.id == id && !IsbnTakenByOther(books, nb.isbn, id)
    ensures IsbnsDistinct(MapFirst(books, KeyIs(BookId, id), Always(nb)))
    ensures IsbnsDistinct(MapWhere(books, KeyIs(BookId, id), Always(nb)))
  {
    MapFirstIsMapWhere(books, BookId, id, Always(nb));
    match FirstIndex(books, KeyIs(BookId, id))
    case None =>
    case Some(k) =>
      forall i | 0 <= i < |books| && i != k ensures books[i].isbn != nb.isbn {
        assert books[i].id != books[k].id;
      }
      SetKeepsDistinct(books, Isbn, k, nb);
  }

  /** An edit that passed the "held by another student" check keeps usernames distinct, when
      student ids are distinct and the edit keeps the id. */
  lemma EditStudentKeepsUsernamesDistinct(students: seq<Student>, id: string, ns: Student)
    requires UsernamesDistinct(students) && StudentIdsDistinct(students)
    requires ns.id == id && !UsernameTakenByOther(students, ns.username, id)
    ensures UsernamesDistinct(MapFirst(students, KeyIs(StudentId, id), Always(ns)))
    ensures UsernamesDistinct(MapWhere(students, KeyIs(StudentId, id), Always(ns)))
  {
    MapFirstIsMapWhere(students, StudentId, id, Always(ns));
    match FirstIndex(students, KeyIs(StudentId, id))
    case None =>
    case Some(k) =>
      forall i | 0 <= i < |students| && i != k ensures students[i].username != ns.username {
        assert students[i].id != students[k].id;
      }
      SetKeepsDistinct(students, Username, k, ns);
  }

  /** The dashboard's "Available Books" figure, as both copies compute it. */
  function DisplayedAvailableCount(books: seq<Book>, issues: seq<BookIssue>): int {
    |books| - |issues|
  }

  /** Every issue refers to a catalog book, and no book has two issues. */
  predicate OneIssuePerExistingBook(books: seq<Book>, issues: seq<BookIssue>) {
    DistinctBy(issues, IssueBookId) &&
    forall i :: 0 <= i < |issues| ==> HasKey(books, BookId, issues[i].bookId)
  }

  /** The invariant holds of every prefix of the issue list. */
  lemma OneIssuePerExistingBookPrefix(books: seq<Book>, issues: seq<BookIssue>, n: nat)
    requires n <= |issues| && OneIssuePerExistingBook(books, issues)
    ensures OneIssuePerExistingBook(books, issues[..n])
  {
    var p := issues[..n];
    forall i | 0 <= i < |p| ensures HasKey(books, BookId, p[i].bookId) {
      assert p[i] == issues[i];
    }
    forall i, j | 0 <= i < j < |p| ensures p[i].bookId != p[j].bookId {
      assert p[i] == issues[i] && p[j] == issues[j];
    }
  }

  /** One more issue record takes exactly the books with its book id out of the available set. */
  lemma NotReferencedSnoc(rest: seq<BookIssue>, x: BookIssue)
    ensures forall b: Book :: NotReferencedBy(rest + [x])(b) <==>
              NotReferencedBy(rest)(b) && KeyIsNot(BookId, x.bookId)(b)
  {
    var all := rest + [x];
    forall b: Book ensures BookReferenced(all, b.id) <==> BookReferenced(rest, b.id) || b.id == x.bookId {
      if BookReferenced(all, b.id) {
        var i :| 0 <= i < |all| && all[i].bookId == b.id;
        if i < |rest| {
          assert rest[i] == all[i];
        }
      }
      if BookReferenced(rest, b.id) {
        var i :| 0 <= i < |rest| && rest[i].bookId == b.id;
        assert IssueBookId(all[i]) == b.id;
      }
      if b.id == x.bookId {
        assert IssueBookId(all[|rest|]) == b.id;
      }
    }
    forall b: Book ensures NotReferencedBy(all)(b) <==> NotReferencedBy(rest)(b) && KeyIsNot(BookId, x.bookId)(b) {
      assert NotReferencedBy(all)(b) == !BookReferenced(all, b.id);
      assert NotReferencedBy(rest)(b) == !BookReferenced(rest, b.id);
      assert KeyIsNot(BookId, x.bookId)(b) == (b.id != x.bookId);
    }
  }

  /** The displayed figure is the size of the available set when book ids are distinct,
      every issue refers to a catalog book and no book has two issues. */
  lemma {:induction false} AvailableCountFormula(books: seq<Book>, issues: seq<BookIssue>)
    requires BookIdsDistinct(books) && OneIssuePerExistingBook(books, issues)
    ensures |AvailableBooks(books, issues)| == DisplayedAvailableCount(books, issues)
    decreases |issues|
  {
    if issues == [] {
      assert forall b: Book :: !BookReferenced([], b.id);
    } else {
      var n := |issues| - 1;
      var rest, x := issues[..n], issues[n];
      assert issues == rest + [x];
      OneIssuePerExistingBookPrefix(books, issues, n);
      AvailableCountFormula(books, rest);
      var before := AvailableBooks(books, rest);
      var k :| 0 <= k < |books| && books[k].id == x.bookId;
      assert !BookReferenced(rest, x.bookId) by {
        forall i | 0 <= i < |rest| ensures rest[i].bookId != x.bookId {
          assert rest[i] == issues[i];
        }
      }
      assert books[k] in before;
      assert BookId(before[IndexOf(before, books[k])]) == x.bookId;
      FilterKeepsDistinct(books, BookId, NotReferencedBy(rest));
      RemoveUniqueKey(before, BookId, x.bookId);
      NotReferencedSnoc(rest, x);
      FilterFilter(books, NotReferencedBy(issues), NotReferencedBy(rest), KeyIsNot(BookId, x.bookId));
    }
  }

  /** Without those conditions the figure is wrong: one book issued twice shows -1 available
      books where none is available. */
  lemma AvailableCountCanDiffer()
    ensures var b := Book("book-1", "t", "a", "i", None);
            var x := BookIssue("issue-1", "book-1", "s", "", "", Issued);
            var y := BookIssue("issue-2", "book-1", "s", "", "", Requested);
            DisplayedAvailableCount([b], [x, y]) == -1 && AvailableBooks([b], [x, y]) == []
  {
    var b := Book("book-1", "t", "a", "i", None);
    var x := BookIssue("issue-1", "book-1", "s", "", "", Issued);
    var y := BookIssue("issue-2", "book-1", "s", "", "", Requested);
    assert IssueBookId([x, y][0]) == b.id;
    assert !NotReferencedBy([x, y])(b);
  }

  /** The session is a student's. */
  predicate IsStudent(user: Option<User>) {
    user.Some? && user.value.role == StudentRole
  }

  /** The records a user is shown: a student's own (`get_student_issued_books` with the session
      identity, the issued-books page's role filter), every record otherwise. */
  function VisibleIssues(session: Option<User>, issues: seq<BookIssue>): (r: seq<BookIssue>)
    ensures IsStudent(session) ==> forall x :: x in r <==> x in issues && x.studentId == session.value.id
    ensures !IsStudent(session) ==> r == issues
  {
    if IsStudent(session) then StudentIssues(issues, session.value.id) else issues
  }

  /** One line of the users table: the student with its record count and whether one of its
      records is a pending request. */
  datatype StudentRow = StudentRow(student: Student, issuedCount: nat, hasRequests: bool)

  /** `any(issue['status'] == 'requested' for issue in ...)`. */
  predicate AnyRequested(xs: seq<BookIssue>) {
    exists i :: 0 <= i < |xs| && xs[i].status == Requested
  }

  /** A student has a pending request iff one of the student's own records is requested. */
  lemma RequestedAmong(issues: seq<BookIssue>, studentId: string)
    ensures AnyRequested(StudentIssues(issues, studentId)) <==>
            exists i :: 0 <= i < |issues| && issues[i].studentId == studentId && issues[i].status == Requested
  {
    var mine := StudentIssues(issues, studentId);
    if AnyRequested(mine) {
      var i :| 0 <= i < |mine| && mine[i].status == Requested;
      assert mine[i] in mine;
    }
    if exists i :: 0 <= i < |issues| && issues[i].studentId == studentId && issues[i].status == Requested {
      var i :| 0 <= i < |issues| && issues[i].studentId == studentId && issues[i].status == Requested;
      assert issues[i] in mine;
      var j :| 0 <= j < |mine| && mine[j] == issues[i];
    }
  }

  function StudentRowOf(s: Student, issues: seq<BookIssue>): (row: StudentRow)
    ensures row.student == s
    ensures row.issuedCount == Count(issues, KeyIs(IssueStudentId, s.id))
    ensures row.issuedCount == 0 <==> !StudentReferenced(issues, s.id)
    ensures row.hasRequests <==> exists i :: 0 <= i < |issues| && issues[i].studentId == s.id && issues[i].status == Requested
  {
    var mine := StudentIssues(issues, s.id);
    FilterLength(issues, KeyIs(IssueStudentId, s.id));
    RequestedAmong(issues, s.id);
    StudentRow(s, |mine|, AnyRequested(mine))
  }

  /** The "issued" figure on the dashboard: a student's own records, requests included, or
      every record for the admin. */
  function UserIssuedCount(user: User, issues: seq<BookIssue>): (n: nat)
    ensures n <= |issues|
    ensures user.role == StudentRole ==> n == Count(issues, KeyIs(IssueStudentId, user.id))
    ensures user.role == AdminRole ==> n == |issues|
  {
    FilterLength(issues, KeyIs(IssueStudentId, user.id));
    if user.role == StudentRole then |StudentIssues(issues, user.id)| else |issues|
  }

  /** The loan period, in calendar days, both copies add to the issue date. */
  const LoanPeriodDays: nat := 7

  /** Where a page's redirect effect sends the browser; `Stay` when it renders. */
  datatype Nav = Stay | ToHome | ToDashboard | ToRequestBook

  /** The redirect of a page any logged-in user may see: home when nobody is logged in. */
  function SignedInOnly(user: Option<User>): (n: Nav)
    ensures n == Stay <==> user.Some?
    ensures n != Stay ==> n == ToHome
  {
    if user.None? then ToHome else Stay
  }

  /** The redirect of an admin page: home when nobody is logged in, `studentTo` for a
      student. */
  function AdminOnly(user: Option<User>, studentTo: Nav): (n: Nav)
    requires studentTo != Stay
    ensures n == Stay <==> user.Some? && user.value.role == AdminRole
    ensures user.None? ==> n == ToHome
    ensures IsStudent(user) ==> n == studentTo
  {
    match user
    case None => ToHome
    case Some(u) => match u.role
      case StudentRole => studentTo
      case AdminRole => Stay
  }
}

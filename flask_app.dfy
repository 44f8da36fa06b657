/** The Flask copy of the application. Each browser session holds its own catalog, student
    list and issue list next to the login identity; the routes below are the POST handlers
    that change them and the views that read them. Random ids (`uuid4`) are parameters. */
module FlaskApp {
  import opened LibraryTypes
  import opened Seqs
  import opened Rules
  import opened SampleData
  import opened Dates

  datatype Category = Success | Error

  /** A flashed message and its category. */
  datatype Flash = Flash(category: Category, text: string)

  /** The pages a handler can send the browser to. */
  datatype Route =
    | IndexRoute | DashboardRoute | AdminLoginRoute | StudentLoginRoute | BooksRoute | AddBookRoute
    | EditBookRoute(bookId: string) | IssueBookRoute | RequestBookRoute | IssuedBooksRoute
    | UsersRoute | EditUserRoute(studentId: string)

  /** What a handler answers: a redirect, a rendered page, or an unhandled exception (HTTP 500). */
  datatype Reply = Redirect(to: Route, flash: Option<Flash>) | Render(page: Route, flash: Option<Flash>) | ServerError

  /** Submitted form fields; a field left empty is "". */
  datatype BookForm = BookForm(title: string, author: string, isbn: string, genre: string)
  datatype IssueForm = IssueForm(book: string, student: string, issueDate: string)
  datatype RequestForm = RequestForm(book: string, issueDate: string)
  datatype StudentForm = StudentForm(name: string, username: string, password: string, rollNo: string)

  const AccessDenied := Flash(Error, "Access denied. Admin privileges required.")
  const InvalidCredentials := Flash(Error, "Invalid credentials. Please try again.")
  const UsernameExists := Flash(Error, "Username already exists. Please choose another.")
  const IsbnExists := Flash(Error, "A book with this ISBN already exists.")

  /** `login_required`, and `admin_required` after it: `None` lets the handler run, otherwise
      the redirect the decorators answer with. */
  function Access(session: Option<User>, adminOnly: bool): (r: Option<Reply>)
    ensures r.None? <==> session.Some? && (adminOnly ==> session.value.role == AdminRole)
    ensures session.None? ==> r == Some(Redirect(IndexRoute, None))
    ensures session.Some? && r.Some? ==> r == Some(Redirect(DashboardRoute, Some(AccessDenied)))
  {
    if session.None? then Some(Redirect(IndexRoute, None))
    else if adminOnly && session.value.role != AdminRole then Some(Redirect(DashboardRoute, Some(AccessDenied)))
    else None
  }

  /** `[issue['bookId'] for issue in issued_books]`. */
  function IssuedBookIds(issues: seq<BookIssue>): (r: seq<string>)
    ensures |r| == |issues|
    ensures forall id :: id in r <==> BookReferenced(issues, id)
  {
    if issues == [] then []
    else
      var r := [issues[0].bookId] + IssuedBookIds(issues[1..]);
      assert forall id :: BookReferenced(issues, id) <==> id == issues[0].bookId || BookReferenced(issues[1..], id) by {
        forall id ensures BookReferenced(issues, id) <==> id == issues[0].bookId || BookReferenced(issues[1..], id) {
          if BookReferenced(issues, id) && id != issues[0].bookId {
            var i :| 0 <= i < |issues| && IssueBookId(issues[i]) == id;
            assert IssueBookId(issues[1..][i - 1]) == id;
          }
          if BookReferenced(issues[1..], id) {
            var i :| 0 <= i < |issues[1..]| && IssueBookId(issues[1..][i]) == id;
            assert IssueBookId(issues[i + 1]) == id;
          }
          if id == issues[0].bookId {
            assert IssueBookId(issues[0]) == id;
          }
        }
      }
      r
  }

  function IdNotIn(ids: seq<string>): Book -> bool {
    (b: Book) => b.id !in ids
  }

  /** `get_available_books`: the books whose id is not in the list of issued book ids. */
  function PyAvailableBooks(books: seq<Book>, issues: seq<BookIssue>): seq<Book> {
    Filter(books, IdNotIn(IssuedBookIds(issues)))
  }

  /** The id-list comprehension selects exactly the available set the client computes. */
  lemma PyAvailableIsAvailable(books: seq<Book>, issues: seq<BookIssue>)
    ensures PyAvailableBooks(books, issues) == AvailableBooks(books, issues)
  {
    var ids := IssuedBookIds(issues);
    forall b: Book ensures IdNotIn(ids)(b) == NotReferencedBy(issues)(b) {
    }
    FilterCongruent(books, IdNotIn(ids), NotReferencedBy(issues));
  }

  /** The stored issue date and the return date a week later, as `strptime`/`strftime` and
      `timedelta(days=7)` produce them; `None` when parsing raises `ValueError` or the addition
      raises `OverflowError`. */
  function LoanDates(s: string): (r: Option<(string, string)>)
    ensures r.Some? ==> r.value.0 == s
    ensures r.Some? ==> ParseDate(s).Some? && ParseDate(r.value.1) == PyAddDays(ParseDate(s).value, 7)
    ensures r.None? <==> ParseDate(s).None? || PyAddDays(ParseDate(s).value, 7).None?
  {
    match ParseDate(s)
    case None => None
    case Some(d) =>
      match PyAddDays(d, 7)
      case None => None
      case Some(e) =>
        FormatParseDate(s, d);
        ParseFormatDate(e);
        Some((FormatDate(d), FormatDate(e)))
  }

  /** A well-formed date before the last representable year always yields a loan. */
  lemma LoanDatesDefined(s: string)
    requires ParseDate(s).Some? && ParseDate(s).value.year < MaxYear
    ensures LoanDates(s).Some?
  {
    PyWeekLaterDefined(ParseDate(s).value);
  }

  /** One line of the issued-books table: the record with the book's and student's details, or
      the placeholders when a lookup fails. */
  datatype IssueRow = IssueRow(issue: BookIssue, title: string, author: string, studentName: string, rollNo: string)

  function IssueRowOf(x: BookIssue, books: seq<Book>, students: seq<Student>): (row: IssueRow)
    ensures row.issue == x
    ensures HasKey(books, BookId, x.bookId) ==>
              row.title == FindBook(books, x.bookId).value.title && row.author == FindBook(books, x.bookId).value.author
    ensures !HasKey(books, BookId, x.bookId) ==> row.title == "Unknown Book" && row.author == "Unknown Author"
    ensures HasKey(students, StudentId, x.studentId) ==>
              row.studentName == FindStudent(students, x.studentId).value.name &&
              row.rollNo == FindStudent(students, x.studentId).value.rollNo
    ensures !HasKey(students, StudentId, x.studentId) ==> row.studentName == "Unknown Student" && row.rollNo == "N/A"
  {
    var (title, author) := match FindBook(books, x.bookId)
      case Some(b) => (b.title, b.author)
      case None => ("Unknown Book", "Unknown Author");
    var (name, rollNo) := match FindStudent(students, x.studentId)
      case Some(s) => (s.name, s.rollNo)
      case None => ("Unknown Student", "N/A");
    IssueRow(x, title, author, name, rollNo)
  }

  /** The dashboard's figures. */
  datatype DashboardData = DashboardData(totalBooks: nat, totalStudents: nat, totalIssued: nat, userIssued: nat, availableBooks: int)

  function DashboardOf(user: User, books: seq<Book>, students: seq<Student>, issues: seq<BookIssue>): DashboardData {
    DashboardData(|books|, |students|, |issues|,
                  UserIssuedCount(user, issues),
                  DisplayedAvailableCount(books, issues))
  }

  /** A student's own figure never exceeds the total; the available figure is the true count of
      available books exactly under the one-issue-per-existing-book invariant. */
  lemma DashboardFigures(user: User, books: seq<Book>, students: seq<Student>, issues: seq<BookIssue>)
    ensures DashboardOf(user, books, students, issues).userIssued <= DashboardOf(user, books, students, issues).totalIssued
    ensures BookIdsDistinct(books) && OneIssuePerExistingBook(books, issues) ==>
              DashboardOf(user, books, students, issues).availableBooks == |AvailableBooks(books, issues)|
  {
    if BookIdsDistinct(books) && OneIssuePerExistingBook(books, issues) {
      AvailableCountFormula(books, issues);
    }
  }

  /** The book `edit_book` writes: the route's id with the submitted fields. */
  function EditedBook(bookId: string, f: BookForm): Book {
    Book(bookId, f.title, f.author, f.isbn, Some(f.genre))
  }

  /** The student `edit_user` writes: the route's id with the submitted fields. */
  function EditedStudent(studentId: string, f: StudentForm): Student {
    Student(studentId, f.name, f.username, f.password, f.rollNo)
  }

  /** The status change `approve_request` makes. */
  function SetIssued(x: BookIssue): BookIssue {
    x.(status := Issued)
  }

  /** The Flask edit and approve loops stop at the first match; the client store changes every
      match. With distinct ids the results agree. */
  lemma FirstMatchAgreesWithAll(books: seq<Book>, students: seq<Student>, issues: seq<BookIssue>,
                                bookId: string, nb: Book, studentId: string, ns: Student, issueId: string)
    requires BookIdsDistinct(books) && StudentIdsDistinct(students) && DistinctBy(issues, IssueId)
    ensures MapFirst(books, KeyIs(BookId, bookId), Always(nb)) == MapWhere(books, KeyIs(BookId, bookId), Always(nb))
    ensures MapFirst(students, KeyIs(StudentId, studentId), Always(ns)) == MapWhere(students, KeyIs(StudentId, studentId), Always(ns))
    ensures MapFirst(issues, KeyIs(IssueId, issueId), SetIssued) == MapWhere(issues, KeyIs(IssueId, issueId), SetIssued)
  {
    MapFirstIsMapWhere(books, BookId, bookId, Always(nb));
    MapFirstIsMapWhere(students, StudentId, studentId, Always(ns));
    MapFirstIsMapWhere(issues, IssueId, issueId, SetIssued);
  }

  /** The replacement loops of `edit_book`, `approve_request` and `edit_user`: scan in order,
      replace the first record whose key is `k` by `f` of it, and stop. */
  method ReplaceFirst<T, K(==)>(s: seq<T>, key: T -> K, k: K, f: T -> T) returns (r: seq<T>)
    ensures r == MapFirst(s, KeyIs(key, k), f)
  {
    r := s;
    var i := 0;
    while i < |r|
      invariant 0 <= i <= |r| && r == s
      invariant forall j :: 0 <= j < i ==> !KeyIs(key, k)(r[j])
    {
      KeyIsAt(key, k, r[i]);
      if key(r[i]) == k {
        FirstIndexAt(r, KeyIs(key, k), i);
        r := r[i := f(r[i])];
        return;
      }
      i := i + 1;
    }
  }

  class App {
    var session: Option<User>
    var books: seq<Book>
    var students: seq<Student>
    var issuedBooks: seq<BookIssue>

    /** A fresh session after `init_data`: nobody logged in, the sample catalog, no students,
        no issues. */
    constructor ()
      ensures session == None && books == SampleBooks() && students == [] && issuedBooks == []
    {
      session := None;
      books := SampleBooks();
      students := [];
      issuedBooks := [];
    }

    /** `get_book_by_id`: the first book with the id. */
    method GetBookById(bookId: string) returns (r: Option<Book>)
      ensures r == FindBook(books, bookId)
    {
      var i := 0;
      while i < |books|
        invariant 0 <= i <= |books|
        invariant forall j :: 0 <= j < i ==> !KeyIs(BookId, bookId)(books[j])
      {
        KeyIsAt(BookId, bookId, books[i]);
        if books[i].id == bookId {
          FirstIndexAt(books, KeyIs(BookId, bookId), i);
          return Some(books[i]);
        }
        i := i + 1;
      }
      return None;
    }

    /** `get_student_by_id`: the first student with the id. */
    method GetStudentById(studentId: string) returns (r: Option<Student>)
      ensures r == FindStudent(students, studentId)
    {
      var i := 0;
      while i < |students|
        invariant 0 <= i <= |students|
        invariant forall j :: 0 <= j < i ==> !KeyIs(StudentId, studentId)(students[j])
      {
        KeyIsAt(StudentId, studentId, students[i]);
        if students[i].id == studentId {
          FirstIndexAt(students, KeyIs(StudentId, studentId), i);
          return Some(students[i]);
        }
        i := i + 1;
      }
      return None;
    }

    /** `admin_login` on POST: only "admin" with "123" logs in. */
    method AdminLogin(username: string, password: string) returns (reply: Reply)
      modifies this
      ensures username == "admin" && password == "123" ==>
                session == Some(User("admin", "Admin", AdminRole)) &&
                reply == Redirect(DashboardRoute, Some(Flash(Success, "Welcome back, Admin!")))
      ensures !(username == "admin" && password == "123") ==>
                session == old(session) && reply == Render(AdminLoginRoute, Some(InvalidCredentials))
      ensures books == old(books) && students == old(students) && issuedBooks == old(issuedBooks)
    {
      if username == "admin" && password == "123" {
        session := Some(User("admin", "Admin", AdminRole));
        reply := Redirect(DashboardRoute, Some(Flash(Success, "Welcome back, Admin!")));
      } else {
        reply := Render(AdminLoginRoute, Some(InvalidCredentials));
      }
    }

    /** `student_login` with action "login": the first student whose username and password
        both match is logged in. */
    method StudentLogin(username: string, password: string) returns (reply: Reply)
      modifies this
      ensures var found := FindCredential(old(students), username, password);
              (found.Some? ==>
                 session == Some(User(found.value.id, found.value.name, StudentRole)) &&
                 reply == Redirect(DashboardRoute, Some(Flash(Success, "Welcome back, " + found.value.name + "!")))) &&
              (found.None? ==>
                 session == old(session) && reply == Render(StudentLoginRoute, Some(InvalidCredentials)))
      ensures books == old(books) && students == old(students) && issuedBooks == old(issuedBooks)
    {
      var i := 0;
      while i < |students|
        invariant 0 <= i <= |students|
        invariant forall j :: 0 <= j < i ==> !CredentialsMatch(username, password)(students[j])
      {
        var s := students[i];
        assert CredentialsMatch(username, password)(s) == (s.username == username && s.password == password);
        if s.username == username && s.password == password {
          FirstIndexAt(students, CredentialsMatch(username, password), i);
          session := Some(User(s.id, s.name, StudentRole));
          return Redirect(DashboardRoute, Some(Flash(Success, "Welcome back, " + s.name + "!")));
        }
        i := i + 1;
      }
      reply := Render(StudentLoginRoute, Some(InvalidCredentials));
    }

    /** `student_login` with action "register": refused when the username is taken, otherwise
        the student is appended under id "student-" + uuid. Usernames stay distinct. */
    method Register(f: StudentForm, uuid: string) returns (reply: Reply)
      modifies this
      ensures UsernameTaken(old(students), f.username) ==>
                students == old(students) && reply == Redirect(StudentLoginRoute, Some(UsernameExists))
      ensures !UsernameTaken(old(students), f.username) ==>
                students == old(students) + [Student("student-" + uuid, f.name, f.username, f.password, f.rollNo)] &&
                reply == Redirect(StudentLoginRoute, Some(Flash(Success, "Registration successful! You can now login.")))
      ensures UsernamesDistinct(old(students)) ==> UsernamesDistinct(students)
      ensures session == old(session) && books == old(books) && issuedBooks == old(issuedBooks)
    {
      if UsernameTaken(students, f.username) {
        return Redirect(StudentLoginRoute, Some(UsernameExists));
      }
      var s := Student("student-" + uuid, f.name, f.username, f.password, f.rollNo);
      if UsernamesDistinct(students) {
        RegisterKeepsUsernamesDistinct(students, s);
      }
      students := students + [s];
      reply := Redirect(StudentLoginRoute, Some(Flash(Success, "Registration successful! You can now login.")));
    }

    /** `logout`: drops the identity and keeps the session's collections. */
    method Logout() returns (reply: Reply)
      modifies this
      ensures session == None && reply == Redirect(IndexRoute, Some(Flash(Success, "You have been logged out successfully.")))
      ensures books == old(books) && students == old(students) && issuedBooks == old(issuedBooks)
    {
      session := None;
      reply := Redirect(IndexRoute, Some(Flash(Success, "You have been logged out successfully.")));
    }

    /** `dashboard`: the figures for the logged-in user. */
    function Dashboard(): (r: (Reply, Option<DashboardData>))
      reads this
      ensures session.None? <==> r.1.None?
      ensures session.None? ==> r.0 == Redirect(IndexRoute, None)
      ensures session.Some? ==> r == (Render(DashboardRoute, None), Some(DashboardOf(session.value, books, students, issuedBooks)))
      ensures session.Some? ==> r.1.value.userIssued <= r.1.value.totalIssued == |issuedBooks|
    {
      match Access(session, false)
      case Some(denied) => (denied, None)
      case None =>
        DashboardFigures(session.value, books, students, issuedBooks);
        (Render(DashboardRoute, None), Some(DashboardOf(session.value, books, students, issuedBooks)))
    }

    /** `add_book` on POST: refused when the ISBN is taken, otherwise the book is appended under
        id "book-" + uuid. ISBNs stay distinct. */
    method AddBook(f: BookForm, uuid: string) returns (reply: Reply)
      modifies this
      ensures Access(old(session), true).Some? ==> reply == Access(old(session), true).value && books == old(books)
      ensures Access(old(session), true).None? && IsbnTaken(old(books), f.isbn) ==>
                reply == Redirect(AddBookRoute, Some(IsbnExists)) && books == old(books)
      ensures Access(old(session), true).None? && !IsbnTaken(old(books), f.isbn) ==>
                books == old(books) + [Book("book-" + uuid, f.title, f.author, f.isbn, Some(f.genre))] &&
                reply == Redirect(BooksRoute, Some(Flash(Success, "Book added successfully!")))
      ensures IsbnsDistinct(old(books)) ==> IsbnsDistinct(books)
      ensures session == old(session) && students == old(students) && issuedBooks == old(issuedBooks)
    {
      var denied := Access(session, true);
      if denied.Some? {
        return denied.value;
      }
      if IsbnTaken(books, f.isbn) {
        return Redirect(AddBookRoute, Some(IsbnExists));
      }
      var b := Book("book-" + uuid, f.title, f.author, f.isbn, Some(f.genre));
      if IsbnsDistinct(books) {
        AddBookKeepsIsbnsDistinct(books, b);
      }
      books := books + [b];
      reply := Redirect(BooksRoute, Some(Flash(Success, "Book added successfully!")));
    }

    /** `edit_book` on POST: refused for an unknown id or an ISBN another book has; otherwise the
        first book with the id is replaced. With distinct ids, ISBNs stay distinct. */
    method EditBook(bookId: string, f: BookForm) returns (reply: Reply)
      modifies this
      ensures Access(old(session), true).Some? ==> reply == Access(old(session), true).value && books == old(books)
      ensures Access(old(session), true).None? && !HasKey(old(books), BookId, bookId) ==>
                reply == Redirect(BooksRoute, Some(Flash(Error, "Book not found."))) && books == old(books)
      ensures Access(old(session), true).None? && HasKey(old(books), BookId, bookId) && IsbnTakenByOther(old(books), f.isbn, bookId) ==>
                reply == Redirect(EditBookRoute(bookId), Some(IsbnExists)) && books == old(books)
      ensures Access(old(session), true).None? && HasKey(old(books), BookId, bookId) && !IsbnTakenByOther(old(books), f.isbn, bookId) ==>
                books == MapFirst(old(books), KeyIs(BookId, bookId), Always(EditedBook(bookId, f))) &&
                reply == Redirect(BooksRoute, Some(Flash(Success, "Book updated successfully!")))
      ensures IsbnsDistinct(old(books)) && BookIdsDistinct(old(books)) ==> IsbnsDistinct(books)
      ensures session == old(session) && students == old(students) && issuedBooks == old(issuedBooks)
    {
      var denied := Access(session, true);
      if denied.Some? {
        return denied.value;
      }
      var found := GetBookById(bookId);
      if found.None? {
        return Redirect(BooksRoute, Some(Flash(Error, "Book not found.")));
      }
      if IsbnTakenByOther(books, f.isbn, bookId) {
        return Redirect(EditBookRoute(bookId), Some(IsbnExists));
      }
      var nb := EditedBook(bookId, f);
      if IsbnsDistinct(books) && BookIdsDistinct(books) {
        EditBookKeepsIsbnsDistinct(books, bookId, nb);
      }
      books := ReplaceFirst(books, BookId, bookId, Always(nb));
      reply := Redirect(BooksRoute, Some(Flash(Success, "Book updated successfully!")));
    }

    /** `delete_book`: refused while any issue record refers to the book; otherwise every book
        with the id is removed. */
    method DeleteBook(bookId: string) returns (reply: Reply)
      modifies this
      ensures Access(old(session), true).Some? ==> reply == Access(old(session), true).value && books == old(books)
      ensures Access(old(session), true).None? && BookReferenced(old(issuedBooks), bookId) ==>
                reply == Redirect(BooksRoute, Some(Flash(Error, "Cannot delete book. It is currently issued to a student."))) &&
                books == old(books)
      ensures Access(old(session), true).None? && !BookReferenced(old(issuedBooks), bookId) ==>
                books == Filter(old(books), KeyIsNot(BookId, bookId)) &&
                reply == Redirect(BooksRoute, Some(Flash(Success, "Book deleted successfully!")))
      ensures OneIssuePerExistingBook(old(books), old(issuedBooks)) ==> OneIssuePerExistingBook(books, issuedBooks)
      ensures session == old(session) && students == old(students) && issuedBooks == old(issuedBooks)
    {
      var denied := Access(session, true);
      if denied.Some? {
        return denied.value;
      }
      if BookReferenced(issuedBooks, bookId) {
        return Redirect(BooksRoute, Some(Flash(Error, "Cannot delete book. It is currently issued to a student.")));
      }
      var kept := Filter(books, KeyIsNot(BookId, bookId));
      if OneIssuePerExistingBook(books, issuedBooks) {
        forall i | 0 <= i < |issuedBooks| ensures HasKey(kept, BookId, issuedBooks[i].bookId) {
          var k :| 0 <= k < |books| && BookId(books[k]) == issuedBooks[i].bookId;
          assert IssueBookId(issuedBooks[i]) == books[k].id;
          assert books[k] in kept;
          var j := IndexOf(kept, books[k]);
        }
      }
      books := kept;
      reply := Redirect(BooksRoute, Some(Flash(Success, "Book deleted successfully!")));
    }

    /** `issue_book` on POST: the three fields are required; the record is appended as issued
        under id "issue-" + uuid, due a week after the issue date. The book is not rechecked
        for availability and neither id is looked up. */
    method IssueBook(f: IssueForm, uuid: string) returns (reply: Reply)
      modifies this
      ensures Access(old(session), true).Some? ==> reply == Access(old(session), true).value && issuedBooks == old(issuedBooks)
      ensures Access(old(session), true).None? && (f.book == "" || f.student == "" || f.issueDate == "") ==>
                reply == Redirect(IssueBookRoute, Some(Flash(Error, "Please select both a book and a student."))) &&
                issuedBooks == old(issuedBooks)
      ensures Access(old(session), true).None? && f.book != "" && f.student != "" && f.issueDate != "" ==>
                match LoanDates(f.issueDate)
                case None => reply == ServerError && issuedBooks == old(issuedBooks)
                case Some(dates) =>
                  issuedBooks == old(issuedBooks) + [BookIssue("issue-" + uuid, f.book, f.student, dates.0, dates.1, Issued)] &&
                  reply == Redirect(IssuedBooksRoute, Some(Flash(Success, "Book issued successfully!")))
      ensures session == old(session) && books == old(books) && students == old(students)
    {
      var denied := Access(session, true);
      if denied.Some? {
        return denied.value;
      }
      if f.book == "" || f.student == "" || f.issueDate == "" {
        return Redirect(IssueBookRoute, Some(Flash(Error, "Please select both a book and a student.")));
      }
      var dates := LoanDates(f.issueDate);
      if dates.None? {
        return ServerError;
      }
      issuedBooks := issuedBooks + [BookIssue("issue-" + uuid, f.book, f.student, dates.value.0, dates.value.1, Issued)];
      reply := Redirect(IssuedBooksRoute, Some(Flash(Success, "Book issued successfully!")));
    }

    /** `request_book` on POST: only a student may request; book and date are required; the
        request is appended for the session's student under id "request-" + uuid. */
    method RequestBook(f: RequestForm, uuid: string) returns (reply: Reply)
      modifies this
      ensures Access(old(session), false).Some? ==> reply == Access(old(session), false).value && issuedBooks == old(issuedBooks)
      ensures old(session).Some? && !IsStudent(old(session)) ==>
                reply == Redirect(IssueBookRoute, None) && issuedBooks == old(issuedBooks)
      ensures IsStudent(old(session)) && (f.book == "" || f.issueDate == "") ==>
                reply == Redirect(RequestBookRoute, Some(Flash(Error, "Please select a book."))) && issuedBooks == old(issuedBooks)
      ensures IsStudent(old(session)) && f.book != "" && f.issueDate != "" ==>
                match LoanDates(f.issueDate)
                case None => reply == ServerError && issuedBooks == old(issuedBooks)
                case Some(dates) =>
                  issuedBooks == old(issuedBooks) + [BookIssue("request-" + uuid, f.book, old(session).value.id, dates.0, dates.1, Requested)] &&
                  reply == Redirect(IssuedBooksRoute, Some(Flash(Success, "Book request submitted successfully!")))
      ensures session == old(session) && books == old(books) && students == old(students)
    {
      var denied := Access(session, false);
      if denied.Some? {
        return denied.value;
      }
      if !IsStudent(session) {
        return Redirect(IssueBookRoute, None);
      }
      if f.book == "" || f.issueDate == "" {
        return Redirect(RequestBookRoute, Some(Flash(Error, "Please select a book.")));
      }
      var dates := LoanDates(f.issueDate);
      if dates.None? {
        return ServerError;
      }
      issuedBooks := issuedBooks + [BookIssue("request-" + uuid, f.book, session.value.id, dates.value.0, dates.value.1, Requested)];
      reply := Redirect(IssuedBooksRoute, Some(Flash(Success, "Book request submitted successfully!")));
    }

    /** `issued_books`: the visible records, each with its book's and student's details. */
    method IssuedBooks() returns (reply: Reply, rows: seq<IssueRow>)
      ensures Access(session, false).Some? ==> reply == Access(session, false).value && rows == []
      ensures Access(session, false).None? ==>
                reply == Render(IssuedBooksRoute, None) &&
                |rows| == |VisibleIssues(session, issuedBooks)| &&
                forall i :: 0 <= i < |rows| ==> rows[i] == IssueRowOf(VisibleIssues(session, issuedBooks)[i], books, students)
    {
      var denied := Access(session, false);
      if denied.Some? {
        return denied.value, [];
      }
      var issues := VisibleIssues(session, issuedBooks);
      rows := [];
      var i := 0;
      while i < |issues|
        invariant 0 <= i <= |issues| && |rows| == i
        invariant forall j :: 0 <= j < i ==> rows[j] == IssueRowOf(issues[j], books, students)
      {
        var x := issues[i];
        var book := GetBookById(x.bookId);
        var student := GetStudentById(x.studentId);
        var title, author := "Unknown Book", "Unknown Author";
        if book.Some? {
          title, author := book.value.title, book.value.author;
        }
        var name, rollNo := "Unknown Student", "N/A";
        if student.Some? {
          name, rollNo := student.value.name, student.value.rollNo;
        }
        rows := rows + [IssueRow(x, title, author, name, rollNo)];
        i := i + 1;
      }
      reply := Render(IssuedBooksRoute, None);
    }

    /** `return_book`: any logged-in user removes every record with the id, request or loan. */
    method ReturnBook(issueId: string) returns (reply: Reply)
      modifies this
      ensures Access(old(session), false).Some? ==> reply == Access(old(session), false).value && issuedBooks == old(issuedBooks)
      ensures Access(old(session), false).None? ==>
                issuedBooks == Filter(old(issuedBooks), KeyIsNot(IssueId, issueId)) &&
                reply == Redirect(IssuedBooksRoute, Some(Flash(Success, "Book returned successfully!")))
      ensures session == old(session) && books == old(books) && students == old(students)
    {
      var denied := Access(session, false);
      if denied.Some? {
        return denied.value;
      }
      issuedBooks := Filter(issuedBooks, KeyIsNot(IssueId, issueId));
      reply := Redirect(IssuedBooksRoute, Some(Flash(Success, "Book returned successfully!")));
    }

    /** `approve_request`: the first record with the id becomes issued, whatever it was. */
    method ApproveRequest(requestId: string) returns (reply: Reply)
      modifies this
      ensures Access(old(session), true).Some? ==> reply == Access(old(session), true).value && issuedBooks == old(issuedBooks)
      ensures Access(old(session), true).None? ==>
                issuedBooks == MapFirst(old(issuedBooks), KeyIs(IssueId, requestId), SetIssued) &&
                reply == Redirect(IssuedBooksRoute, Some(Flash(Success, "Book request approved!")))
      ensures |issuedBooks| == |old(issuedBooks)|
      ensures session == old(session) && books == old(books) && students == old(students)
    {
      var denied := Access(session, true);
      if denied.Some? {
        return denied.value;
      }
      issuedBooks := ReplaceFirst(issuedBooks, IssueId, requestId, SetIssued);
      reply := Redirect(IssuedBooksRoute, Some(Flash(Success, "Book request approved!")));
    }

    /** `users`: every student with its record count and pending-request flag. */
    method Users() returns (reply: Reply, rows: seq<StudentRow>)
      ensures Access(session, true).Some? ==> reply == Access(session, true).value && rows == []
      ensures Access(session, true).None? ==>
                reply == Render(UsersRoute, None) && |rows| == |students| &&
                forall i :: 0 <= i < |rows| ==> rows[i] == StudentRowOf(students[i], issuedBooks)
    {
      var denied := Access(session, true);
      if denied.Some? {
        return denied.value, [];
      }
      rows := [];
      var i := 0;
      while i < |students|
        invariant 0 <= i <= |students| && |rows| == i
        invariant forall j :: 0 <= j < i ==> rows[j] == StudentRowOf(students[j], issuedBooks)
      {
        var mine := StudentIssues(issuedBooks, students[i].id);
        rows := rows + [StudentRow(students[i], |mine|, AnyRequested(mine))];
        i := i + 1;
      }
      reply := Render(UsersRoute, None);
    }

    /** `edit_user` on POST: refused for an unknown id or a username another student has;
        otherwise the first student with the id is replaced. With distinct ids, usernames stay
        distinct. */
    method EditUser(studentId: string, f: StudentForm) returns (reply: Reply)
      modifies this
      ensures Access(old(session), true).Some? ==> reply == Access(old(session), true).value && students == old(students)
      ensures Access(old(session), true).None? && !HasKey(old(students), StudentId, studentId) ==>
                reply == Redirect(UsersRoute, Some(Flash(Error, "Student not found."))) && students == old(students)
      ensures Access(old(session), true).None? && HasKey(old(students), StudentId, studentId) &&
              UsernameTakenByOther(old(students), f.username, studentId) ==>
                reply == Redirect(EditUserRoute(studentId), Some(UsernameExists)) && students == old(students)
      ensures Access(old(session), true).None? && HasKey(old(students), StudentId, studentId) &&
              !UsernameTakenByOther(old(students), f.username, studentId) ==>
                students == MapFirst(old(students), KeyIs(StudentId, studentId), Always(EditedStudent(studentId, f))) &&
                reply == Redirect(UsersRoute, Some(Flash(Success, "Student updated successfully!")))
      ensures UsernamesDistinct(old(students)) && StudentIdsDistinct(old(students)) ==> UsernamesDistinct(students)
      ensures session == old(session) && books == old(books) && issuedBooks == old(issuedBooks)
    {
      var denied := Access(session, true);
      if denied.Some? {
        return denied.value;
      }
      var found := GetStudentById(studentId);
      if found.None? {
        return Redirect(UsersRoute, Some(Flash(Error, "Student not found.")));
      }
      if UsernameTakenByOther(students, f.username, studentId) {
        return Redirect(EditUserRoute(studentId), Some(UsernameExists));
      }
      var ns := EditedStudent(studentId, f);
      if UsernamesDistinct(students) && StudentIdsDistinct(students) {
        EditStudentKeepsUsernamesDistinct(students, studentId, ns);
      }
      students := ReplaceFirst(students, StudentId, studentId, Always(ns));
      reply := Redirect(UsersRoute, Some(Flash(Success, "Student updated successfully!")));
    }

    /** `delete_user`: refused while any issue record refers to the student; otherwise every
        student with the id is removed. */
    method DeleteUser(studentId: string) returns (reply: Reply)
      modifies this
      ensures Access(old(session), true).Some? ==> reply == Access(old(session), true).value && students == old(students)
      ensures Access(old(session), true).None? && StudentReferenced(old(issuedBooks), studentId) ==>
                reply == Redirect(UsersRoute, Some(Flash(Error, "Cannot delete student. They have issued books."))) &&
                students == old(students)
      ensures Access(old(session), true).None? && !StudentReferenced(old(issuedBooks), studentId) ==>
                students == Filter(old(students), KeyIsNot(StudentId, studentId)) &&
                reply == Redirect(UsersRoute, Some(Flash(Success, "Student deleted successfully!")))
      ensures session == old(session) && books == old(books) && issuedBooks == old(issuedBooks)
    {
      var denied := Access(session, true);
      if denied.Some? {
        return denied.value;
      }
      if StudentReferenced(issuedBooks, studentId) {
        return Redirect(UsersRoute, Some(Flash(Error, "Cannot delete student. They have issued books.")));
      }
      students := Filter(students, KeyIsNot(StudentId, studentId));
      reply := Redirect(UsersRoute, Some(Flash(Success, "Student deleted successfully!")));
    }
  }
}

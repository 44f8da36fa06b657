/** The records of the library: books, students, the session user and book issues.
    Every field of the TypeScript interfaces is present; `genre` is the only optional one. */
module LibraryTypes {

  /** `T | null`, `T | undefined` and optional fields. */
  datatype Option<T> = None | Some(value: T)

  /** A catalog entry. `genre` is the only field that may be absent. */
  datatype Book = Book(id: string, title: string, author: string, isbn: string, genre: Option<string>)

  /** A registered student; passwords are kept and compared in plain text. */
  datatype Student = Student(id: string, name: string, username: string, password: string, rollNo: string)

  /** The two roles a session can have. */
  datatype Role = AdminRole | StudentRole

  /** The session identity (never persisted). */
  datatype User = User(id: string, name: string, role: Role)

  /** The two states an issue record can be in; a returned or cancelled loan has no record. */
  datatype Status = Issued | Requested

  /** A loan or a loan request. It refers to its book and its student by id only. */
  datatype BookIssue = BookIssue(id: string, bookId: string, studentId: string,
                                 issueDate: string, returnDate: string, status: Status)

  // Keys used to look records up.
  function BookId(b: Book): string { b.id }
  function StudentId(s: Student): string { s.id }
  function IssueId(i: BookIssue): string { i.id }
  function IssueBookId(i: BookIssue): string { i.bookId }
  function IssueStudentId(i: BookIssue): string { i.studentId }
  function Isbn(b: Book): string { b.isbn }
  function Username(s: Student): string { s.username }

  /** The string a status is stored as. */
  function StatusName(s: Status): string {
    match s
    case Issued => "issued"
    case Requested => "requested"
  }

  /** The inverse of `StatusName`: the two literals of the union correspond one to one with the
      statuses, and no other string names one. */
  function ParseStatus(s: string): (r: Option<Status>)
    ensures r.Some? <==> s == "issued" || s == "requested"
    ensures r.Some? ==> StatusName(r.value) == s
    ensures forall st :: s == StatusName(st) ==> r == Some(st)
  {
    if s == "issued" then Some(Issued)
    else if s == "requested" then Some(Requested)
    else None
  }

  /** The string a role is stored as. */
  function RoleName(r: Role): string {
    match r
    case AdminRole => "admin"
    case StudentRole => "student"
  }

  /** The inverse of `RoleName`: "admin" and "student" correspond one to one with the roles, and
      no other string names one. */
  function ParseRole(s: string): (r: Option<Role>)
    ensures r.Some? <==> s == "admin" || s == "student"
    ensures r.Some? ==> RoleName(r.value) == s
    ensures forall ro :: s == RoleName(ro) ==> r == Some(ro)
  {
    if s == "admin" then Some(AdminRole)
    else if s == "student" then Some(StudentRole)
    else None
  }
}

/** The issued-books page: which records a user sees, the search box, the overdue test, the
    status badge, the actions offered per row, and the two confirm dialogs. */
module IssuedBooksPage {
  import opened LibraryTypes
  import opened Seqs
  import opened Text
  import opened Dates
  import opened Rules
  import opened LibraryContext

  /** A record's book or student matches the lowercased term: title or author, name or roll
      number. A failed lookup matches nothing. */
  predicate SearchHit(term: string, book: Option<Book>, student: Option<Student>) {
    (book.Some? && (Contains(Lower(book.value.title), term) || Contains(Lower(book.value.author), term))) ||
    (student.Some? && (Contains(Lower(student.value.name), term) || Contains(Lower(student.value.rollNo), term)))
  }

  function IssueMatches(books: seq<Book>, students: seq<Student>, term: string): BookIssue -> bool {
    (x: BookIssue) => SearchHit(term, FindBook(books, x.bookId), FindStudent(students, x.studentId))
  }

  /** The rows shown: the role filter, then the search filter when the box is not empty. */
  function FilteredIssues(user: Option<User>, books: seq<Book>, students: seq<Student>,
                          issues: seq<BookIssue>, searchTerm: string): (r: seq<BookIssue>)
    ensures searchTerm == "" ==> r == VisibleIssues(user, issues)
    ensures forall x :: x in r <==>
              (x in VisibleIssues(user, issues) &&
               (searchTerm == "" || SearchHit(Lower(searchTerm), FindBook(books, x.bookId), FindStudent(students, x.studentId))))
    ensures IsStudent(user) ==> forall x :: x in r ==> x.studentId == user.value.id
  {
    var visible := VisibleIssues(user, issues);
    if searchTerm == "" then visible
    else
      var r := Filter(visible, IssueMatches(books, students, Lower(searchTerm)));
      assert forall x :: IssueMatches(books, students, Lower(searchTerm))(x) ==
                         SearchHit(Lower(searchTerm), FindBook(books, x.bookId), FindStudent(students, x.studentId));
      r
  }

  /** `isAfter(new Date(), parseISO(returnDate))`: an unparsable date is never overdue. */
  predicate IsOverdue(now: Moment, returnDate: string) {
    match ParseIso(returnDate)
    case None => false
    case Some(due) => After(now, due)
  }

  /** On a due date the client wrote itself, overdue means exactly "now is strictly later". */
  lemma IsOverdueFormatted(now: Moment, due: Moment)
    requires ValidMoment(due) && due.date.year <= 999999
    ensures IsOverdue(now, FormatIso(due)) <==> After(now, due)
    ensures !IsOverdue(due, FormatIso(due))
  {
    ParseFormatIso(due);
  }

  datatype Badge = RequestedBadge | OverdueBadge | IssuedBadge

  /** The status badge: a request shows "Requested" whatever its dates; a loan shows "Overdue"
      once past due and "Issued" before. */
  function StatusBadge(x: BookIssue, now: Moment): (b: Badge)
    ensures b == RequestedBadge <==> x.status == Requested
    ensures b == OverdueBadge <==> x.status == Issued && IsOverdue(now, x.returnDate)
    ensures b == IssuedBadge <==> x.status == Issued && !IsOverdue(now, x.returnDate)
  {
    match x.status
    case Requested => RequestedBadge
    case Issued => if IsOverdue(now, x.returnDate) then OverdueBadge else IssuedBadge
  }

  /** "Approve Request" appears for the admin on a request. */
  predicate OffersApprove(user: User, x: BookIssue) {
    user.role == AdminRole && x.status == Requested
  }

  /** "Return Book" / "Cancel Request" appears for the admin, and for a student on a loan. */
  predicate OffersReturn(user: User, x: BookIssue) {
    user.role == AdminRole || x.status != Requested
  }

  /** The return dialog's alert shows for a loan past due. */
  predicate ShowsOverdueAlert(x: BookIssue, now: Moment) {
    IsOverdue(now, x.returnDate) && x.status != Requested
  }

  /** The action rules: a student can neither approve nor cancel a request and can return a
      loan; the admin always has an action; the alert shows exactly on rows badged overdue. */
  lemma ActionRules(user: User, x: BookIssue, now: Moment)
    ensures user.role == StudentRole ==> !OffersApprove(user, x)
    ensures user.role == StudentRole ==> (OffersReturn(user, x) <==> x.status == Issued)
    ensures user.role == AdminRole ==> OffersApprove(user, x) || OffersReturn(user, x)
    ensures ShowsOverdueAlert(x, now) <==> StatusBadge(x, now) == OverdueBadge
  {
  }

  class IssuedBooksPage {
    const store: LibraryStore
    var searchTerm: string
    var selectedIssue: Option<BookIssue>
    var isReturnDialogOpen: bool
    var isApproveDialogOpen: bool

    constructor (store: LibraryStore)
      ensures this.store == store
      ensures searchTerm == "" && selectedIssue == None && !isReturnDialogOpen && !isApproveDialogOpen
    {
      this.store := store;
      searchTerm := "";
      selectedIssue := None;
      isReturnDialogOpen := false;
      isApproveDialogOpen := false;
    }

    /** The rows the table shows (the filter effect's result). */
    function Shown(): seq<BookIssue>
      reads this, store
    {
      FilteredIssues(store.user, store.books, store.students, store.issuedBooks, searchTerm)
    }

    method SetSearchTerm(t: string)
      modifies this
      ensures searchTerm == t
      ensures selectedIssue == old(selectedIssue) && isReturnDialogOpen == old(isReturnDialogOpen) &&
              isApproveDialogOpen == old(isApproveDialogOpen)
    {
      searchTerm := t;
    }

    /** Opens the return dialog on a record. */
    method HandleReturn(x: BookIssue)
      modifies this
      ensures selectedIssue == Some(x) && isReturnDialogOpen
      ensures searchTerm == old(searchTerm) && isApproveDialogOpen == old(isApproveDialogOpen)
    {
      selectedIssue := Some(x);
      isReturnDialogOpen := true;
    }

    /** Opens the approve dialog on a record. */
    method HandleApprove(x: BookIssue)
      modifies this
      ensures selectedIssue == Some(x) && isApproveDialogOpen
      ensures searchTerm == old(searchTerm) && isReturnDialogOpen == old(isReturnDialogOpen)
    {
      selectedIssue := Some(x);
      isApproveDialogOpen := true;
    }

    /** Returns (or cancels) the selected record, closes the dialog and clears the selection;
        does nothing without a selection. */
    method ConfirmReturn()
      modifies this, store
      ensures old(selectedIssue).None? ==>
                unchanged(this) && unchanged(store)
      ensures old(selectedIssue).Some? ==>
                store.issuedBooks == Filter(old(store.issuedBooks), KeyIsNot(IssueId, old(selectedIssue).value.id)) &&
                selectedIssue == None && !isReturnDialogOpen &&
                searchTerm == old(searchTerm) && isApproveDialogOpen == old(isApproveDialogOpen)
      ensures store.user == old(store.user) && store.books == old(store.books) && store.students == old(store.students)
    {
      if selectedIssue.None? {
        return;
      }
      store.ReturnBook(selectedIssue.value.id);
      isReturnDialogOpen := false;
      selectedIssue := None;
    }

    /** Approves the selected record, closes the dialog and clears the selection; does nothing
        without a selection. */
    method ConfirmApprove()
      modifies this, store
      ensures old(selectedIssue).None? ==>
                unchanged(this) && unchanged(store)
      ensures old(selectedIssue).Some? ==>
                store.issuedBooks == ApproveAll(old(store.issuedBooks), old(selectedIssue).value.id) &&
                selectedIssue == None && !isApproveDialogOpen &&
                searchTerm == old(searchTerm) && isReturnDialogOpen == old(isReturnDialogOpen)
      ensures store.user == old(store.user) && store.books == old(store.books) && store.students == old(store.students)
    {
      if selectedIssue.None? {
        return;
      }
      store.ApproveRequest(selectedIssue.value.id);
      isApproveDialogOpen := false;
      selectedIssue := None;
    }
  }
}

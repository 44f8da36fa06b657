/** The issue-books page (administrators): the available-book choices, the issue date with its
    derived return date, and the submit handler that records a loan in the store. The two
    clock readings the page takes (`new Date()` for each date) are parameters. */
module IssueBooksPage {
  import opened LibraryTypes
  import opened Text
  import opened Dates
  import opened Rules
  import opened LibraryContext
  import opened IssuedBooksPage

  /** The timestamps of a loan written from a picked date: both read back as written, the due
      date is a week after the issue date, and the loan turns overdue exactly after it. */
  lemma LoanTimestamps(issued: Moment, now: Moment)
    requires ValidMoment(issued) && issued.date.year < 999999
    ensures ParseIso(FormatIso(issued)) == Some(issued)
    ensures ParseIso(FormatIso(AddDaysMoment(issued, 7))) == Some(AddDaysMoment(issued, 7))
    ensures After(AddDaysMoment(issued, 7), issued)
    ensures IsOverdue(now, FormatIso(AddDaysMoment(issued, 7))) <==> After(now, AddDaysMoment(issued, 7))
  {
    var due := AddDaysMoment(issued, 7);
    ShortAddCrossesOneYear(issued.date, 7);
    assert due.date.year <= 999999;
    ParseFormatIso(issued);
    ParseFormatIso(due);
    IsOverdueFormatted(now, due);
  }

  class IssueBooksPage {
    const store: LibraryStore
    var selectedBook: string
    var selectedStudent: string
    var issueDate: Moment
    var returnDate: Moment
    var isSubmitting: bool

    predicate DatesValid()
      reads this
    {
      ValidMoment(issueDate) && ValidMoment(returnDate)
    }

    /** What the return-date effect maintains. */
    predicate ReturnDateDerived()
      reads this
    {
      ValidMoment(issueDate) && returnDate == AddDaysMoment(issueDate, LoanPeriodDays)
    }

    /** The initial state, from two clock readings. */
    constructor (store: LibraryStore, now: Moment, later: Moment)
      requires ValidMoment(now) && ValidMoment(later)
      ensures this.store == store && DatesValid()
      ensures selectedBook == "" && selectedStudent == "" && !isSubmitting
      ensures issueDate == now && returnDate == AddDaysMoment(later, LoanPeriodDays)
    {
      this.store := store;
      selectedBook := "";
      selectedStudent := "";
      issueDate := now;
      returnDate := AddDaysMoment(later, LoanPeriodDays);
      isSubmitting := false;
    }

    method SelectBook(id: string)
      modifies this
      ensures selectedBook == id
      ensures selectedStudent == old(selectedStudent) && issueDate == old(issueDate) &&
              returnDate == old(returnDate) && isSubmitting == old(isSubmitting)
    {
      selectedBook := id;
    }

    method SelectStudent(id: string)
      modifies this
      ensures selectedStudent == id
      ensures selectedBook == old(selectedBook) && issueDate == old(issueDate) &&
              returnDate == old(returnDate) && isSubmitting == old(isSubmitting)
    {
      selectedStudent := id;
    }

    /** The calendar's `onSelect`: a cleared selection leaves the date as it was. */
    method PickIssueDate(d: Option<Moment>)
      requires d.Some? ==> ValidMoment(d.value)
      modifies this
      ensures issueDate == (if d.Some? then d.value else old(issueDate))
      ensures selectedBook == old(selectedBook) && selectedStudent == old(selectedStudent) &&
              returnDate == old(returnDate) && isSubmitting == old(isSubmitting)
    {
      if d.Some? {
        issueDate := d.value;
      }
    }

    /** The effect that runs after `issueDate` changes: the return date is a week later. */
    method ReturnDateEffect()
      requires ValidMoment(issueDate)
      modifies this
      ensures ReturnDateDerived() && DatesValid()
      ensures issueDate == old(issueDate) && selectedBook == old(selectedBook) &&
              selectedStudent == old(selectedStudent) && isSubmitting == old(isSubmitting)
    {
      returnDate := AddDaysMoment(issueDate, LoanPeriodDays);
    }

    /** Without a book and a student nothing happens; otherwise one loan is appended with the
        selections and the two dates, and the form is reset from two new clock readings. */
    method HandleSubmit(clockMs: nat, now: Moment, later: Moment)
      requires DatesValid() && ValidMoment(now) && ValidMoment(later)
      modifies this, store
      ensures old(selectedBook) == "" || old(selectedStudent) == "" ==>
                store.issuedBooks == old(store.issuedBooks) &&
                selectedBook == old(selectedBook) && selectedStudent == old(selectedStudent) &&
                issueDate == old(issueDate) && returnDate == old(returnDate)
      ensures old(selectedBook) != "" && old(selectedStudent) != "" ==>
                store.issuedBooks == old(store.issuedBooks) +
                  [BookIssue("issue-" + Decimal(clockMs), old(selectedBook), old(selectedStudent),
                             FormatIso(old(issueDate)), FormatIso(old(returnDate)), Issued)] &&
                selectedBook == "" && selectedStudent == "" &&
                issueDate == now && returnDate == AddDaysMoment(later, LoanPeriodDays)
      ensures old(ReturnDateDerived()) && old(selectedBook) != "" && old(selectedStudent) != "" ==>
                store.issuedBooks[|store.issuedBooks| - 1].returnDate == FormatIso(AddDaysMoment(old(issueDate), LoanPeriodDays))
      ensures !isSubmitting && DatesValid()
      ensures store.user == old(store.user) && store.books == old(store.books) && store.students == old(store.students)
    {
      isSubmitting := true;
      if selectedBook == "" || selectedStudent == "" {
        isSubmitting := false;
        return;
      }
      store.IssueBook(BookIssue("issue-" + Decimal(clockMs), selectedBook, selectedStudent,
                                FormatIso(issueDate), FormatIso(returnDate), Issued));
      selectedBook := "";
      selectedStudent := "";
      issueDate := now;
      returnDate := AddDaysMoment(later, LoanPeriodDays);
      isSubmitting := false;
    }
  }
}

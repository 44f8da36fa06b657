/** The request-book page (students): the available-book choices, the dates, and the submit
    handler that records a request for the logged-in student. */
module RequestBookPage {
  import opened LibraryTypes
  import opened Text
  import opened Dates
  import opened Rules
  import opened LibraryContext

  class RequestBookPage {
    const store: LibraryStore
    var selectedBook: string
    var issueDate: Moment
    var returnDate: Moment
    var isSubmitting: bool

    predicate DatesValid()
      reads this
    {
      ValidMoment(issueDate) && ValidMoment(returnDate)
    }

    /** What the return-date effect maintains. */
    predicate ReturnDateDerived()
      reads this
    {
      ValidMoment(issueDate) && returnDate == AddDaysMoment(issueDate, LoanPeriodDays)
    }

    constructor (store: LibraryStore, now: Moment, later: Moment)
      requires ValidMoment(now) && ValidMoment(later)
      ensures this.store == store && DatesValid()
      ensures selectedBook == "" && !isSubmitting
      ensures issueDate == now && returnDate == AddDaysMoment(later, LoanPeriodDays)
    {
      this.store := store;
      selectedBook := "";
      issueDate := now;
      returnDate := AddDaysMoment(later, LoanPeriodDays);
      isSubmitting := false;
    }

    method SelectBook(id: string)
      modifies this
      ensures selectedBook == id
      ensures issueDate == old(issueDate) && returnDate == old(returnDate) && isSubmitting == old(isSubmitting)
    {
      selectedBook := id;
    }

    /** The calendar's `onSelect`: a cleared selection leaves the date as it was. */
    method PickIssueDate(d: Option<Moment>)
      requires d.Some? ==> ValidMoment(d.value)
      modifies this
      ensures issueDate == (if d.Some? then d.value else old(issueDate))
      ensures selectedBook == old(selectedBook) && returnDate == old(returnDate) && isSubmitting == old(isSubmitting)
    {
      if d.Some? {
        issueDate := d.value;
      }
    }

    /** The effect that runs after `issueDate` changes: the return date is a week later. */
    method ReturnDateEffect()
      requires ValidMoment(issueDate)
      modifies this
      ensures ReturnDateDerived() && DatesValid()
      ensures issueDate == old(issueDate) && selectedBook == old(selectedBook) && isSubmitting == old(isSubmitting)
    {
      returnDate := AddDaysMoment(issueDate, LoanPeriodDays);
    }

    /** Without a book, or without a student logged in, nothing happens; otherwise one request
        is appended for the logged-in student and the form is reset. */
    method HandleSubmit(clockMs: nat, now: Moment, later: Moment)
      requires DatesValid() && ValidMoment(now) && ValidMoment(later)
      modifies this, store
      ensures old(selectedBook) == "" || !IsStudent(old(store.user)) ==>
                store.issuedBooks == old(store.issuedBooks) &&
                selectedBook == old(selectedBook) && issueDate == old(issueDate) && returnDate == old(returnDate)
      ensures old(selectedBook) != "" && IsStudent(old(store.user)) ==>
                store.issuedBooks == old(store.issuedBooks) +
                  [BookIssue("request-" + Decimal(clockMs), old(selectedBook), old(store.user).value.id,
                             FormatIso(old(issueDate)), FormatIso(old(returnDate)), Requested)] &&
                selectedBook == "" && issueDate == now && returnDate == AddDaysMoment(later, LoanPeriodDays)
      ensures old(ReturnDateDerived()) && old(selectedBook) != "" && IsStudent(old(store.user)) ==>
                store.issuedBooks[|store.issuedBooks| - 1].returnDate == FormatIso(AddDaysMoment(old(issueDate), LoanPeriodDays))
      ensures !isSubmitting && DatesValid()
      ensures store.user == old(store.user) && store.books == old(store.books) && store.students == old(store.students)
    {
      isSubmitting := true;
      if selectedBook == "" {
        isSubmitting := false;
        return;
      }
      if store.user.None? || store.user.value.role != StudentRole {
        isSubmitting := false;
        return;
      }
      store.RequestBook(BookIssue("request-" + Decimal(clockMs), selectedBook, store.user.value.id,
                                  FormatIso(issueDate), FormatIso(returnDate), Requested));
      selectedBook := "";
      issueDate := now;
      returnDate := AddDaysMoment(later, LoanPeriodDays);
      isSubmitting := false;
    }
  }
}

# Library management: the store and the book-issue lifecycle in Dafny

This project models the core of a small library-management application. It has two copies,
and both are modelled:

- **The browser client.** A React store (`context/library-context.tsx`) holds four state cells:
  the session `user`, the `books` catalog, the registered `students` and the issue records
  `issuedBooks`. Its thirteen mutators each overwrite one cell by appending, replacing or
  filtering. The dashboard pages wrap those mutators in guards and compute derived views. The
  guards are: duplicate ISBN, duplicate username, "referenced by an issue" before deleting, and
  the credential match at login. The views are: available books, a student's issues, the
  overdue test, the status label and the offered actions, and the dashboard counts.
- **The Flask server.** `app.py` re-implements the same rules as routes over session-held lists.
  Its return date is the issue date plus seven days, on `YYYY-MM-DD` strings (the calendar date
  of ISO 8601, extended format).

An issue record is either `requested` or `issued`. There is no "returned" state, because
returning a book deletes its record.

How the model is organised:

- `LibraryTypes` holds the records as datatypes.
- `Seqs` holds the sequence combinators that the sources use: `filter`, a conditional `map`,
  `find`, and the early-return or break loops.
- `Rules` holds the guards and views that both copies share.
- `LibraryContext.LibraryStore` is the client store, a class with one method per mutator.
- `FlaskApp.App` is the server, a class with one method per route. Its search loops and its
  replace-then-break loops are `while` loops, each proved against the matching function.
- One module per client page. Each page is a class holding its `useState` cells and a reference
  to the store. A page's redirect effect is `Rules.SignedInOnly` or `Rules.AdminOnly` of the
  store's user, and the book choices of the issue and request pages are `Rules.AvailableBooks`.
- `Dates` holds the Gregorian calendar, Python's `strftime`/`strptime` for `%Y-%m-%d` with
  `MAXYEAR` 9999, JavaScript instants and their `toISOString` form.

Ids and the clock are parameters:

- `uuid4()` becomes a `uuid` string argument.
- `Date.now()` becomes a `clockMs` argument, formatted by `Text.Decimal`.
- Each `new Date()` becomes a `Moment` argument.

Two behaviours of the source are stated as lemmas:

- The client books page saves an edit without the ISBN check that `app.py` makes
  (`BooksPage.SaveEditCanDuplicateIsbn`).
- The dashboard's available count `books.length - issuedBooks.length` equals the size of the
  available set only when every issue refers to an existing book and no book has two records
  (`Rules.AvailableCountFormula`, `Rules.AvailableCountCanDiffer`).

## Model

| member | source | states |
|---|---|---|
| LibraryTypes.ParseStatus | types/library.ts:29 | the union `"issued" \| "requested"` and the datatype are in bijection: exactly those two literals map to a status, each to the one whose StatusName it is |
| LibraryTypes.ParseRole | types/library.ts:20 | the union `"admin" \| "student"` and the datatype are in bijection: exactly those two literals map to a role, each to the one whose RoleName it is |
| SampleData.SampleBooks | context/library-context.tsx:8-114 | the seed catalog has 15 books, each with a genre |
| SampleData.SampleBooksDistinct | context/library-context.tsx:8-114 | the seed books have pairwise distinct ids and pairwise distinct ISBNs |
| LibraryContext.LibraryStore.constructor | context/library-context.tsx:139-142 | the initial state has no user, the seed books, no students and no issues |
| LibraryContext.LibraryStore.LoginAdmin | context/library-context.tsx:174-180 | the user becomes {admin, Admin, admin}; nothing else changes |
| LibraryContext.LibraryStore.LoginStudent | context/library-context.tsx:182-188 | the user becomes the student's id and name with the student role; nothing else changes |
| LibraryContext.LibraryStore.RegisterStudent | context/library-context.tsx:190-192 | exactly one student is appended after the unchanged list; no check is made |
| LibraryContext.LibraryStore.Logout | context/library-context.tsx:194-196 | the user becomes absent; the collections do not change |
| LibraryContext.LibraryStore.AddBook | context/library-context.tsx:198-200 | exactly one book is appended; no ISBN check is made |
| LibraryContext.LibraryStore.UpdateBook | context/library-context.tsx:202-204 | books becomes ReplaceBook of the old books; the other cells do not change |
| LibraryContext.LibraryStore.DeleteBook | context/library-context.tsx:206-208 | books keeps, in order, exactly the books with another id |
| LibraryContext.LibraryStore.UpdateStudent | context/library-context.tsx:210-212 | students becomes ReplaceStudent of the old students |
| LibraryContext.LibraryStore.DeleteStudent | context/library-context.tsx:214-216 | students keeps, in order, exactly the students with another id |
| LibraryContext.LibraryStore.IssueBook | context/library-context.tsx:218-220 | exactly one record is appended; no reference check is made |
| LibraryContext.LibraryStore.ReturnBook | context/library-context.tsx:222-224 | issuedBooks keeps, in order, exactly the records with another id |
| LibraryContext.LibraryStore.RequestBook | context/library-context.tsx:226-228 | exactly one record is appended |
| LibraryContext.LibraryStore.ApproveRequest | context/library-context.tsx:230-232 | issuedBooks becomes ApproveAll of the old records |
| LibraryContext.ReplaceBook | context/library-context.tsx:202-204 | the length is kept; each position holds the new book when its id matches and the old book otherwise |
| LibraryContext.ReplaceBookKeepsIds | context/library-context.tsx:202-204 | replacing keeps every id and keeps distinct ids distinct; with an absent id it is a no-op |
| LibraryContext.ReplaceStudent | context/library-context.tsx:210-212 | the length is kept; each position holds the new student when its id matches and the old one otherwise |
| LibraryContext.ReplaceStudentKeepsIds | context/library-context.tsx:210-212 | replacing keeps distinct ids distinct; with an absent id it is a no-op |
| LibraryContext.DeleteByIdEffect | context/library-context.tsx:206-224 | a delete keeps exactly the records with another key; with distinct keys it removes exactly one present record; with an absent key it is a no-op |
| LibraryContext.ApproveAll | context/library-context.tsx:230-232 | only the status changes: it becomes issued where the id matches, and id, bookId, studentId and both dates are kept |
| LibraryContext.ApproveIdempotent | context/library-context.tsx:230-232 | approving twice equals approving once |
| LibraryContext.ApproveAbsent | context/library-context.tsx:230-232 | approving an id that no record has changes nothing |
| LibraryContext.ApproveKeepsAvailability | context/library-context.tsx:230-232 | approving does not change which books are available |
| LibraryContext.ReturnRestoresAvailability | context/library-context.tsx:222-224 | after returning a book's only record, that book is available again |
| Rules.AvailableBooks | app.py:143-145 | a book is available iff it is in the catalog and no record of either status refers to it |
| Rules.AvailableBooksAppend | app.py:143-145 | the available list keeps catalog order: appending a book appends it to the list iff it is unreferenced |
| Rules.IssuedBookUnavailable | app/dashboard/issue-books/page.tsx:35 | after a record for a book is added, that book is not available |
| Rules.StudentIssues | app.py:147-148 | a student's records are exactly the records with that studentId, of either status; there are none iff the student is unreferenced |
| Rules.FindCredential | app/login/student/page.tsx:34 | a match exists iff some student has both the username and the password; the result is the first such student |
| Rules.FindBook | app.py:131-135 | a book is found iff one has the id, and the result is the first book in catalog order with that id |
| Rules.FindStudent | app.py:137-141 | a student is found iff one has the id, and the result is the first registered student with that id |
| Rules.AddBookKeepsIsbnsDistinct | app/dashboard/books/add/page.tsx:47-64 | appending a book whose ISBN is new keeps ISBNs distinct |
| Rules.RegisterKeepsUsernamesDistinct | app/login/student/page.tsx:57-75 | appending a student whose username is new keeps usernames distinct |
| Rules.EditBookKeepsIsbnsDistinct | app.py:358-372 | replacing a book by one whose ISBN no other book holds keeps ISBNs distinct, for the first match and for every match |
| Rules.EditStudentKeepsUsernamesDistinct | app.py:599-613 | replacing a student by one whose username no other student holds keeps usernames distinct |
| Rules.AvailableCountFormula | app/dashboard/page.tsx:106 | books.length - issuedBooks.length is the number of available books when ids are distinct and each book has at most one record, every one of an existing book |
| Rules.AvailableCountCanDiffer | app/dashboard/page.tsx:106 | with two records for one book the displayed count is -1, while no book is available |
| Rules.OneIssuePerExistingBookPrefix | app/dashboard/page.tsx:106 | the one-record-per-existing-book condition holds for every prefix of the records |
| Rules.SignedInOnly | app/dashboard/books/page.tsx:38-42 | a page open to every user renders iff someone is logged in and otherwise sends the browser home (also the issued-books, request-book and dashboard pages) |
| Rules.AdminOnly | app/dashboard/issue-books/page.tsx:38-44 | an admin page renders only for the admin, sends nobody home and sends a student to the given page (also the add-book and users pages, which send students to the dashboard) |
| Rules.VisibleIssues | app/dashboard/issued-books/page.tsx:51-56 | a student sees exactly the records with their id; an admin sees all records |
| Rules.StudentRowOf | app.py:567-570 | the count is the number of the student's records, requests included, and is 0 iff the student is unreferenced; the request flag is set iff one of them is requested |
| Rules.RequestedAmong | app.py:567-570 | a student has a pending request iff one of the records with the student's id is requested |
| Rules.UserIssuedCount | app/dashboard/page.tsx:25-26 | a student's count is the number of their records; the admin's count is the number of all records |
| Dates.PyAddDays | app.py:421-423 | adding days gives the calendar date n days later, or None exactly when that date is after year 9999 |
| Dates.PyWeekLaterDefined | app.py:421-423 | a week later is defined for every date before year 9999 |
| Dates.ParseDate | app.py:421 | a parsed date is a valid date no later than year 9999 |
| Dates.ParseFormatDate | app.py:423 | parsing a formatted date gives the date back |
| Dates.FormatParseDate | app.py:421-423 | a string that parses is the formatted form of its date |
| Dates.AddDaysAdd | app.py:423 | adding a days then b days is adding a + b days |
| Dates.ShortAddCrossesOneYear | app/dashboard/issue-books/page.tsx:32 | adding at most 31 days either keeps the year or reaches January of the next year |
| Dates.NextDay | app.py:423 | the next day is a valid, later date |
| Dates.AddDaysMoment | app/dashboard/issue-books/page.tsx:32 | adding a positive number of days gives a later valid instant |
| Dates.ParseFormatIso | app/dashboard/issued-books/page.tsx:85-87 | parsing the toISOString form of an instant gives the instant back, up to year 999999 |
| Dates.ParseIsoYear | app/dashboard/issued-books/page.tsx:85-87 | the year field of the ISO form is read back and the rest is left to the time fields |
| Dates.AfterIrreflexive | app/dashboard/issued-books/page.tsx:85-87 | no instant is after itself |
| FlaskApp.Access | app.py:156-171 | a route runs iff someone is logged in and, for admin routes, the role is admin; otherwise it redirects home or to the dashboard with the denial message |
| FlaskApp.IssuedBookIds | app.py:144 | the id list has one entry per record, and an id is in it iff some record refers to that book |
| FlaskApp.PyAvailableIsAvailable | app.py:143-145 | the comprehension over issued ids equals the available-books view |
| FlaskApp.LoanDates | app.py:421-423 | the issue date is kept, and the return date parses to the issue date plus 7 days; there is no loan exactly when the date does not parse or the week overflows year 9999 |
| FlaskApp.LoanDatesDefined | app.py:421-423 | a loan is defined for every issue date before year 9999 |
| Dates.PyWeekLaterLastDay | app.py:421-423 | a week after 9999-12-24 is 9999-12-31, and a week after 9999-12-25 overflows |
| FlaskApp.IssueRowOf | app.py:514-526 | the row carries the record, the title and author of the first book with its bookId, and the name and roll number of the first student with its studentId, with the Unknown and N/A placeholders when absent |
| FlaskApp.DashboardFigures | app.py:255-281 | the user's count never exceeds the total; the available count is the available set's size under the one-record-per-existing-book condition |
| FlaskApp.FirstMatchAgreesWithAll | app.py:362-374 | with distinct ids, replacing the first match equals replacing every match |
| FlaskApp.ReplaceFirst | app.py:362-374 | the scan-and-break loop replaces exactly the first record with the key |
| FlaskApp.App.constructor | app.py:122-128 | the session starts with the seed books, no students, no records and no user |
| FlaskApp.App.GetBookById | app.py:131-135 | the early-return loop returns the first book with the id, or None |
| FlaskApp.App.GetStudentById | app.py:137-141 | the early-return loop returns the first student with the id, or None |
| FlaskApp.App.AdminLogin | app.py:182-196 | the login succeeds iff the username is admin and the password is 123; otherwise the page is rendered with the error |
| FlaskApp.App.StudentLogin | app.py:199-215 | the login succeeds iff some student matches both fields, and the first match becomes the session |
| FlaskApp.App.Register | app.py:217-241 | registration is refused when the username is taken; otherwise exactly one student is appended; usernames stay distinct |
| FlaskApp.App.Logout | app.py:246-251 | the session user is cleared and the data is kept |
| FlaskApp.App.Dashboard | app.py:255-281 | with nobody logged in, it redirects home with no figures; otherwise it renders the dashboard with exactly the figures of DashboardOf for the session user, whose count is at most the total number of records |
| FlaskApp.App.AddBook | app.py:305-339 | a taken ISBN is refused; otherwise exactly one book is appended; ISBNs stay distinct |
| FlaskApp.App.EditBook | app.py:344-386 | an unknown id or an ISBN held by another book is refused; otherwise only the first book with the id is replaced, keeping its id; ISBNs stay distinct |
| FlaskApp.App.DeleteBook | app.py:391-402 | refused while any record refers to the book; otherwise every book with the id is removed |
| FlaskApp.App.IssueBook | app.py:407-450 | a missing field changes nothing; otherwise one issued record with the dates from LoanDates is appended, or the request fails when the date does not parse |
| FlaskApp.App.RequestBook | app.py:454-497 | a non-student is redirected; a missing field changes nothing; otherwise one requested record for the session student is appended |
| FlaskApp.App.IssuedBooks | app.py:501-533 | one row per visible record, in order, each built by IssueRowOf |
| FlaskApp.App.ReturnBook | app.py:537-543 | every record with the id is removed; an absent id changes nothing |
| FlaskApp.App.ApproveRequest | app.py:548-558 | only the first record with the id changes, and it becomes issued; the number of records is kept |
| FlaskApp.App.Users | app.py:563-580 | one row per student, in order, each built by StudentRowOf |
| FlaskApp.App.EditUser | app.py:585-627 | an unknown id or a username held by another student is refused; otherwise the first student with the id is replaced; usernames stay distinct |
| FlaskApp.App.DeleteUser | app.py:632-643 | refused while any record refers to the student; otherwise every student with the id is removed |
| IssuedBooksPage.FilteredIssues | app/dashboard/issued-books/page.tsx:59-72 | a visible record is kept iff the term is empty or the lowercased term is in the book's title or author or the student's name or roll number; a student only ever sees their own records |
| IssuedBooksPage.IsOverdueFormatted | app/dashboard/issued-books/page.tsx:85-87 | a stored return date is overdue iff now is strictly after it; it is never overdue at its own instant |
| IssuedBooksPage.StatusBadge | app/dashboard/issued-books/page.tsx:177-198 | the label is Requested iff the record is requested, Overdue iff issued and overdue, and Issued otherwise |
| IssuedBooksPage.ActionRules | app/dashboard/issued-books/page.tsx:209-219 | a student is never offered Approve, and is offered Return iff the record is issued; an admin is always offered one of the two; the overdue alert shows iff the label is Overdue |
| IssuedBooksPage.IssuedBooksPage.constructor | app/dashboard/issued-books/page.tsx:36-40 | the search term is empty, nothing is selected and both dialogs are closed |
| IssuedBooksPage.IssuedBooksPage.SetSearchTerm | app/dashboard/issued-books/page.tsx:59-72 | only the term changes |
| IssuedBooksPage.IssuedBooksPage.HandleReturn | app/dashboard/issued-books/page.tsx:89-92 | the record is selected and the return dialog opens |
| IssuedBooksPage.IssuedBooksPage.HandleApprove | app/dashboard/issued-books/page.tsx:94-97 | the record is selected and the approve dialog opens |
| IssuedBooksPage.IssuedBooksPage.ConfirmReturn | app/dashboard/issued-books/page.tsx:99-110 | with no selection nothing changes; otherwise the selected id is returned, the selection is cleared and the dialog closes |
| IssuedBooksPage.IssuedBooksPage.ConfirmApprove | app/dashboard/issued-books/page.tsx:112-123 | with no selection nothing changes; otherwise the selected id is approved, the selection is cleared and the dialog closes |
| IssueBooksPage.LoanTimestamps | app/dashboard/issue-books/page.tsx:61-68 | both stored timestamps read back as the instants they were made from; the due instant is after the issue instant; it is overdue exactly when now is after it |
| IssueBooksPage.IssueBooksPage.constructor | app/dashboard/issue-books/page.tsx:29-33 | nothing is selected; the issue date is now and the return date is 7 days after the clock's second reading |
| IssueBooksPage.IssueBooksPage.SelectBook | app/dashboard/issue-books/page.tsx:135 | only the selected book changes |
| IssueBooksPage.IssueBooksPage.SelectStudent | app/dashboard/issue-books/page.tsx:150 | only the selected student changes |
| IssueBooksPage.IssueBooksPage.PickIssueDate | app/dashboard/issue-books/page.tsx:183 | a picked date becomes the issue date; clearing the picker keeps the old one |
| IssueBooksPage.IssueBooksPage.ReturnDateEffect | app/dashboard/issue-books/page.tsx:83-86 | the return date becomes the issue date plus 7 days |
| IssueBooksPage.IssueBooksPage.HandleSubmit | app/dashboard/issue-books/page.tsx:46-81 | with no book or no student, nothing changes; otherwise exactly one issued record with the selections and the formatted dates is appended and the form resets |
| RequestBookPage.RequestBookPage.constructor | app/dashboard/request-book/page.tsx:28-31 | nothing is selected; the issue date is now and the return date is 7 days after the clock's second reading |
| RequestBookPage.RequestBookPage.SelectBook | app/dashboard/request-book/page.tsx:126 | only the selected book changes |
| RequestBookPage.RequestBookPage.PickIssueDate | app/dashboard/request-book/page.tsx:159 | a picked date becomes the issue date; clearing the picker keeps the old one |
| RequestBookPage.RequestBookPage.ReturnDateEffect | app/dashboard/request-book/page.tsx:42-45 | the return date becomes the issue date plus 7 days |
| RequestBookPage.RequestBookPage.HandleSubmit | app/dashboard/request-book/page.tsx:47-91 | with no book or no student session, nothing changes; otherwise exactly one requested record for the session student is appended, its return date a week after the issue date once the date effect has run, and the form resets |
| UsersPage.FilteredStudents | app/dashboard/users/page.tsx:53-61 | a student is kept iff the lowercased term is in the name, the username or the roll number; an empty term keeps everyone |
| UsersPage.RowCells | app/dashboard/users/page.tsx:121-176 | the Books Issued cell is the number of records with the student's id, requests included, and the badge reads "Requests Pending" iff one of them is requested |
| UsersPage.RowCellsAgree | app/dashboard/users/page.tsx:121-176 | the page's two cells are the count and flag that the Flask users view computes (StudentRowOf) |
| UsersPage.UsersPage.constructor | app/dashboard/users/page.tsx:30-36 | the page starts with no search term, no student being edited and empty edit fields |
| UsersPage.UsersPage.SetSearchTerm | app/dashboard/users/page.tsx:53-61 | only the term changes |
| UsersPage.UsersPage.HandleEdit | app/dashboard/users/page.tsx:63-69 | the student is being edited and the four edit fields hold the student's values |
| UsersPage.UsersPage.HandleDelete | app/dashboard/users/page.tsx:71-89 | a referenced student is kept; otherwise every student with the id is removed and none is left |
| UsersPage.UsersPage.HandleSaveEdit | app/dashboard/users/page.tsx:91-119 | nothing changes with no student being edited or with a username held by another student; otherwise the record is replaced, keeping its id, and editing ends; usernames stay distinct |
| BooksPage.FilteredBooks | app/dashboard/books/page.tsx:46-55 | a book is kept iff BookMatches holds for the lowercased term; an empty term keeps all books |
| BooksPage.GenreMatchedOnlyWhenPresent | app/dashboard/books/page.tsx:46-55 | for a book without genre, the match depends on title, author and isbn only |
| BooksPage.AvailabilityBadge | app/dashboard/books/page.tsx:155-169 | a catalog book is labelled Available iff it is in the available set, so a requested book is labelled Issued |
| BooksPage.SaveEditCanDuplicateIsbn | app/dashboard/books/page.tsx:85-101 | saving an edit can give two books the same ISBN |
| BooksPage.BooksPage.constructor | app/dashboard/books/page.tsx:30-36 | the page starts with no search term, no book being edited and empty edit fields |
| BooksPage.BooksPage.SetSearchTerm | app/dashboard/books/page.tsx:46-55 | only the term changes |
| BooksPage.BooksPage.HandleEdit | app/dashboard/books/page.tsx:57-63 | the book is being edited and the edit fields hold its values, with genre "" when it has none |
| BooksPage.BooksPage.HandleDelete | app/dashboard/books/page.tsx:65-83 | a referenced book is kept; otherwise every book with the id is removed |
| BooksPage.BooksPage.HandleSaveEdit | app/dashboard/books/page.tsx:85-101 | nothing changes with no book being edited; otherwise the record is replaced, keeping its id, with the edited genre; ids stay distinct |
| StudentLoginPage.StudentLoginPage.constructor | app/login/student/page.tsx:19-25 | all fields are empty and nothing is loading |
| StudentLoginPage.StudentLoginPage.HandleLogin | app/login/student/page.tsx:30-51 | the first student matching both fields is logged in and the page moves to the dashboard; with no match nothing changes |
| StudentLoginPage.StudentLoginPage.HandleRegister | app/login/student/page.tsx:53-94 | a taken username changes nothing; otherwise one student is appended, the register fields are cleared and the login fields are prefilled; usernames stay distinct |
| StudentLoginPage.RegisterThenLogin | app/login/student/page.tsx:34-75 | a newly registered student can log in with the entered credentials and is the student found |
| AddBookPage.AddBookPage.constructor | app/dashboard/books/add/page.tsx:22-26 | the form starts empty |
| AddBookPage.AddBookPage.HandleSubmit | app/dashboard/books/add/page.tsx:42-77 | a taken ISBN changes nothing; otherwise exactly one book with the entered fields is appended and the form clears; ISBNs stay distinct |
| DashboardPage.CardFacts | app/dashboard/page.tsx:25-106 | the students card shows iff the user is the admin; a student's issued count is the number of their records; the available card is the available set's size under the one-record-per-existing-book condition |

## Left out

- Persistence is not modelled. That covers the client's localStorage load and save with JSON,
  and Flask's cookie session. The server's lists are fields of `FlaskApp.App`. Its constructor
  stands for `init_data`, which `app.py` runs only on the index page, so other routes reached
  first would fail on a missing key.
- The framework is not modelled: rendering, `flash`, `url_for`, toasts, dialogs, animations,
  `router.push` and effect scheduling. Flashes and redirects become the `FlaskApp.Reply` value,
  and the page redirects become `Rules.SignedInOnly` and `Rules.AdminOnly`. The GET branches that only render a
  template carry no logic.
- The Flask decorators `login_required` and `admin_required` are the function `FlaskApp.Access`,
  not wrappers.
- The JSON API routes of `app.py` are not modelled. They only serialise the session lists.
- `components/dashboard-layout.tsx` and `app/page.tsx` are not part of this model. They are menus
  and layout only.
- Ids from `uuid4()` and `Date.now()` are parameters. Their uniqueness is not modelled, and two
  client ids taken in the same millisecond would collide.
- Search lower-cases ASCII letters only, not the whole of Unicode.
- Instants are UTC only; time zones and daylight saving are left out. `parseISO` is modelled
  only on the `toISOString` form that the pages store.
- IssueBooksPage.IssueBooksPage.HandleSubmit: the return date it stores is proved to be seven
  days after the issue date only while the page's return-date effect has run since the last
  date change (`ReturnDateDerived`), because React runs that effect after rendering. The same
  holds for RequestBookPage.RequestBookPage.HandleSubmit.
- Python's `strptime` also accepts unpadded months and days. The model reads only the
  zero-padded form that `strftime` writes.
- Years below 1000 are printed unpadded by some `strftime` builds; the model pads to four digits.
- `request.form.get` returning `None` for a missing field is modelled as the empty string.
- The stale state a React setter may see when mutators run in the same render is not modelled;
  each mutator reads the current state.
- The Flask views `issued_books` and `users` add display keys to the stored dicts in place, and
  those keys are then saved with the session. The model builds separate row records
  (`FlaskApp.IssueRow`, `Rules.StudentRow`) and leaves the stored records unchanged.
- The pages' `filteredBooks`, `filteredIssues` and `filteredStudents` are state cells that an
  effect recomputes after render; the model takes the effect's result (`Shown`), a function of
  the page state.
- The one-render lag of those cells is not modelled: the first render shows the cell's initial
  value (the whole list on the books and users pages, no records on the issued-books page), and
  after a change the previous result shows until the effect has run.
- The issued-books filter effect lists `[searchTerm, issuedBooks, user]` as its dependencies but
  not `books` or `students`; a title or name edited while the search term is set does not
  re-filter until one of the listed values changes. The model always filters against the
  current catalog and roster.
- Passwords are stored and compared in plain text, as in the source; no hashing is modelled.
- The `useLibrary` provider check is not modelled.

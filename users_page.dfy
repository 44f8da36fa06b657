/** The users page (administrators): the search box, the per-student record count and
    pending-request badge, deletion behind the reference check, and editing behind the
    username check. */
module UsersPage {
  import opened LibraryTypes
  import opened Seqs
  import opened Text
  import opened Rules
  import opened LibraryContext

  /** A student's name, username or roll number contains the lowercased term. */
  function StudentMatches(term: string): Student -> bool {
    (s: Student) => Contains(Lower(s.name), term) || Contains(Lower(s.username), term) || Contains(Lower(s.rollNo), term)
  }

  /** The students the table lists. The filter always runs; an empty term keeps everyone. */
  function FilteredStudents(students: seq<Student>, searchTerm: string): (r: seq<Student>)
    ensures forall s :: s in r <==>
              (s in students &&
               (Contains(Lower(s.name), Lower(searchTerm)) || Contains(Lower(s.username), Lower(searchTerm)) ||
                Contains(Lower(s.rollNo), Lower(searchTerm))))
    ensures searchTerm == "" ==> r == students
  {
    var term := Lower(searchTerm);
    assert forall s :: StudentMatches(term)(s) ==
                       (Contains(Lower(s.name), term) || Contains(Lower(s.username), term) || Contains(Lower(s.rollNo), term));
    assert searchTerm == "" ==> forall i :: 0 <= i < |students| ==> StudentMatches(term)(students[i]) by {
      if searchTerm == "" {
        forall i | 0 <= i < |students| ensures StudentMatches(term)(students[i]) {
          ContainsEmpty(Lower(students[i].name));
        }
      }
    }
    Filter(students, StudentMatches(term))
  }

  /** The "Books Issued" cell of one row, and whether its badge reads "Requests Pending": the
      badge is drawn for a student with records and names a pending request among them. */
  function RowCells(s: Student, issues: seq<BookIssue>): (cells: (nat, bool))
    ensures cells.0 == Count(issues, KeyIs(IssueStudentId, s.id))
    ensures cells.1 <==> AnyRequested(StudentIssues(issues, s.id))
    ensures cells.1 <==> exists i :: 0 <= i < |issues| && issues[i].studentId == s.id && issues[i].status == Requested
  {
    var mine := StudentIssues(issues, s.id);
    FilterLength(issues, KeyIs(IssueStudentId, s.id));
    RequestedAmong(issues, s.id);
    (|mine|, |mine| > 0 && AnyRequested(mine))
  }

  /** The page's cells agree with the figures the Flask users page computes. */
  lemma RowCellsAgree(s: Student, issues: seq<BookIssue>)
    ensures RowCells(s, issues) == (StudentRowOf(s, issues).issuedCount, StudentRowOf(s, issues).hasRequests)
  {
  }

  class UsersPage {
    const store: LibraryStore
    var searchTerm: string
    var editingStudent: Option<Student>
    var editName: string
    var editUsername: string
    var editRollNo: string
    var editPassword: string

    constructor (store: LibraryStore)
      ensures this.store == store && searchTerm == "" && editingStudent == None
      ensures editName == "" && editUsername == "" && editRollNo == "" && editPassword == ""
    {
      this.store := store;
      searchTerm := "";
      editingStudent := None;
      editName, editUsername, editRollNo, editPassword := "", "", "", "";
    }

    /** The rows shown (the filter effect's result). */
    function Shown(): seq<Student>
      reads this, store
    {
      FilteredStudents(store.students, searchTerm)
    }

    method SetSearchTerm(t: string)
      modifies this
      ensures searchTerm == t && editingStudent == old(editingStudent)
      ensures editName == old(editName) && editUsername == old(editUsername) &&
              editRollNo == old(editRollNo) && editPassword == old(editPassword)
    {
      searchTerm := t;
    }

    /** Opens the edit dialog with the student's current fields. */
    method HandleEdit(s: Student)
      modifies this
      ensures editingStudent == Some(s)
      ensures editName == s.name && editUsername == s.username && editRollNo == s.rollNo && editPassword == s.password
      ensures searchTerm == old(searchTerm)
    {
      editingStudent := Some(s);
      editName := s.name;
      editUsername := s.username;
      editRollNo := s.rollNo;
      editPassword := s.password;
    }

    /** Deletes the student only when no record, loan or request, refers to it. */
    method HandleDelete(studentId: string)
      modifies store
      ensures StudentReferenced(old(store.issuedBooks), studentId) ==> store.students == old(store.students)
      ensures !StudentReferenced(old(store.issuedBooks), studentId) ==>
                store.students == Filter(old(store.students), KeyIsNot(StudentId, studentId))
      ensures !StudentReferenced(old(store.issuedBooks), studentId) ==> !HasKey(store.students, StudentId, studentId)
      ensures store.user == old(store.user) && store.books == old(store.books) && store.issuedBooks == old(store.issuedBooks)
    {
      if StudentReferenced(store.issuedBooks, studentId) {
        return;
      }
      store.DeleteStudent(studentId);
      assert forall i :: 0 <= i < |store.students| ==> store.students[i] in store.students;
    }

    /** Saves the dialog: nothing without a student being edited or when another student has
        the username; otherwise the student is replaced under its own id and the dialog closes.
        With distinct ids, usernames stay distinct. */
    method HandleSaveEdit()
      modifies this, store
      ensures old(editingStudent).None? ==> unchanged(this) && unchanged(store)
      ensures old(editingStudent).Some? && UsernameTakenByOther(old(store.students), old(editUsername), old(editingStudent).value.id) ==>
                unchanged(this) && unchanged(store)
      ensures old(editingStudent).Some? && !UsernameTakenByOther(old(store.students), old(editUsername), old(editingStudent).value.id) ==>
                store.students == ReplaceStudent(old(store.students),
                  Student(old(editingStudent).value.id, old(editName), old(editUsername), old(editPassword), old(editRollNo))) &&
                editingStudent == None &&
                searchTerm == old(searchTerm) && editName == old(editName) && editUsername == old(editUsername) &&
                editRollNo == old(editRollNo) && editPassword == old(editPassword)
      ensures UsernamesDistinct(old(store.students)) && StudentIdsDistinct(old(store.students)) ==>
                UsernamesDistinct(store.students)
      ensures store.user == old(store.user) && store.books == old(store.books) && store.issuedBooks == old(store.issuedBooks)
    {
      if editingStudent.None? {
        return;
      }
      var id := editingStudent.value.id;
      if UsernameTakenByOther(store.students, editUsername, id) {
        return;
      }
      var ns := Student(id, editName, editUsername, editPassword, editRollNo);
      if UsernamesDistinct(store.students) && StudentIdsDistinct(store.students) {
        EditStudentKeepsUsernamesDistinct(store.students, id, ns);
      }
      store.UpdateStudent(ns);
      editingStudent := None;
    }
  }
}

/** The student login page: the login tab, which logs in the first student whose username and
    password both match, and the register tab, which appends a student whose username is new. */
module StudentLoginPage {
  import opened LibraryTypes
  import opened Text
  import opened Rules
  import opened LibraryContext

  class StudentLoginPage {
    const store: LibraryStore
    var loginUsername: string
    var loginPassword: string
    var registerName: string
    var registerUsername: string
    var registerPassword: string
    var registerRollNo: string
    var isLoading: bool

    constructor (store: LibraryStore)
      ensures this.store == store && !isLoading
      ensures loginUsername == "" && loginPassword == ""
      ensures registerName == "" && registerUsername == "" && registerPassword == "" && registerRollNo == ""
    {
      this.store := store;
      loginUsername, loginPassword := "", "";
      registerName, registerUsername, registerPassword, registerRollNo := "", "", "", "";
      isLoading := false;
    }

    /** Logs in the first matching student and goes to the dashboard; with no match the store
        is not touched. */
    method HandleLogin() returns (nav: Nav)
      modifies this, store
      ensures var found := FindCredential(old(store.students), old(loginUsername), old(loginPassword));
              (found.Some? ==> store.user == Some(StudentUser(found.value)) && nav == ToDashboard) &&
              (found.None? ==> store.user == old(store.user) && nav == Stay)
      ensures store.books == old(store.books) && store.students == old(store.students) && store.issuedBooks == old(store.issuedBooks)
      ensures loginUsername == old(loginUsername) && loginPassword == old(loginPassword)
      ensures registerName == old(registerName) && registerUsername == old(registerUsername) &&
              registerPassword == old(registerPassword) && registerRollNo == old(registerRollNo)
      ensures !isLoading
    {
      isLoading := true;
      var found := FindCredential(store.students, loginUsername, loginPassword);
      if found.Some? {
        store.LoginStudent(found.value);
        nav := ToDashboard;
      } else {
        nav := Stay;
      }
      isLoading := false;
    }

    /** Refused when some student has the username. Otherwise appends the student under id
        "student-" + the clock in milliseconds, clears the register tab and fills the login tab
        with the new username and password. Usernames stay distinct. */
    method HandleRegister(clockMs: nat)
      modifies this, store
      ensures UsernameTaken(old(store.students), old(registerUsername)) ==>
                store.students == old(store.students) &&
                loginUsername == old(loginUsername) && loginPassword == old(loginPassword) &&
                registerName == old(registerName) && registerUsername == old(registerUsername) &&
                registerPassword == old(registerPassword) && registerRollNo == old(registerRollNo)
      ensures !UsernameTaken(old(store.students), old(registerUsername)) ==>
                store.students == old(store.students) +
                  [Student("student-" + Decimal(clockMs), old(registerName), old(registerUsername),
                           old(registerPassword), old(registerRollNo))] &&
                registerName == "" && registerUsername == "" && registerPassword == "" && registerRollNo == "" &&
                loginUsername == old(registerUsername) && loginPassword == old(registerPassword)
      ensures UsernamesDistinct(old(store.students)) ==> UsernamesDistinct(store.students)
      ensures store.user == old(store.user) && store.books == old(store.books) && store.issuedBooks == old(store.issuedBooks)
      ensures !isLoading
    {
      isLoading := true;
      if UsernameTaken(store.students, registerUsername) {
        isLoading := false;
        return;
      }
      var s := Student("student-" + Decimal(clockMs), registerName, registerUsername, registerPassword, registerRollNo);
      if UsernamesDistinct(store.students) {
        RegisterKeepsUsernamesDistinct(store.students, s);
      }
      store.RegisterStudent(s);
      var username, password := registerUsername, registerPassword;
      registerName, registerUsername, registerPassword, registerRollNo := "", "", "", "";
      isLoading := false;
      loginUsername, loginPassword := username, password;
    }
  }

  /** Registering and then submitting the prefilled login tab logs the new student in. */
  lemma RegisterThenLogin(students: seq<Student>, s: Student)
    requires !UsernameTaken(students, s.username)
    ensures FindCredential(students + [s], s.username, s.password) == Some(s)
  {
    var all := students + [s];
    assert all[|students|] == s;
    var found := FindCredential(all, s.username, s.password);
    var k :| FirstCredentialAt(all, s.username, s.password, k) && all[k] == found.value;
  }
}

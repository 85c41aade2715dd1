/**
 * The three tables of the library database (books, borrowedBooks, users) held in memory,
 * the integrity the database itself enforces, and the cross-table invariant that only the
 * route handlers are meant to keep.
 */
module Store {
  import opened Common

  /** Row identifiers are UUID strings generated by the database. */
  type Id = string

  /** The two values of the userRole enumeration. */
  datatype Role = Librarian | Student

  /** A row of the books table; `isAvailable` is the `available` column, default true. */
  datatype Book = Book(title: string, author: string, year: int, isbn: string, isAvailable: bool)

  /** A row of the borrowedBooks table; `dueDate` is nullable, timestamps are integers. */
  datatype Loan = Loan(id: Id, userId: Id, bookId: Id, borrowedAt: int, dueDate: Option<int>, returned: bool)

  /** A row of the users table; `password` holds whatever the registration stored. */
  datatype User = User(id: Id, username: string, password: string, email: string, role: Role)

  datatype Tables = Tables(books: map<Id, Book>, loans: seq<Loan>, users: seq<User>)

  /** The state a handler leaves behind, with the answer it gives. */
  datatype Step = Step(tables: Tables, response: Response)

  /** Length bound of the varchar(255) columns. */
  const VarcharMax := 255

  predicate UserExists(users: seq<User>, id: Id) {
    exists u :: u in users && u.id == id
  }

  predicate EmailTaken(users: seq<User>, email: string) {
    exists u :: u in users && u.email == email
  }

  /** The first row of `users` with this email, which is what a lookup by email returns. */
  function FirstWithEmail(users: seq<User>, email: string): (r: Option<User>)
    ensures r.None? <==> !EmailTaken(users, email)
    ensures r.Some? ==> r.value.email == email
    ensures r.Some? ==> exists i :: 0 <= i < |users| && users[i] == r.value && forall j :: 0 <= j < i ==> users[j].email != email
  {
    if users == [] then None
    else if users[0].email == email then Some(users[0])
    else
      var r := FirstWithEmail(users[1..], email);
      assert r.Some? ==> exists i :: 0 <= i < |users| && users[i] == r.value && forall j :: 0 <= j < i ==> users[j].email != email by {
        if r.Some? {
          var i :| 0 <= i < |users[1..]| && users[1..][i] == r.value && forall j :: 0 <= j < i ==> users[1..][j].email != email;
          assert users[i + 1] == r.value && forall j :: 0 <= j < i + 1 ==> users[j].email != email;
        }
      }
      r
  }

  predicate LoanIdTaken(loans: seq<Loan>, id: Id) {
    exists l :: l in loans && l.id == id
  }

  /** An unreturned loan of `bookId`. */
  predicate ActiveOn(l: Loan, bookId: Id) {
    l.bookId == bookId && !l.returned
  }

  predicate HasActiveLoan(loans: seq<Loan>, bookId: Id) {
    exists l :: l in loans && ActiveOn(l, bookId)
  }

  /** The foreign keys of borrowedBooks, which the database enforces. */
  ghost predicate RefIntegrity(t: Tables) {
    forall l :: l in t.loans ==> l.bookId in t.books && UserExists(t.users, l.userId)
  }

  /** A book is unavailable exactly when an unreturned loan references it. */
  ghost predicate AvailabilitySynced(t: Tables) {
    forall id :: id in t.books ==> (t.books[id].isAvailable <==> !HasActiveLoan(t.loans, id))
  }

  /** No book is lent to two borrowers at once. */
  ghost predicate AtMostOneActive(loans: seq<Loan>) {
    forall i, j :: 0 <= i < |loans| && 0 <= j < |loans| && ActiveOn(loans[i], loans[j].bookId) && !loans[j].returned ==> i == j
  }

  /** The cross-table invariant the handlers are meant to keep; nothing in the schema enforces it. */
  ghost predicate Consistent(t: Tables) {
    RefIntegrity(t) && AvailabilitySynced(t) && AtMostOneActive(t.loans)
  }

  /** Two loan tables that agree row by row on borrower, book and returned flag. */
  ghost predicate SameLoanKeys(loans: seq<Loan>, loans': seq<Loan>) {
    |loans'| == |loans| &&
    forall k :: 0 <= k < |loans| ==>
      loans'[k].bookId == loans[k].bookId && loans'[k].userId == loans[k].userId && loans'[k].returned == loans[k].returned
  }

  /** Rewriting only due dates (or other non-key columns) of loans keeps every invariant. */
  lemma {:induction false} SameLoanKeysKeepConsistency(t: Tables, t': Tables)
    requires SameLoanKeys(t.loans, t'.loans)
    requires t'.books == t.books && t'.users == t.users
    ensures RefIntegrity(t) ==> RefIntegrity(t')
    ensures Consistent(t) ==> Consistent(t')
  {
    forall id | id in t.books
      ensures HasActiveLoan(t'.loans, id) <==> HasActiveLoan(t.loans, id)
    {
      if HasActiveLoan(t'.loans, id) {
        var l :| l in t'.loans && ActiveOn(l, id);
        var k :| 0 <= k < |t'.loans| && t'.loans[k] == l;
        assert t.loans[k] in t.loans && ActiveOn(t.loans[k], id);
      }
      if HasActiveLoan(t.loans, id) {
        var l :| l in t.loans && ActiveOn(l, id);
        var k :| 0 <= k < |t.loans| && t.loans[k] == l;
        assert t'.loans[k] in t'.loans && ActiveOn(t'.loans[k], id);
      }
    }
    if RefIntegrity(t) {
      forall l | l in t'.loans
        ensures l.bookId in t'.books && UserExists(t'.users, l.userId)
      {
        var k :| 0 <= k < |t'.loans| && t'.loans[k] == l;
        assert t.loans[k] in t.loans;
      }
    }
  }

  /** The database: three tables that the route handlers read and rewrite in place. */
  class Database {
    var books: map<Id, Book>
    var loans: seq<Loan>
    var users: seq<User>

    function Snapshot(): Tables
      reads this
    {
      Tables(books, loans, users)
    }

    /** What the schema guarantees of every state: the foreign keys hold. */
    ghost predicate Valid()
      reads this
    {
      RefIntegrity(Snapshot())
    }

    constructor ()
      ensures Valid()
      ensures books == map[] && loans == [] && users == []
    {
      books, loans, users := map[], [], [];
    }
  }
}

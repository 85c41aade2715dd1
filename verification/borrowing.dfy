/**
 * The loan lifecycle of the /borrow routes: borrow (POST /), extend (PUT /extend) and
 * return (PUT /return). Each handler is a step function on the tables, which states its
 * meaning, and a method that performs the same writes on a Database one after the other.
 */
module Borrowing {
  import opened Common
  import opened Store

  const MaxActiveLoans := 3
  const LimitMessage := "You can only borrow a maximum of 3 books at a time"
  const UnavailableMessage := "Book not available or not found"
  const BorrowedMessage := "Book borrowed successfully"
  const LoanNotFoundMessage := "Borrow record not found or update failed"
  const ExtendedMessage := "Borrow period extended successfully"
  const ReturnedMessage := "Book return processed successfully"

  // ---------------------------------------------------------------------------
  // Borrow

  /** The body of POST /borrow. `userId` is any user_id the client sent; the handler never reads it. */
  datatype BorrowRequest = BorrowRequest(bookId: string, returnDate: Option<int>, userId: Option<string>)

  /** How the borrow limit is tested: as the handler does, or as its comment and message intend. */
  datatype LimitCheck = AsWritten | Intended

  predicate ActiveFor(l: Loan, userId: Id) {
    l.userId == userId && !l.returned
  }

  /** The value of the count() aggregate over the caller's unreturned loans. */
  function ActiveCount(loans: seq<Loan>, userId: Id): (n: nat)
    ensures n <= |loans|
    ensures n == 0 <==> forall l :: l in loans ==> !ActiveFor(l, userId)
  {
    if loans == [] then 0
    else
      assert forall l :: l in loans <==> l == loans[0] || l in loans[1..];
      (if ActiveFor(loans[0], userId) then 1 else 0) + ActiveCount(loans[1..], userId)
  }

  /** The rows of the limit query: an aggregate without GROUP BY yields a single row. */
  function CountQuery(loans: seq<Loan>, userId: Id): seq<nat> {
    [ActiveCount(loans, userId)]
  }

  predicate LimitReached(check: LimitCheck, loans: seq<Loan>, userId: Id) {
    match check
    case AsWritten => |CountQuery(loans, userId)| > MaxActiveLoans
    case Intended => ActiveCount(loans, userId) >= MaxActiveLoans
  }

  /** The borrow schema: both ids are UUIDs and the return date parses. */
  predicate BorrowInputValid(caller: Id, req: BorrowRequest, isUuid: string -> bool) {
    isUuid(req.bookId) && isUuid(caller) && req.returnDate.Some?
  }

  function NewLoan(caller: Id, req: BorrowRequest, newId: Id, now: int): Loan {
    Loan(newId, caller, req.bookId, now, req.returnDate, false)
  }

  /** The two writes of a borrow: `loan` appended, its book marked unavailable, nothing else changed. */
  ghost predicate Lent(t: Tables, t': Tables, loan: Loan) {
    && loan.bookId in t.books
    && t'.users == t.users
    && t'.loans == t.loans + [loan]
    && t'.books.Keys == t.books.Keys
    && t'.books[loan.bookId] == t.books[loan.bookId].(isAvailable := false)
    && (forall id :: id in t.books && id != loan.bookId ==> t'.books[id] == t.books[id])
  }

  /**
   * POST /borrow by the authenticated `caller`. `newId` and `now` are the id and the
   * borrowed_at value the database generates; `mailSent` is whether the notification
   * succeeded; `isUuid` is the validator's UUID test.
   */
  function BorrowStep(t: Tables, caller: Id, req: BorrowRequest, newId: Id, now: int, mailSent: bool,
                      check: LimitCheck, isUuid: string -> bool): (s: Step)
    ensures s.response.status in {201, 403, 404, 422, 500}
    ensures s.response.status == 422 <==> !BorrowInputValid(caller, req, isUuid)
    ensures s.response.status == 403 <==> BorrowInputValid(caller, req, isUuid) && LimitReached(check, t.loans, caller)
    ensures s.response.status == 404 <==>
              BorrowInputValid(caller, req, isUuid) && !LimitReached(check, t.loans, caller) &&
              !(req.bookId in t.books && t.books[req.bookId].isAvailable)
    ensures s.response.status in {403, 404, 422} ==> s.tables == t
    ensures s.tables == t || Lent(t, s.tables, NewLoan(caller, req, newId, now))
    // the writes happen exactly when every check passes and the insert is accepted
    ensures s.tables != t <==>
              BorrowInputValid(caller, req, isUuid) && !LimitReached(check, t.loans, caller) &&
              req.bookId in t.books && t.books[req.bookId].isAvailable &&
              UserExists(t.users, caller) && !LoanIdTaken(t.loans, newId)
    ensures s.response.status == 201 <==> s.tables != t && mailSent
  {
    if !BorrowInputValid(caller, req, isUuid) then Step(t, ValidationFailed)
    else if LimitReached(check, t.loans, caller) then Step(t, Response(403, Message(LimitMessage)))
    else if !(req.bookId in t.books && t.books[req.bookId].isAvailable) then
      Step(t, Response(404, Message(UnavailableMessage)))
    else if LoanIdTaken(t.loans, newId) || !UserExists(t.users, caller) then
      // the insert violates the primary key or the user foreign key and throws
      Step(t, InternalError)
    else
      var book := t.books[req.bookId];
      var t' := t.(loans := t.loans + [NewLoan(caller, req, newId, now)],
                   books := t.books[req.bookId := book.(isAvailable := false)]);
      assert |t'.loans| != |t.loans|;
      Step(t', if mailSent then Response(201, Message(BorrowedMessage)) else InternalError)
  }

  method Borrow(db: Database, caller: Id, req: BorrowRequest, newId: Id, now: int, mailSent: bool,
                check: LimitCheck, isUuid: string -> bool) returns (response: Response)
    requires db.Valid()
    modifies db
    ensures db.Valid()
    ensures Step(db.Snapshot(), response) == BorrowStep(old(db.Snapshot()), caller, req, newId, now, mailSent, check, isUuid)
  {
    if !BorrowInputValid(caller, req, isUuid) {
      return ValidationFailed;
    }
    var rows := CountQuery(db.loans, caller);
    var limited := match check
      case AsWritten => |rows| > MaxActiveLoans
      case Intended => rows[0] >= MaxActiveLoans;
    if limited {
      return Response(403, Message(LimitMessage));
    }
    if !(req.bookId in db.books && db.books[req.bookId].isAvailable) {
      return Response(404, Message(UnavailableMessage));
    }
    var book := db.books[req.bookId];
    if LoanIdTaken(db.loans, newId) || !UserExists(db.users, caller) {
      return InternalError;
    }
    db.loans := db.loans + [NewLoan(caller, req, newId, now)];
    db.books := db.books[req.bookId := book.(isAvailable := false)];
    if !mailSent {
      return InternalError;
    }
    response := Response(201, Message(BorrowedMessage));
  }

  // ---------------------------------------------------------------------------
  // Extend

  /** The body of PUT /borrow/extend. */
  datatype ExtendRequest = ExtendRequest(borrowId: string, newReturnDate: Option<int>)

  predicate ExtendInputValid(req: ExtendRequest, isUuid: string -> bool) {
    isUuid(req.borrowId) && req.newReturnDate.Some?
  }

  function ExtendRow(l: Loan, borrowId: Id, due: int): Loan {
    if l.id == borrowId then l.(dueDate := Some(due)) else l
  }

  function ExtendRows(loans: seq<Loan>, borrowId: Id, due: int): seq<Loan> {
    seq(|loans|, k requires 0 <= k < |loans| => ExtendRow(loans[k], borrowId, due))
  }

  /** Only the due date of the loans whose id is `borrowId` differs; whether they were returned plays no part. */
  ghost predicate DueDateMoved(t: Tables, t': Tables, borrowId: Id, due: int) {
    && t'.books == t.books && t'.users == t.users
    && |t'.loans| == |t.loans|
    && forall k :: 0 <= k < |t.loans| ==>
         && t'.loans[k].(dueDate := t.loans[k].dueDate) == t.loans[k]
         && (t.loans[k].id == borrowId ==> t'.loans[k].dueDate == Some(due))
         && (t.loans[k].id != borrowId ==> t'.loans[k] == t.loans[k])
  }

  function ExtendStep(t: Tables, req: ExtendRequest, isUuid: string -> bool): (s: Step)
    ensures s.response.status in {200, 404, 422}
    ensures s.response.status == 422 <==> !ExtendInputValid(req, isUuid)
    ensures s.response.status == 404 <==> ExtendInputValid(req, isUuid) && !LoanIdTaken(t.loans, req.borrowId)
    ensures s.response.status != 200 ==> s.tables == t
    ensures s.response.status == 200 ==> DueDateMoved(t, s.tables, req.borrowId, req.newReturnDate.value)
  {
    if !ExtendInputValid(req, isUuid) then Step(t, ValidationFailed)
    else if !LoanIdTaken(t.loans, req.borrowId) then Step(t, Response(404, Message(LoanNotFoundMessage)))
    else
      var t' := t.(loans := ExtendRows(t.loans, req.borrowId, req.newReturnDate.value));
      Step(t', Response(200, Message(ExtendedMessage)))
  }

  /** The UPDATE ... WHERE id = borrow_id, applied row by row. */
  method Extend(db: Database, req: ExtendRequest, isUuid: string -> bool) returns (response: Response)
    requires db.Valid()
    modifies db
    ensures db.Valid()
    ensures Step(db.Snapshot(), response) == ExtendStep(old(db.Snapshot()), req, isUuid)
  {
    if !ExtendInputValid(req, isUuid) {
      return ValidationFailed;
    }
    var due := req.newReturnDate.value;
    var updated := false;
    var i := 0;
    while i < |db.loans|
      invariant i <= |db.loans| == |old(db.loans)|
      invariant db.books == old(db.books) && db.users == old(db.users)
      invariant forall k :: 0 <= k < i ==> db.loans[k] == ExtendRow(old(db.loans)[k], req.borrowId, due)
      invariant forall k :: i <= k < |db.loans| ==> db.loans[k] == old(db.loans)[k]
      invariant updated <==> exists k :: 0 <= k < i && old(db.loans)[k].id == req.borrowId
    {
      if db.loans[i].id == req.borrowId {
        db.loans := db.loans[i := ExtendRow(db.loans[i], req.borrowId, due)];
        updated := true;
      }
      i := i + 1;
    }
    assert db.loans == ExtendRows(old(db.loans), req.borrowId, due);
    SameLoanKeysKeepConsistency(old(db.Snapshot()), db.Snapshot());
    if !updated {
      assert !LoanIdTaken(old(db.loans), req.borrowId);
      assert db.loans == old(db.loans);
      return Response(404, Message(LoanNotFoundMessage));
    }
    response := Response(200, Message(ExtendedMessage));
  }

  // ---------------------------------------------------------------------------
  // Return

  /** The body of PUT /borrow/return; the user id is taken from the body, not from the session. */
  datatype ReturnRequest = ReturnRequest(bookId: string, userId: string)

  /** Which loans a return rewrites: as the handler does (every loan of that borrower and book) or only the unreturned one. */
  datatype ReturnMatch = AnyLoan | ActiveLoan

  predicate ReturnInputValid(req: ReturnRequest, isUuid: string -> bool) {
    isUuid(req.bookId) && isUuid(req.userId)
  }

  predicate Matches(m: ReturnMatch, l: Loan, req: ReturnRequest) {
    l.bookId == req.bookId && l.userId == req.userId && (m == ActiveLoan ==> !l.returned)
  }

  predicate AnyMatch(m: ReturnMatch, loans: seq<Loan>, req: ReturnRequest) {
    exists l :: l in loans && Matches(m, l, req)
  }

  function ReturnRow(m: ReturnMatch, l: Loan, req: ReturnRequest): Loan {
    if Matches(m, l, req) then l.(returned := true, dueDate := None) else l
  }

  function ReturnRows(m: ReturnMatch, loans: seq<Loan>, req: ReturnRequest): seq<Loan> {
    seq(|loans|, k requires 0 <= k < |loans| => ReturnRow(m, loans[k], req))
  }

  /** The two writes of a return: every matching loan closed, then the book marked available. */
  ghost predicate Closed(m: ReturnMatch, t: Tables, t': Tables, req: ReturnRequest) {
    && t'.users == t.users
    && |t'.loans| == |t.loans|
    && (forall k :: 0 <= k < |t.loans| && Matches(m, t.loans[k], req) ==>
          t'.loans[k] == t.loans[k].(returned := true, dueDate := None))
    && (forall k :: 0 <= k < |t.loans| && !Matches(m, t.loans[k], req) ==> t'.loans[k] == t.loans[k])
    && t'.books.Keys == t.books.Keys
    && (req.bookId in t.books ==> t'.books[req.bookId] == t.books[req.bookId].(isAvailable := true))
    && (forall id :: id in t.books && id != req.bookId ==> t'.books[id] == t.books[id])
  }

  function ReturnStep(t: Tables, req: ReturnRequest, m: ReturnMatch, isUuid: string -> bool): (s: Step)
    ensures s.response.status in {200, 404, 422}
    ensures s.response.status == 422 <==> !ReturnInputValid(req, isUuid)
    ensures s.response.status == 404 <==> ReturnInputValid(req, isUuid) && !AnyMatch(m, t.loans, req)
    ensures s.response.status != 200 ==> s.tables == t
    ensures s.response.status == 200 ==> Closed(m, t, s.tables, req)
  {
    if !ReturnInputValid(req, isUuid) then Step(t, ValidationFailed)
    else if !AnyMatch(m, t.loans, req) then Step(t, Response(404, Message(LoanNotFoundMessage)))
    else
      var books := if req.bookId in t.books then t.books[req.bookId := t.books[req.bookId].(isAvailable := true)] else t.books;
      Step(t.(loans := ReturnRows(m, t.loans, req), books := books), Response(200, Message(ReturnedMessage)))
  }

  /** The UPDATE of every matching loan row, then the UPDATE of the book. */
  method Return(db: Database, req: ReturnRequest, m: ReturnMatch, isUuid: string -> bool) returns (response: Response)
    requires db.Valid()
    modifies db
    ensures db.Valid()
    ensures Step(db.Snapshot(), response) == ReturnStep(old(db.Snapshot()), req, m, isUuid)
  {
    if !ReturnInputValid(req, isUuid) {
      return ValidationFailed;
    }
    var updated := false;
    var i := 0;
    while i < |db.loans|
      invariant i <= |db.loans| == |old(db.loans)|
      invariant db.books == old(db.books) && db.users == old(db.users)
      invariant forall k :: 0 <= k < i ==> db.loans[k] == ReturnRow(m, old(db.loans)[k], req)
      invariant forall k :: i <= k < |db.loans| ==> db.loans[k] == old(db.loans)[k]
      invariant updated <==> exists k :: 0 <= k < i && Matches(m, old(db.loans)[k], req)
    {
      if Matches(m, db.loans[i], req) {
        db.loans := db.loans[i := ReturnRow(m, db.loans[i], req)];
        updated := true;
      }
      i := i + 1;
    }
    assert db.loans == ReturnRows(m, old(db.loans), req);
    if !updated {
      assert !AnyMatch(m, old(db.loans), req);
      assert db.loans == old(db.loans);
      return Response(404, Message(LoanNotFoundMessage));
    }
    SameKeysAfterReturn(m, old(db.Snapshot()), db.Snapshot(), req);
    if req.bookId in db.books {
      db.books := db.books[req.bookId := db.books[req.bookId].(isAvailable := true)];
    }
    response := Response(200, Message(ReturnedMessage));
  }

  /** Closing loans changes neither borrower nor book of any row, so the foreign keys still hold. */
  lemma SameKeysAfterReturn(m: ReturnMatch, t: Tables, t': Tables, req: ReturnRequest)
    requires RefIntegrity(t)
    requires t'.loans == ReturnRows(m, t.loans, req) && t'.books == t.books && t'.users == t.users
    ensures RefIntegrity(t')
  {
    forall l | l in t'.loans
      ensures l.bookId in t'.books && UserExists(t'.users, l.userId)
    {
      var k :| 0 <= k < |t'.loans| && t'.loans[k] == l;
      assert t.loans[k] in t.loans;
    }
  }
}

/**
 * The cross-table invariant "a book is unavailable exactly when an unreturned loan references
 * it" (Store.Consistent) across every handler that writes books or loans: which handlers keep
 * it, and for those that do not, the states in which they break it.
 */
module LoanInvariant {
  import opened Common
  import opened Store
  import opened Borrowing
  import opened Catalog

  /** Someone other than `userId` holds `bookId`. */
  predicate HeldByOther(loans: seq<Loan>, bookId: Id, userId: Id) {
    exists l :: l in loans && ActiveOn(l, bookId) && l.userId != userId
  }

  // ---------------------------------------------------------------------------
  // Borrow and extend keep the invariant

  lemma {:induction false} BorrowPreservesConsistency(t: Tables, caller: Id, req: BorrowRequest, newId: Id, now: int,
                                                      mailSent: bool, check: LimitCheck, isUuid: string -> bool)
    requires Consistent(t)
    ensures Consistent(BorrowStep(t, caller, req, newId, now, mailSent, check, isUuid).tables)
  {
    var s := BorrowStep(t, caller, req, newId, now, mailSent, check, isUuid);
    if s.tables != t {
      var loan := NewLoan(caller, req, newId, now);
      var b := req.bookId;
      var n := |t.loans|;
      assert Lent(t, s.tables, loan);
      assert !HasActiveLoan(t.loans, b);
      forall id | id in s.tables.books
        ensures s.tables.books[id].isAvailable <==> !HasActiveLoan(s.tables.loans, id)
      {
        assert loan in s.tables.loans;
        if id != b {
          if HasActiveLoan(s.tables.loans, id) {
            var l :| l in s.tables.loans && ActiveOn(l, id);
            assert l in t.loans;
          }
        }
      }
      assert forall j :: 0 <= j < n ==> t.loans[j] in t.loans && !ActiveOn(t.loans[j], b);
    }
  }

  lemma ExtendPreservesConsistency(t: Tables, req: ExtendRequest, isUuid: string -> bool)
    requires Consistent(t)
    ensures Consistent(ExtendStep(t, req, isUuid).tables)
  {
    var s := ExtendStep(t, req, isUuid);
    if s.response.status == 200 {
      forall k | 0 <= k < |t.loans|
        ensures s.tables.loans[k].bookId == t.loans[k].bookId && s.tables.loans[k].userId == t.loans[k].userId
                && s.tables.loans[k].returned == t.loans[k].returned
      {
        assert s.tables.loans[k].(dueDate := t.loans[k].dueDate) == t.loans[k];
      }
      SameLoanKeysKeepConsistency(t, s.tables);
    }
  }

  // ---------------------------------------------------------------------------
  // Return keeps the invariant only when the returning user is the one who holds the book

  /**
   * A return keeps the invariant when nobody else holds the book; with the intended matching
   * (unreturned loans only) it always does.
   */
  lemma {:induction false} ReturnPreservesConsistency(t: Tables, req: ReturnRequest, m: ReturnMatch, isUuid: string -> bool)
    requires Consistent(t)
    requires m == ActiveLoan || !HeldByOther(t.loans, req.bookId, req.userId)
    ensures Consistent(ReturnStep(t, req, m, isUuid).tables)
  {
    var s := ReturnStep(t, req, m, isUuid);
    if s.response.status == 200 {
      var t' := s.tables;
      var b := req.bookId;
      assert Closed(m, t, t', req);
      var l0 :| l0 in t.loans && Matches(m, l0, req);
      var k0 :| 0 <= k0 < |t.loans| && t.loans[k0] == l0;
      assert b in t.books;
      // every row of t' keeps its borrower and book, and is active only if it was active and untouched
      assert forall k :: 0 <= k < |t.loans| ==>
        t'.loans[k].bookId == t.loans[k].bookId && t'.loans[k].userId == t.loans[k].userId &&
        (!t'.loans[k].returned ==> t'.loans[k] == t.loans[k] && !Matches(m, t.loans[k], req));
      forall l | l in t'.loans
        ensures l.bookId in t'.books && UserExists(t'.users, l.userId)
      {
        var k :| 0 <= k < |t'.loans| && t'.loans[k] == l;
        assert t.loans[k] in t.loans;
      }
      forall id | id in t'.books
        ensures t'.books[id].isAvailable <==> !HasActiveLoan(t'.loans, id)
      {
        if HasActiveLoan(t'.loans, id) {
          var l :| l in t'.loans && ActiveOn(l, id);
          var k :| 0 <= k < |t'.loans| && t'.loans[k] == l;
          assert t.loans[k] in t.loans && ActiveOn(t.loans[k], id);
        }
        if id != b && HasActiveLoan(t.loans, id) {
          var l :| l in t.loans && ActiveOn(l, id);
          var k :| 0 <= k < |t.loans| && t.loans[k] == l;
          assert t'.loans[k] in t'.loans && ActiveOn(t'.loans[k], id);
        }
      }
    }
  }

  /**
   * As written, a return by a former borrower of a book that someone else now holds succeeds
   * and marks the book available while that other loan is still open.
   */
  lemma ReturnFreesHeldBook(t: Tables, req: ReturnRequest, isUuid: string -> bool)
    requires Consistent(t)
    requires HeldByOther(t.loans, req.bookId, req.userId)
    requires ReturnStep(t, req, AnyLoan, isUuid).response.status == 200
    ensures var t' := ReturnStep(t, req, AnyLoan, isUuid).tables;
            t'.books[req.bookId].isAvailable && HasActiveLoan(t'.loans, req.bookId) && !Consistent(t')
  {
    var t' := ReturnStep(t, req, AnyLoan, isUuid).tables;
    var l :| l in t.loans && ActiveOn(l, req.bookId) && l.userId != req.userId;
    var k :| 0 <= k < |t.loans| && t.loans[k] == l;
    assert t'.loans[k] == l && l in t'.loans;
  }

  // A concrete trace. Alice borrows "dune" and returns it, Bob borrows it, then a second
  // return for Alice succeeds and leaves the book available during Bob's loan.

  const Dune := Book("Dune", "Frank Herbert", 1965, "0441013597", true)
  const Alice := User("a", "alice", "h1", "alice@example.com", Librarian)
  const Bob := User("b", "bob", "h2", "bob@example.com", Librarian)
  const AliceLoan := Loan("loan1", "a", "dune", 0, Some(10), false)
  const AliceLoanClosed := Loan("loan1", "a", "dune", 0, None, true)
  const BobLoan := Loan("loan2", "b", "dune", 1, Some(20), false)
  const ReturnForAlice := ReturnRequest("dune", "a")

  const T0 := Tables(map["dune" := Dune], [], [Alice, Bob])
  const T1 := Tables(map["dune" := Dune.(isAvailable := false)], [AliceLoan], [Alice, Bob])
  const T2 := Tables(map["dune" := Dune], [AliceLoanClosed], [Alice, Bob])
  const T3 := Tables(map["dune" := Dune.(isAvailable := false)], [AliceLoanClosed, BobLoan], [Alice, Bob])
  const T4 := Tables(map["dune" := Dune], [AliceLoanClosed, BobLoan], [Alice, Bob])

  /** Every identifier passes the validator in the trace. */
  function AnyUuid(s: string): bool {
    true
  }

  lemma TraceAliceBorrows()
    ensures BorrowStep(T0, "a", BorrowRequest("dune", Some(10), None), "loan1", 0, true, AsWritten, AnyUuid)
            == Step(T1, Response(201, Message(BorrowedMessage)))
  {
    assert Alice in T0.users;
  }

  lemma TraceAliceReturns()
    ensures ReturnStep(T1, ReturnForAlice, AnyLoan, AnyUuid) == Step(T2, Response(200, Message(ReturnedMessage)))
  {
    assert Matches(AnyLoan, T1.loans[0], ReturnForAlice);
    assert ReturnRows(AnyLoan, T1.loans, ReturnForAlice) == [AliceLoanClosed];
  }

  lemma TraceBobBorrows()
    ensures BorrowStep(T2, "b", BorrowRequest("dune", Some(20), None), "loan2", 1, true, AsWritten, AnyUuid)
            == Step(T3, Response(201, Message(BorrowedMessage)))
  {
    assert Bob in T2.users;
    assert !LoanIdTaken(T2.loans, "loan2");
  }

  lemma TraceAliceReturnsAgain()
    ensures ReturnStep(T3, ReturnForAlice, AnyLoan, AnyUuid) == Step(T4, Response(200, Message(ReturnedMessage)))
  {
    assert Matches(AnyLoan, T3.loans[0], ReturnForAlice);
    assert ReturnRows(AnyLoan, T3.loans, ReturnForAlice) == [AliceLoanClosed, BobLoan];
  }

  /** The four requests of the trace all succeed, and the last one breaks the invariant the others kept. */
  lemma SecondReturnTrace()
    ensures Consistent(T0) && Consistent(T1) && Consistent(T2) && Consistent(T3)
    ensures ReturnStep(T3, ReturnForAlice, AnyLoan, AnyUuid).response.status == 200
    ensures T4.books["dune"].isAvailable && HasActiveLoan(T4.loans, "dune")
    ensures !Consistent(T4)
  {
    TraceAliceBorrows();
    TraceAliceReturns();
    TraceBobBorrows();
    TraceAliceReturnsAgain();
    BorrowPreservesConsistency(T0, "a", BorrowRequest("dune", Some(10), None), "loan1", 0, true, AsWritten, AnyUuid);
    ReturnPreservesConsistency(T1, ReturnForAlice, AnyLoan, AnyUuid);
    BorrowPreservesConsistency(T2, "b", BorrowRequest("dune", Some(20), None), "loan2", 1, true, AsWritten, AnyUuid);
    assert BobLoan in T4.loans;
  }

  // ---------------------------------------------------------------------------
  // Borrow, then return; returning twice

  /** Whatever the notification did, a borrow that wrote its rows is undone by the borrower's return. */
  lemma BorrowThenReturn(t: Tables, caller: Id, req: BorrowRequest, newId: Id, now: int, mailSent: bool,
                         check: LimitCheck, m: ReturnMatch, isUuid: string -> bool)
    requires Consistent(t)
    requires BorrowStep(t, caller, req, newId, now, mailSent, check, isUuid).tables != t
    ensures var t1 := BorrowStep(t, caller, req, newId, now, mailSent, check, isUuid).tables;
            var s2 := ReturnStep(t1, ReturnRequest(req.bookId, caller), m, isUuid);
            && s2.response.status == 200
            && s2.tables.books[req.bookId].isAvailable
            && s2.tables.loans[|t.loans|] == NewLoan(caller, req, newId, now).(returned := true, dueDate := None)
            && Consistent(s2.tables)
  {
    var t1 := BorrowStep(t, caller, req, newId, now, mailSent, check, isUuid).tables;
    var loan := NewLoan(caller, req, newId, now);
    var r := ReturnRequest(req.bookId, caller);
    BorrowPreservesConsistency(t, caller, req, newId, now, mailSent, check, isUuid);
    assert Lent(t, t1, loan);
    assert t1.loans[|t.loans|] == loan;
    assert AnyMatch(m, t1.loans, r) by { assert loan in t1.loans && Matches(m, loan, r); }
    ReturnPreservesConsistency(t1, r, m, isUuid);
  }

  /** Returning the same book for the same user twice leaves the tables as the first return did. */
  lemma ReturnTwice(t: Tables, req: ReturnRequest, m: ReturnMatch, isUuid: string -> bool)
    ensures var s1 := ReturnStep(t, req, m, isUuid);
            var s2 := ReturnStep(s1.tables, req, m, isUuid);
            && s2.tables == s1.tables
            && (m == AnyLoan && s1.response.status == 200 ==> s2.response.status == 200)
            && (m == ActiveLoan ==> s2.response.status != 200)
  {
    var s1 := ReturnStep(t, req, m, isUuid);
    var s2 := ReturnStep(s1.tables, req, m, isUuid);
    if s1.response.status == 200 {
      assert Closed(m, t, s1.tables, req);
      var l0 :| l0 in t.loans && Matches(m, l0, req);
      var k0 :| 0 <= k0 < |t.loans| && t.loans[k0] == l0;
      if m == AnyLoan {
        assert Matches(m, s1.tables.loans[k0], req);
        assert s2.response.status == 200;
        assert s2.tables.loans == s1.tables.loans;
      }
    }
  }

  // ---------------------------------------------------------------------------
  // The borrow limit

  /** As written, the limit query always yields one row, so the 403 branch is never taken. */
  lemma AsWrittenLimitNeverRejects(t: Tables, caller: Id, req: BorrowRequest, newId: Id, now: int, mailSent: bool,
                                   isUuid: string -> bool)
    ensures BorrowStep(t, caller, req, newId, now, mailSent, AsWritten, isUuid).response.status != 403
  {
  }

  lemma {:induction false} ActiveCountAppend(loans: seq<Loan>, l: Loan, userId: Id)
    ensures ActiveCount(loans + [l], userId) == ActiveCount(loans, userId) + (if ActiveFor(l, userId) then 1 else 0)
  {
    if loans != [] {
      assert (loans + [l])[1..] == loans[1..] + [l];
      ActiveCountAppend(loans[1..], l, userId);
    }
  }

  /** With the intended test, a borrow never takes the caller past three unreturned loans. */
  lemma IntendedLimitCapsActiveLoans(t: Tables, caller: Id, req: BorrowRequest, newId: Id, now: int, mailSent: bool,
                                     isUuid: string -> bool)
    requires ActiveCount(t.loans, caller) <= MaxActiveLoans
    ensures ActiveCount(BorrowStep(t, caller, req, newId, now, mailSent, Intended, isUuid).tables.loans, caller) <= MaxActiveLoans
  {
    var s := BorrowStep(t, caller, req, newId, now, mailSent, Intended, isUuid);
    if s.tables != t {
      ActiveCountAppend(t.loans, NewLoan(caller, req, newId, now), caller);
    }
  }

  const B1 := Book("Emma", "Jane Austen", 1990, "0141439580", false)
  const B2 := Book("Ulysses", "James Joyce", 1990, "0679722769", false)
  const B3 := Book("Beloved", "Toni Morrison", 1987, "1400033411", false)
  const B4 := Book("Walden", "Henry David Thoreau", 1995, "0486284956", true)
  const ThreeLoans := Tables(map["b1" := B1, "b2" := B2, "b3" := B3, "b4" := B4],
                             [Loan("l1", "a", "b1", 0, Some(9), false), Loan("l2", "a", "b2", 0, Some(9), false),
                              Loan("l3", "a", "b3", 0, Some(9), false)],
                             [Alice])
  const FourthRequest := BorrowRequest("b4", Some(9), None)

  /** A borrower who holds three books gets a fourth as written; the intended test refuses it. */
  lemma FourthBorrowAccepted()
    ensures ActiveCount(ThreeLoans.loans, "a") == 3
    ensures var s := BorrowStep(ThreeLoans, "a", FourthRequest, "l4", 1, true, AsWritten, AnyUuid);
            s.response.status == 201 && ActiveCount(s.tables.loans, "a") == 4
    ensures BorrowStep(ThreeLoans, "a", FourthRequest, "l4", 1, true, Intended, AnyUuid).response.status == 403
  {
    assert Alice in ThreeLoans.users;
    var l4 := NewLoan("a", FourthRequest, "l4", 1);
    assert !LoanIdTaken(ThreeLoans.loans, "l4");
    assert ThreeLoans.loans[1..][1..][1..] == [];
    ActiveCountAppend(ThreeLoans.loans, l4, "a");
  }

  // ---------------------------------------------------------------------------
  // Catalog writes

  /** Creating a book keeps the invariant unless the client stores it as unavailable. */
  lemma CreatePreservesConsistency(t: Tables, p: BookPayload, newId: Id, currentYear: int)
    requires Consistent(t)
    requires p.isAvailable != Some(false)
    ensures Consistent(CreateStep(t, p, newId, currentYear).tables)
  {
    var s := CreateStep(t, p, newId, currentYear);
    if s.response.status == 201 {
      assert !HasActiveLoan(t.loans, newId);
    }
  }

  /** A created book stored as unavailable has no loan behind it. */
  lemma CreateUnavailableBreaksConsistency(t: Tables, p: BookPayload, newId: Id, currentYear: int)
    requires Consistent(t)
    requires p.isAvailable == Some(false)
    requires CreateStep(t, p, newId, currentYear).response.status == 201
    ensures !Consistent(CreateStep(t, p, newId, currentYear).tables)
  {
    assert !HasActiveLoan(t.loans, newId);
  }

  /** An update keeps the invariant when it leaves is_available as it was. */
  lemma UpdatePreservesConsistency(t: Tables, id: string, p: BookPayload, currentYear: int, isStoreUuid: string -> bool)
    requires Consistent(t)
    requires p.isAvailable.Some? && id in t.books ==> p.isAvailable.value == t.books[id].isAvailable
    ensures Consistent(UpdateStep(t, id, p, currentYear, isStoreUuid).tables)
  {
  }

  /** An update that flips is_available breaks the invariant: nothing in the loans changes with it. */
  lemma UpdateFlipBreaksConsistency(t: Tables, id: string, p: BookPayload, currentYear: int, isStoreUuid: string -> bool)
    requires Consistent(t)
    requires UpdateStep(t, id, p, currentYear, isStoreUuid).response.status == 200
    requires p.isAvailable.Some? && p.isAvailable.value != t.books[id].isAvailable
    ensures !Consistent(UpdateStep(t, id, p, currentYear, isStoreUuid).tables)
  {
  }

  /** Deleting a book, with the cascade through its loans, keeps the invariant. */
  lemma DeletePreservesConsistency(t: Tables, id: string, isStoreUuid: string -> bool)
    requires Consistent(t)
    ensures Consistent(DeleteStep(t, id, isStoreUuid).tables)
  {
    var s := DeleteStep(t, id, isStoreUuid);
    if s.response.status == 200 {
      var t' := s.tables;
      forall other | other in t'.books
        ensures HasActiveLoan(t'.loans, other) <==> HasActiveLoan(t.loans, other)
      {
        if HasActiveLoan(t.loans, other) {
          var l :| l in t.loans && ActiveOn(l, other);
          assert l in t'.loans;
        }
      }
      WithoutBookKeepsOneActive(t.loans, id);
    }
  }

  lemma {:induction false} WithoutBookKeepsOneActive(loans: seq<Loan>, bookId: Id)
    requires AtMostOneActive(loans)
    ensures AtMostOneActive(WithoutBook(loans, bookId))
  {
    if loans != [] {
      var front := loans[..|loans| - 1];
      var last := loans[|loans| - 1];
      assert loans == front + [last];
      assert AtMostOneActive(front) by {
        forall i, j | 0 <= i < |front| && 0 <= j < |front| && ActiveOn(front[i], front[j].bookId) && !front[j].returned
          ensures i == j
        {
          assert loans[i] == front[i] && loans[j] == front[j];
        }
      }
      WithoutBookKeepsOneActive(front, bookId);
      var r := WithoutBook(front, bookId);
      if last.bookId != bookId {
        var r' := r + [last];
        assert forall k :: 0 <= k < |r| ==> r[k] in front;
      }
    }
  }
}

/**
 * The daily overdue scan: for every user, in table order, the unreturned loans whose due date has
 * passed, and one reminder email listing the titles of their books.
 */
module Overdue {
  import opened Common
  import opened Store

  /** An email to send. */
  datatype Reminder = Reminder(to: string, subject: string, text: string)

  const ReminderSubject := "Book Return Reminder"
  const TitleSeparator := ", "

  /** A loan of `u` that is unreturned and whose due date lies strictly before `now`; no due date never qualifies. */
  predicate IsOverdue(l: Loan, u: User, now: int) {
    l.userId == u.id && !l.returned && l.dueDate.Some? && l.dueDate.value < now
  }

  predicate HasOverdue(loans: seq<Loan>, u: User, now: int) {
    exists l :: l in loans && IsOverdue(l, u, now)
  }

  /** The loans table filtered to the overdue loans of `u`, in table order. */
  function OverdueLoans(loans: seq<Loan>, u: User, now: int): (r: seq<Loan>)
    ensures |r| <= |loans|
    ensures forall l :: l in r <==> l in loans && IsOverdue(l, u, now)
  {
    if loans == [] then []
    else (if IsOverdue(loans[0], u, now) then [loans[0]] else []) + OverdueLoans(loans[1..], u, now)
  }

  /** Filtering commutes with concatenation, so the overdue loans keep the order of the table. */
  lemma {:induction false} OverdueLoansAppend(a: seq<Loan>, b: seq<Loan>, u: User, now: int)
    ensures OverdueLoans(a + b, u, now) == OverdueLoans(a, u, now) + OverdueLoans(b, u, now)
  {
    if a == [] {
      assert a + b == b;
    } else {
      assert (a + b)[1..] == a[1..] + b;
      OverdueLoansAppend(a[1..], b, u, now);
    }
  }

  /** Every loan's book is in the table, so its title can be looked up. */
  predicate TitlesKnown(loans: seq<Loan>, books: map<Id, Book>) {
    forall l :: l in loans ==> l.bookId in books
  }

  /** The title of each loan's book, loan by loan. */
  function Titles(ls: seq<Loan>, books: map<Id, Book>): (r: seq<string>)
    requires forall l :: l in ls ==> l.bookId in books
    ensures |r| == |ls| && forall i :: 0 <= i < |ls| ==> r[i] == books[ls[i].bookId].title
  {
    seq(|ls|, i requires 0 <= i < |ls| => books[ls[i].bookId].title)
  }

  function TotalLength(parts: seq<string>): nat {
    if parts == [] then 0 else |parts[0]| + TotalLength(parts[1..])
  }

  /** The parts with `sep` between each neighbouring pair. */
  function Join(parts: seq<string>, sep: string): (r: string)
    ensures parts == [] ==> r == ""
    ensures parts != [] ==> |r| == TotalLength(parts) + (|parts| - 1) * |sep|
    ensures parts != [] ==> r[..|parts[0]|] == parts[0]
  {
    if parts == [] then ""
    else if |parts| == 1 then parts[0]
    else parts[0] + sep + Join(parts[1..], sep)
  }

  /** Joining two non-empty lists is joining each and putting one separator between. */
  lemma {:induction false} JoinAppend(a: seq<string>, b: seq<string>, sep: string)
    requires a != [] && b != []
    ensures Join(a + b, sep) == Join(a, sep) + sep + Join(b, sep)
  {
    if |a| > 1 {
      assert (a + b)[1..] == a[1..] + b;
      JoinAppend(a[1..], b, sep);
    }
  }

  function ReminderText(titles: string): string {
    "The due date for the following books you borrowed has passed: " + titles + ". Please return them as soon as possible."
  }

  /** The reminder for `u`, if `u` has any overdue loan. */
  function ReminderFor(u: User, loans: seq<Loan>, books: map<Id, Book>, now: int): (r: Option<Reminder>)
    requires TitlesKnown(loans, books)
    ensures r.Some? <==> HasOverdue(loans, u, now)
    ensures r.Some? ==> r.value.to == u.email && r.value.subject == ReminderSubject
    ensures r.Some? ==> r.value.text == ReminderText(Join(Titles(OverdueLoans(loans, u, now), books), TitleSeparator))
  {
    var overdue := OverdueLoans(loans, u, now);
    if |overdue| > 0 then
      assert overdue[0] in overdue;
      Some(Reminder(u.email, ReminderSubject, ReminderText(Join(Titles(overdue, books), TitleSeparator))))
    else
      assert !HasOverdue(loans, u, now);
      None
  }

  /** A single overdue loan yields a reminder naming exactly its book's title. */
  lemma SingleOverdueTitle(u: User, loans: seq<Loan>, books: map<Id, Book>, now: int, l: Loan)
    requires TitlesKnown(loans, books)
    requires OverdueLoans(loans, u, now) == [l]
    ensures ReminderFor(u, loans, books, now) == Some(Reminder(u.email, ReminderSubject, ReminderText(books[l.bookId].title)))
  {
    assert l in loans;
  }

  /** The reminders of the scan, one per user with an overdue loan, in the order of the users table. */
  function Reminders(users: seq<User>, loans: seq<Loan>, books: map<Id, Book>, now: int): (r: seq<Reminder>)
    requires TitlesKnown(loans, books)
    ensures |r| <= |users|
    ensures forall m :: m in r ==> exists u :: u in users && ReminderFor(u, loans, books, now) == Some(m)
  {
    if users == [] then []
    else
      var front := Reminders(users[..|users| - 1], loans, books, now);
      var last := users[|users| - 1];
      assert forall u :: u in users[..|users| - 1] ==> u in users;
      front + match ReminderFor(last, loans, books, now) case Some(m) => [m] case None => []
  }

  /** One more user adds that user's reminder, if any, at the end. */
  lemma RemindersSnoc(users: seq<User>, i: nat, loans: seq<Loan>, books: map<Id, Book>, now: int)
    requires i < |users|
    requires TitlesKnown(loans, books)
    ensures HasOverdue(loans, users[i], now) ==>
              Reminders(users[..i + 1], loans, books, now) ==
              Reminders(users[..i], loans, books, now) + [ReminderFor(users[i], loans, books, now).value]
    ensures !HasOverdue(loans, users[i], now) ==>
              Reminders(users[..i + 1], loans, books, now) == Reminders(users[..i], loans, books, now)
  {
    assert users[..i + 1][..i] == users[..i];
  }

  /** The users who are owed a reminder, in table order. */
  function Reminded(users: seq<User>, loans: seq<Loan>, now: int): (r: seq<User>)
    ensures forall u :: u in r <==> u in users && HasOverdue(loans, u, now)
  {
    if users == [] then []
    else
      var last := users[|users| - 1];
      assert forall u :: u in users <==> u in users[..|users| - 1] || u == last;
      Reminded(users[..|users| - 1], loans, now) + if HasOverdue(loans, last, now) then [last] else []
  }

  /** Owed users are listed in table order: the list of a concatenation is the concatenation of the lists. */
  lemma {:induction false} RemindedAppend(a: seq<User>, b: seq<User>, loans: seq<Loan>, now: int)
    ensures Reminded(a + b, loans, now) == Reminded(a, loans, now) + Reminded(b, loans, now)
    decreases |b|
  {
    if b == [] {
      assert a + b == a;
    } else {
      var front := b[..|b| - 1];
      assert (a + b)[..|a + b| - 1] == a + front;
      assert (a + b)[|a + b| - 1] == b[|b| - 1];
      RemindedAppend(a, front, loans, now);
    }
  }

  /** The k-th reminder goes to the k-th user owed one, and there is exactly one per such user. */
  lemma {:induction false} RemindersFollowUsers(users: seq<User>, loans: seq<Loan>, books: map<Id, Book>, now: int)
    requires TitlesKnown(loans, books)
    ensures var r := Reminders(users, loans, books, now);
            var q := Reminded(users, loans, now);
            |r| == |q| && forall k :: 0 <= k < |r| ==> Some(r[k]) == ReminderFor(q[k], loans, books, now)
  {
    if users != [] {
      RemindersFollowUsers(users[..|users| - 1], loans, books, now);
    }
  }

  /** Scanning a prefix of the users produces a prefix of the reminders. */
  lemma {:induction false} RemindersPrefix(users: seq<User>, n: nat, loans: seq<Loan>, books: map<Id, Book>, now: int)
    requires n <= |users|
    requires TitlesKnown(loans, books)
    ensures Reminders(users[..n], loans, books, now) <= Reminders(users, loans, books, now)
    decreases |users| - n
  {
    if n < |users| {
      RemindersPrefix(users, n + 1, loans, books, now);
      assert users[..n + 1][..n] == users[..n];
    } else {
      assert users[..n] == users;
    }
  }

  predicate AllDelivered(sent: seq<Reminder>, delivered: Reminder -> bool) {
    forall m :: m in sent ==> delivered(m)
  }

  /**
   * The scan as it runs: one query per user, one send per user owed a reminder. `delivered` says
   * whether a send completes; a send that fails rejects the scan, and the remaining users get nothing.
   */
  method CheckDueDates(db: Database, now: int, delivered: Reminder -> bool) returns (attempted: seq<Reminder>)
    requires db.Valid()
    ensures TitlesKnown(db.loans, db.books)
    ensures attempted <= Reminders(db.users, db.loans, db.books, now)
    ensures (attempted == Reminders(db.users, db.loans, db.books, now) && AllDelivered(attempted, delivered)) ||
            (attempted != [] && AllDelivered(attempted[..|attempted| - 1], delivered) && !delivered(attempted[|attempted| - 1]))
  {
    var users, loans, books := db.users, db.loans, db.books;
    assert TitlesKnown(loans, books) by {
      assert RefIntegrity(db.Snapshot());
    }
    attempted := [];
    var i := 0;
    while i < |users|
      invariant 0 <= i <= |users|
      invariant attempted == Reminders(users[..i], loans, books, now)
      invariant AllDelivered(attempted, delivered)
    {
      var u := users[i];
      RemindersSnoc(users, i, loans, books, now);
      var overdue := OverdueLoans(loans, u, now);
      if |overdue| > 0 {
        var message := Reminder(u.email, ReminderSubject, ReminderText(Join(Titles(overdue, books), TitleSeparator)));
        if !delivered(message) {
          RemindersPrefix(users, i + 1, loans, books, now);
          assert (attempted + [message])[..|attempted|] == attempted;
          attempted := attempted + [message];
          return;
        }
        attempted := attempted + [message];
      }
      i := i + 1;
    }
    assert users[..i] == users;
  }

  /** A loan due exactly now is not yet overdue. */
  lemma DueNowIsNotOverdue(l: Loan, u: User, now: int)
    requires l.dueDate == Some(now)
    ensures !IsOverdue(l, u, now)
  {
  }
}

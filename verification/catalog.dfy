/**
 * The /books routes: the field rules of bookSchema and its partial form, and the create,
 * update, delete, get and list handlers over the books table.
 */
module Catalog {
  import opened Common
  import opened Store

  const MinYear := 1900
  const IsbnMinLength := 7
  const IsbnMaxLength := 13

  const IsbnConflictMessage := "Conflict: ISBN already exists"
  const CreatedMessage := "Book created successfully"
  const UpdateNotFoundMessage := "Book not found or update failed"
  const UpdatedMessage := "Book updated successfully"
  const DeleteNotFoundMessage := "Book not found or deletion failed"
  const DeletedMessage := "Book deleted successfully"
  const GetNotFoundMessage := "Book not found"

  /** The fields a client sends; an absent field is None. */
  datatype BookPayload = BookPayload(title: Option<string>, author: Option<string>, isbn: Option<string>,
                                     isAvailable: Option<bool>, year: Option<int>)

  // ---------------------------------------------------------------------------
  // Field rules

  predicate NonEmpty(s: string) {
    |s| >= 1
  }

  predicate IsbnOk(isbn: string) {
    IsbnMinLength <= |isbn| <= IsbnMaxLength
  }

  predicate YearOk(year: int, currentYear: int) {
    MinYear <= year <= currentYear
  }

  /** bookSchema: title, author, isbn and year are required; is_available may be left out. */
  predicate ValidBook(p: BookPayload, currentYear: int) {
    && p.title.Some? && NonEmpty(p.title.value)
    && p.author.Some? && NonEmpty(p.author.value)
    && p.isbn.Some? && IsbnOk(p.isbn.value)
    && p.year.Some? && YearOk(p.year.value, currentYear)
  }

  /** updateBookSchema, the partial form: each field obeys the same rule when it is present. */
  predicate ValidUpdate(p: BookPayload, currentYear: int) {
    && (p.title.Some? ==> NonEmpty(p.title.value))
    && (p.author.Some? ==> NonEmpty(p.author.value))
    && (p.isbn.Some? ==> IsbnOk(p.isbn.value))
    && (p.year.Some? ==> YearOk(p.year.value, currentYear))
  }

  /** A stored row that meets the field rules. */
  predicate BookOk(b: Book, currentYear: int) {
    NonEmpty(b.title) && NonEmpty(b.author) && IsbnOk(b.isbn) && YearOk(b.year, currentYear)
  }

  /** The row fits its columns: title and author are varchar(255), isbn varchar(13). */
  predicate FitsColumns(b: Book) {
    |b.title| <= VarcharMax && |b.author| <= VarcharMax && |b.isbn| <= IsbnMaxLength
  }

  predicate EmptyPayload(p: BookPayload) {
    p.title.None? && p.author.None? && p.isbn.None? && p.isAvailable.None? && p.year.None?
  }

  /** The row after an UPDATE ... SET of the supplied fields. */
  function Apply(b: Book, p: BookPayload): (b': Book)
    ensures p.title.Some? ==> b'.title == p.title.value
    ensures p.title.None? ==> b'.title == b.title
    ensures p.author.Some? ==> b'.author == p.author.value
    ensures p.author.None? ==> b'.author == b.author
    ensures p.isbn.Some? ==> b'.isbn == p.isbn.value
    ensures p.isbn.None? ==> b'.isbn == b.isbn
    ensures p.year.Some? ==> b'.year == p.year.value
    ensures p.year.None? ==> b'.year == b.year
    ensures p.isAvailable.Some? ==> b'.isAvailable == p.isAvailable.value
    ensures p.isAvailable.None? ==> b'.isAvailable == b.isAvailable
    ensures EmptyPayload(p) ==> b' == b
  {
    Book(p.title.GetOr(b.title), p.author.GetOr(b.author), p.year.GetOr(b.year), p.isbn.GetOr(b.isbn),
         p.isAvailable.GetOr(b.isAvailable))
  }

  /** The row an INSERT stores: the column default makes is_available true when it is left out. */
  function NewBook(p: BookPayload): (b: Book)
    requires p.title.Some? && p.author.Some? && p.isbn.Some? && p.year.Some?
    ensures b.title == p.title.value && b.author == p.author.value && b.isbn == p.isbn.value && b.year == p.year.value
    ensures b.isAvailable <==> p.isAvailable != Some(false)
  {
    Book(p.title.value, p.author.value, p.year.value, p.isbn.value, p.isAvailable.GetOr(true))
  }

  /** The create schema is the partial schema with the four required fields present. */
  lemma ValidBookIsCompleteUpdate(p: BookPayload, currentYear: int)
    ensures ValidBook(p, currentYear) <==>
              ValidUpdate(p, currentYear) && p.title.Some? && p.author.Some? && p.isbn.Some? && p.year.Some?
  {
  }

  /** A valid create payload is stored as a row that meets the field rules. */
  lemma ValidBookStoresGoodRow(p: BookPayload, currentYear: int)
    requires ValidBook(p, currentYear)
    ensures BookOk(NewBook(p), currentYear)
  {
  }

  /** A valid update keeps a row that met the field rules within them. */
  lemma ValidUpdateKeepsGoodRow(b: Book, p: BookPayload, currentYear: int)
    requires BookOk(b, currentYear) && ValidUpdate(p, currentYear)
    ensures BookOk(Apply(b, p), currentYear)
  {
  }

  // ---------------------------------------------------------------------------
  // Create

  predicate IsbnTaken(books: map<Id, Book>, isbn: string) {
    exists id :: id in books && books[id].isbn == isbn
  }

  /**
   * POST /books/create; `newId` is the id the database generates. `currentYear` is the year the
   * schema was built, which happens once when the module loads, not the year of the request.
   */
  function CreateStep(t: Tables, p: BookPayload, newId: Id, currentYear: int): (s: Step)
    ensures s.response.status in {201, 409, 422, 500}
    ensures s.response.status == 422 <==> !ValidBook(p, currentYear)
    ensures s.response.status == 409 <==> ValidBook(p, currentYear) && IsbnTaken(t.books, p.isbn.value)
    ensures s.response.status == 201 <==>
              ValidBook(p, currentYear) && !IsbnTaken(t.books, p.isbn.value) && newId !in t.books && FitsColumns(NewBook(p))
    ensures s.response.status != 201 ==> s.tables == t
    ensures s.response.status == 201 ==>
              && newId !in t.books
              && s.tables.loans == t.loans && s.tables.users == t.users
              && s.tables.books.Keys == t.books.Keys + {newId}
              && (forall id :: id in t.books ==> s.tables.books[id] == t.books[id])
              && BookOk(s.tables.books[newId], currentYear)
              && s.tables.books[newId] == NewBook(p)
  {
    if !ValidBook(p, currentYear) then Step(t, ValidationFailed)
    else if IsbnTaken(t.books, p.isbn.value) then Step(t, Response(409, Message(IsbnConflictMessage)))
    else if newId in t.books || !FitsColumns(NewBook(p)) then
      // the insert violates the primary key or a column length and throws
      Step(t, InternalError)
    else Step(t.(books := t.books[newId := NewBook(p)]), Response(201, Message(CreatedMessage)))
  }

  method Create(db: Database, p: BookPayload, newId: Id, currentYear: int) returns (response: Response)
    requires db.Valid()
    modifies db
    ensures db.Valid()
    ensures Step(db.Snapshot(), response) == CreateStep(old(db.Snapshot()), p, newId, currentYear)
  {
    if !ValidBook(p, currentYear) {
      return ValidationFailed;
    }
    if IsbnTaken(db.books, p.isbn.value) {
      return Response(409, Message(IsbnConflictMessage));
    }
    var row := NewBook(p);
    if newId in db.books || !FitsColumns(row) {
      return InternalError;
    }
    db.books := db.books[newId := row];
    response := Response(201, Message(CreatedMessage));
  }

  // ---------------------------------------------------------------------------
  // Update

  /**
   * PUT /books/update/:id. `isStoreUuid` is whether the database accepts the path segment as a
   * uuid; a segment it rejects makes the query throw.
   */
  function UpdateStep(t: Tables, id: string, p: BookPayload, currentYear: int, isStoreUuid: string -> bool): (s: Step)
    ensures s.response.status in {200, 404, 422, 500}
    ensures s.response.status == 422 <==> !ValidUpdate(p, currentYear)
    ensures s.response.status == 404 <==>
              ValidUpdate(p, currentYear) && !EmptyPayload(p) && isStoreUuid(id) && id !in t.books
    // success never consults the isbn of other books or the loans
    ensures s.response.status == 200 <==>
              ValidUpdate(p, currentYear) && !EmptyPayload(p) && isStoreUuid(id) && id in t.books &&
              FitsColumns(Apply(t.books[id], p))
    ensures s.response.status != 200 ==> s.tables == t
    ensures s.response.status == 200 ==>
              && id in t.books
              && s.tables.loans == t.loans && s.tables.users == t.users
              && s.tables.books.Keys == t.books.Keys
              && (forall other :: other in t.books && other != id ==> s.tables.books[other] == t.books[other])
              && s.tables.books[id] == Apply(t.books[id], p)
  {
    if !ValidUpdate(p, currentYear) then Step(t, ValidationFailed)
    else if EmptyPayload(p) || !isStoreUuid(id) then
      // an UPDATE with nothing to SET, or a malformed uuid, makes the query throw
      Step(t, InternalError)
    else if id !in t.books then Step(t, Response(404, Message(UpdateNotFoundMessage)))
    else if !FitsColumns(Apply(t.books[id], p)) then Step(t, InternalError)
    else Step(t.(books := t.books[id := Apply(t.books[id], p)]), Response(200, Message(UpdatedMessage)))
  }

  method Update(db: Database, id: string, p: BookPayload, currentYear: int, isStoreUuid: string -> bool)
    returns (response: Response)
    requires db.Valid()
    modifies db
    ensures db.Valid()
    ensures Step(db.Snapshot(), response) == UpdateStep(old(db.Snapshot()), id, p, currentYear, isStoreUuid)
  {
    if !ValidUpdate(p, currentYear) {
      return ValidationFailed;
    }
    if EmptyPayload(p) || !isStoreUuid(id) {
      return InternalError;
    }
    if id !in db.books {
      return Response(404, Message(UpdateNotFoundMessage));
    }
    var row := Apply(db.books[id], p);
    if !FitsColumns(row) {
      return InternalError;
    }
    db.books := db.books[id := row];
    response := Response(200, Message(UpdatedMessage));
  }

  // ---------------------------------------------------------------------------
  // Delete

  /** The loans that survive the ON DELETE CASCADE of book `bookId`, in table order. */
  function WithoutBook(loans: seq<Loan>, bookId: Id): (r: seq<Loan>)
    ensures |r| <= |loans|
    ensures forall l :: l in r <==> l in loans && l.bookId != bookId
  {
    if loans == [] then []
    else
      var last := loans[|loans| - 1];
      var front := loans[..|loans| - 1];
      assert loans == front + [last];
      WithoutBook(front, bookId) + (if last.bookId != bookId then [last] else [])
  }

  /** The cascade keeps the surviving loans in table order: it distributes over concatenation. */
  lemma {:induction false} WithoutBookAppend(a: seq<Loan>, b: seq<Loan>, bookId: Id)
    ensures WithoutBook(a + b, bookId) == WithoutBook(a, bookId) + WithoutBook(b, bookId)
    decreases |b|
  {
    if b == [] {
      assert a + b == a;
    } else {
      var front := b[..|b| - 1];
      assert (a + b)[..|a + b| - 1] == a + front;
      assert (a + b)[|a + b| - 1] == b[|b| - 1];
      WithoutBookAppend(a, front, bookId);
    }
  }

  /** DELETE /books/delete/:id. */
  function DeleteStep(t: Tables, id: string, isStoreUuid: string -> bool): (s: Step)
    ensures s.response.status in {200, 404, 500}
    ensures s.response.status == 404 <==> isStoreUuid(id) && id !in t.books
    ensures s.response.status == 200 <==> isStoreUuid(id) && id in t.books
    ensures s.response.status != 200 ==> s.tables == t
    ensures s.response.status == 200 ==>
              && id in t.books
              && s.tables.users == t.users
              && s.tables.books.Keys == t.books.Keys - {id}
              && (forall other :: other in s.tables.books ==> s.tables.books[other] == t.books[other])
              && (forall l :: l in s.tables.loans <==> l in t.loans && l.bookId != id)
              && s.tables.loans == WithoutBook(t.loans, id)
  {
    if !isStoreUuid(id) then Step(t, InternalError)
    else if id !in t.books then Step(t, Response(404, Message(DeleteNotFoundMessage)))
    else Step(Tables(t.books - {id}, WithoutBook(t.loans, id), t.users), Response(200, Message(DeletedMessage)))
  }

  /** The DELETE of the book row, then the cascade through borrowedBooks. */
  method Delete(db: Database, id: string, isStoreUuid: string -> bool) returns (response: Response)
    requires db.Valid()
    modifies db
    ensures db.Valid()
    ensures Step(db.Snapshot(), response) == DeleteStep(old(db.Snapshot()), id, isStoreUuid)
  {
    if !isStoreUuid(id) {
      return InternalError;
    }
    if id !in db.books {
      return Response(404, Message(DeleteNotFoundMessage));
    }
    db.books := db.books - {id};
    var kept: seq<Loan> := [];
    var i := 0;
    while i < |db.loans|
      invariant i <= |db.loans|
      invariant kept == WithoutBook(db.loans[..i], id)
    {
      assert db.loans[..i + 1][..i] == db.loans[..i];
      if db.loans[i].bookId != id {
        kept := kept + [db.loans[i]];
      }
      i := i + 1;
    }
    assert db.loans[..i] == db.loans;
    db.loans := kept;
    response := Response(200, Message(DeletedMessage));
  }

  // ---------------------------------------------------------------------------
  // Get and list

  /** GET /books/get/:id: the answer and the row it carries. */
  function GetBook(t: Tables, id: string, isStoreUuid: string -> bool): (r: (Response, Option<Book>))
    ensures r.0.status in {200, 404, 500}
    ensures r.0.status == 200 <==> isStoreUuid(id) && id in t.books
    ensures r.0.status == 404 <==> isStoreUuid(id) && id !in t.books
    ensures r.1.Some? <==> r.0.status == 200
    ensures r.1.Some? ==> r.1.value == t.books[id]
  {
    if !isStoreUuid(id) then (InternalError, None)
    else if id !in t.books then (Response(404, Message(GetNotFoundMessage)), None)
    else (Response(200, Rows), Some(t.books[id]))
  }

  /** GET /books/list: every row, with its id, and nothing else. */
  function ListBooks(t: Tables): (rows: set<(Id, Book)>)
    ensures forall id :: id in t.books ==> (id, t.books[id]) in rows
    ensures forall row :: row in rows ==> row.0 in t.books && t.books[row.0] == row.1
  {
    set id | id in t.books :: (id, t.books[id])
  }
}

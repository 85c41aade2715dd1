# Library management API — a Dafny model of its business rules

The library-management service is a REST API over three Postgres tables:
- `books`, keyed by id;
- `borrowedBooks` (loans), whose rows reference a user and a book with cascading deletes;
- `users`.

This project models the rules that the route handlers and middlewares apply to those tables. It models them as in-memory data and proves properties of the model.

The model has nine modules:

- `Common` holds the values every route shares: an `Option`, and a handler's `Response` (status and body).
- `Store` holds the three tables, as a value (`Tables`) and as a mutable `Database` class with the same fields.
  - `RefIntegrity` is the foreign-key integrity the schema enforces.
  - `Consistent` is `RefIntegrity` plus the two invariants nothing in the schema enforces: a book is unavailable exactly when an unreturned loan references it, and no book is lent twice at once.
- `Borrowing` models the `/borrow` routes: borrow, extend and return. Each handler is a step function `XStep` on `Tables` that states its meaning. A method `X` on a `Database` performs the same writes one after the other; the rows an UPDATE touches are rewritten in a loop. Each method's postcondition ties the new database state to its step function.
- `Catalog` models the `/books` routes: the field rules of the book schema and its partial form, then create, update, delete (with the cascade through `borrowedBooks`), get and list.
- `LoanInvariant` states which handlers keep `Consistent` and which break it.
  - It gives the general breaking conditions and a concrete four-request trace.
  - It also covers the borrow limit as written and as intended.
- `RoleGuard` models the role middleware: 401, 403 or `next`.
- `Session` models the authentication middleware's decision over the two signed cookies. `GuardGroup` composes that middleware with the role middleware, as both are mounted on `/books/*` and `/borrow/*`.
- `Accounts` models registration (role segment, check order, insert, cookies) and login.
- `Overdue` models the daily overdue scan: the reminders it owes, and the loop that sends them and stops at the first failed send.

Foreign code becomes a parameter:
- token verification and signing (`verify`, `mint`);
- password hashing and comparison (`hash`, `compare`);
- the email pattern and the email check used at registration (`emailFormat`, `emailCheck`);
- the validator's UUID test (`isUuid`) and the database's acceptance of a path segment as a uuid (`isStoreUuid`);
- whether an email send completes (`mailSent`, `delivered`);
- the ids and timestamps the database and the clock supply, and the current year of the book schemas. That year is read once, when the module loads, so a server running past New Year keeps the year it started in.

Dates reach the model already parsed, as integers, or `None` when they do not parse.

The handlers abort with a 500 when the database throws, and the model makes each such case explicit:
- a collision of the generated primary key;
- a foreign-key violation;
- a varchar overflow;
- a malformed uuid in a path;
- an UPDATE with nothing to SET.

Some behaviours of the code are easy to misread, and the model keeps them as written:
- Registration runs its password and email schemas inside the handler and answers their failures with 400. The book and borrow handlers also run their schemas inside the handler, but answer a failure with 422.
- An access token that fails verification ends the request with 401 "Invalid token". The request does not fall through to the refresh token.
- The email check at registration refuses when `isEmailAvailable` returns true. The helper's name suggests it is true for a free address; see Findings.
- The overdue scan awaits each send without a catch, so the first send that throws ends the scan and later users get nothing.

## Model

| member | source | states |
|---|---|---|
| Store.FirstWithEmail | src/routes/middleware/auth-middleware.ts:28-30 | The lookup by email gives the first row with that email. It gives nothing exactly when no row has it. |
| Store.SameLoanKeysKeepConsistency | src/routes/borrow/index.ts:110-114 | Rewriting columns of loans other than borrower, book and returned flag keeps the foreign keys and the availability invariant. |
| Borrowing.ActiveCount | src/routes/borrow/index.ts:39-47 | The count of the caller's unreturned loans is at most the table size. It is zero exactly when the caller has no unreturned loan. |
| Borrowing.BorrowStep | src/routes/borrow/index.ts:26-93 | 422 exactly for an invalid book id, caller id or date. 403 exactly when the limit test fires. 404 exactly when the checks pass and the book is absent or unavailable. 403/404/422 change nothing. The writes (one appended loan for the caller, the body's user_id ignored, and that book marked unavailable) happen exactly when every check passes, the caller's row exists and the loan id is fresh. 201 exactly when the writes happened and the notification succeeded; a failed notification gives 500 with the writes kept. |
| Borrowing.Borrow | src/routes/borrow/index.ts:39-89 | Performs the count query, the availability check, the insert and the flip in order. The new state and answer are those of BorrowStep, and the foreign keys still hold. |
| Borrowing.ExtendStep | src/routes/borrow/index.ts:96-131 | 422 exactly for invalid input. 404 exactly when no loan has that id; non-200 changes nothing. 200 rewrites only the due date of the loans with that id, returned or not. |
| Borrowing.Extend | src/routes/borrow/index.ts:108-121 | The UPDATE loop leaves the state and answer of ExtendStep and keeps the foreign keys. |
| Borrowing.ReturnStep | src/routes/borrow/index.ts:138-181 | 422 exactly for invalid ids. 404 exactly when no loan matches; non-200 changes nothing. 200 closes every matching loan (returned, due date cleared), marks the book available and leaves everything else as it was. |
| Borrowing.Return | src/routes/borrow/index.ts:150-171 | The UPDATE loop, then the book UPDATE, leave the state and answer of ReturnStep and keep the foreign keys. |
| Borrowing.SameKeysAfterReturn | src/routes/borrow/index.ts:150-159 | Closing loans keeps the foreign keys. |
| Catalog.Apply | src/routes/books/index.ts:85-89 | The updated row takes each supplied field and keeps every absent one. An empty payload changes nothing. |
| Catalog.NewBook | src/routes/books/index.ts:56-59 | The inserted row carries the given fields. It is available unless the client sent false. |
| Catalog.ValidBookIsCompleteUpdate | src/routes/books/index.ts:9-24 | The create schema is exactly the partial schema with title, author, isbn and year present. |
| Catalog.ValidBookStoresGoodRow | src/routes/books/index.ts:9-23 | A valid create payload stores a row with non-empty title and author, isbn length in [7,13] and year in [1900, current year]. |
| Catalog.ValidUpdateKeepsGoodRow | src/routes/books/index.ts:24 | A valid partial update keeps a row that met the field rules within them. |
| Catalog.CreateStep | src/routes/books/index.ts:26-66 | 422 exactly for an invalid payload. 409 exactly when the isbn is held by some book. 201 exactly for a valid payload with a free isbn, a fresh id and fitting columns; a year equal to the year the schema was built (the year the server started) is valid. Non-201 changes nothing. 201 adds exactly one book, with the given fields, and leaves the other books and the loans alone. |
| Catalog.Create | src/routes/books/index.ts:45-61 | The isbn query and the insert leave the state and answer of CreateStep. |
| Catalog.UpdateStep | src/routes/books/index.ts:68-100 | 422 exactly for a payload breaking a rule. 404 exactly for an unknown well-formed id. 200 exactly for a valid non-empty payload on a known well-formed id whose updated row fits the columns, so isbn uniqueness and loans are never consulted. Non-200 changes nothing. 200 rewrites only the supplied fields of that book. |
| Catalog.Update | src/routes/books/index.ts:85-92 | The UPDATE leaves the state and answer of UpdateStep. |
| Catalog.WithoutBook | drizzle/models/borrowed-books.ts:14-19 | The cascade keeps exactly the loans of other books. |
| Catalog.WithoutBookAppend | drizzle/models/borrowed-books.ts:14-19 | The cascade keeps the surviving loans in table order: it distributes over concatenation. |
| Catalog.DeleteStep | src/routes/books/index.ts:102-116 | 404 exactly for an unknown well-formed id, and 200 exactly for a known well-formed one; non-200 changes nothing. 200 removes exactly that book and every loan referencing it, and the surviving loans are those of the cascade, in table order. |
| Catalog.Delete | src/routes/books/index.ts:105-108 | The DELETE and the cascade loop leave the state and answer of DeleteStep. |
| Catalog.GetBook | src/routes/books/index.ts:118-132 | 200 with the stored row exactly for a known id. 404 exactly for an unknown well-formed id. |
| Catalog.ListBooks | src/routes/books/index.ts:134-141 | The list holds every book of the table, and only those. |
| LoanInvariant.BorrowPreservesConsistency | src/routes/borrow/index.ts:57-77 | A borrow, with either limit test, keeps the invariant. |
| LoanInvariant.ExtendPreservesConsistency | src/routes/borrow/index.ts:110-114 | An extension keeps the invariant. |
| LoanInvariant.ReturnPreservesConsistency | src/routes/borrow/index.ts:150-171 | A return keeps the invariant when nobody else holds the book. Matching only unreturned loans, it always keeps it. |
| LoanInvariant.ReturnFreesHeldBook | src/routes/borrow/index.ts:150-171 | As written, a successful return for a user while another user holds the book marks it available during that loan, breaking the invariant. |
| LoanInvariant.TraceAliceBorrows | src/routes/borrow/index.ts:66-89 | First step of the trace: a borrow on the empty loan table gives 201 and the expected tables. |
| LoanInvariant.TraceAliceReturns | src/routes/borrow/index.ts:150-176 | Second step: the borrower's return gives 200 and frees the book. |
| LoanInvariant.TraceBobBorrows | src/routes/borrow/index.ts:66-89 | Third step: another user borrows the freed book. |
| LoanInvariant.TraceAliceReturnsAgain | src/routes/borrow/index.ts:150-176 | Fourth step: a repeated return for the first borrower gives 200 and marks the held book available. |
| LoanInvariant.SecondReturnTrace | src/routes/borrow/index.ts:150-171 | The four states before the last request are consistent, the last request succeeds, and the final state is not consistent. |
| LoanInvariant.BorrowThenReturn | src/routes/borrow/index.ts:66-171 | After a borrow that wrote its rows, the borrower's return succeeds, closes that loan, frees the book and keeps the invariant. |
| LoanInvariant.ReturnTwice | src/routes/borrow/index.ts:150-166 | A second identical return leaves the tables as the first left them. As written it answers 200 again; matching only unreturned loans, it does not. |
| LoanInvariant.AsWrittenLimitNeverRejects | src/routes/borrow/index.ts:49-54 | As written, the borrow handler never answers 403. |
| LoanInvariant.ActiveCountAppend | src/routes/borrow/index.ts:39-47 | Appending a loan raises the caller's count by one exactly when that loan is the caller's and unreturned. |
| LoanInvariant.IntendedLimitCapsActiveLoans | src/routes/borrow/index.ts:38-54 | With the intended test, a borrow never takes the caller past three unreturned loans. |
| LoanInvariant.FourthBorrowAccepted | src/routes/borrow/index.ts:49 | A caller holding three unreturned loans borrows a fourth book as written (201, four active). The intended test refuses it with 403. |
| LoanInvariant.CreatePreservesConsistency | src/routes/books/index.ts:56-59 | Creating a book keeps the invariant unless it is stored as unavailable. |
| LoanInvariant.CreateUnavailableBreaksConsistency | src/routes/books/index.ts:56-59 | A created book stored as unavailable breaks the invariant. |
| LoanInvariant.UpdatePreservesConsistency | src/routes/books/index.ts:85-89 | An update that leaves is_available as it was keeps the invariant. |
| LoanInvariant.UpdateFlipBreaksConsistency | src/routes/books/index.ts:85-89 | A successful update that flips is_available breaks the invariant. |
| LoanInvariant.DeletePreservesConsistency | src/routes/books/index.ts:105-108 | Deleting a book with its loans keeps the invariant. |
| LoanInvariant.WithoutBookKeepsOneActive | drizzle/models/borrowed-books.ts:14-19 | The cascade never puts a book under two active loans. |
| RoleGuard.Authorize | src/routes/middleware/role-middleware.ts:4-21 | No user gives 401. With a user, the request proceeds exactly when the reference table permits the role: the required role always, a student also for GET. It is forbidden otherwise. |
| RoleGuard.GateResponse | src/routes/middleware/role-middleware.ts:7-20 | The middleware answers itself exactly when it does not call next: 401 for no user, 403 for a refusal. |
| RoleGuard.GroupGate | src/index.ts:15-18 | With the LIBRARIAN requirement of /books and /borrow, a librarian passes for every method and a student exactly for GET. No user gives 401. |
| RoleGuard.OnlyRoleMatters | src/routes/middleware/role-middleware.ts:13-16 | Two users with the same role get the same decision. |
| RoleGuard.GetIsLeastRestricted | src/routes/middleware/role-middleware.ts:13-16 | Whatever method is allowed, GET is allowed too. |
| Session.SignedCookie | src/routes/middleware/auth-middleware.ts:39-44 | Every cookie set is HTTP-only, strict same-site, and secure exactly in production. |
| Session.ResolveSession | src/routes/middleware/auth-middleware.ts:10-54 | Every refusal is 401. "No token provided" exactly when neither cookie reads back present. With an access token, the request continues exactly when it verifies and its email finds a row; the first row with that email becomes the user and no cookie is set. An access token that fails verification gives "Invalid token"; one whose email finds no row gives "User not found". With only a refresh token that verifies, the request continues with the claims as the user and a new 900-second access cookie. One that verifies to nothing continues with no user; one whose verification throws gives "Invalid token". |
| Session.AccessTokenIgnoresRefresh | src/routes/middleware/auth-middleware.ts:26-34 | When an access token is present, the refresh cookie has no influence on the outcome. |
| Session.GuardGroup | src/index.ts:15-18 | The handler runs exactly when the session continued with a user whose role the role table permits. An authentication refusal is passed on unchanged; a continued session with no user gets 401 "No user found", and a user whose role is not permitted gets 403 "Forbidden: Access denied". |
| Session.FalsyRefreshStopsAtRoleGate | src/routes/middleware/auth-middleware.ts:35-49 | A refresh token that verifies to nothing passes authentication with no user, then gets 401 at the role gate. |
| Session.SessionUserOrigin | src/routes/middleware/auth-middleware.ts:26-49 | A continued session's user is a row of the users table, or the claims of a verified refresh token. |
| Session.RemovedUserStillServed | src/routes/middleware/auth-middleware.ts:35-49 | A librarian whose row is gone still passes both middlewares for any method through the refresh path. |
| Accounts.UpperChar | src/routes/auth/index.ts:32 | ASCII lower-case letters become their upper-case forms; every other character is unchanged. |
| Accounts.Upper | src/routes/auth/index.ts:32 | Upper-casing keeps the length and maps each character. |
| Accounts.UpperIdempotent | src/routes/auth/index.ts:32 | Upper-casing twice equals upper-casing once. |
| Accounts.ParseRole | src/routes/auth/index.ts:32-36 | The segment names LIBRARIAN or STUDENT exactly when its upper-cased form is that value. Otherwise it names no role. |
| Accounts.ParseRoleIgnoresCase | src/routes/auth/index.ts:32-36 | Upper-casing the segment beforehand never changes the role. |
| Accounts.ParseRoleExamples | src/routes/auth/index.ts:32-36 | "librarian" and "Student" are accepted; "admin" is not. |
| Accounts.PasswordProblem | src/routes/auth/index.ts:20-23 | The password passes exactly when it is a string of 6 to 12 characters. The too-short and too-long messages appear exactly in their cases. |
| Accounts.EmailProblem | src/routes/auth/index.ts:25-27 | The email passes exactly when it is a string the address pattern accepts. |
| Accounts.SessionCookies | src/routes/auth/index.ts:76-90 | Two cookies: lb_token carrying a 900-second token with maxAge 900, and lb_refresh_token carrying a 604800-second token with maxAge 604800. |
| Accounts.Candidate | src/routes/auth/index.ts:61-70 | The row to insert stores the hash of the password, never the plaintext. It exists exactly when a username was sent. |
| Accounts.RegisterStep | src/routes/auth/index.ts:29-97 | The checks run in the order role, password, email format, email check; the first failure decides the 400 and nothing changes. "Email already exist!" exactly when the earlier checks pass and the email check is true. Past the checks, a refused insert answers 500 and nothing else does. 200 appends exactly the new row with the hashed password and sets both session cookies. |
| Accounts.LoginStep | src/routes/auth/index.ts:99-132 | 200 exactly when a row has the email and the password matches its stored hash. It then answers with the first row with that email and both cookies. Every other case gives the same 401 "Invalid credentials" and no cookie. |
| Accounts.LoginHidesCause | src/routes/auth/index.ts:107-109 | An unknown email and a wrong password give identical results. |
| Accounts.FirstWithEmailAppend | src/routes/auth/index.ts:102-105 | A row appended with a fresh email is the one a lookup by that email finds. |
| Accounts.RegisterThenLogin | src/routes/auth/index.ts:29-127 | After a successful registration, logging in with the same email and password succeeds as the new row, with the same cookies. This holds when `compare` accepts a password against its own hash. |
| Accounts.RegisterPreservesConsistency | src/routes/auth/index.ts:63-71 | Registration keeps the library's invariant. |
| Accounts.AvailabilityReadingBlocksRegistration | src/routes/auth/index.ts:58-59 | Read as "true when no row has the address", the email check turns away every new address, and no registration can succeed. |
| Accounts.EmailCheckGuardsUniqueness | src/routes/auth/index.ts:58-59 | Read as "true when the address is taken", a well-formed request for a taken address answers "Email already exist!", a fresh address passes to the insert (200 exactly when the insert is accepted), a 500 never comes from a taken address, and a registered address is found as the new row. |
| Accounts.Register | src/routes/auth/index.ts:29-97 | The handler's insert leaves the state, answer and cookies of RegisterStep and keeps the foreign keys. |
| Overdue.OverdueLoans | src/utils/index.ts:15-24 | A loan is listed for a user exactly when it belongs to that user, is unreturned, and has a due date strictly before now. |
| Overdue.OverdueLoansAppend | src/utils/index.ts:15-24 | The filter commutes with concatenation, so the overdue loans keep the table order. |
| Overdue.Titles | src/utils/index.ts:27-34 | The k-th title is the title of the k-th overdue loan's book. |
| Overdue.Join | src/utils/index.ts:36 | Joining gives the empty string for no titles. Otherwise it starts with the first title and its length is the titles' total plus one separator per gap. |
| Overdue.JoinAppend | src/utils/index.ts:36 | Joining two non-empty lists is joining each with one separator between them. |
| Overdue.ReminderFor | src/utils/index.ts:26-42 | A user gets a reminder exactly when they have an overdue loan. It goes to the user's email, with the fixed subject and the overdue titles in its text. |
| Overdue.SingleOverdueTitle | src/utils/index.ts:27-41 | With a single overdue loan, the text names exactly that book's title. |
| Overdue.Reminders | src/utils/index.ts:10-45 | The scan produces no more reminders than there are users, and each reminder is the one owed to some user of the table. |
| Overdue.RemindersSnoc | src/utils/index.ts:14-44 | One more user appends their reminder, if they are owed one, at the end. |
| Overdue.Reminded | src/utils/index.ts:14-26 | The users owed a reminder are exactly those with an overdue loan. |
| Overdue.RemindedAppend | src/utils/index.ts:14-26 | The owed users keep table order: the list for a concatenation of user tables is the concatenation of their lists. |
| Overdue.RemindersFollowUsers | src/utils/index.ts:14-42 | The k-th reminder is the reminder of the k-th user owed one, so there is exactly one per such user, in the order of the users table. |
| Overdue.RemindersPrefix | src/utils/index.ts:14-44 | Scanning a prefix of the users produces a prefix of the reminders. |
| Overdue.CheckDueDates | src/utils/index.ts:10-45 | Every loan's book has a title to look up. The sends attempted are a prefix of the owed reminders. Either all of them were attempted and delivered, or the scan stopped right after the first failed send. |
| Overdue.DueNowIsNotOverdue | src/utils/index.ts:22 | A loan due exactly now is not yet overdue. |

## Left out

- Request parsing and JSON typing: the routes' `c.req.json()`, and bodies that are not JSON (500 from the parse) or carry wrongly typed fields. A missing or non-string register field is modelled as `None`; login takes its email and password as strings.
- Response bodies beyond status and message: the returned rows (`borrow`, `book`, `user`), and the validator's full issue lists.
- A successful registration or login echoes the user row, hashed password included. The model's body carries only the message.
- Token signing and verification, password hashing and comparison, cookie signatures, and the email check all live in `~utils/auth`. That module is not part of this model, so these are parameters.
  - Lifetimes are given to `mint` in seconds, where the code passes `'15m'` and `'7d'`.
  - Whether signing the decoded refresh claims again succeeds is not modelled.
- The zod UUID and email patterns and dayjs date parsing are foreign libraries, so they are parameters. Dates are integers.
- Email delivery (`~utils/email`) is a success flag. The borrow notification addressed to a user id is not modelled beyond that flag.
- The node-cron schedule, `process.env`, `Bun.serve`, the documentation page, and `src/utils/render-md.ts` are left out.
- Concurrency and transactions: races between the limit check, the availability check and the writes are not modelled. Each request runs alone.
- Row order of SQL queries without ORDER BY: the model takes table order.
- Store failures not caused by the data are left out: a lost connection, a timeout.
- An error thrown by a route after `next()` inside the authentication middleware's try block is left out.
- The role segment's upper-casing covers ASCII letters only. JavaScript's full Unicode case mapping is left out.
- Lengths are counted in Unicode characters, not UTF-16 code units.
- Book years are integers; a fractional year is not modelled.
- Accounts.Register: the `!newUser` branch (500 "User registration failed") is not modelled. An insert that succeeds always returns its row.
- Catalog.UpdateStep: the behaviour of an UPDATE with an empty SET is taken to be a throw (500).

## Findings

| source | as written | input that shows it | evidently intended | confidence | as-written member | corrected member |
|---|---|---|---|---|---|---|
| src/routes/borrow/index.ts:49 | The limit compares the number of rows of a count aggregate with 3, and that aggregate always yields one row. | A caller holding three unreturned loans asks for a fourth available book and gets 201; they now hold four. | Refuse with 403 when the caller's count of unreturned loans is at least 3. | high; not executed | LoanInvariant.FourthBorrowAccepted | LoanInvariant.IntendedLimitCapsActiveLoans |
| src/routes/borrow/index.ts:150-171 | The return updates every loan of that book and user, returned or not, then marks the book available. | Alice borrows and returns a book, Bob borrows it, and a second return for Alice answers 200 and marks the book available while Bob's loan is open. | Close only the caller's unreturned loan, so a 200 never frees a book someone else holds. | high; not executed | LoanInvariant.SecondReturnTrace | LoanInvariant.ReturnPreservesConsistency |
| src/routes/auth/index.ts:58-59 | Registration is refused when `isEmailAvailable(email)` is true. | If that helper is true for an address no user has, a fresh address gets 400 "Email already exist!", and a taken one reaches the insert and fails with 500. | Refuse when the address is already taken. | low, since the helper's code is not part of this model; not executed | Accounts.AvailabilityReadingBlocksRegistration | Accounts.EmailCheckGuardsUniqueness |

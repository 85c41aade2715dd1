/**
 * The /auth routes: registration under a role taken from the path, and login. Both answer with
 * the two session cookies on success; registration also inserts a users row.
 */
module Accounts {
  import opened Common
  import opened Store
  import opened Session

  // ---------------------------------------------------------------------------
  // The role path segment

  /** Upper-casing of one character, on the ASCII letters. */
  function UpperChar(c: char): (u: char)
    ensures 'a' <= c <= 'z' ==> 'A' <= u <= 'Z' && u as int - c as int == 'A' as int - 'a' as int
    ensures !('a' <= c <= 'z') ==> u == c
  {
    if 'a' <= c <= 'z' then (c as int - 'a' as int + 'A' as int) as char else c
  }

  function Upper(s: string): (r: string)
    ensures |r| == |s| && forall i :: 0 <= i < |s| ==> r[i] == UpperChar(s[i])
  {
    seq(|s|, i requires 0 <= i < |s| => UpperChar(s[i]))
  }

  /** Upper-casing twice is upper-casing once. */
  lemma UpperIdempotent(s: string)
    ensures Upper(Upper(s)) == Upper(s)
  {
    assert forall i :: 0 <= i < |s| ==> UpperChar(UpperChar(s[i])) == UpperChar(s[i]);
  }

  /** The role named by the path segment, compared after upper-casing with the enumeration's values. */
  function ParseRole(segment: string): (r: Option<Role>)
    ensures r == Some(Librarian) <==> Upper(segment) == "LIBRARIAN"
    ensures r == Some(Student) <==> Upper(segment) == "STUDENT"
    ensures r.None? <==> Upper(segment) != "LIBRARIAN" && Upper(segment) != "STUDENT"
  {
    var u := Upper(segment);
    if u == "LIBRARIAN" then Some(Librarian)
    else if u == "STUDENT" then Some(Student)
    else None
  }

  /** The segment's letter case never matters. */
  lemma ParseRoleIgnoresCase(segment: string)
    ensures ParseRole(Upper(segment)) == ParseRole(segment)
  {
    UpperIdempotent(segment);
  }

  lemma ParseRoleExamples()
    ensures ParseRole("librarian") == Some(Librarian)
    ensures ParseRole("Student") == Some(Student)
    ensures ParseRole("admin").None?
  {
    assert Upper("librarian") == "LIBRARIAN";
    assert Upper("Student") == "STUDENT";
    assert Upper("admin")[0] == 'A';
  }

  // ---------------------------------------------------------------------------
  // Field checks

  const MinPassword := 6
  const MaxPassword := 12

  const NotAString := "Expected string"
  const PasswordTooShort := "Password must be at least 6 characters long"
  const PasswordTooLong := "Password must be at most 12 characters long"
  const BadEmailFormat := "Invalid email format"

  /** The password rule: a string of 6 to 12 characters; `Some(reason)` when it fails. */
  function PasswordProblem(password: Option<string>): (r: Option<string>)
    ensures r.None? <==> password.Some? && MinPassword <= |password.value| <= MaxPassword
    ensures r == Some(PasswordTooShort) <==> password.Some? && |password.value| < MinPassword
    ensures r == Some(PasswordTooLong) <==> password.Some? && |password.value| > MaxPassword
  {
    match password
    case None => Some(NotAString)
    case Some(p) =>
      if |p| < MinPassword then Some(PasswordTooShort)
      else if |p| > MaxPassword then Some(PasswordTooLong)
      else None
  }

  /** The email rule: a string the address pattern `emailFormat` accepts. */
  function EmailProblem(email: Option<string>, emailFormat: string -> bool): (r: Option<string>)
    ensures r.None? <==> email.Some? && emailFormat(email.value)
  {
    match email
    case None => Some(NotAString)
    case Some(e) => if emailFormat(e) then None else Some(BadEmailFormat)
  }

  // ---------------------------------------------------------------------------
  // Registration and login

  /** The JSON body of a registration; a field is `None` when absent or not a string. */
  datatype RegisterRequest = RegisterRequest(username: Option<string>, password: Option<string>, email: Option<string>)

  /** A handler's result together with the cookies it sets. */
  datatype Issued = Issued(tables: Tables, response: Response, cookies: seq<Cookie>)

  const InvalidRole := Response(400, Message("Invalid role"))
  const EmailExists := Response(400, Message("Email already exist!"))
  const RegisteredMessage := "User registered successfully"
  const InvalidCredentials := Response(401, Message("Invalid credentials"))
  const LoginMessage := "Login successful"

  /** The access and refresh cookies that open a session for `u`, each as long-lived as its token. */
  function SessionCookies(u: User, mint: (User, nat) -> string, production: bool): (cs: seq<Cookie>)
    ensures |cs| == 2
    ensures cs[0] == SignedCookie(AccessCookieName, mint(u, AccessLifetime), AccessLifetime, production)
    ensures cs[1] == SignedCookie(RefreshCookieName, mint(u, RefreshLifetime), RefreshLifetime, production)
  {
    [SignedCookie(AccessCookieName, mint(u, AccessLifetime), AccessLifetime, production),
     SignedCookie(RefreshCookieName, mint(u, RefreshLifetime), RefreshLifetime, production)]
  }

  /** Whether the users table accepts the row: not-null, varchar(255), unique email and a fresh key. */
  predicate InsertAccepted(users: seq<User>, u: Option<User>) {
    u.Some? && |u.value.username| <= VarcharMax && |u.value.password| <= VarcharMax && |u.value.email| <= VarcharMax &&
    !EmailTaken(users, u.value.email) && !UserExists(users, u.value.id)
  }

  /** The row registration tries to insert; `None` when the username is missing. */
  function Candidate(role: Role, req: RegisterRequest, newId: Id, hash: string -> string): (u: Option<User>)
    requires req.password.Some? && req.email.Some?
    ensures u.Some? <==> req.username.Some?
    ensures u.Some? ==> u.value == User(newId, req.username.value, hash(req.password.value), req.email.value, role)
  {
    if req.username.Some? then Some(User(newId, req.username.value, hash(req.password.value), req.email.value, role))
    else None
  }

  /**
   * Registration. `emailCheck` stands for the email check the route consults, `hash` for password
   * hashing, `mint` for token signing and `newId` for the key the database generates.
   */
  function RegisterStep(t: Tables, segment: string, req: RegisterRequest, newId: Id, emailFormat: string -> bool,
                        emailCheck: string -> bool, hash: string -> string, mint: (User, nat) -> string,
                        production: bool): (r: Issued)
    ensures r.response.status in {200, 400, 500}
    ensures r.response.status != 200 ==> r.tables == t && r.cookies == []
    // the checks in their order: role, password, email format, email in use
    ensures ParseRole(segment).None? ==> r.response == InvalidRole
    ensures ParseRole(segment).Some? && PasswordProblem(req.password).Some? ==>
              r.response == Response(400, Invalid(PasswordProblem(req.password).value))
    ensures ParseRole(segment).Some? && PasswordProblem(req.password).None? && EmailProblem(req.email, emailFormat).Some? ==>
              r.response == Response(400, Invalid(EmailProblem(req.email, emailFormat).value))
    ensures r.response == EmailExists <==>
              ParseRole(segment).Some? && PasswordProblem(req.password).None? && EmailProblem(req.email, emailFormat).None? &&
              emailCheck(req.email.value)
    // past the checks, only the insert can fail
    ensures r.response.status == 500 ==> r.response == InternalError
    ensures ParseRole(segment).Some? && PasswordProblem(req.password).None? && EmailProblem(req.email, emailFormat).None? &&
            !emailCheck(req.email.value) && !InsertAccepted(t.users, Candidate(ParseRole(segment).value, req, newId, hash)) ==>
              r.response == InternalError
    ensures r.response.status == 200 <==>
              ParseRole(segment).Some? && PasswordProblem(req.password).None? && EmailProblem(req.email, emailFormat).None? &&
              !emailCheck(req.email.value) &&
              InsertAccepted(t.users, Candidate(ParseRole(segment).value, req, newId, hash))
    // success: one new row holding the hashed password, and both session cookies for it
    ensures r.response.status == 200 ==>
              r.response == Response(200, Message(RegisteredMessage)) &&
              var u := User(newId, req.username.value, hash(req.password.value), req.email.value, ParseRole(segment).value);
              r.tables == t.(users := t.users + [u]) && r.cookies == SessionCookies(u, mint, production)
  {
    match ParseRole(segment)
    case None => Issued(t, InvalidRole, [])
    case Some(role) =>
      if PasswordProblem(req.password).Some? then Issued(t, Response(400, Invalid(PasswordProblem(req.password).value)), [])
      else if EmailProblem(req.email, emailFormat).Some? then Issued(t, Response(400, Invalid(EmailProblem(req.email, emailFormat).value)), [])
      else if emailCheck(req.email.value) then Issued(t, EmailExists, [])
      else
        var candidate := Candidate(role, req, newId, hash);
        if !InsertAccepted(t.users, candidate) then Issued(t, InternalError, [])
        else
          var u := candidate.value;
          Issued(t.(users := t.users + [u]), Response(200, Message(RegisteredMessage)), SessionCookies(u, mint, production))
  }

  /** What login gives back: the answer, the cookies and the user it answers with. */
  datatype LoginResult = LoginResult(response: Response, cookies: seq<Cookie>, user: Option<User>)

  /** Login: the row with that email, if its stored password matches by `compare`. */
  function LoginStep(users: seq<User>, email: string, password: string, compare: (string, string) -> bool,
                     mint: (User, nat) -> string, production: bool): (r: LoginResult)
    ensures r.response.status == 200 <==>
              FirstWithEmail(users, email).Some? && compare(password, FirstWithEmail(users, email).value.password)
    ensures r.response.status != 200 ==> r == LoginResult(InvalidCredentials, [], None)
    ensures r.response.status == 200 ==>
              r.response == Response(200, Message(LoginMessage)) && r.user.Some? &&
              r.user.value in users && r.user.value.email == email && r.user == FirstWithEmail(users, email) &&
              r.cookies == SessionCookies(r.user.value, mint, production)
  {
    match FirstWithEmail(users, email)
    case None => LoginResult(InvalidCredentials, [], None)
    case Some(u) =>
      if !compare(password, u.password) then LoginResult(InvalidCredentials, [], None)
      else
        assert u in users by {
          var i :| 0 <= i < |users| && users[i] == u && forall j :: 0 <= j < i ==> users[j].email != email;
        }
        LoginResult(Response(200, Message(LoginMessage)), SessionCookies(u, mint, production), Some(u))
  }

  /** An unknown email and a wrong password are indistinguishable to the client. */
  lemma LoginHidesCause(users: seq<User>, email: string, password: string, email': string, password': string,
                        compare: (string, string) -> bool, mint: (User, nat) -> string, production: bool)
    requires !EmailTaken(users, email)
    requires FirstWithEmail(users, email').Some? && !compare(password', FirstWithEmail(users, email').value.password)
    ensures LoginStep(users, email, password, compare, mint, production) ==
            LoginStep(users, email', password', compare, mint, production)
  {
  }

  /** Appending a row whose email nobody has leaves it the first row with that email. */
  lemma {:induction false} FirstWithEmailAppend(users: seq<User>, u: User)
    requires !EmailTaken(users, u.email)
    ensures FirstWithEmail(users + [u], u.email) == Some(u)
  {
    if users != [] {
      assert (users + [u])[1..] == users[1..] + [u];
      assert users[0] in users;
      assert !EmailTaken(users[1..], u.email) by {
        forall v | v in users[1..] ensures v.email != u.email {
          assert v in users;
        }
      }
      FirstWithEmailAppend(users[1..], u);
    }
  }

  /**
   * Registration then login: when `compare` accepts a password against its own hash, the
   * credentials just registered log in as the new row, with the same cookies.
   */
  lemma RegisterThenLogin(t: Tables, segment: string, req: RegisterRequest, newId: Id, emailFormat: string -> bool,
                          emailCheck: string -> bool, hash: string -> string, compare: (string, string) -> bool,
                          mint: (User, nat) -> string, production: bool)
    requires RegisterStep(t, segment, req, newId, emailFormat, emailCheck, hash, mint, production).response.status == 200
    requires compare(req.password.value, hash(req.password.value))
    ensures var r := RegisterStep(t, segment, req, newId, emailFormat, emailCheck, hash, mint, production);
            var l := LoginStep(r.tables.users, req.email.value, req.password.value, compare, mint, production);
            l.response.status == 200 && l.user == Some(r.tables.users[|t.users|]) && l.cookies == r.cookies
  {
    var r := RegisterStep(t, segment, req, newId, emailFormat, emailCheck, hash, mint, production);
    var u := r.tables.users[|t.users|];
    assert r.tables.users == t.users + [u];
    FirstWithEmailAppend(t.users, u);
  }

  /** Registration touches neither books nor loans, so the library's invariant survives it. */
  lemma RegisterPreservesConsistency(t: Tables, segment: string, req: RegisterRequest, newId: Id,
                                     emailFormat: string -> bool, emailCheck: string -> bool, hash: string -> string,
                                     mint: (User, nat) -> string, production: bool)
    requires Consistent(t)
    ensures Consistent(RegisterStep(t, segment, req, newId, emailFormat, emailCheck, hash, mint, production).tables)
  {
    var t' := RegisterStep(t, segment, req, newId, emailFormat, emailCheck, hash, mint, production).tables;
    forall l | l in t'.loans
      ensures UserExists(t'.users, l.userId)
    {
      var v :| v in t.users && v.id == l.userId;
      assert v in t'.users;
    }
  }

  /**
   * Read as its name says (true when no row has the address), the email check turns away every
   * new address and lets only taken ones reach the insert, which the unique constraint refuses:
   * no registration can succeed.
   */
  lemma AvailabilityReadingBlocksRegistration(t: Tables, segment: string, req: RegisterRequest, newId: Id,
                                              emailFormat: string -> bool, emailCheck: string -> bool,
                                              hash: string -> string, mint: (User, nat) -> string, production: bool)
    requires forall e :: emailCheck(e) == !EmailTaken(t.users, e)
    ensures var r := RegisterStep(t, segment, req, newId, emailFormat, emailCheck, hash, mint, production);
            && r.response.status != 200
            && (ParseRole(segment).Some? && PasswordProblem(req.password).None? &&
                EmailProblem(req.email, emailFormat).None? && !EmailTaken(t.users, req.email.value)
                ==> r.response == EmailExists)
  {
  }

  /**
   * Read as the route's "already exist" answer intends (true when some row has the address), the
   * email check answers a taken address itself, so the unique constraint never produces the 500,
   * lets every fresh address through to the insert, and a registered address belongs to the new row alone.
   */
  lemma EmailCheckGuardsUniqueness(t: Tables, segment: string, req: RegisterRequest, newId: Id,
                                   emailFormat: string -> bool, emailCheck: string -> bool, hash: string -> string,
                                   mint: (User, nat) -> string, production: bool)
    requires forall e :: emailCheck(e) == EmailTaken(t.users, e)
    ensures var r := RegisterStep(t, segment, req, newId, emailFormat, emailCheck, hash, mint, production);
            ParseRole(segment).Some? && PasswordProblem(req.password).None? && EmailProblem(req.email, emailFormat).None? ==>
              (r.response == EmailExists <==> EmailTaken(t.users, req.email.value))
    ensures var r := RegisterStep(t, segment, req, newId, emailFormat, emailCheck, hash, mint, production);
            ParseRole(segment).Some? && PasswordProblem(req.password).None? && EmailProblem(req.email, emailFormat).None? &&
            !EmailTaken(t.users, req.email.value) ==>
              (r.response.status == 200 <==> InsertAccepted(t.users, Candidate(ParseRole(segment).value, req, newId, hash)))
    ensures var r := RegisterStep(t, segment, req, newId, emailFormat, emailCheck, hash, mint, production);
            r.response == InternalError ==> !EmailTaken(t.users, req.email.value)
    ensures var r := RegisterStep(t, segment, req, newId, emailFormat, emailCheck, hash, mint, production);
            r.response.status == 200 ==> FirstWithEmail(r.tables.users, req.email.value) == Some(r.tables.users[|t.users|])
  {
    var r := RegisterStep(t, segment, req, newId, emailFormat, emailCheck, hash, mint, production);
    if r.response.status == 200 {
      FirstWithEmailAppend(t.users, r.tables.users[|t.users|]);
    }
  }

  /** Registration as the database sees it: one insert into the users table. */
  method Register(db: Database, segment: string, req: RegisterRequest, newId: Id, emailFormat: string -> bool,
                  emailCheck: string -> bool, hash: string -> string, mint: (User, nat) -> string, production: bool)
    returns (response: Response, cookies: seq<Cookie>)
    requires db.Valid()
    modifies db
    ensures db.Valid()
    ensures Issued(db.Snapshot(), response, cookies) ==
            RegisterStep(old(db.Snapshot()), segment, req, newId, emailFormat, emailCheck, hash, mint, production)
  {
    var role := ParseRole(segment);
    if role.None? {
      return InvalidRole, [];
    }
    var passwordProblem := PasswordProblem(req.password);
    if passwordProblem.Some? {
      return Response(400, Invalid(passwordProblem.value)), [];
    }
    var emailProblem := EmailProblem(req.email, emailFormat);
    if emailProblem.Some? {
      return Response(400, Invalid(emailProblem.value)), [];
    }
    if emailCheck(req.email.value) {
      return EmailExists, [];
    }
    var candidate := Candidate(role.value, req, newId, hash);
    if !InsertAccepted(db.users, candidate) {
      return InternalError, [];
    }
    var u := candidate.value;
    forall l | l in db.loans
      ensures UserExists(db.users + [u], l.userId)
    {
      var v :| v in db.users && v.id == l.userId;
      assert v in db.users + [u];
    }
    db.users := db.users + [u];
    response := Response(200, Message(RegisteredMessage));
    cookies := SessionCookies(u, mint, production);
  }
}

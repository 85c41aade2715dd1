/**
 * The authentication middleware in front of /books and /borrow: from the two signed cookies
 * it decides whether the request is refused, or goes on with a user (possibly none) and,
 * when it was resumed from the refresh token, a freshly issued access cookie.
 */
module Session {
  import opened Common
  import opened Store
  import RoleGuard

  /** What reading a signed cookie gives: nothing, a value whose signature fails, or the value. */
  datatype CookieRead = Missing | Tampered | Value(raw: string)

  /** A cookie read counts as present when it yields a non-empty string. */
  predicate Present(c: CookieRead) {
    c.Value? && c.raw != ""
  }

  /** Which of the two signing secrets a token is checked against. */
  datatype Secret = AccessSecret | RefreshSecret

  /** What token verification does: throw, return nothing, or return the user claims it carries. */
  datatype Verified = Throws | Falsy | Claims(claims: User)

  /** A Set-Cookie the server sends. */
  datatype Cookie = Cookie(name: string, token: string, maxAge: nat, httpOnly: bool, secure: bool, sameSite: string)

  const AccessCookieName := "lb_token"
  const RefreshCookieName := "lb_refresh_token"

  /** Token and cookie lifetimes in seconds: 15 minutes and 7 days. */
  const AccessLifetime: nat := 15 * 60
  const RefreshLifetime: nat := 7 * 24 * 60 * 60

  /** Every cookie the server sets is HTTP-only, strict same-site, and secure in production only. */
  function SignedCookie(name: string, token: string, maxAge: nat, production: bool): (c: Cookie)
    ensures c.name == name && c.token == token && c.maxAge == maxAge
    ensures c.httpOnly && c.sameSite == "Strict" && (c.secure <==> production)
  {
    Cookie(name, token, maxAge, true, production, "Strict")
  }

  const NoToken := Response(401, Message("Unauthorized: No token provided"))
  const UserNotFound := Response(401, Message("Unauthorized: User not found"))
  const InvalidToken := Response(401, Message("Unauthorized: Invalid token"))

  /** How the middleware ends: an answer of its own, or `next` with the request's user and a cookie to set. */
  datatype Outcome = Reject(response: Response) | Continue(user: Option<User>, refreshed: Option<Cookie>)

  /**
   * The middleware's decision. `verify` stands for token verification, `mint` for token signing
   * with a lifetime in seconds, `production` for the deployment flag, `users` for the users table.
   */
  function ResolveSession(access: CookieRead, refresh: CookieRead, verify: (string, Secret) -> Verified,
                          mint: (User, nat) -> string, production: bool, users: seq<User>): (o: Outcome)
    ensures o.Reject? ==> o.response.status == 401
    ensures o == Reject(NoToken) <==> !Present(access) && !Present(refresh)
    // an access token: only its own verification and the lookup of its email decide
    ensures Present(access) ==>
              (o.Continue? <==> verify(access.raw, AccessSecret).Claims? &&
                                EmailTaken(users, verify(access.raw, AccessSecret).claims.email))
    ensures Present(access) && o.Continue? ==>
              o.refreshed.None? && o.user.Some? && o.user.value in users &&
              o.user.value.email == verify(access.raw, AccessSecret).claims.email &&
              o.user == FirstWithEmail(users, verify(access.raw, AccessSecret).claims.email)
    ensures Present(access) && !verify(access.raw, AccessSecret).Claims? ==> o == Reject(InvalidToken)
    ensures (Present(access) && verify(access.raw, AccessSecret).Claims? &&
             !EmailTaken(users, verify(access.raw, AccessSecret).claims.email)) ==> o == Reject(UserNotFound)
    // only a refresh token: the claims become the user and a new access cookie is issued
    ensures o.Continue? && o.refreshed.Some? ==>
              !Present(access) && verify(refresh.raw, RefreshSecret).Claims? &&
              o.user == Some(verify(refresh.raw, RefreshSecret).claims) &&
              o.refreshed.value == SignedCookie(AccessCookieName, mint(o.user.value, AccessLifetime), AccessLifetime, production)
    ensures !Present(access) && Present(refresh) && verify(refresh.raw, RefreshSecret).Claims? ==>
              var c := verify(refresh.raw, RefreshSecret).claims;
              o == Continue(Some(c), Some(SignedCookie(AccessCookieName, mint(c, AccessLifetime), AccessLifetime, production)))
    ensures !Present(access) && Present(refresh) && verify(refresh.raw, RefreshSecret).Falsy? ==> o == Continue(None, None)
    ensures !Present(access) && Present(refresh) && verify(refresh.raw, RefreshSecret).Throws? ==> o == Reject(InvalidToken)
  {
    if !Present(access) && !Present(refresh) then Reject(NoToken)
    else if Present(access) then
      match verify(access.raw, AccessSecret)
      case Claims(c) =>
        (match FirstWithEmail(users, c.email)
         case None => Reject(UserNotFound)
         case Some(u) =>
           assert u in users by {
             var i :| 0 <= i < |users| && users[i] == u && forall j :: 0 <= j < i ==> users[j].email != c.email;
           }
           Continue(Some(u), None))
      // a falsy result is taken to be null or undefined, whose dereference throws like a failed verification
      case _ => Reject(InvalidToken)
    else
      match verify(refresh.raw, RefreshSecret)
      case Claims(c) => Continue(Some(c), Some(SignedCookie(AccessCookieName, mint(c, AccessLifetime), AccessLifetime, production)))
      case Falsy => Continue(None, None)
      case Throws => Reject(InvalidToken)
  }

  /** With an access token present, the refresh cookie is never consulted. */
  lemma AccessTokenIgnoresRefresh(access: CookieRead, refresh: CookieRead, refresh': CookieRead,
                                  verify: (string, Secret) -> Verified, mint: (User, nat) -> string,
                                  production: bool, users: seq<User>)
    requires Present(access)
    ensures ResolveSession(access, refresh, verify, mint, production, users) ==
            ResolveSession(access, refresh', verify, mint, production, users)
  {
  }

  /**
   * The full guard of a /books or /borrow request: the authentication middleware, then the role
   * middleware. `None` means the route handler runs.
   */
  function GuardGroup(access: CookieRead, refresh: CookieRead, verify: (string, Secret) -> Verified,
                      mint: (User, nat) -> string, production: bool, users: seq<User>, verb: string): (r: Option<Response>)
    ensures var o := ResolveSession(access, refresh, verify, mint, production, users);
            r.None? <==> o.Continue? && o.user.Some? && RoleGuard.Permitted(o.user.value.role, RoleGuard.GroupRole, verb)
    ensures var o := ResolveSession(access, refresh, verify, mint, production, users);
            o.Reject? ==> r == Some(o.response)
    ensures var o := ResolveSession(access, refresh, verify, mint, production, users);
            o.Continue? && o.user.None? ==> r == Some(RoleGuard.NoUserFound)
    ensures var o := ResolveSession(access, refresh, verify, mint, production, users);
            o.Continue? && o.user.Some? && !RoleGuard.Permitted(o.user.value.role, RoleGuard.GroupRole, verb) ==>
              r == Some(RoleGuard.AccessDenied)
    ensures r.Some? ==> r.value.status == 401 || r.value.status == 403
  {
    match ResolveSession(access, refresh, verify, mint, production, users)
    case Reject(response) => Some(response)
    case Continue(user, _) => RoleGuard.GateResponse(RoleGuard.Authorize(user, verb, RoleGuard.GroupRole))
  }

  /** A refresh token that verifies to nothing gets past authentication but is stopped at the role gate with 401. */
  lemma FalsyRefreshStopsAtRoleGate(refresh: CookieRead, verify: (string, Secret) -> Verified,
                                    mint: (User, nat) -> string, production: bool, users: seq<User>, verb: string)
    requires Present(refresh) && verify(refresh.raw, RefreshSecret).Falsy?
    ensures ResolveSession(Missing, refresh, verify, mint, production, users) == Continue(None, None)
    ensures GuardGroup(Missing, refresh, verify, mint, production, users, verb) == Some(RoleGuard.NoUserFound)
  {
  }

  /** A handler only ever sees a user that is a row of the table, or that a refresh token's claims describe. */
  lemma SessionUserOrigin(access: CookieRead, refresh: CookieRead, verify: (string, Secret) -> Verified,
                          mint: (User, nat) -> string, production: bool, users: seq<User>)
    requires ResolveSession(access, refresh, verify, mint, production, users).Continue?
    ensures var o := ResolveSession(access, refresh, verify, mint, production, users);
            o.user.Some? ==> o.user.value in users || (o.refreshed.Some? && o.user == Some(verify(refresh.raw, RefreshSecret).claims))
  {
  }

  const Removed := User("u1", "dana", "h", "dana@example.org", Librarian)

  function RemovedClaims(token: string, secret: Secret): Verified {
    if secret == RefreshSecret then Claims(Removed) else Falsy
  }

  function AnyToken(u: User, lifetime: nat): string {
    "t"
  }

  /**
   * The refresh path does not re-read the users table: a librarian whose row is gone still
   * passes both middlewares, for any method, until the refresh token expires.
   */
  lemma RemovedUserStillServed(verb: string)
    ensures !UserExists([], Removed.id)
    ensures ResolveSession(Missing, Value("r"), RemovedClaims, AnyToken, true, []).Continue?
    ensures GuardGroup(Missing, Value("r"), RemovedClaims, AnyToken, true, [], verb).None?
  {
  }
}

/**
 * The role middleware that guards the /books and /borrow route groups: whether the request
 * may go on to its handler, is refused as unauthenticated (401) or as forbidden (403).
 */
module RoleGuard {
  import opened Common
  import opened Store

  /** The three ways the middleware ends: no user on the request, a refusal, or `next`. */
  datatype Gate = Unauthorized | Forbidden | Proceed

  const NoUserFound := Response(401, Message("Unauthorized: No user found"))
  const AccessDenied := Response(403, Message("Forbidden: Access denied"))

  /** The role both guarded route groups demand. */
  const GroupRole := Librarian

  /**
   * Reference table of who may use a group guarded by `required`: holders of that role always,
   * students also for reads; a librarian is not given a student's reads.
   */
  predicate Permitted(role: Role, required: Role, verb: string) {
    match (role, required)
    case (Librarian, Librarian) => true
    case (Student, Student) => true
    case (Student, Librarian) => verb == "GET"
    case (Librarian, Student) => false
  }

  /** The decision for a request carrying `user` (if any) and HTTP method `verb`. */
  function Authorize(user: Option<User>, verb: string, required: Role): (g: Gate)
    ensures g == Unauthorized <==> user.None?
    ensures user.Some? ==> (g == Proceed <==> Permitted(user.value.role, required, verb))
    ensures user.Some? ==> (g == Forbidden <==> !Permitted(user.value.role, required, verb))
  {
    match user
    case None => Unauthorized
    case Some(u) =>
      if u.role == required || (u.role == Student && verb == "GET") then Proceed else Forbidden
  }

  /** The answer the middleware sends itself; `None` when it hands over to the route. */
  function GateResponse(g: Gate): (r: Option<Response>)
    ensures r.None? <==> g == Proceed
    ensures r.Some? ==> (r.value.status == 401 <==> g == Unauthorized)
    ensures r.Some? ==> (r.value.status == 403 <==> g == Forbidden)
  {
    match g
    case Unauthorized => Some(NoUserFound)
    case Forbidden => Some(AccessDenied)
    case Proceed => None
  }

  /** As wired on /books and /borrow: a librarian passes for every method, a student exactly for GET. */
  lemma GroupGate(u: User, verb: string)
    ensures u.role == Librarian ==> Authorize(Some(u), verb, GroupRole) == Proceed
    ensures u.role == Student ==> (Authorize(Some(u), verb, GroupRole) == Proceed <==> verb == "GET")
    ensures Authorize(None, verb, GroupRole) == Unauthorized
  {
  }

  /** The decision sees only the role of the user, never the rest of the record. */
  lemma OnlyRoleMatters(u: User, v: User, verb: string, required: Role)
    requires u.role == v.role
    ensures Authorize(Some(u), verb, required) == Authorize(Some(v), verb, required)
  {
  }

  /** Whatever one HTTP method may do, GET may do too: reads are never more restricted than writes. */
  lemma GetIsLeastRestricted(user: Option<User>, verb: string, required: Role)
    requires Authorize(user, verb, required) == Proceed
    ensures Authorize(user, "GET", required) == Proceed
  {
  }
}

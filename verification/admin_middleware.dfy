/** The role gate `admin`, which runs after `protect`: it looks the caller up
    again and lets only the admin role through. */
module AdminMiddleware {
  import opened Base
  import opened Store
  import opened Oracles
  import opened UserModel
  import opened AuthMiddleware

  const CallerNotFound: string := "User not found"
  const AccessDenied: string := "Access denied"
  const ServerError: string := "Server error"

  /** What the role gate does with the caller `protect` attached. */
  datatype RoleCheck = Admit | Refuse(status: int, text: string)

  /** `admin`: a second `findById` on the caller's id, then the role test. */
  function Admin(users: seq<User>, callerId: Id): (v: RoleCheck)
    ensures v.Admit? <==> FindUser(users, callerId).Found? && users[FindUser(users, callerId).index].role == AdminRole
    ensures FindUser(users, callerId).CastError? ==> v == Refuse(500, ServerError)
    ensures FindUser(users, callerId).Absent? ==> v == Refuse(404, CallerNotFound)
    ensures FindUser(users, callerId).Found? && users[FindUser(users, callerId).index].role != AdminRole
            ==> v == Refuse(403, AccessDenied)
  {
    match FindUser(users, callerId)
    case CastError => Refuse(500, ServerError)
    case Absent => Refuse(404, CallerNotFound)
    case Found(i) => if users[i].role == AdminRole then Admit else Refuse(403, AccessDenied)
  }

  /** `protect` followed, on admin-only routes, by `admin`: the handler runs
      with the caller exactly when the result is `Proceed`. */
  function Authorize(users: seq<User>, authorization: Option<string>, jwt: Jwt, adminOnly: bool): Gate {
    match Protect(users, authorization, jwt)
    case Proceed(caller) =>
      if !adminOnly then Proceed(caller)
      else (match Admin(users, caller.id)
            case Admit => Proceed(caller)
            case Refuse(status, text) => Deny(status, text))
    case other => other
  }

  /** An admin-only route reaches its handler only for a stored admin, and
      a route without the role gate behaves as `protect` alone. */
  lemma AuthorizeAdmitsOnlyAdmins(users: seq<User>, authorization: Option<string>, jwt: Jwt)
    ensures var g := Authorize(users, authorization, jwt, true);
            g.Proceed? ==> g.caller.role == AdminRole && g == Protect(users, authorization, jwt)
    ensures Authorize(users, authorization, jwt, false) == Protect(users, authorization, jwt)
  {
  }

  /** A caller `protect` accepts is refused with 403 by the role gate exactly
      when their role is not admin: the second lookup always finds them again. */
  lemma AuthenticatedNonAdminForbidden(users: seq<User>, authorization: Option<string>, jwt: Jwt)
    requires Protect(users, authorization, jwt).Proceed?
    ensures var caller := Protect(users, authorization, jwt).caller;
            Authorize(users, authorization, jwt, true)
            == (if caller.role == AdminRole then Proceed(caller) else Deny(403, AccessDenied))
  {
  }
}

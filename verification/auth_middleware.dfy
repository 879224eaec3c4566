/** The access gate `protect`: reads the bearer token from the Authorization
    header, verifies it, and attaches the stored user without its password. */
module AuthMiddleware {
  import opened Base
  import opened Text
  import opened Store
  import opened Oracles
  import opened UserModel

  const NoToken: string := "Not authorized, no token"
  const TokenMissing: string := "Not authorized, token missing"
  const UserNotFound: string := "Not authorized, user not found"
  const TokenExpired: string := "Token expired, please log in again"
  const InvalidToken: string := "Invalid token"
  const VerificationFailed: string := "Token verification failed"

  /** What a gate does with a request: pass it on with the caller attached,
      answer it, or throw outside any handler. */
  datatype Gate = Proceed(caller: Profile) | Deny(status: int, text: string) | Thrown

  /** The header passes the prefix test: present and starting, case-sensitively,
      with "Bearer" (no space required). */
  predicate HasBearerPrefix(authorization: Option<string>) {
    authorization.Some? && StartsWith(authorization.value, "Bearer")
  }

  /** Field 1 of `header.split(' ')`, or `None` for `undefined`. */
  function BearerToken(header: string): Option<string> {
    var fields := Split(header);
    if |fields| >= 2 then Some(fields[1]) else None
  }

  /** The usual header "Bearer <token>" yields the token. */
  lemma BearerTokenOfStandardHeader(token: string)
    requires ' ' !in token
    ensures BearerToken("Bearer " + token) == Some(token)
  {
    assert ' ' !in "Bearer";
    assert Join(["Bearer", token]) == "Bearer " + token;
    SplitJoin(["Bearer", token]);
  }

  /** The token is whatever follows the first space: the prefix test does
      not need a space after "Bearer", so "Bearerx y" yields "y". */
  lemma BearerTokenIsSecondField(first: string, second: string)
    requires ' ' !in first && ' ' !in second
    ensures BearerToken(first + " " + second) == Some(second)
  {
    SplitCons(first, second);
    SplitSingle(second);
  }

  /** Anything after a further space is ignored; a trailing or doubled space
      yields the empty token. */
  lemma BearerTokenIgnoresRest(first: string, second: string, rest: string)
    requires ' ' !in first && ' ' !in second
    ensures BearerToken(first + " " + second + " " + rest) == Some(second)
  {
    var tail := second + " " + rest;
    assert first + " " + second + " " + rest == first + " " + tail;
    SplitCons(first, tail);
    SplitCons(second, rest);
    assert Split(first + " " + tail) == [first] + ([second] + Split(rest));
  }

  /** A header without any space has no field 1. */
  lemma BearerTokenAbsentWithoutSpace(header: string)
    requires ' ' !in header
    ensures BearerToken(header) == None
  {
    SplitSingle(header);
  }

  /** `protect`. A header of exactly "Bearer" has no token; reading its length
      throws before any check, which the model records as `Thrown`. Every
      refusal is a 401, and a request proceeds only with a stored user whose
      id the token verified to. */
  function Protect(users: seq<User>, authorization: Option<string>, jwt: Jwt): (g: Gate)
    ensures !HasBearerPrefix(authorization) ==> g == Deny(401, NoToken)
    ensures g.Thrown? <==> HasBearerPrefix(authorization) && BearerToken(authorization.value).None?
    ensures g == Deny(401, TokenMissing) <==>
            HasBearerPrefix(authorization) && BearerToken(authorization.value) == Some("")
    ensures g.Deny? ==> g.status == 401
    ensures HasBearerPrefix(authorization) && Truthy(BearerToken(authorization.value)) ==>
            match jwt.verify(BearerToken(authorization.value).value, AccessSecret)
            case TokenExpiredError => g == Deny(401, TokenExpired)
            case JsonWebTokenError => g == Deny(401, InvalidToken)
            case OtherVerifyError => g == Deny(401, VerificationFailed)
            case Verified(subject) =>
              match FindUser(users, subject)
              case CastError => g == Deny(401, VerificationFailed)
              case Absent => g == Deny(401, UserNotFound)
              case Found(i) => g == Proceed(Public(users[i]))
    ensures g.Proceed? ==>
            && HasBearerPrefix(authorization) && Truthy(BearerToken(authorization.value))
            && jwt.verify(BearerToken(authorization.value).value, AccessSecret) == Verified(g.caller.id)
            && FindUser(users, g.caller.id).Found?
            && g.caller == Public(users[FindUser(users, g.caller.id).index])
  {
    if !HasBearerPrefix(authorization) then Deny(401, NoToken)
    else match BearerToken(authorization.value)
      case None => Thrown
      case Some(token) =>
        if token == "" then Deny(401, TokenMissing)
        else match jwt.verify(token, AccessSecret)
          case TokenExpiredError => Deny(401, TokenExpired)
          case JsonWebTokenError => Deny(401, InvalidToken)
          case OtherVerifyError => Deny(401, VerificationFailed)
          case Verified(subject) =>
            // findById's CastError lands in the same catch as a failed verification
            match FindUser(users, subject)
            case CastError => Deny(401, VerificationFailed)
            case Absent => Deny(401, UserNotFound)
            case Found(i) => Proceed(Public(users[i]))
  }
}

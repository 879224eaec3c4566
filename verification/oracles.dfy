/** The external collaborators the handlers consult, as uninterpreted
    functions: password hashing and signed tokens. Each is a record of total
    functions chosen by the environment; what the handlers may rely on about
    them is stated as a predicate that the lemmas needing it require. */
module Oracles {
  import opened Base

  /** Password hashing: `hash(plain, salt)` and `compare(plain, hash)`. */
  datatype Crypto = Crypto(hash: (string, string) -> string, compare: (string, string) -> bool)

  /** A password always matches its own hash, whatever the salt. */
  ghost predicate HashSound(crypto: Crypto) {
    forall plain, salt :: crypto.compare(plain, crypto.hash(plain, salt))
  }

  /** A hash is never empty (a bcrypt hash is 60 characters long). */
  ghost predicate HashesNonEmpty(crypto: Crypto) {
    forall plain, salt :: crypto.hash(plain, salt) != ""
  }

  /** The two signing secrets: one for access tokens, one for refresh tokens. */
  datatype Secret = AccessSecret | RefreshSecret

  /** What `jwt.verify` reports: the payload's subject id, or the name of the
      error it throws. */
  datatype Verdict =
    | Verified(subject: Id)
    | TokenExpiredError
    | JsonWebTokenError
    | OtherVerifyError

  /** Token signing and verification under a secret. */
  datatype Jwt = Jwt(sign: (Id, Secret) -> string, verify: (string, Secret) -> Verdict)

  /** A token verifies, under the secret it was signed with, to the id it was signed for. */
  ghost predicate TokensSound(jwt: Jwt) {
    forall id, secret :: jwt.verify(jwt.sign(id, secret), secret) == Verified(id)
  }

  /** A signed token is non-empty and holds no space (a JWT is three
      base64url segments joined by dots). */
  ghost predicate TokensCompact(jwt: Jwt) {
    forall id, secret :: jwt.sign(id, secret) != "" && ' ' !in jwt.sign(id, secret)
  }
}

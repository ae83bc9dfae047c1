/** The token verifier of libs/jwt.ts. The signature and expiry checks of the
    `jsonwebtoken` library are not visible here: the library is a parameter
    that, given a token and a secret, decodes a payload or throws. */
module Jwt {
  import opened Js

  /** A claim value as JSON carries it: login-user signs a numeric user id,
      roles are strings. */
  datatype ClaimValue = Text(text: string) | Number(number: int)

  /** What `jwt.verify` decodes: a bare string, or an object whose `userId`
      and `role` claims may each be absent. */
  datatype Payload =
    | StringPayload(text: string)
    | ObjectPayload(userId: Option<ClaimValue>, role: Option<ClaimValue>)

  /** The result of a verification: a payload, or the value it threw. */
  type Verification = Outcome<Payload, Thrown>

  const SecretMissingMessage := "JWT_SECRET is not defined"
  const InvalidTokenMessage := "Invalid token"

  /** `payload.role`: a bare string has no `role` property. */
  function RoleOf(p: Payload): Option<ClaimValue> {
    match p
    case StringPayload(_) => None
    case ObjectPayload(_, role) => role
  }

  /** `verifyToken(token)` with the process secret `secret` (absent when the
      environment variable is unset): a missing or empty secret throws before
      the library is called; every library failure is re-thrown as an `Error`
      carrying the library's message, or "Invalid token" when the library
      threw something that is not an `Error`. */
  function VerifyToken(secret: Option<string>, library: (string, string) -> Verification, token: string): (r: Verification)
    ensures !Truthy(secret) ==> r == Threw(ErrorObject(SecretMissingMessage))
    ensures r.Threw? ==> r.error.ErrorObject?
    ensures Truthy(secret) && library(token, secret.value).Returned? ==> r == library(token, secret.value)
    ensures Truthy(secret) && library(token, secret.value) == Threw(NonError) ==> r == Threw(ErrorObject(InvalidTokenMessage))
    ensures Truthy(secret) && library(token, secret.value).Threw? ==> r.Threw?
    ensures Truthy(secret) && library(token, secret.value).Threw? && library(token, secret.value).error.ErrorObject? ==>
      r == library(token, secret.value)
  {
    if !Truthy(secret) then Threw(ErrorObject(SecretMissingMessage))
    else
      match library(token, secret.value)
      case Returned(p) => Returned(p)
      case Threw(ErrorObject(m)) => Threw(ErrorObject(m))
      case Threw(NonError) => Threw(ErrorObject(InvalidTokenMessage))
  }

  /** The payload a token issued by the login-user route decodes to: it signs
      `{ userId: user.id }` and nothing else (the library's `iat`/`exp` claims
      play no part in any check here). */
  function LoginUserPayload(userId: int): (p: Payload)
    ensures p.ObjectPayload? && RoleOf(p).None?
  {
    ObjectPayload(Some(Number(userId)), None)
  }
}

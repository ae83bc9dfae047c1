/** The edge middleware of src/middleware.ts: a per-request decision that
    lets a request through, or answers 401 or 403 before any handler runs.
    The two prefix tables come from a configuration file that is not part of
    this model and are parameters; the verifier is a parameter too (in the
    application it is `Jwt.VerifyToken` with the process secret). */
module Middleware {
  import opened Js
  import opened Jwt
  import opened NextServer

  const BearerPrefix := "Bearer "

  /** `routes.some(route => pathname.startsWith(route))` */
  predicate MatchesAny(pathname: string, routes: seq<string>) {
    exists route :: route in routes && StartsWith(pathname, route)
  }

  /** The credential the middleware verifies: the `token` cookie when it is
      non-empty, otherwise the remainder of an `Authorization` header that
      starts with exactly "Bearer " (case-sensitive, one space, the header
      form of section 2.1 of RFC 6750), otherwise the (falsy) cookie value. */
  function ExtractToken(req: Request): (token: Option<string>)
    ensures Truthy(req.tokenCookie) ==> token == req.tokenCookie
    ensures !Truthy(req.tokenCookie) ==>
      (Truthy(token) <==> req.authorization.Some? && StartsWith(req.authorization.value, BearerPrefix)
                           && |req.authorization.value| > |BearerPrefix|)
    ensures !Truthy(req.tokenCookie) && Truthy(token) ==>
      req.authorization.value == BearerPrefix + token.value
  {
    if Truthy(req.tokenCookie) then req.tokenCookie
    else
      match req.authorization
      case Some(header) =>
        if header != "" && StartsWith(header, BearerPrefix) then
          assert header == BearerPrefix + header[7..];
          Some(header[7..])
        else req.tokenCookie
      case None => req.tokenCookie
  }

  /** The 401 body for a verifier failure: the message of a thrown `Error`,
      otherwise a fixed text. */
  function FailureMessage(e: Thrown): string {
    match e
    case ErrorObject(message) => message
    case NonError => "Invalid or expired token"
  }

  const Unauthorized := Json(401, ErrorBody("Unauthorized"))
  const Forbidden := Json(403, ErrorBody("Forbidden"))

  /** `middleware(request)`. */
  function Handle(req: Request, protectedRoutes: seq<string>, adminRoutes: seq<string>, verify: string -> Verification): (res: Response)
    // a path outside every protected prefix passes, admin prefix or not
    ensures !MatchesAny(req.pathname, protectedRoutes) ==> res == Next
    // exactly one of allow, 401 or 403
    ensures res == Next || res == Forbidden || (res.Json? && res.status == 401 && res.body.ErrorBody?)
    // 403 only after a successful verification on an admin path of a payload whose role is not "admin"
    ensures res == Forbidden <==>
      && MatchesAny(req.pathname, protectedRoutes)
      && Truthy(ExtractToken(req))
      && verify(ExtractToken(req).value).Returned?
      && MatchesAny(req.pathname, adminRoutes)
      && RoleOf(verify(ExtractToken(req).value).value) != Some(Text("admin"))
    // a request on a protected path is let through only with a verified token
    ensures MatchesAny(req.pathname, protectedRoutes) && res == Next ==>
      Truthy(ExtractToken(req)) && verify(ExtractToken(req).value).Returned?
  {
    if !MatchesAny(req.pathname, protectedRoutes) then Next
    else
      var token := ExtractToken(req);
      if !Truthy(token) then Unauthorized
      else
        match verify(token.value)
        case Threw(e) => Json(401, ErrorBody(FailureMessage(e)))
        case Returned(payload) =>
          if MatchesAny(req.pathname, adminRoutes) && RoleOf(payload) != Some(Text("admin")) then Forbidden
          else Next
  }

  /** The cookie wins whenever it is non-empty: the header is then not even
      looked at. */
  lemma CookieTakesPrecedence(req: Request, header: Option<string>)
    requires Truthy(req.tokenCookie)
    ensures ExtractToken(req) == ExtractToken(req.(authorization := header)) == req.tokenCookie
  {
  }

  /** Without a usable cookie, "Bearer <t>" yields exactly `t`; a header
      with any other scheme word (a different spelling or case) yields no
      token. */
  lemma BearerHeaderOnly(path: string, cookie: Option<string>, scheme: string, t: string)
    requires !Truthy(cookie) && t != "" && ' ' !in scheme
    ensures ExtractToken(Request(path, cookie, Some(BearerPrefix + t))) == Some(t)
    ensures scheme != "Bearer" ==> !Truthy(ExtractToken(Request(path, cookie, Some(scheme + " " + t))))
  {
    SchemeWord(scheme, t);
  }

  /** A header "<scheme> <t>" whose scheme word has no space starts with
      "Bearer " only when the scheme word is exactly "Bearer". */
  lemma SchemeWord(scheme: string, t: string)
    requires ' ' !in scheme
    ensures StartsWith(scheme + " " + t, BearerPrefix) ==> scheme == "Bearer"
  {
    var h := scheme + " " + t;
    if StartsWith(h, BearerPrefix) {
      assert h[|scheme|] == ' ';
      assert forall k :: 0 <= k < |scheme| ==> h[k] == scheme[k] != ' ';
      var m := |scheme|;
      assert m < 7 ==> h[m] == BearerPrefix[m] == ' ';
      assert BearerPrefix[..6] == "Bearer" && ' ' !in "Bearer";
      assert h[6] == ' ';
      assert m == 6;
      assert scheme == h[..6];
    }
  }

  /** A protected request that carries no non-empty credential is refused
      with 401 "Unauthorized" whatever the verifier would have said: the
      verifier is never consulted. */
  lemma NoTokenIsUnauthorized(req: Request, protectedRoutes: seq<string>, adminRoutes: seq<string>, verify: string -> Verification)
    requires MatchesAny(req.pathname, protectedRoutes)
    requires !Truthy(ExtractToken(req))
    ensures Handle(req, protectedRoutes, adminRoutes, verify) == Unauthorized
  {
  }

  /** The verifier is consulted on the extracted token only: two verifiers
      that agree on it give the same decision. */
  lemma DecisionDependsOnlyOnExtractedToken(req: Request, protectedRoutes: seq<string>, adminRoutes: seq<string>,
                                            verify1: string -> Verification, verify2: string -> Verification)
    requires Truthy(ExtractToken(req)) ==> verify1(ExtractToken(req).value) == verify2(ExtractToken(req).value)
    ensures Handle(req, protectedRoutes, adminRoutes, verify1) == Handle(req, protectedRoutes, adminRoutes, verify2)
  {
  }

  /** Any verification failure on a protected path is a 401 carrying the
      thrown error's message. */
  lemma VerificationFailureIsUnauthorized(req: Request, protectedRoutes: seq<string>, adminRoutes: seq<string>, verify: string -> Verification)
    requires MatchesAny(req.pathname, protectedRoutes) && Truthy(ExtractToken(req))
    requires verify(ExtractToken(req).value).Threw?
    ensures Handle(req, protectedRoutes, adminRoutes, verify)
         == Json(401, ErrorBody(FailureMessage(verify(ExtractToken(req).value).error)))
  {
  }

  /** A verified token on a protected path outside every admin prefix is let
      through, whatever its role and whatever the payload's shape. */
  lemma VerifiedNonAdminPathAllowed(req: Request, protectedRoutes: seq<string>, adminRoutes: seq<string>, verify: string -> Verification)
    requires MatchesAny(req.pathname, protectedRoutes) && !MatchesAny(req.pathname, adminRoutes)
    requires Truthy(ExtractToken(req)) && verify(ExtractToken(req).value).Returned?
    ensures Handle(req, protectedRoutes, adminRoutes, verify) == Next
  {
  }

  /** On an admin path a bare-string payload and an object without a role
      are both refused with 403; only role "admin" passes. */
  lemma AdminPathNeedsAdminRole(req: Request, protectedRoutes: seq<string>, adminRoutes: seq<string>, verify: string -> Verification)
    requires MatchesAny(req.pathname, protectedRoutes) && MatchesAny(req.pathname, adminRoutes)
    requires Truthy(ExtractToken(req)) && verify(ExtractToken(req).value).Returned?
    ensures var p := verify(ExtractToken(req).value).value;
      Handle(req, protectedRoutes, adminRoutes, verify) == (if p.ObjectPayload? && p.role == Some(Text("admin")) then Next else Forbidden)
  {
  }

  /** A token issued by login-user carries no role, so it never passes an
      admin prefix. */
  lemma LoginUserTokenNeverAdmin(req: Request, protectedRoutes: seq<string>, adminRoutes: seq<string>, verify: string -> Verification, userId: int)
    requires MatchesAny(req.pathname, protectedRoutes) && MatchesAny(req.pathname, adminRoutes)
    requires Truthy(ExtractToken(req)) && verify(ExtractToken(req).value) == Returned(LoginUserPayload(userId))
    ensures Handle(req, protectedRoutes, adminRoutes, verify) == Forbidden
  {
  }

  /** With the application's verifier: a missing secret turns every
      credentialed protected request into 401 "JWT_SECRET is not defined",
      and the fallback text "Invalid or expired token" is never sent, because
      `verifyToken` only ever throws `Error` objects. */
  lemma WithVerifyToken(req: Request, protectedRoutes: seq<string>, adminRoutes: seq<string>,
                        secret: Option<string>, library: (string, string) -> Verification)
    ensures Handle(req, protectedRoutes, adminRoutes, t => VerifyToken(secret, library, t)) == Json(401, ErrorBody("Invalid or expired token")) ==>
      && Truthy(secret) && Truthy(ExtractToken(req))
      && library(ExtractToken(req).value, secret.value) == Threw(ErrorObject("Invalid or expired token"))
    ensures !Truthy(secret) && MatchesAny(req.pathname, protectedRoutes) && Truthy(ExtractToken(req)) ==>
      Handle(req, protectedRoutes, adminRoutes, t => VerifyToken(secret, library, t)) == Json(401, ErrorBody(SecretMissingMessage))
  {
  }
}

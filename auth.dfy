/** The handler-level guard of libs/auth.ts: `getUserFromRequest` and
    `protect`, which route handlers call in addition to the middleware. It
    reads only the `Authorization` header, takes its second space-separated
    field without looking at the scheme word, and does not catch a verifier
    failure, which therefore escapes `protect` as an exception. */
module Auth {
  import opened Js
  import opened Jwt
  import opened NextServer
  import Middleware

  /** The `requiredRole` argument of `protect`. */
  datatype Role = Admin | User

  function RoleName(r: Role): string {
    match r
    case Admin => "admin"
    case User => "user"
  }

  const Unauthorized := Json(401, MessageBody("Unauthorized"))
  const Forbidden := Json(403, MessageBody("Forbidden"))

  /** `authHeader?.split(" ")[1]`: undefined when the header is absent or
      contains no space. */
  function HeaderToken(authorization: Option<string>): (t: Option<string>)
    ensures authorization.None? ==> t.None?
    ensures authorization.Some? && ' ' !in authorization.value ==> t.None?
    ensures t.Some? ==> ' ' !in t.value
  {
    match authorization
    case None => None
    case Some(header) =>
      var fields := Split(header, " ");
      if |fields| >= 2 then
        NoOccurrenceNoChar(fields[1], ' ');
        Some(fields[1])
      else
        assert ' ' !in header ==> forall j :: 0 <= j < |header| ==> header[j..j + 1] == [header[j]];
        None
  }

  /** Whatever the first word is, the token is the text after the first space
      up to the next one: the scheme word is not checked. */
  lemma HeaderTokenIsSecondWord(word: string, rest: string)
    requires ' ' !in word
    ensures HeaderToken(Some(word + " " + rest)) == Some(TakeUntil(rest, ' '))
  {
    var h := word + " " + rest;
    assert h[|word|..|word| + 1] == " ";
    forall j | 0 <= j < |word| ensures !OccursAt(h, " ", j) {
      assert h[j] == word[j];
    }
    IndexOfLeftmost(h, " ", |word|);
    SplitAtFirst(h, " ", |word|);
    assert h[|word| + 1..] == rest;
    FirstFieldIsTakeUntil(rest, ' ');
  }

  /** `getUserFromRequest(req)`: null without a non-empty second field,
      null for a bare-string payload, the payload itself otherwise; a
      verifier failure escapes. */
  function GetUserFromRequest(req: Request, verify: string -> Verification): (r: Outcome<Option<Payload>, Thrown>)
    ensures !Truthy(HeaderToken(req.authorization)) ==> r == Returned(None)
    ensures r.Threw? <==> Truthy(HeaderToken(req.authorization)) && verify(HeaderToken(req.authorization).value).Threw?
    ensures r.Threw? ==> r.error == verify(HeaderToken(req.authorization).value).error
    ensures r.Returned? && r.value.Some? ==>
      && r.value.value.ObjectPayload?
      && Truthy(HeaderToken(req.authorization))
      && verify(HeaderToken(req.authorization).value) == Returned(r.value.value)
    ensures Truthy(HeaderToken(req.authorization)) && verify(HeaderToken(req.authorization).value).Returned? ==>
      r == Returned(if verify(HeaderToken(req.authorization).value).value.StringPayload? then None
                    else Some(verify(HeaderToken(req.authorization).value).value))
  {
    var token := HeaderToken(req.authorization);
    if !Truthy(token) then Returned(None)
    else
      match verify(token.value)
      case Threw(e) => Threw(e)
      case Returned(payload) =>
        if payload.StringPayload? then Returned(None) else Returned(Some(payload))
  }

  /** `protect(req, requiredRole)`: null means "proceed". */
  function Protect(req: Request, requiredRole: Option<Role>, verify: string -> Verification): (r: Outcome<Option<Response>, Thrown>)
    ensures r.Threw? <==> GetUserFromRequest(req, verify).Threw?
    ensures r.Threw? ==> r.error == GetUserFromRequest(req, verify).error
    ensures r == Returned(Some(Unauthorized)) <==> GetUserFromRequest(req, verify) == Returned(None)
    ensures r == Returned(Some(Forbidden)) <==>
      && requiredRole.Some?
      && GetUserFromRequest(req, verify).Returned?
      && GetUserFromRequest(req, verify).value.Some?
      && RoleOf(GetUserFromRequest(req, verify).value.value) != Some(Text(RoleName(requiredRole.value)))
    ensures r.Returned? ==> r.value == None || r.value == Some(Unauthorized) || r.value == Some(Forbidden)
  {
    match GetUserFromRequest(req, verify)
    case Threw(e) => Threw(e)
    case Returned(None) => Returned(Some(Unauthorized))
    case Returned(Some(user)) =>
      if requiredRole.Some? && RoleOf(user) != Some(Text(RoleName(requiredRole.value))) then
        Returned(Some(Forbidden))
      else Returned(None)
  }

  /** The guard looks at the `Authorization` header only: the path and the
      cookie make no difference. */
  lemma ReadsOnlyAuthorizationHeader(req1: Request, req2: Request, requiredRole: Option<Role>, verify: string -> Verification)
    requires req1.authorization == req2.authorization
    ensures GetUserFromRequest(req1, verify) == GetUserFromRequest(req2, verify)
    ensures Protect(req1, requiredRole, verify) == Protect(req2, requiredRole, verify)
  {
  }

  /** "Bearer" and "Bearer " carry no token: the guard answers 401 without
      consulting the verifier. */
  lemma BareSchemeIsUnauthorized(path: string, cookie: Option<string>, requiredRole: Option<Role>, verify: string -> Verification)
    ensures Protect(Request(path, cookie, Some("Bearer")), requiredRole, verify) == Returned(Some(Unauthorized))
    ensures Protect(Request(path, cookie, Some("Bearer ")), requiredRole, verify) == Returned(Some(Unauthorized))
  {
    assert ' ' !in "Bearer";
    assert "Bearer " == "Bearer" + " " + "";
    HeaderTokenIsSecondWord("Bearer", "");
    assert HeaderToken(Some("Bearer ")) == Some("");
  }

  /** Without a required role the guard never answers 403: any identity
      proceeds. */
  lemma NoRequiredRoleNeverForbidden(req: Request, verify: string -> Verification)
    ensures Protect(req, None, verify) != Returned(Some(Forbidden))
    ensures GetUserFromRequest(req, verify).Returned? && GetUserFromRequest(req, verify).value.Some? ==>
      Protect(req, None, verify) == Returned(None)
  {
  }

  /** The guard matrix: (has valid object token, required role, actual role)
      decides the answer; a verifier failure is an exception, not a 401. */
  lemma GuardMatrix(req: Request, requiredRole: Option<Role>, verify: string -> Verification)
    requires Truthy(HeaderToken(req.authorization))
    ensures var v := verify(HeaderToken(req.authorization).value);
      Protect(req, requiredRole, verify) ==
        match v
        case Threw(e) => Threw(e)
        case Returned(StringPayload(_)) => Returned(Some(Unauthorized))
        case Returned(ObjectPayload(_, role)) =>
          if requiredRole.None? || role == Some(Text(RoleName(requiredRole.value))) then Returned(None)
          else Returned(Some(Forbidden))
  {
  }

  /** A token issued by login-user carries no role: it is refused by every
      role check, including `protect(req, "user")`, and accepted without one. */
  lemma LoginUserTokenHasNoRole(req: Request, verify: string -> Verification, userId: int, role: Role)
    requires Truthy(HeaderToken(req.authorization))
    requires verify(HeaderToken(req.authorization).value) == Returned(LoginUserPayload(userId))
    ensures Protect(req, Some(role), verify) == Returned(Some(Forbidden))
    ensures Protect(req, None, verify) == Returned(None)
  {
  }

  /** Divergence 1: with no cookie and "Bearer <t>" for a token the verifier
      rejects, the middleware answers 401 with the verifier's message while
      `protect` throws that failure at the route handler. */
  lemma RejectedTokenDivergence(path: string, t: string, protectedRoutes: seq<string>, adminRoutes: seq<string>,
                                requiredRole: Option<Role>, verify: string -> Verification)
    requires t != "" && ' ' !in t
    requires Middleware.MatchesAny(path, protectedRoutes)
    requires verify(t).Threw?
    ensures var req := Request(path, None, Some(Middleware.BearerPrefix + t));
      && Middleware.Handle(req, protectedRoutes, adminRoutes, verify) == Json(401, ErrorBody(Middleware.FailureMessage(verify(t).error)))
      && Protect(req, requiredRole, verify) == Threw(verify(t).error)
  {
    HeaderTokenIsSecondWord("Bearer", t);
    TakeUntilConcat(t, "", ' ');
    assert t + "" == t;
    assert Middleware.BearerPrefix + t == "Bearer" + " " + t;
  }

  /** Divergence 2: the guard does not check the scheme word, so
      "Basic <t>" reaches the verifier and, for an admin payload, passes an
      admin check, while the middleware finds no credential in it. */
  lemma SchemeWordIgnoredDivergence(path: string, t: string, protectedRoutes: seq<string>, adminRoutes: seq<string>,
                                    verify: string -> Verification, userId: Option<ClaimValue>)
    requires t != "" && ' ' !in t
    requires Middleware.MatchesAny(path, protectedRoutes)
    requires verify(t) == Returned(ObjectPayload(userId, Some(Text("admin"))))
    ensures var req := Request(path, None, Some("Basic " + t));
      && Middleware.Handle(req, protectedRoutes, adminRoutes, verify) == Middleware.Unauthorized
      && Protect(req, Some(Admin), verify) == Returned(None)
  {
    HeaderTokenIsSecondWord("Basic", t);
    TakeUntilConcat(t, "", ' ');
    assert t + "" == t;
    assert "Basic " + t == "Basic" + " " + t;
    Middleware.SchemeWord("Basic", t);
  }

  /** Divergence 3: a request authenticated by cookie alone passes the
      middleware on a protected path outside the admin prefixes, and is then
      refused by the guard, which never reads cookies. */
  lemma CookieOnlyDivergence(path: string, cookie: string, protectedRoutes: seq<string>, adminRoutes: seq<string>,
                             requiredRole: Option<Role>, verify: string -> Verification)
    requires cookie != ""
    requires Middleware.MatchesAny(path, protectedRoutes) && !Middleware.MatchesAny(path, adminRoutes)
    requires verify(cookie).Returned?
    ensures var req := Request(path, Some(cookie), None);
      && Middleware.Handle(req, protectedRoutes, adminRoutes, verify) == Next
      && Protect(req, requiredRole, verify) == Returned(Some(Unauthorized))
  {
  }

  // ---------------------------------------------------------------------
  // A verifier failure escapes the guard

  /** The guard as written, on a concrete request: a bearer token the
      verifier rejects (here as expired) makes `protect` throw instead of
      answering 401, and a route handler that calls it without a `try`
      fails with that exception. */
  lemma ExpiredTokenEscapesGuard()
    ensures Protect(Request("/api/user/books", None, Some("Bearer abc")), None, t => Threw(ErrorObject("jwt expired")))
         == Threw(ErrorObject("jwt expired"))
  {
    var header := "Bearer abc";
    assert header == "Bearer" + " " + "abc";
    HeaderTokenIsSecondWord("Bearer", "abc");
    TakeUntilConcat("abc", "", ' ');
    assert "abc" + "" == "abc";
    assert HeaderToken(Some(header)) == Some("abc");
  }

  /** `getUserFromRequest` as its null check and its return type intend: a
      token the verifier rejects yields no identity, like a missing one. */
  function GetUserFromRequestCaught(req: Request, verify: string -> Verification): (r: Option<Payload>)
    ensures r.Some? <==>
      && Truthy(HeaderToken(req.authorization))
      && verify(HeaderToken(req.authorization).value).Returned?
      && verify(HeaderToken(req.authorization).value).value.ObjectPayload?
    ensures r.Some? ==> Returned(r.value) == verify(HeaderToken(req.authorization).value)
  {
    match GetUserFromRequest(req, verify)
    case Threw(_) => None
    case Returned(user) => user
  }

  /** `protect` over the corrected lookup: it never throws, refuses with 401
      exactly when there is no identity, and agrees with the guard as
      written wherever that one returns. */
  function ProtectCaught(req: Request, requiredRole: Option<Role>, verify: string -> Verification): (r: Option<Response>)
    ensures r == Some(Unauthorized) <==> GetUserFromRequestCaught(req, verify).None?
    ensures r == Some(Forbidden) <==>
      && requiredRole.Some?
      && GetUserFromRequestCaught(req, verify).Some?
      && RoleOf(GetUserFromRequestCaught(req, verify).value) != Some(Text(RoleName(requiredRole.value)))
    ensures r == None || r == Some(Unauthorized) || r == Some(Forbidden)
    ensures Protect(req, requiredRole, verify).Returned? ==> r == Protect(req, requiredRole, verify).value
  {
    match GetUserFromRequestCaught(req, verify)
    case None => Some(Unauthorized)
    case Some(user) =>
      if requiredRole.Some? && RoleOf(user) != Some(Text(RoleName(requiredRole.value))) then Some(Forbidden)
      else None
  }

  /** With the corrected guard the first divergence disappears: a bearer
      token the verifier rejects is refused with 401 by both layers. */
  lemma RejectedTokenRefusedByBoth(path: string, t: string, protectedRoutes: seq<string>, adminRoutes: seq<string>,
                                   requiredRole: Option<Role>, verify: string -> Verification)
    requires t != "" && ' ' !in t
    requires Middleware.MatchesAny(path, protectedRoutes)
    requires verify(t).Threw?
    ensures var req := Request(path, None, Some(Middleware.BearerPrefix + t));
      && Middleware.Handle(req, protectedRoutes, adminRoutes, verify).Json?
      && Middleware.Handle(req, protectedRoutes, adminRoutes, verify).status == 401
      && ProtectCaught(req, requiredRole, verify) == Some(Unauthorized)
  {
    RejectedTokenDivergence(path, t, protectedRoutes, adminRoutes, requiredRole, verify);
  }
}

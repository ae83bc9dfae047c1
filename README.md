# Libraria authentication and authorization, modelled in Dafny

Libraria is a Next.js library-management application. This project models
the code that decides who may call what, and how the browser side finds
its credential:

- **the edge middleware** (`src/middleware.ts`). It takes a credential from
  the `token` cookie, or else from an `Authorization: Bearer …` header,
  and verifies it. Then, per path prefix, it lets the request through or
  answers 401 or 403 (module `Middleware`).
- **the handler-level guard** (`libs/auth.ts`). `getUserFromRequest` and
  `protect` read only the `Authorization` header and check an optional
  required role (module `Auth`).
- **the token verifier** (`libs/jwt.ts`). The `jsonwebtoken` library is a
  parameter of the model, and the verifier maps its failures to `Error`s
  (module `Jwt`).
- **the API client helpers** (`src/app/services/api.ts`). `getAuthHeader`
  derives the bearer header from the cookie string. `handleResponse` turns
  a fetch response into data or an `ApiError` (module `ApiClient`).
- **the landing page's redirect** (`src/app/page.tsx`). Its own `getCookie`
  and the decision to go to the dashboard are in module `HomePage`.
- **the locale hook** (`src/app/hooks/useLanguage.ts`). It extracts the
  locale from the first path segment and rewrites that segment. Its state
  is the class `Language.LanguageHook`: the current locale, the stored
  preference, the rendered path and the navigation log.

Three modules support these:

- `Js` models the JavaScript semantics the code relies on: truthiness,
  `startsWith`, `indexOf`, `split` on a non-empty separator, and thrown
  values.
- `NextServer` models the request and response shapes.
- `CookieJar` serialises a list of cookies as section 4.2.1 of RFC 6265
  does (`name=value` pairs joined by "; "). On such strings it states
  exactly what each of the two cookie readers returns.

The verifier, the secret, the route prefix tables, `document.cookie`, the
JSON parser and local storage are all inputs. The router's navigations
are an output.

Two points of the code matter for how the model reads:

- `getUserFromRequest` is declared to return `null | payload`
  (`libs/auth.ts:6`) and checks `!payload` (`libs/auth.ts:14`), yet it
  calls `verifyToken` without a `try` (`libs/auth.ts:12`). A rejected
  token therefore escapes `protect` as an exception. The model keeps that
  behaviour and records the discrepancy under "## Findings".
- `signToken` issues tokens with a default lifetime of `'7h'`
  (`libs/jwt.ts:5`). Issuing is outside the model, and no modelled
  decision depends on the lifetime.

## Model

| member | source | states |
|---|---|---|
| Js.Split | src/app/services/api.ts:13-16 | the parts of `split` joined with the separator give back the input, and no part contains the separator |
| Js.SplitJoin | src/app/services/api.ts:13-14 | splitting parts joined by a separator whose first character none of them holds gives back the parts exactly |
| Js.FirstFieldIsTakeUntil | src/app/page.tsx:16 | `split(c)[0]` (here `.split(';').shift()`) is the text up to the first `c` |
| Jwt.VerifyToken | libs/jwt.ts:12-21 | a missing or empty secret throws "JWT_SECRET is not defined" before the library runs; a decoded payload passes through unchanged; every failure is an `Error`; a library `Error` is re-thrown with its own message; a non-`Error` failure becomes "Invalid token" |
| Jwt.LoginUserPayload | src/app/api/auth/login-user/route.tsx:47 | a login-user token decodes to an object with no `role` claim |
| Middleware.ExtractToken | src/middleware.ts:11-17 | a non-empty cookie wins; otherwise there is a token exactly when the header starts with "Bearer " and goes on after it, and then the header is "Bearer " + token |
| Middleware.Handle | src/middleware.ts:5-43 | paths outside the protected prefixes pass; every answer is pass, 403 or a 401 with an `error` body; 403 exactly for a verified token on an admin path whose role is not "admin"; a protected request passes only with a verified token |
| Middleware.CookieTakesPrecedence | src/middleware.ts:11-12 | with a non-empty cookie the header is irrelevant |
| Middleware.BearerHeaderOnly | src/middleware.ts:12-16 | without a cookie, "Bearer t" yields `t`, and any other scheme word yields no token |
| Middleware.SchemeWord | src/middleware.ts:14 | "scheme t" starts with "Bearer " only when the scheme word is "Bearer" |
| Middleware.NoTokenIsUnauthorized | src/middleware.ts:19-21 | a protected request without a credential gets 401 "Unauthorized", whatever the verifier would say |
| Middleware.DecisionDependsOnlyOnExtractedToken | src/middleware.ts:23-24 | two verifiers that agree on the extracted token give the same decision |
| Middleware.VerificationFailureIsUnauthorized | src/middleware.ts:34-38 | a verifier failure on a protected path is a 401 carrying the failure's message |
| Middleware.VerifiedNonAdminPathAllowed | src/middleware.ts:26-33 | a verified token on a protected non-admin path passes, whatever its payload |
| Middleware.AdminPathNeedsAdminRole | src/middleware.ts:27-31 | on an admin path only an object payload with role "admin" passes; anything else gets 403 |
| Middleware.LoginUserTokenNeverAdmin | src/middleware.ts:27-31 | a login-user token never passes an admin prefix |
| Middleware.WithVerifyToken | src/middleware.ts:34-38 | with the application's verifier, the fallback text "Invalid or expired token" appears only if the library itself threw an `Error` with that text; a missing secret gives 401 "JWT_SECRET is not defined" |
| Auth.HeaderToken | libs/auth.ts:7-8 | no token without a header or without a space in it; a token never holds a space |
| Auth.HeaderTokenIsSecondWord | libs/auth.ts:8 | for any first word, the token is the text after the first space up to the next one |
| Auth.GetUserFromRequest | libs/auth.ts:6-17 | null without a non-empty token and for a string payload; the object payload otherwise; it throws exactly when the verifier throws |
| Auth.Protect | libs/auth.ts:19-30 | it throws exactly when the lookup throws; 401 exactly when there is no identity; 403 exactly when a role is required and the identity's role differs; nothing else is returned |
| Auth.ReadsOnlyAuthorizationHeader | libs/auth.ts:7-8 | path and cookie do not affect the guard |
| Auth.BareSchemeIsUnauthorized | libs/auth.ts:8-10 | "Bearer" and "Bearer " get 401 without verification |
| Auth.NoRequiredRoleNeverForbidden | libs/auth.ts:25-27 | with no required role the guard never answers 403 |
| Auth.GuardMatrix | libs/auth.ts:19-30 | the answer for each combination of verifier result, required role and actual role |
| Auth.LoginUserTokenHasNoRole | libs/auth.ts:25-27 | a login-user token is refused by every role check and accepted without one |
| Auth.RejectedTokenDivergence | libs/auth.ts:12 | for a rejected bearer token the middleware answers 401 while `protect` throws |
| Auth.SchemeWordIgnoredDivergence | libs/auth.ts:8 | "Basic t" with an admin payload passes `protect(req, "admin")`, but the middleware answers 401 |
| Auth.CookieOnlyDivergence | libs/auth.ts:7 | a cookie-only request passes the middleware on a non-admin path but gets 401 from `protect` |
| Auth.ExpiredTokenEscapesGuard | libs/auth.ts:12 | "Bearer abc" with a verifier that rejects it as expired makes `protect` throw |
| Auth.GetUserFromRequestCaught | libs/auth.ts:12-14 | corrected lookup: an identity exactly when the token verifies to an object payload, and then that payload |
| Auth.ProtectCaught | libs/auth.ts:19-30 | corrected guard: never throws; 401 exactly without an identity; 403 exactly on a role mismatch; agrees with `protect` wherever `protect` returns |
| Auth.RejectedTokenRefusedByBoth | libs/auth.ts:12 | with the corrected guard, a rejected bearer token gets 401 from both layers |
| ApiClient.FindIndex | src/app/services/api.ts:14 | `find` returns the first row with the prefix, or none when no row has it |
| ApiClient.SecondFieldOfRow | src/app/services/api.ts:15 | for a row starting with "token=", `split('=')[1]` exists and is the value up to its next "=" |
| ApiClient.FindIndexIsFirstMatch | src/app/services/api.ts:14 | the row `find` returns is the first row with the prefix, and no other row is |
| ApiClient.HeaderOfRows | src/app/services/api.ts:11-18 | on the rows of `split('; ')`, there is a header exactly when the first "token=" row has a non-empty value before any further "="; the header is then "Bearer " + that text |
| ApiClient.GetAuthHeader | src/app/services/api.ts:11-18 | a header sent is "Bearer " and a non-empty token without "="; on a cookie string built from a cookie list, CookieJar.AuthHeaderOfJar states exactly which header it is |
| ApiClient.HandleResponse | src/app/services/api.ts:20-30 | a status outside 200..299 throws `ApiError` with the status and body text; a successful status returns exactly when the body parses, with the parsed data, that status and no error; a body that does not parse rejects with the JSON syntax error |
| HomePage.GetCookie | src/app/page.tsx:13-18 | a found value holds no ";" |
| HomePage.RedirectOnLoad | src/app/page.tsx:20-24 | the page redirects, to "/pages/dashboard", exactly when `getCookie('token')` is non-empty |
| HomePage.MarkerDoesNotOverlap | src/app/page.tsx:15 | two occurrences of "; name=" never overlap |
| HomePage.GetCookieSpec | src/app/page.tsx:13-18 | a value exactly when "; name=" occurs exactly once in "; " + cookie, and then the text after it up to the first ";" |
| HomePage.GetCookieAtFirst | src/app/page.tsx:14-16 | after the first "; name=", the value up to ";" when no second occurrence follows, and null when one does |
| HomePage.OnlyOccurrenceIffRestClear | src/app/page.tsx:16 | the first occurrence is the only one exactly when the rest holds none |
| CookieJar.PairPrefix | src/app/services/api.ts:14 | a `name=value` row starts with "key=" exactly when its name is the key |
| CookieJar.RowsOfJar | src/app/services/api.ts:13 | `split('; ')` of a serialised jar gives its pairs |
| CookieJar.AuthHeaderOfJar | src/app/services/api.ts:11-18 | on any well-formed cookie string, the header is decided by the first "token" cookie alone: "Bearer " + its value up to any "=", when that is non-empty |
| CookieJar.SplitSegments | src/app/page.tsx:14-15 | the split has one more part than there are cookies with the name; with exactly one, the second part starts with its value |
| CookieJar.GetCookieOfJar | src/app/page.tsx:13-18 | on any well-formed cookie string, `getCookie(name)` is the value of the only cookie with that name, and null when there are none or several |
| CookieJar.DuplicateTokenReadersDisagree | src/app/page.tsx:16 | with two "token" cookies the page finds none and does not redirect, while `getAuthHeader` still sends the first |
| CookieJar.SingleTokenReadersAgree | src/app/page.tsx:20-24 | with one "token" cookie both readers see its value (the header cuts it at "="); the page redirects exactly when the value is non-empty |
| CookieJar.HeaderForPlainValue | src/app/services/api.ts:15-17 | a non-empty value without "=" is sent whole |
| CookieJar.LongerNameNotMatched | src/app/page.tsx:15 | a cookie named "xtoken" is found by neither reader |
| Language.LocaleFromPath | src/app/hooks/useLanguage.ts:12 | there is a candidate exactly when the path holds a "/", and a candidate holds no "/" |
| Language.LocaleIsFirstSegment | src/app/hooks/useLanguage.ts:12 | for a path starting with "/", the candidate is the first segment |
| Language.ReplaceFirstSegment | src/app/hooks/useLanguage.ts:23 | a path the expression does not match is unchanged; otherwise the result is "/" + locale followed by a suffix of the path that is empty or starts with "/" |
| Language.ReplaceSegment | src/app/hooks/useLanguage.ts:23 | "/" + segment + rest becomes "/" + locale + rest, whatever the segment |
| Language.SegmentOf | src/app/hooks/useLanguage.ts:23 | every matching path is "/" + segment + rest, and its candidate locale is that segment |
| Language.RewrittenPathNamesLocale | src/app/hooks/useLanguage.ts:12-23 | after a rewrite the path names the new locale, so the effect reads it back after navigation |
| Language.PathOfLocale | src/app/hooks/useLanguage.ts:12 | "/" + locale + rest names the locale |
| Language.ReplaceIdempotent | src/app/hooks/useLanguage.ts:23 | rewriting twice to the same locale is rewriting once |
| Language.ReplaceSameLocale | src/app/hooks/useLanguage.ts:23 | rewriting to the locale the path already names changes nothing |
| Language.LanguageHook.constructor | src/app/hooks/useLanguage.ts:8-17 | the hook starts at the default locale; the first effect run adopts and stores a supported path locale |
| Language.LanguageHook.SyncWithPath | src/app/hooks/useLanguage.ts:10-17 | a supported path locale becomes the current and stored locale; otherwise nothing changes |
| Language.LanguageHook.Render | src/app/hooks/useLanguage.ts:17 | the effect runs again only when the path changed |
| Language.LanguageHook.ChangeLanguage | src/app/hooks/useLanguage.ts:19-29 | an unsupported locale changes nothing; otherwise the rewritten path is pushed and the locale becomes current and stored; the locale is always supported and is the stored one unless this hook has not yet written one; the hook never reads `preferredLocale` |

## Left out

- The `jsonwebtoken` library's signature, algorithm and expiry checks are not modelled. They are a parameter that decodes a payload or throws.
- `signToken` (`libs/jwt.ts:5-10`) and its `'7h'` lifetime are not modelled. Issuing plays no part in any decision here; `Jwt.LoginUserPayload` keeps the claim shape login-user signs.
- `protectedApiRoutes` and `adminApiRoutes` come from a configuration file that is not part of this model. They are parameters.
- Claim values are strings or numbers only. Booleans, arrays and nested objects are not represented; they compare unequal to "admin" just as numbers do.
- Route handlers, pages and components are rendering and database code, and are not modelled.
- `api.get` and `api.post` (`src/app/services/api.ts:32-54`) are not modelled. They are network I/O around the two helpers that are.
- `response.text()` and `response.json()` are not modelled as operations. The body is one string and the JSON parser is a parameter; the rejection of either promise for other reasons is not modelled.
- `async`/`await` and React's scheduling are not modelled. That covers batched state updates, when effects run, and concurrent requests. Each operation is one atomic step.
- `usePathname()` is not modelled as ever returning null. `router.push` is a recorded navigation, local storage is a field, and `document.cookie` is a parameter.
- Language.ReplaceFirstSegment: does not model `$` patterns in `replace`'s replacement string, because the hook only passes "id" or "en", which hold none.
- `split` on an empty separator is not modelled; the code never uses one.
- CookieJar.WellFormed: only the characters the readers depend on are restricted (no ";" or "=" in names, no ";" in values). The other RFC 6265 limits on names and values are not modelled.

## Findings

| source | as written | input that shows it | evidently intended | confidence | as-written member | corrected member |
|---|---|---|---|---|---|---|
| libs/auth.ts:12 | `verifyToken` is called without a `try`, so a token the verifier rejects makes `getUserFromRequest`, and with it `protect`, throw into route handlers that do not catch it | header "Bearer abc", with a verifier that rejects "abc" as expired | a rejected token means no identity: null and then 401, as the `!payload` check on line 14 and the `null \| payload` return type expect | medium, not executed | Auth.ExpiredTokenEscapesGuard | Auth.ProtectCaught |

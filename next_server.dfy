/** The parts of a Next.js request and response the authorization code looks
    at. */
module NextServer {
  import opened Js

  /** An inbound request: its path, the value of the `token` cookie and the
      `Authorization` header (each absent when the request has none). */
  datatype Request = Request(pathname: string, tokenCookie: Option<string>, authorization: Option<string>)

  /** The JSON body of a rejection: the middleware answers with an `error`
      key, the handler-level guard with a `message` key. */
  datatype Body = ErrorBody(error: string) | MessageBody(message: string)

  /** `NextResponse.next()` or `NextResponse.json(body, { status })`. */
  datatype Response = Next | Json(status: int, body: Body)
}

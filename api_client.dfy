/** The client-side request helpers of src/app/services/api.ts that decide
    something: `getAuthHeader`, which turns the browser's cookie string into
    an `Authorization` header, and `handleResponse`, which turns a fetch
    response into a result or an `ApiError`. The fetch calls themselves
    (`api.get`, `api.post`) are network I/O and not part of this model. */
module ApiClient {
  import opened Js

  /** `config.auth.tokenKey` */
  const TokenKey := "token"

  /** The prefix a cookie row must start with: `${tokenKey}=` */
  const RowPrefix := TokenKey + "="

  /** `rows.find(row => row.startsWith(prefix))`, as the index of the row
      found. */
  function FindIndex(rows: seq<string>, prefix: string): (r: Option<nat>)
    ensures r.Some? ==> r.value < |rows| && StartsWith(rows[r.value], prefix)
    ensures r.Some? ==> forall j :: 0 <= j < r.value ==> !StartsWith(rows[j], prefix)
    ensures r.None? ==> forall j :: 0 <= j < |rows| ==> !StartsWith(rows[j], prefix)
  {
    if |rows| == 0 then None
    else if StartsWith(rows[0], prefix) then Some(0)
    else
      match FindIndex(rows[1..], prefix)
      case None => None
      case Some(k) => Some(k + 1)
  }

  /** A row that starts with "token=" splits on "=" into "token" and the
      fields of the rest: its second field is the text up to the next "=". */
  lemma SecondFieldOfRow(row: string)
    requires StartsWith(row, RowPrefix)
    ensures |Split(row, "=")| >= 2
    ensures Split(row, "=")[1] == TakeUntil(row[|RowPrefix|..], '=')
  {
    var n := |TokenKey|;
    assert row[..n + 1] == TokenKey + "=";
    assert row[n..n + 1] == "=";
    assert '=' !in TokenKey;
    forall j | 0 <= j < n ensures !OccursAt(row, "=", j) {
      assert row[j] == TokenKey[j];
      assert row[j..j + 1] == [row[j]];
    }
    IndexOfLeftmost(row, "=", n);
    SplitAtFirst(row, "=", n);
    FirstFieldIsTakeUntil(row[n + 1..], '=');
  }

  /** Row `k` is the first row starting with `prefix`. */
  predicate IsFirstMatch(rows: seq<string>, prefix: string, k: int) {
    0 <= k < |rows| && StartsWith(rows[k], prefix)
    && forall j :: 0 <= j < k ==> !StartsWith(rows[j], prefix)
  }

  /** `FindIndex` finds the first matching row, and there is no other. */
  lemma FindIndexIsFirstMatch(rows: seq<string>, prefix: string)
    ensures forall k :: IsFirstMatch(rows, prefix, k) <==> FindIndex(rows, prefix) == Some(k)
  {
    forall k | IsFirstMatch(rows, prefix, k) ensures FindIndex(rows, prefix) == Some(k) {
      var r := FindIndex(rows, prefix);
      assert r.Some? && !(r.value < k) && !(k < r.value);
    }
  }

  /** What `getAuthHeader` makes of the cookie rows: `Some(h)` is
      `{ Authorization: h }`, `None` is `{}`. */
  function HeaderOfRows(rows: seq<string>): (h: Option<string>)
    // the header is present exactly when the first "token=" row has a non-empty value before any second "="
    ensures h.Some? <==> exists k :: IsFirstMatch(rows, RowPrefix, k) && TakeUntil(rows[k][|RowPrefix|..], '=') != ""
    // and then it is "Bearer " followed by exactly that text
    ensures forall k :: IsFirstMatch(rows, RowPrefix, k) ==>
      h == (if TakeUntil(rows[k][|RowPrefix|..], '=') == "" then None
            else Some("Bearer " + TakeUntil(rows[k][|RowPrefix|..], '=')))
    // a header sent is "Bearer " and a non-empty token without "="
    ensures h.Some? ==> StartsWith(h.value, "Bearer ") && |h.value| > 7 && '=' !in h.value[7..]
  {
    FindIndexIsFirstMatch(rows, RowPrefix);
    match FindIndex(rows, RowPrefix)
    case None => None
    case Some(k) =>
      SecondFieldOfRow(rows[k]);
      var token := Split(rows[k], "=")[1];
      if token != "" then Some("Bearer " + token) else None
  }

  /** `getAuthHeader()` on the cookie string `cookie`: the rows are the
      text between successive "; ". */
  function GetAuthHeader(cookie: string): (h: Option<string>)
    // the header has the form of section 2.1 of RFC 6750: "Bearer " and a non-empty token, here never holding "="
    ensures h.Some? ==> StartsWith(h.value, "Bearer ") && |h.value| > 7 && '=' !in h.value[7..]
  {
    HeaderOfRows(Split(cookie, "; "))
  }

  /** The part of a fetch `Response` that `handleResponse` reads. */
  datatype FetchResponse = FetchResponse(status: int, body: string)

  /** `response.ok`: the status is in the range 200 to 299 (Fetch standard). */
  predicate Ok(response: FetchResponse) {
    200 <= response.status <= 299
  }

  /** `ApiResponse<T>` of src/app/types/index.ts. */
  datatype ApiResponse<T> = ApiResponse(data: Option<T>, error: Option<string>, status: int)

  /** What `handleResponse` can throw: its own `ApiError` (status and body
      text), or the syntax error of `response.json()` on a body that is not
      JSON. */
  datatype ClientError = ApiError(status: int, message: string) | JsonSyntaxError

  /** `handleResponse(response)`, with `response.json()` given as a parser
      that answers `None` on malformed JSON. */
  function HandleResponse<T>(response: FetchResponse, parseJson: string -> Option<T>): (r: Outcome<ApiResponse<T>, ClientError>)
    // a response that is not ok never returns: it throws ApiError with its status and body text
    ensures !Ok(response) <==> r == Threw(ApiError(response.status, response.body))
    // a result carries the response status, the parsed body and no error
    ensures r.Returned? ==>
      Ok(response) && r.value.status == response.status && r.value.error.None?
      && parseJson(response.body) == r.value.data && r.value.data.Some?
    ensures Ok(response) ==> (r.Returned? <==> parseJson(response.body).Some?)
    // an ok response whose body is not JSON rejects with the parser's syntax error
    ensures Ok(response) && parseJson(response.body).None? ==> r == Threw(JsonSyntaxError)
  {
    if !Ok(response) then Threw(ApiError(response.status, response.body))
    else
      match parseJson(response.body)
      case None => Threw(JsonSyntaxError)
      case Some(data) => Returned(ApiResponse(Some(data), None, response.status))
  }
}

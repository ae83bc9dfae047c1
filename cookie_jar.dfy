/** The cookie string both client-side readers parse: `document.cookie`
    lists the cookies as `name=value` pairs joined by "; " (section 4.2.1 of
    RFC 6265). On such strings this module states what each reader returns
    and where the two disagree: `getCookie` of src/app/page.tsx gives up on a
    name that appears twice, `getAuthHeader` of src/app/services/api.ts takes
    the first and cuts its value at a second "=". */
module CookieJar {
  import opened Js
  import ApiClient
  import HomePage

  datatype Cookie = Cookie(name: string, value: string)

  /** Names hold neither ";" nor "=", values hold no ";" (RFC 6265 forbids
      more; these are the characters the readers depend on). */
  predicate ValidName(name: string) {
    ';' !in name && '=' !in name
  }

  predicate WellFormed(jar: seq<Cookie>) {
    forall k :: 0 <= k < |jar| ==> ValidName(jar[k].name) && ';' !in jar[k].value
  }

  function Pair(c: Cookie): string {
    c.name + "=" + c.value
  }

  function Pairs(jar: seq<Cookie>): (rows: seq<string>)
    ensures |rows| == |jar|
    ensures forall k :: 0 <= k < |jar| ==> rows[k] == Pair(jar[k])
  {
    if jar == [] then [] else [Pair(jar[0])] + Pairs(jar[1..])
  }

  /** The cookie string of `jar`. */
  function Serialize(jar: seq<Cookie>): string {
    Join(Pairs(jar), "; ")
  }

  /** How many cookies are named `name`. */
  function Count(jar: seq<Cookie>, name: string): nat {
    if jar == [] then 0 else (if jar[0].name == name then 1 else 0) + Count(jar[1..], name)
  }

  /** The position of the first cookie named `name`. */
  function FirstIndex(jar: seq<Cookie>, name: string): (r: Option<nat>)
    ensures r.Some? ==> r.value < |jar| && jar[r.value].name == name
    ensures r.Some? ==> forall j :: 0 <= j < r.value ==> jar[j].name != name
    ensures r.None? ==> forall j :: 0 <= j < |jar| ==> jar[j].name != name
  {
    if jar == [] then None
    else if jar[0].name == name then Some(0)
    else
      match FirstIndex(jar[1..], name)
      case None => None
      case Some(k) => Some(k + 1)
  }

  /** The value of the first cookie named `name`. */
  function FirstValue(jar: seq<Cookie>, name: string): Option<string> {
    match FirstIndex(jar, name)
    case None => None
    case Some(k) => Some(jar[k].value)
  }

  /** A name is absent exactly when no first cookie of that name exists. */
  lemma {:induction false} CountZeroNoValue(jar: seq<Cookie>, name: string)
    ensures Count(jar, name) == 0 <==> FirstValue(jar, name).None?
  {
    if jar != [] {
      CountZeroNoValue(jar[1..], name);
    }
  }

  /** A pair starts with "<key>=" exactly when its name is `key`. */
  lemma PairPrefix(name: string, rest: string, key: string)
    requires '=' !in name && '=' !in key
    ensures StartsWith(name + "=" + rest, key + "=") <==> name == key
  {
    var s, p := name + "=" + rest, key + "=";
    if StartsWith(s, p) {
      assert forall k :: 0 <= k < |name| ==> s[k] == name[k] != '=';
      assert forall k :: 0 <= k < |key| ==> s[k] == p[k] == key[k] != '=';
      assert s[|name|] == '=' && p[|key|] == '=';
      assert |name| == |key|;
      assert name == s[..|name|] == key;
    }
  }

  // ---------------------------------------------------------------------
  // getAuthHeader

  /** The header `getAuthHeader` sends for the first `token` cookie's
      value: "Bearer " and the value up to its first "=", when that is not
      empty. */
  function HeaderFor(first: Option<string>): Option<string> {
    match first
    case None => None
    case Some(v) => if TakeUntil(v, '=') == "" then None else Some("Bearer " + TakeUntil(v, '='))
  }

  /** The rows `getAuthHeader` splits a serialised jar into are its pairs. */
  lemma RowsOfJar(jar: seq<Cookie>)
    requires WellFormed(jar) && jar != []
    ensures Split(Serialize(jar), "; ") == Pairs(jar)
  {
    forall k | 0 <= k < |jar| ensures ';' !in Pairs(jar)[k] {
    }
    SplitJoin(Pairs(jar), "; ");
  }

  /** `getAuthHeader` on a well-formed cookie string: the header is decided
      by the first `token` cookie alone. */
  lemma AuthHeaderOfJar(jar: seq<Cookie>)
    requires WellFormed(jar)
    ensures ApiClient.GetAuthHeader(Serialize(jar)) == HeaderFor(FirstValue(jar, ApiClient.TokenKey))
  {
    var key, prefix := ApiClient.TokenKey, ApiClient.RowPrefix;
    assert prefix == key + "=" && '=' !in key;
    if jar == [] {
      SplitNoSeparator("", "; ");
    } else {
      RowsOfJar(jar);
      var rows := Pairs(jar);
      forall k | 0 <= k < |jar| ensures StartsWith(rows[k], prefix) <==> jar[k].name == key {
        PairPrefix(jar[k].name, jar[k].value, key);
      }
      match FirstIndex(jar, key)
      case None =>
      case Some(k) =>
        assert rows[k][|prefix|..] == jar[k].value;
    }
  }

  // ---------------------------------------------------------------------
  // getCookie

  /** `"; " + Serialize(jar)` as one "; name=value" segment per cookie. */
  function Segments(jar: seq<Cookie>): string {
    if jar == [] then "" else "; " + Pair(jar[0]) + Segments(jar[1..])
  }

  lemma {:induction false} SegmentsOfSerialize(jar: seq<Cookie>)
    requires jar != []
    ensures "; " + Serialize(jar) == Segments(jar)
  {
    if |jar| > 1 {
      SegmentsOfSerialize(jar[1..]);
      assert Pairs(jar)[1..] == Pairs(jar[1..]);
    }
  }

  lemma SegmentsStart(jar: seq<Cookie>)
    ensures Segments(jar) == [] || Segments(jar)[0] == ';'
  {
  }

  /** No marker starts inside text free of ";". */
  lemma NoMarkerIn(a: string, x: string, name: string)
    requires ';' !in a
    ensures forall j :: 0 <= j < |a| ==> !OccursAt(a + x, HomePage.Marker(name), j)
  {
    var m := HomePage.Marker(name);
    forall j | 0 <= j < |a| ensures !OccursAt(a + x, m, j) {
      OccursAtHead(a + x, m, j);
      assert (a + x)[j] == a[j];
    }
  }

  /** A marker at the start of "; " + p means p starts with "<name>=". */
  lemma MarkerAtStart(p: string, name: string)
    ensures OccursAt("; " + p, HomePage.Marker(name), 0) ==> StartsWith(p, name + "=")
  {
    var s, m := "; " + p, HomePage.Marker(name);
    if OccursAt(s, m, 0) {
      assert p[..|m| - 2] == s[2..|m|] == m[2..] == name + "=";
    }
  }

  /** A segment for another name holds no marker for `name`. */
  lemma NoMarkerInOtherSegment(c: Cookie, x: string, name: string)
    requires ValidName(c.name) && ';' !in c.value && ValidName(name) && c.name != name
    ensures forall j :: 0 <= j < |"; " + Pair(c)| ==> !OccursAt("; " + Pair(c) + x, HomePage.Marker(name), j)
  {
    var e, m := "; " + Pair(c), HomePage.Marker(name);
    var s := e + x;
    PairPrefix(c.name, c.value + x, name);
    assert s == "; " + (c.name + "=" + (c.value + x));
    MarkerAtStart(c.name + "=" + (c.value + x), name);
    NoMarkerIn(e[1..], x, name);
    assert s == [e[0]] + (e[1..] + x);
    forall j | 1 <= j < |e| ensures !OccursAt(s, m, j) {
      OccursAtShift([e[0]], e[1..] + x, m, j - 1);
    }
  }

  /** The first segment, for cookie `name`, starts with the marker and
      leaves the value glued to the next part. */
  lemma SplitSegmentsSame(jar: seq<Cookie>, name: string)
    requires jar != [] && jar[0].name == name && ';' !in jar[0].value
    ensures var tail := Split(Segments(jar[1..]), HomePage.Marker(name));
      Split(Segments(jar), HomePage.Marker(name)) == [""] + ([jar[0].value + tail[0]] + tail[1..])
  {
    var m, v, x := HomePage.Marker(name), jar[0].value, Segments(jar[1..]);
    var s := Segments(jar);
    assert s == m + (v + x);
    assert s[..|m|] == m;
    SplitAtStart(s, m);
    assert s[|m|..] == v + x;
    NoMarkerIn(v, x, name);
    SplitPrepend(v, x, m);
  }

  /** The first segment, for another cookie, holds no marker. */
  lemma SplitSegmentsOther(jar: seq<Cookie>, name: string)
    requires jar != [] && ValidName(jar[0].name) && ';' !in jar[0].value && ValidName(name) && jar[0].name != name
    ensures var tail := Split(Segments(jar[1..]), HomePage.Marker(name));
      Split(Segments(jar), HomePage.Marker(name)) == ["; " + Pair(jar[0]) + tail[0]] + tail[1..]
  {
    var x := Segments(jar[1..]);
    NoMarkerInOtherSegment(jar[0], x, name);
    SplitPrepend("; " + Pair(jar[0]), x, HomePage.Marker(name));
  }

  /** Splitting the segments on the marker: one more part than there are
      cookies named `name`, and when there is exactly one such cookie the
      second part begins with its value followed by ";" or the end. */
  lemma {:induction false} SplitSegments(jar: seq<Cookie>, name: string)
    requires WellFormed(jar) && ValidName(name)
    ensures |Split(Segments(jar), HomePage.Marker(name))| == 1 + Count(jar, name)
    ensures Count(jar, name) == 1 ==>
      && FirstValue(jar, name).Some?
      && TakeUntil(Split(Segments(jar), HomePage.Marker(name))[1], ';') == FirstValue(jar, name).value
  {
    var m := HomePage.Marker(name);
    if jar == [] {
      SplitNoSeparator("", m);
    } else {
      var rest := jar[1..];
      var x := Segments(rest);
      var tail := Split(x, m);
      SplitSegments(rest, name);
      CountZeroNoValue(jar, name);
      if jar[0].name == name {
        SplitSegmentsSame(jar, name);
        if Count(jar, name) == 1 {
          assert tail == [x];
          SegmentsStart(rest);
          TakeUntilConcat(jar[0].value, x, ';');
        }
      } else {
        SplitSegmentsOther(jar, name);
        assert FirstValue(jar, name) == FirstValue(rest, name);
      }
    }
  }

  /** `getCookie(name)` on a well-formed cookie string: the value of the one
      cookie of that name, and null when there is none or more than one. */
  lemma GetCookieOfJar(jar: seq<Cookie>, name: string)
    requires WellFormed(jar) && ValidName(name)
    ensures HomePage.GetCookie(Serialize(jar), name) == if Count(jar, name) == 1 then FirstValue(jar, name) else None
  {
    var m := HomePage.Marker(name);
    if jar == [] {
      assert "; " + Serialize(jar) == "; ";
      SplitNoSeparator("; ", m);
    } else {
      SegmentsOfSerialize(jar);
      SplitSegments(jar, name);
      if Count(jar, name) == 1 {
        FirstFieldIsTakeUntil(Split(Segments(jar), m)[1], ';');
      }
    }
  }

  // ---------------------------------------------------------------------
  // The two readers side by side

  /** With two cookies named "token", `getCookie` finds nothing and the
      landing page does not redirect, while `getAuthHeader` still sends the
      first one's value. */
  lemma DuplicateTokenReadersDisagree(jar: seq<Cookie>)
    requires WellFormed(jar) && Count(jar, "token") >= 2
    ensures HomePage.GetCookie(Serialize(jar), "token") == None
    ensures HomePage.RedirectOnLoad(Serialize(jar)) == None
    ensures ApiClient.GetAuthHeader(Serialize(jar)) == HeaderFor(FirstValue(jar, "token"))
    ensures FirstValue(jar, "token").Some?
  {
    GetCookieOfJar(jar, "token");
    AuthHeaderOfJar(jar);
    CountZeroNoValue(jar, "token");
  }

  /** With exactly one "token" cookie whose value is non-empty and holds no
      "=", the readers agree: the page redirects to the dashboard and the
      client sends that value as its bearer token. A value holding "=" is
      read whole by `getCookie` and cut at the "=" by `getAuthHeader`. */
  lemma SingleTokenReadersAgree(jar: seq<Cookie>)
    requires WellFormed(jar) && Count(jar, "token") == 1
    ensures FirstValue(jar, "token").Some?
    ensures var v := FirstValue(jar, "token").value;
      && HomePage.GetCookie(Serialize(jar), "token") == Some(v)
      && ApiClient.GetAuthHeader(Serialize(jar)) == HeaderFor(Some(v))
      && ('=' !in v && v != "" ==> ApiClient.GetAuthHeader(Serialize(jar)) == Some("Bearer " + v))
      && (v != "" <==> HomePage.RedirectOnLoad(Serialize(jar)) == Some(HomePage.DashboardPath))
  {
    GetCookieOfJar(jar, "token");
    AuthHeaderOfJar(jar);
    CountZeroNoValue(jar, "token");
    HeaderForPlainValue(FirstValue(jar, "token").value);
  }

  /** A value without "=" is sent whole. */
  lemma HeaderForPlainValue(v: string)
    ensures '=' !in v && v != "" ==> HeaderFor(Some(v)) == Some("Bearer " + v)
  {
    if '=' !in v {
      TakeUntilConcat(v, "", '=');
      assert v + "" == v;
    }
  }

  /** A cookie whose name only ends with "token" is not the token cookie. */
  lemma LongerNameNotMatched(prefix: string, value: string, rest: seq<Cookie>)
    requires prefix != "" && ValidName(prefix) && ';' !in value
    requires WellFormed(rest) && Count(rest, "token") == 0
    ensures HomePage.GetCookie(Serialize([Cookie(prefix + "token", value)] + rest), "token") == None
    ensures ApiClient.GetAuthHeader(Serialize([Cookie(prefix + "token", value)] + rest)) == None
  {
    var jar := [Cookie(prefix + "token", value)] + rest;
    assert jar[1..] == rest;
    assert prefix + "token" != "token" by {
      assert |prefix + "token"| > |"token"|;
    }
    GetCookieOfJar(jar, "token");
    AuthHeaderOfJar(jar);
    CountZeroNoValue(rest, "token");
  }
}

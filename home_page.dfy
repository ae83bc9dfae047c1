/** The landing page's mount effect in src/app/page.tsx: it reads the `token`
    cookie with its own `getCookie` and sends the browser to the dashboard
    when one is found. `document.cookie` is the `cookie` parameter and the
    navigation is the returned target. */
module HomePage {
  import opened Js

  const TokenCookieName := "token"
  const DashboardPath := "/pages/dashboard"

  /** The text `getCookie` splits on: `; ${name}=` */
  function Marker(name: string): string {
    "; " + name + "="
  }

  /** `getCookie(name)`: split `"; " + cookie` on the marker; exactly two
      parts means one occurrence, and the value is the last part up to its
      first ";". Zero or several occurrences give null. */
  function GetCookie(cookie: string, name: string): (r: Option<string>)
    ensures r.Some? ==> ';' !in r.value
  {
    var parts := Split("; " + cookie, Marker(name));
    if |parts| == 2 then
      var fields := Split(parts[1], ";");
      NoOccurrenceNoChar(fields[0], ';');
      Some(fields[0])
    else None
  }

  /** The effect's decision: `router.push('/pages/dashboard')` exactly when
      a non-empty token cookie is found. */
  function RedirectOnLoad(cookie: string): (target: Option<string>)
    ensures target.Some? <==> Truthy(GetCookie(cookie, TokenCookieName))
    ensures target.Some? ==> target.value == DashboardPath
  {
    var token := GetCookie(cookie, TokenCookieName);
    if Truthy(token) then Some(DashboardPath) else None
  }

  /** `m` occurs in `s` at `i` and nowhere else. */
  ghost predicate OccursOnlyAt(s: string, m: string, i: int) {
    OccursAt(s, m, i) && forall j :: OccursAt(s, m, j) ==> j == i
  }

  /** The marker begins with its only ";", so two occurrences never
      overlap. */
  lemma MarkerDoesNotOverlap(s: string, name: string, i: nat, j: nat)
    requires ';' !in name
    requires OccursAt(s, Marker(name), i) && i < j < i + |Marker(name)|
    ensures !OccursAt(s, Marker(name), j)
  {
    var m := Marker(name);
    assert s[j] == m[j - i];
    assert forall k :: 1 <= k < |m| ==> m[k] != ';' by {
      assert m == "; " + name + "=";
    }
  }

  /** What `getCookie` computes, stated on occurrences of the marker in
      `"; " + cookie`: a value exactly when the marker occurs once, and then
      the text after it up to the first ";". For a name without ";" the
      first cookie of the string is found exactly like the later ones. */
  lemma GetCookieSpec(cookie: string, name: string)
    requires ';' !in name
    ensures var v := "; " + cookie;
      GetCookie(cookie, name).Some? <==> exists i :: OccursOnlyAt(v, Marker(name), i)
    ensures var v := "; " + cookie;
      forall i :: OccursOnlyAt(v, Marker(name), i) ==>
        GetCookie(cookie, name) == Some(TakeUntil(v[i + |Marker(name)|..], ';'))
  {
    var v, m := "; " + cookie, Marker(name);
    match IndexOf(v, m)
    case None =>
      SplitNoSeparator(v, m);
      assert forall i :: !OccursOnlyAt(v, m, i);
    case Some(i) =>
      GetCookieAtFirst(cookie, name, i);
      OnlyOccurrenceIffRestClear(v, name, i);
      if IndexOf(v[i + |m|..], m).None? {
        assert OccursOnlyAt(v, m, i);
      }
  }

  /** Given the first occurrence of the marker, `getCookie` returns the text
      after it up to ";" when no second occurrence follows, and null
      otherwise. */
  lemma GetCookieAtFirst(cookie: string, name: string, i: nat)
    requires IndexOf("; " + cookie, Marker(name)) == Some(i)
    ensures var rest := ("; " + cookie)[i + |Marker(name)|..];
      GetCookie(cookie, name) == if IndexOf(rest, Marker(name)).None? then Some(TakeUntil(rest, ';')) else None
  {
    var v, m := "; " + cookie, Marker(name);
    var rest := v[i + |m|..];
    SplitAtFirst(v, m, i);
    SplitSingle(rest, m);
    if IndexOf(rest, m).None? {
      FirstFieldIsTakeUntil(rest, ';');
    }
  }

  /** The first occurrence is the only one exactly when the text after it
      holds no further occurrence. */
  lemma OnlyOccurrenceIffRestClear(v: string, name: string, i: nat)
    requires ';' !in name
    requires IndexOf(v, Marker(name)) == Some(i)
    ensures OccursOnlyAt(v, Marker(name), i) <==> IndexOf(v[i + |Marker(name)|..], Marker(name)).None?
    ensures forall i' :: OccursOnlyAt(v, Marker(name), i') ==> i' == i
  {
    var m := Marker(name);
    var rest := v[i + |m|..];
    assert v == v[..i + |m|] + rest;
    forall j: nat | i < j < i + |m| ensures !OccursAt(v, m, j) {
      MarkerDoesNotOverlap(v, name, i, j);
    }
    forall j: nat ensures OccursAt(v, m, i + |m| + j) <==> OccursAt(rest, m, j) {
      OccursAtShift(v[..i + |m|], rest, m, j);
    }
    if IndexOf(rest, m).Some? {
      var k := IndexOf(rest, m).value;
      assert OccursAt(v, m, i + |m| + k);
    } else {
      forall j | OccursAt(v, m, j) ensures j == i {
        assert j >= i + |m| ==> OccursAt(rest, m, j - i - |m|);
      }
    }
  }
}

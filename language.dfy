/** The locale hook of src/app/hooks/useLanguage.ts. The locale is read from
    the first segment of the path and written back by rewriting that
    segment; these two are pure string functions. The hook's state (the
    current locale, the `preferredLocale` entry of local storage, the path
    it was rendered with, and the paths handed to `router.push`) is the
    class `LanguageHook`. */
module Language {
  import opened Js

  /** `i18n.locales` and `i18n.defaultLocale` of src/app/config/i18n.ts. */
  const Locales: seq<string> := ["id", "en"]
  const DefaultLocale := "id"

  /** `i18n.locales.includes(l)` */
  predicate IsSupported(l: string) {
    l in Locales
  }

  /** `pathname.split('/')[1]`, undefined when the path holds no "/". */
  function LocaleFromPath(p: string): (r: Option<string>)
    ensures r.Some? ==> '/' !in r.value
    ensures r.None? <==> '/' !in p
  {
    var parts := Split(p, "/");
    if |parts| >= 2 then
      NoOccurrenceNoChar(parts[1], '/');
      Some(parts[1])
    else
      assert forall j :: 0 <= j < |p| ==> p[j..j + 1] == [p[j]];
      assert '/' in p ==> OccursAt(p, "/", |TakeUntil(p, '/')|);
      None
  }

  /** For a path starting with "/", the candidate is the text up to the
      next "/". */
  lemma LocaleIsFirstSegment(p: string)
    requires p != "" && p[0] == '/'
    ensures LocaleFromPath(p) == Some(TakeUntil(p[1..], '/'))
  {
    assert p[0..1] == "/";
    SplitAtStart(p, "/");
    FirstFieldIsTakeUntil(p[1..], '/');
  }

  /** The regular expression `^\/[^\/]+` matches: a "/" followed by at
      least one character other than "/". */
  predicate HasFirstSegment(p: string) {
    |p| >= 2 && p[0] == '/' && p[1] != '/'
  }

  /** `p.replace(/^\/[^\/]+/, '/' + loc)`: the leading "/" and the longest
      run of non-"/" characters after it become "/" + loc. */
  function ReplaceFirstSegment(p: string, loc: string): (r: string)
    // a path the expression does not match is returned as it is
    ensures !HasFirstSegment(p) ==> r == p
    // otherwise the result starts with "/" + loc and keeps a suffix of the input that is empty or starts with "/"
    ensures HasFirstSegment(p) ==>
      && StartsWith(r, "/" + loc)
      && var rest := r[|loc| + 1..];
        && (rest == "" || rest[0] == '/')
        && |rest| < |p| - 1 && rest == p[|p| - |rest|..]
  {
    if |p| > 0 && p[0] == '/' && TakeUntil(p[1..], '/') != "" then
      var seg := TakeUntil(p[1..], '/');
      assert |seg| < |p[1..]| ==> p[1 + |seg|] == '/';
      "/" + loc + p[1 + |seg|..]
    else
      assert |p| >= 2 ==> p[1..][0] == p[1];
      p
  }

  /** The rewrite on a path split into its first segment and the rest:
      the segment, whatever it was, becomes `loc`, and the rest is kept. */
  lemma ReplaceSegment(seg: string, rest: string, loc: string)
    requires seg != "" && '/' !in seg
    requires rest == "" || rest[0] == '/'
    ensures ReplaceFirstSegment("/" + seg + rest, loc) == "/" + loc + rest
  {
    var p := "/" + seg + rest;
    assert p[1..] == seg + rest;
    TakeUntilConcat(seg, rest, '/');
    assert p[1 + |seg|..] == rest;
  }

  /** A path that matches splits into "/", its first segment and a rest that
      is empty or starts with "/". */
  lemma SegmentOf(p: string) returns (seg: string, rest: string)
    requires HasFirstSegment(p)
    ensures seg != "" && '/' !in seg && (rest == "" || rest[0] == '/')
    ensures p == "/" + seg + rest
    ensures LocaleFromPath(p) == Some(seg)
  {
    seg := TakeUntil(p[1..], '/');
    rest := p[1 + |seg|..];
    assert p[1..][0] == p[1];
    assert p[1..] == seg + rest by {
      assert p[1..][..|seg|] == seg;
    }
    LocaleIsFirstSegment(p);
  }

  /** After the rewrite the path names `loc`: once the router has moved
      there, the hook's effect reads `loc` back. Both supported locales are
      non-empty and free of "/". */
  lemma RewrittenPathNamesLocale(p: string, loc: string)
    requires HasFirstSegment(p) && loc != "" && '/' !in loc
    ensures HasFirstSegment(ReplaceFirstSegment(p, loc))
    ensures LocaleFromPath(ReplaceFirstSegment(p, loc)) == Some(loc)
  {
    var seg, rest := SegmentOf(p);
    ReplaceSegment(seg, rest, loc);
    PathOfLocale(loc, rest);
  }

  /** A path made of "/", `loc` and a rest that is empty or starts with "/"
      names `loc`. */
  lemma PathOfLocale(loc: string, rest: string)
    requires loc != "" && '/' !in loc
    requires rest == "" || rest[0] == '/'
    ensures HasFirstSegment("/" + loc + rest)
    ensures LocaleFromPath("/" + loc + rest) == Some(loc)
  {
    var q := "/" + loc + rest;
    assert q[1] == loc[0];
    assert q[1..] == loc + rest;
    TakeUntilConcat(loc, rest, '/');
    LocaleIsFirstSegment(q);
  }

  /** Rewriting twice to the same locale is rewriting once. */
  lemma ReplaceIdempotent(p: string, loc: string)
    requires '/' !in loc
    ensures ReplaceFirstSegment(ReplaceFirstSegment(p, loc), loc) == ReplaceFirstSegment(p, loc)
  {
    if HasFirstSegment(p) {
      var seg, rest := SegmentOf(p);
      ReplaceSegment(seg, rest, loc);
      if loc != "" {
        ReplaceSegment(loc, rest, loc);
      } else {
        assert "/" + loc + rest == "/" + rest;
      }
    }
  }

  /** Rewriting to the locale the path already names changes nothing. */
  lemma ReplaceSameLocale(p: string, loc: string)
    requires LocaleFromPath(p) == Some(loc)
    ensures ReplaceFirstSegment(p, loc) == p
  {
    if HasFirstSegment(p) {
      var seg, rest := SegmentOf(p);
      ReplaceSegment(seg, rest, loc);
    }
  }

  /** The state of one `useLanguage()` instance. */
  class LanguageHook {
    /** `currentLocale` (React state) */
    var currentLocale: string
    /** local storage entry `preferredLocale` */
    var preference: Option<string>
    /** the path returned by `usePathname()` at the last render */
    var pathname: string
    /** every path handed to `router.push`, in order */
    var navigations: seq<string>
    /** what local storage held before the hook first wrote it */
    ghost var initialPreference: Option<string>

    /** The locale is always supported; it is the stored preference
        unless the hook has never written one, in which case it is still
        the default. */
    ghost predicate Valid()
      reads this
    {
      && IsSupported(currentLocale)
      && (preference == Some(currentLocale) || (currentLocale == DefaultLocale && preference == initialPreference))
    }

    /** First render at `path` with `stored` in local storage, followed by
        the effect's first run. */
    constructor (path: string, stored: Option<string>)
      ensures Valid()
      ensures pathname == path && navigations == [] && initialPreference == stored
      ensures var l := LocaleFromPath(path);
        if l.Some? && IsSupported(l.value) then currentLocale == l.value && preference == Some(l.value)
        else currentLocale == DefaultLocale && preference == stored
    {
      currentLocale := DefaultLocale;
      preference := stored;
      pathname := path;
      navigations := [];
      initialPreference := stored;
      new;
      SyncWithPath();
    }

    /** The effect body: adopt and store the path's locale when it is a
        supported one, otherwise change nothing. */
    method SyncWithPath()
      requires Valid()
      modifies this`currentLocale, this`preference
      ensures Valid()
      ensures var l := LocaleFromPath(pathname);
        if l.Some? && IsSupported(l.value) then currentLocale == l.value && preference == Some(l.value)
        else currentLocale == old(currentLocale) && preference == old(preference)
    {
      var locale := LocaleFromPath(pathname);
      if locale.Some? && IsSupported(locale.value) {
        currentLocale := locale.value;
        preference := Some(locale.value);
      }
    }

    /** A re-render at `path`: the effect depends on the path only, so it
        runs again only when the path differs from the last one. */
    method Render(path: string)
      requires Valid()
      modifies this`currentLocale, this`preference, this`pathname
      ensures Valid()
      ensures pathname == path
      ensures path == old(pathname) ==> currentLocale == old(currentLocale) && preference == old(preference)
      ensures path != old(pathname) ==>
        var l := LocaleFromPath(path);
        if l.Some? && IsSupported(l.value) then currentLocale == l.value && preference == Some(l.value)
        else currentLocale == old(currentLocale) && preference == old(preference)
    {
      if path != pathname {
        pathname := path;
        SyncWithPath();
      }
    }

    /** `changeLanguage(newLocale)`: an unsupported locale changes nothing;
        otherwise navigate to the rewritten path, store the preference and
        adopt the locale. The path itself changes only on the next render. */
    method ChangeLanguage(newLocale: string)
      requires Valid()
      modifies this`currentLocale, this`preference, this`navigations
      ensures Valid()
      ensures !IsSupported(newLocale) ==>
        currentLocale == old(currentLocale) && preference == old(preference) && navigations == old(navigations)
      ensures IsSupported(newLocale) ==>
        && navigations == old(navigations) + [ReplaceFirstSegment(pathname, newLocale)]
        && preference == Some(newLocale)
        && currentLocale == newLocale
    {
      if !IsSupported(newLocale) {
        return;
      }
      var newPathname := ReplaceFirstSegment(pathname, newLocale);
      navigations := navigations + [newPathname];
      preference := Some(newLocale);
      currentLocale := newLocale;
    }
  }
}

/** The few JavaScript semantics the authorization code relies on: optional
    values, thrown exceptions, and the string operations `startsWith`,
    `indexOf` and `split` on a non-empty separator. */
module Js {

  /** `undefined`/`null` versus a present value. */
  datatype Option<+T> = None | Some(value: T)

  /** A value thrown by `throw`: an `Error` instance (which has a `message`)
      or any other value. */
  datatype Thrown = ErrorObject(message: string) | NonError

  /** How a call completes: it returns a value or an exception escapes it. */
  datatype Outcome<+T, +E> = Returned(value: T) | Threw(error: E)

  /** JavaScript truthiness of an optional string: absent and `""` are falsy. */
  predicate Truthy(s: Option<string>) {
    s.Some? && s.value != ""
  }

  /** `s.startsWith(p)` */
  predicate StartsWith(s: string, p: string) {
    |p| <= |s| && s[..|p|] == p
  }

  /** `sep` occurs in `s` at index `i`. */
  predicate OccursAt(s: string, sep: string, i: int) {
    0 <= i && i + |sep| <= |s| && s[i..i + |sep|] == sep
  }

  lemma OccursAtTail(s: string, sep: string, j: nat)
    requires |s| > 0
    ensures OccursAt(s[1..], sep, j) <==> OccursAt(s, sep, j + 1)
  {
    if j + |sep| <= |s| - 1 {
      assert s[1..][j..j + |sep|] == s[j + 1..j + 1 + |sep|];
    }
  }

  /** An occurrence of a non-empty `m` starts with its first character. */
  lemma OccursAtHead(s: string, m: string, j: int)
    requires |m| > 0
    ensures OccursAt(s, m, j) ==> s[j] == m[0]
  {
    if OccursAt(s, m, j) {
      assert s[j..j + |m|][0] == s[j];
    }
  }

  /** `s.indexOf(sep)`: the leftmost occurrence of `sep` in `s`, if any. */
  function IndexOf(s: string, sep: string): (r: Option<nat>)
    ensures r.Some? ==> OccursAt(s, sep, r.value)
    ensures r.Some? ==> forall j :: 0 <= j < r.value ==> !OccursAt(s, sep, j)
    ensures r.None? ==> forall j :: !OccursAt(s, sep, j)
    decreases |s|
  {
    if |s| < |sep| then None
    else if s[..|sep|] == sep then Some(0)
    else
      var rest := IndexOf(s[1..], sep);
      assert forall j: nat :: OccursAt(s[1..], sep, j) <==> OccursAt(s, sep, j + 1) by {
        forall j: nat ensures OccursAt(s[1..], sep, j) <==> OccursAt(s, sep, j + 1) {
          OccursAtTail(s, sep, j);
        }
      }
      assert forall j :: 0 < j ==> OccursAt(s, sep, j) == OccursAt(s[1..], sep, j - 1);
      match rest
      case None => None
      case Some(k) => Some(k + 1)
  }

  /** `parts.join(sep)` */
  function Join(parts: seq<string>, sep: string): string {
    if |parts| == 0 then ""
    else if |parts| == 1 then parts[0]
    else parts[0] + sep + Join(parts[1..], sep)
  }

  /** `s.split(sep)` for a non-empty separator: the text between successive
      leftmost, non-overlapping occurrences of `sep`. */
  function Split(s: string, sep: string): (parts: seq<string>)
    requires sep != ""
    ensures |parts| >= 1
    ensures Join(parts, sep) == s
    ensures forall k, j :: 0 <= k < |parts| ==> !OccursAt(parts[k], sep, j)
    decreases |s|
  {
    match IndexOf(s, sep)
    case None => [s]
    case Some(i) =>
      var tail := Split(s[i + |sep|..], sep);
      assert s == s[..i] + sep + s[i + |sep|..];
      assert forall j :: OccursAt(s[..i], sep, j) ==> OccursAt(s, sep, j) by {
        forall j | OccursAt(s[..i], sep, j) ensures OccursAt(s, sep, j) {
          assert s[..i][j..j + |sep|] == s[j..j + |sep|];
        }
      }
      [s[..i]] + tail
  }

  /** A one-character separator that never occurs is a character that is
      not there. */
  lemma NoOccurrenceNoChar(s: string, c: char)
    requires forall j :: !OccursAt(s, [c], j)
    ensures c !in s
  {
    forall j | 0 <= j < |s| ensures s[j] != c {
      assert !OccursAt(s, [c], j);
      assert s[j..j + 1] == [s[j]];
    }
  }

  /** The longest prefix of `s` that does not contain `c`. */
  function TakeUntil(s: string, c: char): (r: string)
    ensures StartsWith(s, r)
    ensures c !in r
    ensures forall k :: 0 <= k < |r| ==> s[k] != c
    ensures |r| < |s| ==> s[|r|] == c
  {
    if s == [] || s[0] == c then [] else [s[0]] + TakeUntil(s[1..], c)
  }

  /** A character-free prefix is what TakeUntil takes, whatever follows a
      separator that starts the rest. */
  lemma {:induction false} TakeUntilConcat(a: string, b: string, c: char)
    requires c !in a
    requires b == [] || b[0] == c
    ensures TakeUntil(a + b, c) == a
  {
    if a != [] {
      assert (a + b)[1..] == a[1..] + b;
      TakeUntilConcat(a[1..], b, c);
    }
  }

  /** Splitting on a one-character separator and taking the first field is
      the same as reading up to the first occurrence of that character. */
  lemma FirstFieldIsTakeUntil(s: string, c: char)
    ensures Split(s, [c])[0] == TakeUntil(s, c)
  {
    var r := TakeUntil(s, c);
    assert |r| < |s| ==> OccursAt(s, [c], |r|);
    match IndexOf(s, [c])
    case None =>
      assert !OccursAt(s, [c], |r|);
    case Some(i) =>
      assert s[i] == c;
      assert r == s[..i];
  }

  /** A separator found at the very start yields an empty first field. */
  lemma SplitAtStart(s: string, sep: string)
    requires sep != "" && OccursAt(s, sep, 0)
    ensures Split(s, sep) == [""] + Split(s[|sep|..], sep)
  {
  }

  lemma OccursAtShift(a: string, x: string, sep: string, j: nat)
    ensures OccursAt(a + x, sep, |a| + j) <==> OccursAt(x, sep, j)
  {
    if j + |sep| <= |x| {
      assert (a + x)[|a| + j..|a| + j + |sep|] == x[j..j + |sep|];
    }
  }

  /** Text in which no occurrence of the separator starts is glued onto the
      first field of what follows it. */
  lemma SplitPrepend(a: string, x: string, sep: string)
    requires sep != ""
    requires forall j :: 0 <= j < |a| ==> !OccursAt(a + x, sep, j)
    ensures Split(a + x, sep) == [a + Split(x, sep)[0]] + Split(x, sep)[1..]
  {
    if IndexOf(x, sep).None? {
      SplitPrependNone(a, x, sep);
    } else {
      SplitPrependSome(a, x, sep, IndexOf(x, sep).value);
    }
  }

  lemma SplitPrependNone(a: string, x: string, sep: string)
    requires sep != ""
    requires forall j :: 0 <= j < |a| ==> !OccursAt(a + x, sep, j)
    requires IndexOf(x, sep).None?
    ensures Split(a + x, sep) == [a + x] && Split(x, sep) == [x]
  {
    IndexOfPrependNone(a, x, sep);
    SplitNoSeparator(a + x, sep);
    SplitNoSeparator(x, sep);
  }

  lemma IndexOfPrependNone(a: string, x: string, sep: string)
    requires forall j :: 0 <= j < |a| ==> !OccursAt(a + x, sep, j)
    requires IndexOf(x, sep).None?
    ensures IndexOf(a + x, sep).None?
  {
    forall j: nat | |a| <= j ensures !OccursAt(a + x, sep, j) {
      OccursAtShift(a, x, sep, j - |a|);
    }
  }

  lemma IndexOfPrependSome(a: string, x: string, sep: string, i: nat)
    requires forall j :: 0 <= j < |a| ==> !OccursAt(a + x, sep, j)
    requires IndexOf(x, sep) == Some(i)
    ensures IndexOf(a + x, sep) == Some(|a| + i)
  {
    OccursAtShift(a, x, sep, i);
    forall j: nat | |a| <= j < |a| + i ensures !OccursAt(a + x, sep, j) {
      OccursAtShift(a, x, sep, j - |a|);
    }
    IndexOfLeftmost(a + x, sep, |a| + i);
  }

  lemma SplitNoSeparator(s: string, sep: string)
    requires sep != "" && IndexOf(s, sep).None?
    ensures Split(s, sep) == [s]
  {
  }

  lemma SplitAtFirst(s: string, sep: string, i: nat)
    requires sep != "" && IndexOf(s, sep) == Some(i)
    ensures Split(s, sep) == [s[..i]] + Split(s[i + |sep|..], sep)
  {
  }

  /** `s.split(sep)` has a single part exactly when `sep` does not occur. */
  lemma SplitSingle(s: string, sep: string)
    requires sep != ""
    ensures |Split(s, sep)| == 1 <==> IndexOf(s, sep).None?
    ensures |Split(s, sep)| == 1 ==> Split(s, sep) == [s]
  {
    if IndexOf(s, sep).None? {
      SplitNoSeparator(s, sep);
    } else {
      SplitAtFirst(s, sep, IndexOf(s, sep).value);
    }
  }

  lemma SplitPrependSome(a: string, x: string, sep: string, i: nat)
    requires sep != ""
    requires forall j :: 0 <= j < |a| ==> !OccursAt(a + x, sep, j)
    requires IndexOf(x, sep) == Some(i)
    ensures Split(a + x, sep) == [a + x[..i]] + Split(x[i + |sep|..], sep)
    ensures Split(x, sep) == [x[..i]] + Split(x[i + |sep|..], sep)
  {
    var s := a + x;
    IndexOfPrependSome(a, x, sep, i);
    SplitAtFirst(s, sep, |a| + i);
    SplitAtFirst(x, sep, i);
    assert s[..|a| + i] == a + x[..i];
    assert s[|a| + i + |sep|..] == x[i + |sep|..];
  }

  /** An occurrence with none before it is the one IndexOf finds. */
  lemma IndexOfLeftmost(s: string, sep: string, i: nat)
    requires OccursAt(s, sep, i)
    requires forall j :: 0 <= j < i ==> !OccursAt(s, sep, j)
    ensures IndexOf(s, sep) == Some(i)
  {
  }

  /** If no part contains the first character of the separator, splitting a
      join gives the parts back. */
  lemma {:induction false} SplitJoin(parts: seq<string>, sep: string)
    requires sep != "" && |parts| >= 1
    requires forall k :: 0 <= k < |parts| ==> sep[0] !in parts[k]
    ensures Split(Join(parts, sep), sep) == parts
  {
    var p := parts[0];
    var s := Join(parts, sep);
    assert |parts| > 1 ==> s == p + sep + Join(parts[1..], sep);
    assert forall j :: 0 <= j < |p| ==> s[j] == p[j] && s[j] != sep[0];
    if |parts| > 1 {
      var rest := Join(parts[1..], sep);
      assert s[|p|..|p| + |sep|] == sep;
      IndexOfLeftmost(s, sep, |p|);
      assert s[..|p|] == p;
      assert s[|p| + |sep|..] == rest;
      SplitJoin(parts[1..], sep);
      assert parts == [p] + parts[1..];
    } else {
      assert s == p;
      assert IndexOf(s, sep).None?;
    }
  }
}

/** Character-level behaviour the session store relies on: Python's
    `str.strip()` applied to looked-up logins, and the fixed-width `CHAR(n)`
    column type of PostgreSQL, which pads values with spaces on storage and
    ignores trailing spaces when comparing. */
module Text {
  import opened Results

  /** The characters Python's `str.isspace()` accepts: the ASCII controls
      TAB..CR and FS..US, SPACE, NEL, NO-BREAK SPACE and the Unicode space
      separators and line/paragraph separators. */
  predicate IsPythonSpace(c: char) {
    || c == ' '
    || ('\U{9}' <= c <= '\U{D}')
    || ('\U{1C}' <= c <= '\U{1F}')
    || c == '\U{85}' || c == '\U{A0}' || c == '\U{1680}'
    || ('\U{2000}' <= c <= '\U{200A}')
    || c == '\U{2028}' || c == '\U{2029}' || c == '\U{202F}' || c == '\U{205F}' || c == '\U{3000}'
  }

  /** The two kinds of character that get trimmed off a value: the pad
      character of `CHAR(n)`, and everything `str.strip()` removes. */
  datatype CharClass = PadSpace | Whitespace

  predicate In(c: char, cls: CharClass) {
    match cls
    case PadSpace => c == ' '
    case Whitespace => IsPythonSpace(c)
  }

  /** Every character of `s` belongs to `cls`. */
  predicate All(s: string, cls: CharClass) {
    forall i :: 0 <= i < |s| ==> In(s[i], cls)
  }

  /** A concatenation is all of one class exactly when both parts are. */
  lemma AllConcat(a: string, b: string, cls: CharClass)
    ensures All(a + b, cls) <==> All(a, cls) && All(b, cls)
  {
    if All(a, cls) && All(b, cls) {
      forall i | 0 <= i < |a + b|
        ensures In((a + b)[i], cls)
      {
        if i >= |a| {
          assert (a + b)[i] == b[i - |a|];
        }
      }
    }
    if All(a + b, cls) {
      forall i | 0 <= i < |a|
        ensures In(a[i], cls)
      {
        assert (a + b)[i] == a[i];
      }
      forall i | 0 <= i < |b|
        ensures In(b[i], cls)
      {
        assert (a + b)[|a| + i] == b[i];
      }
    }
  }

  /** `n` pad spaces, as `CHAR(n)` appends them. */
  function Spaces(n: nat): (r: string)
    ensures |r| == n && All(r, PadSpace)
  {
    seq(n, _ => ' ')
  }

  /** The longest prefix of `s` that does not end in a character of `cls`. */
  function TrimEnd(s: string, cls: CharClass): (r: string)
    ensures |r| <= |s| && r == s[..|r|]
    ensures All(s[|r|..], cls)
    ensures r == [] || !In(r[|r| - 1], cls)
    decreases |s|
  {
    if |s| > 0 && In(s[|s| - 1], cls) then
      var r := TrimEnd(s[..|s| - 1], cls);
      assert s[|r|..] == s[..|s| - 1][|r|..] + [s[|s| - 1]];
      r
    else
      s
  }

  /** The longest suffix of `s` that does not start with a character of `cls`. */
  function TrimStart(s: string, cls: CharClass): (r: string)
    ensures |r| <= |s| && r == s[|s| - |r|..]
    ensures All(s[..|s| - |r|], cls)
    ensures r == [] || !In(r[0], cls)
    decreases |s|
  {
    if |s| > 0 && In(s[0], cls) then
      var r := TrimStart(s[1..], cls);
      assert s[..|s| - |r|] == [s[0]] + s[1..][..|s| - 1 - |r|];
      r
    else
      s
  }

  /** `r` is `s` with exactly the `lo` characters before it and everything
      after it, all of them whitespace, cut away. */
  predicate StripsTo(s: string, lo: int, r: string) {
    && 0 <= lo <= |s| - |r|
    && r == s[lo..lo + |r|]
    && All(s[..lo], Whitespace)
    && All(s[lo + |r|..], Whitespace)
  }

  /** Trimming whitespace off the end and then off the start cuts `s` down
      to a slice with only whitespace around it, and to nothing exactly when
      `s` is all whitespace. */
  lemma TrimBoth(s: string)
    ensures var e := TrimEnd(s, Whitespace);
      var r := TrimStart(e, Whitespace);
      && StripsTo(s, |e| - |r|, r)
      && (r == [] <==> All(s, Whitespace))
  {
    var e := TrimEnd(s, Whitespace);
    var r := TrimStart(e, Whitespace);
    var lo := |e| - |r|;
    SuffixOfPrefix(s, e, r);
    if r == [] {
      AllConcat(e[..lo], s[|e|..], Whitespace);
    }
  }

  /** How a suffix `r` of a prefix `e` of `s` sits inside `s`. */
  lemma SuffixOfPrefix(s: string, e: string, r: string)
    requires |e| <= |s| && e == s[..|e|]
    requires |r| <= |e| && r == e[|e| - |r|..]
    ensures var lo := |e| - |r|;
      && s[lo..lo + |r|] == r
      && s[..lo] == e[..lo]
      && s[lo + |r|..] == s[|e|..]
      && s == e[..lo] + r + s[|e|..]
  {
    var lo := |e| - |r|;
    assert s == s[..|e|] + s[|e|..];
    assert e == e[..lo] + e[lo..];
  }

  /** Python's `str.strip()` with no argument: leading and trailing whitespace
      removed, nothing else touched. */
  function Strip(s: string): (r: string)
    ensures r == [] || (!IsPythonSpace(r[0]) && !IsPythonSpace(r[|r| - 1]))
    ensures exists lo :: StripsTo(s, lo, r)
    ensures r == [] <==> All(s, Whitespace)
  {
    TrimBoth(s);
    TrimStart(TrimEnd(s, Whitespace), Whitespace)
  }

  /** Equality of two `CHAR` values in PostgreSQL: trailing pad spaces are
      insignificant. */
  predicate CharEq(a: string, b: string) {
    TrimEnd(a, PadSpace) == TrimEnd(b, PadSpace)
  }

  /** Trailing characters of a class never change what `TrimEnd` keeps. */
  lemma {:induction false} TrimEndPadded(s: string, p: string, cls: CharClass)
    requires All(p, cls)
    ensures TrimEnd(s + p, cls) == TrimEnd(s, cls)
    decreases |p|
  {
    if p != [] {
      var q := p[..|p| - 1];
      assert (s + p)[|s + p| - 1] == p[|p| - 1];
      assert (s + p)[..|s + p| - 1] == s + q;
      assert TrimEnd(s + p, cls) == TrimEnd(s + q, cls);
      TrimEndPadded(s, q, cls);
    } else {
      assert s + p == s;
    }
  }

  /** Every pad space is whitespace to Python. */
  lemma PadIsWhitespace(p: string)
    requires All(p, PadSpace)
    ensures All(p, Whitespace)
  {
  }

  /** Trailing whitespace never changes what `str.strip()` returns. */
  lemma StripPadded(s: string, p: string)
    requires All(p, Whitespace)
    ensures Strip(s + p) == Strip(s)
  {
    TrimEndPadded(s, p, Whitespace);
  }

  /** Storing `s` in a `CHAR(n)` column: a shorter value is padded with
      spaces to width `n`; a longer one is cut to `n` characters when the
      excess is all spaces and is refused otherwise. */
  function ToChar(s: string, n: nat): (r: Option<string>)
    ensures r.None? <==> |s| > n && exists i :: n <= i < |s| && s[i] != ' '
    ensures r.Some? ==> |r.value| == n
    ensures r.Some? ==> CharEq(r.value, s)
    ensures r.Some? ==> Strip(r.value) == Strip(s)
  {
    if |s| <= n then
      var p := Spaces(n - |s|);
      TrimEndPadded(s, p, PadSpace);
      PadIsWhitespace(p);
      StripPadded(s, p);
      Some(s + p)
    else if All(s[n..], PadSpace) then
      var p := s[n..];
      assert s == s[..n] + p;
      TrimEndPadded(s[..n], p, PadSpace);
      PadIsWhitespace(p);
      StripPadded(s[..n], p);
      Some(s[..n])
    else
      None
  }

  /** A value without surrounding whitespace comes back from `str.strip()`
      unchanged. */
  lemma StripUnpadded(s: string)
    requires s == [] || (!IsPythonSpace(s[0]) && !IsPythonSpace(s[|s| - 1]))
    ensures Strip(s) == s
  {
  }

  /** Stripping twice is stripping once. */
  lemma StripIdempotent(s: string)
    ensures Strip(Strip(s)) == Strip(s)
  {
    StripUnpadded(Strip(s));
  }
}

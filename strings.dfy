/** String operations of the Rust standard library that the tool relies on. */
module Strings {

  /** `pat` occurs in `s` starting at index `i`. */
  predicate MatchAt(s: string, pat: string, i: nat) {
    i + |pat| <= |s| && s[i..i + |pat|] == pat
  }

  ghost predicate Contains(s: string, pat: string) {
    exists i: nat :: MatchAt(s, pat, i)
  }

  /**
   * `str::replace` with a non-empty pattern: scanning from the left, every
   * occurrence of `pat` that does not overlap an earlier one is replaced by `rep`.
   */
  function Replace(s: string, pat: string, rep: string): string
    requires pat != []
    decreases |s|
  {
    if |s| < |pat| then s
    else if s[..|pat|] == pat then rep + Replace(s[|pat|..], pat, rep)
    else [s[0]] + Replace(s[1..], pat, rep)
  }

  /** The pieces of `s` between the same left-to-right, non-overlapping occurrences of `pat`. */
  function Split(s: string, pat: string): (r: seq<string>)
    requires pat != []
    ensures |r| >= 1
    decreases |s|
  {
    if |s| < |pat| then [s]
    else if s[..|pat|] == pat then [""] + Split(s[|pat|..], pat)
    else
      var t := Split(s[1..], pat);
      [[s[0]] + t[0]] + t[1..]
  }

  /** The pieces concatenated with `sep` between neighbours. */
  function Join(parts: seq<string>, sep: string): string
    requires |parts| >= 1
    decreases |parts|
  {
    if |parts| == 1 then parts[0] else parts[0] + sep + Join(parts[1..], sep)
  }

  lemma JoinConsHead(a: string, t: seq<string>, sep: string)
    requires |t| >= 1
    ensures Join([a + t[0]] + t[1..], sep) == a + Join(t, sep)
  {
    var u := [a + t[0]] + t[1..];
    if |t| > 1 {
      assert u[1..] == t[1..];
    }
  }

  /** Splitting at a pattern and joining with the same pattern gives the string back. */
  lemma {:induction false} JoinSplit(s: string, pat: string)
    requires pat != []
    ensures Join(Split(s, pat), pat) == s
  {
    if |s| < |pat| {
    } else if s[..|pat|] == pat {
      var rest := s[|pat|..];
      JoinSplit(rest, pat);
      var u := [""] + Split(rest, pat);
      assert u[1..] == Split(rest, pat);
      assert s == pat + rest;
    } else {
      JoinSplit(s[1..], pat);
      JoinConsHead([s[0]], Split(s[1..], pat), pat);
      assert s == [s[0]] + s[1..];
    }
  }

  /** Replacing is joining the pieces of the split with the replacement. */
  lemma {:induction false} ReplaceIsJoinOfSplit(s: string, pat: string, rep: string)
    requires pat != []
    ensures Replace(s, pat, rep) == Join(Split(s, pat), rep)
  {
    if |s| < |pat| {
    } else if s[..|pat|] == pat {
      var rest := s[|pat|..];
      ReplaceIsJoinOfSplit(rest, pat, rep);
      var u := [""] + Split(rest, pat);
      assert u[1..] == Split(rest, pat);
    } else {
      ReplaceIsJoinOfSplit(s[1..], pat, rep);
      JoinConsHead([s[0]], Split(s[1..], pat), rep);
    }
  }

  lemma JoinStartsWithHead(parts: seq<string>, sep: string)
    requires |parts| >= 1
    ensures parts[0] <= Join(parts, sep)
  {
  }

  /** No piece of a split contains the pattern: every occurrence was cut out. */
  lemma {:induction false} SplitPiecesMatchFree(s: string, pat: string)
    requires pat != []
    ensures forall k :: 0 <= k < |Split(s, pat)| ==> !Contains(Split(s, pat)[k], pat)
  {
    var r := Split(s, pat);
    if |s| < |pat| {
      assert forall i: nat :: !MatchAt(s, pat, i);
    } else if s[..|pat|] == pat {
      SplitPiecesMatchFree(s[|pat|..], pat);
      assert forall i: nat :: !MatchAt("", pat, i);
      forall k | 0 <= k < |r| ensures !Contains(r[k], pat) {
        if k > 0 { assert r[k] == Split(s[|pat|..], pat)[k - 1]; }
      }
    } else {
      var t := Split(s[1..], pat);
      SplitPiecesMatchFree(s[1..], pat);
      var head := [s[0]] + t[0];
      JoinSplit(s[1..], pat);
      JoinStartsWithHead(t, pat);
      assert head <= s;
      forall i: nat | MatchAt(head, pat, i) ensures false {
        if i > 0 {
          assert t[0][i - 1..i - 1 + |pat|] == head[i..i + |pat|];
          assert MatchAt(t[0], pat, i - 1);
        }
      }
      forall k | 0 <= k < |r| ensures !Contains(r[k], pat) {
        if k > 0 { assert r[k] == t[k]; }
      }
    }
  }

  /** A string without the pattern splits into itself alone. */
  lemma {:induction false} SplitNoMatch(s: string, pat: string)
    requires pat != []
    requires !Contains(s, pat)
    ensures Split(s, pat) == [s]
  {
    if |s| < |pat| {
    } else {
      assert !MatchAt(s, pat, 0);
      forall i: nat | MatchAt(s[1..], pat, i) ensures false {
        assert s[1..][i..i + |pat|] == s[i + 1..i + 1 + |pat|];
        assert MatchAt(s, pat, i + 1);
      }
      SplitNoMatch(s[1..], pat);
      assert s == [s[0]] + s[1..];
    }
  }

  /** A string without the pattern is left unchanged by `Replace`. */
  lemma {:induction false} ReplaceNoMatch(s: string, pat: string, rep: string)
    requires pat != []
    requires !Contains(s, pat)
    ensures Replace(s, pat, rep) == s
  {
    SplitNoMatch(s, pat);
    ReplaceIsJoinOfSplit(s, pat, rep);
  }

  /** Replacing a pattern by itself changes nothing. */
  lemma ReplaceBySelf(s: string, pat: string)
    requires pat != []
    ensures Replace(s, pat, pat) == s
  {
    ReplaceIsJoinOfSplit(s, pat, pat);
    JoinSplit(s, pat);
  }

  /** A string lacking the first character of the pattern cannot contain it. */
  lemma MissingFirstChar(s: string, pat: string)
    requires pat != [] && pat[0] !in s
    ensures !Contains(s, pat)
  {
    forall i: nat | MatchAt(s, pat, i) ensures false {
    }
  }

  /** Replace keeps a prefix in which no occurrence of the pattern starts. */
  lemma {:induction false} ReplaceSkipsPrefix(a: string, t: string, pat: string, rep: string)
    requires pat != []
    requires forall i :: 0 <= i < |a| ==> !MatchAt(a + t, pat, i)
    ensures Replace(a + t, pat, rep) == a + Replace(t, pat, rep)
  {
    if a != [] {
      var s := a + t;
      assert s[1..] == a[1..] + t;
      forall i | 0 <= i < |a[1..]| ensures !MatchAt(a[1..] + t, pat, i) {
        assert !MatchAt(s, pat, i + 1);
        if i + |pat| <= |a[1..] + t| {
          assert (a[1..] + t)[i..i + |pat|] == s[i + 1..i + 1 + |pat|];
        }
      }
      ReplaceSkipsPrefix(a[1..], t, pat, rep);
      if |s| < |pat| {
        assert Replace(s, pat, rep) == s;
        assert Replace(t, pat, rep) == t;
      } else {
        assert !MatchAt(s, pat, 0);
        assert s[0..|pat|] == s[..|pat|];
        assert Replace(s, pat, rep) == [s[0]] + Replace(a[1..] + t, pat, rep);
        assert s[0] == a[0];
        assert [a[0]] + (a[1..] + Replace(t, pat, rep)) == a + Replace(t, pat, rep);
      }
    } else {
      assert a + t == t;
    }
  }

  /** The first occurrence at the very start is replaced. */
  lemma ReplaceAtMatch(pat: string, rest: string, rep: string)
    requires pat != []
    ensures Replace(pat + rest, pat, rep) == rep + Replace(rest, pat, rep)
  {
    assert (pat + rest)[..|pat|] == pat;
    assert (pat + rest)[|pat|..] == rest;
  }

  /** A string that starts with anything but the pattern keeps its first character. */
  lemma ReplaceAtMismatch(s: string, pat: string, rep: string)
    requires pat != [] && |s| >= |pat| && s[..|pat|] != pat
    ensures Replace(s, pat, rep) == [s[0]] + Replace(s[1..], pat, rep)
  {
  }

  /** A prefix without the first character of the pattern is kept as it is. */
  lemma ReplaceSkipsPlain(a: string, t: string, pat: string, rep: string)
    requires pat != [] && pat[0] !in a
    ensures Replace(a + t, pat, rep) == a + Replace(t, pat, rep)
  {
    forall i | 0 <= i < |a| ensures !MatchAt(a + t, pat, i) {
      assert (a + t)[i] == a[i];
    }
    ReplaceSkipsPrefix(a, t, pat, rep);
  }

  /** Splitting a string that starts with the pattern gives an empty first piece. */
  lemma SplitAtMatch(pat: string, rest: string)
    requires pat != []
    ensures Split(pat + rest, pat) == [""] + Split(rest, pat)
  {
    assert (pat + rest)[..|pat|] == pat;
    assert (pat + rest)[|pat|..] == rest;
  }

  /** A prefix without the first character of the pattern joins the first piece. */
  lemma {:induction false} SplitSkipsPlain(a: string, t: string, pat: string)
    requires pat != [] && pat[0] !in a
    ensures Split(a + t, pat) == [a + Split(t, pat)[0]] + Split(t, pat)[1..]
  {
    var p := Split(t, pat);
    if a != [] {
      var s := a + t;
      assert s[0] == a[0];
      assert |s| >= |pat| ==> s[..|pat|][0] == a[0];
      assert s[1..] == a[1..] + t;
      SplitSkipsPlain(a[1..], t, pat);
      assert [a[0]] + (a[1..] + p[0]) == a + p[0];
    } else {
      assert a + t == t;
      assert a + p[0] == p[0];
      assert [p[0]] + p[1..] == p;
    }
  }

  /** Whitespace as `char::is_whitespace` defines it (the Unicode White_Space property). */
  predicate IsWhitespace(c: char) {
    || ('\t' <= c <= '\r') || c == ' ' || c == '\U{0085}' || c == '\U{00A0}' || c == '\U{1680}'
    || ('\U{2000}' <= c <= '\U{200A}') || c == '\U{2028}' || c == '\U{2029}' || c == '\U{202F}'
    || c == '\U{205F}' || c == '\U{3000}'
  }

  /** `str::trim_start`: drops the leading whitespace. */
  function TrimStart(s: string): string
    decreases |s|
  {
    if s != [] && IsWhitespace(s[0]) then TrimStart(s[1..]) else s
  }

  /** `str::trim_end`: drops the trailing whitespace. */
  function TrimEnd(s: string): string
    decreases |s|
  {
    if s != [] && IsWhitespace(s[|s| - 1]) then TrimEnd(s[..|s| - 1]) else s
  }

  /** `str::trim`: drops the leading and the trailing whitespace. */
  function Trim(s: string): string {
    TrimEnd(TrimStart(s))
  }

  /** What `trim_start` drops is whitespace, and what it keeps is a suffix that does not start with any. */
  lemma {:induction false} TrimStartSpec(s: string)
    ensures |TrimStart(s)| <= |s| && TrimStart(s) == s[|s| - |TrimStart(s)|..]
    ensures forall i :: 0 <= i < |s| - |TrimStart(s)| ==> IsWhitespace(s[i])
    ensures TrimStart(s) == [] || !IsWhitespace(TrimStart(s)[0])
    decreases |s|
  {
    if s != [] && IsWhitespace(s[0]) {
      TrimStartSpec(s[1..]);
      forall i | 1 <= i < |s| - |TrimStart(s)| ensures IsWhitespace(s[i]) {
        assert s[i] == s[1..][i - 1];
      }
    }
  }

  /** What `trim_end` drops is whitespace, and what it keeps is a prefix that does not end in any. */
  lemma {:induction false} TrimEndSpec(s: string)
    ensures |TrimEnd(s)| <= |s| && TrimEnd(s) == s[..|TrimEnd(s)|]
    ensures forall i :: |TrimEnd(s)| <= i < |s| ==> IsWhitespace(s[i])
    ensures TrimEnd(s) == [] || !IsWhitespace(TrimEnd(s)[|TrimEnd(s)| - 1])
    decreases |s|
  {
    if s != [] && IsWhitespace(s[|s| - 1]) {
      TrimEndSpec(s[..|s| - 1]);
      forall i | |TrimEnd(s)| <= i < |s| - 1 ensures IsWhitespace(s[i]) {
        assert s[i] == s[..|s| - 1][i];
      }
    }
  }

  /** `trim` keeps a slice of `s` with only whitespace around it, and the slice neither starts nor ends with whitespace. */
  lemma TrimSpec(s: string)
    ensures exists i, j ::
              && 0 <= i <= j <= |s| && Trim(s) == s[i..j]
              && (forall k :: 0 <= k < i ==> IsWhitespace(s[k]))
              && (forall k :: j <= k < |s| ==> IsWhitespace(s[k]))
    ensures Trim(s) == [] || (!IsWhitespace(Trim(s)[0]) && !IsWhitespace(Trim(s)[|Trim(s)| - 1]))
  {
    var a := TrimStart(s);
    TrimStartSpec(s);
    TrimEndSpec(a);
    var b := TrimEnd(a);
    var i := |s| - |a|;
    assert b == s[i..i + |b|];
    forall k | i + |b| <= k < |s| ensures IsWhitespace(s[k]) {
      assert s[k] == a[k - i];
    }
    if b != [] { assert b[0] == a[0]; }
  }

  function AsciiLower(c: char): char {
    if 'A' <= c <= 'Z' then (c as int + 32) as char else c
  }

  /** Lower-casing, on the letters A to Z. */
  function Lowercase(s: string): (r: string)
    ensures |r| == |s|
  {
    seq(|s|, i requires 0 <= i < |s| => AsciiLower(s[i]))
  }
}

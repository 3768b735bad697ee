/**
 * The few Python built-ins the core relies on, stated over `string`, a sequence of
 * Unicode scalar values. A Python `str` indexes code points, lone surrogates included;
 * the model covers only strings without them. The built-ins are: the whitespace class
 * used by `str.isspace` and `str.strip`, `sep.join`, `str.split(sep)` for a
 * one-character separator, `str.strip()` and `any`.
 */
module Builtins {

  /** The characters Python's `str.isspace` and `str.strip()` treat as whitespace. */
  predicate IsWhitespace(c: char) {
    || ('\t' <= c <= '\r')
    || ('\U{001C}' <= c <= ' ')
    || c == '\U{0085}' || c == '\U{00A0}' || c == '\U{1680}'
    || ('\U{2000}' <= c <= '\U{200A}')
    || c == '\U{2028}' || c == '\U{2029}' || c == '\U{202F}' || c == '\U{205F}' || c == '\U{3000}'
  }

  /** The characters for which Python's `str.isspace` is true, listed one by one. */
  const PythonWhitespace: set<char> := {
    '\t', '\n', '\U{000B}', '\U{000C}', '\r', '\U{001C}', '\U{001D}', '\U{001E}', '\U{001F}', ' ',
    '\U{0085}', '\U{00A0}', '\U{1680}',
    '\U{2000}', '\U{2001}', '\U{2002}', '\U{2003}', '\U{2004}', '\U{2005}', '\U{2006}',
    '\U{2007}', '\U{2008}', '\U{2009}', '\U{200A}',
    '\U{2028}', '\U{2029}', '\U{202F}', '\U{205F}', '\U{3000}'
  }

  /** `IsWhitespace` holds for exactly the 29 characters Python counts as whitespace. */
  lemma WhitespaceIsPython(c: char)
    ensures IsWhitespace(c) <==> c in PythonWhitespace
  {
  }

  /** Every character is whitespace; true of the empty string. */
  predicate IsBlank(s: string) {
    forall i :: 0 <= i < |s| ==> IsWhitespace(s[i])
  }

  /** Python's `s.isspace()`: false on the empty string. */
  predicate IsSpace(s: string) {
    |s| > 0 && IsBlank(s)
  }

  /** Python's `any(xs)`: scans from the front for a true value. */
  function Any(xs: seq<bool>): (r: bool)
    ensures r <==> exists i :: 0 <= i < |xs| && xs[i]
  {
    if |xs| == 0 then false
    else
      assert forall i :: 1 <= i < |xs| ==> xs[1..][i - 1] == xs[i];
      xs[0] || Any(xs[1..])
  }

  /** Number of occurrences of `c` in `s`. */
  function Count(s: string, c: char): nat {
    if |s| == 0 then 0 else (if s[0] == c then 1 else 0) + Count(s[1..], c)
  }

  /** Python's `sep.join(parts)` for a one-character separator. */
  function Join(parts: seq<string>, sep: char): string {
    if |parts| == 0 then ""
    else if |parts| == 1 then parts[0]
    else parts[0] + [sep] + Join(parts[1..], sep)
  }

  /** Python's `s.split(sep)` for a one-character separator: always at least one piece. */
  function Split(s: string, sep: char): (r: seq<string>)
    ensures |r| == Count(s, sep) + 1
    ensures forall i :: 0 <= i < |r| ==> sep !in r[i]
  {
    if |s| == 0 then [""]
    else
      var rest := Split(s[1..], sep);
      if s[0] == sep then [""] + rest
      else [[s[0]] + rest[0]] + rest[1..]
  }

  /** Joining the pieces of a split gives back the string. */
  lemma {:induction false} JoinSplit(s: string, sep: char)
    ensures Join(Split(s, sep), sep) == s
  {
    if |s| > 0 {
      var rest := Split(s[1..], sep);
      JoinSplit(s[1..], sep);
      assert s == [s[0]] + s[1..];
      if s[0] != sep && |rest| > 1 {
        assert Join(rest, sep) == rest[0] + [sep] + Join(rest[1..], sep);
        assert ([[s[0]] + rest[0]] + rest[1..])[1..] == rest[1..];
      }
    }
  }

  /** Joining `n` separator-free words puts exactly `n - 1` separators between them. */
  lemma JoinCount(parts: seq<string>, sep: char)
    requires |parts| >= 1
    requires forall i :: 0 <= i < |parts| ==> sep !in parts[i]
    ensures Count(Join(parts, sep), sep) == |parts| - 1
  {
    SplitJoin(parts, sep);
  }

  /** Splitting a string that starts with a separator-free prefix `a`. */
  lemma {:induction false} SplitPrefix(a: string, s: string, sep: char)
    requires sep !in a
    ensures Split(a + s, sep) == [a + Split(s, sep)[0]] + Split(s, sep)[1..]
  {
    var tail := Split(s, sep);
    if |a| == 0 {
      assert a + s == s && a + tail[0] == tail[0];
    } else {
      SplitPrefix(a[1..], s, sep);
      ConsAppend(a, s);
      ConsAppend(a, tail[0]);
    }
  }

  /** Splitting the first element off a concatenation whose left part is not empty. */
  lemma ConsAppend<T>(a: seq<T>, b: seq<T>)
    requires |a| > 0
    ensures (a + b)[0] == a[0] && (a + b)[1..] == a[1..] + b && [a[0]] + (a[1..] + b) == a + b
  {
  }

  /** Splitting a join of separator-free pieces gives back the pieces. */
  lemma {:induction false} SplitJoin(parts: seq<string>, sep: char)
    requires |parts| >= 1
    requires forall i :: 0 <= i < |parts| ==> sep !in parts[i]
    ensures Split(Join(parts, sep), sep) == parts
  {
    if |parts| == 1 {
      SplitPrefix(parts[0], "", sep);
      assert parts[0] + "" == parts[0];
    } else {
      var tail := Join(parts[1..], sep);
      SplitJoin(parts[1..], sep);
      SplitPrefix(parts[0], [sep] + tail, sep);
      assert parts[0] + [sep] + tail == parts[0] + ([sep] + tail);
      assert ([sep] + tail)[0] == sep && ([sep] + tail)[1..] == tail;
      assert Split([sep] + tail, sep) == [""] + parts[1..];
      assert parts[0] + "" == parts[0];
      assert parts == [parts[0]] + parts[1..];
    }
  }

  /** How many whitespace characters `s` starts with: where `lstrip` stops. */
  function LeadingBlank(s: string): (n: nat)
    ensures n <= |s| && IsBlank(s[..n])
    ensures n == |s| || !IsWhitespace(s[n])
  {
    if |s| > 0 && IsWhitespace(s[0]) then
      var k := LeadingBlank(s[1..]);
      BlankFirst(s, k + 1);
      k + 1
    else 0
  }

  /** A blank prefix of `s[1..]` after a whitespace `s[0]` makes a blank prefix of `s`. */
  lemma BlankFirst(s: string, n: nat)
    requires 0 < n <= |s| && IsWhitespace(s[0]) && IsBlank(s[1..][..n - 1])
    ensures IsBlank(s[..n])
  {
    forall k | 0 < k < n ensures IsWhitespace(s[..n][k]) {
      assert s[..n][k] == s[1..][..n - 1][k - 1];
    }
  }

  /** How many whitespace characters `s` ends with: where `rstrip` stops. */
  function TrailingBlank(s: string): (n: nat)
    ensures n <= |s| && IsBlank(s[|s| - n..])
    ensures n == |s| || !IsWhitespace(s[|s| - n - 1])
  {
    if |s| > 0 && IsWhitespace(s[|s| - 1]) then
      var k := TrailingBlank(s[..|s| - 1]);
      BlankLast(s, |s| - 1 - k);
      k + 1
    else 0
  }

  /** A blank suffix of `s[..|s| - 1]` before a whitespace last character makes a blank suffix of `s`. */
  lemma BlankLast(s: string, n: nat)
    requires n < |s| && IsWhitespace(s[|s| - 1]) && IsBlank(s[..|s| - 1][n..])
    ensures IsBlank(s[n..])
  {
    forall k | 0 <= k < |s| - 1 - n ensures IsWhitespace(s[n..][k]) {
      assert s[n..][k] == s[..|s| - 1][n..][k];
    }
  }

  /** Python's `s.lstrip()`: drops the leading whitespace. */
  function StripLeft(s: string): (r: string)
    ensures |r| <= |s| && r == s[|s| - |r|..]
    ensures IsBlank(s[..|s| - |r|])
    ensures r == "" || !IsWhitespace(r[0])
  {
    s[LeadingBlank(s)..]
  }

  /** Python's `s.rstrip()`: drops the trailing whitespace. */
  function StripRight(s: string): (r: string)
    ensures |r| <= |s| && r == s[..|r|]
    ensures IsBlank(s[|r|..])
    ensures r == "" || !IsWhitespace(r[|r| - 1])
  {
    s[..|s| - TrailingBlank(s)]
  }

  /** `r` is the slice of `s` at `i`, with only blank text before and after it. */
  ghost predicate TrimAt(r: string, s: string, i: int) {
    0 <= i <= |s| - |r| && r == s[i..i + |r|] && IsBlank(s[..i]) && IsBlank(s[i + |r|..])
  }

  /** `r` is `s` with only blank text cut from its start and its end. */
  ghost predicate IsTrimOf(r: string, s: string) {
    exists i :: TrimAt(r, s, i)
  }

  /** `Strip(s)` is a slice of `s` framed by blank text. */
  lemma StripFrames(s: string)
    ensures IsTrimOf(Strip(s), s)
  {
    var left := StripLeft(s);
    TrimOfTrim(s, |s| - |left|, StripRight(left));
  }

  /** Cutting blank text from the end of a suffix left after blank text frames what is kept. */
  lemma TrimOfTrim(s: string, i: nat, r: string)
    requires i <= |s| && IsBlank(s[..i])
    requires |r| <= |s| - i && r == s[i..][..|r|] && IsBlank(s[i..][|r|..])
    ensures TrimAt(r, s, i)
  {
    assert s[i + |r|..] == s[i..][|r|..];
  }

  /** Stripping both ends leaves nothing exactly when the text is blank. */
  lemma StripBothEmpty(s: string)
    ensures StripRight(StripLeft(s)) == "" <==> IsBlank(s)
  {
    var left := StripLeft(s);
    if StripRight(left) == "" {
      assert left[|StripRight(left)|..] == left;
      BlankAround(s, |s| - |left|);
    }
  }

  /**
   * Python's `s.strip()`: the part of `s` between its leading and trailing whitespace.
   * It starts and ends with a non-whitespace character unless it is empty; that it is a
   * slice of `s` framed by blank text is `StripFrames`.
   */
  function Strip(s: string): (r: string)
    ensures |r| <= |s|
    ensures r == "" || (!IsWhitespace(r[0]) && !IsWhitespace(r[|r| - 1]))
    ensures r == "" <==> IsBlank(s)
  {
    StripBothEmpty(s);
    var r := StripRight(StripLeft(s));
    assert r != "" ==> r[0] == StripLeft(s)[0];
    r
  }

  /** `s.isspace()` holds exactly for a non-empty text that strips to nothing. */
  lemma IsSpaceStrips(s: string)
    ensures IsSpace(s) <==> s != "" && Strip(s) == ""
  {
  }

  /** `lstrip` stops at the first non-whitespace character. */
  lemma StripLeftAt(s: string, i: nat)
    requires i <= |s| && IsBlank(s[..i])
    requires i == |s| || !IsWhitespace(s[i])
    ensures StripLeft(s) == s[i..]
  {
    var n := LeadingBlank(s);
    assert forall k :: 0 <= k < i ==> s[..i][k] == s[k];
    assert forall k :: 0 <= k < n ==> s[..n][k] == s[k];
  }

  /** `rstrip` stops after the last non-whitespace character. */
  lemma StripRightAt(s: string, j: nat)
    requires j <= |s| && IsBlank(s[j..])
    requires j == 0 || !IsWhitespace(s[j - 1])
    ensures StripRight(s) == s[..j]
  {
    var n := TrailingBlank(s);
    assert forall k :: j <= k < |s| ==> s[j..][k - j] == s[k];
    assert forall k :: |s| - n <= k < |s| ==> s[|s| - n..][k - (|s| - n)] == s[k];
  }

  /** Blank text on both sides of a cut makes the whole string blank. */
  lemma BlankAround(s: string, i: nat)
    requires i <= |s| && IsBlank(s[..i]) && IsBlank(s[i..])
    ensures IsBlank(s)
  {
    forall p | 0 <= p < |s| ensures IsWhitespace(s[p]) {
      if p < i { assert s[..i][p] == s[p]; } else { assert s[i..][p - i] == s[p]; }
    }
  }

  /** The slice framed by blank text and with non-blank ends is exactly what `Strip` returns. */
  lemma StripUnique(s: string, i: nat, j: nat)
    requires i <= j <= |s|
    requires IsBlank(s[..i]) && IsBlank(s[j..])
    requires i == j || (!IsWhitespace(s[i]) && !IsWhitespace(s[j - 1]))
    ensures Strip(s) == s[i..j]
  {
    if i == j {
      BlankAround(s, i);
    } else {
      var left := s[i..];
      StripLeftAt(s, i);
      assert left[j - i..] == s[j..] && left[j - i - 1] == s[j - 1];
      StripRightAt(left, j - i);
      SliceOfSuffix(s, i, j);
    }
  }

  /** The slices of `s` cut at its two ends. */
  lemma WholeSlices<T>(s: seq<T>)
    ensures s[..0] == [] && s[|s|..] == [] && s[0..|s|] == s
  {
  }

  /** A non-empty sequence is its prefix without the last element, then that element. */
  lemma InitAndLast<T>(s: seq<T>)
    requires |s| > 0
    ensures s[..|s| - 1] + [s[|s| - 1]] == s
  {
  }

  /** Taking a prefix of a suffix is taking a slice. */
  lemma SliceOfSuffix<T>(s: seq<T>, i: nat, j: nat)
    requires i <= j <= |s|
    ensures s[i..][..j - i] == s[i..j]
  {
  }

  /** Stripping a stripped string changes nothing. */
  lemma {:induction false} StripIdempotent(s: string)
    ensures Strip(Strip(s)) == Strip(s)
  {
    var r := Strip(s);
    WholeSlices(r);
    StripUnique(r, 0, |r|);
  }

  /** Stripping only removes characters: one absent from `s` is absent from `Strip(s)`. */
  lemma StripKeepsOut(s: string, c: char)
    ensures c !in s ==> c !in Strip(s)
  {
    var r := Strip(s);
    StripFrames(s);
    var i :| TrimAt(r, s, i);
    forall k | 0 <= k < |r| ensures r[k] in s {
      assert r[k] == s[i + k];
    }
  }
}

/** The JavaScript string built-ins the core relies on: `indexOf`, `split` with a
    non-empty string separator, `trim` and `startsWith`, over strings as `seq<char>`. */
module Text {
  import opened Wrappers

  /** `pat` occurs in `s` starting at index `k`. */
  predicate OccursAt(s: string, pat: string, k: int) {
    0 <= k && k + |pat| <= |s| && s[k..k + |pat|] == pat
  }

  /** `pat` is a substring of `s` (`s.includes(pat)`). */
  predicate Contains(s: string, pat: string) {
    exists k :: 0 <= k <= |s| && OccursAt(s, pat, k)
  }

  /** `s.startsWith(prefix)`. */
  predicate StartsWith(s: string, prefix: string) {
    prefix <= s
  }

  /** `s.indexOf(pat, from)`: the least index at or after `from` where `pat` occurs, if any. */
  function IndexOfFrom(s: string, pat: string, from: nat): (r: Option<nat>)
    decreases |s| - from
    ensures r.Some? ==> from <= r.value && OccursAt(s, pat, r.value)
    ensures forall k :: from <= k && (r.None? || k < r.value) ==> !OccursAt(s, pat, k)
  {
    if from + |pat| > |s| then None
    else if s[from..from + |pat|] == pat then Some(from)
    else IndexOfFrom(s, pat, from + 1)
  }

  /** An occurrence inside a slice is an occurrence in the whole string, shifted by the
      slice's start, and the other way round. */
  lemma SliceOccurrence(s: string, pat: string, a: nat, b: nat, m: int)
    requires a <= b <= |s|
    requires 0 <= m && m + |pat| <= b - a
    ensures OccursAt(s[a..b], pat, m) <==> OccursAt(s, pat, a + m)
  {
    var inSlice, inWhole := s[a..b][m..m + |pat|], s[a + m..a + m + |pat|];
    forall i | 0 <= i < |pat| ensures inSlice[i] == inWhole[i] {
      assert inSlice[i] == s[a + m + i];
    }
    assert inSlice == inWhole;
  }

  /** The pieces of `s[p..]` cut at every occurrence of `sep`, scanning left to right
      and resuming after each occurrence (the SplitMatcher loop of `String.prototype.split`). */
  function SplitFrom(s: string, sep: string, p: nat): (parts: seq<string>)
    requires |sep| > 0 && p <= |s|
    decreases |s| - p
    ensures |parts| >= 1
  {
    match IndexOfFrom(s, sep, p)
    case None => [s[p..]]
    case Some(q) => [s[p..q]] + SplitFrom(s, sep, q + |sep|)
  }

  /** `s.split(sep)` for a non-empty string separator: a single piece exactly when the
      separator does not occur. */
  function Split(s: string, sep: string): (parts: seq<string>)
    requires |sep| > 0
    ensures |parts| >= 1
    ensures |parts| == 1 <==> !Contains(s, sep)
  {
    SplitFrom(s, sep, 0)
  }

  /** `parts.join(sep)`: the inverse of `Split`. */
  function Join(parts: seq<string>, sep: string): string {
    if |parts| == 0 then ""
    else if |parts| == 1 then parts[0]
    else parts[0] + sep + Join(parts[1..], sep)
  }

  lemma {:induction false} SplitFromJoin(s: string, sep: string, p: nat)
    requires |sep| > 0 && p <= |s|
    ensures Join(SplitFrom(s, sep, p), sep) == s[p..]
    decreases |s| - p
  {
    match IndexOfFrom(s, sep, p)
    case None =>
    case Some(q) =>
      var rest := SplitFrom(s, sep, q + |sep|);
      SplitFromJoin(s, sep, q + |sep|);
      assert SplitFrom(s, sep, p) == [s[p..q]] + rest;
      assert ([s[p..q]] + rest)[1..] == rest;
      calc {
        Join(SplitFrom(s, sep, p), sep);
        s[p..q] + sep + Join(rest, sep);
        s[p..q] + s[q..q + |sep|] + s[q + |sep|..];
        s[p..];
      }
  }

  /** Splitting loses nothing: joining the pieces with the separator gives back the string. */
  lemma SplitJoin(s: string, sep: string)
    requires |sep| > 0
    ensures Join(Split(s, sep), sep) == s
  {
    SplitFromJoin(s, sep, 0);
  }

  lemma {:induction false} SplitFromPiecesFree(s: string, sep: string, p: nat)
    requires |sep| > 0 && p <= |s|
    ensures forall i :: 0 <= i < |SplitFrom(s, sep, p)| ==> !Contains(SplitFrom(s, sep, p)[i], sep)
    decreases |s| - p
  {
    match IndexOfFrom(s, sep, p)
    case None =>
      assert s[p..] == s[p..|s|];
      forall m | 0 <= m && m + |sep| <= |s| - p ensures !OccursAt(s[p..|s|], sep, m) {
        SliceOccurrence(s, sep, p, |s|, m);
      }
    case Some(q) =>
      SplitFromPiecesFree(s, sep, q + |sep|);
      forall m | 0 <= m && m + |sep| <= q - p ensures !OccursAt(s[p..q], sep, m) {
        SliceOccurrence(s, sep, p, q, m);
      }
  }

  /** No piece produced by `Split` contains the separator. */
  lemma SplitPiecesFree(s: string, sep: string)
    requires |sep| > 0
    ensures forall i :: 0 <= i < |Split(s, sep)| ==> !Contains(Split(s, sep)[i], sep)
  {
    SplitFromPiecesFree(s, sep, 0);
  }

  /** The characters `String.prototype.trim` strips: ECMAScript's WhiteSpace
      (TAB, VT, FF, ZWNBSP and the Unicode space separators) and LineTerminator. */
  const WhitespaceChars: set<char> := {
    '\t', '\n', '\U{000B}', '\U{000C}', '\r', ' ', '\U{00A0}', '\U{1680}',
    '\U{2000}', '\U{2001}', '\U{2002}', '\U{2003}', '\U{2004}', '\U{2005}',
    '\U{2006}', '\U{2007}', '\U{2008}', '\U{2009}', '\U{200A}',
    '\U{2028}', '\U{2029}', '\U{202F}', '\U{205F}', '\U{3000}', '\U{FEFF}'
  }

  predicate IsWhitespace(c: char) {
    c in WhitespaceChars
  }

  predicate AllWhitespace(s: string) {
    forall i :: 0 <= i < |s| ==> IsWhitespace(s[i])
  }

  /** `s` has no whitespace at either end, so `trim` leaves it alone. */
  predicate IsTrimmed(s: string) {
    s == [] || (!IsWhitespace(s[0]) && !IsWhitespace(s[|s| - 1]))
  }

  /** The index of the first non-whitespace character at or after `i` (`|s|` if none). */
  function TrimStartIndex(s: string, i: nat): (r: nat)
    requires i <= |s|
    decreases |s| - i
    ensures i <= r <= |s|
    ensures forall k :: i <= k < r ==> IsWhitespace(s[k])
    ensures r < |s| ==> !IsWhitespace(s[r])
  {
    if i < |s| && IsWhitespace(s[i]) then TrimStartIndex(s, i + 1) else i
  }

  /** The index just past the last non-whitespace character in `s[lo..j]` (`lo` if none). */
  function TrimEndIndex(s: string, lo: nat, j: nat): (r: nat)
    requires lo <= j <= |s|
    decreases j
    ensures lo <= r <= j
    ensures forall k :: r <= k < j ==> IsWhitespace(s[k])
    ensures r > lo ==> !IsWhitespace(s[r - 1])
  {
    if j > lo && IsWhitespace(s[j - 1]) then TrimEndIndex(s, lo, j - 1) else j
  }

  /** `s.trim()`: the text between the leading and the trailing whitespace. */
  function Trim(s: string): (r: string)
    ensures IsTrimmed(r)
    ensures r == [] <==> AllWhitespace(s)
  {
    var a := TrimStartIndex(s, 0);
    s[a..TrimEndIndex(s, a, |s|)]
  }

  /** `trim` cuts exactly the leading and trailing whitespace: what it returns is the
      slice of `s` between an all-whitespace prefix and an all-whitespace suffix. */
  lemma TrimSlice(s: string)
    ensures var a := TrimStartIndex(s, 0); var b := TrimEndIndex(s, a, |s|);
      Trim(s) == s[a..b] && AllWhitespace(s[..a]) && AllWhitespace(s[b..])
  {
  }

  /** A string with no whitespace at either end is its own trim. */
  lemma TrimOfTrimmed(s: string)
    requires IsTrimmed(s)
    ensures Trim(s) == s
  {
    assert TrimStartIndex(s, 0) == 0;
    assert TrimEndIndex(s, 0, |s|) == |s|;
  }

  /** `trim` is idempotent. */
  lemma TrimIdempotent(s: string)
    ensures Trim(Trim(s)) == Trim(s)
  {
    TrimOfTrimmed(Trim(s));
  }

  /** Trimming cannot create an occurrence of a pattern that was absent. */
  lemma TrimKeepsAbsent(s: string, pat: string)
    requires !Contains(s, pat)
    ensures !Contains(Trim(s), pat)
  {
    var a := TrimStartIndex(s, 0);
    var b := TrimEndIndex(s, a, |s|);
    forall m | 0 <= m && m + |pat| <= b - a ensures !OccursAt(s[a..b], pat, m) {
      SliceOccurrence(s, pat, a, b, m);
    }
  }

  lemma {:induction false} TrimStartIndexPadded(s: string, n: nat, i: nat)
    requires i <= n <= |s|
    requires forall k :: i <= k < n ==> IsWhitespace(s[k])
    requires n < |s| ==> !IsWhitespace(s[n])
    ensures TrimStartIndex(s, i) == n
    decreases n - i
  {
    if i < n {
      TrimStartIndexPadded(s, n, i + 1);
    }
  }

  lemma {:induction false} TrimEndIndexPadded(s: string, lo: nat, n: nat, j: nat)
    requires lo <= n <= j <= |s|
    requires forall k :: n <= k < j ==> IsWhitespace(s[k])
    requires n > lo ==> !IsWhitespace(s[n - 1])
    ensures TrimEndIndex(s, lo, j) == n
    decreases j
  {
    if n < j {
      TrimEndIndexPadded(s, lo, n, j - 1);
    }
  }

  /** Whitespace around a trimmed, non-empty string is exactly what `trim` removes. */
  lemma TrimPadded(before: string, s: string, after: string)
    requires AllWhitespace(before) && AllWhitespace(after)
    requires s != [] && IsTrimmed(s)
    ensures Trim(before + s + after) == s
  {
    var x := before + s + after;
    var a, b := |before|, |before| + |s|;
    assert forall k :: 0 <= k < a ==> x[k] == before[k];
    assert forall k :: b <= k < |x| ==> x[k] == after[k - b];
    TrimStartIndexPadded(x, a, 0);
    TrimEndIndexPadded(x, a, b, |x|);
    assert x[a..b] == s;
  }
}

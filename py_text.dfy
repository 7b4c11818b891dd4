/**
 * The few operations of Python's `str` that the core relies on, over Dafny
 * strings (sequences of Unicode scalar values, so `|s|` is Python's `len(s)`).
 */
module PyText {

  /** Python's `str.isspace()` for one character. */
  predicate IsSpace(c: char) {
    || ('\t' <= c <= '\r')              // \t \n \v \f \r
    || ('\U{1c}' <= c <= '\U{1f}')      // file, group, record and unit separators
    || c == ' '
    || c == '\U{85}' || c == '\U{a0}' || c == '\U{1680}'
    || ('\U{2000}' <= c <= '\U{200a}')
    || c == '\U{2028}' || c == '\U{2029}' || c == '\U{202f}' || c == '\U{205f}' || c == '\U{3000}'
  }

  /** Every character is whitespace (the empty string included). */
  predicate IsBlank(s: string) {
    forall i :: 0 <= i < |s| ==> IsSpace(s[i])
  }

  /** The number of whitespace characters at the front of `s`. */
  function LeadingSpace(s: string): (n: nat)
    ensures n <= |s|
    ensures forall i :: 0 <= i < n ==> IsSpace(s[i])
    ensures n < |s| ==> !IsSpace(s[n])
  {
    if s == [] || !IsSpace(s[0]) then 0 else 1 + LeadingSpace(s[1..])
  }

  /** The number of whitespace characters at the end of `s`. */
  function TrailingSpace(s: string): (n: nat)
    ensures n <= |s|
    ensures forall i :: |s| - n <= i < |s| ==> IsSpace(s[i])
    ensures n < |s| ==> !IsSpace(s[|s| - 1 - n])
  {
    if s == [] || !IsSpace(s[|s| - 1]) then 0 else 1 + TrailingSpace(s[..|s| - 1])
  }

  /**
   * Python's `s.strip()`: `s` without its leading and trailing whitespace.
   * The result is empty exactly when `s` is blank; otherwise it begins and
   * ends with a character that is not whitespace.
   */
  function Strip(s: string): (r: string)
    ensures |r| <= |s|
    ensures r == [] <==> IsBlank(s)
    ensures r != [] ==> !IsSpace(r[0]) && !IsSpace(r[|r| - 1])
  {
    var n := LeadingSpace(s);
    if n == |s| then [] else s[n..|s| - TrailingSpace(s)]
  }

  /** Stripping removes exactly the blank padding around a text with non-blank ends. */
  lemma StripPadded(before: string, t: string, after: string)
    requires IsBlank(before) && IsBlank(after)
    requires t != [] && !IsSpace(t[0]) && !IsSpace(t[|t| - 1])
    ensures Strip(before + t + after) == t
  {
    var s := before + t + after;
    assert s[|before|] == t[0];
    assert s[|before| + |t| - 1] == t[|t| - 1];
    var n, m := LeadingSpace(s), TrailingSpace(s);
    assert n == |before|;
    assert m == |after|;
    assert s[n..|s| - m] == t;
  }

  /** `strip` is idempotent. */
  lemma StripIdempotent(s: string)
    ensures Strip(Strip(s)) == Strip(s)
  {
    var r := Strip(s);
    if r != [] {
      StripPadded([], r, []);
      assert [] + r + [] == r;
    }
  }

  /** `pat` occurs in `s` starting at index `i`. */
  predicate OccursAt(s: string, pat: string, i: int) {
    0 <= i && i + |pat| <= |s| && s[i..i + |pat|] == pat
  }

  /**
   * Python's `s.find(pat, start)`: the first index at or after `start` where
   * `pat` occurs in `s`, or -1 when there is none.
   */
  function Find(s: string, pat: string, start: nat): (r: int)
    ensures r == -1 || (start <= r && OccursAt(s, pat, r))
    ensures forall i :: start <= i && (r == -1 || i < r) ==> !OccursAt(s, pat, i)
    decreases |s| - start
  {
    if start + |pat| > |s| then -1
    else if OccursAt(s, pat, start) then start
    else Find(s, pat, start + 1)
  }

  /** Python's `pat in s`. */
  predicate Contains(s: string, pat: string) {
    Find(s, pat, 0) != -1
  }

  /** Python's `s.find(c)` for a one-character pattern: the first index holding `c`, or -1. */
  function FindChar(s: string, c: char): (r: int)
    ensures -1 <= r < |s|
    ensures r == -1 <==> c !in s
    ensures r >= 0 ==> s[r] == c && forall i :: 0 <= i < r ==> s[i] != c
  {
    if s == [] then -1
    else if s[0] == c then 0
    else
      assert s == [s[0]] + s[1..];
      var k := FindChar(s[1..], c);
      if k == -1 then -1 else k + 1
  }

  /** Python's `s.rfind(c)` for a one-character pattern: the last index holding `c`, or -1. */
  function RFindChar(s: string, c: char): (r: int)
    ensures -1 <= r < |s|
    ensures r == -1 <==> c !in s
    ensures r >= 0 ==> s[r] == c && forall i :: r < i < |s| ==> s[i] != c
  {
    if s == [] then -1
    else if s[|s| - 1] == c then |s| - 1
    else
      assert s == s[..|s| - 1] + [s[|s| - 1]];
      RFindChar(s[..|s| - 1], c)
  }

  /** Python's `s.startswith(p)`. */
  predicate StartsWith(s: string, p: string) {
    |p| <= |s| && s[..|p|] == p
  }

  /** Python's `s.endswith(p)`. */
  predicate EndsWith(s: string, p: string) {
    |p| <= |s| && s[|s| - |p|..] == p
  }
}

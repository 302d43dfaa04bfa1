/**
 * The parts of JavaScript's string semantics the input row relies on:
 * `String.prototype.trim` and the truthiness of a string.
 */
module JsString {

  /** The code points `trim` strips: the ECMAScript WhiteSpace set (tab, vertical
      tab, form feed, space, no-break space, byte order mark and every other
      space separator) and the LineTerminator set (line feed, carriage return,
      line and paragraph separators). */
  predicate IsWhitespace(c: char) {
    || c == '\t' || c == '\U{000B}' || c == '\U{000C}' || c == ' '
    || c == '\U{00A0}' || c == '\U{FEFF}' || c == '\U{1680}'
    || ('\U{2000}' <= c <= '\U{200A}')
    || c == '\U{202F}' || c == '\U{205F}' || c == '\U{3000}'
    || c == '\n' || c == '\r' || c == '\U{2028}' || c == '\U{2029}'
  }

  predicate AllWhitespace(s: string) {
    forall i :: 0 <= i < |s| ==> IsWhitespace(s[i])
  }

  /** A string is truthy exactly when it is not empty. */
  predicate Truthy(s: string) {
    s != ""
  }

  /** Index of the first non-whitespace code point at or after `i`, or `|s|`. */
  function SkipLeading(s: string, i: nat): (a: nat)
    requires i <= |s|
    ensures i <= a <= |s|
    ensures forall k :: i <= k < a ==> IsWhitespace(s[k])
    ensures a < |s| ==> !IsWhitespace(s[a])
    decreases |s| - i
  {
    if i == |s| || !IsWhitespace(s[i]) then i else SkipLeading(s, i + 1)
  }

  /** Index just past the last non-whitespace code point of `s[lo..j]`, or `lo`. */
  function SkipTrailing(s: string, lo: nat, j: nat): (b: nat)
    requires lo <= j <= |s|
    ensures lo <= b <= j
    ensures forall k :: b <= k < j ==> IsWhitespace(s[k])
    ensures b > lo ==> !IsWhitespace(s[b - 1])
    decreases j
  {
    if j == lo || !IsWhitespace(s[j - 1]) then j else SkipTrailing(s, lo, j - 1)
  }

  /** `s.trim()`: `s` without its leading and trailing whitespace. What is kept
      is one contiguous slice of `s`; everything dropped is whitespace; the
      result is empty exactly when `s` is all whitespace. */
  function Trim(s: string): (r: string)
    ensures var a := SkipLeading(s, 0);
      && a + |r| <= |s|
      && r == s[a..a + |r|]
      && (forall k :: 0 <= k < a ==> IsWhitespace(s[k]))
      && (forall k :: a + |r| <= k < |s| ==> IsWhitespace(s[k]))
    ensures r == "" || (!IsWhitespace(r[0]) && !IsWhitespace(r[|r| - 1]))
    ensures r == "" <==> AllWhitespace(s)
  {
    var a := SkipLeading(s, 0);
    var b := SkipTrailing(s, a, |s|);
    s[a..b]
  }

  /** Trimming a trimmed string changes nothing. */
  lemma TrimIdempotent(s: string)
    ensures Trim(Trim(s)) == Trim(s)
  {
  }
}

/**
 * The one piece of the JavaScript string library the note form relies on:
 * `String.prototype.trim`, which the add handler uses to reject blank drafts.
 */
module JsString {

  /**
   * The characters `trim` removes: the ECMAScript WhiteSpace code points
   * (tab, vertical tab, form feed, space, no-break space, the byte order mark
   * and the Unicode space separators) and the LineTerminator code points
   * (line feed, carriage return, line and paragraph separators).
   */
  predicate IsWhiteSpace(c: char) {
    || c == '\t' || c == '\n' || c == '\U{000B}' || c == '\U{000C}' || c == '\r'
    || c == ' ' || c == '\U{00A0}' || c == '\U{1680}'
    || ('\U{2000}' <= c <= '\U{200A}')
    || c == '\U{2028}' || c == '\U{2029}' || c == '\U{202F}' || c == '\U{205F}'
    || c == '\U{3000}' || c == '\U{FEFF}'
  }

  predicate AllWhiteSpace(s: string) {
    forall i :: 0 <= i < |s| ==> IsWhiteSpace(s[i])
  }

  /** Length of the whitespace run at the start of `s`. */
  function LeadingWhiteSpace(s: string): (k: nat)
    ensures k <= |s|
    ensures AllWhiteSpace(s[..k])
    ensures k < |s| ==> !IsWhiteSpace(s[k])
  {
    if |s| == 0 || !IsWhiteSpace(s[0]) then 0
    else
      var k := 1 + LeadingWhiteSpace(s[1..]);
      assert forall i :: 1 <= i < k ==> s[..k][i] == s[1..][..k - 1][i - 1];
      k
  }

  /** Index at which the whitespace run at the end of `s` begins. */
  function TrailingWhiteSpace(s: string): (k: nat)
    ensures k <= |s|
    ensures AllWhiteSpace(s[k..])
    ensures k > 0 ==> !IsWhiteSpace(s[k - 1])
  {
    if |s| == 0 || !IsWhiteSpace(s[|s| - 1]) then |s|
    else
      var k := TrailingWhiteSpace(s[..|s| - 1]);
      assert forall i :: 0 <= i < |s| - 1 - k ==> s[k..][i] == s[..|s| - 1][k..][i];
      k
  }

  /**
   * `s.trim()`: `s` without its leading and trailing whitespace. The result
   * is empty exactly when `s` is all whitespace; otherwise it is the slice of
   * `s` that starts and ends with a non-whitespace character, and only
   * whitespace lies outside it.
   */
  function Trim(s: string): (r: string)
    ensures |r| <= |s|
    ensures r == "" <==> AllWhiteSpace(s)
    ensures r != "" ==> !IsWhiteSpace(r[0]) && !IsWhiteSpace(r[|r| - 1])
    ensures LeadingWhiteSpace(s) + |r| <= |s|
    ensures r == s[LeadingWhiteSpace(s)..LeadingWhiteSpace(s) + |r|]
    ensures AllWhiteSpace(s[..LeadingWhiteSpace(s)])
    ensures AllWhiteSpace(s[LeadingWhiteSpace(s) + |r|..])
  {
    var i, j := LeadingWhiteSpace(s), TrailingWhiteSpace(s);
    if i == |s| then
      assert s[..i] == s;
      ""
    else
      assert !AllWhiteSpace(s) by { assert !IsWhiteSpace(s[i]); }
      s[i..j]
  }
}

/** JavaScript's `String.prototype.trim`, which both screens use to reject blank form fields. */
module Text {

  /** The characters `trim` removes: ECMAScript WhiteSpace (tab, vertical tab, form feed,
      the byte-order mark and every Unicode "Zs" space separator) and LineTerminator
      (line feed, carriage return, line and paragraph separator). */
  predicate IsWhiteSpace(c: char) {
    c == '\t' || c == '\U{000B}' || c == '\U{000C}' || c == ' ' || c == '\U{00A0}' ||
    c == '\U{FEFF}' || c == '\U{1680}' || ('\U{2000}' <= c <= '\U{200A}') ||
    c == '\U{202F}' || c == '\U{205F}' || c == '\U{3000}' ||
    c == '\n' || c == '\r' || c == '\U{2028}' || c == '\U{2029}'
  }

  /** `s.trim()`: white space is dropped from both ends. The result neither starts nor ends
      with white space, and it is empty (so `!s.trim()` holds) exactly when every character
      of `s` is white space, in particular when `s` is empty. */
  function Trim(s: string): (r: string)
    ensures |r| <= |s|
    ensures r == [] || (!IsWhiteSpace(r[0]) && !IsWhiteSpace(r[|r| - 1]))
    ensures r == [] <==> forall i :: 0 <= i < |s| ==> IsWhiteSpace(s[i])
  {
    if s == [] then s
    else if IsWhiteSpace(s[0]) then
      assert forall i :: 0 < i < |s| ==> s[i] == s[1..][i - 1];
      Trim(s[1..])
    else if IsWhiteSpace(s[|s| - 1]) then
      assert forall i :: 0 <= i < |s| - 1 ==> s[i] == s[..|s| - 1][i];
      Trim(s[..|s| - 1])
    else s
  }

  /** Trimming does not change a string that neither starts nor ends with white space. */
  lemma TrimUnpadded(s: string)
    requires s != [] && !IsWhiteSpace(s[0]) && !IsWhiteSpace(s[|s| - 1])
    ensures Trim(s) == s
  {
  }
}

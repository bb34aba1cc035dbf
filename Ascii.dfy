/** Character classes shared by the editor's string transforms.
    Letters, digits and case mapping are the ASCII ones (what `\w`, `\b` and a
    non-Unicode case-insensitive regular expression use); white space is the
    exact set ECMAScript's `\s` and `String.prototype.trim` use. */
module Ascii {

  predicate IsUpper(c: char) { 'A' <= c <= 'Z' }

  predicate IsLower(c: char) { 'a' <= c <= 'z' }

  predicate IsLetter(c: char) { IsUpper(c) || IsLower(c) }

  predicate IsDigit(c: char) { '0' <= c <= '9' }

  /** `\w` in a regular expression without the `u` flag: `[A-Za-z0-9_]`. */
  predicate IsWordChar(c: char) { IsLetter(c) || IsDigit(c) || c == '_' }

  /** `\s`: ECMAScript WhiteSpace and LineTerminator code points. */
  predicate IsSpace(c: char)
  {
    c == '\t' || c == '\n' || c == '\U{B}' || c == '\U{C}' || c == '\r' || c == ' '
    || c == '\U{A0}' || c == '\U{1680}' || ('\U{2000}' <= c <= '\U{200A}')
    || c == '\U{2028}' || c == '\U{2029}' || c == '\U{202F}' || c == '\U{205F}'
    || c == '\U{3000}' || c == '\U{FEFF}'
  }

  /** The sentence-ending punctuation `[.!?]`. */
  predicate IsSentenceEnd(c: char) { c == '.' || c == '!' || c == '?' }

  /** Position of a letter in the alphabet, whichever its case. */
  function LetterIndex(c: char): (i: int)
    requires IsLetter(c)
    ensures 0 <= i < 26
  {
    if IsUpper(c) then c as int - 'A' as int else c as int - 'a' as int
  }

  function UpperChar(c: char): (r: char)
    ensures IsLower(c) ==> IsUpper(r) && LetterIndex(r) == LetterIndex(c)
    ensures !IsLower(c) ==> r == c
  {
    if IsLower(c) then (c as int - 32) as char else c
  }

  function LowerChar(c: char): (r: char)
    ensures IsUpper(c) ==> IsLower(r) && LetterIndex(r) == LetterIndex(c)
    ensures !IsUpper(c) ==> r == c
  {
    if IsUpper(c) then (c as int + 32) as char else c
  }

  /** Equality of two strings up to ASCII case, as a regular expression with the
      `i` flag (and no `u` flag) or an HTML tag-name selector compares them. */
  predicate EqualFold(a: string, b: string)
  {
    |a| == |b| && forall k :: 0 <= k < |a| ==> LowerChar(a[k]) == LowerChar(b[k])
  }
}

/**
 * Character classes used by the review text normaliser (`clean_text` in app.py).
 */
module Chars {

  /**
   * The characters matched by `\s` in a Python `str` regular expression:
   * the ASCII controls TAB..CR and FS..US, the space, and the Unicode
   * whitespace characters Python's `str.isspace` accepts.
   */
  predicate IsSpace(c: char) {
    || c == ' '
    || '\t' <= c <= '\r'
    || '\U{1C}' <= c <= '\U{1F}'
    || c == '\U{85}'
    || c == '\U{A0}'
    || c == '\U{1680}'
    || '\U{2000}' <= c <= '\U{200A}'
    || c == '\U{2028}'
    || c == '\U{2029}'
    || c == '\U{202F}'
    || c == '\U{205F}'
    || c == '\U{3000}'
  }

  predicate IsUpper(c: char) {
    'A' <= c <= 'Z'
  }

  predicate IsLower(c: char) {
    'a' <= c <= 'z'
  }

  predicate IsAsciiLetter(c: char) {
    IsUpper(c) || IsLower(c)
  }

  /** The characters the class `[A-Za-z ]` keeps. */
  predicate IsKept(c: char) {
    IsAsciiLetter(c) || c == ' '
  }

  /** ASCII lower-casing: `A`-`Z` map to `a`-`z`, every other character is unchanged. */
  function LowerChar(c: char): (d: char)
    ensures IsUpper(c) ==> IsLower(d) && d as int - 'a' as int == c as int - 'A' as int
    ensures !IsUpper(c) ==> d == c
  {
    if IsUpper(c) then (c as int - 'A' as int + 'a' as int) as char else c
  }
}

/**
 * Character classes used by the regular expressions and string methods of the
 * source, restricted to ASCII: `\w` is a letter, a digit or `_`; `\s` and
 * `str.strip()` accept the ASCII characters Python calls whitespace.
 */
module Chars {

  predicate IsAsciiLetter(c: char) {
    'a' <= c <= 'z' || 'A' <= c <= 'Z'
  }

  predicate IsDigit(c: char) {
    '0' <= c <= '9'
  }

  /** The regular-expression class `\w`. */
  predicate IsWordChar(c: char) {
    IsAsciiLetter(c) || IsDigit(c) || c == '_'
  }

  /** The regular-expression class `\s`, also what `str.strip()` removes. */
  predicate IsWhitespace(c: char) {
    c == ' ' || 9 <= c as int <= 13 || 28 <= c as int <= 31
  }

  predicate IsUnderscore(c: char) {
    c == '_'
  }

  /** Everything except the plain space `" "` (the only character `replace(" ", "")` deletes). */
  predicate NotSpaceChar(c: char) {
    c != ' '
  }

  /** `str.lower()` on one character. */
  function Lower(c: char): (r: char)
    ensures 'A' <= c <= 'Z' ==> 'a' <= r <= 'z'
    ensures 'A' <= c <= 'Z' ==> r as int - 'a' as int == c as int - 'A' as int
    ensures !('A' <= c <= 'Z') ==> r == c
    ensures !('A' <= r <= 'Z')
    ensures IsWordChar(r) <==> IsWordChar(c)
    ensures IsWhitespace(r) <==> IsWhitespace(c)
  {
    if 'A' <= c <= 'Z' then (c as int + 32) as char else c
  }
}

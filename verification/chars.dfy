/** The ASCII character classes the runtime relies on.

    Java's regular-expression classes `\d`, `\s` and `\w` are ASCII-only
    unless a pattern asks for Unicode classes, which the mask compiler never
    does, so the predicates below are exactly what its patterns test. */
module Chars {

  /** `\d` and `[0-9]`. */
  predicate IsDigit(c: char) {
    '0' <= c <= '9'
  }

  /** `[A-Z]`. */
  predicate IsUpper(c: char) {
    'A' <= c <= 'Z'
  }

  predicate IsLower(c: char) {
    'a' <= c <= 'z'
  }

  /** `[A-Za-z]`. */
  predicate IsLetter(c: char) {
    IsUpper(c) || IsLower(c)
  }

  /** `\s`: space, tab, line feed, vertical tab, form feed, carriage return. */
  predicate IsRegexSpace(c: char) {
    c == ' ' || c == '\t' || c == '\n' || c == '\U{000B}' || c == '\U{000C}' || c == '\r'
  }

  /** `\w`: letters, digits and the underscore. */
  predicate IsWordChar(c: char) {
    IsLetter(c) || IsDigit(c) || c == '_'
  }

  /** The characters that `.` refuses when a pattern is compiled without
      DOTALL or UNIX_LINES. */
  predicate IsLineTerminator(c: char) {
    c == '\n' || c == '\r' || c == '\U{0085}' || c == '\U{2028}' || c == '\U{2029}'
  }

  /** `Character.isWhitespace`: the Unicode space, line and paragraph
      separators except the three no-break spaces (U+00A0, U+2007, U+202F),
      plus tab, line feed, vertical tab, form feed, carriage return and the
      four information separators U+001C..U+001F. */
  predicate IsJavaWhitespace(c: char) {
    || IsRegexSpace(c)
    || ('\U{001C}' <= c <= '\U{001F}')
    || c == '\U{1680}'
    || ('\U{2000}' <= c <= '\U{2006}')
    || ('\U{2008}' <= c <= '\U{200A}')
    || c == '\U{2028}' || c == '\U{2029}'
    || c == '\U{205F}' || c == '\U{3000}'
  }

  /** How many times `c` occurs in `s`. */
  function Occurrences(s: string, c: char): (n: nat)
    ensures n <= |s|
  {
    if s == [] then 0 else (if s[0] == c then 1 else 0) + Occurrences(s[1..], c)
  }

  lemma {:induction false} OccurrencesAppend(a: string, b: string, c: char)
    ensures Occurrences(a + b, c) == Occurrences(a, c) + Occurrences(b, c)
  {
    if a != [] {
      assert (a + b)[1..] == a[1..] + b;
      OccurrencesAppend(a[1..], b, c);
    } else {
      assert a + b == b;
    }
  }
}

/** Character classes used by the extraction heuristics.

    The model works over a fixed alphabet: ASCII plus the accented letters
    Á É Í Ó Ú Ü Ñ and their lower-case forms. Inside that alphabet the
    predicates below agree with Python's `\d`, `\s`, `\w`, `str.isspace`,
    `str.upper` and `str.lower`; characters outside it are treated as
    neither digit, whitespace nor word character, and case mapping leaves
    them unchanged. */
module Chars {

  /** Python `\d` restricted to the alphabet. */
  predicate IsDigit(c: char) {
    '0' <= c <= '9'
  }

  /** Python `\s` and `str.isspace` restricted to ASCII: tab, line feed,
      vertical tab, form feed, carriage return, the four information
      separators 0x1C-0x1F, and space. */
  predicate IsSpace(c: char) {
    ('\t' <= c <= '\r') || ('\U{1C}' <= c <= '\U{1F}') || c == ' '
  }

  predicate IsAsciiUpper(c: char) {
    'A' <= c <= 'Z'
  }

  predicate IsAsciiLower(c: char) {
    'a' <= c <= 'z'
  }

  /** Á É Í Ó Ú Ñ */
  predicate IsAccentedUpperNoUmlaut(c: char) {
    c == '\U{C1}' || c == '\U{C9}' || c == '\U{CD}' || c == '\U{D3}' || c == '\U{DA}' || c == '\U{D1}'
  }

  /** á é í ó ú ñ */
  predicate IsAccentedLowerNoUmlaut(c: char) {
    c == '\U{E1}' || c == '\U{E9}' || c == '\U{ED}' || c == '\U{F3}' || c == '\U{FA}' || c == '\U{F1}'
  }

  /** Á É Í Ó Ú Ü Ñ */
  predicate IsAccentedUpper(c: char) {
    IsAccentedUpperNoUmlaut(c) || c == '\U{DC}'
  }

  /** á é í ó ú ü ñ */
  predicate IsAccentedLower(c: char) {
    IsAccentedLowerNoUmlaut(c) || c == '\U{FC}'
  }

  /** Python `\w`: letters, digits and underscore. */
  predicate IsWordChar(c: char) {
    IsAsciiUpper(c) || IsAsciiLower(c) || IsDigit(c) || c == '_' || IsAccentedUpper(c) || IsAccentedLower(c)
  }

  /** Python `str.upper` on one character of the alphabet. */
  function Upper(c: char): (u: char)
    ensures IsAsciiLower(c) ==> IsAsciiUpper(u)
    ensures IsAccentedLower(c) ==> IsAccentedUpper(u)
    ensures !IsAsciiLower(c) && !IsAccentedLower(c) ==> u == c
  {
    if IsAsciiLower(c) || IsAccentedLower(c) then c - ' ' else c
  }

  /** Python `str.lower` on one character of the alphabet. */
  function Lower(c: char): (l: char)
    ensures IsAsciiUpper(c) ==> IsAsciiLower(l)
    ensures IsAccentedUpper(c) ==> IsAccentedLower(l)
    ensures !IsAsciiUpper(c) && !IsAccentedUpper(c) ==> l == c
  {
    if IsAsciiUpper(c) || IsAccentedUpper(c) then c + ' ' else c
  }

  /** Line boundaries recognised by Python's `str.splitlines`. */
  predicate IsLineBoundary(c: char) {
    ('\n' <= c <= '\r') || ('\U{1C}' <= c <= '\U{1E}') || c == '\U{85}' || c == '\U{2028}' || c == '\U{2029}'
  }
}

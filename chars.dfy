/**
  Character classes used by the text normalizer and the tokenizer.

  The server relies on three pieces of Python's Unicode machinery:
  the regular-expression class `\w`, whitespace (`\s` in a pattern and
  `str.isspace()` in `str.split()`, which agree), and `str.lower()`.
  This module defines them concretely for the code points U+0000..U+00FF
  (ASCII and Latin-1, which covers German text) and for every Unicode
  whitespace code point. Every other code point is treated as neither a
  word character nor whitespace.
 */
module Chars {

  /** Python's whitespace: `\s` in a `str` pattern, and `str.isspace()`. */
  predicate IsSpace(c: char) {
    var n := c as int;
    (0x09 <= n <= 0x0D) || (0x1C <= n <= 0x20) || n == 0x85 || n == 0xA0 ||
    n == 0x1680 || (0x2000 <= n <= 0x200A) || n == 0x2028 || n == 0x2029 ||
    n == 0x202F || n == 0x205F || n == 0x3000
  }

  /** Python's `\w` on Latin-1: letters, digits, numeric characters and '_'. */
  predicate IsWordChar(c: char) {
    var n := c as int;
    ('0' <= c <= '9') || ('A' <= c <= 'Z') || c == '_' || ('a' <= c <= 'z') ||
    n == 0xAA || n == 0xB2 || n == 0xB3 || n == 0xB5 || n == 0xB9 || n == 0xBA ||
    (0xBC <= n <= 0xBE) || (0xC0 <= n <= 0xD6) || (0xD8 <= n <= 0xF6) || (0xF8 <= n <= 0xFF)
  }

  /** Upper-case letters whose lower-case form is a single code point 0x20 above. */
  predicate IsUpper(c: char) {
    var n := c as int;
    ('A' <= c <= 'Z') || (0xC0 <= n <= 0xD6) || (0xD8 <= n <= 0xDE)
  }

  /**
    `str.lower()` on one character, for the Latin-1 capitals; every other
    code point is returned unchanged. It never leaves a Latin-1 capital, it
    keeps a character's class (word character, whitespace), and it changes
    nothing that is not upper case; together these make it idempotent.
   */
  function ToLower(c: char): (d: char)
    ensures !IsUpper(d)
    ensures IsWordChar(d) <==> IsWordChar(c)
    ensures IsSpace(d) <==> IsSpace(c)
    ensures !IsUpper(c) ==> d == c
    ensures IsUpper(c) ==> d != c
  {
    if IsUpper(c) then (c as int + 0x20) as char else c
  }

  /** Lowering twice is lowering once. */
  lemma ToLowerIdempotent(c: char)
    ensures ToLower(ToLower(c)) == ToLower(c)
  {
  }

  /** A lowered word character is a word character, and is not whitespace. */
  lemma ToLowerKeepsWordChar(c: char)
    requires IsWordChar(c)
    ensures IsWordChar(ToLower(c)) && !IsSpace(ToLower(c))
  {
  }
}

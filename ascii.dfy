/** ASCII character classes and the ASCII-only case mapping that Java's
    regular expressions apply when a pattern is compiled with
    CASE_INSENSITIVE and without UNICODE_CASE. */
module Ascii {

  predicate IsUpper(c: char) { 'A' <= c <= 'Z' }

  predicate IsLower(c: char) { 'a' <= c <= 'z' }

  predicate IsLetter(c: char) { IsUpper(c) || IsLower(c) }

  predicate IsDigit(c: char) { '0' <= c <= '9' }

  /** Upper case of an ASCII lower-case letter; every other character is
      returned as it is. */
  function ToUpper(c: char): (u: char)
    ensures !IsLower(u)
    ensures IsLetter(u) <==> IsLetter(c)
    ensures !IsLetter(c) ==> u == c
  {
    if IsLower(c) then (c as int - 32) as char else c
  }

  /** Lower case of an ASCII upper-case letter; every other character is
      returned as it is. */
  function ToLower(c: char): (l: char)
    ensures !IsUpper(l)
    ensures IsLetter(l) <==> IsLetter(c)
    ensures !IsLetter(c) ==> l == c
  {
    if IsUpper(c) then (c as int + 32) as char else c
  }

  /** Two characters that differ at most in the case of an ASCII letter. */
  predicate SameIgnoringCase(c: char, d: char)
  {
    ToLower(c) == ToLower(d)
  }
}

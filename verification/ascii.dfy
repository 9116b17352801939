/** Character classes and case mapping of the C library in its "C" locale,
    as the spell checker uses them (isalnum, toupper, tolower). A character
    stands for one byte; a character outside ASCII is neither a letter nor a
    digit and has no case. */
module Ascii {

  predicate IsDigit(c: char) { '0' <= c <= '9' }

  predicate IsUpper(c: char) { 'A' <= c <= 'Z' }

  predicate IsLower(c: char) { 'a' <= c <= 'z' }

  /** isalnum */
  predicate IsAlnum(c: char) { IsDigit(c) || IsUpper(c) || IsLower(c) }

  /** toupper: a lower-case letter becomes its capital, anything else is kept. */
  function ToUpper(c: char): char
  {
    if IsLower(c) then (c as int - 32) as char else c
  }

  /** tolower: a capital becomes its lower-case letter, anything else is kept. */
  function ToLower(c: char): char
  {
    if IsUpper(c) then (c as int + 32) as char else c
  }

  lemma ToUpperFixes(c: char)
    ensures ToUpper(c) == c <==> !IsLower(c)
    ensures !IsLower(ToUpper(c))
  {
  }

  lemma ToLowerFixes(c: char)
    ensures ToLower(c) == c <==> !IsUpper(c)
  {
  }
}

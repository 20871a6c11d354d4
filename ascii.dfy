/**
 * ASCII stand-ins for the locale-based character classification the string
 * tools call (std::isspace, std::isalnum and std::tolower in the "C" locale).
 */
module Ascii {
  /** The characters the "C" locale calls white space: ' ', '\t', '\n', '\v', '\f' and '\r'. */
  const Whitespace: string := " \t\n\U{B}\U{C}\r"

  /** std::isspace: the space and the five control characters from '\t' (9) to '\r' (13). */
  function IsSpace(c: char): (r: bool)
    ensures r <==> c == ' ' || '\t' <= c <= '\r'
  {
    c in Whitespace
  }

  predicate IsUpper(c: char) {
    'A' <= c <= 'Z'
  }

  /**
   * std::isalnum: a digit, or a character std::tolower turns into a lower-case letter,
   * which makes the test blind to case.
   */
  function IsAlnum(c: char): (r: bool)
    ensures r <==> '0' <= c <= '9' || 'a' <= LowerChar(c) <= 'z'
  {
    'a' <= c <= 'z' || IsUpper(c) || '0' <= c <= '9'
  }

  /**
   * std::tolower in the "C" locale: an upper-case letter becomes the lower-case letter
   * at the same place in the alphabet; every other character is left alone.
   */
  function LowerChar(c: char): (r: char)
    ensures !IsUpper(r)
    ensures IsUpper(c) ==> 'a' <= r <= 'z' && r as int - 'a' as int == c as int - 'A' as int
    ensures !IsUpper(c) ==> r == c
  {
    if IsUpper(c) then (c as int + 32) as char else c
  }
}

/** Character classes used by the kebab-case pipeline. */
module Chars {

  /** A code point of the combining diacritical marks block, U+0300 to U+036F. */
  predicate IsCombiningMark(c: char) {
    0x300 <= c as int <= 0x36F
  }

  /** The white space removed by the ECMAScript `String.prototype.trim`: the
      WhiteSpace production (TAB, VT, FF, ZWNBSP and the Zs space separators)
      together with the LineTerminator production (LF, CR, LS, PS). */
  predicate IsWhitespace(c: char) {
    var n := c as int;
    n == 0x09 || n == 0x0A || n == 0x0B || n == 0x0C || n == 0x0D
    || n == 0x20 || n == 0xA0 || n == 0x1680
    || (0x2000 <= n <= 0x200A)
    || n == 0x2028 || n == 0x2029 || n == 0x202F || n == 0x205F
    || n == 0x3000 || n == 0xFEFF
  }

  predicate IsNotCombiningMark(c: char) {
    !IsCombiningMark(c)
  }

  predicate IsAscii(c: char) {
    c as int < 0x80
  }

  predicate IsAsciiUpper(c: char) {
    'A' <= c <= 'Z'
  }

  /** Lower-case mapping of an ASCII character: `A`-`Z` become `a`-`z`, everything else is kept. */
  function AsciiLower(c: char): (r: char)
    ensures IsAsciiUpper(c) ==> 'a' <= r <= 'z' && r as int - c as int == 32
    ensures !IsAsciiUpper(c) ==> r == c
    ensures !IsAsciiUpper(r)
  {
    if IsAsciiUpper(c) then (c as int + 32) as char else c
  }

  /** The characters the step `[^a-z0-9]+` keeps: ASCII lower-case letters and digits. */
  predicate IsLowerAlnum(c: char) {
    'a' <= c <= 'z' || '0' <= c <= '9'
  }

  /** Every character that a separator run is made of. */
  predicate IsSeparator(c: char) {
    !IsLowerAlnum(c)
  }

  predicate IsHyphen(c: char) {
    c == '-'
  }

  predicate IsNotHyphen(c: char) {
    !IsHyphen(c)
  }

  /** The alphabet of a kebab-case result. */
  predicate IsKebabChar(c: char) {
    IsLowerAlnum(c) || IsHyphen(c)
  }

  /** A kebab-case character is ASCII, lower-case, not a mark and not white space:
      every step before the collapse leaves it alone. */
  lemma KebabCharIsInert(c: char)
    requires IsKebabChar(c)
    ensures IsAscii(c) && AsciiLower(c) == c
    ensures !IsCombiningMark(c) && !IsWhitespace(c)
  {
  }
}

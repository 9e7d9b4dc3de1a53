/** Code points as integers, and the character classes the TOML reader and writer share. */
module TomlChars {

  type Text = seq<int>

  predicate IsScalar(c: int) {
    0 <= c <= 0x10FFFF && !IsSurrogate(c)
  }

  predicate IsSurrogate(c: int) { 0xD800 <= c <= 0xDFFF }

  predicate AllScalar(t: Text) {
    forall k :: 0 <= k < |t| ==> IsScalar(t[k])
  }

  predicate IsAsciiHorizontalWhitespace(c: int) { c == '\t' as int || c == ' ' as int }

  predicate IsNonAsciiHorizontalWhitespace(c: int) {
    || c == 0xA0 || c == 0x1680 || c == 0x180E || 0x2000 <= c <= 0x200B
    || c == 0x202F || 0x205F <= c <= 0x2060 || c == 0x3000 || c == 0xFEFF
  }

  predicate IsAsciiVerticalWhitespace(c: int) { 0x0A <= c <= 0x0D }

  predicate IsNonAsciiVerticalWhitespace(c: int) { 0x2028 <= c <= 0x2029 || c == 0x85 }

  predicate IsHorizontalWhitespace(c: int) {
    IsAsciiHorizontalWhitespace(c) || IsNonAsciiHorizontalWhitespace(c)
  }

  predicate IsWhitespace(c: int) {
    || IsHorizontalWhitespace(c)
    || IsAsciiVerticalWhitespace(c) || IsNonAsciiVerticalWhitespace(c)
  }

  predicate IsValueTerminator(c: int) {
    IsWhitespace(c) || c == ']' as int || c == '}' as int || c == ',' as int || c == '#' as int
  }

  predicate IsControlCharacter(c: int) { c <= 0x1F || c == 0x7F }

  predicate IsNonTabControlCharacter(c: int) { c <= 0x08 || 0x0A <= c <= 0x1F || c == 0x7F }

  predicate IsBareKeyCharacter(c: int) {
    || '0' as int <= c <= '9' as int || 'A' as int <= c <= 'Z' as int
    || 'a' as int <= c <= 'z' as int || c == '-' as int || c == '_' as int
  }

  predicate IsHexadecimalDigit(c: int) {
    '0' as int <= c <= '9' as int || 'A' as int <= c <= 'F' as int || 'a' as int <= c <= 'f' as int
  }

  function HexToDec(c: int): int {
    if c >= 'a' as int then c - 'a' as int + 10
    else if c >= 'A' as int then c - 'A' as int + 10
    else c - '0' as int
  }
}

/** Characters by their codes: the ones that the programs treat specially, and hex digits. */
module Characters {
  import opened BitWords
  import opened Unsigned

  const NEWLINE: Uint8 := 10

  const SPACE: Uint8 := 32

  /** `isxdigit`. */
  predicate IsHexDigit(c: Uint8)
  {
    '0' as int <= c <= '9' as int || 'A' as int <= c <= 'F' as int || 'a' as int <= c <= 'f' as int
  }

  function HexValue(c: Uint8): Nibble
    requires IsHexDigit(c)
  {
    if c <= '9' as int then c - '0' as int
    else if c <= 'F' as int then c - 'A' as int + 10
    else c - 'a' as int + 10
  }

  /** The codes of the digits and their values. */
  lemma HexDigitsAsWritten(c: Uint8)
    ensures IsHexDigit(c) <==> 48 <= c <= 57 || 65 <= c <= 70 || 97 <= c <= 102
    ensures 48 <= c <= 57 ==> HexValue(c) == c - 48
    ensures 65 <= c <= 70 ==> HexValue(c) == c - 55
    ensures 97 <= c <= 102 ==> HexValue(c) == c - 87
  {}
}

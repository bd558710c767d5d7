/** Hexadecimal digits, as number literals and signature text both read them. */
module HexDigits {

  predicate IsHexDigit(c: char) {
    '0' <= c <= '9' || 'a' <= c <= 'f' || 'A' <= c <= 'F'
  }

  /** 16 for what is not a digit. */
  function HexValue(c: char): (v: nat)
    ensures v < 16 <==> IsHexDigit(c)
  {
    if '0' <= c <= '9' then c as int - 48
    else if 'a' <= c <= 'f' then c as int - 87
    else if 'A' <= c <= 'F' then c as int - 55
    else 16
  }
}

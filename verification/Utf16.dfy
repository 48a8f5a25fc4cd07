/** Text as the original runtimes see it: sequences of UTF-16 code units. */
module Utf16 {
  newtype Unit = x: int | 0 <= x < 0x1_0000

  type Text = seq<Unit>

  const TAB: Unit := 0x09
  const LF: Unit := 0x0A
  const CR: Unit := 0x0D
  const SPACE: Unit := 0x20
  const QUOTE: Unit := 0x22
  const BACKSLASH: Unit := 0x5C

  predicate IsHigh(c: Unit) { 0xD800 <= c < 0xDC00 }

  predicate IsLow(c: Unit) { 0xDC00 <= c <= 0xDFFF }

  /** Lower-case hexadecimal digit. */
  function HexDigit(n: int): Unit
    requires 0 <= n < 16
  {
    if n < 10 then (0x30 + n) as Unit else (0x57 + n) as Unit
  }

  /** The six-unit escape `\uXXXX` in lower-case hexadecimal. */
  function UnicodeEscape(c: Unit): Text {
    var n := c as int;
    [BACKSLASH, 0x75, HexDigit(n / 4096), HexDigit(n / 256 % 16), HexDigit(n / 16 % 16), HexDigit(n % 16)]
  }

  /** A unit is made up of its four hexadecimal digits. */
  lemma FromNibbles(n: int)
    requires 0 <= n < 0x1_0000
    ensures 0 <= n / 4096 < 16
    ensures n == 4096 * (n / 4096) + 256 * (n / 256 % 16) + 16 * (n / 16 % 16) + n % 16
  {
    NextNibble(n, 1);
    NextNibble(n, 16);
    NextNibble(n, 256);
  }

  lemma NextNibble(n: nat, place: nat)
    requires place in {1, 16, 256}
    ensures n / place == 16 * (n / (16 * place)) + n / place % 16
  {}
}

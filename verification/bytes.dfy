/**
 * Octets and the ASCII operations the byte-level code relies on
 * (`u8::to_ascii_lowercase`, `u8::to_ascii_uppercase`, `eq_ignore_ascii_case`),
 * plus the canonical hex digits used when a byte is percent-encoded.
 */
module Bytes {

  /** An octet, Rust's `u8`. */
  type byte = b: int | 0 <= b < 256

  const PERCENT: byte := 0x25
  const SLASH: byte := 0x2F
  const DOT: byte := 0x2E
  const COLON: byte := 0x3A
  const QUESTION_MARK: byte := 0x3F
  const HASH_SIGN: byte := 0x23

  predicate IsAsciiUpper(b: byte) {
    0x41 <= b <= 0x5A
  }

  predicate IsAsciiLower(b: byte) {
    0x61 <= b <= 0x7A
  }

  function ToAsciiLowercase(b: byte): byte {
    if IsAsciiUpper(b) then b + 0x20 else b
  }

  function ToAsciiUppercase(b: byte): byte {
    if IsAsciiLower(b) then b - 0x20 else b
  }

  predicate EqIgnoreAsciiCase(a: byte, b: byte) {
    ToAsciiLowercase(a) == ToAsciiLowercase(b)
  }

  /** The uppercase hex digit of a nibble, as percent-encoders emit it. */
  function HexUpper(v: nat): byte
    requires v < 16
  {
    if v < 10 then 0x30 + v else 0x41 + (v - 10)
  }

  /** The lowercase hex digit of a nibble. */
  function HexLower(v: nat): byte
    requires v < 16
  {
    if v < 10 then 0x30 + v else 0x61 + (v - 10)
  }

  /** The three-byte escape `%XX` of `b`, with uppercase digits. */
  function PercentEncodeByte(b: byte): seq<byte> {
    [PERCENT, HexUpper(b / 16), HexUpper(b % 16)]
  }

  /**
   * The bytes of an ASCII string, for writing constants and byte-level examples. Every string
   * passed is ASCII; a character past U+00FF would be taken modulo 256.
   */
  function Ascii(s: string): (r: seq<byte>)
    ensures |r| == |s|
  {
    seq(|s|, i requires 0 <= i < |s| => (s[i] as int) % 256)
  }
}

/** Bytes, and the ASCII classifications the solver relies on. */
module Bytes {
  /** Rust's `u8`. */
  type Byte = b: int | 0 <= b < 256

  /** A word is the byte string of a `&str`. */
  type Word = seq<Byte>

  predicate IsAsciiByte(b: Byte) { b < 128 }

  /** `str::is_ascii`: every byte is below 0x80. */
  predicate IsAscii(s: seq<Byte>) { forall i :: 0 <= i < |s| ==> IsAsciiByte(s[i]) }

  predicate IsAsciiUpper(b: Byte) { 'A' as int <= b <= 'Z' as int }

  /** `u8::to_ascii_lowercase`: 'A'..'Z' move up by 0x20, every other byte is kept. */
  function ToAsciiLower(b: Byte): (r: Byte)
    ensures !IsAsciiUpper(r)
    ensures IsAsciiByte(r) <==> IsAsciiByte(b)
    ensures !IsAsciiUpper(b) ==> r == b
  {
    if IsAsciiUpper(b) then b + 0x20 else b
  }

  /** The ASCII bytes that `char::is_whitespace` accepts: tab, line feed,
      vertical tab, form feed, carriage return and space. */
  predicate IsWhitespace(b: Byte) { 9 <= b <= 13 || b == 32 }
}

/**
 Go's primitive value types as the tracked buffer sees them. A Go `string`
 and a `[]byte` are both byte sequences; a `rune` is a signed 32-bit integer.
 */
module Bytes {

  /** A Go `byte` (an unsigned 8-bit integer). */
  type byte = x: int | 0 <= x < 0x100

  /** A Go `rune` (a signed 32-bit integer, not necessarily a valid code point). */
  type rune = x: int | -0x8000_0000 <= x < 0x8000_0000

  /** True when every character of `s` is 7-bit ASCII. */
  predicate IsAscii(s: string) {
    forall j | 0 <= j < |s| :: s[j] as int < 0x80
  }

  /** The bytes of an ASCII string literal, as a Go string literal holds them. */
  function Ascii(s: string): (bs: seq<byte>)
    requires IsAscii(s)
    ensures |bs| == |s|
  {
    seq(|s|, j requires 0 <= j < |s| => s[j] as int)
  }
}

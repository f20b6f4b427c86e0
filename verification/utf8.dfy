/**
 The UTF-8 encoding that `bytes.Buffer.WriteRune` appends for a `%c` rune
 argument, and the well-formedness rules of section 4 of RFC 3629 it is
 proved against.
 */
module Utf8 {
  import opened Bytes

  const MaxRune: int := 0x10FFFF
  const SurrogateMin: int := 0xD800
  const SurrogateMax: int := 0xDFFF
  /** U+FFFD, written in place of any rune that is not a Unicode scalar value. */
  const RuneError: int := 0xFFFD

  /** A Unicode scalar value: a code point that is not a surrogate. */
  predicate IsScalar(c: int) {
    0 <= c <= MaxRune && !(SurrogateMin <= c <= SurrogateMax)
  }

  /** The code point whose encoding WriteRune appends for `r`. */
  function Effective(r: rune): (c: int)
    ensures IsScalar(c)
    ensures IsScalar(r) ==> c == r
    ensures !IsScalar(r) ==> c == RuneError
  {
    if IsScalar(r) then r else RuneError
  }

  /**
   Go's rune encoder, branch for branch: the rune is compared as an unsigned
   32-bit value, so a negative rune, one above MaxRune and a surrogate all
   fall through to the three-byte encoding of RuneError.
   */
  function Encode(r: rune): (bs: seq<byte>)
    ensures 1 <= |bs| <= 4
    ensures 0 <= r < 0x80 ==> bs == [r]
  {
    if 0 <= r <= 0x7F then [r]
    else if 0 <= r <= 0x7FF then [0xC0 + r / 0x40, 0x80 + r % 0x40]
    else if !IsScalar(r) then Encode3(RuneError)
    else if r <= 0xFFFF then Encode3(r)
    else [0xF0 + r / 0x40000, 0x80 + (r / 0x1000) % 0x40, 0x80 + (r / 0x40) % 0x40, 0x80 + r % 0x40]
  }

  function Encode3(c: int): seq<byte>
    requires 0x800 <= c <= 0xFFFF
  {
    [0xE0 + c / 0x1000, 0x80 + (c / 0x40) % 0x40, 0x80 + c % 0x40]
  }

  predicate IsTail(b: byte) {
    0x80 <= b <= 0xBF
  }

  /** The first two bytes of a three-byte character (UTF8-3), which exclude overlong forms and surrogates. */
  predicate Head3(b0: byte, b1: byte) {
    || (b0 == 0xE0 && 0xA0 <= b1 <= 0xBF)
    || (0xE1 <= b0 <= 0xEC && IsTail(b1))
    || (b0 == 0xED && 0x80 <= b1 <= 0x9F)
    || (0xEE <= b0 <= 0xEF && IsTail(b1))
  }

  /** The first two bytes of a four-byte character (UTF8-4), which exclude overlong forms and code points above U+10FFFF. */
  predicate Head4(b0: byte, b1: byte) {
    || (b0 == 0xF0 && 0x90 <= b1 <= 0xBF)
    || (0xF1 <= b0 <= 0xF3 && IsTail(b1))
    || (b0 == 0xF4 && 0x80 <= b1 <= 0x8F)
  }

  /** One character as the grammar of section 4 of RFC 3629 allows it (UTF8-1 to UTF8-4). */
  predicate WellFormed(bs: seq<byte>) {
    || (|bs| == 1 && bs[0] <= 0x7F)
    || (|bs| == 2 && 0xC2 <= bs[0] <= 0xDF && IsTail(bs[1]))
    || (|bs| == 3 && Head3(bs[0], bs[1]) && IsTail(bs[2]))
    || (|bs| == 4 && Head4(bs[0], bs[1]) && IsTail(bs[2]) && IsTail(bs[3]))
  }

  /** The code point a well-formed character stands for. */
  function Decode(bs: seq<byte>): (c: int)
    requires WellFormed(bs)
    ensures IsScalar(c)
  {
    var b0: int := bs[0];
    if |bs| == 1 then b0
    else if |bs| == 2 then (b0 - 0xC0) * 0x40 + Tail(bs[1])
    else if |bs| == 3 then (b0 - 0xE0) * 0x1000 + Tail(bs[1]) * 0x40 + Tail(bs[2])
    else (b0 - 0xF0) * 0x40000 + Tail(bs[1]) * 0x1000 + Tail(bs[2]) * 0x40 + Tail(bs[3])
  }

  /** The six payload bits of a continuation byte. */
  function Tail(b: byte): int {
    b as int - 0x80
  }

  /** What WriteRune appends is one well-formed character that decodes to the rune (or to U+FFFD). */
  lemma EncodeDecode(r: rune)
    ensures WellFormed(Encode(r))
    ensures Decode(Encode(r)) == Effective(r)
  {
    if 0 <= r <= 0x7F {
    } else if 0 <= r <= 0x7FF {
    } else if !IsScalar(r) {
      assert Encode(r) == [0xEF, 0xBF, 0xBD];
    } else if r <= 0xFFFF {
      Split3(r);
    } else {
      Split4(r);
    }
  }

  /** Every well-formed character is what WriteRune appends for its code point. */
  lemma {:induction false} DecodeEncode(bs: seq<byte>)
    requires WellFormed(bs)
    ensures Encode(Decode(bs)) == bs
  {
    if |bs| == 3 {
      DecodeEncode3(bs);
    } else if |bs| == 4 {
      DecodeEncode4(bs);
    }
  }

  lemma {:induction false} DecodeEncode3(bs: seq<byte>)
    requires |bs| == 3 && Head3(bs[0], bs[1]) && IsTail(bs[2])
    ensures Encode(Decode(bs)) == bs
  {
    var c := Decode(bs);
    var x, y, z := bs[0] - 0xE0, Tail(bs[1]), Tail(bs[2]);
    assert c == (x * 0x40 + y) * 0x40 + z;
    DivMod(x * 0x40 + y, z, 0x40);
    DivMod(x, y, 0x40);
    assert c == x * 0x1000 + (y * 0x40 + z);
    DivMod(x, y * 0x40 + z, 0x1000);
    assert Encode(c) == Encode3(c);
  }

  lemma {:induction false} DecodeEncode4(bs: seq<byte>)
    requires |bs| == 4 && Head4(bs[0], bs[1]) && IsTail(bs[2]) && IsTail(bs[3])
    ensures Encode(Decode(bs)) == bs
  {
    var c := Decode(bs);
    var w, x, y, z := bs[0] - 0xF0, Tail(bs[1]), Tail(bs[2]), Tail(bs[3]);
    assert c == ((w * 0x40 + x) * 0x40 + y) * 0x40 + z;
    DivMod((w * 0x40 + x) * 0x40 + y, z, 0x40);
    DivMod(w * 0x40 + x, y, 0x40);
    assert c == (w * 0x40 + x) * 0x1000 + (y * 0x40 + z);
    DivMod(w * 0x40 + x, y * 0x40 + z, 0x1000);
    DivMod(w, x, 0x40);
    assert c == w * 0x40000 + (x * 0x1000 + y * 0x40 + z);
    DivMod(w, x * 0x1000 + y * 0x40 + z, 0x40000);
  }

  /** Distinct scalar values are written as distinct byte sequences. */
  lemma EncodeInjective(r1: rune, r2: rune)
    requires IsScalar(r1) && IsScalar(r2)
    requires Encode(r1) == Encode(r2)
    ensures r1 == r2
  {
    EncodeDecode(r1);
    EncodeDecode(r2);
  }

  /** The quotient and remainder of `q * m + r` by the encoder's divisor `m`, for a remainder in range. */
  lemma DivMod(q: int, r: int, m: int)
    requires (m == 0x40 || m == 0x1000 || m == 0x40000) && 0 <= r < m
    ensures (q * m + r) / m == q && (q * m + r) % m == r
  {
  }

  lemma Split3(c: int)
    requires 0x800 <= c <= 0xFFFF
    ensures c == (c / 0x1000) * 0x1000 + ((c / 0x40) % 0x40) * 0x40 + c % 0x40
  {
  }

  lemma Split4(c: int)
    requires 0x10000 <= c <= MaxRune
    ensures c == (c / 0x40000) * 0x40000 + ((c / 0x1000) % 0x40) * 0x1000 + ((c / 0x40) % 0x40) * 0x40 + c % 0x40
  {
    var a := c / 0x40;
    var b := a / 0x40;
    var d := b / 0x40;
    assert c == b * 0x1000 + ((a % 0x40) * 0x40 + c % 0x40);
    DivMod(b, (a % 0x40) * 0x40 + c % 0x40, 0x1000);
    assert c == d * 0x40000 + ((b % 0x40) * 0x1000 + (a % 0x40) * 0x40 + c % 0x40);
    DivMod(d, (b % 0x40) * 0x1000 + (a % 0x40) * 0x40 + c % 0x40, 0x40000);
  }
}

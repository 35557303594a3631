/** Go's `string(r)` conversion of a rune to bytes, which `OneOfRune` appends:
    the UTF-8 encoding of section 3 of RFC 3629, with every value that is not a
    Unicode scalar value (negative, a surrogate, or above U+10FFFF) replaced by
    U+FFFD before encoding. */
module Utf8 {
  import opened Base

  /** A Go `rune` is an `int32`. */
  type Rune = x: int | -0x8000_0000 <= x < 0x8000_0000

  const MAX_RUNE: int := 0x10_FFFF
  const RUNE_ERROR: int := 0xFFFD

  predicate IsScalar(c: int)
  {
    0 <= c <= MAX_RUNE && !(0xD800 <= c <= 0xDFFF)
  }

  /** The code point whose encoding `string(r)` produces. */
  function Replaced(r: Rune): (c: int)
    ensures IsScalar(c)
    ensures IsScalar(r) <==> c == r
    ensures !IsScalar(r) ==> c == RUNE_ERROR
  {
    if IsScalar(r) then r else RUNE_ERROR
  }

  /** Encoded length of a scalar value, by the ranges of RFC 3629 section 3. */
  function Width(c: int): nat
  {
    if c < 0x80 then 1 else if c < 0x800 then 2 else if c < 0x1_0000 then 3 else 4
  }

  function Encode3(c: int): Bytes
    requires 0x800 <= c < 0x1_0000
  {
    [0xE0 + c / 0x1000, 0x80 + (c / 0x40) % 0x40, 0x80 + c % 0x40]
  }

  /** `string(r)`: one rune as UTF-8. */
  function Encode(r: Rune): (bs: Bytes)
    ensures 1 <= |bs| == Width(Replaced(r)) <= 4
    ensures forall i :: 1 <= i < |bs| ==> 0x80 <= bs[i] < 0xC0
  {
    if 0 <= r < 0x80 then [r]
    else if 0 <= r < 0x800 then [0xC0 + r / 0x40, 0x80 + r % 0x40]
    else if !IsScalar(r) then Encode3(RUNE_ERROR)
    else if r < 0x1_0000 then Encode3(r)
    else [0xF0 + r / 0x4_0000, 0x80 + (r / 0x1000) % 0x40, 0x80 + (r / 0x40) % 0x40, 0x80 + r % 0x40]
  }

  /** Number of bytes a sequence has, read off its lead byte. */
  function LeadLength(b: byte): nat
  {
    if b < 0x80 then 1 else if b < 0xE0 then 2 else if b < 0xF0 then 3 else 4
  }

  /** Reassembles the code point of one encoded character. */
  function Decode(bs: Bytes): int
    requires 1 <= |bs| <= 4
  {
    var b: seq<int> := bs;
    if |b| == 1 then b[0]
    else if |b| == 2 then (b[0] - 0xC0) * 0x40 + (b[1] - 0x80)
    else if |b| == 3 then (b[0] - 0xE0) * 0x1000 + (b[1] - 0x80) * 0x40 + (b[2] - 0x80)
    else (b[0] - 0xF0) * 0x4_0000 + (b[1] - 0x80) * 0x1000 + (b[2] - 0x80) * 0x40 + (b[3] - 0x80)
  }

  /** The encoding of a rune decodes to the rune itself when it is a scalar
      value and to U+FFFD otherwise, and its lead byte announces its length. */
  lemma EncodeDecode(r: Rune)
    ensures Decode(Encode(r)) == Replaced(r)
    ensures LeadLength(Encode(r)[0]) == |Encode(r)|
  {
    var c := Replaced(r);
    if c < 0x80 {
    } else if c < 0x800 {
      Encode2Decode(c);
    } else if c < 0x1_0000 {
      Encode3Decode(c);
    } else {
      Encode4Decode(c);
    }
  }

  lemma Encode2Decode(c: int)
    requires 0x80 <= c < 0x800
    ensures Decode([0xC0 + c / 0x40, 0x80 + c % 0x40]) == c
  {
  }

  lemma Encode3Decode(c: int)
    requires 0x800 <= c < 0x1_0000
    ensures Decode(Encode3(c)) == c
    ensures LeadLength(Encode3(c)[0]) == 3
  {
    var a, b, e := c / 0x1000, (c / 0x40) % 0x40, c % 0x40;
    assert c / 0x40 == a * 0x40 + b;
  }

  lemma Encode4Decode(c: int)
    requires 0x1_0000 <= c <= MAX_RUNE
    ensures Decode([0xF0 + c / 0x4_0000, 0x80 + (c / 0x1000) % 0x40, 0x80 + (c / 0x40) % 0x40, 0x80 + c % 0x40]) == c
  {
    var a, b, d := c / 0x4_0000, (c / 0x1000) % 0x40, (c / 0x40) % 0x40;
    assert c / 0x1000 == a * 0x40 + b;
    assert c / 0x40 == (c / 0x1000) * 0x40 + d;
  }
}

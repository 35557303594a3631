/** `appendInt` and `itob` of pattern.go: an unsigned 64-bit value written as
    decimal, left-padded with '0' to a minimum width, digits never truncated. */
module Decimal {
  import opened Base

  const ZERO: byte := 0x30   // '0'

  predicate IsDigit(c: byte)
  {
    ZERO <= c <= ZERO + 9
  }

  predicate AllDigits(s: Bytes)
  {
    forall i :: 0 <= i < |s| ==> IsDigit(s[i])
  }

  /** `itob`: the ASCII character of one decimal digit. */
  function Itob(d: nat): (c: byte)
    requires d < 10
    ensures IsDigit(c) && c - ZERO == d
  {
    ZERO + d
  }

  /** The decimal digits of `u`, most significant first: "0" for zero and no
      leading zero otherwise. */
  function Digits(u: nat): (s: Bytes)
    ensures 1 <= |s|
    ensures AllDigits(s)
    ensures u > 0 ==> s[0] != ZERO
    ensures u >= 10 ==> |s| >= 2
    decreases u
  {
    if u < 10 then [Itob(u)] else Digits(u / 10) + [Itob(u % 10)]
  }

  function Zeros(k: nat): (s: Bytes)
    ensures |s| == k && AllDigits(s)
  {
    seq(k, _ => ZERO)
  }

  /** Go's `a - b` on `int`: the difference, wrapped into `[-2^63, 2^63)`. */
  function Sub64(a: int64, b: int64): (v: int64)
    ensures MIN_INT64 <= a - b < TWO63 ==> v == a - b
    ensures v == a - b || v == a - b + TWO64 || v == a - b - TWO64
  {
    var d := a - b;
    if d < MIN_INT64 then d + TWO64 else if d >= TWO63 then d - TWO64 else d
  }

  /** How many '0' characters `appendInt` writes before `n` digits: the
      padding loop runs while the 64-bit `width - n` is positive. */
  function PadLength(width: int64, n: nat): nat
    requires n < TWO63
  {
    Max(0, Sub64(width, n))
  }

  /** What `appendInt(b, u, width)` appends to `b`: `width - d` '0' characters
      (none when `width <= d`) and then the `d` digits of `u`. */
  function Padded(u: uint64, width: int64): (s: Bytes)
    ensures |Digits(u)| <= 20
    ensures |s| == PadLength(width, |Digits(u)|) + |Digits(u)|
    ensures MIN_INT64 + |Digits(u)| <= width ==> |s| == Max(width, |Digits(u)|)
    ensures AllDigits(s)
  {
    DigitsOfUint64(u);
    Zeros(PadLength(width, |Digits(u)|)) + Digits(u)
  }

  /** Reads a string of decimal digits back as a number. */
  function Parse(s: Bytes): nat
    requires AllDigits(s)
  {
    if |s| == 0 then 0 else Parse(s[..|s| - 1]) * 10 + (s[|s| - 1] - ZERO)
  }

  function Pow10(k: nat): (p: nat)
    ensures p >= 1
  {
    if k == 0 then 1 else 10 * Pow10(k - 1)
  }

  /** The digit string reads back as the number it was made from. */
  lemma {:induction false} ParseDigits(u: nat)
    ensures Parse(Digits(u)) == u
    decreases u
  {
    if u >= 10 {
      var s := Digits(u);
      assert s[..|s| - 1] == Digits(u / 10);
      ParseDigits(u / 10);
    }
  }

  /** Leading '0' characters do not change the value read back. */
  lemma {:induction false} ParseLeadingZeros(k: nat, s: Bytes)
    requires AllDigits(s)
    ensures Parse(Zeros(k) + s) == Parse(s)
    decreases |s|
  {
    if |s| == 0 {
      assert Zeros(k) + s == Zeros(k);
      ParseZeros(k);
    } else {
      var t := Zeros(k) + s;
      assert t[..|t| - 1] == Zeros(k) + s[..|s| - 1];
      ParseLeadingZeros(k, s[..|s| - 1]);
    }
  }

  lemma {:induction false} ParseZeros(k: nat)
    ensures Parse(Zeros(k)) == 0
    decreases k
  {
    if k > 0 {
      assert Zeros(k)[..k - 1] == Zeros(k - 1);
      ParseZeros(k - 1);
    }
  }

  /** The padded decimal reads back as `u`: padding never changes the value and
      the digits are never truncated. */
  lemma PaddedRoundTrip(u: uint64, width: int64)
    ensures Parse(Padded(u, width)) == u
  {
    DigitsOfUint64(u);
    ParseLeadingZeros(PadLength(width, |Digits(u)|), Digits(u));
    ParseDigits(u);
  }

  /** `d` digits are exactly enough: 10^(d-1) <= u < 10^d (u < 10 for d = 1). */
  lemma {:induction false} DigitsCount(u: nat)
    ensures u < Pow10(|Digits(u)|)
    ensures |Digits(u)| > 1 ==> Pow10(|Digits(u)| - 1) <= u
    decreases u
  {
    if u >= 10 {
      DigitsCount(u / 10);
    }
  }

  /** The converse of `DigitsCount`: below `10^d` there are at most `d` digits
      (one for zero). */
  lemma {:induction false} DigitsBelow(u: nat, d: nat)
    requires u < Pow10(d)
    ensures |Digits(u)| <= Max(1, d)
    decreases u
  {
    if u >= 10 {
      assert d >= 2;
      assert u / 10 < Pow10(d - 1);
      DigitsBelow(u / 10, d - 1);
    }
  }

  lemma {:induction false} Pow10Sum(a: nat, b: nat)
    ensures Pow10(a + b) == Pow10(a) * Pow10(b)
    decreases a
  {
    if a > 0 {
      Pow10Sum(a - 1, b);
      assert Pow10(a + b) == 10 * Pow10(a - 1 + b);
    }
  }

  /** A `uint64` has at most 20 decimal digits. */
  lemma DigitsOfUint64(u: uint64)
    ensures |Digits(u)| <= 20
  {
    assert Pow10(5) == 100_000;
    Pow10Sum(5, 5);
    Pow10Sum(10, 10);
    DigitsBelow(u, 20);
  }

  /** Length of the decimal form, counting zero as having no digits: the
      quantity the counting loop of `appendInt` accumulates. */
  function DigitsLeft(x: nat): nat
  {
    if x == 0 then 0 else |Digits(x)|
  }

  lemma DigitsLeftStep(x: nat)
    requires x > 0
    ensures DigitsLeft(x) == 1 + DigitsLeft(x / 10)
  {
  }

  /** The counting loop of `appendInt`: one step per division by ten, and
      one digit for zero. */
  method CountDigits(u: uint64) returns (n: nat)
    ensures n == |Digits(u)|
  {
    n := 0;
    if u == 0 {
      n := 1;
    }
    var u2: nat := u;
    while u2 > 0
      invariant u == 0 ==> n == 1 && u2 == 0
      invariant u > 0 ==> n + DigitsLeft(u2) == |Digits(u)|
    {
      DigitsLeftStep(u2);
      n := n + 1;
      u2 := u2 / 10;
    }
  }

  /** The padding loop of `appendInt`: `pad` starts at the 64-bit `width - n`
      and one '0' is appended per positive value. */
  method AppendPadding(b: Bytes, width: int64, n: nat) returns (r: Bytes)
    requires n < TWO63
    ensures r == b + Zeros(PadLength(width, n))
  {
    r := b;
    var pad: int := Sub64(width, n);
    while pad > 0
      invariant pad <= Sub64(width, n)
      invariant r == b + Zeros(PadLength(width, n) - Max(0, pad))
    {
      assert Zeros(PadLength(width, n) - (pad - 1)) == Zeros(PadLength(width, n) - pad) + [ZERO];
      r := r + [ZERO];
      pad := pad - 1;
    }
  }

  /** The assembly loop of `appendInt`: the buffer is grown by the digit
      count and the digits are written from the back, least significant first. */
  method FillDigits(prefix: Bytes, u: uint64, n: nat) returns (r: Bytes)
    requires n == |Digits(u)|
    ensures r == prefix + Digits(u)
  {
    r := prefix + seq(n, _ => 0);
    var i := |r| - 1;
    var v: nat := u;
    while v >= 10 && i > 0
      invariant |prefix| <= i < |r| == |prefix| + n
      invariant r[..|prefix|] == prefix
      invariant |Digits(v)| == i + 1 - |prefix|
      invariant Digits(u) == Digits(v) + r[i + 1..]
    {
      var q := v / 10;
      assert Digits(v) == Digits(q) + [Itob(v - q * 10)];
      ghost var tail := r[i + 1..];
      r := r[i := Itob(v - q * 10)];
      assert r[i..] == [Itob(v - q * 10)] + tail;
      v := q;
      i := i - 1;
    }
    ghost var tail := r[i + 1..];
    r := r[i := Itob(v)];
    assert r[i..] == [Itob(v)] + tail;
    assert r == prefix + r[|prefix|..];
  }

  /** `appendInt(b, u, width)`: count the digits, append the padding, then
      write the digits. */
  method AppendInt(b: Bytes, u: uint64, width: int64) returns (r: Bytes)
    ensures r == b + Padded(u, width)
  {
    var n := CountDigits(u);
    DigitsOfUint64(u);
    r := AppendPadding(b, width, n);
    r := FillDigits(r, u, n);
  }
}

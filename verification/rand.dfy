/** The random helpers of `internal/rand.go`, with `Fastrand` abstracted as an
    explicit stream of 64-bit draws: a caller hands in the stream and the index
    of the next unused draw, and gets back how far the helper advanced it. */
module Rand {
  import opened Base
  import Arith

  /** The successive values `Fastrand` returns, in order. */
  type Source = nat -> uint64

  /** `stream` with the draw at position `i` replaced by `r`. */
  function WithDraw(stream: Source, i: nat, r: uint64): (s: Source)
    ensures s(i) == r
    ensures forall k :: k != i ==> s(k) == stream(k)
  {
    k => if k == i then r else stream(k)
  }

  /** The high word of the 128-bit product `span * r`: a draw scaled into
      `[0, span)` by the multiply-high technique. `RandN` is this with a 32-bit
      span. */
  function ScaleDraw(span: nat, r: uint64): (k: nat)
    requires span <= TWO64
    ensures span == 0 ==> k == 0
    ensures span > 0 ==> k < span
    ensures k * TWO64 <= span * r < k * TWO64 + TWO64
  {
    ScaleBound(span, r);
    (span * r) / TWO64
  }

  lemma ScaleBound(span: nat, r: uint64)
    requires span <= TWO64
    ensures span * r <= span * (TWO64 - 1)
    ensures (span * r) / TWO64 * TWO64 <= span * r
  {
  }

  /** `RandN(n)`: the high 64 bits of `n * r`, converted to `uint32`. The
      conversion never loses anything: the high word is already below `n`. */
  function RandN(n: uint32, r: uint64): (k: uint32)
    ensures n == 0 ==> k == 0
    ensures n > 0 ==> k < n
    ensures k == ScaleDraw(n, r)
  {
    ScaleDraw(n, r) % TWO32
  }

  /** Every value below the span is the scaled image of some 64-bit draw. The
      span itself is what callers pass: a 32-bit length or `maxr`, which wraps
      for alphabets of 2^32 or more elements and for the full-range repeat
      (see README "Findings"). */
  lemma ScaleDrawReaches(span: nat, k: nat)
    requires k < span <= TWO64
    ensures exists r: uint64 :: ScaleDraw(span, r) == k
  {
    // The smallest draw whose scaled value reaches k: r = ceil(k * 2^64 / span).
    var x := k * TWO64 + span - 1;
    var r := x / span;
    assert x == span * r + x % span;
    Arith.MulMono(TWO64, span - 1, k);
    Arith.MulMono(span, r, TWO64);
    assert r < TWO64;
    assert k * TWO64 <= span * r < k * TWO64 + TWO64;
    Arith.DivUnique(span * r, TWO64, k, span * r - k * TWO64);
    assert ScaleDraw(span, r) == k;
  }

  lemma RandNReaches(n: uint32, k: nat)
    requires k < n
    ensures exists r: uint64 :: RandN(n, r) == k
  {
    ScaleDrawReaches(n, k);
    var r: uint64 :| ScaleDraw(n, r) == k;
    assert RandN(n, r) == k;
  }

  /** The integer step of `RandFloat64`: `r & int53Mask` keeps the low 53 bits. */
  function Mask53(r: uint64): (m: nat)
    ensures m < TWO53
    ensures (r - m) % TWO53 == 0
  {
    r % TWO53
  }

  /** `RandFloat64`: the masked draw scaled by 2^-53. Both the conversion of a
      value below 2^53 to `float64` and the scaling by a power of two are exact,
      so the real quotient is the float the source computes. */
  function RandFloat64(r: uint64): (f: real)
    ensures 0.0 <= f < 1.0
  {
    Mask53(r) as real / TWO53 as real
  }

  function Pow256(i: nat): (p: nat)
    ensures p >= 1
  {
    if i == 0 then 1 else 256 * Pow256(i - 1)
  }

  /** Byte `i` of `v` in little-endian order: `byte(v >> (8 * i))`. */
  function ByteOf(v: nat, i: nat): byte
  {
    (v / Pow256(i)) % 256
  }

  /** The low `k` bytes of `v`, least significant first (`PutUint64` for k = 8). */
  function LittleEndian(v: nat, k: nat): (bs: Bytes)
    ensures |bs| == k
  {
    seq(k, i requires 0 <= i => ByteOf(v, i))
  }

  /** Reads a little-endian byte string back as a number. */
  function FromLittleEndian(bs: Bytes): nat
  {
    if |bs| == 0 then 0 else bs[0] + 256 * FromLittleEndian(bs[1..])
  }

  lemma DivStep(v: nat, i: nat)
    ensures v / Pow256(i + 1) == (v / Pow256(i)) / 256
  {
    Arith.DivDiv(v, Pow256(i), 256);
    assert Pow256(i + 1) == Pow256(i) * 256;
  }

  lemma {:induction false} LittleEndianShift(v: nat, k: nat)
    ensures LittleEndian(v, k + 1) == [v % 256] + LittleEndian(v / 256, k)
  {
    var a := LittleEndian(v, k + 1);
    var b := [v % 256] + LittleEndian(v / 256, k);
    forall i | 0 <= i < k + 1
      ensures a[i] == b[i]
    {
      if i > 0 {
        ShiftedByte(v, i - 1);
      }
    }
  }

  lemma ShiftedByte(v: nat, i: nat)
    ensures ByteOf(v, i + 1) == ByteOf(v / 256, i)
  {
    Arith.DivDiv(v, 256, Pow256(i));
  }

  /** Decoding the low `k` little-endian bytes of `v` gives `v` modulo 256^k;
      with `k = 8` and a 64-bit `v`, exactly `v`. */
  lemma {:induction false} LittleEndianRoundTrip(v: nat, k: nat)
    ensures FromLittleEndian(LittleEndian(v, k)) == v % Pow256(k)
    decreases k
  {
    if k == 0 {
      assert LittleEndian(v, 0) == [];
    } else {
      LittleEndianShift(v, k - 1);
      var bs := LittleEndian(v, k);
      assert bs[1..] == LittleEndian(v / 256, k - 1);
      LittleEndianRoundTrip(v / 256, k - 1);
      Arith.ModSplit(v, 256, Pow256(k - 1));
    }
  }

  lemma Pow256Eight()
    ensures Pow256(8) == TWO64
  {
  }

  lemma LittleEndianUint64RoundTrip(v: uint64)
    ensures FromLittleEndian(LittleEndian(v, 8)) == v
  {
    LittleEndianRoundTrip(v, 8);
    Pow256Eight();
  }

  /** The bytes `FastRandomReader` writes into a buffer of length `len`: byte
      `i` is byte `i % 8` of the draw `i / 8` places after `next`. */
  function FastBytes(len: nat, src: Source, next: nat): (bs: Bytes)
    ensures |bs| == len
  {
    seq(len, i requires 0 <= i => ByteOf(src(next + i / 8), i % 8))
  }

  /** Byte `i` of the buffer agrees with `FastBytes` for every `i < n`. */
  ghost predicate FilledUpTo(f: Bytes, n: nat, src: Source, next: nat)
  {
    n <= |f| && forall i :: 0 <= i < n ==> f[i] == ByteOf(src(next + i / 8), i % 8)
  }

  /** `binary.LittleEndian.PutUint64(b[n:n+8], v)` extends the filled prefix by one block. */
  lemma PutBlock(f: Bytes, n: nat, src: Source, next: nat)
    requires n % 8 == 0 && n + 8 <= |f|
    requires FilledUpTo(f, n, src, next)
    ensures FilledUpTo(f[..n] + LittleEndian(src(next + n / 8), 8) + f[n + 8..], n + 8, src, next)
  {
    var v := src(next + n / 8);
    var g := f[..n] + LittleEndian(v, 8) + f[n + 8..];
    forall i | 0 <= i < n + 8
      ensures g[i] == ByteOf(src(next + i / 8), i % 8)
    {
      if i >= n {
        assert g[i] == LittleEndian(v, 8)[i - n];
        assert i / 8 == n / 8 && i % 8 == i - n;
      }
    }
  }

  /** `FastRandomReader(b)`: fills all of `b` from successive draws, eight
      bytes per draw in little-endian order, the last `len % 8` bytes from the
      low-order bytes of one further draw. Returns the filled buffer, the count
      the source returns, and the index of the next unused draw. */
  method FastRandomReader(b: Bytes, src: Source, next: nat) returns (filled: Bytes, n: nat, next': nat)
    ensures n == |b|
    ensures filled == FastBytes(|b|, src, next)
    ensures next' == next + (|b| + 7) / 8
  {
    filled := b;
    n := 0;
    next' := next;
    while n + 8 <= |b|
      invariant n % 8 == 0 && n <= |b| && |filled| == |b|
      invariant next' == next + n / 8
      invariant FilledUpTo(filled, n, src, next)
    {
      PutBlock(filled, n, src, next);
      filled := filled[..n] + LittleEndian(src(next'), 8) + filled[n + 8..];
      next' := next' + 1;
      n := n + 8;
    }
    if n < |b| {
      filled := FillTail(filled, n, src, next);
      n := |b|;
      next' := next' + 1;
    }
    assert FilledUpTo(filled, |b|, src, next);
  }

  /** The tail loop of `FastRandomReader`: the bytes from `n` on, at most seven,
      are the low-order bytes of the draw `n / 8` places after `next`, taken
      by repeated `byte(val)` and `val >>= 8`. */
  method FillTail(f: Bytes, n: nat, src: Source, next: nat) returns (filled: Bytes)
    requires n % 8 == 0 && n < |f| < n + 8
    requires FilledUpTo(f, n, src, next)
    ensures |filled| == |f| && FilledUpTo(filled, |f|, src, next)
  {
    filled := f;
    var draw := src(next + n / 8);
    var val: nat := draw;
    var i := n;
    while i < |f|
      invariant n <= i <= |f| && |filled| == |f|
      invariant val == draw / Pow256(i - n)
      invariant FilledUpTo(filled, i, src, next)
    {
      assert i / 8 == n / 8 && i % 8 == i - n;
      filled := filled[i := val % 256];
      DivStep(draw, i - n);
      val := val / 256;
      i := i + 1;
    }
  }

  /** Each full eight-byte block of the filled buffer is the little-endian
      encoding of one draw, the k-th block of the k-th draw. */
  lemma FastBytesBlock(len: nat, src: Source, next: nat, k: nat)
    requires 8 * k + 8 <= len
    ensures FastBytes(len, src, next)[8 * k .. 8 * k + 8] == LittleEndian(src(next + k), 8)
  {
    var bs := FastBytes(len, src, next)[8 * k .. 8 * k + 8];
    forall i | 0 <= i < 8
      ensures bs[i] == LittleEndian(src(next + k), 8)[i]
    {
      assert (8 * k + i) / 8 == k && (8 * k + i) % 8 == i;
    }
  }

  /** The last `len % 8` bytes are the low-order bytes, in order of increasing
      significance, of the one draw after the full blocks. */
  lemma FastBytesTail(len: nat, src: Source, next: nat)
    ensures FastBytes(len, src, next)[len - len % 8 ..] == LittleEndian(src(next + len / 8), len % 8)
  {
    var start := len - len % 8;
    var bs := FastBytes(len, src, next)[start..];
    forall i | 0 <= i < len % 8
      ensures bs[i] == LittleEndian(src(next + len / 8), len % 8)[i]
    {
      assert (start + i) / 8 == len / 8 && (start + i) % 8 == i;
    }
  }
}

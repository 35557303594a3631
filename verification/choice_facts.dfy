/** The random decisions of pattern.go: whether `Potentially` includes its
    part, and which element the `OneOf...` parts choose. */
module ChoiceFacts {
  import opened Base
  import opened Rand
  import opened Parts
  import opened Generate
  import Utf8

  // ---------------------------------------------------------------------------
  // potentially

  /** Whether a part kept with chance `c`, `0 < c < 1`, is included on draw
      `r`: the low bit for one half, `RandFloat64() <= c` otherwise. */
  predicate Included(c: real, r: uint64)
  {
    if c == 0.5 then r % 2 == 1 else RandFloat64(r) <= c
  }

  /** What appending the part `Potentially(c, p)` builds does: a chance of 0
      never includes `p` and draws nothing, 1 or more always includes it and
      draws nothing, anything between spends one draw and includes `p` exactly
      when that draw says so. */
  lemma PotentiallyOutput(c: real, p: Part, b: Bytes, src: Source, cx: Ctx)
    requires 0.0 <= c
    ensures c == 0.0 ==> Append(Potentially(c, p).value, b, src, cx) == Ok(Out(b, cx))
    ensures 1.0 <= c ==> Append(Potentially(c, p).value, b, src, cx) == Append(p, b, src, cx)
    ensures 0.0 < c < 1.0 ==>
              Append(Potentially(c, p).value, b, src, cx)
              == if Included(c, src(cx.next)) then Append(p, b, src, Advance(cx)) else Ok(Out(b, Advance(cx)))
  {
    if c == 0.5 {
      assert Potentially(c, p).value == Potentially50Part(p);
    } else if 0.0 < c < 1.0 {
      assert Potentially(c, p).value == PotentiallyPPart(p, c);
    }
  }

  /** The largest value `RandFloat64` returns, 1 - 2^-53. */
  const TOP_FLOAT: real := (TWO53 - 1) as real / TWO53 as real

  /** Both outcomes are possible for a chance strictly between 0 and the
      largest float `RandFloat64` can return: some draw includes the part and
      some draw leaves it out. */
  lemma BothOutcomes(c: real)
    requires 0.0 < c < TOP_FLOAT
    ensures exists r: uint64 :: Included(c, r)
    ensures exists r: uint64 :: !Included(c, r)
  {
    if c == 0.5 {
      assert Included(c, 1) && !Included(c, 2);
    } else {
      assert RandFloat64(0) == 0.0;
      assert RandFloat64(TWO53 - 1) == TOP_FLOAT;
      assert Included(c, 0) && !Included(c, TWO53 - 1);
    }
  }

  /** A chance at or above 1 - 2^-53 but below 1 always includes the part:
      `RandFloat64` never exceeds 1 - 2^-53. */
  lemma NearOneAlwaysIncluded(c: real, r: uint64)
    requires TOP_FLOAT <= c < 1.0
    ensures Included(c, r)
  {
    assert Mask53(r) <= TWO53 - 1;
    assert RandFloat64(r) <= TOP_FLOAT;
  }

  /** Replacing only the next draw can make `Potentially(c, p)` include or
      leave out `p`, for any chance strictly between 0 and 1 - 2^-53. */
  lemma PotentiallyCanGive(c: real, p: Part, included: bool, b: Bytes, src: Source, cx: Ctx)
    returns (src': Source)
    requires 0.0 < c < TOP_FLOAT
    ensures forall k :: k != cx.next ==> src'(k) == src(k)
    ensures Append(Potentially(c, p).value, b, src', cx)
            == if included then Append(p, b, src', Advance(cx)) else Ok(Out(b, Advance(cx)))
  {
    var r: uint64;
    if c == 0.5 {
      r := if included then 1 else 2;
    } else {
      r := if included then 0 else TWO53 - 1;
      assert RandFloat64(0) == 0.0;
      assert RandFloat64(TWO53 - 1) == TOP_FLOAT;
    }
    src' := WithDraw(src, cx.next, r);
    PotentiallyOutput(c, p, b, src', cx);
  }

  // ---------------------------------------------------------------------------
  // oneOf

  /** `RandN(uint32(n))`: the index an alphabet of `n` elements picks. */
  function Pick(n: nat, r: uint64): (k: nat)
    ensures 0 < n ==> k < n
  {
    RandN(n % TWO32, r)
  }

  /** Below 2^32 elements, every index of the alphabet is picked by some draw. */
  lemma PickReaches(n: nat, k: nat)
    requires k < n < TWO32
    ensures exists r: uint64 :: Pick(n, r) == k
  {
    RandNReaches(n, k);
    var r: uint64 :| RandN(n, r) == k;
    assert Pick(n, r) == k;
  }

  /** `OneOf` of a single part is that part. Otherwise one draw picks the
      index of the part that is appended; with no parts Go indexes an empty
      slice and panics. */
  lemma OneOfOutput(ps: seq<Part>, b: Bytes, src: Source, c: Ctx)
    ensures |ps| == 1 ==> Append(OneOf(ps), b, src, c) == Append(ps[0], b, src, c)
    ensures |ps| != 1 ==>
              Append(OneOf(ps), b, src, c)
              == if |ps| == 0 then Err(IndexOutOfRange) else Append(ps[Pick(|ps|, src(c.next))], b, src, Advance(c))
  {
  }

  /** `OneOfString` appends the picked string after one draw. */
  lemma OneOfStringOutput(a: seq<Bytes>, b: Bytes, src: Source, c: Ctx)
    ensures Append(OneOfString(a), b, src, c)
            == if |a| == 0 then Err(IndexOutOfRange) else Ok(Out(b + a[Pick(|a|, src(c.next))], Advance(c)))
  {
  }

  /** `OneOfByte` appends the picked byte after one draw. */
  lemma OneOfByteOutput(a: Bytes, b: Bytes, src: Source, c: Ctx)
    ensures Append(OneOfByte(a), b, src, c)
            == if |a| == 0 then Err(IndexOutOfRange) else Ok(Out(b + [a[Pick(|a|, src(c.next))]], Advance(c)))
  {
  }

  /** `OneOfRune` appends the UTF-8 form of the picked rune after one draw: one
      to four bytes, which decode to the rune (U+FFFD for a value that is no
      Unicode scalar value). */
  lemma OneOfRuneOutput(a: seq<Utf8.Rune>, b: Bytes, src: Source, c: Ctx)
    requires 0 < |a|
    ensures var k := Pick(|a|, src(c.next));
            var r := Append(OneOfRune(a), b, src, c);
            && r == Ok(Out(b + Utf8.Encode(a[k]), Advance(c)))
            && 1 <= |r.value.buf| - |b| <= 4
            && Utf8.Decode(r.value.buf[|b|..]) == Utf8.Replaced(a[k])
  {
    var k := Pick(|a|, src(c.next));
    var bs := Utf8.Encode(a[k]);
    assert (b + bs)[|b|..] == bs;
    Utf8.EncodeDecode(a[k]);
  }

  /** Replacing only the next draw makes a `OneOfByte` over fewer than 2^32
      bytes append any chosen position of its alphabet. */
  lemma OneOfByteCanGive(a: Bytes, k: nat, b: Bytes, src: Source, c: Ctx) returns (src': Source)
    requires k < |a| < TWO32
    ensures forall i :: i != c.next ==> src'(i) == src(i)
    ensures Append(OneOfByte(a), b, src', c) == Ok(Out(b + [a[k]], Advance(c)))
  {
    PickReaches(|a|, k);
    var r: uint64 :| Pick(|a|, r) == k;
    src' := WithDraw(src, c.next, r);
    OneOfByteOutput(a, b, src', c);
  }
}

/** Properties of the pattern engine that relate several calls: what `New`,
    `Group` and `Repeat` normalise to, that normalisation never changes the
    output, the bounds of a repeat count, the two outcomes of `Potentially`,
    the alphabet choices, the shuffle permutation and the sequence cycle. */
module PatternFacts {
  import opened Base
  import opened Rand
  import opened Parts
  import opened Generate
  import Utf8
  import Decimal
  import Arith

  /** Continues a partial result with a further list of parts. */
  function Then(r: Result<Out>, ps: seq<Part>, src: Source): Result<Out>
  {
    if r.Err? then r else AppendAll(ps, r.value.buf, src, r.value.ctx)
  }

  // ---------------------------------------------------------------------------
  // lists of parts

  /** Appending a concatenated list is appending the first list, then the second. */
  lemma {:induction false} AppendAllConcat(xs: seq<Part>, ys: seq<Part>, b: Bytes, src: Source, c: Ctx)
    ensures AppendAll(xs + ys, b, src, c) == Then(AppendAll(xs, b, src, c), ys, src)
    decreases |xs|
  {
    if |xs| == 0 {
      assert xs + ys == ys;
    } else {
      assert (xs + ys)[0] == xs[0];
      assert (xs + ys)[1..] == xs[1..] + ys;
      var r0 := Append(xs[0], b, src, c);
      if r0.Ok? {
        AppendAllConcat(xs[1..], ys, r0.value.buf, src, r0.value.ctx);
      }
    }
  }

  lemma AppendAllSingle(p: Part, b: Bytes, src: Source, c: Ctx)
    ensures AppendAll([p], b, src, c) == Append(p, b, src, c)
  {
    var r0 := Append(p, b, src, c);
    assert [p][1..] == [];
  }

  /** What `New` puts in place of a part produces what the part produces. */
  lemma SplicedOutput(p: Part, b: Bytes, src: Source, c: Ctx)
    ensures AppendAll(Spliced(p), b, src, c) == Append(p, b, src, c)
  {
    if !p.NullPart? && !p.GroupPart? {
      AppendAllSingle(p, b, src, c);
    }
  }

  /** Flattening never changes the output: dropping `nullpart`s and splicing
      top-level groups yields the same bytes, draws and state. */
  lemma {:induction false} FlattenOutput(ps: seq<Part>, b: Bytes, src: Source, c: Ctx)
    ensures AppendAll(Flatten(ps), b, src, c) == AppendAll(ps, b, src, c)
    decreases |ps|
  {
    if |ps| > 0 {
      AppendAllConcat(Spliced(ps[0]), Flatten(ps[1..]), b, src, c);
      SplicedOutput(ps[0], b, src, c);
      var r0 := Append(ps[0], b, src, c);
      if r0.Ok? {
        FlattenOutput(ps[1..], r0.value.buf, src, r0.value.ctx);
      }
    }
  }

  /** A generator made by `New` appends its arguments in order. */
  lemma NewOutput(ps: seq<Part>, b: Bytes, src: Source, c: Ctx)
    ensures Append(New(ps), b, src, c) == AppendAll(ps, b, src, c)
  {
    GenOutput(Flatten(ps), b, src, c);
    FlattenOutput(ps, b, src, c);
  }

  lemma GenOutput(ps: seq<Part>, b: Bytes, src: Source, c: Ctx)
    ensures Append(GenPart(ps), b, src, c) == AppendAll(ps, b, src, c)
  {
  }

  /** `Group(p...)` appends its parts in order, whether it wrapped them or
      returned its single part as it is. */
  lemma GroupOutput(ps: seq<Part>, b: Bytes, src: Source, c: Ctx)
    ensures Append(Group(ps), b, src, c) == AppendAll(ps, b, src, c)
  {
    if |ps| == 1 {
      assert ps == [ps[0]];
      AppendAllSingle(ps[0], b, src, c);
    }
  }

  // ---------------------------------------------------------------------------
  // repeat

  lemma {:induction false} ReplicateOutput(ps: seq<Part>, k: nat, b: Bytes, src: Source, c: Ctx)
    ensures AppendAll(Replicate(ps, k), b, src, c) == AppendTimes(ps, k, b, src, c)
    decreases k
  {
    if |ps| == 0 {
      RepeatNothing(k, b, src, c);
    } else if k > 0 {
      assert Replicate(ps, k) == ps + Replicate(ps, k - 1);
      AppendAllConcat(ps, Replicate(ps, k - 1), b, src, c);
      var r0 := AppendAll(ps, b, src, c);
      if r0.Ok? {
        ReplicateOutput(ps, k - 1, r0.value.buf, src, r0.value.ctx);
      }
    }
  }

  /** A constant `Repeat(k, k, p...)` is the explicit group of `k` copies of
      the parts, draws nothing, and outputs the parts `k` times over. */
  lemma ConstantRepeatIsGroup(k: uint32, ps: seq<Part>, b: Bytes, src: Source, c: Ctx)
    requires k > 0
    ensures Repeat(k, k, ps) == Ok(GroupPart(Replicate(ps, k)))
    ensures Append(GroupPart(Replicate(ps, k)), b, src, c) == AppendTimes(ps, k, b, src, c)
  {
    ReplicateOutput(ps, k, b, src, c);
  }

  /** The count of a general repeat always lies in `[min, max]` (so below
      2^32: the addition does not overflow). */
  lemma RepeatCountInRange(min: uint32, max: uint32, r: uint64)
    requires min <= max
    ensures min <= RepeatCount(min, Maxr(min, max), r) <= max
  {
  }

  /** Every count among the `maxr` counts from `min` on is produced by some
      draw. For `Repeat(min, max)` that is all of `[min, max]` except for the
      full range, whose `maxr` wraps to 0 (see Findings.FullRangeRepeatsNever). */
  lemma RepeatCountReaches(min: uint32, maxr: uint32, n: uint32)
    requires min <= n < min + maxr
    ensures exists r: uint64 :: RepeatCount(min, maxr, r) == n
  {
    RandNReaches(maxr, n - min);
    var r: uint64 :| RandN(maxr, r) == n - min;
    assert RepeatCount(min, maxr, r) == n;
  }

  /** Whatever `Repeat(min, max, p...)` normalised to, appending it appends
      the parts `n` times for some `n` in `[min, max]`, after at most one draw. */
  lemma RepeatOutput(min: uint32, max: uint32, ps: seq<Part>, b: Bytes, src: Source, c: Ctx)
    requires Repeat(min, max, ps).Ok?
    ensures exists n: nat, c': Ctx :: min <= n <= max && (c' == c || c' == Advance(c))
              && Append(Repeat(min, max, ps).value, b, src, c) == AppendTimes(ps, n, b, src, c')
  {
    var q := Repeat(min, max, ps).value;
    if min > 0 && min == max {
      ConstantRepeatIsGroup(max, ps, b, src, c);
      assert Append(q, b, src, c) == AppendTimes(ps, max, b, src, c);
    } else if min == 0 && max == 1 {
      var c' := Advance(c);
      GroupOutput(ps, b, src, c');
      OnceIsAll(ps, b, src, c');
      if src(c.next) % 2 == 1 {
        assert Append(q, b, src, c) == AppendTimes(ps, 1, b, src, c');
      } else {
        assert Append(q, b, src, c) == AppendTimes(ps, 0, b, src, c');
      }
    } else {
      RepeatCountInRange(min, max, src(c.next));
      var n := RepeatCount(min, Maxr(min, max), src(c.next));
      assert Append(q, b, src, c) == AppendTimes(ps, n, b, src, Advance(c));
    }
  }

  lemma OnceIsAll(ps: seq<Part>, b: Bytes, src: Source, c: Ctx)
    ensures AppendTimes(ps, 1, b, src, c) == AppendAll(ps, b, src, c)
  {
  }

  /** Repeating no parts outputs nothing, however many times. */
  lemma {:induction false} RepeatNothing(n: nat, b: Bytes, src: Source, c: Ctx)
    ensures AppendTimes([], n, b, src, c) == Ok(Out(b, c))
    decreases n
  {
    if n > 0 {
      RepeatNothing(n - 1, b, src, c);
    }
  }

  /** `Repeat(min, max)` of no parts leaves the buffer as it is. */
  lemma RepeatOfNothing(min: uint32, max: uint32, b: Bytes, src: Source, c: Ctx)
    requires Repeat(min, max, []).Ok?
    ensures Append(Repeat(min, max, []).value, b, src, c).Ok?
    ensures Append(Repeat(min, max, []).value, b, src, c).value.buf == b
  {
    RepeatOutput(min, max, [], b, src, c);
    var n: nat, c': Ctx :| min <= n <= max && (c' == c || c' == Advance(c))
      && Append(Repeat(min, max, []).value, b, src, c) == AppendTimes([], n, b, src, c');
    RepeatNothing(n, b, src, c');
  }

  /** Every count in `[min, max]` can occur, except that the full range
      `[0, 2^32 - 1]` only ever gives 0 (Findings.FullRangeRepeatsNever):
      replacing only the next draw makes the part `Repeat(min, max, p...)`
      append its parts exactly `n` times (a constant repeat draws nothing). */
  lemma RepeatCanGive(min: uint32, max: uint32, ps: seq<Part>, n: nat, b: Bytes, src: Source, c: Ctx)
    returns (src': Source)
    requires Repeat(min, max, ps).Ok? && min <= n <= max
    requires n == 0 || !(min == 0 && max == TWO32 - 1)
    ensures forall i :: i != c.next ==> src'(i) == src(i)
    ensures Append(Repeat(min, max, ps).value, b, src', c)
            == AppendTimes(ps, n, b, src', if min == max then c else Advance(c))
  {
    if min > 0 && min == max {
      src' := src;
      ConstantRepeatIsGroup(max, ps, b, src, c);
    } else if min == 0 && max == 1 {
      assert Repeat(min, max, ps).value == Potentially50Part(Group(ps));
      src' := OptionalCanGive(ps, n, b, src, c);
    } else {
      var maxr := Maxr(min, max);
      assert Repeat(min, max, ps).value == RepeatPart(ps, min, maxr);
      if maxr == 0 {
        src' := src;
        assert Append(RepeatPart(ps, min, maxr), b, src, c) == AppendTimes(ps, n, b, src, Advance(c));
      } else {
        src' := SpreadCanGive(min, maxr, ps, n, b, src, c);
      }
    }
  }

  lemma OptionalCanGive(ps: seq<Part>, n: nat, b: Bytes, src: Source, c: Ctx) returns (src': Source)
    requires n <= 1
    ensures forall i :: i != c.next ==> src'(i) == src(i)
    ensures Append(Potentially50Part(Group(ps)), b, src', c) == AppendTimes(ps, n, b, src', Advance(c))
  {
    src' := WithDraw(src, c.next, if n == 1 then 1 else 2);
    GroupOutput(ps, b, src', Advance(c));
    OnceIsAll(ps, b, src', Advance(c));
  }

  lemma SpreadCanGive(min: uint32, maxr: uint32, ps: seq<Part>, n: uint32, b: Bytes, src: Source, c: Ctx)
    returns (src': Source)
    requires min <= n < min + maxr
    ensures forall i :: i != c.next ==> src'(i) == src(i)
    ensures Append(RepeatPart(ps, min, maxr), b, src', c) == AppendTimes(ps, n, b, src', Advance(c))
  {
    RepeatCountReaches(min, maxr, n);
    var r: uint64 :| RepeatCount(min, maxr, r) == n;
    src' := WithDraw(src, c.next, r);
  }

  // ---------------------------------------------------------------------------
  // literals

  /** A literal appends its bytes and draws nothing. */
  lemma LiteralOutput(s: Bytes, b: Bytes, src: Source, c: Ctx)
    ensures Append(Literal(s), b, src, c) == Ok(Out(b + s, c))
  {
  }

  /** `n` copies of `s` back to back. */
  function Copies(s: Bytes, n: nat): (r: Bytes)
    ensures |r| == n * |s|
  {
    if n == 0 then [] else s + Copies(s, n - 1)
  }

  lemma {:induction false} RepeatLiteral(s: Bytes, n: nat, b: Bytes, src: Source, c: Ctx)
    ensures AppendTimes([LiteralPart(s)], n, b, src, c) == Ok(Out(b + Copies(s, n), c))
    decreases n
  {
    if n > 0 {
      AppendAllSingle(LiteralPart(s), b, src, c);
      assert AppendAll([LiteralPart(s)], b, src, c) == Ok(Out(b + s, c));
      assert AppendTimes([LiteralPart(s)], n, b, src, c) == AppendTimes([LiteralPart(s)], n - 1, b + s, src, c);
      RepeatLiteral(s, n - 1, b + s, src, c);
      assert (b + s) + Copies(s, n - 1) == b + Copies(s, n);
    } else {
      assert b + Copies(s, 0) == b;
    }
  }

  /** A repeated literal of length `L` adds between `min * L` and `max * L`
      bytes. */
  lemma RepeatLiteralLength(min: uint32, max: uint32, s: Bytes, b: Bytes, src: Source, c: Ctx)
    requires Repeat(min, max, [LiteralPart(s)]).Ok?
    ensures var r := Append(Repeat(min, max, [LiteralPart(s)]).value, b, src, c);
            r.Ok? && min * |s| <= |r.value.buf| - |b| <= max * |s|
  {
    RepeatOutput(min, max, [LiteralPart(s)], b, src, c);
    var n: nat, c': Ctx :| min <= n <= max && (c' == c || c' == Advance(c))
      && Append(Repeat(min, max, [LiteralPart(s)]).value, b, src, c) == AppendTimes([LiteralPart(s)], n, b, src, c');
    RepeatLiteral(s, n, b, src, c');
    Arith.MulMono(|s|, n, min);
    Arith.MulMono(|s|, max, n);
  }

  /** Appending the generator `New(Literal("o"))` twice to "hello" gives
      "hellooo". */
  lemma AppendTwiceExample(src: Source, c: Ctx)
    ensures var g := New([Literal([0x6F])]);
            var r1 := Append(g, [0x68, 0x65, 0x6C, 0x6C, 0x6F], src, c);
            && r1 == Ok(Out([0x68, 0x65, 0x6C, 0x6C, 0x6F, 0x6F], c))
            && Append(g, r1.value.buf, src, r1.value.ctx) == Ok(Out([0x68, 0x65, 0x6C, 0x6C, 0x6F, 0x6F, 0x6F], c))
  {
    var o := Literal([0x6F]);
    var hello: Bytes := [0x68, 0x65, 0x6C, 0x6C, 0x6F];
    var hello1: Bytes := [0x68, 0x65, 0x6C, 0x6C, 0x6F, 0x6F];
    var hello2: Bytes := [0x68, 0x65, 0x6C, 0x6C, 0x6F, 0x6F, 0x6F];
    assert hello + [0x6F] == hello1 && hello1 + [0x6F] == hello2;
    NewOutput([o], hello, src, c);
    AppendAllSingle(o, hello, src, c);
    assert Append(New([o]), hello, src, c) == Ok(Out(hello1, c));
    NewOutput([o], hello1, src, c);
    AppendAllSingle(o, hello1, src, c);
    assert Append(New([o]), hello1, src, c) == Ok(Out(hello2, c));
  }

  /** A generator of an empty group outputs the empty string. */
  lemma EmptyGroupExample(src: Source, c: Ctx)
    ensures String(New([Group([])]), src, c) == Ok(Out([], c))
  {
    NewOutput([Group([])], [], src, c);
    AppendAllSingle(Group([]), [], src, c);
  }
}

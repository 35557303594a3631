/** The `Append` methods of every part type of pattern.go, as one pure
    function of the part, the buffer, the draw stream and the context.

    A call returns the extended buffer together with the new context, or `Err`
    where the Go code would panic (an index out of range). */
module Generate {
  import opened Base
  import opened Rand
  import opened Parts
  import Utf8
  import Decimal

  /** Everything generation changes besides the buffer: the index of the next
      unused draw of the `Fastrand` stream, the counter of every sequence and
      the current order of every shuffle's parts, keyed by the part's `id`.
      A sequence or shuffle with no entry has not been appended yet. */
  datatype Ctx = Ctx(next: nat, counters: map<nat, uint64>, orders: map<nat, seq<nat>>)

  /** The context before any generation: draws from the start of the stream. */
  const Fresh: Ctx := Ctx(0, map[], map[])

  datatype Out = Out(buf: Bytes, ctx: Ctx)

  function Advance(c: Ctx): Ctx
  {
    c.(next := c.next + 1)
  }

  // ---------------------------------------------------------------------------
  // sequence

  /** The counter of sequence `id`; one not yet appended holds the value
      `Sequence` stores, `start - 1` as a wrapping `uint64`. */
  function Counter(c: Ctx, id: nat, start: uint64): (v: uint64)
    ensures id !in c.counters ==> (v + 1) % TWO64 == start
  {
    if id in c.counters then c.counters[id] else (start + TWO64 - 1) % TWO64
  }

  /** One successful step of `sequence.Append`: the value after `last`, or
      `start` when that value would pass `max` or wraps past 2^64 - 1. */
  function SequenceStep(last: uint64, start: uint64, max: uint64): (curr: uint64)
    ensures start <= last + 1 <= max ==> curr == last + 1
    ensures !(start <= last + 1 <= max) ==> curr == start
  {
    var inc := (last + 1) % TWO64;
    if inc > max || inc < start then start else inc
  }

  // ---------------------------------------------------------------------------
  // repeat

  /** The iteration count of a `repeat`, `RandN(maxr) + min` in `uint32`:
      one of the `maxr` counts from `min` on, or `min` itself when `maxr` is 0. */
  function RepeatCount(min: uint32, maxr: uint32, r: uint64): (n: uint32)
    ensures maxr == 0 ==> n == min
    ensures 0 < maxr && min + maxr <= TWO32 ==> min <= n < min + maxr
  {
    var s := RandN(maxr, r) + min;
    if s < TWO32 then s else s - TWO32
  }

  // ---------------------------------------------------------------------------
  // shuffle

  /** `0, 1, ..., n - 1`: the order of a shuffle's parts before its first append. */
  function Identity(n: nat): (o: seq<nat>)
    ensures |o| == n && forall i :: 0 <= i < n ==> o[i] == i
  {
    seq(n, i requires 0 <= i => i)
  }

  /** `o` lists every index below `n` exactly once. */
  ghost predicate IsPerm(o: seq<nat>, n: nat)
  {
    multiset(o) == multiset(Identity(n))
  }

  predicate InRange(o: seq<nat>, n: nat)
  {
    forall k :: 0 <= k < |o| ==> o[k] < n
  }

  lemma PermInRange(o: seq<nat>, n: nat)
    requires IsPerm(o, n)
    ensures InRange(o, n) && |o| == n
  {
    forall k | 0 <= k < |o|
      ensures o[k] < n
    {
      assert o[k] in multiset(o);
      assert o[k] in Identity(n);
    }
    assert |o| == |multiset(o)| == |multiset(Identity(n))| == n;
  }

  /** The current order of shuffle `id` over `n` parts. */
  function Arrangement(c: Ctx, id: nat, n: nat): (o: seq<nat>)
    ensures IsPerm(o, n)
  {
    if id in c.orders && multiset(c.orders[id]) == multiset(Identity(n)) then c.orders[id] else Identity(n)
  }

  /** `p.parts[i], p.parts[j] = p.parts[j], p.parts[i]`. */
  function Swap(o: seq<nat>, i: nat, j: nat): (o': seq<nat>)
    requires i < |o| && j < |o|
    ensures |o'| == |o| && o'[i] == o[j] && o'[j] == o[i]
    ensures forall k :: 0 <= k < |o| && k != i && k != j ==> o'[k] == o[k]
    ensures multiset(o') == multiset(o)
  {
    o[i := o[j]][j := o[i]]
  }

  /** `RandN(i + 1)` at position `i`: the swap partner, which never lies above
      `i` (at `i = 2^32 - 1` the bound wraps to 0 and the partner is 0). */
  function Partner(i: uint32, r: uint64): (j: nat)
    ensures j <= i
  {
    RandN((i + 1) % TWO32, r)
  }

  /** The Fisher-Yates loop of `shuffle.Append` from index `i` down to 1: each
      step draws `j = RandN(i + 1)` and swaps positions `i` and `j`. An index
      beyond the slice panics in Go and gives `Err` here. */
  function ShuffleFrom(o: seq<nat>, i: uint32, src: Source, next: nat): (r: Result<(seq<nat>, nat)>)
    ensures r.Ok? <==> i == 0 || i < |o|
    ensures r.Ok? ==> |r.value.0| == |o| && multiset(r.value.0) == multiset(o)
    ensures r.Ok? ==> r.value.1 == next + i
    decreases i
  {
    if i == 0 then Ok((o, next))
    else
      var j := Partner(i, src(next));
      if i >= |o| || j >= |o| then Err(IndexOutOfRange)
      else ShuffleFrom(Swap(o, i, j), i - 1, src, next + 1)
  }

  /** The whole Fisher-Yates pass, starting at `len - 1` in `uint32`: with no
      parts the start wraps to 2^32 - 1 and the first swap indexes past the
      slice (see README "Findings"). */
  function FisherYates(o: seq<nat>, len: uint32, src: Source, next: nat): (r: Result<(seq<nat>, nat)>)
    ensures r.Ok? <==> if len == 0 then TWO32 <= |o| else len <= |o| || len == 1
    ensures r.Ok? ==> |r.value.0| == |o| && multiset(r.value.0) == multiset(o)
    ensures r.Ok? && 0 < len ==> r.value.1 == next + len - 1
    ensures r.Ok? && len == 0 ==> r.value.1 == next + TWO32 - 1
  {
    ShuffleFrom(o, if len == 0 then TWO32 - 1 else len - 1, src, next)
  }

  // ---------------------------------------------------------------------------
  // Append

  /** `p.Append(b)`. Every successful call only extends the buffer and never
      gives a draw back. */
  function Append(p: Part, b: Bytes, src: Source, c: Ctx): (r: Result<Out>)
    ensures r.Ok? ==> b <= r.value.buf && c.next <= r.value.ctx.next
    decreases p
  {
    match p
    case NullPart => Ok(Out(b, c))
    case LiteralPart(s) => Ok(Out(b + s, c))
    case GroupPart(ps) => AppendAll(ps, b, src, c)
    case GenPart(ps) => AppendAll(ps, b, src, c)
    case RepeatPart(ps, min, maxr) =>
      AppendTimes(ps, RepeatCount(min, maxr, src(c.next)), b, src, Advance(c))
    case Potentially50Part(q) =>
      if src(c.next) % 2 == 1 then Append(q, b, src, Advance(c)) else Ok(Out(b, Advance(c)))
    case PotentiallyPPart(q, percent) =>
      if RandFloat64(src(c.next)) <= percent then Append(q, b, src, Advance(c)) else Ok(Out(b, Advance(c)))
    case AnyOfPart(ps, len) =>
      var k := RandN(len, src(c.next));
      if k < |ps| then Append(ps[k], b, src, Advance(c)) else Err(IndexOutOfRange)
    case AnyOfStringPart(a, len) =>
      var k := RandN(len, src(c.next));
      if k < |a| then Ok(Out(b + a[k], Advance(c))) else Err(IndexOutOfRange)
    case AnyOfBytePart(a, len) =>
      var k := RandN(len, src(c.next));
      if k < |a| then Ok(Out(b + [a[k]], Advance(c))) else Err(IndexOutOfRange)
    case AnyOfRunePart(a, len) =>
      var k := RandN(len, src(c.next));
      if k < |a| then Ok(Out(b + Utf8.Encode(a[k]), Advance(c))) else Err(IndexOutOfRange)
    case ShufflePart(ps, len, id) =>
      var o := Arrangement(c, id, |ps|);
      var fy := FisherYates(o, len, src, c.next);
      if fy.Err? then Err(fy.fault)
      else if len > |o| then Err(IndexOutOfRange)
      else
        var o' := fy.value.0;
        PermInRange(o, |ps|);
        assert InRange(o', |ps|) by { MultisetInRange(o, o', |ps|); }
        AppendInOrder(ps, o'[..len], b, src, c.(next := fy.value.1, orders := c.orders[id := o']))
    case SequencePart(start, max, width, id) =>
      var curr := SequenceStep(Counter(c, id, start), start, max);
      Ok(Out(b + Decimal.Padded(curr, width), c.(counters := c.counters[id := curr])))
  }

  /** The loop of `gen.Append` and `group.Append`: every part in list order. */
  function AppendAll(ps: seq<Part>, b: Bytes, src: Source, c: Ctx): (r: Result<Out>)
    ensures r.Ok? ==> b <= r.value.buf && c.next <= r.value.ctx.next
    decreases ps, 0
  {
    if |ps| == 0 then Ok(Out(b, c))
    else
      var r0 := Append(ps[0], b, src, c);
      if r0.Err? then r0 else AppendAll(ps[1..], r0.value.buf, src, r0.value.ctx)
  }

  /** The loops of `repeat.Append`: the part list, `n` times over. */
  function AppendTimes(ps: seq<Part>, n: nat, b: Bytes, src: Source, c: Ctx): (r: Result<Out>)
    ensures r.Ok? ==> b <= r.value.buf && c.next <= r.value.ctx.next
    decreases ps, n + 1
  {
    if n == 0 then Ok(Out(b, c))
    else
      var r0 := AppendAll(ps, b, src, c);
      if r0.Err? then r0 else AppendTimes(ps, n - 1, r0.value.buf, src, r0.value.ctx)
  }

  /** The output loop of `shuffle.Append`: the parts at the listed positions. */
  function AppendInOrder(ps: seq<Part>, order: seq<nat>, b: Bytes, src: Source, c: Ctx): (r: Result<Out>)
    requires InRange(order, |ps|)
    ensures r.Ok? ==> b <= r.value.buf && c.next <= r.value.ctx.next
    decreases ps, |order|
  {
    if |order| == 0 then Ok(Out(b, c))
    else
      var r0 := Append(ps[order[0]], b, src, c);
      if r0.Err? then r0 else AppendInOrder(ps, order[1..], r0.value.buf, src, r0.value.ctx)
  }

  lemma MultisetInRange(o: seq<nat>, o': seq<nat>, n: nat)
    requires InRange(o, n) && multiset(o') == multiset(o)
    ensures InRange(o', n)
  {
    forall k | 0 <= k < |o'|
      ensures o'[k] < n
    {
      assert o'[k] in multiset(o);
    }
  }

  /** `gen.String()`: the generator's parts appended to an empty buffer. */
  function String(g: Part, src: Source, c: Ctx): (r: Result<Out>)
    ensures g.GenPart? ==> r == AppendAll(g.parts, [], src, c)
  {
    Append(g, [], src, c)
  }
}

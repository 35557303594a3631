/** Two places where pattern.go, read literally, departs from what its
    documentation and its other cases evidently intend. The rest of the model
    follows the code as written (Parts.Maxr, Generate.RepeatCount,
    Generate.FisherYates); this module exhibits each discrepancy on that model
    and states the evidently intended behaviour as a corrected definition with
    its property proved. */
module Findings {
  import opened Base
  import opened Rand
  import opened Parts
  import opened Generate
  import Totality

  // ---------------------------------------------------------------------------
  // Repeat(0, 2^32 - 1): maxr wraps to 0

  /** As written, `Repeat(0, 2^32 - 1, p...)` stores `maxr = 0`: the count is 0
      on every draw, so appending it spends one draw and outputs nothing,
      although the documentation promises a count anywhere in the range. */
  lemma FullRangeRepeatsNever(r: uint64, ps: seq<Part>, b: Bytes, src: Source, c: Ctx)
    ensures Maxr(0, TWO32 - 1) == 0
    ensures RepeatCount(0, Maxr(0, TWO32 - 1), r) == 0
    ensures Append(Repeat(0, TWO32 - 1, ps).value, b, src, c) == Ok(Out(b, Advance(c)))
  {
    assert Repeat(0, TWO32 - 1, ps).value == RepeatPart(ps, 0, 0);
  }

  /** The intended count: a draw scaled into the exact number of counts in
      `[min, max]`, which is up to 2^32 and so does not fit a `uint32`. */
  function RepeatCountCorrected(min: uint32, max: uint32, r: uint64): (n: nat)
    requires min <= max
    ensures min <= n <= max
  {
    ScaleDraw(max - min + 1, r) + min
  }

  /** The corrected count reaches every value in `[min, max]`, the full range
      included. */
  lemma CorrectedCountReaches(min: uint32, max: uint32, n: nat)
    requires min <= n <= max
    ensures exists r: uint64 :: RepeatCountCorrected(min, max, r) == n
  {
    ScaleDrawReaches(max - min + 1, n - min);
    var r: uint64 :| ScaleDraw(max - min + 1, r) == n - min;
    assert RepeatCountCorrected(min, max, r) == n;
  }

  /** In particular the full range can repeat `2^32 - 1` times: `r` is a draw
      on which the corrected count is the maximum and the written one is 0. */
  lemma FullRangeReachesMax() returns (r: uint64)
    ensures RepeatCountCorrected(0, TWO32 - 1, r) == TWO32 - 1
    ensures RepeatCount(0, Maxr(0, TWO32 - 1), r) == 0
  {
    CorrectedCountReaches(0, TWO32 - 1, TWO32 - 1);
    r :| RepeatCountCorrected(0, TWO32 - 1, r) == TWO32 - 1;
  }

  /** Wherever `max - min + 1` fits in 32 bits the written count is the
      corrected one. */
  lemma CountAgrees(min: uint32, max: uint32, r: uint64)
    requires min <= max && max - min + 1 < TWO32
    ensures RepeatCount(min, Maxr(min, max), r) == RepeatCountCorrected(min, max, r)
  {
  }

  // ---------------------------------------------------------------------------
  // Shuffle(): i := p.len - 1 underflows

  /** As written, `Shuffle()` of nothing panics on its first append: the pass
      starts at index 2^32 - 1 of an empty slice. `Group()` of nothing appends
      the empty string. */
  lemma EmptyShufflePanics(id: nat, b: Bytes, src: Source, c: Ctx)
    ensures FisherYates([], 0, src, c.next).Err?
    ensures Append(Shuffle([], id), b, src, c) == Err(IndexOutOfRange)
    ensures Append(Group([]), b, src, c) == Ok(Out(b, c))
  {
    assert Shuffle([], id) == ShufflePart([], 0, id);
  }

  /** The intended pass: from `len - 1` down to 1, and nothing at all when
      there are no parts. */
  function FisherYatesCorrected(o: seq<nat>, len: uint32, src: Source, next: nat): (r: Result<(seq<nat>, nat)>)
    ensures r.Ok? <==> len <= |o| || len == 1
    ensures r.Ok? ==> |r.value.0| == |o| && multiset(r.value.0) == multiset(o)
    ensures r.Ok? ==> r.value.1 == next + Max(0, len - 1)
  {
    if len == 0 then Ok((o, next)) else ShuffleFrom(o, len - 1, src, next)
  }

  /** `shuffle.Append` with the corrected pass. Like the written one it only
      extends the buffer and never gives a draw back. */
  function ShuffleCorrected(ps: seq<Part>, len: uint32, id: nat, b: Bytes, src: Source, c: Ctx): (r: Result<Out>)
    ensures r.Ok? ==> b <= r.value.buf && c.next <= r.value.ctx.next
  {
    var o := Arrangement(c, id, |ps|);
    PermInRange(o, |ps|);
    var fy := FisherYatesCorrected(o, len, src, c.next);
    if fy.Err? then Err(fy.fault)
    else if len > |o| then Err(IndexOutOfRange)
    else
      var o' := fy.value.0;
      assert InRange(o', |ps|) by { MultisetInRange(o, o', |ps|); }
      AppendInOrder(ps, o'[..len], b, src, c.(next := fy.value.1, orders := c.orders[id := o']))
  }

  /** Unlike the written shuffle, the corrected one never panics when its
      stored length fits its well-formed parts, an empty shuffle included. */
  lemma ShuffleCorrectedTotal(ps: seq<Part>, len: uint32, id: nat, b: Bytes, src: Source, c: Ctx)
    requires len <= |ps| && AllWellFormed(ps)
    ensures ShuffleCorrected(ps, len, id, b, src, c).Ok?
  {
    var o := Arrangement(c, id, |ps|);
    PermInRange(o, |ps|);
    var fy := FisherYatesCorrected(o, len, src, c.next);
    var o' := fy.value.0;
    MultisetInRange(o, o', |ps|);
    assert InRange(o'[..len], |ps|);
    Totality.InOrderTotal(ps, o'[..len], b, src, c.(next := fy.value.1, orders := c.orders[id := o']));
  }

  /** Corrected, a shuffle of nothing appends nothing and draws nothing, like
      `Group()` of nothing. */
  lemma EmptyShuffleEmitsNothing(id: nat, b: Bytes, src: Source, c: Ctx)
    ensures ShuffleCorrected([], 0, id, b, src, c) == Ok(Out(b, c.(orders := c.orders[id := []])))
    ensures FisherYatesCorrected([], 0, src, c.next) == Ok(([], c.next))
  {
  }

  /** With a nonzero stored length the written shuffle and the corrected one
      agree. (A nonzero multiple of 2^32 parts stores length 0, where the
      written pass spends 2^32 - 1 draws and the corrected one none.) */
  lemma ShuffleAgrees(ps: seq<Part>, len: uint32, id: nat, b: Bytes, src: Source, c: Ctx)
    requires len > 0
    ensures ShuffleCorrected(ps, len, id, b, src, c) == Append(ShufflePart(ps, len, id), b, src, c)
  {
    var o := Arrangement(c, id, |ps|);
    assert FisherYatesCorrected(o, len, src, c.next) == FisherYates(o, len, src, c.next);
  }
}

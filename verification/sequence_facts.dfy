/** The counter of a `sequence` part: successive appends emit `start`,
    `start + 1`, ..., `max`, then begin again at `start`, each value padded to
    the part's width. */
module SequenceFacts {
  import opened Base
  import opened Rand
  import opened Parts
  import opened Generate
  import Decimal
  import Arith
  import PatternFacts

  /** The value the `k`-th append (counting from 0) of a fresh sequence emits. */
  function Nth(start: uint64, max: uint64, k: nat): (v: uint64)
    requires start <= max
    ensures start <= v <= max
    ensures k <= max - start ==> v == start + k
  {
    FirstCycle(k, max - start + 1);
    start + k % (max - start + 1)
  }

  /** Within the first cycle the position in the cycle is the count itself. */
  lemma FirstCycle(k: nat, m: nat)
    requires m > 0
    ensures k < m ==> k % m == k
  {
    if k < m {
      Arith.DivUnique(k, m, 0, k);
    }
  }

  /** The counter after `k` appends: the value `Sequence` stores before any
      append, the last value emitted after that. */
  function Last(start: uint64, max: uint64, k: nat): uint64
    requires start <= max
  {
    if k == 0 then (start + TWO64 - 1) % TWO64 else Nth(start, max, k - 1)
  }

  lemma ModNext(k: nat, m: nat)
    requires k > 0 && m > 0
    ensures || ((k - 1) % m < m - 1 && k % m == (k - 1) % m + 1)
            || ((k - 1) % m == m - 1 && k % m == 0)
  {
    var a, q := (k - 1) / m, (k - 1) % m;
    assert k == m * a + q + 1;
    if q + 1 < m {
      Arith.DivUnique(k, m, a, q + 1);
    } else {
      assert k == m * (a + 1) + 0;
      Arith.DivUnique(k, m, a + 1, 0);
    }
  }

  /** One append moves the counter from its value after `k` appends to the
      `k`-th value of the cycle, for every `k`: in particular the first append
      emits `start` (the stored `start - 1` wraps back to `start`, also for
      `start = 0`), and `max` is followed by `start` (also for
      `max = 2^64 - 1`, where the increment wraps to 0). */
  lemma SequenceAdvance(start: uint64, max: uint64, k: nat)
    requires start <= max
    ensures SequenceStep(Last(start, max, k), start, max) == Nth(start, max, k)
  {
    if k > 0 {
      ModNext(k, max - start + 1);
    }
  }

  /** The sequence is periodic with period `max - start + 1`. */
  lemma SequenceCycle(start: uint64, max: uint64, k: nat)
    requires start <= max
    ensures Nth(start, max, k + (max - start + 1)) == Nth(start, max, k)
  {
    Arith.ModShift(k, max - start + 1);
  }

  /** The text of `n` appends starting from the `k`-th. */
  function SequenceText(start: uint64, max: uint64, width: int64, k: nat, n: nat): Bytes
    requires start <= max
    decreases n
  {
    if n == 0 then [] else Decimal.Padded(Nth(start, max, k), width) + SequenceText(start, max, width, k + 1, n - 1)
  }

  /** The context after `n` appends of sequence `id` that began after `k`
      earlier ones: its counter holds the last value emitted. */
  function After(c: Ctx, id: nat, start: uint64, max: uint64, k: nat, n: nat): (r: Ctx)
    requires start <= max
    ensures r.next == c.next && r.orders == c.orders
    ensures n > 0 ==> Counter(r, id, start) == Last(start, max, k + n)
  {
    if n == 0 then c else c.(counters := c.counters[id := Nth(start, max, k + n - 1)])
  }

  /** Appending a sequence `n` times after `k` earlier appends emits the
      padded values `k, ..., k + n - 1` of the cycle, draws nothing, and
      leaves the counter at its value after `k + n` appends. */
  lemma {:induction false} SequenceRun(start: uint64, max: uint64, width: int64, id: nat, k: nat, n: nat,
                                       b: Bytes, src: Source, c: Ctx)
    requires start <= max
    requires Counter(c, id, start) == Last(start, max, k)
    ensures AppendTimes([SequencePart(start, max, width, id)], n, b, src, c)
            == Ok(Out(b + SequenceText(start, max, width, k, n), After(c, id, start, max, k, n)))
    decreases n
  {
    if n > 0 {
      var v := Nth(start, max, k);
      var c1 := c.(counters := c.counters[id := v]);
      var b1 := b + Decimal.Padded(v, width);
      SequenceOnce(start, max, width, id, k, n, b, src, c);
      SequenceRun(start, max, width, id, k + 1, n - 1, b1, src, c1);
      TextStep(start, max, width, k, n, b);
      AfterStep(c, id, start, max, k, n);
    } else {
      assert b + [] == b;
    }
  }

  lemma TextStep(start: uint64, max: uint64, width: int64, k: nat, n: nat, b: Bytes)
    requires start <= max && n > 0
    ensures b + Decimal.Padded(Nth(start, max, k), width) + SequenceText(start, max, width, k + 1, n - 1)
            == b + SequenceText(start, max, width, k, n)
  {
    var t := SequenceText(start, max, width, k + 1, n - 1);
    var d := Decimal.Padded(Nth(start, max, k), width);
    assert SequenceText(start, max, width, k, n) == d + t;
    assert b + d + t == b + (d + t);
  }

  lemma AfterStep(c: Ctx, id: nat, start: uint64, max: uint64, k: nat, n: nat)
    requires start <= max && n > 0
    ensures After(c.(counters := c.counters[id := Nth(start, max, k)]), id, start, max, k + 1, n - 1)
            == After(c, id, start, max, k, n)
  {
    var c1 := c.(counters := c.counters[id := Nth(start, max, k)]);
    if n > 1 {
      assert c1.counters[id := Nth(start, max, k + n - 1)] == c.counters[id := Nth(start, max, k + n - 1)];
    }
  }

  /** One append of a sequence after `k` earlier appends. */
  lemma SequenceOnce(start: uint64, max: uint64, width: int64, id: nat, k: nat, n: nat, b: Bytes, src: Source, c: Ctx)
    requires start <= max && n > 0
    requires Counter(c, id, start) == Last(start, max, k)
    ensures var s := SequencePart(start, max, width, id);
            var v := Nth(start, max, k);
            var c1 := c.(counters := c.counters[id := v]);
            && AppendTimes([s], n, b, src, c) == AppendTimes([s], n - 1, b + Decimal.Padded(v, width), src, c1)
            && Counter(c1, id, start) == Last(start, max, k + 1)
            && c1.next == c.next
  {
    PatternFacts.AppendAllSingle(SequencePart(start, max, width, id), b, src, c);
    SequenceAdvance(start, max, k);
  }

  /** A sequence part just built by `Sequence` emits the cycle from its start. */
  lemma FreshSequence(start: uint64, max: uint64, width: int64, id: nat, n: nat, b: Bytes, src: Source, c: Ctx)
    requires start <= max && id !in c.counters
    ensures AppendTimes([Sequence(start, max, width, id).value], n, b, src, c)
            == Ok(Out(b + SequenceText(start, max, width, 0, n), After(c, id, start, max, 0, n)))
  {
    SequenceRun(start, max, width, id, 0, n, b, src, c);
  }

  /** The first 101 values of `Sequence(0, 100, 4)` are 0 to 100, each written
      in exactly four digits. */
  lemma HundredValues(k: nat)
    requires k <= 100
    ensures Nth(0, 100, k) == k
    ensures |Decimal.Padded(k, 4)| == 4 && Decimal.Parse(Decimal.Padded(k, 4)) == k
  {
    Decimal.DigitsBelow(k, 3);
    Decimal.PaddedRoundTrip(k, 4);
  }

  /** After 100, `Sequence(0, 100, 4)` restarts: its 102nd value is 0 again,
      which `HundredValues` writes as four digits reading 0. */
  lemma HundredRestart()
    ensures Nth(0, 100, 101) == 0
  {
    SequenceCycle(0, 100, 0);
  }

  /** A sequence over `[1, 2^64 - 1]` whose counter holds 2^64 - 1: the
      increment wraps to 0, below `start`, so the generator emits "1". */
  lemma Uint64OverflowExample(id: nat, src: Source, c: Ctx)
    requires id in c.counters && c.counters[id] == TWO64 - 1
    ensures String(New([SequencePart(1, TWO64 - 1, 0, id)]), src, c)
            == Ok(Out([0x31], c.(counters := c.counters[id := 1])))
  {
    var s := SequencePart(1, TWO64 - 1, 0, id);
    PatternFacts.NewOutput([s], [], src, c);
    PatternFacts.AppendAllSingle(s, [], src, c);
    assert SequenceStep(TWO64 - 1, 1, TWO64 - 1) == 1;
    assert Decimal.Padded(1, 0) == [0x31];
  }
}

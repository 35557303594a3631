/** Generation never panics on parts the exported constructors build from
    non-empty alphabets: every index the engine computes is in range. */
module Totality {
  import opened Base
  import opened Rand
  import opened Parts
  import opened Generate

  lemma {:induction false} AppendTotal(p: Part, b: Bytes, src: Source, c: Ctx)
    requires WellFormed(p)
    ensures Append(p, b, src, c).Ok?
    decreases p, 1
  {
    match p
    case NullPart =>
    case LiteralPart(_) =>
    case GroupPart(ps) => AppendAllTotal(ps, b, src, c);
    case GenPart(ps) => AppendAllTotal(ps, b, src, c);
    case RepeatPart(ps, min, maxr) =>
      AppendTimesTotal(ps, RepeatCount(min, maxr, src(c.next)), b, src, Advance(c));
    case Potentially50Part(q) => AppendTotal(q, b, src, Advance(c));
    case PotentiallyPPart(q, _) => AppendTotal(q, b, src, Advance(c));
    case AnyOfPart(ps, len) => AnyOfTotal(ps, len, b, src, c);
    case AnyOfStringPart(_, _) =>
    case AnyOfBytePart(_, _) =>
    case AnyOfRunePart(_, _) =>
    case ShufflePart(ps, len, id) => ShuffleTotal(ps, len, id, b, src, c);
    case SequencePart(_, _, _, _) =>
  }

  /** A well-formed choice among parts picks an index inside them. */
  lemma {:induction false} AnyOfTotal(ps: seq<Part>, len: uint32, b: Bytes, src: Source, c: Ctx)
    requires WellFormed(AnyOfPart(ps, len))
    ensures Append(AnyOfPart(ps, len), b, src, c).Ok?
    decreases AnyOfPart(ps, len), 0
  {
    var k := RandN(len, src(c.next));
    assert k < |ps|;
    AppendTotal(ps[k], b, src, Advance(c));
  }

  /** The Fisher-Yates pass of a well-formed shuffle stays inside its parts. */
  lemma {:induction false} ShuffleTotal(ps: seq<Part>, len: uint32, id: nat, b: Bytes, src: Source, c: Ctx)
    requires WellFormed(ShufflePart(ps, len, id))
    ensures Append(ShufflePart(ps, len, id), b, src, c).Ok?
    decreases ShufflePart(ps, len, id), 0
  {
    var o := Arrangement(c, id, |ps|);
    PermInRange(o, |ps|);
    var fy := FisherYates(o, len, src, c.next);
    MultisetInRange(o, fy.value.0, |ps|);
    var o' := fy.value.0;
    InOrderTotal(ps, o'[..len], b, src, c.(next := fy.value.1, orders := c.orders[id := o']));
  }

  lemma {:induction false} AppendAllTotal(ps: seq<Part>, b: Bytes, src: Source, c: Ctx)
    requires AllWellFormed(ps)
    ensures AppendAll(ps, b, src, c).Ok?
    decreases ps, 0
  {
    if |ps| > 0 {
      AppendTotal(ps[0], b, src, c);
      var r0 := Append(ps[0], b, src, c);
      AppendAllTotal(ps[1..], r0.value.buf, src, r0.value.ctx);
    }
  }

  lemma {:induction false} AppendTimesTotal(ps: seq<Part>, n: nat, b: Bytes, src: Source, c: Ctx)
    requires AllWellFormed(ps)
    ensures AppendTimes(ps, n, b, src, c).Ok?
    decreases ps, n + 1
  {
    if n > 0 {
      AppendAllTotal(ps, b, src, c);
      var r0 := AppendAll(ps, b, src, c);
      AppendTimesTotal(ps, n - 1, r0.value.buf, src, r0.value.ctx);
    }
  }

  lemma {:induction false} InOrderTotal(ps: seq<Part>, order: seq<nat>, b: Bytes, src: Source, c: Ctx)
    requires AllWellFormed(ps) && InRange(order, |ps|)
    ensures AppendInOrder(ps, order, b, src, c).Ok?
    decreases ps, |order|
  {
    if |order| > 0 {
      AppendTotal(ps[order[0]], b, src, c);
      var r0 := Append(ps[order[0]], b, src, c);
      InOrderTotal(ps, order[1..], r0.value.buf, src, r0.value.ctx);
    }
  }

  /** `gen.String()` of a generator built by `New` from well-formed parts
      always returns a string. */
  lemma StringTotal(ps: seq<Part>, src: Source, c: Ctx)
    requires AllWellFormed(ps)
    ensures String(New(ps), src, c).Ok?
  {
    AppendTotal(New(ps), [], src, c);
  }

  /** The one way a choice part panics: an empty alphabet. */
  lemma EmptyAlphabetPanics(b: Bytes, src: Source, c: Ctx)
    ensures Append(OneOf([]), b, src, c) == Err(IndexOutOfRange)
    ensures Append(OneOfString([]), b, src, c) == Err(IndexOutOfRange)
    ensures Append(OneOfByte([]), b, src, c) == Err(IndexOutOfRange)
    ensures Append(OneOfRune([]), b, src, c) == Err(IndexOutOfRange)
  {
  }
}

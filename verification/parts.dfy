/** The part types of pattern.go and their exported constructors.

    Each Go part type is one variant of `Part`; the exported constructors
    (`New`, `Group`, `Repeat`, `Potentially`, `Literal`, `OneOf`, ...) are
    functions of the same name that validate their arguments and collapse the
    degenerate cases exactly as the source does. Constructors that panic in Go
    return `Err` here.

    Two part types carry mutable state in Go: a `shuffle` permutes its parts
    slice in place and a `sequence` owns a pointer to a counter. Every copy of
    such a part shares that state, so here the part carries an `id` standing
    for the identity of the slice or pointer, and the state itself lives in the
    generation context keyed by that id (see module Generate). */
module Parts {
  import opened Base
  import Arith
  import Utf8

  datatype Part =
    | NullPart                                              // nullpart
    | LiteralPart(text: Bytes)                              // literal
    | GroupPart(parts: seq<Part>)                           // group
    | RepeatPart(parts: seq<Part>, min: uint32, maxr: uint32) // repeat
    | Potentially50Part(part: Part)                         // potentially50
    | PotentiallyPPart(part: Part, percent: real)           // potentiallyP
    | AnyOfPart(parts: seq<Part>, len: uint32)              // anyOf
    | AnyOfStringPart(strings: seq<Bytes>, len: uint32)     // anyOfString
    | AnyOfBytePart(bytes: Bytes, len: uint32)              // anyOfByte
    | AnyOfRunePart(runes: seq<Utf8.Rune>, len: uint32)     // anyOfRune
    | ShufflePart(parts: seq<Part>, len: uint32, id: nat)   // shuffle
    | SequencePart(start: uint64, max: uint64, width: int64, id: nat) // sequence
    | GenPart(parts: seq<Part>)                             // *gen used as a Part

  /** Parts built by the constructors from non-empty alphabets and non-empty
      shuffles: the choice parts index an alphabet whose recorded length is its
      length as `uint32`, and a shuffle has parts and records their number as
      `uint32`. */
  predicate WellFormed(p: Part)
    decreases p
  {
    match p
    case NullPart => true
    case LiteralPart(_) => true
    case GroupPart(ps) => forall i :: 0 <= i < |ps| ==> WellFormed(ps[i])
    case GenPart(ps) => forall i :: 0 <= i < |ps| ==> WellFormed(ps[i])
    case RepeatPart(ps, _, _) => forall i :: 0 <= i < |ps| ==> WellFormed(ps[i])
    case Potentially50Part(q) => WellFormed(q)
    case PotentiallyPPart(q, _) => WellFormed(q)
    case AnyOfPart(ps, len) =>
      && 0 < |ps| && len == |ps| % TWO32
      && forall i :: 0 <= i < |ps| ==> WellFormed(ps[i])
    case AnyOfStringPart(a, len) => 0 < |a| && len == |a| % TWO32
    case AnyOfBytePart(a, len) => 0 < |a| && len == |a| % TWO32
    case AnyOfRunePart(a, len) => 0 < |a| && len == |a| % TWO32
    case ShufflePart(ps, len, _) =>
      && 0 < |ps| && len == |ps| % TWO32
      && forall i :: 0 <= i < |ps| ==> WellFormed(ps[i])
    case SequencePart(_, _, _, _) => true
  }

  predicate AllWellFormed(ps: seq<Part>)
  {
    forall i :: 0 <= i < |ps| ==> WellFormed(ps[i])
  }

  /** What `New` puts in place of one argument: nothing for a `nullpart`, the
      elements of a `group`, the part itself otherwise. */
  function Spliced(p: Part): (r: seq<Part>)
    ensures WellFormed(p) ==> AllWellFormed(r)
    ensures !p.GroupPart? ==> forall i :: 0 <= i < |r| ==> !r[i].NullPart? && !r[i].GroupPart?
  {
    match p
    case NullPart => []
    case GroupPart(qs) => qs
    case _ => [p]
  }

  /** The part list `New` stores: `nullpart`s dropped, the elements of each
      top-level `group` spliced in its place, every other part (nested groups
      included) kept, all in the original order. */
  function Flatten(ps: seq<Part>): (r: seq<Part>)
    ensures AllWellFormed(ps) ==> AllWellFormed(r)
  {
    if |ps| == 0 then [] else Spliced(ps[0]) + Flatten(ps[1..])
  }

  /** `New` keeps every part that is neither a `nullpart` nor a `group`. */
  lemma {:induction false} FlattenKeeps(ps: seq<Part>)
    ensures forall q :: q in ps && !q.NullPart? && !q.GroupPart? ==> q in Flatten(ps)
    decreases |ps|
  {
    if |ps| > 0 {
      FlattenKeeps(ps[1..]);
      assert Flatten(ps) == Spliced(ps[0]) + Flatten(ps[1..]);
      forall q | q in ps && !q.NullPart? && !q.GroupPart?
        ensures q in Flatten(ps)
      {
        if q != ps[0] {
          assert q in ps[1..];
        }
      }
    }
  }

  /** `New` keeps every element of a top-level `group`. */
  lemma {:induction false} FlattenSplices(ps: seq<Part>)
    ensures forall i, j :: 0 <= i < |ps| && ps[i].GroupPart? && 0 <= j < |ps[i].parts| ==> ps[i].parts[j] in Flatten(ps)
    decreases |ps|
  {
    if |ps| > 0 {
      FlattenSplices(ps[1..]);
      assert Flatten(ps) == Spliced(ps[0]) + Flatten(ps[1..]);
      forall i, j | 0 <= i < |ps| && ps[i].GroupPart? && 0 <= j < |ps[i].parts|
        ensures ps[i].parts[j] in Flatten(ps)
      {
        var q := ps[i].parts[j];
        if i > 0 {
          assert ps[1..][i - 1] == ps[i];
          assert q in Flatten(ps[1..]);
        } else {
          assert Spliced(ps[0]) == ps[0].parts;
          assert q in Spliced(ps[0]);
        }
      }
    }
  }

  /** `New` adds nothing else: each stored part is a kept argument or an
      element of a top-level `group`. */
  lemma {:induction false} FlattenAddsNothing(ps: seq<Part>)
    ensures forall q :: q in Flatten(ps) ==>
              || (q in ps && !q.NullPart? && !q.GroupPart?)
              || exists i :: 0 <= i < |ps| && ps[i].GroupPart? && q in ps[i].parts
    decreases |ps|
  {
    if |ps| > 0 {
      FlattenAddsNothing(ps[1..]);
      assert Flatten(ps) == Spliced(ps[0]) + Flatten(ps[1..]);
      forall q | q in Flatten(ps)
        ensures || (q in ps && !q.NullPart? && !q.GroupPart?)
                || exists i :: 0 <= i < |ps| && ps[i].GroupPart? && q in ps[i].parts
      {
        if q !in Spliced(ps[0]) {
          if !(q in ps[1..] && !q.NullPart? && !q.GroupPart?) {
            var i :| 0 <= i < |ps[1..]| && ps[1..][i].GroupPart? && q in ps[1..][i].parts;
            assert ps[i + 1] == ps[1..][i];
          }
        } else if ps[0].GroupPart? {
          assert q in ps[0].parts;
        }
      }
    }
  }

  /** `New(p...)`: a generator over the flattened part list. */
  function New(ps: seq<Part>): (g: Part)
    ensures g.GenPart? && g.parts == Flatten(ps)
    ensures AllWellFormed(ps) ==> WellFormed(g)
  {
    GenPart(Flatten(ps))
  }

  /** `Group(p...)`: one part is returned as it is, any other number is wrapped. */
  function Group(ps: seq<Part>): (g: Part)
    ensures AllWellFormed(ps) ==> WellFormed(g)
  {
    if |ps| == 1 then ps[0] else GroupPart(ps)
  }

  /** `k` copies of `ps` back to back, the part list of a constant repeat. */
  function Replicate(ps: seq<Part>, k: nat): (r: seq<Part>)
    ensures |r| == |ps| * k
    ensures forall i :: 0 <= i < |r| ==> r[i] == ps[i % |ps|]
    decreases k
  {
    if k == 0 || |ps| == 0 then []
    else
      Arith.Distrib(|ps|, k - 1, 1);
      ReplicateStep(ps, Replicate(ps, k - 1));
      ps + Replicate(ps, k - 1)
  }

  /** Position `i` of `ps + Replicate(ps, k - 1)` holds `ps[i % |ps|]`, whether
      it falls in the first copy or in the rest. */
  lemma ReplicateStep(ps: seq<Part>, rest: seq<Part>)
    requires |ps| > 0
    requires forall i :: 0 <= i < |rest| ==> rest[i] == ps[i % |ps|]
    ensures forall i :: 0 <= i < |ps + rest| ==> (ps + rest)[i] == ps[i % |ps|]
  {
    forall i | 0 <= i < |ps + rest|
      ensures (ps + rest)[i] == ps[i % |ps|]
    {
      if i < |ps| {
        Arith.DivUnique(i, |ps|, 0, i);
      } else {
        Arith.ModShift(i - |ps|, |ps|);
        assert (ps + rest)[i] == rest[i - |ps|];
      }
    }
  }

  /** `Repeat(min, max, p...)`: refuses `max == 0` and `max < min`; a constant
      count becomes a group of `max` copies, `[0, 1]` becomes a 50% inclusion of
      the group, anything else a `repeat` storing `Maxr(min, max)`. */
  function Repeat(min: uint32, max: uint32, ps: seq<Part>): (r: Result<Part>)
    ensures r == Err(MaxIsZero) <==> max == 0
    ensures r == Err(MaxBelowMin) <==> 0 < max < min
    ensures r.Ok? <==> 0 < max && min <= max
    ensures r.Ok? && AllWellFormed(ps) ==> WellFormed(r.value)
  {
    if max == 0 then Err(MaxIsZero)
    else if max < min then Err(MaxBelowMin)
    else if min > 0 && min == max then
      var g := Replicate(ps, max);
      assert AllWellFormed(ps) ==> AllWellFormed(g);
      Ok(GroupPart(g))
    else if min == 0 && max == 1 then Ok(Potentially50Part(Group(ps)))
    else Ok(RepeatPart(ps, min, Maxr(min, max)))
  }

  /** `maxr := (max - min) + 1` in `uint32`: the number of counts in
      `[min, max]`, except that the full range `[0, 2^32 - 1]` wraps to 0. */
  function Maxr(min: uint32, max: uint32): (m: uint32)
    requires min <= max
    ensures m == 0 <==> min == 0 && max == TWO32 - 1
    ensures m > 0 ==> min + m == max + 1
  {
    var m := max - min + 1;
    if m == TWO32 then 0 else m
  }

  /** `Potentially(c, p)`: refuses a negative chance; 0 never includes, 1 or
      more always does, one half tests a single bit, anything else compares a
      random float against `c`. */
  function Potentially(c: real, p: Part): (r: Result<Part>)
    ensures r.Err? <==> c < 0.0
    ensures r.Ok? && WellFormed(p) ==> WellFormed(r.value)
  {
    if c < 0.0 then Err(NegativeChance)
    else if c == 0.0 then Ok(NullPart)
    else if c >= 1.0 then Ok(p)
    else if c == 0.5 then Ok(Potentially50Part(p))
    else Ok(PotentiallyPPart(p, c))
  }

  /** `Literal(s)`: always well formed, since it has nothing to index. */
  function Literal(s: Bytes): (r: Part)
    ensures WellFormed(r) && Spliced(r) == [r]
  {
    LiteralPart(s)
  }

  /** `OneOf(p...)`: one part is returned as it is. */
  function OneOf(ps: seq<Part>): (r: Part)
    ensures 0 < |ps| && AllWellFormed(ps) ==> WellFormed(r)
  {
    if |ps| == 1 then ps[0] else AnyOfPart(ps, |ps| % TWO32)
  }

  function OneOfString(a: seq<Bytes>): (r: Part)
    ensures WellFormed(r) <==> 0 < |a|
  {
    AnyOfStringPart(a, |a| % TWO32)
  }

  function OneOfByte(a: Bytes): (r: Part)
    ensures WellFormed(r) <==> 0 < |a|
  {
    AnyOfBytePart(a, |a| % TWO32)
  }

  function OneOfRune(a: seq<Utf8.Rune>): (r: Part)
    ensures WellFormed(r) <==> 0 < |a|
  {
    AnyOfRunePart(a, |a| % TWO32)
  }

  /** `Shuffle(p...)`; `id` names the parts slice the shuffle permutes. */
  function Shuffle(ps: seq<Part>, id: nat): (r: Part)
    ensures WellFormed(r) <==> 0 < |ps| && AllWellFormed(ps)
  {
    ShufflePart(ps, |ps| % TWO32, id)
  }

  /** `Sequence(start, max, width)`: refuses `max < start`; `id` names the
      freshly allocated counter, which starts at `start - 1` (see Generate.Counter). */
  function Sequence(start: uint64, max: uint64, width: int64, id: nat): (r: Result<Part>)
    ensures r.Err? <==> max < start
    ensures r.Ok? ==> WellFormed(r.value)
  {
    if max < start then Err(MaxBelowStart) else Ok(SequencePart(start, max, width, id))
  }
}

/** The Fisher-Yates pass of `shuffle.Append`: the order it leaves is a
    permutation of the parts, every swap partner lies at or below the current
    position, and the parts are then appended once each in that order. */
module ShuffleFacts {
  import opened Base
  import opened Rand
  import opened Parts
  import opened Generate

  lemma {:induction false} IdentityCounts(n: nat, i: nat)
    ensures multiset(Identity(n))[i] == if i < n then 1 else 0
    decreases n
  {
    if n > 0 {
      assert Identity(n) == Identity(n - 1) + [n - 1];
      IdentityCounts(n - 1, i);
    }
  }

  /** In an order of `n` parts every position below `n` occurs exactly once and
      nothing else occurs: each part is appended exactly once. */
  lemma PermCountsOnce(o: seq<nat>, n: nat, i: nat)
    requires IsPerm(o, n)
    ensures multiset(o)[i] == if i < n then 1 else 0
  {
    IdentityCounts(n, i);
  }

  /** Below 2^32 - 1, every partner in `[0, i]` is drawn by some draw, as the
      Fisher-Yates pass requires. */
  lemma PartnerReaches(i: uint32, j: nat)
    requires i < TWO32 - 1 && j <= i
    ensures exists r: uint64 :: Partner(i, r) == j
  {
    RandNReaches(i + 1, j);
    var r: uint64 :| RandN(i + 1, r) == j;
    assert Partner(i, r) == j;
  }

  /** A shuffle of fewer than 2^32 parts spends one draw per position above 0,
      stores a permutation `o` of the parts' positions as its new order, and
      appends every part once in that order. A shuffle of no parts panics
      (see README "Findings"). */
  lemma ShuffleOutput(ps: seq<Part>, id: nat, b: Bytes, src: Source, c: Ctx) returns (o: seq<nat>, c': Ctx)
    requires |ps| < TWO32
    ensures IsPerm(o, |ps|) && InRange(o, |ps|)
    ensures c' == Ctx(c.next + Max(0, |ps| - 1), c.counters, c.orders[id := o])
    ensures Arrangement(c', id, |ps|) == o
    ensures |ps| == 0 ==> Append(Shuffle(ps, id), b, src, c) == Err(IndexOutOfRange)
    ensures |ps| > 0 ==> Append(Shuffle(ps, id), b, src, c) == AppendInOrder(ps, o, b, src, c')
  {
    var len: uint32 := |ps|;
    assert Shuffle(ps, id) == ShufflePart(ps, len, id);
    var o0 := Arrangement(c, id, |ps|);
    var fy := FisherYates(o0, len, src, c.next);
    ShuffleAppend(ps, len, id, b, src, c);
    if |ps| == 0 {
      o := [];
      assert o == Identity(0);
    } else {
      o := fy.value.0;
      assert IsPerm(o, |ps|);
      assert o[..|ps|] == o;
    }
    PermInRange(o, |ps|);
    c' := Ctx(c.next + Max(0, |ps| - 1), c.counters, c.orders[id := o]);
    if |ps| > 0 {
      assert c.(next := fy.value.1, orders := c.orders[id := o]) == c';
    }
  }

  /** One call of `Append` on a shuffle: the pass succeeds unless the shuffle
      is empty (its start index then wraps), and the parts are then appended
      in the order the pass left. */
  lemma ShuffleAppend(ps: seq<Part>, len: uint32, id: nat, b: Bytes, src: Source, c: Ctx)
    requires len <= |ps|
    ensures var o := Arrangement(c, id, |ps|);
            var fy := FisherYates(o, len, src, c.next);
            && (fy.Ok? <==> 0 < len || TWO32 <= |ps|)
            && (fy.Err? ==> Append(ShufflePart(ps, len, id), b, src, c) == Err(IndexOutOfRange))
            && (fy.Ok? ==> InRange(fy.value.0, |ps|))
            && (fy.Ok? ==>
                  Append(ShufflePart(ps, len, id), b, src, c)
                  == AppendInOrder(ps, fy.value.0[..len], b, src, c.(next := fy.value.1, orders := c.orders[id := fy.value.0])))
  {
    var o := Arrangement(c, id, |ps|);
    PermInRange(o, |ps|);
    var fy := FisherYates(o, len, src, c.next);
    if fy.Ok? {
      MultisetInRange(o, fy.value.0, |ps|);
    }
  }

  /** A shuffle of one part appends that part and draws nothing. */
  lemma SingleShuffle(p: Part, id: nat, b: Bytes, src: Source, c: Ctx)
    ensures Append(Shuffle([p], id), b, src, c) == Append(p, b, src, c.(orders := c.orders[id := [0]]))
  {
    var o := Arrangement(c, id, 1);
    PermInRange(o, 1);
    assert o == [0];
    assert Shuffle([p], id) == ShufflePart([p], 1, id);
    assert FisherYates(o, 1, src, c.next) == Ok((o, c.next));
    ShuffleAppend([p], 1, id, b, src, c);
    assert c.(next := c.next, orders := c.orders[id := [0]]) == c.(orders := c.orders[id := [0]]);
    InOrderSingle([p], 0, b, src, c.(orders := c.orders[id := [0]]));
  }

  lemma InOrderSingle(ps: seq<Part>, i: nat, b: Bytes, src: Source, c: Ctx)
    requires i < |ps|
    ensures AppendInOrder(ps, [i], b, src, c) == Append(ps[i], b, src, c)
  {
    assert [i][1..] == [];
  }
}

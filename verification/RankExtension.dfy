/**
 `extend_index_ranks` of hyperion/MeasRef.cc: every point of a ragged tree is padded with zeros to a
 common rank, by merging one single-point tree per point of the iterator.
 */
module RankExtension {
  import opened Wrappers
  import opened IndexTrees
  import opened Compaction
  import opened Merging
  import opened Enumeration

  function Zeros(n: nat): (r: Point)
    ensures |r| == n
  {
    seq(n, i => 0)
  }

  function Pad(p: Point, rank: nat): (r: Point)
    requires |p| <= rank
    ensures |r| == rank
  {
    p + Zeros(rank - |p|)
  }

  /** The tree with the single point p. */
  function Chain(p: Point): (t: Tree)
    decreases |p|
  {
    if p == [] then EMPTY else Tree([Block(p[0], 1, Chain(p[1..]))])
  }

  lemma {:induction false} ChainSound(p: Point, q: Point)
    ensures Canonical(Chain(p)) && (Has(Chain(p), q) <==> q == p)
    decreases |p|
  {
    if p != [] {
      var bs := Chain(p).children;
      ChainSound(p[1..], if q != [] then q[1..] else q);
      assert bs[1..] == [];
      assert Ordered(bs) && Coalesced(bs) && CanonicalSubs(bs);
      if q != [] {
        assert Lookup(bs, q[0]) == if q[0] == p[0] then Some(Chain(p[1..])) else None;
        assert q == p <==> q[0] == p[0] && q[1..] == p[1..];
      }
    }
  }

  lemma MakeSingle(x: int, t: Tree)
    ensures Make([Block(x, 1, t)]) == Success(Tree([Block(x, 1, t)]))
  {
    var bs := [Block(x, 1, t)];
    assert bs[1..] == [] && Positive(bs) == bs + [];
    assert SortByStart(bs) == Insert(bs[0], []) == bs;
  }

  // ----- padding is injective and monotone on prefix-free points -----

  lemma {:induction false} PadLess(p: Point, q: Point, rank: nat)
    requires |p| <= rank && |q| <= rank && LexLess(p, q) && !(p <= q)
    ensures LexLess(Pad(p, rank), Pad(q, rank))
    decreases |p|
  {
    if p[0] == q[0] {
      PadLess(p[1..], q[1..], rank - 1);
      assert Pad(p, rank)[1..] == Pad(p[1..], rank - 1);
      assert Pad(q, rank)[1..] == Pad(q[1..], rank - 1);
    }
  }

  function PadAll(ps: seq<Point>, rank: nat): (r: seq<Point>)
    requires forall p | p in ps :: |p| <= rank
    ensures |r| == |ps|
  {
    seq(|ps|, i requires 0 <= i < |ps| => assert ps[i] in ps; Pad(ps[i], rank))
  }

  lemma PadIncreasing(t: Tree, rank: nat)
    requires Canonical(t) && forall p | Has(t, p) :: |p| <= rank
    ensures forall p | p in Points(t) :: |p| <= rank
    ensures Increasing(PadAll(Points(t), rank))
  {
    PointsEnumerate(t);
    var ps := Points(t);
    forall i, j | 0 <= i < j < |ps| ensures LexLess(Pad(ps[i], rank), Pad(ps[j], rank)) {
      assert Has(t, ps[i]) && Has(t, ps[j]) && LexLess(ps[i], ps[j]);
      if ps[i] <= ps[j] {
        PrefixFree(t, ps[i], ps[j]);
        LexIrreflexive(ps[i]);
      }
      PadLess(ps[i], ps[j], rank);
    }
  }

  /** The chain of one padded point, built from its last coordinate. */
  method PaddedChain(point: Point, rank: nat) returns (ch: Tree)
    requires |point| <= rank
    ensures ch == Chain(Pad(point, rank))
  {
    ghost var p := Pad(point, rank);
    var coords := point;
    ch := EMPTY;
    var i := rank;
    assert p[i..] == [];
    while i > 0
      invariant i <= rank
      invariant coords == point[..if i < |point| then i else |point|]
      invariant ch == Chain(p[i..])
    {
      var x;
      if i > |coords| {
        x := 0;
      } else {
        x := coords[|coords| - 1];
        coords := coords[..|coords| - 1];
      }
      assert x == p[i - 1];
      assert p[i - 1..][1..] == p[i..];
      MakeSingle(x, ch);
      var made := NewTree([Block(x, 1, ch)]);
      ch := made.value;
      i := i - 1;
    }
    assert p[0..] == p;
    assert |coords| == 0;
  }

  /** result denotes exactly the points qs, all of length rank. */
  ghost predicate Holds(result: Tree, qs: seq<Point>, rank: nat) {
    && Canonical(result)
    && (qs == [] <==> result == EMPTY)
    && (qs != [] ==> Uniform(result, rank) && forall p :: Has(result, p) <==> p in qs)
  }

  lemma MergePoint(result: Tree, qs: seq<Point>, q: Point, rank: nat)
    requires Holds(result, qs, rank) && |q| == rank > 0
    ensures Canonical(result) && Canonical(Chain(q))
    ensures Holds(Merge(result, Chain(q)), qs + [q], rank)
  {
    ChainSound(q, q);
    forall p ensures Has(Chain(q), p) <==> p == q {
      ChainSound(q, p);
    }
    if qs != [] {
      MergeIsUnion(result, Chain(q), rank);
      assert Has(Merge(result, Chain(q)), q);
    }
  }

  /**
   The result lists the padded points in the order of the original ones: no point is lost or
   identified with another, and all have the requested rank.
   */
  method ExtendIndexRanks(tree: Tree, rank: nat) returns (result: Tree)
    requires Canonical(tree) && tree != EMPTY && forall p | Has(tree, p) :: |p| <= rank
    ensures Canonical(result)
    ensures forall p | p in Points(tree) :: |p| <= rank
    ensures Points(result) == PadAll(Points(tree), rank)
    ensures Rank(result) == Some(rank)
  {
    hide Holds, Points, Increasing, Has, Canonical, Pad, LexLess, Chain;
    PadIncreasing(tree, rank);
    ghost var ps := Points(tree);
    ghost var padded := PadAll(ps, rank);
    NoneHold(rank);
    NonemptyPoints(tree, rank);
    result := EMPTY;
    var it := new IndexTreeIterator(tree);
    while it.HasNext()
      invariant it.current <= |it.treeCoords| && it.treeCoords == ps
      invariant Holds(result, padded[..it.current], rank)
      decreases |it.treeCoords| - it.current
    {
      var coords := it.treeCoords[it.current];
      ghost var k := it.current;
      assert coords in ps;
      var ch := PaddedChain(coords, rank);
      MergePoint(result, padded[..k], padded[k], rank);
      assert padded[..k + 1] == padded[..k] + [padded[k]];
      result := MergedWith(result, ch);
      var _ := it.Next();
    }
    assert padded[..|padded|] == padded;
    AllHold(result, padded, rank);
  }

  lemma NoneHold(rank: nat)
    ensures Holds(EMPTY, [], rank)
  {
  }

  lemma NonemptyPoints(tree: Tree, rank: nat)
    requires Canonical(tree) && tree != EMPTY && forall p | Has(tree, p) :: |p| <= rank
    ensures rank > 0 && Points(tree) != []
  {
    PointsEnumerate(tree);
    var first := SomePoint(tree);
    assert first in Points(tree);
  }

  lemma AllHold(result: Tree, qs: seq<Point>, rank: nat)
    requires Holds(result, qs, rank) && Increasing(qs) && qs != []
    ensures Canonical(result) && Points(result) == qs && Rank(result) == Some(rank)
  {
    RankIsUniform(result, rank);
    PointsEnumerate(result);
    IncreasingUnique(Points(result), qs);
  }
}

/** hyperion/tree_index_space.cc: the decomposition of an index tree into rectangles. */
module TreeIndexSpace {
  import opened Wrappers
  import opened IndexTrees
  import opened BlockLists
  import opened Enumeration

  /** Inclusive bounds, as in a Legion rectangle. */
  datatype Interval = Interval(lo: int, hi: int)

  type Box = seq<Interval>

  predicate InBox(p: Point, box: Box) {
    if box == [] then p == []
    else p != [] && box[0].lo <= p[0] <= box[0].hi && InBox(p[1..], box[1..])
  }

  function Volume(box: Box): int {
    if box == [] then 1 else (box[0].hi - box[0].lo + 1) * Volume(box[1..])
  }

  function TotalVolume(rects: seq<Box>): int {
    if rects == [] then 0 else Volume(rects[0]) + TotalVolume(rects[1..])
  }

  /** In how many of the rectangles p lies. */
  function Hits(rects: seq<Box>, p: Point): nat {
    if rects == [] then 0 else (if InBox(p, rects[0]) then 1 else 0) + Hits(rects[1..], p)
  }

  function Extent(b: Block): Interval { Interval(b.start, b.start + b.count - 1) }

  /** i x r for every r. */
  function Times(i: Interval, rects: seq<Box>): (r: seq<Box>)
    ensures |r| == |rects|
  {
    if rects == [] then [] else [[i] + rects[0]] + Times(i, rects[1..])
  }

  function RectsOf(bs: seq<Block>): seq<Box>
    decreases Depth(bs), |bs|
  {
    if bs == [] then []
    else
      DepthHead(bs);
      Times(Extent(bs[0]), if bs[0].sub == EMPTY then [[]] else RectsOf(bs[0].sub.children)) + RectsOf(bs[1..])
  }

  function Rects(t: Tree): seq<Box> {
    if t == EMPTY then [[]] else RectsOf(t.children)
  }

  // ----- what the rectangles cover -----

  lemma {:induction false} TimesHits(i: Interval, rects: seq<Box>, p: Point)
    ensures Hits(Times(i, rects), p)
         == if p != [] && i.lo <= p[0] <= i.hi then Hits(rects, p[1..]) else 0
  {
    if rects != [] {
      TimesHits(i, rects[1..], p);
      assert ([i] + rects[0])[1..] == rects[0];
      assert Times(i, rects)[1..] == Times(i, rects[1..]);
    }
  }

  lemma {:induction false} AppendHits(a: seq<Box>, b: seq<Box>, p: Point)
    ensures Hits(a + b, p) == Hits(a, p) + Hits(b, p)
  {
    if a == [] {
      assert a + b == b;
    } else {
      AppendHits(a[1..], b, p);
      assert (a + b)[1..] == a[1..] + b;
    }
  }

  lemma {:induction false} RectsOfHits(bs: seq<Block>, p: Point)
    requires Ordered(bs) && CanonicalSubs(bs)
    ensures Hits(RectsOf(bs), p)
         == if p != [] && Lookup(bs, p[0]).Some? && Has(Lookup(bs, p[0]).value, p[1..]) then 1 else 0
    decreases Depth(bs), |bs|
  {
    if bs != [] {
      DepthHead(bs);
      var b := bs[0];
      TimesHits(Extent(b), Rects(b.sub), p);
      AppendHits(Times(Extent(b), Rects(b.sub)), RectsOf(bs[1..]), p);
      RectsOfHits(bs[1..], p);
      if p != [] && b.Covers(p[0]) {
        LookupBelow(bs[1..], p[0]);
        assert Canonical(b.sub);
        if b.sub == EMPTY { UnitHits(p[1..]); } else { RectsOfHits(b.sub.children, p[1..]); }
      }
    }
  }

  lemma UnitHits(p: Point)
    ensures Hits([[]], p) == if p == [] then 1 else 0
  {
    var unit: seq<Box> := [[]];
    assert unit[1..] == [];
  }

  lemma {:induction false} TimesVolume(i: Interval, rects: seq<Box>)
    ensures TotalVolume(Times(i, rects)) == (i.hi - i.lo + 1) * TotalVolume(rects)
  {
    if rects != [] {
      TimesVolume(i, rects[1..]);
      assert ([i] + rects[0])[1..] == rects[0];
      assert Times(i, rects)[1..] == Times(i, rects[1..]);
    }
  }

  lemma {:induction false} AppendVolume(a: seq<Box>, b: seq<Box>)
    ensures TotalVolume(a + b) == TotalVolume(a) + TotalVolume(b)
  {
    if a == [] {
      assert a + b == b;
    } else {
      AppendVolume(a[1..], b);
      assert (a + b)[1..] == a[1..] + b;
    }
  }

  lemma {:induction false} RectsOfVolume(bs: seq<Block>)
    requires Ordered(bs) && CanonicalSubs(bs)
    ensures TotalVolume(RectsOf(bs)) == SizeOf(bs)
    decreases Depth(bs), |bs|
  {
    hide TotalVolume, Times;
    if bs != [] {
      DepthHead(bs);
      var b := bs[0];
      assert Canonical(b.sub);
      RectsOfVolume(bs[1..]);
      if b.sub == EMPTY { UnitVolume(); } else { RectsOfVolume(b.sub.children); }
      FirstVolume(bs);
    } else {
      NoVolume();
    }
  }

  lemma FirstVolume(bs: seq<Block>)
    requires bs != [] && bs[0].count > 0
    ensures TotalVolume(RectsOf(bs)) == bs[0].count * TotalVolume(Rects(bs[0].sub)) + TotalVolume(RectsOf(bs[1..]))
  {
    hide TotalVolume, Times;
    var b := bs[0];
    TimesVolume(Extent(b), Rects(b.sub));
    AppendVolume(Times(Extent(b), Rects(b.sub)), RectsOf(bs[1..]));
  }

  lemma NoVolume()
    ensures TotalVolume(RectsOf([])) == 0
  {
  }

  lemma UnitVolume()
    ensures TotalVolume([[]]) == 1
  {
    var unit: seq<Box> := [[]];
    assert unit[1..] == [] && Volume(unit[0]) == 1;
  }

  /** Every point of the tree lies in exactly one rectangle, no other point lies in any, and the volumes add up. */
  lemma RectsPartition(t: Tree)
    requires Canonical(t)
    ensures forall p :: Hits(Rects(t), p) == if Has(t, p) then 1 else 0
    ensures TotalVolume(Rects(t)) == Size(t)
  {
    forall p ensures Hits(Rects(t), p) == if Has(t, p) then 1 else 0 {
      if t == EMPTY { UnitHits(p); } else { RectsOfHits(t.children, p); }
    }
    if t == EMPTY { UnitVolume(); } else { RectsOfVolume(t.children); }
  }

  lemma {:induction false} HitsPairwise(rects: seq<Box>, i: nat, j: nat, p: Point)
    requires i < j < |rects| && InBox(p, rects[i]) && InBox(p, rects[j])
    ensures Hits(rects, p) > 1
  {
    if i > 0 {
      HitsPairwise(rects[1..], i - 1, j - 1, p);
    } else {
      HitsOne(rects[1..], j - 1, p);
    }
  }

  lemma {:induction false} HitsOne(rects: seq<Box>, j: nat, p: Point)
    requires j < |rects| && InBox(p, rects[j])
    ensures Hits(rects, p) > 0
  {
    if j > 0 { HitsOne(rects[1..], j - 1, p); }
  }

  /** Two different rectangles of a tree share no point. */
  lemma RectsDisjoint(t: Tree, i: nat, j: nat, p: Point)
    requires Canonical(t) && i < j < |Rects(t)|
    ensures !(InBox(p, Rects(t)[i]) && InBox(p, Rects(t)[j]))
  {
    RectsPartition(t);
    if InBox(p, Rects(t)[i]) && InBox(p, Rects(t)[j]) {
      HitsPairwise(Rects(t), i, j, p);
    }
  }

  // ----- the task -----

  /** Starts and counts, alternately. */
  function Flatten(bs: seq<Block>): (r: seq<int>)
    ensures |r| == 2 * |bs|
    ensures forall k | 0 <= k < |bs| :: r[2 * k] == bs[k].start && r[2 * k + 1] == bs[k].count
  {
    if bs == [] then [] else Flatten(bs[..|bs| - 1]) + [bs[|bs| - 1].start, bs[|bs| - 1].count]
  }

  function Subs(bs: seq<Block>): (r: seq<Tree>)
    ensures |r| == |bs| && forall k | 0 <= k < |bs| :: r[k] == bs[k].sub
  {
    seq(|bs|, k requires 0 <= k < |bs| => bs[k].sub)
  }

  lemma {:induction false} CommonRankSub(bs: seq<Block>, r: nat, k: nat)
    requires k < |bs| && CommonRank(bs) == Some(r)
    ensures Rank(bs[k].sub) == Some(r)
  {
    if k > 0 { CommonRankSub(bs[1..], r, k - 1); }
  }

  lemma RankZero(t: Tree)
    ensures Rank(t) == Some(0) <==> t == EMPTY
  {
  }

  lemma RankOfSubs(t: Tree)
    requires t != EMPTY && Rank(t).Some?
    ensures Rank(t).value > 0 && CommonRank(t.children) == Some(Rank(t).value - 1)
  {
    if IsLeaf(t.children) { LeafCommonRank(t.children); }
  }

  /** The subtrees of a tree with a rank share the next smaller one. */
  lemma SubRank(t: Tree, k: nat)
    requires Rank(t).Some? && k < |t.children|
    ensures Rank(t).value > 0 && Rank(t.children[k].sub) == Some(Rank(t).value - 1)
    ensures t.children[k].sub == EMPTY <==> Rank(t).value == 1
  {
    hide Rank, CommonRank;
    RankOfSubs(t);
    CommonRankSub(t.children, Rank(t).value - 1, k);
    RankZero(t.children[k].sub);
  }

  lemma Unfold(bs: seq<Block>, k: nat)
    requires k < |bs|
    ensures RectsOf(bs[k..]) == Times(Extent(bs[k]), Rects(bs[k].sub)) + RectsOf(bs[k + 1..])
  {
    assert bs[k..][1..] == bs[k + 1..];
  }

  lemma LeafStep(bs: seq<Block>, k: nat, rects: seq<Box>)
    requires k < |bs| && bs[k].sub == EMPTY
    ensures rects + RectsOf(bs[k..]) == rects + [[Extent(bs[k])]] + RectsOf(bs[k + 1..])
  {
    Unfold(bs, k);
    var i, unit: seq<Box> := Extent(bs[k]), [[]];
    assert unit[1..] == [] && [i] + unit[0] == [i];
    assert Times(i, unit) == [[i]] + Times(i, unit[1..]);
  }

  lemma BoxStep(i: Interval, rects: seq<Box>, j: nat, domains: seq<Box>, rest: seq<Box>)
    requires j < |rects|
    ensures domains + (Times(i, rects[j..]) + rest) == domains + [[i] + rects[j]] + (Times(i, rects[j + 1..]) + rest)
  {
    assert rects[j..][1..] == rects[j + 1..];
    assert Times(i, rects[j..]) == [[i] + rects[j]] + Times(i, rects[j + 1..]);
  }

  lemma NoBlocks(bs: seq<Block>)
    ensures bs[0..] == bs && RectsOf(bs[|bs|..]) == []
  {
  }

  lemma NoBoxes(i: Interval)
    ensures Times(i, []) == []
  {
  }

  lemma ParentFacts(t: Tree)
    requires Canonical(t) && Rank(t).Some? && Rank(t).value > 0
    ensures t != EMPTY && |t.children| > 0 && Rects(t) == RectsOf(t.children)
  {
  }

  lemma SubFacts(t: Tree, k: nat)
    requires Canonical(t) && Rank(t).Some? && k < |t.children|
    ensures Canonical(t.children[k].sub) && Depth(t.children[k].sub.children) < Depth(t.children)
    ensures t.children[k].sub == EMPTY <==> t.children[0].sub == EMPTY
    ensures t.children[k].sub != EMPTY ==> Rank(t.children[k].sub).Some? && Rank(t.children[k].sub).value > 0
  {
    SubRank(t, 0);
    SubRank(t, k);
    SubCanonical(t.children, k);
    RankZero(t.children[k].sub);
  }

  class TreeIndexSpaceTask {
    var blocks: seq<int>
    var trees: seq<Tree>

    constructor (it: Tree)
      requires Rank(it).Some? && Rank(it).value > 0
      ensures blocks == Flatten(it.children) && trees == Subs(it.children)
    {
      blocks, trees := [], [];
      new;
      var k := 0;
      while k < |it.children|
        invariant k <= |it.children|
        invariant blocks == Flatten(it.children[..k]) && trees == Subs(it.children[..k])
      {
        var Block(o, n, t) := it.children[k];
        assert it.children[..k + 1][..k] == it.children[..k];
        blocks := blocks + [o];
        blocks := blocks + [n];
        trees := trees + [t];
        k := k + 1;
      }
      assert it.children[..|it.children|] == it.children;
    }

    /** The rectangles of the tree the task was made from. */
    method Dispatch(ghost it: Tree) returns (rects: seq<Box>)
      requires Canonical(it) && Rank(it).Some? && Rank(it).value > 0
      requires blocks == Flatten(it.children) && trees == Subs(it.children)
      ensures rects == Rects(it)
      decreases Depth(it.children)
    {
      hide Rank, RectsOf, Canonical, CanonicalSubs, Depth, Flatten, Coalesced, Ordered;
      ParentFacts(it);
      if trees[0] != EMPTY {
        var futures: seq<seq<Box>> := [];
        var k := 0;
        while k < |trees|
          invariant k <= |trees| && |futures| == k
          invariant forall j | 0 <= j < k :: futures[j] == Rects(it.children[j].sub)
        {
          var t := trees[k];
          SubFacts(it, k);
          if t != EMPTY {
            var ti := new TreeIndexSpaceTask(t);
            var f := ti.Dispatch(t);
            futures := futures + [f];
          }
          k := k + 1;
        }
        rects := BaseImpl(it.children, blocks, futures);
      } else {
        rects := [];
        var numBlocks := |blocks| / 2;
        var k := 0;
        while k < numBlocks
          invariant k <= numBlocks && rects + RectsOf(it.children[k..]) == RectsOf(it.children)
        {
          SubFacts(it, k);
          LeafStep(it.children, k, rects);
          var lo := blocks[2 * k];
          var hi := blocks[2 * k + 1] + lo - 1;
          rects := rects + [[Interval(lo, hi)]];
          k := k + 1;
        }
        NoBlocks(it.children);
      }
    }

    static method BaseImpl(ghost bs: seq<Block>, blocks: seq<int>, childDoms: seq<seq<Box>>)
      returns (domains: seq<Box>)
      requires blocks == Flatten(bs) && |childDoms| == |bs|
      requires forall k | 0 <= k < |bs| :: childDoms[k] == Rects(bs[k].sub)
      ensures domains == RectsOf(bs)
    {
      hide RectsOf, Times, Rects;
      NoBlocks(bs);
      domains := [];
      var b := 0;
      while b < |childDoms|
        invariant b <= |childDoms| && domains + RectsOf(bs[b..]) == RectsOf(bs)
      {
        var first := Interval(blocks[2 * b], blocks[2 * b] + blocks[2 * b + 1] - 1);
        Unfold(bs, b);
        NoBoxes(first);
        var j := 0;
        assert childDoms[b][0..] == childDoms[b];
        while j < |childDoms[b]|
          invariant j <= |childDoms[b]|
          invariant domains + (Times(first, childDoms[b][j..]) + RectsOf(bs[b + 1..])) == RectsOf(bs)
        {
          BoxStep(first, childDoms[b], j, domains, RectsOf(bs[b + 1..]));
          domains := domains + [[first] + childDoms[b][j]];
          j := j + 1;
        }
        b := b + 1;
      }
    }
  }
}

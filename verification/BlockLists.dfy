/** Facts about block lists that several algorithms share. */
module BlockLists {
  import opened Wrappers
  import opened IndexTrees
  import opened Compaction

  // ----- index_range -----

  function MinStart(bs: seq<Block>): int
    requires bs != []
  {
    if |bs| == 1 then bs[0].start else Min(bs[0].start, MinStart(bs[1..]))
  }

  function MaxEnd(bs: seq<Block>): int
    requires bs != []
  {
    if |bs| == 1 || bs[0].End() > MaxEnd(bs[1..]) then bs[0].End() else MaxEnd(bs[1..])
  }

  /** `index_range`: the least start and the greatest end, and where they are. */
  lemma {:induction false} RangeIs(bs: seq<Block>) returns (first: nat, last: nat)
    requires bs != []
    ensures forall k | 0 <= k < |bs| :: MinStart(bs) <= bs[k].start && bs[k].End() <= MaxEnd(bs)
    ensures first < |bs| && bs[first].start == MinStart(bs)
    ensures last < |bs| && bs[last].End() == MaxEnd(bs)
  {
    first, last := 0, 0;
    if |bs| > 1 {
      var i, j := RangeIs(bs[1..]);
      if MinStart(bs[1..]) <= bs[0].start { first := i + 1; }
      if bs[0].End() <= MaxEnd(bs[1..]) { last := j + 1; }
      forall k | 0 <= k < |bs| ensures MinStart(bs) <= bs[k].start && bs[k].End() <= MaxEnd(bs) {
        if k > 0 { assert bs[k] == bs[1..][k - 1]; }
      }
    }
  }

  lemma {:induction false} RangeOfOrdered(bs: seq<Block>)
    requires Ordered(bs) && bs != []
    ensures MinStart(bs) == bs[0].start < MaxEnd(bs)
    ensures |bs| > 1 ==> MaxEnd(bs) == MaxEnd(bs[1..])
  {
    if |bs| > 1 {
      RangeOfOrdered(bs[1..]);
    }
  }

  // ----- ordered lists with bounds -----

  /** Positive, disjoint, ascending blocks between lo and hi. */
  ghost predicate Within(bs: seq<Block>, lo: int, hi: int) {
    bs != [] ==> bs[0].count > 0 && lo <= bs[0].start && bs[0].End() <= hi && Within(bs[1..], bs[0].End(), hi)
  }

  lemma {:induction false} WithinOrdered(bs: seq<Block>, lo: int, hi: int)
    requires Within(bs, lo, hi)
    ensures Ordered(bs)
  {
    if bs != [] { WithinOrdered(bs[1..], bs[0].End(), hi); }
  }

  lemma {:induction false} WithinWiden(bs: seq<Block>, lo: int, hi: int, hi': int)
    requires Within(bs, lo, hi) && hi <= hi'
    ensures Within(bs, lo, hi')
  {
    if bs != [] { WithinWiden(bs[1..], bs[0].End(), hi, hi'); }
  }

  lemma {:induction false} OrderedTail(bs: seq<Block>, k: nat)
    requires Ordered(bs) && k <= |bs|
    ensures Ordered(bs[k..])
  {
    if k > 0 {
      OrderedTail(bs[1..], k - 1);
      assert bs[k..] == bs[1..][k - 1..];
    }
  }

  lemma {:induction false} OrderedWithin(bs: seq<Block>, lo: int)
    requires Ordered(bs) && bs != [] && lo <= bs[0].start
    ensures Within(bs, lo, MaxEnd(bs))
  {
    RangeOfOrdered(bs);
    if |bs| > 1 { OrderedWithin(bs[1..], bs[0].End()); }
  }

  lemma {:induction false} WithinAppend(xs: seq<Block>, ys: seq<Block>, lo: int, mid: int, hi: int)
    requires Within(xs, lo, mid) && Within(ys, mid, hi) && lo <= mid <= hi
    ensures Within(xs + ys, lo, hi)
  {
    if xs == [] {
      assert xs + ys == ys;
    } else {
      WithinAppend(xs[1..], ys, xs[0].End(), mid, hi);
      assert (xs + ys)[1..] == xs[1..] + ys;
    }
  }

  lemma {:induction false} SubsAppend(xs: seq<Block>, ys: seq<Block>)
    requires CanonicalSubs(xs) && CanonicalSubs(ys)
    ensures CanonicalSubs(xs + ys)
  {
    if xs == [] {
      assert xs + ys == ys;
    } else {
      SubsAppend(xs[1..], ys);
      assert (xs + ys)[1..] == xs[1..] + ys;
    }
  }

  lemma CoverFirst(xs: seq<Block>, ys: seq<Block>, x: int)
    requires xs != []
    ensures Cover(xs + ys, x)
         == (if xs[0].Covers(x) then multiset{xs[0].sub} else multiset{}) + Cover(xs[1..] + ys, x)
  {
    assert (xs + ys)[1..] == xs[1..] + ys;
  }

  lemma {:induction false} CoverAppend(xs: seq<Block>, ys: seq<Block>, x: int)
    ensures Cover(xs + ys, x) == Cover(xs, x) + Cover(ys, x)
  {
    if xs == [] {
      assert xs + ys == ys;
    } else {
      hide Cover;
      CoverFirst(xs, ys, x);
      CoverFirst(xs, [], x);
      assert xs + [] == xs && xs[1..] + [] == xs[1..];
      CoverAppend(xs[1..], ys, x);
    }
  }

  lemma OneBlock(b: Block)
    requires b.count > 0 && Canonical(b.sub)
    ensures Ordered([b]) && CanonicalSubs([b])
  {
    assert [b][1..] == [];
  }

  // ----- Lookup on positions -----

  lemma {:induction false} SubCanonical(bs: seq<Block>, k: nat)
    requires CanonicalSubs(bs) && k < |bs|
    ensures Canonical(bs[k].sub) && Depth(bs[k].sub.children) < Depth(bs)
  {
    DepthMember(bs, k);
    if k > 0 { SubCanonical(bs[1..], k - 1); }
  }

  lemma {:induction false} StartsAscend(bs: seq<Block>, k: nat)
    requires Ordered(bs) && k < |bs|
    ensures bs[0].start <= bs[k].start && (k > 0 ==> bs[0].End() <= bs[k].start) && bs[k].count > 0
  {
    if k > 0 { StartsAscend(bs[1..], k - 1); }
  }

  /** Block k answers for its own coordinates, and nothing answers for the gap behind it. */
  lemma {:induction false} BlockLookup(bs: seq<Block>, k: nat, x: int)
    requires Ordered(bs) && k < |bs|
    ensures bs[k].Covers(x) ==> Lookup(bs, x) == Some(bs[k].sub)
    ensures bs[k].End() <= x && (k + 1 < |bs| ==> x < bs[k + 1].start) ==> Lookup(bs, x) == None
  {
    StartsAscend(bs, k);
    if k > 0 {
      BlockLookup(bs[1..], k - 1, x);
    } else if bs[0].End() <= x && (|bs| > 1 ==> x < bs[1].start) {
      LookupBelow(bs[1..], x);
    }
  }

  lemma {:induction false} LookupAppend(xs: seq<Block>, ys: seq<Block>, x: int)
    ensures Lookup(xs + ys, x) == if Lookup(xs, x).Some? then Lookup(xs, x) else Lookup(ys, x)
  {
    if xs == [] {
      assert xs + ys == ys;
    } else {
      assert (xs + ys)[1..] == xs[1..] + ys;
      LookupAppend(xs[1..], ys, x);
    }
  }

  lemma LookupOne(b: Block, x: int)
    ensures Lookup([b], x) == if b.Covers(x) then Some(b.sub) else None
  {
    assert [b][1..] == [];
  }
}

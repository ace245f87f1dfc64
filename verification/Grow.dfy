/** Growing and pruning: `grow_leaves`, `grow_leaves_at` and `pruned`. */
module Growing {
  import opened Wrappers
  import opened IndexTrees
  import opened Compaction
  import opened BlockLists
  import opened Enumeration
  import Merging

  // ----- pruned -----

  function Pruned(t: Tree, height: nat): (r: Tree)
    requires Canonical(t)
    ensures Canonical(r)
    decreases Depth(t.children), |t.children| + 1
  {
    if Height(t) <= height then t
    else
      var trimmed := PrunedSubs(t.children, height);
      CompactOrdered(trimmed);
      Tree(Compact(trimmed).value)
  }

  function PrunedSubs(bs: seq<Block>, height: nat): (r: seq<Block>)
    requires Ordered(bs) && CanonicalSubs(bs)
    ensures Ordered(r) && CanonicalSubs(r) && |r| == |bs|
    ensures bs != [] ==> r[0].start == bs[0].start && r[0].count == bs[0].count
    decreases Depth(bs), |bs|
  {
    if bs == [] then []
    else
      DepthHead(bs);
      var sub := if height > 0 then Pruned(bs[0].sub, height - 1) else EMPTY;
      Merging.Cons(Block(bs[0].start, bs[0].count, sub), PrunedSubs(bs[1..], height))
  }

  lemma {:induction false} PrunedSubsLookup(bs: seq<Block>, height: nat, x: int)
    requires Ordered(bs) && CanonicalSubs(bs)
    ensures Lookup(bs, x).Some? ==> Canonical(Lookup(bs, x).value)
    ensures Lookup(PrunedSubs(bs, height), x)
         == match Lookup(bs, x)
            case None => None
            case Some(s) => Some(if height > 0 then Pruned(s, height - 1) else EMPTY)
  {
    if bs != [] {
      assert Canonical(bs[0].sub);
      PrunedSubsLookup(bs[1..], height, x);
    }
  }

  /** Pruning keeps exactly the paths of at most height + 1 coordinates. */
  lemma {:induction false} PrunedPaths(t: Tree, height: nat, p: Point)
    requires Canonical(t)
    ensures Path(Pruned(t, height), p) <==> Path(t, p) && |p| <= height + 1
    decreases |p|
  {
    if Height(t) <= height {
      if Path(t, p) {
        var q := ExtendPath(t, p);
        PointDepth(t, q);
        if t != EMPTY { HeightIsDepth(t); }
      }
    } else if p != [] {
      PrunedSubsLookup(t.children, height, p[0]);
      CompactOrdered(PrunedSubs(t.children, height));
      var s := Lookup(t.children, p[0]);
      if s.Some? && height > 0 {
        PrunedPaths(s.value, height - 1, p[1..]);
      }
    }
  }

  // ----- grow_leaves -----

  function GrowLeaves(t: Tree, sprout: Tree): (r: Tree)
    requires Canonical(t) && Canonical(sprout)
    ensures Canonical(r)
    decreases Depth(t.children), |t.children| + 1
  {
    var sprouted := GrowSubs(t.children, sprout);
    CompactOrdered(sprouted);
    Tree(Compact(sprouted).value)
  }

  function GrowSubs(bs: seq<Block>, sprout: Tree): (r: seq<Block>)
    requires Ordered(bs) && CanonicalSubs(bs) && Canonical(sprout)
    ensures Ordered(r) && CanonicalSubs(r) && |r| == |bs|
    ensures bs != [] ==> r[0].start == bs[0].start && r[0].count == bs[0].count
    decreases Depth(bs), |bs|
  {
    if bs == [] then []
    else
      DepthHead(bs);
      Merging.Cons(Block(bs[0].start, bs[0].count, GrowSub(bs[0].sub, sprout)), GrowSubs(bs[1..], sprout))
  }

  function GrowSub(t: Tree, sprout: Tree): (r: Tree)
    requires Canonical(t) && Canonical(sprout)
    ensures Canonical(r)
    decreases Depth(t.children), |t.children| + 2
  {
    if t != EMPTY then GrowLeaves(t, sprout) else sprout
  }

  lemma {:induction false} GrowSubsLookup(bs: seq<Block>, sprout: Tree, x: int)
    requires Ordered(bs) && CanonicalSubs(bs) && Canonical(sprout)
    ensures Lookup(bs, x).Some? ==> Canonical(Lookup(bs, x).value)
    ensures Lookup(GrowSubs(bs, sprout), x)
         == match Lookup(bs, x) case None => None case Some(s) => Some(GrowSub(s, sprout))
  {
    if bs != [] {
      assert Canonical(bs[0].sub);
      GrowSubsLookup(bs[1..], sprout, x);
    }
  }

  /** What grows at a leaf; a leaf without a sprout stays a leaf. */
  function Sprout(fn: Point -> Option<Tree>, at: Point): Tree {
    if fn(at).Some? then fn(at).value else EMPTY
  }

  /** A point of t, read below `here`, followed by a point of what grows on it. */
  ghost predicate Grown(t: Tree, here: Point, fn: Point -> Option<Tree>, p: Point)
    decreases |p|
  {
    if t == EMPTY then Has(Sprout(fn, here), p)
    else
      && p != []
      && Lookup(t.children, p[0]).Some?
      && Grown(Lookup(t.children, p[0]).value, here + [p[0]], fn, p[1..])
  }

  /** Grown points are exactly the concatenations. */
  lemma {:induction false} GrownIsConcatenation(t: Tree, here: Point, fn: Point -> Option<Tree>, p: Point)
    ensures Grown(t, here, fn, p)
       <==> exists k :: 0 <= k <= |p| && Has(t, p[..k]) && Has(Sprout(fn, here + p[..k]), p[k..])
    decreases |p|
  {
    if Grown(t, here, fn, p) {
      var k := GrownSplit(t, here, fn, p);
    }
    if exists k :: 0 <= k <= |p| && Has(t, p[..k]) && Has(Sprout(fn, here + p[..k]), p[k..]) {
      var k :| 0 <= k <= |p| && Has(t, p[..k]) && Has(Sprout(fn, here + p[..k]), p[k..]);
      SplitGrown(t, here, fn, p, k);
    }
  }

  lemma {:induction false} GrownSplit(t: Tree, here: Point, fn: Point -> Option<Tree>, p: Point) returns (k: nat)
    requires Grown(t, here, fn, p)
    ensures k <= |p| && Has(t, p[..k]) && Has(Sprout(fn, here + p[..k]), p[k..])
    decreases |p|
  {
    if t == EMPTY {
      k := 0;
      assert here + p[..0] == here && p[0..] == p;
    } else {
      k := GrownSplit(Lookup(t.children, p[0]).value, here + [p[0]], fn, p[1..]);
      assert p[..k + 1][1..] == p[1..][..k] && p[1..][k..] == p[k + 1..];
      assert here + [p[0]] + p[1..][..k] == here + p[..k + 1];
      k := k + 1;
    }
  }

  lemma {:induction false} SplitGrown(t: Tree, here: Point, fn: Point -> Option<Tree>, p: Point, k: nat)
    requires k <= |p| && Has(t, p[..k]) && Has(Sprout(fn, here + p[..k]), p[k..])
    ensures Grown(t, here, fn, p)
    decreases |p|
  {
    if t == EMPTY {
      assert here + p[..0] == here && p[0..] == p;
    } else {
      assert p[..k][1..] == p[1..][..k - 1] && p[1..][k - 1..] == p[k..];
      assert here + [p[0]] + p[1..][..k - 1] == here + p[..k];
      SplitGrown(Lookup(t.children, p[0]).value, here + [p[0]], fn, p[1..], k - 1);
    }
  }

  lemma {:induction false} GrowLeavesGrown(t: Tree, here: Point, sprout: Tree, fn: Point -> Option<Tree>, p: Point)
    requires Canonical(t) && Canonical(sprout) && forall q :: fn(q) == Some(sprout)
    ensures Has(GrowSub(t, sprout), p) <==> Grown(t, here, fn, p)
    decreases |p|
  {
    if t != EMPTY {
      CompactOrdered(GrowSubs(t.children, sprout));
      var r := GrowLeaves(t, sprout);
      var x := t.children[0].start;
      assert Lookup(r.children, x).Some? by { GrowSubsLookup(t.children, sprout, x); }
      if p != [] {
        GrowSubsLookup(t.children, sprout, p[0]);
        if Lookup(t.children, p[0]).Some? {
          GrowLeavesGrown(Lookup(t.children, p[0]).value, here + [p[0]], sprout, fn, p[1..]);
        }
      }
    }
  }

  /** Every point of t followed by every point of the sprout; the empty tree has no leaf to grow. */
  lemma GrowLeavesPoints(t: Tree, sprout: Tree, p: Point)
    requires Canonical(t) && Canonical(sprout)
    ensures t == EMPTY ==> GrowLeaves(t, sprout) == EMPTY
    ensures t != EMPTY ==>
              (Has(GrowLeaves(t, sprout), p)
               <==> exists k :: 0 <= k <= |p| && Has(t, p[..k]) && Has(sprout, p[k..]))
  {
    if t == EMPTY {
      CompactSound([]);
    } else {
      var fn := (_: Point) => Some(sprout);
      GrowLeavesGrown(t, [], sprout, fn, p);
      GrownIsConcatenation(t, [], fn, p);
    }
  }

  lemma {:induction false} GrowSize(bs: seq<Block>, sprout: Tree)
    requires Ordered(bs) && CanonicalSubs(bs) && Canonical(sprout)
    ensures SizeOf(GrowSubs(bs, sprout)) == SizeOf(bs) * Size(sprout)
    decreases Depth(bs), |bs|
  {
    hide Size, SizeOf, Canonical;
    if bs == [] {
      NoSize();
    } else {
      DepthHead(bs);
      GrowSize(bs[1..], sprout);
      GrowSubSize(bs[0].sub, sprout);
      assert GrowSubs(bs, sprout)[1..] == GrowSubs(bs[1..], sprout);
      SizeOfFirst(bs);
      SizeOfFirst(GrowSubs(bs, sprout));
      Distribute(bs[0].count, Size(bs[0].sub), Size(sprout), SizeOf(bs[1..]));
    }
  }

  lemma NoSize()
    ensures SizeOf([]) == 0
  {
  }

  lemma SizeOfFirst(bs: seq<Block>)
    requires bs != [] && bs[0].count > 0
    ensures SizeOf(bs) == bs[0].count * Size(bs[0].sub) + SizeOf(bs[1..])
  {
  }

  lemma Distribute(c: int, m: int, s: int, r: int)
    ensures (c * m + r) * s == c * (m * s) + r * s
  {
  }

  lemma {:induction false} GrowSubSize(t: Tree, sprout: Tree)
    requires Canonical(t) && Canonical(sprout)
    ensures Size(GrowSub(t, sprout)) == Size(t) * Size(sprout)
    decreases Depth(t.children), |t.children| + 1
  {
    if t != EMPTY {
      var bs := GrowSubs(t.children, sprout);
      GrowSize(t.children, sprout);
      CompactPoints(bs);
      PointsOfLength(bs);
      PointsOfLength(Make(bs).value.children);
      GrowLeavesGrown(t, [], sprout, _ => Some(sprout), []);
    }
  }

  lemma GrowKeepsPaths(t: Tree, sprout: Tree, r: nat, p: Point)
    requires Canonical(t) && Canonical(sprout) && t != EMPTY && Uniform(t, r)
    ensures Path(t, p) <==> Path(GrowLeaves(t, sprout), p) && |p| <= r
  {
    hide Canonical, GrowLeaves, Path;
    var g := GrowLeaves(t, sprout);
    if Path(t, p) {
      var q := ExtendPath(t, p);
      var s := SomePoint(sprout);
      assert (q + s)[..|q|] == q && (q + s)[|q|..] == s;
      GrowLeavesPoints(t, sprout, q + s);
      PrefixIsPath(g, p, q + s);
    }
    if Path(g, p) && |p| <= r {
      var q := ExtendPath(g, p);
      GrowLeavesPoints(t, sprout, q);
      var k :| 0 <= k <= |q| && Has(t, q[..k]) && Has(sprout, q[k..]);
      PrefixIsPath(t, p, q[..k]);
    }
  }

  /** On trees of rank r, pruning back to r levels undoes growing. */
  lemma PruneUndoesGrow(t: Tree, sprout: Tree, r: nat)
    requires Canonical(t) && Canonical(sprout) && t != EMPTY && Uniform(t, r)
    ensures r > 0 && Pruned(GrowLeaves(t, sprout), r - 1) == t
  {
    hide Canonical, Path;
    UniformChildren(t, 0);
    var first := SomePoint(t);
    var g := GrowLeaves(t, sprout);
    forall p ensures Path(Pruned(g, r - 1), p) <==> Path(t, p) {
      PrunedPaths(g, r - 1, p);
      GrowKeepsPaths(t, sprout, r, p);
    }
    EqualIffSamePaths(Pruned(g, r - 1), t);
  }

  // ----- grow_leaves_at -----

  /** Below bound, `sprouted` holds the grown copy of t's children, and nothing from bound on. */
  ghost predicate GrownUpTo(bs: seq<Block>, here: Point, fn: Point -> Option<Tree>, sprouted: seq<Block>,
                            lo: int, bound: int) {
    && Within(sprouted, lo, bound) && lo <= bound && CanonicalSubs(sprouted)
    && forall x :: (Lookup(sprouted, x).Some? <==> x < bound && Lookup(bs, x).Some?)
                   && (Lookup(sprouted, x).Some? ==>
                         GrownAt(Lookup(bs, x).value, here + [x], fn, Lookup(sprouted, x).value))
  }

  ghost predicate GrownAt(t: Tree, here: Point, fn: Point -> Option<Tree>, r: Tree) {
    forall p :: Has(r, p) <==> Grown(t, here, fn, p)
  }

  lemma GrownNone(bs: seq<Block>, here: Point, fn: Point -> Option<Tree>, lo: int)
    requires Ordered(bs) && (bs != [] ==> lo <= bs[0].start)
    ensures GrownUpTo(bs, here, fn, [], lo, lo)
  {
    forall x | x < lo ensures Lookup(bs, x) == None {
      LookupBelow(bs, x);
    }
  }

  /** One more coordinate of block k. */
  lemma GrownStep(bs: seq<Block>, k: nat, here: Point, fn: Point -> Option<Tree>, sprouted: seq<Block>,
                  lo: int, x: int, r: Tree)
    requires Ordered(bs) && k < |bs| && bs[k].Covers(x) && Canonical(r)
    requires GrownUpTo(bs, here, fn, sprouted, lo, x) && GrownAt(bs[k].sub, here + [x], fn, r)
    ensures GrownUpTo(bs, here, fn, sprouted + [Block(x, 1, r)], lo, x + 1)
  {
    var b := Block(x, 1, r);
    OneBlock(b);
    assert Within([b], x, x + 1) by { assert [b][1..] == []; }
    WithinAppend(sprouted, [b], lo, x, x + 1);
    SubsAppend(sprouted, [b]);
    BlockLookup(bs, k, x);
    forall z ensures Lookup(sprouted + [b], z) == if z == x then Some(r) else Lookup(sprouted, z) {
      LookupAppend(sprouted, [b], z);
      LookupOne(b, z);
    }
  }

  /** The gap behind block k holds nothing. */
  lemma GrownGap(bs: seq<Block>, k: nat, here: Point, fn: Point -> Option<Tree>, sprouted: seq<Block>, lo: int)
    requires Ordered(bs) && k < |bs| && GrownUpTo(bs, here, fn, sprouted, lo, bs[k].End())
    ensures k + 1 < |bs| ==> GrownUpTo(bs, here, fn, sprouted, lo, bs[k + 1].start)
    ensures k + 1 == |bs| ==> forall x :: Lookup(sprouted, x).Some? <==> Lookup(bs, x).Some?
  {
    forall x | bs[k].End() <= x && (k + 1 < |bs| ==> x < bs[k + 1].start) ensures Lookup(bs, x) == None {
      BlockLookup(bs, k, x);
    }
    if k + 1 < |bs| {
      assert bs[k].End() <= bs[k + 1].start by { OrderedTail(bs, k); StartsAscend(bs[k..], 1); }
      WithinWiden(sprouted, lo, bs[k].End(), bs[k + 1].start);
    }
  }

  method GrowLeavesAt(t: Tree, fn: Point -> Option<Tree>) returns (r: Tree)
    requires Canonical(t) && forall p :: fn(p).Some? ==> Canonical(fn(p).value)
    ensures Canonical(r)
    ensures t == EMPTY ==> r == EMPTY
    ensures t != EMPTY ==> GrownAt(t, [], fn, r)
  {
    r := GrowAt(t, [], fn);
  }

  method GrowAt(t: Tree, here: Point, fn: Point -> Option<Tree>) returns (r: Tree)
    requires Canonical(t) && forall p :: fn(p).Some? ==> Canonical(fn(p).value)
    ensures Canonical(r)
    ensures t == EMPTY ==> r == EMPTY
    ensures t != EMPTY ==> GrownAt(t, here, fn, r)
    decreases Depth(t.children)
  {
    hide GrownUpTo, CanonicalSubs, Lookup, Has, Grown, Compact;
    var sprouted: seq<Block> := [];
    var k := 0;
    ghost var bs := t.children;
    ghost var lo := if bs == [] then 0 else bs[0].start;
    GrownNone(bs, here, fn, lo);
    while k < |t.children|
      invariant k <= |t.children|
      invariant GrownUpTo(bs, here, fn, sprouted, lo,
                          if k < |bs| then bs[k].start else if k == 0 then lo else bs[k - 1].End())
    {
      var Block(i, n, sub) := t.children[k];
      var coords := here;
      var j := 0;
      SubCanonical(bs, k);
      StartsAscend(bs, k);
      while j < n
        invariant 0 <= j <= n && coords == here
        invariant GrownUpTo(bs, here, fn, sprouted, lo, i + j)
      {
        coords := coords + [i + j];
        var ch;
        if sub == EMPTY {
          var grown := fn(coords);
          ch := if grown.Some? then grown.value else sub;
          GrownLeaf(coords, fn);
        } else {
          ch := GrowAt(sub, coords, fn);
        }
        GrownStep(bs, k, here, fn, sprouted, lo, i + j, ch);
        sprouted := sprouted + [Block(i + j, 1, ch)];
        coords := coords[..|coords| - 1];
        j := j + 1;
      }
      GrownGap(bs, k, here, fn, sprouted, lo);
      k := k + 1;
    }
    GrownAll(t, here, fn, sprouted, lo);
    var made := NewTree(sprouted);
    r := made.value;
  }

  lemma GrownLeaf(at: Point, fn: Point -> Option<Tree>)
    ensures GrownAt(EMPTY, at, fn, Sprout(fn, at))
    ensures Canonical(EMPTY)
  {
  }

  lemma GrownAll(t: Tree, here: Point, fn: Point -> Option<Tree>, sprouted: seq<Block>, lo: int)
    requires Canonical(t)
    requires var bs := t.children;
             GrownUpTo(bs, here, fn, sprouted, lo, if bs == [] then lo else bs[|bs| - 1].End())
    ensures Make(sprouted).Success? && Canonical(Make(sprouted).value)
    ensures t == EMPTY ==> Make(sprouted).value == EMPTY
    ensures t != EMPTY ==> GrownAt(t, here, fn, Make(sprouted).value)
  {
    hide Compact, Within;
    var bs, hi := t.children, if t == EMPTY then lo else t.children[|t.children| - 1].End();
    WithinOrdered(sprouted, lo, hi);
    CompactOrdered(sprouted);
    if t == EMPTY {
      assert sprouted == [] by { SameDomainEmpty(sprouted); }
      CompactSound([]);
    } else {
      GrownGap(bs, |bs| - 1, here, fn, sprouted, lo);
      var r := Make(sprouted).value;
      StartsAscend(bs, 0);
      assert Lookup(bs, bs[0].start).Some?;
      assert Lookup(r.children, bs[0].start).Some?;
      forall p ensures Has(r, p) <==> Grown(t, here, fn, p) {
        if p != [] && Lookup(bs, p[0]).Some? {
          assert GrownAt(Lookup(bs, p[0]).value, here + [p[0]], fn, Lookup(sprouted, p[0]).value);
        }
      }
    }
  }

  lemma SameDomainEmpty(bs: seq<Block>)
    requires Ordered(bs) && forall x :: Lookup(bs, x) == None
    ensures bs == []
  {
    var x := if bs == [] then 0 else bs[0].start;
    assert Lookup(bs, x) == None;
  }

  /** What is grown below a point of t is what the function gives for it; without a sprout the point stays one. */
  lemma GrownBelow(t: Tree, fn: Point -> Option<Tree>, r: Tree, p: Point, q: Point)
    requires GrownAt(t, [], fn, r) && Has(t, p)
    ensures fn(p) == None ==> (Has(r, p + q) <==> q == [])
    ensures fn(p).Some? ==> (Has(r, p + q) <==> Has(fn(p).value, q))
  {
    hide Grown;
    var all := p + q;
    GrownIsConcatenation(t, [], fn, all);
    assert all[..|p|] == p && all[|p|..] == q && [] + all[..|p|] == p;
    forall k | 0 <= k <= |all| && Has(t, all[..k]) ensures k == |p| {
      if k <= |p| {
        assert all[..k] <= p;
        PrefixFree(t, all[..k], p);
      } else {
        assert p <= all[..k];
        PrefixFree(t, p, all[..k]);
      }
    }
  }

  /** Growing at every leaf with the same sprout is `grow_leaves`. */
  lemma ConstantGrowth(t: Tree, sprout: Tree, fn: Point -> Option<Tree>, r: Tree)
    requires Canonical(t) && Canonical(sprout) && Canonical(r) && t != EMPTY
    requires forall p :: fn(p) == Some(sprout)
    requires GrownAt(t, [], fn, r)
    ensures r == GrowLeaves(t, sprout)
  {
    forall p ensures Has(r, p) <==> Has(GrowLeaves(t, sprout), p) {
      GrowLeavesGrown(t, [], sprout, fn, p);
    }
    EqualIffSamePoints(r, GrowLeaves(t, sprout));
  }
}

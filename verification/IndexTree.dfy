/**
 The index tree of hyperion/IndexTree.h: a run-length-encoded trie of coordinate tuples.

 A block (start, count, sub) stands for `count` consecutive coordinates that share the subtree
 `sub`; the tree without blocks denotes the single empty tuple.  A block list is read through
 `Lookup`, the partial function from coordinates to subtrees that it encodes.
 */
module IndexTrees {
  import opened Wrappers

  datatype Block = Block(start: int, count: int, sub: Tree) {
    function End(): int { start + count }

    predicate Covers(x: int) { start <= x < start + count }
  }

  datatype Tree = Tree(children: seq<Block>)

  const EMPTY := Tree([])

  /** The subtree hanging below coordinate x, taken from the first block that covers x. */
  function Lookup(bs: seq<Block>, x: int): Option<Tree> {
    if bs == [] then None
    else if bs[0].Covers(x) then Some(bs[0].sub)
    else Lookup(bs[1..], x)
  }

  /** p is one of the coordinate tuples denoted by t. */
  ghost predicate Has(t: Tree, p: seq<int>)
    decreases |p|
  {
    if t == EMPTY then p == []
    else p != [] && Lookup(t.children, p[0]).Some? && Has(Lookup(t.children, p[0]).value, p[1..])
  }

  /** p is a prefix of a coordinate tuple of t (see PathIsPrefix). */
  ghost predicate Path(t: Tree, p: seq<int>)
    decreases |p|
  {
    p != [] ==> Lookup(t.children, p[0]).Some? && Path(Lookup(t.children, p[0]).value, p[1..])
  }

  ghost predicate SamePoints(a: Tree, b: Tree) {
    forall p :: Has(a, p) <==> Has(b, p)
  }

  /** The number of levels in a block list. */
  function Depth(bs: seq<Block>): nat
    decreases bs
  {
    if bs == [] then 0 else Max(BlockDepth(bs[0]), Depth(bs[1..]))
  }

  function BlockDepth(b: Block): nat
    decreases b
  {
    1 + Depth(b.sub.children)
  }

  lemma DepthHead(bs: seq<Block>)
    requires bs != []
    ensures Depth(bs[0].sub.children) < Depth(bs)
  {
    assert Depth(bs) >= BlockDepth(bs[0]);
  }

  lemma {:induction false} DepthMember(bs: seq<Block>, k: nat)
    requires k < |bs|
    ensures Depth(bs[k].sub.children) < Depth(bs)
  {
    DepthHead(bs);
    if k > 0 {
      DepthMember(bs[1..], k - 1);
    }
  }

  function Min(x: int, y: int): int { if x < y then x else y }

  function Max(x: nat, y: nat): nat { if x > y then x else y }

  // ----- the invariant kept by every constructor -----

  /** Positive counts, ascending starts, no overlap. */
  predicate Ordered(bs: seq<Block>) {
    bs != [] ==>
      && bs[0].count > 0
      && (|bs| > 1 ==> bs[0].End() <= bs[1].start)
      && Ordered(bs[1..])
  }

  /** Neighbouring blocks that touch carry different subtrees. */
  predicate Coalesced(bs: seq<Block>) {
    |bs| > 1 ==>
      && (bs[0].End() == bs[1].start ==> bs[0].sub != bs[1].sub)
      && Coalesced(bs[1..])
  }

  predicate CanonicalSubs(bs: seq<Block>)
    decreases Depth(bs), |bs|
  {
    bs != [] ==> (DepthHead(bs); Canonical(bs[0].sub) && CanonicalSubs(bs[1..]))
  }

  predicate Canonical(t: Tree)
    decreases Depth(t.children), |t.children| + 1
  {
    Ordered(t.children) && Coalesced(t.children) && CanonicalSubs(t.children)
  }

  // ----- what Lookup sees of an ordered list -----

  lemma {:induction false} LookupBelow(bs: seq<Block>, x: int)
    requires Ordered(bs)
    requires bs != [] ==> x < bs[0].start
    ensures Lookup(bs, x) == None
  {
    if bs != [] {
      LookupBelow(bs[1..], x);
    }
  }

  lemma {:induction false} LookupCanonical(bs: seq<Block>, x: int)
    requires CanonicalSubs(bs) && Lookup(bs, x).Some?
    ensures Canonical(Lookup(bs, x).value)
    ensures Depth(Lookup(bs, x).value.children) < Depth(bs)
  {
    if !bs[0].Covers(x) {
      LookupCanonical(bs[1..], x);
    }
  }

  // ----- every node of a canonical tree carries a point -----

  lemma {:induction false} SomePoint(t: Tree) returns (p: seq<int>)
    requires Canonical(t)
    ensures Has(t, p)
    decreases Depth(t.children)
  {
    if t == EMPTY {
      p := [];
    } else {
      var b := t.children[0];
      DepthHead(t.children);
      var q := SomePoint(b.sub);
      p := [b.start] + q;
    }
  }

  lemma {:induction false} PrefixIsPath(t: Tree, p: seq<int>, q: seq<int>)
    requires Has(t, q) && p <= q
    ensures Path(t, p)
    decreases |p|
  {
    if p != [] {
      PrefixIsPath(Lookup(t.children, q[0]).value, p[1..], q[1..]);
    }
  }

  lemma {:induction false} ExtendPath(t: Tree, p: seq<int>) returns (q: seq<int>)
    requires Canonical(t) && Path(t, p)
    ensures Has(t, q) && p <= q
    decreases |p|
  {
    if p == [] {
      q := SomePoint(t);
    } else {
      LookupCanonical(t.children, p[0]);
      var r := ExtendPath(Lookup(t.children, p[0]).value, p[1..]);
      q := [p[0]] + r;
    }
  }

  /** Path denotes exactly the prefixes of the points. */
  lemma PathIsPrefix(t: Tree, p: seq<int>)
    requires Canonical(t)
    ensures Path(t, p) <==> exists q :: Has(t, q) && p <= q
  {
    if Path(t, p) {
      var q := ExtendPath(t, p);
      assert exists q :: Has(t, q) && p <= q;
    }
    if exists q :: Has(t, q) && p <= q {
      var q :| Has(t, q) && p <= q;
      PrefixIsPath(t, p, q);
      assert Path(t, p);
    }
  }

  /** No point extends another one. */
  lemma {:induction false} PrefixFree(t: Tree, p: seq<int>, q: seq<int>)
    requires Has(t, p) && Has(t, q) && p <= q
    ensures p == q
    decreases |p|
  {
    if t != EMPTY {
      PrefixFree(Lookup(t.children, p[0]).value, p[1..], q[1..]);
    }
  }

  // ----- extensionality: a canonical tree is determined by what it denotes -----

  /** A canonical block list is the only one that encodes its lookup function. */
  lemma {:induction false} LookupDetermines(xs: seq<Block>, ys: seq<Block>)
    requires Ordered(xs) && Coalesced(xs) && Ordered(ys) && Coalesced(ys)
    requires forall x :: Lookup(xs, x) == Lookup(ys, x)
    ensures xs == ys
  {
    if xs != [] { HeadLookup(xs, ys); }
    if ys != [] { HeadLookup(ys, xs); }
    if xs != [] && ys != [] {
      var a, b := xs[0], ys[0];
      FirstRunsAgree(xs, ys);
      FirstRunsAgree(ys, xs);
      forall x ensures Lookup(xs[1..], x) == Lookup(ys[1..], x) {
        if a.Covers(x) {
          LookupBelow(xs[1..], x);
          LookupBelow(ys[1..], x);
        } else {
          assert Lookup(xs, x) == Lookup(ys, x);
        }
      }
      LookupDetermines(xs[1..], ys[1..]);
      assert xs == [a] + xs[1..] && ys == [b] + ys[1..];
    }
  }

  lemma HeadLookup(xs: seq<Block>, ys: seq<Block>)
    requires Ordered(xs) && Ordered(ys) && xs != []
    requires forall x :: Lookup(xs, x) == Lookup(ys, x)
    ensures ys != [] && ys[0].start <= xs[0].start
    ensures ys[0].start == xs[0].start ==> ys[0].sub == xs[0].sub
  {
    var x := xs[0].start;
    assert Lookup(xs, x) == Lookup(ys, x) == Some(xs[0].sub);
    if ys != [] && x < ys[0].start {
      LookupBelow(ys, x);
    }
  }

  /** A coalesced run cannot be continued by its successor, so neither first run is the shorter one. */
  lemma {:induction false} FirstRunsAgree(xs: seq<Block>, ys: seq<Block>)
    requires Ordered(xs) && Coalesced(xs) && Ordered(ys) && xs != [] && ys != []
    requires forall x :: Lookup(xs, x) == Lookup(ys, x)
    requires xs[0].start == ys[0].start && xs[0].sub == ys[0].sub
    ensures xs[0].count >= ys[0].count
  {
    var e := xs[0].End();
    if xs[0].count < ys[0].count {
      assert Lookup(ys, e) == Some(ys[0].sub);
      assert Lookup(xs, e) == Lookup(xs[1..], e);
      if |xs| == 1 || e < xs[1].start {
        LookupBelow(xs[1..], e);
      }
    }
  }

  lemma ConsHas(t: Tree, x: int, p: seq<int>)
    ensures t != EMPTY && Lookup(t.children, x).Some?
            ==> (Has(t, [x] + p) <==> Has(Lookup(t.children, x).value, p))
    ensures t != EMPTY && Has(t, [x] + p) ==> Lookup(t.children, x).Some?
  {
    assert ([x] + p)[1..] == p;
  }

  /** Two canonical trees are structurally equal exactly when they denote the same points. */
  lemma {:induction false} EqualIffSamePoints(a: Tree, b: Tree)
    requires Canonical(a) && Canonical(b)
    ensures a == b <==> SamePoints(a, b)
    decreases Depth(a.children)
  {
    if SamePoints(a, b) {
      assert Has(a, []) <==> Has(b, []);
      if a != EMPTY {
        forall x ensures Lookup(a.children, x) == Lookup(b.children, x) {
          SameLookup(a, b, x);
        }
        LookupDetermines(a.children, b.children);
      }
    }
  }

  lemma {:induction false} SameLookup(a: Tree, b: Tree, x: int)
    requires Canonical(a) && Canonical(b) && a != EMPTY && b != EMPTY && SamePoints(a, b)
    ensures Lookup(a.children, x) == Lookup(b.children, x)
    decreases Depth(a.children), 0
  {
    var sa, sb := Lookup(a.children, x), Lookup(b.children, x);
    if sa.Some? {
      LookupCanonical(a.children, x);
      var q := SomePoint(sa.value);
      ConsHas(a, x, q);
      assert Has(b, [x] + q);
      ConsHas(b, x, q);
    }
    if sb.Some? {
      LookupCanonical(b.children, x);
      var q := SomePoint(sb.value);
      ConsHas(b, x, q);
      assert Has(a, [x] + q);
      ConsHas(a, x, q);
    }
    if sa.Some? && sb.Some? {
      forall p ensures Has(sa.value, p) <==> Has(sb.value, p) {
        ConsHas(a, x, p);
        ConsHas(b, x, p);
        assert Has(a, [x] + p) <==> Has(b, [x] + p);
      }
      EqualIffSamePoints(sa.value, sb.value);
    }
  }

  /** The points are the paths that cannot be continued. */
  lemma {:induction false} HasIsMaximalPath(t: Tree, p: seq<int>)
    requires Canonical(t)
    ensures Has(t, p) <==> Path(t, p) && forall x :: !Path(t, p + [x])
    decreases |p|
  {
    if p == [] {
      if t != EMPTY {
        assert Path(t, [] + [t.children[0].start]);
      }
      forall x ensures Path(t, [] + [x]) <==> Lookup(t.children, x).Some? {
        assert ([] + [x])[1..] == [];
      }
    } else if Lookup(t.children, p[0]).Some? {
      LookupCanonical(t.children, p[0]);
      HasIsMaximalPath(Lookup(t.children, p[0]).value, p[1..]);
      forall x ensures Path(t, p + [x]) <==> Path(Lookup(t.children, p[0]).value, p[1..] + [x]) {
        assert (p + [x])[1..] == p[1..] + [x];
      }
    }
  }

  ghost predicate SamePaths(a: Tree, b: Tree) {
    forall p :: Path(a, p) <==> Path(b, p)
  }

  lemma EqualIffSamePaths(a: Tree, b: Tree)
    requires Canonical(a) && Canonical(b)
    ensures a == b <==> SamePaths(a, b)
  {
    if SamePaths(a, b) {
      forall p ensures Has(a, p) <==> Has(b, p) {
        HasIsMaximalPath(a, p);
        HasIsMaximalPath(b, p);
      }
      EqualIffSamePoints(a, b);
    }
  }

  // ----- uniform rank -----

  /** All points of t have length r. */
  ghost predicate Uniform(t: Tree, r: nat) {
    forall p | Has(t, p) :: |p| == r
  }

  predicate IsLeaf(bs: seq<Block>) {
    bs != [] ==> bs[0].sub == EMPTY && IsLeaf(bs[1..])
  }

  /** `IndexTree::rank`. */
  function Rank(t: Tree): Option<nat>
    decreases Depth(t.children), |t.children| + 1
  {
    if t == EMPTY then Some(0)
    else if IsLeaf(t.children) then Some(1)
    else
      match CommonRank(t.children)
      case Some(r) => Some(r + 1)
      case None => None
  }

  /** The rank shared by all subtrees, if there is one. */
  function CommonRank(bs: seq<Block>): Option<nat>
    requires bs != []
    decreases Depth(bs), |bs|
  {
    DepthHead(bs);
    if |bs| == 1 then Rank(bs[0].sub)
    else if CommonRank(bs[1..]) == Rank(bs[0].sub) then Rank(bs[0].sub)
    else None
  }

  /** `IndexTree::height`. */
  function Height(t: Tree): nat
    decreases Depth(t.children), |t.children| + 1
  {
    if IsLeaf(t.children) then 0 else 1 + MaxHeight(t.children)
  }

  function MaxHeight(bs: seq<Block>): nat
    decreases Depth(bs), |bs|
  {
    if bs == [] then 0 else (DepthHead(bs); Max(Height(bs[0].sub), MaxHeight(bs[1..])))
  }

  lemma {:induction false} LeafDepth(bs: seq<Block>)
    requires bs != []
    ensures IsLeaf(bs) <==> Depth(bs) == 1
  {
    assert BlockDepth(bs[0]) == 1 + Depth(bs[0].sub.children);
    if bs[0].sub != EMPTY { DepthHead(bs[0].sub.children); }
    if |bs| > 1 {
      LeafDepth(bs[1..]);
    }
  }

  lemma {:induction false} HeightIsDepth(t: Tree)
    requires t != EMPTY
    ensures Height(t) + 1 == Depth(t.children)
    decreases Depth(t.children), |t.children| + 1
  {
    LeafDepth(t.children);
    if !IsLeaf(t.children) {
      MaxHeightIsDepth(t.children);
    }
  }

  lemma {:induction false} MaxHeightIsDepth(bs: seq<Block>)
    requires bs != []
    ensures Depth(bs) == if IsLeaf(bs) then 1 else 2 + MaxHeight(bs)
    ensures IsLeaf(bs) ==> MaxHeight(bs) == 0
    decreases Depth(bs), |bs|
  {
    DepthHead(bs);
    assert BlockDepth(bs[0]) == 1 + Depth(bs[0].sub.children);
    if bs[0].sub != EMPTY { HeightIsDepth(bs[0].sub); }
    if |bs| > 1 { MaxHeightIsDepth(bs[1..]); }
  }

  /** The points of a canonical tree reach down to its depth, and no further. */
  lemma {:induction false} PointDepth(t: Tree, p: seq<int>)
    requires Canonical(t) && Has(t, p)
    ensures |p| <= Depth(t.children)
    decreases |p|
  {
    if p != [] {
      LookupCanonical(t.children, p[0]);
      PointDepth(Lookup(t.children, p[0]).value, p[1..]);
    }
  }

  ghost predicate UniformSubs(bs: seq<Block>, r: nat) {
    bs != [] ==> Uniform(bs[0].sub, r) && UniformSubs(bs[1..], r)
  }

  ghost predicate UniformLookups(bs: seq<Block>, r: nat) {
    forall x :: Lookup(bs, x).Some? ==> Uniform(Lookup(bs, x).value, r)
  }

  lemma {:induction false} UniformSubsLookup(bs: seq<Block>, r: nat)
    requires Ordered(bs)
    ensures UniformSubs(bs, r) <==> UniformLookups(bs, r)
  {
    if bs != [] {
      UniformSubsLookup(bs[1..], r);
      assert Lookup(bs, bs[0].start) == Some(bs[0].sub);
      forall x | bs[0].Covers(x) ensures Lookup(bs[1..], x) == None {
        LookupBelow(bs[1..], x);
      }
      if UniformLookups(bs, r) {
        assert Uniform(Lookup(bs, bs[0].start).value, r);
        forall x | Lookup(bs[1..], x).Some? ensures Uniform(Lookup(bs[1..], x).value, r) {
          assert Lookup(bs, x) == Lookup(bs[1..], x);
        }
        assert UniformSubs(bs[1..], r);
      }
      if UniformSubs(bs, r) {
        assert UniformLookups(bs[1..], r);
        forall x | Lookup(bs, x).Some? ensures Uniform(Lookup(bs, x).value, r) {
          assert !bs[0].Covers(x) ==> Lookup(bs, x) == Lookup(bs[1..], x);
        }
      }
    }
  }

  lemma UniformChildren(t: Tree, r: nat)
    requires Canonical(t) && t != EMPTY
    ensures Uniform(t, r + 1) <==> UniformSubs(t.children, r)
    ensures !Uniform(t, 0)
  {
    var p := SomePoint(t);
    UniformSubsLookup(t.children, r);
    if Uniform(t, r + 1) {
      forall x, q | Lookup(t.children, x).Some? && Has(Lookup(t.children, x).value, q) ensures |q| == r {
        ConsHas(t, x, q);
        assert Has(t, [x] + q);
      }
    }
    if UniformSubs(t.children, r) {
      forall q | Has(t, q) ensures |q| == r + 1 {
        assert Uniform(Lookup(t.children, q[0]).value, r) && Has(Lookup(t.children, q[0]).value, q[1..]);
      }
    }
  }

  lemma {:induction false} LeafCommonRank(bs: seq<Block>)
    requires bs != [] && IsLeaf(bs)
    ensures CommonRank(bs) == Some(0)
  {
    assert Rank(bs[0].sub) == Some(0);
    if |bs| > 1 { LeafCommonRank(bs[1..]); }
  }

  lemma {:induction false} CommonRankIsUniform(bs: seq<Block>, r: nat)
    requires CanonicalSubs(bs) && bs != []
    ensures CommonRank(bs) == Some(r) <==> UniformSubs(bs, r)
    decreases Depth(bs), |bs|
  {
    DepthHead(bs);
    RankIsUniform(bs[0].sub, r);
    if |bs| > 1 { CommonRankIsUniform(bs[1..], r); }
  }

  /** `rank` yields r exactly when all points have length r. */
  lemma {:induction false} RankIsUniform(t: Tree, r: nat)
    requires Canonical(t)
    ensures Rank(t) == Some(r) <==> Uniform(t, r)
    decreases Depth(t.children), |t.children| + 1
  {
    if t == EMPTY {
      assert Has(t, []);
    } else {
      if IsLeaf(t.children) { LeafCommonRank(t.children); }
      if r == 0 {
        UniformChildren(t, 0);
      } else {
        CommonRankIsUniform(t.children, r - 1);
        UniformChildren(t, r - 1);
      }
    }
  }
}

/**
 `IndexTree::merged_with`: the two-cursor sweep that splits blocks at each other's ends and merges
 the subtrees of the common stretches.  `Merge` is its specification; the theorems below say that it
 denotes the union of the prefixes of both trees.
 */
module Merging {
  import opened Wrappers
  import opened IndexTrees
  import opened Compaction

  // ----- one step of the sweep -----

  /** A stretch of coordinates on which both inputs are constant. */
  datatype Piece = Piece(start: int, count: int, left: Option<Tree>, right: Option<Tree>) {
    function End(): int { start + count }

    predicate Covers(x: int) { start <= x < start + count }
  }

  datatype Step = Step(head: Piece, xs: seq<Block>, ys: seq<Block>)

  /** The blocks from coordinate `at` on, when `at` lies in the first block or at its end. */
  function DropTo(bs: seq<Block>, at: int): (r: seq<Block>)
    requires Ordered(bs) && bs != [] && bs[0].start < at <= bs[0].End()
    ensures Ordered(r) && (r != [] ==> at <= r[0].start)
    ensures at == bs[0].End() ==> r == bs[1..]
    ensures at < bs[0].End() ==> r != [] && r[0].start == at && |r| == |bs|
  {
    if at == bs[0].End() then bs[1..] else Cons(Block(at, bs[0].End() - at, bs[0].sub), bs[1..])
  }

  function Cons(b: Block, bs: seq<Block>): (r: seq<Block>)
    ensures |r| > 0 && r[0] == b && r[1..] == bs
  {
    [b] + bs
  }

  /** Where the next piece starts. */
  function First(xs: seq<Block>, ys: seq<Block>): int
    requires xs != [] || ys != []
  {
    if xs == [] then ys[0].start
    else if ys == [] then xs[0].start
    else Min(xs[0].start, ys[0].start)
  }

  function NextStep(xs: seq<Block>, ys: seq<Block>): (r: Step)
    requires Ordered(xs) && Ordered(ys) && (xs != [] || ys != [])
    ensures Ordered(r.xs) && Ordered(r.ys)
    ensures r.head.start == First(xs, ys) && r.head.count > 0
    ensures r.xs != [] || r.ys != [] ==> r.head.End() <= First(r.xs, r.ys)
    ensures |r.xs| + |r.ys| < |xs| + |ys| || (|r.xs| + |r.ys| == |xs| + |ys| && !Aligned(xs, ys) && Aligned(r.xs, r.ys))
  {
    if xs == [] || (ys != [] && ys[0].End() <= xs[0].start) then
      Step(Piece(ys[0].start, ys[0].count, None, Some(ys[0].sub)), xs, ys[1..])
    else if ys == [] || xs[0].End() <= ys[0].start then
      Step(Piece(xs[0].start, xs[0].count, Some(xs[0].sub), None), xs[1..], ys)
    else if xs[0].start < ys[0].start then
      var at := ys[0].start;
      Step(Piece(xs[0].start, at - xs[0].start, Some(xs[0].sub), None), DropTo(xs, at), ys)
    else if ys[0].start < xs[0].start then
      var at := xs[0].start;
      Step(Piece(ys[0].start, at - ys[0].start, None, Some(ys[0].sub)), xs, DropTo(ys, at))
    else
      var n := Min(xs[0].count, ys[0].count);
      Step(Piece(xs[0].start, n, Some(xs[0].sub), Some(ys[0].sub)),
           DropTo(xs, xs[0].start + n), DropTo(ys, ys[0].start + n))
  }

  predicate Aligned(xs: seq<Block>, ys: seq<Block>) {
    xs != [] && ys != [] && xs[0].start == ys[0].start
  }

  /** A step consumes exactly the coordinates of its piece. */
  lemma StepLookup(xs: seq<Block>, ys: seq<Block>, x: int)
    requires Ordered(xs) && Ordered(ys) && (xs != [] || ys != [])
    ensures var st := NextStep(xs, ys);
            if st.head.Covers(x) then Lookup(xs, x) == st.head.left && Lookup(ys, x) == st.head.right
            else Lookup(xs, x) == Lookup(st.xs, x) && Lookup(ys, x) == Lookup(st.ys, x)
  {
    hide Lookup, Ordered, DropTo, First;
    var st := NextStep(xs, ys);
    FirstPositive(xs);
    FirstPositive(ys);
    if xs != [] {
      DropLookup(xs, if st.head.left.Some? then st.head.End() else xs[0].End(), x);
      LookupNoneBelow(xs, x);
    }
    if ys != [] {
      DropLookup(ys, if st.head.right.Some? then st.head.End() else ys[0].End(), x);
      LookupNoneBelow(ys, x);
    }
    LookupNoneBelow([], x);
  }

  lemma FirstPositive(bs: seq<Block>)
    requires Ordered(bs)
    ensures bs != [] ==> bs[0].count > 0 && Ordered(bs[1..])
    ensures Ordered([])
  {
  }

  lemma LookupNoneBelow(bs: seq<Block>, x: int)
    requires Ordered(bs)
    ensures bs == [] || x < bs[0].start ==> Lookup(bs, x) == None
  {
    if bs != [] && x < bs[0].start {
      LookupBelow(bs, x);
    }
  }

  lemma DropLookup(bs: seq<Block>, at: int, x: int)
    requires Ordered(bs) && bs != [] && bs[0].start < at <= bs[0].End()
    ensures if bs[0].start <= x < at then Lookup(bs, x) == Some(bs[0].sub)
            else Lookup(bs, x) == Lookup(DropTo(bs, at), x)
  {
    if x < bs[0].start {
      LookupBelow(bs, x);
      LookupBelow(DropTo(bs, at), x);
    }
  }

  predicate Shallow(bs: seq<Block>, d: nat) { CanonicalSubs(bs) && Depth(bs) <= d }

  predicate ShallowOpt(t: Option<Tree>, d: nat) {
    t.Some? ==> Canonical(t.value) && Depth(t.value.children) < d
  }

  lemma DropToShallow(bs: seq<Block>, at: int, d: nat)
    requires Ordered(bs) && bs != [] && bs[0].start < at <= bs[0].End() && Shallow(bs, d)
    ensures Shallow(DropTo(bs, at), d) && Shallow(bs[1..], d) && ShallowOpt(Some(bs[0].sub), d)
  {
    DepthHead(bs);
    var r := DropTo(bs, at);
    if at < bs[0].End() {
      assert Depth(r) == Max(BlockDepth(r[0]), Depth(r[1..]));
    }
  }

  lemma StepShallow(xs: seq<Block>, ys: seq<Block>, d: nat)
    requires Ordered(xs) && Ordered(ys) && (xs != [] || ys != [])
    requires Shallow(xs, d) && Shallow(ys, d)
    ensures var st := NextStep(xs, ys);
            && Shallow(st.xs, d) && Shallow(st.ys, d)
            && (st.head.left.Some? || st.head.right.Some?)
            && ShallowOpt(st.head.left, d) && ShallowOpt(st.head.right, d)
  {
    if xs != [] {
      DropToShallow(xs, xs[0].End(), d);
    }
    if ys != [] {
      DropToShallow(ys, ys[0].End(), d);
    }
    if xs != [] && ys != [] && !(ys[0].End() <= xs[0].start) && !(xs[0].End() <= ys[0].start) {
      if xs[0].start < ys[0].start {
        DropToShallow(xs, ys[0].start, d);
      } else if ys[0].start < xs[0].start {
        DropToShallow(ys, xs[0].start, d);
      } else {
        var n := Min(xs[0].count, ys[0].count);
        DropToShallow(xs, xs[0].start + n, d);
        DropToShallow(ys, ys[0].start + n, d);
      }
    }
  }

  // ----- the merge -----

  function Merge(a: Tree, b: Tree): (r: Tree)
    requires Canonical(a) && Canonical(b)
    ensures Canonical(r)
    decreases Max(Depth(a.children), Depth(b.children)), 2, 0, 0
  {
    if b == EMPTY || a == b then a
    else if a == EMPTY then b
    else
      var bs := SweepChildren(a, b);
      CompactOrdered(bs);
      Tree(Compact(bs).value)
  }

  function SweepChildren(a: Tree, b: Tree): (r: seq<Block>)
    requires Canonical(a) && Canonical(b)
    ensures Ordered(r) && CanonicalSubs(r)
    decreases Max(Depth(a.children), Depth(b.children)), 1, |a.children| + |b.children|, 2
  {
    Sweep(a.children, b.children, Max(Depth(a.children), Depth(b.children)))
  }

  function Sweep(xs: seq<Block>, ys: seq<Block>, ghost d: nat): (r: seq<Block>)
    requires Ordered(xs) && Ordered(ys) && Shallow(xs, d) && Shallow(ys, d)
    ensures Ordered(r) && CanonicalSubs(r)
    ensures r == [] <==> xs == [] && ys == []
    ensures r != [] ==> r[0].start == First(xs, ys)
    decreases d, 1, |xs| + |ys|, if Aligned(xs, ys) then 0 else 1
  {
    if xs == [] && ys == [] then []
    else
      var st := NextStep(xs, ys);
      StepShallow(xs, ys, d);
      Cons(Block(st.head.start, st.head.count, MergeOpt(st.head.left, st.head.right, d)),
           Sweep(st.xs, st.ys, d))
  }

  function MergeOpt(a: Option<Tree>, b: Option<Tree>, ghost d: nat): (r: Tree)
    requires (a.Some? || b.Some?) && ShallowOpt(a, d) && ShallowOpt(b, d)
    ensures Canonical(r)
    decreases d, 0, 0, 0
  {
    match (a, b)
    case (Some(s), Some(t)) => Merge(s, t)
    case (Some(s), None) => s
    case (None, Some(t)) => t
  }

  lemma {:induction false} LookupShallow(bs: seq<Block>, x: int, d: nat)
    requires Shallow(bs, d)
    ensures ShallowOpt(Lookup(bs, x), d)
  {
    if bs != [] {
      DepthHead(bs);
      if !bs[0].Covers(x) {
        LookupShallow(bs[1..], x, d);
      }
    }
  }

  lemma {:induction false} SweepLookup(xs: seq<Block>, ys: seq<Block>, d: nat, x: int)
    requires Ordered(xs) && Ordered(ys) && Shallow(xs, d) && Shallow(ys, d)
    ensures ShallowOpt(Lookup(xs, x), d) && ShallowOpt(Lookup(ys, x), d)
    ensures Lookup(Sweep(xs, ys, d), x)
         == if Lookup(xs, x).None? && Lookup(ys, x).None? then None
            else Some(MergeOpt(Lookup(xs, x), Lookup(ys, x), d))
    decreases |xs| + |ys|, if Aligned(xs, ys) then 0 else 1
  {
    LookupShallow(xs, x, d);
    LookupShallow(ys, x, d);
    if xs != [] || ys != [] {
      var st := NextStep(xs, ys);
      StepShallow(xs, ys, d);
      StepLookup(xs, ys, x);
      SweepLookup(st.xs, st.ys, d, x);
    }
  }

  // ----- what a merge denotes -----

  /** The paths of a merge are the paths of either tree: both inputs may be ragged. */
  lemma {:induction false} MergePaths(a: Tree, b: Tree, p: seq<int>)
    requires Canonical(a) && Canonical(b)
    ensures Path(Merge(a, b), p) <==> Path(a, p) || Path(b, p)
    decreases |p|
  {
    if p != [] && a != EMPTY && b != EMPTY && a != b {
      var d := Max(Depth(a.children), Depth(b.children));
      SweepLookup(a.children, b.children, d, p[0]);
      CompactOrdered(SweepChildren(a, b));
      var s, t := Lookup(a.children, p[0]), Lookup(b.children, p[0]);
      assert s.Some? || t.Some? ==> Lookup(Merge(a, b).children, p[0]) == Some(MergeOpt(s, t, d));
      if s.Some? && t.Some? {
        MergePaths(s.value, t.value, p[1..]);
      }
    }
  }

  /** The exact point set of a merge: the points of either tree that no point of the other extends. */
  lemma MergePoints(a: Tree, b: Tree, p: seq<int>)
    requires Canonical(a) && Canonical(b)
    ensures Has(Merge(a, b), p)
       <==> (Has(a, p) || Has(b, p)) && (Path(a, p) ==> Has(a, p)) && (Path(b, p) ==> Has(b, p))
  {
    HasIsMaximalPath(a, p);
    HasIsMaximalPath(b, p);
    HasIsMaximalPath(Merge(a, b), p);
    MergePaths(a, b, p);
    forall x ensures Path(Merge(a, b), p + [x]) <==> Path(a, p + [x]) || Path(b, p + [x]) {
      MergePaths(a, b, p + [x]);
    }
    if !Has(a, p) && Path(a, p) {
      var x :| Path(a, p + [x]);
      assert Path(Merge(a, b), p + [x]);
    }
    if !Has(b, p) && Path(b, p) {
      var x :| Path(b, p + [x]);
      assert Path(Merge(a, b), p + [x]);
    }
    PathPrefix(a, p);
    PathPrefix(b, p);
  }

  lemma {:induction false} PathPrefix(t: Tree, p: seq<int>)
    ensures !Path(t, p) ==> forall x :: !Path(t, p + [x])
    decreases |p|
  {
    if p != [] && Lookup(t.children, p[0]).Some? {
      PathPrefix(Lookup(t.children, p[0]).value, p[1..]);
      forall x ensures Path(t, p + [x]) ==> Path(Lookup(t.children, p[0]).value, p[1..] + [x]) {
        assert (p + [x])[1..] == p[1..] + [x];
      }
    }
  }

  /** On trees of one common rank, merging is set union. */
  lemma MergeIsUnion(a: Tree, b: Tree, r: nat)
    requires Canonical(a) && Canonical(b) && Uniform(a, r) && Uniform(b, r)
    ensures forall p :: Has(Merge(a, b), p) <==> Has(a, p) || Has(b, p)
    ensures Uniform(Merge(a, b), r)
  {
    forall p ensures Has(Merge(a, b), p) <==> Has(a, p) || Has(b, p) {
      MergePoints(a, b, p);
      if |p| == r {
        if Path(a, p) { var q := ExtendPath(a, p); assert q == p; }
        if Path(b, p) { var q := ExtendPath(b, p); assert q == p; }
      }
    }
  }

  /** The sweep would give a tree merged with itself back without the shortcut for equal trees. */
  lemma {:induction false} MergeIdempotent(xs: seq<Block>, d: nat)
    requires Ordered(xs) && Shallow(xs, d)
    ensures Sweep(xs, xs, d) == xs
    decreases |xs|
  {
    if xs != [] {
      var st := NextStep(xs, xs);
      assert st.xs == st.ys == xs[1..] && st.head.left == st.head.right == Some(xs[0].sub);
      StepShallow(xs, xs, d);
      assert MergeOpt(st.head.left, st.head.right, d) == xs[0].sub;
      MergeIdempotent(xs[1..], d);
      assert Block(st.head.start, st.head.count, xs[0].sub) == xs[0];
    }
  }

  lemma MergeCommutative(a: Tree, b: Tree)
    requires Canonical(a) && Canonical(b)
    ensures Merge(a, b) == Merge(b, a)
  {
    forall p ensures Path(Merge(a, b), p) <==> Path(Merge(b, a), p) {
      MergePaths(a, b, p);
      MergePaths(b, a, p);
    }
    EqualIffSamePaths(Merge(a, b), Merge(b, a));
  }

  lemma MergeAssociative(a: Tree, b: Tree, c: Tree)
    requires Canonical(a) && Canonical(b) && Canonical(c)
    ensures Merge(Merge(a, b), c) == Merge(a, Merge(b, c))
  {
    forall p ensures Path(Merge(Merge(a, b), c), p) <==> Path(Merge(a, Merge(b, c)), p) {
      MergePaths(a, b, p);
      MergePaths(b, c, p);
      MergePaths(Merge(a, b), c, p);
      MergePaths(a, Merge(b, c), p);
    }
    EqualIffSamePaths(Merge(Merge(a, b), c), Merge(a, Merge(b, c)));
  }

  // ----- the loop of the original -----

  /** The order test used to skip the sweep. */
  function LessThan(a: Tree, b: Tree): bool
    decreases Depth(a.children)
  {
    if a == EMPTY then b != EMPTY
    else if b == EMPTY then false
    else
      var last, first := a.children[|a.children| - 1], b.children[0];
      if last.End() <= first.start then true
      else if first.count == 1 && |b.children| == 1 && last.End() - 1 == first.start then
        DepthMember(a.children, |a.children| - 1);
        LessThan(last.sub, first.sub)
      else false
  }

  /** When one list ends before the other begins the sweep is their concatenation. */
  lemma {:induction false} SweepDisjoint(xs: seq<Block>, ys: seq<Block>, d: nat)
    requires Ordered(xs) && Ordered(ys) && Shallow(xs, d) && Shallow(ys, d)
    requires xs != [] && ys != [] ==> xs[|xs| - 1].End() <= ys[0].start
    ensures Sweep(xs, ys, d) == xs + ys
    decreases |xs|
  {
    hide Sweep, NextStep, Shallow;
    if xs == [] {
      SweepNothing(ys, d);
    } else {
      if ys != [] { OrderedEnds(xs); }
      TakeLeft(xs, ys, d);
      SweepDisjoint(xs[1..], ys, d);
      ConsAppend(xs, ys);
    }
  }

  lemma ConsAppend(xs: seq<Block>, ys: seq<Block>)
    requires xs != []
    ensures [xs[0]] + (xs[1..] + ys) == xs + ys
  {
  }

  lemma {:induction false} SweepNothing(ys: seq<Block>, d: nat)
    requires Ordered(ys) && Shallow(ys, d)
    ensures Sweep([], ys, d) == ys
    decreases |ys|
  {
    hide Sweep;
    if ys != [] {
      TakeRight([], ys, d);
      SweepNothing(ys[1..], d);
    }
  }

  lemma {:induction false} OrderedEnds(xs: seq<Block>)
    requires Ordered(xs) && xs != []
    ensures xs[0].End() <= xs[|xs| - 1].End()
  {
    if |xs| > 1 {
      OrderedEnds(xs[1..]);
    }
  }

  // One unfolding of the sweep for each way the loop advances.

  lemma TakeLeft(xs: seq<Block>, ys: seq<Block>, d: nat)
    requires Ordered(xs) && Ordered(ys) && Shallow(xs, d) && Shallow(ys, d)
    requires xs != [] && (ys != [] ==> xs[0].End() <= ys[0].start)
    ensures Shallow(xs[1..], d) && Sweep(xs, ys, d) == [xs[0]] + Sweep(xs[1..], ys, d)
  {
    StepShallow(xs, ys, d);
  }

  lemma TakeRight(xs: seq<Block>, ys: seq<Block>, d: nat)
    requires Ordered(xs) && Ordered(ys) && Shallow(xs, d) && Shallow(ys, d)
    requires ys != [] && (xs != [] ==> ys[0].End() <= xs[0].start)
    ensures Shallow(ys[1..], d) && Sweep(xs, ys, d) == [ys[0]] + Sweep(xs, ys[1..], d)
  {
    StepShallow(xs, ys, d);
  }

  lemma SplitLeft(xs: seq<Block>, ys: seq<Block>, d: nat)
    requires Ordered(xs) && Ordered(ys) && Shallow(xs, d) && Shallow(ys, d)
    requires xs != [] && ys != [] && xs[0].start < ys[0].start < xs[0].End()
    ensures Shallow(DropTo(xs, ys[0].start), d)
    ensures Sweep(xs, ys, d)
         == [Block(xs[0].start, ys[0].start - xs[0].start, xs[0].sub)] + Sweep(DropTo(xs, ys[0].start), ys, d)
  {
    StepShallow(xs, ys, d);
  }

  lemma SplitRight(xs: seq<Block>, ys: seq<Block>, d: nat)
    requires Ordered(xs) && Ordered(ys) && Shallow(xs, d) && Shallow(ys, d)
    requires xs != [] && ys != [] && ys[0].start < xs[0].start < ys[0].End()
    ensures Shallow(DropTo(ys, xs[0].start), d)
    ensures Sweep(xs, ys, d)
         == [Block(ys[0].start, xs[0].start - ys[0].start, ys[0].sub)] + Sweep(xs, DropTo(ys, xs[0].start), d)
  {
    StepShallow(xs, ys, d);
  }

  lemma TakeBoth(xs: seq<Block>, ys: seq<Block>, n: int, d: nat)
    requires Ordered(xs) && Ordered(ys) && Shallow(xs, d) && Shallow(ys, d)
    requires xs != [] && ys != [] && xs[0].start == ys[0].start && n == Min(xs[0].count, ys[0].count)
    ensures ShallowOpt(Some(xs[0].sub), d) && ShallowOpt(Some(ys[0].sub), d)
    ensures Shallow(DropTo(xs, xs[0].start + n), d) && Shallow(DropTo(ys, ys[0].start + n), d)
    ensures Sweep(xs, ys, d)
         == [Block(xs[0].start, n, Merge(xs[0].sub, ys[0].sub))]
            + Sweep(DropTo(xs, xs[0].start + n), DropTo(ys, ys[0].start + n), d)
  {
    hide Shallow, Canonical, Depth, Merge, Ordered;
    StepShallow(xs, ys, d);
  }

  lemma {:induction false} PositiveAppend(xs: seq<Block>, b: Block)
    ensures Positive(xs + [b]) == Positive(xs) + if b.count > 0 then [b] else []
  {
    if xs == [] {
      assert xs + [b] == [b];
    } else {
      PositiveAppend(xs[1..], b);
      assert (xs + [b])[1..] == xs[1..] + [b];
    }
  }

  lemma {:induction false} PositiveOrdered(xs: seq<Block>)
    requires Ordered(xs)
    ensures Positive(xs) == xs
  {
    if xs != [] {
      PositiveOrdered(xs[1..]);
    }
  }

  /** Emitted blocks plus the sweep of what remains make up the whole sweep. */
  ghost predicate Progress(newch: seq<Block>, rx: seq<Block>, ry: seq<Block>, all: seq<Block>, d: nat) {
    && Ordered(rx) && Ordered(ry) && Shallow(rx, d) && Shallow(ry, d)
    && Positive(newch) + Sweep(rx, ry, d) == all
  }

  lemma Emit(newch: seq<Block>, b: Block, sweep: seq<Block>, rest: seq<Block>, all: seq<Block>)
    requires b.count > 0 && Positive(newch) + sweep == all && sweep == [b] + rest
    ensures Positive(newch + [b]) + rest == all
  {
    PositiveAppend(newch, b);
  }

  lemma AdvanceRight(newch: seq<Block>, rx: seq<Block>, ry: seq<Block>, all: seq<Block>, d: nat)
    requires Progress(newch, rx, ry, all, d) && ry != []
    requires rx != [] ==> ry[0].End() <= rx[0].start
    ensures Progress(newch + [ry[0]], rx, ry[1..], all, d)
  {
    hide Sweep, NextStep, Shallow;
    TakeRight(rx, ry, d);
    Emit(newch, ry[0], Sweep(rx, ry, d), Sweep(rx, ry[1..], d), all);
  }

  lemma AdvanceLeft(newch: seq<Block>, rx: seq<Block>, ry: seq<Block>, all: seq<Block>, d: nat)
    requires Progress(newch, rx, ry, all, d) && rx != []
    requires ry != [] ==> rx[0].End() <= ry[0].start
    ensures Progress(newch + [rx[0]], rx[1..], ry, all, d)
  {
    hide Sweep, NextStep, Shallow;
    TakeLeft(rx, ry, d);
    Emit(newch, rx[0], Sweep(rx, ry, d), Sweep(rx[1..], ry, d), all);
  }

  lemma TrimLeft(newch: seq<Block>, rx: seq<Block>, ry: seq<Block>, all: seq<Block>, d: nat)
    requires Progress(newch, rx, ry, all, d) && rx != [] && ry != []
    requires rx[0].start < ry[0].start < rx[0].End()
    ensures Progress(newch + [Block(rx[0].start, ry[0].start - rx[0].start, rx[0].sub)],
                     DropTo(rx, ry[0].start), ry, all, d)
  {
    hide Sweep, NextStep, Shallow;
    SplitLeft(rx, ry, d);
    var b := Block(rx[0].start, ry[0].start - rx[0].start, rx[0].sub);
    Emit(newch, b, Sweep(rx, ry, d), Sweep(DropTo(rx, ry[0].start), ry, d), all);
  }

  lemma TrimRight(newch: seq<Block>, rx: seq<Block>, ry: seq<Block>, all: seq<Block>, d: nat)
    requires Progress(newch, rx, ry, all, d) && rx != [] && ry != []
    requires ry[0].start < rx[0].start < ry[0].End()
    ensures Progress(newch + [Block(ry[0].start, rx[0].start - ry[0].start, ry[0].sub)],
                     rx, DropTo(ry, rx[0].start), all, d)
  {
    hide Sweep, NextStep, Shallow;
    SplitRight(rx, ry, d);
    var b := Block(ry[0].start, rx[0].start - ry[0].start, ry[0].sub);
    Emit(newch, b, Sweep(rx, ry, d), Sweep(rx, DropTo(ry, rx[0].start), d), all);
  }

  lemma MergeHeads(newch: seq<Block>, rx: seq<Block>, ry: seq<Block>, n: int, all: seq<Block>, d: nat)
    requires Progress(newch, rx, ry, all, d) && rx != [] && ry != []
    requires rx[0].start == ry[0].start && n == Min(rx[0].count, ry[0].count)
    ensures ShallowOpt(Some(rx[0].sub), d) && ShallowOpt(Some(ry[0].sub), d)
    ensures Progress(newch + [Block(rx[0].start, n, Merge(rx[0].sub, ry[0].sub))],
                     DropTo(rx, rx[0].start + n), DropTo(ry, ry[0].start + n), all, d)
  {
    hide Sweep, Shallow, Merge;
    TakeBoth(rx, ry, n, d);
    var b := Block(rx[0].start, n, Merge(rx[0].sub, ry[0].sub));
    Emit(newch, b, Sweep(rx, ry, d), Sweep(DropTo(rx, rx[0].start + n), DropTo(ry, ry[0].start + n), d), all);
  }

  lemma ProgressOrdered(newch: seq<Block>, rx: seq<Block>, ry: seq<Block>, all: seq<Block>, d: nat)
    requires Progress(newch, rx, ry, all, d)
    ensures Ordered(rx) && Ordered(ry)
  {
  }

  /** A position in a block list together with what is left of the block there. */
  datatype Cursor = Cursor(at: nat, start: int, count: int, sub: Tree)

  function Load(bs: seq<Block>, k: nat, old_: Cursor): (c: Cursor)
    requires k <= |bs|
    ensures c.at == k
  {
    if k == |bs| then old_.(at := k) else Cursor(k, bs[k].start, bs[k].count, bs[k].sub)
  }

  function Rest(bs: seq<Block>, c: Cursor): seq<Block>
    requires c.at <= |bs|
  {
    if c.at == |bs| then []
    else if c.count == 0 then bs[c.at + 1..]
    else Cons(Block(c.start, c.count, c.sub), bs[c.at + 1..])
  }

  /** A used-up right block stays current until the next iteration emits it with count zero. */
  ghost predicate SweepInv(newch: seq<Block>, xs: seq<Block>, x: Cursor, ys: seq<Block>, y: Cursor,
                           all: seq<Block>, d: nat) {
    && x.at <= |xs| && y.at <= |ys|
    && (x.at < |xs| ==> x.count > 0)
    && (y.at < |ys| ==> y.count >= 0 && (y.count == 0 ==> x.at == |xs| || y.start <= x.start))
    && Progress(newch, Rest(xs, x), Rest(ys, y), all, d)
  }

  lemma InvStart(xs: seq<Block>, ys: seq<Block>, d: nat)
    requires Ordered(xs) && Ordered(ys) && Shallow(xs, d) && Shallow(ys, d) && xs != [] && ys != []
    ensures SweepInv([], xs, Cursor(0, xs[0].start, xs[0].count, xs[0].sub),
                     ys, Cursor(0, ys[0].start, ys[0].count, ys[0].sub), Sweep(xs, ys, d), d)
  {
    hide Sweep, NextStep, Shallow;
    var x, y := Cursor(0, xs[0].start, xs[0].count, xs[0].sub), Cursor(0, ys[0].start, ys[0].count, ys[0].sub);
    assert Rest(xs, x) == xs;
    assert Rest(ys, y) == ys;
    assert Positive([]) == [];
  }

  lemma InvEnd(newch: seq<Block>, xs: seq<Block>, x: Cursor, ys: seq<Block>, y: Cursor, all: seq<Block>, d: nat)
    requires SweepInv(newch, xs, x, ys, y, all, d)
    ensures x.at <= |xs| && y.at <= |ys|
    ensures x.at < |xs| ==> x.count > 0
    ensures y.at < |ys| ==> y.count >= 0 && (y.count == 0 ==> x.at == |xs| || y.start <= x.start)
    ensures x.at == |xs| && y.at == |ys| ==> Positive(newch) == all
  {
  }

  lemma LoadRest(bs: seq<Block>, k: nat, c: Cursor)
    requires k <= |bs| && Ordered(bs[k..])
    ensures Rest(bs, Load(bs, k, c)) == bs[k..] && (k < |bs| ==> bs[k].count > 0)
  {
  }

  lemma InvRight(newch: seq<Block>, xs: seq<Block>, x: Cursor, ys: seq<Block>, y: Cursor, all: seq<Block>, d: nat)
    requires SweepInv(newch, xs, x, ys, y, all, d) && y.at < |ys|
    requires x.at == |xs| || y.start + y.count <= x.start
    ensures SweepInv(newch + [Block(y.start, y.count, y.sub)], xs, x, ys, Load(ys, y.at + 1, y), all, d)
  {
    hide Sweep, NextStep, Shallow;
    PositiveAppend(newch, Block(y.start, y.count, y.sub));
    if y.count > 0 {
      AdvanceRight(newch, Rest(xs, x), Rest(ys, y), all, d);
    }
    LoadRest(ys, y.at + 1, y);
  }

  lemma InvLeft(newch: seq<Block>, xs: seq<Block>, x: Cursor, ys: seq<Block>, y: Cursor, all: seq<Block>, d: nat)
    requires SweepInv(newch, xs, x, ys, y, all, d) && x.at < |xs|
    requires y.at == |ys| || (y.count > 0 && x.start + x.count <= y.start)
    ensures SweepInv(newch + [Block(x.start, x.count, x.sub)], xs, Load(xs, x.at + 1, x), ys, y, all, d)
  {
    hide Sweep, NextStep, Shallow;
    AdvanceLeft(newch, Rest(xs, x), Rest(ys, y), all, d);
    LoadRest(xs, x.at + 1, x);
  }

  function Trim(c: Cursor, m: int): Cursor { c.(start := c.start + m, count := c.count - m) }

  lemma TrimRest(bs: seq<Block>, c: Cursor, m: int)
    requires c.at < |bs| && 0 < m <= c.count && Ordered(Rest(bs, c))
    ensures Rest(bs, Trim(c, m)) == DropTo(Rest(bs, c), c.start + m)
  {
  }

  lemma InvTrimLeft(newch: seq<Block>, xs: seq<Block>, x: Cursor, ys: seq<Block>, y: Cursor, all: seq<Block>, d: nat)
    requires SweepInv(newch, xs, x, ys, y, all, d) && x.at < |xs| && y.at < |ys| && y.count > 0
    requires x.start < y.start < x.start + x.count
    ensures SweepInv(newch + [Block(x.start, y.start - x.start, x.sub)],
                     xs, Trim(x, y.start - x.start), ys, y, all, d)
  {
    hide Sweep, NextStep, Shallow;
    TrimLeft(newch, Rest(xs, x), Rest(ys, y), all, d);
    TrimRest(xs, x, y.start - x.start);
  }

  lemma InvTrimRight(newch: seq<Block>, xs: seq<Block>, x: Cursor, ys: seq<Block>, y: Cursor, all: seq<Block>, d: nat)
    requires SweepInv(newch, xs, x, ys, y, all, d) && x.at < |xs| && y.at < |ys|
    requires y.start < x.start < y.start + y.count
    ensures SweepInv(newch + [Block(y.start, x.start - y.start, y.sub)],
                     xs, x, ys, Trim(y, x.start - y.start), all, d)
  {
    hide Sweep, NextStep, Shallow;
    TrimRight(newch, Rest(xs, x), Rest(ys, y), all, d);
    TrimRest(ys, y, x.start - y.start);
  }

  lemma InvMerge(newch: seq<Block>, xs: seq<Block>, x: Cursor, ys: seq<Block>, y: Cursor, all: seq<Block>, d: nat)
    requires SweepInv(newch, xs, x, ys, y, all, d) && x.at < |xs| && y.at < |ys|
    requires x.start == y.start && y.count > 0
    ensures ShallowOpt(Some(x.sub), d) && ShallowOpt(Some(y.sub), d)
    ensures x.at + 1 < |xs| ==> x.start + x.count <= xs[x.at + 1].start
    ensures var m := Min(x.count, y.count);
            var newch' := newch + [Block(x.start, m, Merge(x.sub, y.sub))];
            && Ordered(Rest(xs, Trim(x, m))) && Ordered(Rest(ys, Trim(y, m)))
            && Progress(newch', Rest(xs, Trim(x, m)), Rest(ys, Trim(y, m)), all, d)
  {
    hide Sweep, NextStep, Shallow, Progress, Merge, Canonical, Positive, SweepInv, Rest, Trim, Ordered, DropTo;
    var m := Min(x.count, y.count);
    InvFacts(newch, xs, x, ys, y, all, d);
    ProgressOrdered(newch, Rest(xs, x), Rest(ys, y), all, d);
    RestFacts(xs, x);
    RestFacts(ys, y);
    MergeHeads(newch, Rest(xs, x), Rest(ys, y), m, all, d);
    TrimRest(xs, x, m);
    TrimRest(ys, y, m);
  }

  lemma InvFacts(newch: seq<Block>, xs: seq<Block>, x: Cursor, ys: seq<Block>, y: Cursor, all: seq<Block>, d: nat)
    requires SweepInv(newch, xs, x, ys, y, all, d)
    ensures x.at < |xs| ==> x.count > 0
    ensures Progress(newch, Rest(xs, x), Rest(ys, y), all, d)
  {
    hide Progress, Rest;
  }

  lemma RestFacts(bs: seq<Block>, c: Cursor)
    requires c.at < |bs| && c.count > 0 && Ordered(Rest(bs, c))
    ensures Rest(bs, c) != [] && Rest(bs, c)[0] == Block(c.start, c.count, c.sub)
    ensures c.at + 1 < |bs| ==> c.start + c.count <= bs[c.at + 1].start
  {
    if c.at + 1 < |bs| { assert Rest(bs, c)[1] == bs[c.at + 1]; }
  }

  lemma UsedUp(bs: seq<Block>, c: Cursor)
    requires c.at < |bs| && c.count == 0 && Ordered(Rest(bs, c))
    ensures Rest(bs, Load(bs, c.at + 1, c)) == Rest(bs, c)
    ensures c.at + 1 < |bs| ==> bs[c.at + 1].count > 0
  {
    LoadRest(bs, c.at + 1, c);
  }

  /** The left block is used up: the left cursor moves on. */
  lemma InvMergeLeft(newch: seq<Block>, xs: seq<Block>, x: Cursor, ys: seq<Block>, y: Cursor, all: seq<Block>, d: nat)
    requires SweepInv(newch, xs, x, ys, y, all, d) && x.at < |xs| && y.at < |ys|
    requires x.start == y.start && y.count > 0 && x.count <= y.count
    ensures ShallowOpt(Some(x.sub), d) && ShallowOpt(Some(y.sub), d)
    ensures SweepInv(newch + [Block(x.start, x.count, Merge(x.sub, y.sub))],
                     xs, Load(xs, x.at + 1, Cursor(x.at, x.start + x.count, 0, x.sub)),
                     ys, Cursor(y.at, x.start + x.count, y.count - x.count, y.sub), all, d)
  {
    hide Sweep, NextStep, Shallow, Progress, Merge, Canonical, Positive, Ordered, Rest;
    InvMerge(newch, xs, x, ys, y, all, d);
    assert Trim(x, x.count) == Cursor(x.at, x.start + x.count, 0, x.sub);
    assert Trim(y, x.count) == Cursor(y.at, x.start + x.count, y.count - x.count, y.sub);
    UsedUp(xs, Trim(x, x.count));
  }

  /** The right block is used up first. */
  lemma InvMergeRight(newch: seq<Block>, xs: seq<Block>, x: Cursor, ys: seq<Block>, y: Cursor, all: seq<Block>, d: nat)
    requires SweepInv(newch, xs, x, ys, y, all, d) && x.at < |xs| && y.at < |ys|
    requires x.start == y.start && y.count > 0 && x.count > y.count
    ensures ShallowOpt(Some(x.sub), d) && ShallowOpt(Some(y.sub), d)
    ensures SweepInv(newch + [Block(x.start, y.count, Merge(x.sub, y.sub))],
                     xs, Cursor(x.at, x.start + y.count, x.count - y.count, x.sub),
                     ys, Load(ys, y.at + 1, Cursor(y.at, x.start + y.count, 0, y.sub)), all, d)
  {
    hide Sweep, NextStep, Shallow, Progress, Merge, Canonical, Positive, Ordered, Rest;
    InvMerge(newch, xs, x, ys, y, all, d);
    assert Trim(y, y.count) == Cursor(y.at, x.start + y.count, 0, y.sub);
    assert Trim(x, y.count) == Cursor(x.at, x.start + y.count, x.count - y.count, x.sub);
    UsedUp(ys, Trim(y, y.count));
  }

  /** The two cursors of the original, `(i, n, t)` at ch and `(it, nt, tt)` at tch. */
  method SweepLoop(xs: seq<Block>, ys: seq<Block>, ghost d: nat) returns (newch: seq<Block>)
    requires Ordered(xs) && Ordered(ys) && Shallow(xs, d) && Shallow(ys, d) && xs != [] && ys != []
    ensures Positive(newch) == Sweep(xs, ys, d)
    decreases d, 0
  {
    hide SweepInv, Sweep, Shallow, Ordered, NextStep, Merge, Canonical, Positive, Rest;
    newch := [];
    var ch, tch := 0, 0;
    var i, n, t := xs[0].start, xs[0].count, xs[0].sub;
    var it, nt, tt := ys[0].start, ys[0].count, ys[0].sub;
    ghost var all := Sweep(xs, ys, d);
    InvStart(xs, ys, d);
    while ch != |xs| || tch != |ys|
      invariant ch <= |xs| && tch <= |ys|
      invariant SweepInv(newch, xs, Cursor(ch, i, n, t), ys, Cursor(tch, it, nt, tt), all, d)
      decreases |xs| - ch + |ys| - tch
    {
        InvEnd(newch, xs, Cursor(ch, i, n, t), ys, Cursor(tch, it, nt, tt), all, d);
      if ch == |xs| || (tch != |ys| && it + nt <= i) {
        InvRight(newch, xs, Cursor(ch, i, n, t), ys, Cursor(tch, it, nt, tt), all, d);
        newch := newch + [Block(it, nt, tt)];
        tch := tch + 1;
        if tch != |ys| { var Block(start, count, sub) := ys[tch]; it, nt, tt := start, count, sub; }
      } else if tch == |ys| || (ch != |xs| && i + n <= it) {
        InvLeft(newch, xs, Cursor(ch, i, n, t), ys, Cursor(tch, it, nt, tt), all, d);
        newch := newch + [Block(i, n, t)];
        ch := ch + 1;
        if ch != |xs| { var Block(start, count, sub) := xs[ch]; i, n, t := start, count, sub; }
      } else {
        if i < it {
          InvTrimLeft(newch, xs, Cursor(ch, i, n, t), ys, Cursor(tch, it, nt, tt), all, d);
          newch := newch + [Block(i, it - i, t)];
          n := n - (it - i);
          i := it;
        } else if it < i {
          InvTrimRight(newch, xs, Cursor(ch, i, n, t), ys, Cursor(tch, it, nt, tt), all, d);
          newch := newch + [Block(it, i - it, tt)];
          nt := nt - (i - it);
          it := i;
        }
        InvEnd(newch, xs, Cursor(ch, i, n, t), ys, Cursor(tch, it, nt, tt), all, d);
        if n <= nt {
          InvMergeLeft(newch, xs, Cursor(ch, i, n, t), ys, Cursor(tch, it, nt, tt), all, d);
        } else {
          InvMergeRight(newch, xs, Cursor(ch, i, n, t), ys, Cursor(tch, it, nt, tt), all, d);
        }
        var bi, bn := i, Min(n, nt);
        var merged := MergedWith(t, tt);
        newch := newch + [Block(bi, bn, merged)];
        i := bi + bn;
        n := n - bn;
        it := bi + bn;
        nt := nt - bn;
        if n == 0 {
          ch := ch + 1;
          if ch != |xs| { var Block(start, count, sub) := xs[ch]; i, n, t := start, count, sub; }
        } else {
          assert nt == 0;
          tch := tch + 1;
          if tch != |ys| { var Block(start, count, sub) := ys[tch]; it, nt, tt := start, count, sub; }
        }
      }
    }
    InvEnd(newch, xs, Cursor(ch, i, n, t), ys, Cursor(tch, it, nt, tt), all, d);
  }

  method MergedWith(a: Tree, b: Tree) returns (r: Tree)
    requires Canonical(a) && Canonical(b)
    ensures r == Merge(a, b)
    decreases Max(Depth(a.children), Depth(b.children)), 1
  {
    if b == EMPTY || a == b { return a; }
    if a == EMPTY { return b; }
    var xs, ys := a.children, b.children;
    ghost var d := Max(Depth(xs), Depth(ys));
    var newch: seq<Block>;
    if LessThan(a, b) && xs[|xs| - 1].End() < ys[0].start {
      newch := xs + ys;
      SweepDisjoint(xs, ys, d);
      PositiveOrdered(newch);
    } else {
      newch := SweepLoop(xs, ys, d);
      PositiveOrdered(SweepChildren(a, b));
    }
    CompactOrdered(SweepChildren(a, b));
    var c := CompactInPlace(newch);
    r := Tree(c.value);
  }
}

/** `IndexTree::num_repeats`: counting how many points of a repeated pattern a tree holds. */
module Recognition {
  import opened Wrappers
  import opened IndexTrees
  import opened Compaction
  import opened BlockLists
  import opened Enumeration
  import opened Growing
  import opened Replication
  import Merging

  function Add(n: nat, r: Option<nat>): Option<nat> {
    match r
    case None => None
    case Some(m) => Some(n + m)
  }

  function TotalCount(bs: seq<Block>): int {
    if bs == [] then 0 else bs[0].count + TotalCount(bs[1..])
  }

  lemma {:induction false} TotalCountPositive(bs: seq<Block>)
    requires Ordered(bs)
    ensures TotalCount(bs) >= 0
    ensures bs != [] ==> TotalCount(bs) >= bs[0].count + TotalCount(bs[1..]) && TotalCount(bs[1..]) >= 0
  {
    if bs != [] { TotalCountPositive(bs[1..]); }
  }

  /** The lists compared at one level: ordered, canonical, all subtrees of rank k. */
  ghost predicate Level(bs: seq<Block>, k: nat) {
    Ordered(bs) && CanonicalSubs(bs) && UniformSubs(bs, k)
  }

  /** The blocks left after taking m coordinates from the first one. */
  function Take(ps: seq<Block>, m: int): (r: seq<Block>)
    requires Ordered(ps) && ps != [] && 0 < m <= ps[0].count
  {
    Merging.DropTo(ps, ps[0].start + m)
  }

  lemma TakeLevel(ps: seq<Block>, m: int, k: nat)
    requires Level(ps, k) && ps != [] && 0 < m <= ps[0].count
    ensures Level(Take(ps, m), k) && TotalCount(Take(ps, m)) == TotalCount(ps) - m
  {
    var r := Take(ps, m);
    if m < ps[0].count {
      assert r[1..] == ps[1..];
      assert Canonical(ps[0].sub);
    }
  }

  lemma NestedRanks(a: Tree, b: Tree, k: nat)
    requires Canonical(a) && Canonical(b) && Uniform(a, k) && Uniform(b, k) && a != b
    ensures b != EMPTY && Rank(a) == Some(k) == Rank(b)
  {
    RankIsUniform(a, k);
    RankIsUniform(b, k);
    if b == EMPTY {
      assert Has(b, []);
      if a != EMPTY { UniformChildren(a, 0); }
    }
  }

  /** `nr`: pattern and tree are compared level by level, the pattern being restarted when cycling. */
  function Nr(tree: Tree, pattern: Tree, cycle: bool): Option<nat>
    requires Canonical(tree) && Canonical(pattern) && pattern != EMPTY
    requires Rank(tree).Some? && Rank(pattern).Some?
    decreases Depth(pattern.children), 1, 0, 0
  {
    var r := Rank(pattern).value;
    if r > Rank(tree).value then None
    else
      PatternLevel(pattern);
      PrunedLevel(tree, r);
      NrLoop(Pruned(tree, r - 1).children, pattern.children, pattern.children, MinStart(pattern.children), cycle, r - 1)
  }

  function NrLoop(ps: seq<Block>, rs: seq<Block>, all: seq<Block>, i0: int, cycle: bool, ghost k: nat): Option<nat>
    requires Level(ps, k) && Level(rs, k) && Level(all, k) && all != [] && Depth(rs) <= Depth(all)
    decreases Depth(all), 0, TotalCount(ps), if rs == [] then |all| + 1 else |rs|
  {
    if ps == [] then Some(0)
    else if rs == [] then
      if !cycle then None else NrLoop(ps, all, all, ps[0].start, cycle, k)
    else
      var p, r := ps[0], rs[0];
      if r.start + i0 != p.start then None
      else if r.sub == p.sub then
        var m := Min(r.count, p.count);
        TakeLevel(ps, m, k);
        TotalCountPositive(Take(ps, m));
        Add(m * Size(r.sub), NrLoop(Take(ps, m), rs[1..], all, i0, cycle, k))
      else if |ps| > 1 then None
      else
        NestedRanks(p.sub, r.sub, k);
        DepthHead(rs);
        Nr(p.sub, r.sub, false)
  }

  lemma PatternLevel(pattern: Tree)
    requires Canonical(pattern) && pattern != EMPTY && Rank(pattern).Some?
    ensures Rank(pattern).value > 0 && Level(pattern.children, Rank(pattern).value - 1)
  {
    var r := Rank(pattern).value;
    RankIsUniform(pattern, r);
    UniformChildren(pattern, if r > 0 then r - 1 else 0);
  }

  lemma PrunedLevel(tree: Tree, r: nat)
    requires Canonical(tree) && Rank(tree).Some? && 0 < r <= Rank(tree).value
    ensures Level(Pruned(tree, r - 1).children, r - 1) && Pruned(tree, r - 1) != EMPTY
  {
    hide Canonical, Pruned, Has;
    var t, n := Pruned(tree, r - 1), Rank(tree).value;
    RankIsUniform(tree, n);
    var first := SomePoint(tree);
    PrefixIsPath(tree, first[..1], first);
    PrunedPaths(tree, r - 1, first[..1]);
    assert Path(t, first[..1]);
    forall p | Has(t, p) ensures |p| == r {
      PrunedPoint(tree, r, n, p);
    }
    UniformChildren(t, r - 1);
    CanonicalParts(t);
  }

  lemma CanonicalParts(t: Tree)
    requires Canonical(t)
    ensures Ordered(t.children) && Coalesced(t.children) && CanonicalSubs(t.children)
  {
  }

  lemma PrunedPoint(tree: Tree, r: nat, n: nat, p: Point)
    requires Canonical(tree) && Uniform(tree, n) && 0 < r <= n && Has(Pruned(tree, r - 1), p)
    ensures |p| == r
  {
    hide Pruned;
    var t := Pruned(tree, r - 1);
    PrefixIsPath(t, p, p);
    PrunedPaths(tree, r - 1, p);
    var q := ExtendPath(tree, p);
    if |p| < r {
      var longer := q[..|p| + 1];
      PrefixIsPath(tree, longer, q);
      PrunedPaths(tree, r - 1, longer);
      assert longer == p + [q[|p|]];
      HasIsMaximalPath(t, p);
    }
  }

  // ----- the part of a list from a coordinate on -----

  function From(bs: seq<Block>, y: int): seq<Block>
    requires Ordered(bs)
  {
    if bs == [] || y <= bs[0].start then bs
    else if bs[0].End() <= y then From(bs[1..], y)
    else Merging.DropTo(bs, y)
  }

  lemma {:induction false} FromSound(bs: seq<Block>, y: int)
    requires Ordered(bs) && Coalesced(bs)
    ensures var r := From(bs, y); Ordered(r) && Coalesced(r) && (r != [] ==> y <= r[0].start)
    ensures forall x :: Lookup(From(bs, y), x) == if x < y then None else Lookup(bs, x)
  {
    if bs == [] || y <= bs[0].start {
      forall x | x < y ensures Lookup(bs, x) == None { LookupBelow(bs, x); }
    } else if bs[0].End() <= y {
      FromSound(bs[1..], y);
    } else {
      DropCoalesced(bs, y);
    }
  }

  lemma DropCoalesced(bs: seq<Block>, y: int)
    requires Ordered(bs) && Coalesced(bs) && bs != [] && bs[0].start < y <= bs[0].End()
    ensures var r := Merging.DropTo(bs, y); Ordered(r) && Coalesced(r) && (r != [] ==> y <= r[0].start)
    ensures forall x :: Lookup(Merging.DropTo(bs, y), x) == if x < y then None else Lookup(bs, x)
  {
    var r := Merging.DropTo(bs, y);
    if y < bs[0].End() { assert r[1..] == bs[1..]; }
    forall x ensures Lookup(r, x) == if x < y then None else Lookup(bs, x) {
      Merging.DropLookup(bs, y, x);
      if x < y { LookupBelow(r, x); }
    }
  }

  /** A run of c coordinates from a on, with nothing between y and a. */
  ghost predicate RunAt(bs: seq<Block>, y: int, a: int, c: int, s: Tree) {
    && y <= a && c > 0
    && (forall x | y <= x < a :: Lookup(bs, x) == None)
    && (forall x | a <= x < a + c :: Lookup(bs, x) == Some(s))
  }

  /** Behind its first block a coalesced list goes on with another subtree, if at all. */
  lemma BehindFirst(f: seq<Block>)
    requires Ordered(f) && Coalesced(f) && f != []
    ensures Lookup(f, f[0].End()) != Some(f[0].sub)
  {
    var e := f[0].End();
    assert Lookup(f, e) == Lookup(f[1..], e);
    if |f| > 1 && f[1].start == e {
      assert Lookup(f[1..], e) == Some(f[1].sub);
    } else {
      LookupBelow(f[1..], e);
    }
  }

  /** A run at the front of a coalesced list lies within the first block. */
  lemma RunHead(f: seq<Block>, a: int, c: int, s: Tree)
    requires Ordered(f) && Coalesced(f) && c > 0
    requires forall x | x < a :: Lookup(f, x) == None
    requires forall x | a <= x < a + c :: Lookup(f, x) == Some(s)
    ensures f != [] && f[0].start == a && f[0].sub == s && c <= f[0].count
  {
    assert Lookup(f, a) == Some(s);
    assert Lookup(f, f[0].start) == Some(f[0].sub);
    if a < f[0].start { LookupBelow(f, a); }
    BehindFirst(f);
  }

  /** The run heads what remains from y on, and taking it leaves what remains behind it. */
  lemma Consume(bs: seq<Block>, y: int, a: int, c: int, s: Tree)
    requires Ordered(bs) && Coalesced(bs) && RunAt(bs, y, a, c, s)
    ensures var f := From(bs, y);
            && Ordered(f) && f != [] && f[0].start == a && f[0].sub == s && c <= f[0].count
            && Take(f, c) == From(bs, a + c)
  {
    hide From, Lookup, Ordered, Coalesced;
    FromSound(bs, y);
    FromSound(bs, a + c);
    var f := From(bs, y);
    RunHead(f, a, c, s);
    DropCoalesced(f, a + c);
    LookupDetermines(Take(f, c), From(bs, a + c));
  }

  lemma FromEmpty(bs: seq<Block>, y: int)
    requires Ordered(bs) && Coalesced(bs) && forall x | y <= x :: Lookup(bs, x) == None
    ensures From(bs, y) == []
  {
    FromSound(bs, y);
    SameDomainEmpty(From(bs, y));
  }

  lemma FromLevel(bs: seq<Block>, y: int, k: nat)
    requires Level(bs, k) && Coalesced(bs)
    ensures Level(From(bs, y), k)
  {
    FromSound(bs, y);
    UniformSubsLookup(bs, k);
    UniformSubsLookup(From(bs, y), k);
    FromSubs(bs, y);
  }

  lemma {:induction false} FromSubs(bs: seq<Block>, y: int)
    requires Ordered(bs) && CanonicalSubs(bs)
    ensures CanonicalSubs(From(bs, y))
  {
    if bs != [] && bs[0].start < y {
      if bs[0].End() <= y {
        FromSubs(bs[1..], y);
      } else {
        assert Merging.DropTo(bs, y)[1..] == bs[1..];
      }
    }
  }

  // ----- one whole copy of the pattern -----

  lemma {:induction false} TailLevel(bs: seq<Block>, j: nat, k: nat)
    requires Level(bs, k) && j <= |bs|
    ensures Level(bs[j..], k) && Depth(bs[j..]) <= Depth(bs)
  {
    if j > 0 {
      TailLevel(bs[1..], j - 1, k);
      assert bs[j..] == bs[1..][j - 1..];
    }
  }

  /** Where block j may start: behind its predecessor. */
  function Lower(bs: seq<Block>, j: nat): int
    requires j <= |bs|
  {
    if j == 0 then 0 else bs[j - 1].End()
  }

  lemma BlockRun(bs: seq<Block>, j: nat, x: int)
    requires Ordered(bs) && bs != [] && bs[0].start == 0 && j < |bs|
    ensures Lower(bs, j) <= bs[j].start
    ensures Lower(bs, j) <= x < bs[j].start ==> Lookup(bs, x) == None
    ensures bs[j].Covers(x) ==> Lookup(bs, x) == Some(bs[j].sub)
  {
    BlockLookup(bs, j, x);
    if j > 0 {
      OrderedTail(bs, j - 1);
      StartsAscend(bs[j - 1..], 1);
      BlockLookup(bs, j - 1, x);
    }
  }

  ghost predicate CopyAt(ps: seq<Block>, bs: seq<Block>, o: int, stride: int) {
    forall x | o <= x < o + stride :: Lookup(ps, x) == Lookup(bs, x - o)
  }

  lemma {:induction false} WholeCopy(ps: seq<Block>, bs: seq<Block>, j: nat, o: int, cycle: bool, k: nat)
    requires Level(ps, k) && Coalesced(ps) && Level(bs, k) && bs != [] && bs[0].start == 0 && j <= |bs|
    requires CopyAt(ps, bs, o, Lower(bs, |bs|))
    ensures Level(From(ps, o + Lower(bs, j)), k) && Level(From(ps, o + Lower(bs, |bs|)), k)
    ensures Level(bs[j..], k) && Depth(bs[j..]) <= Depth(bs) && Level(bs[|bs|..], k)
    ensures NrLoop(From(ps, o + Lower(bs, j)), bs[j..], bs, o, cycle, k)
         == Add(SizeOf(bs[j..]), NrLoop(From(ps, o + Lower(bs, |bs|)), bs[|bs|..], bs, o, cycle, k))
    decreases |bs| - j
  {
    hide NrLoop, From, CopyAt, RunAt, Ordered, CanonicalSubs, UniformSubs, Coalesced, SizeOf, Depth;
    FromLevel(ps, o + Lower(bs, j), k);
    FromLevel(ps, o + Lower(bs, |bs|), k);
    TailLevel(bs, j, k);
    TailLevel(bs, |bs|, k);
    if j == |bs| {
      NoSize();
      assert bs[j..] == [];
    } else {
      WholeCopy(ps, bs, j + 1, o, cycle, k);
      CopyRun(ps, bs, j, o);
      Consume(ps, o + Lower(bs, j), o + bs[j].start, bs[j].count, bs[j].sub);
      MatchBlock(ps, bs, j, o, cycle, k);
    }
  }

  lemma CopyRun(ps: seq<Block>, bs: seq<Block>, j: nat, o: int)
    requires Ordered(bs) && bs != [] && bs[0].start == 0 && j < |bs|
    requires CopyAt(ps, bs, o, Lower(bs, |bs|))
    ensures RunAt(ps, o + Lower(bs, j), o + bs[j].start, bs[j].count, bs[j].sub)
  {
    LowerBounds(bs, j);
    forall x | o + Lower(bs, j) <= x < o + bs[j].End()
      ensures x < o + bs[j].start ==> Lookup(ps, x) == None
      ensures o + bs[j].start <= x ==> Lookup(ps, x) == Some(bs[j].sub)
    {
      BlockRun(bs, j, x - o);
    }
    BlockRun(bs, j, 0);
  }

  lemma LowerBounds(bs: seq<Block>, j: nat)
    requires Ordered(bs) && bs != [] && bs[0].start == 0 && j < |bs|
    ensures 0 <= Lower(bs, j) && bs[j].End() <= Lower(bs, |bs|) && bs[j].count > 0
  {
    StartsAscend(bs, j);
    if j > 0 { StartsAscend(bs, j - 1); }
    OrderedTail(bs, j);
    StartsAscend(bs[j..], |bs| - 1 - j);
  }

  /** One step of the comparison when the run at the front covers pattern block j. */
  lemma MatchBlock(ps: seq<Block>, bs: seq<Block>, j: nat, o: int, cycle: bool, k: nat)
    requires Level(ps, k) && Coalesced(ps) && Level(bs, k) && bs != [] && j < |bs|
    requires var f := From(ps, o + Lower(bs, j));
             && Level(f, k) && f != [] && f[0].start == o + bs[j].start && f[0].sub == bs[j].sub
             && 0 < bs[j].count <= f[0].count && Take(f, bs[j].count) == From(ps, o + bs[j].End())
    requires Level(From(ps, o + bs[j].End()), k) && Level(bs[j..], k) && Level(bs[j + 1..], k)
    requires Depth(bs[j..]) <= Depth(bs) && Depth(bs[j + 1..]) <= Depth(bs)
    ensures NrLoop(From(ps, o + Lower(bs, j)), bs[j..], bs, o, cycle, k)
         == Add(bs[j].count * Size(bs[j].sub), NrLoop(From(ps, o + bs[j].End()), bs[j + 1..], bs, o, cycle, k))
    ensures SizeOf(bs[j..]) == bs[j].count * Size(bs[j].sub) + SizeOf(bs[j + 1..])
  {
    hide Level, From, Nr, Lookup;
    assert bs[j..][1..] == bs[j + 1..];
    SizeOfFirst(bs[j..]);
  }

  // ----- the cut copy at the end -----

  ghost predicate EndsLike(ps: seq<Block>, y: int, rb: seq<Block>) {
    forall x | y <= x :: Lookup(ps, x) == Lookup(rb, x)
  }

  /** What remains is a single block. */
  lemma OnlyBlock(ps: seq<Block>, y: int, b: Block)
    requires Ordered(ps) && Coalesced(ps) && EndsLike(ps, y, [b]) && y <= b.start && b.count > 0
    ensures From(ps, y) == [b]
  {
    FromSound(ps, y);
    assert [b][1..] == [];
    forall x ensures Lookup(From(ps, y), x) == Lookup([b], x) {
      LookupOne(b, x);
    }
    LookupDetermines(From(ps, y), [b]);
  }

  lemma OnlyCopies(rs: seq<Block>, all: seq<Block>, o: int, cycle: bool, k: nat, m: int)
    requires Level(rs, k) && Level(all, k) && all != [] && rs != [] && Depth(rs) <= Depth(all)
    requires 0 < m <= rs[0].count
    ensures var ps := [Block(o + rs[0].start, m, rs[0].sub)];
            Level(ps, k) && NrLoop(ps, rs, all, o, cycle, k) == Some(m * Size(rs[0].sub))
  {
    var b := Block(o + rs[0].start, m, rs[0].sub);
    assert [b][1..] == [];
    assert Canonical(b.sub);
    TakeLevel([b], m, k);
    assert Take([b], m) == [];
  }

  lemma OnlySubtree(rs: seq<Block>, all: seq<Block>, o: int, cycle: bool, k: nat, t: Tree)
    requires Level(rs, k) && Level(all, k) && all != [] && rs != [] && Depth(rs) <= Depth(all)
    requires Canonical(t) && Uniform(t, k) && t != rs[0].sub
    ensures var ps := [Block(o + rs[0].start, 1, t)];
            && Level(ps, k) && Canonical(rs[0].sub) && Uniform(rs[0].sub, k)
            && rs[0].sub != EMPTY && Rank(t).Some? && Rank(rs[0].sub).Some?
            && NrLoop(ps, rs, all, o, cycle, k) == Nr(t, rs[0].sub, false)
  {
    var b := Block(o + rs[0].start, 1, t);
    assert [b][1..] == [];
    NestedRanks(t, rs[0].sub, k);
  }

  lemma {:induction false} CutCopy(ps: seq<Block>, bs: seq<Block>, j: nat, o: int, rem: nat, cycle: bool, k: nat)
    requires Level(ps, k) && Coalesced(ps) && Level(bs, k) && bs != [] && bs[0].start == 0 && j < |bs|
    requires Level(bs[j..], k) && 0 < rem <= SizeOf(bs[j..]) && RemainderFits(bs[j..], rem)
    requires RemainderBlocks(bs[j..], o, rem).Success?
    requires EndsLike(ps, o + Lower(bs, j), RemainderBlocks(bs[j..], o, rem).value)
    ensures Level(From(ps, o + Lower(bs, j)), k) && Depth(bs[j..]) <= Depth(bs)
    ensures NrLoop(From(ps, o + Lower(bs, j)), bs[j..], bs, o, cycle, k) == Some(rem)
    decreases Depth(bs), 1, |bs| - j, 1
  {
    TailLevel(bs, j, k);
    FromLevel(ps, o + Lower(bs, j), k);
    SizePositive(bs[j].sub);
    if bs[j].count * Size(bs[j].sub) <= rem {
      CutCopyWhole(ps, bs, j, o, rem, cycle, k);
    } else {
      CutCopyLast(ps, bs, j, o, rem, cycle, k);
    }
  }

  /** The remainder goes past block j: the comparison takes the whole block and moves on. */
  lemma CutCopyWhole(ps: seq<Block>, bs: seq<Block>, j: nat, o: int, rem: nat, cycle: bool, k: nat)
    requires Level(ps, k) && Coalesced(ps) && Level(bs, k) && bs != [] && bs[0].start == 0 && j < |bs|
    requires Level(bs[j..], k) && 0 < rem <= SizeOf(bs[j..]) && RemainderFits(bs[j..], rem)
    requires RemainderBlocks(bs[j..], o, rem).Success?
    requires EndsLike(ps, o + Lower(bs, j), RemainderBlocks(bs[j..], o, rem).value)
    requires Level(From(ps, o + Lower(bs, j)), k) && Depth(bs[j..]) <= Depth(bs)
    requires bs[j].count * Size(bs[j].sub) <= rem
    ensures NrLoop(From(ps, o + Lower(bs, j)), bs[j..], bs, o, cycle, k) == Some(rem)
    decreases Depth(bs), 1, |bs| - j, 0
  {
    hide NrLoop, Nr, From, Ordered, CanonicalSubs, UniformSubs, Coalesced, Depth, RunAt, EndsLike, Size, SizeOf,
         RemainderBlocks, RemainderFits, Lookup;
    var rest := rem - bs[j].count * Size(bs[j].sub);
    var b := Block(bs[j].start + o, bs[j].count, bs[j].sub);
    assert bs[j..][1..] == bs[j + 1..];
    StartsAscend(bs, j);
    TailLevel(bs, j + 1, k);
    SizeOfFirst(bs[j..]);
    WholeFits(bs[j..], o, rem);
    var rb := RemainderBlocks(bs[j + 1..], o, rest).value;
    EndsAfter(ps, bs, j, o, b, rb);
    Consume(ps, o + Lower(bs, j), b.start, b.count, b.sub);
    FromLevel(ps, o + bs[j].End(), k);
    MatchBlock(ps, bs, j, o, cycle, k);
    if rest == 0 {
      NoRemainder(bs[j + 1..], o);
      EndsNowhere(ps, o + bs[j].End());
      EmptyLoop(bs[j + 1..], bs, o, cycle, k);
    } else {
      if j + 1 == |bs| { NoSize(); }
      CutCopy(ps, bs, j + 1, o, rest, cycle, k);
    }
  }

  lemma WholeFits(rs: seq<Block>, o: int, rem: nat)
    requires Ordered(rs) && CanonicalSubs(rs) && rs != [] && 0 < rem <= SizeOf(rs)
    requires RemainderFits(rs, rem) && RemainderBlocks(rs, o, rem).Success?
    requires rs[0].count * Size(rs[0].sub) <= rem
    ensures var b, r := Block(rs[0].start + o, rs[0].count, rs[0].sub),
                        RemainderBlocks(rs[1..], o, rem - rs[0].count * Size(rs[0].sub));
            && r.Success? && RemainderBlocks(rs, o, rem).value == [b] + r.value
            && Ordered([b] + r.value)
            && RemainderFits(rs[1..], rem - rs[0].count * Size(rs[0].sub))
  {
    hide Size, RemainderOk;
    RemainderSound(rs, o, rem);
    RemainderOrdered(rs, o, rem, RemainderBlocks(rs, o, rem).value);
  }

  lemma RemainderOrdered(rs: seq<Block>, o: int, rem: nat, rb: seq<Block>)
    requires rem <= |PointsOf(rs)| && RemainderOk(rs, o, rem, rb)
    ensures Ordered(rb)
  {
  }

  lemma EndsAfter(ps: seq<Block>, bs: seq<Block>, j: nat, o: int, b: Block, rb: seq<Block>)
    requires Ordered(bs) && bs != [] && bs[0].start == 0 && j < |bs| && Ordered([b] + rb)
    requires b == Block(bs[j].start + o, bs[j].count, bs[j].sub)
    requires EndsLike(ps, o + Lower(bs, j), [b] + rb)
    ensures RunAt(ps, o + Lower(bs, j), b.start, b.count, b.sub)
    ensures EndsLike(ps, o + bs[j].End(), rb)
  {
    var all := [b] + rb;
    assert all[1..] == rb;
    BlockRun(bs, j, 0);
    forall x | o + Lower(bs, j) <= x < b.start ensures Lookup(ps, x) == None {
      LookupBelow(all, x);
      assert Lookup(ps, x) == Lookup(all, x);
    }
  }

  lemma NoRemainder(bs: seq<Block>, o: int)
    requires Ordered(bs) && CanonicalSubs(bs)
    ensures RemainderBlocks(bs, o, 0) == Success([])
  {
  }

  lemma EndsNowhere(ps: seq<Block>, y: int)
    requires Ordered(ps) && Coalesced(ps) && EndsLike(ps, y, [])
    ensures From(ps, y) == []
  {
    FromEmpty(ps, y);
  }

  lemma EmptyLoop(rs: seq<Block>, all: seq<Block>, o: int, cycle: bool, k: nat)
    requires Level(rs, k) && Level(all, k) && all != [] && Depth(rs) <= Depth(all)
    ensures Level([], k) && NrLoop([], rs, all, o, cycle, k) == Some(0)
  {
  }

  /** The remainder ends in block j, in whole copies of its subtree or inside the first copy. */
  lemma CutCopyLast(ps: seq<Block>, bs: seq<Block>, j: nat, o: int, rem: nat, cycle: bool, k: nat)
    requires Level(ps, k) && Coalesced(ps) && Level(bs, k) && bs != [] && bs[0].start == 0 && j < |bs|
    requires Level(bs[j..], k) && 0 < rem <= SizeOf(bs[j..]) && RemainderFits(bs[j..], rem)
    requires RemainderBlocks(bs[j..], o, rem).Success?
    requires EndsLike(ps, o + Lower(bs, j), RemainderBlocks(bs[j..], o, rem).value)
    requires Level(From(ps, o + Lower(bs, j)), k) && Depth(bs[j..]) <= Depth(bs)
    requires 0 < Size(bs[j].sub) && rem < bs[j].count * Size(bs[j].sub)
    ensures NrLoop(From(ps, o + Lower(bs, j)), bs[j..], bs, o, cycle, k) == Some(rem)
    decreases Depth(bs), 1, |bs| - j, 0
  {
    hide NrLoop, Nr, From, Coalesced, Depth, EndsLike, RemainderBlocks, RemainderFits, Replicable, Replicate, Size;
    var rs, size := bs[j..], Size(bs[j].sub);
    var y := o + Lower(bs, j);
    SubCanonical(bs, j);
    BlockRun(bs, j, 0);
    CutCases(rs, o, rem);
    Quotient(rem, size, bs[j].count);
    if rem % size == 0 {
      var m := rem / size;
      OnlyBlock(ps, y, Block(rs[0].start + o, m, rs[0].sub));
      OnlyCopies(rs, bs, o, cycle, k, m);
    } else {
      var t := Replicate(rs[0].sub, rem).value;
      OnlyBlock(ps, y, Block(rs[0].start + o, 1, t));
      RankIsUniform(rs[0].sub, k);
      EmptySize();
      ReplicaRecognised(rs[0].sub, rem, false);
      RankIsUniform(t, k);
      OnlySubtree(rs, bs, o, cycle, k, t);
    }
  }

  lemma EmptySize()
    ensures Size(EMPTY) == 1
  {
  }

  // ----- recognising what the pattern constructor builds -----

  /** The children of a replica: rep copies of bs, then rb. */
  ghost predicate ReplicaOf(ps: seq<Block>, bs: seq<Block>, stride: int, rep: nat, rb: seq<Block>) {
    && (forall i: nat | i < rep :: CopyAt(ps, bs, i * stride, stride))
    && EndsLike(ps, rep * stride, rb)
  }

  lemma {:induction false} ShiftLookup(bs: seq<Block>, o: int, x: int)
    ensures Lookup(ShiftBlocks(bs, o), x) == Lookup(bs, x - o)
  {
    if bs != [] {
      ShiftLookup(bs[1..], o, x);
      assert ShiftBlocks(bs, o)[1..] == ShiftBlocks(bs[1..], o);
    }
  }

  lemma {:induction false} CopiesLookup(bs: seq<Block>, stride: int, rep: nat, i: nat, x: int)
    requires Within(bs, 0, stride) && stride >= 0
    ensures i < rep && i * stride <= x < i * stride + stride
            ==> Lookup(CopyBlocks(bs, stride, rep), x) == Lookup(bs, x - i * stride)
    ensures rep * stride <= x ==> Lookup(CopyBlocks(bs, stride, rep), x) == None
  {
    if rep > 0 {
      var last := ShiftBlocks(bs, (rep - 1) * stride);
      CopiesLookup(bs, stride, rep - 1, i, x);
      LookupAppend(CopyBlocks(bs, stride, rep - 1), last, x);
      ShiftLookup(bs, (rep - 1) * stride, x);
      assert rep * stride == (rep - 1) * stride + stride;
      WithinLookup(bs, 0, stride, x - (rep - 1) * stride);
      if i < rep - 1 {
        Monotone(i + 1, rep - 1, stride);
        assert (i + 1) * stride == i * stride + stride;
      }
    }
  }

  lemma {:induction false} WithinLookup(bs: seq<Block>, lo: int, hi: int, x: int)
    requires Within(bs, lo, hi)
    ensures x < lo || hi <= x ==> Lookup(bs, x) == None
  {
    if bs != [] { WithinLookup(bs[1..], bs[0].End(), hi, x); }
  }

  lemma ReplicaLookup(bs: seq<Block>, stride: int, rep: nat, rb: seq<Block>, ps: seq<Block>)
    requires Within(bs, 0, stride) && stride >= 0 && Ordered(rb) && (rb != [] ==> rb[0].start == rep * stride)
    requires forall x :: Lookup(ps, x) == Lookup(CopyBlocks(bs, stride, rep) + rb, x)
    ensures ReplicaOf(ps, bs, stride, rep, rb)
  {
    forall i: nat | i < rep ensures CopyAt(ps, bs, i * stride, stride) {
      Monotone(i + 1, rep, stride);
      assert (i + 1) * stride == i * stride + stride;
      forall x | i * stride <= x < i * stride + stride ensures Lookup(ps, x) == Lookup(bs, x - i * stride) {
        LookupAppend(CopyBlocks(bs, stride, rep), rb, x);
        CopiesLookup(bs, stride, rep, i, x);
        LookupBelow(rb, x);
      }
    }
    forall x | rep * stride <= x ensures Lookup(ps, x) == Lookup(rb, x) {
      LookupAppend(CopyBlocks(bs, stride, rep), rb, x);
      CopiesLookup(bs, stride, rep, 0, x);
    }
  }

  lemma OneMore(c: int, n: int)
    ensures c * n == n + (c - 1) * n
  {
  }

  lemma Restart(ps: seq<Block>, bs: seq<Block>, o: int, k: nat)
    requires Level(ps, k) && Level(bs, k) && Level([], k) && bs != [] && ps != [] && Depth([]) <= Depth(bs)
    ensures NrLoop(ps, [], bs, o, true, k) == NrLoop(ps, bs, bs, ps[0].start, true, k)
  {
  }

  /** The comparison from copy i on. */
  lemma {:induction false} CopiesRecognised(ps: seq<Block>, bs: seq<Block>, rep: nat, rem: nat, i: nat, cycle: bool,
                                            k: nat)
    requires Level(ps, k) && Coalesced(ps) && Level(bs, k) && bs != [] && bs[0].start == 0 && i <= rep
    requires rem < SizeOf(bs) && RemainderFits(bs, rem) && (i < rep || 0 < rem) && (rep > 0 ==> cycle)
    requires var o := rep * Lower(bs, |bs|);
             && RemainderBlocks(bs, o, rem).Success?
             && ReplicaOf(ps, bs, Lower(bs, |bs|), rep, RemainderBlocks(bs, o, rem).value)
    ensures var o := i * Lower(bs, |bs|);
            && Level(From(ps, o), k)
            && NrLoop(From(ps, o), bs, bs, o, cycle, k) == Some((rep - i) * SizeOf(bs) + rem)
    decreases Depth(bs), 2, rep - i, 0
  {
    hide NrLoop, Nr, From, Ordered, CanonicalSubs, UniformSubs, Coalesced, Depth, SizeOf, RemainderBlocks,
         RemainderFits, Lookup, CopyAt;
    var stride := Lower(bs, |bs|);
    var o, next := i * stride, (i + 1) * stride;
    OneMore(i + 1, stride);
    assert bs[0..] == bs && o + Lower(bs, 0) == o;
    FromLevel(ps, o, k);
    if i == rep {
      CutCopy(ps, bs, 0, o, rem, cycle, k);
    } else {
      assert CopyAt(ps, bs, o, stride);
      WholeCopy(ps, bs, 0, o, cycle, k);
      FromLevel(ps, next, k);
      TailLevel(bs, |bs|, k);
      assert bs[|bs|..] == [];
      if i + 1 == rep && rem == 0 {
        NoRemainder(bs, next);
        EndsNowhere(ps, next);
        EmptyLoop([], bs, o, cycle, k);
      } else {
        CopiesRecognised(ps, bs, rep, rem, i + 1, cycle, k);
        RestartsAt(ps, bs, rep, rem, i + 1);
        Restart(From(ps, next), bs, o, k);
      }
      OneMore(rep - i, SizeOf(bs));
    }
  }

  /** The next copy starts right at its offset. */
  lemma RestartsAt(ps: seq<Block>, bs: seq<Block>, rep: nat, rem: nat, i: nat)
    requires Ordered(ps) && Coalesced(ps) && Ordered(bs) && CanonicalSubs(bs) && bs != [] && bs[0].start == 0
    requires i <= rep && rem < SizeOf(bs) && RemainderFits(bs, rem) && (i < rep || 0 < rem)
    requires var o := rep * Lower(bs, |bs|);
             && RemainderBlocks(bs, o, rem).Success?
             && ReplicaOf(ps, bs, Lower(bs, |bs|), rep, RemainderBlocks(bs, o, rem).value)
    ensures var o := i * Lower(bs, |bs|); From(ps, o) != [] && From(ps, o)[0].start == o
  {
    hide From, RemainderBlocks, RemainderFits, CanonicalSubs, Coalesced, RemainderOk;
    var stride := Lower(bs, |bs|);
    var o := i * stride;
    LowerBounds(bs, 0);
    BlockLookup(bs, 0, 0);
    if i < rep {
      assert CopyAt(ps, bs, o, stride);
      assert Lookup(ps, o) == Lookup(bs, o - o);
    } else {
      var rb := RemainderBlocks(bs, o, rem).value;
      RemainderSound(bs, o, rem);
      RemainderStart(bs, o, rem, rb);
      assert Lookup(ps, o) == Lookup(rb, o);
    }
    FromSound(ps, o);
    var f := From(ps, o);
    assert Lookup(f, o).Some?;
    if o < f[0].start { LookupBelow(f, o); }
  }

  lemma RemainderStart(bs: seq<Block>, o: int, rem: nat, rb: seq<Block>)
    requires bs != [] && 0 < rem <= |PointsOf(bs)| && RemainderOk(bs, o, rem, rb)
    ensures rb != [] && rb[0].start == bs[0].start + o && Lookup(rb, bs[0].start + o).Some?
  {
    assert PointsOf([]) == [] && |PointsOf(rb)| == rem;
  }

  lemma {:induction false} MaxEndLast(bs: seq<Block>)
    requires Ordered(bs) && bs != []
    ensures MaxEnd(bs) == Lower(bs, |bs|)
  {
    RangeOfOrdered(bs);
    if |bs| > 1 { MaxEndLast(bs[1..]); }
  }

  lemma UniformPruned(t: Tree, r: nat)
    requires Canonical(t) && Uniform(t, r) && r > 0
    ensures Pruned(t, r - 1) == t
  {
    hide Pruned, Canonical, Has;
    forall p ensures Path(Pruned(t, r - 1), p) <==> Path(t, p) {
      PrunedPaths(t, r - 1, p);
      if Path(t, p) {
        var q := ExtendPath(t, p);
      }
    }
    EqualIffSamePaths(Pruned(t, r - 1), t);
  }

  lemma InCycle(ps: seq<Point>, stride: int, num: nat, r: nat, p: Point)
    requires ps != [] && (forall q | q in ps :: |q| == r) && p in Cycle(ps, stride, num)
    ensures |p| == r
  {
    var k :| 0 <= k < num && Cycle(ps, stride, num)[k] == p;
    assert ps[k % |ps|] in ps;
  }

  lemma ReplicaUniform(pattern: Tree, stride: int, num: nat, t: Tree, r: nat)
    requires Canonical(pattern) && Canonical(t) && Uniform(pattern, r) && num > 0
    requires Points(pattern) != [] && PointsOf(t.children) == Cycle(Points(pattern), stride, num)
    ensures t != EMPTY && Uniform(t, r) && Size(t) == num
  {
    hide Points, PointsOf, Canonical, Has, Cycle, Increasing, SizeOf;
    NoPoints();
    PointsOfLength(t.children);
    PointsOfTree(t);
    PointsEnumerate(pattern);
    PointsEnumerate(t);
    forall p | Has(t, p) ensures |p| == r {
      InCycle(Points(pattern), stride, num, r, p);
    }
  }

  lemma NoPoints()
    ensures PointsOf([]) == []
  {
  }

  lemma PointsOfTree(t: Tree)
    requires t != EMPTY
    ensures Points(t) == PointsOf(t.children)
  {
  }

  /** One unfolding of the constructor and of its success condition. */
  lemma Unfold(pattern: Tree, num: nat, rep: nat, rem: nat)
    requires Canonical(pattern) && pattern != EMPTY && Size(pattern) > 0
    requires rep == num / Size(pattern) && rem == num % Size(pattern)
    requires Replicate(pattern, num).Success? && Replicable(pattern, num)
    ensures var bs, stride := pattern.children, MaxEnd(pattern.children);
            var r := RemainderBlocks(bs, rep * stride, rem);
            && MinStart(bs) == 0 && r.Success? && RemainderFits(bs, rem)
            && Make(CopyBlocks(bs, stride, rep) + r.value) == Success(Replicate(pattern, num).value)
  {
    hide Size, RemainderBlocks, RemainderFits, CopyBlocks, Compact, MaxEnd, MinStart, Coalesced, CanonicalSubs, Ordered;
  }

  /** Taking the constructor apart, for a replica that was built. */
  lemma ReplicaParts(pattern: Tree, num: nat, rep: nat, rem: nat)
    requires Canonical(pattern) && pattern != EMPTY && Size(pattern) > 0 && Replicate(pattern, num).Success?
    requires rep == num / Size(pattern) && rem == num % Size(pattern)
    ensures Canonical(Replicate(pattern, num).value)
    ensures var bs, stride := pattern.children, Lower(pattern.children, |pattern.children|);
            var ps, r := Replicate(pattern, num).value.children, RemainderBlocks(bs, rep * stride, rem);
            && bs[0].start == 0 && r.Success? && RemainderFits(bs, rem) && ReplicaOf(ps, bs, stride, rep, r.value)
            && From(ps, 0) == ps
  {
    hide Size, SizeOf, Canonical, RemainderBlocks, RemainderFits, Coalesced, CanonicalSubs, Ordered, Within, Compact,
         Cycle, RemainderOk, Lookup, From, ReplicaOf, CopyBlocks, Lower, Replicate, Replicable;
    var bs, t := pattern.children, Replicate(pattern, num).value;
    ReplicateSound(pattern, num);
    Unfold(pattern, num, rep, rem);
    CanonicalParts(pattern);
    MaxEndLast(bs);
    RangeOfOrdered(bs);
    SizeOfTree(pattern);
    PartsAt(bs, MaxEnd(bs), rep, rem, t);
  }

  lemma PartsAt(bs: seq<Block>, stride: int, rep: nat, rem: nat, t: Tree)
    requires Ordered(bs) && CanonicalSubs(bs) && bs != [] && bs[0].start == 0 && stride == MaxEnd(bs)
    requires rem < SizeOf(bs) && RemainderFits(bs, rem) && RemainderBlocks(bs, rep * stride, rem).Success?
    requires Make(CopyBlocks(bs, stride, rep) + RemainderBlocks(bs, rep * stride, rem).value) == Success(t)
    requires Canonical(t)
    ensures Ordered(t.children) && ReplicaOf(t.children, bs, stride, rep, RemainderBlocks(bs, rep * stride, rem).value)
    ensures From(t.children, 0) == t.children
  {
    hide RemainderBlocks, RemainderFits, Coalesced, CanonicalSubs, Ordered, Within, Compact,
         RemainderOk, From, ReplicaOf, CopyBlocks;
    RangeOfOrdered(bs);
    OrderedWithin(bs, 0);
    CopiesWithin(bs, stride, rep);
    RemainderSound(bs, rep * stride, rem);
    var rb := RemainderBlocks(bs, rep * stride, rem).value;
    RemainderShape(bs, rep * stride, rem, rb);
    CanonicalParts(t);
    ReplicaShape(bs, stride, rep, rb, t.children);
  }

  lemma ReplicaShape(bs: seq<Block>, stride: int, rep: nat, rb: seq<Block>, ps: seq<Block>)
    requires Within(bs, 0, stride) && stride >= 0 && CanonicalSubs(bs) && CanonicalSubs(rb)
    requires Ordered(rb) && (rb != [] ==> rb[0].start == rep * stride)
    requires Make(CopyBlocks(bs, stride, rep) + rb) == Success(Tree(ps)) && Ordered(ps)
    ensures ReplicaOf(ps, bs, stride, rep, rb) && From(ps, 0) == ps
  {
    hide CanonicalSubs, Ordered, Within, Compact, ReplicaOf, From, CopyBlocks;
    var copies := CopyBlocks(bs, stride, rep);
    CopiesWithin(bs, stride, rep);
    ReplicaOrdered(copies, rb, rep * stride);
    SubsAppend(copies, rb);
    CompactOrdered(copies + rb);
    ReplicaLookup(bs, stride, rep, rb, ps);
    StartsAtZero(copies, rb, rep * stride, ps);
  }

  lemma SizeOfTree(t: Tree)
    requires t != EMPTY
    ensures Size(t) == SizeOf(t.children)
  {
  }

  lemma RemainderShape(bs: seq<Block>, o: int, rem: nat, rb: seq<Block>)
    requires rem <= |PointsOf(bs)| && RemainderOk(bs, o, rem, rb)
    ensures Ordered(rb) && (rb != [] ==> bs != [] && rb[0].start == bs[0].start + o)
  {
  }

  lemma StartsAtZero(copies: seq<Block>, rb: seq<Block>, mid: int, ps: seq<Block>)
    requires Within(copies, 0, mid) && mid >= 0 && Ordered(rb) && (rb != [] ==> rb[0].start == mid)
    requires Ordered(ps) && forall x :: Lookup(ps, x) == Lookup(copies + rb, x)
    ensures From(ps, 0) == ps
  {
    if ps != [] && ps[0].start < 0 {
      var x := ps[0].start;
      assert Lookup(ps, x).Some?;
      LookupAppend(copies, rb, x);
      WithinLookup(copies, 0, mid, x);
      LookupBelow(rb, x);
    }
  }

  /** `num_repeats` recognises exactly num points in what the pattern constructor builds for num. */
  lemma {:induction false} ReplicaRecognised(pattern: Tree, num: nat, cycle: bool)
    requires Canonical(pattern) && pattern != EMPTY && Rank(pattern).Some?
    requires Replicate(pattern, num).Success? && num > 0 && (cycle || num < Size(pattern))
    ensures var t := Replicate(pattern, num).value;
            && Canonical(t) && Size(t) == num && Rank(t) == Rank(pattern)
            && Nr(t, pattern, cycle) == Some(num)
    decreases Depth(pattern.children), 4, 0, 0
  {
    hide Size, Canonical, Replicate, Pruned, Coalesced, CanonicalSubs, UniformSubs, Ordered, NrLoop, From, Rank,
         RemainderBlocks, RemainderFits, Cycle, Replicable, ReplicaOf, MaxEnd, Has;
    var bs, t := pattern.children, Replicate(pattern, num).value;
    SizePositive(pattern);
    SizeOfTree(pattern);
    var r := Rank(pattern).value;
    RankIsUniform(pattern, r);
    PatternLevel(pattern);
    ReplicateSound(pattern, num);
    ReplicaUniform(pattern, MaxEnd(bs), num, t, r);
    RankIsUniform(t, r);
    PrunedLevel(t, r);
    UniformPruned(t, r);
    CanonicalParts(t);
    ReplicaStart(pattern, num);
    ReplicaLoop(pattern, num, cycle, r - 1);
  }

  lemma ReplicaStart(pattern: Tree, num: nat)
    requires Canonical(pattern) && pattern != EMPTY && Replicate(pattern, num).Success?
    ensures MinStart(pattern.children) == 0
  {
  }

  lemma ReplicaLoop(pattern: Tree, num: nat, cycle: bool, k: nat)
    requires Canonical(pattern) && pattern != EMPTY && Level(pattern.children, k) && Size(pattern) > 0
    requires Size(pattern) == SizeOf(pattern.children)
    requires Replicate(pattern, num).Success? && num > 0 && (cycle || num < Size(pattern))
    requires var t := Replicate(pattern, num).value; Level(t.children, k) && Coalesced(t.children)
    ensures NrLoop(Replicate(pattern, num).value.children, pattern.children, pattern.children, 0, cycle, k)
         == Some(num)
    decreases Depth(pattern.children), 3, 0, 0
  {
    hide Size, SizeOf, Canonical, Replicate, Coalesced, CanonicalSubs, UniformSubs, Ordered, NrLoop, From,
         RemainderBlocks, RemainderFits, ReplicaOf;
    var bs, n := pattern.children, Size(pattern);
    var rep, rem := num / n, num % n;
    ReplicaParts(pattern, num, rep, rem);
    Division(num, n, rep, rem);
    LoopOfCopies(Replicate(pattern, num).value.children, bs, num, rep, rem, cycle, k);
  }

  lemma Division(num: nat, n: nat, rep: nat, rem: nat)
    requires n > 0 && rep == num / n && rem == num % n
    ensures num == rep * n + rem && rem < n
    ensures num < n ==> rep == 0
  {
    if rep > 0 { MulAtLeast(rep, n); }
  }

  lemma LoopOfCopies(ps: seq<Block>, bs: seq<Block>, num: nat, rep: nat, rem: nat, cycle: bool, k: nat)
    requires Level(ps, k) && Coalesced(ps) && Level(bs, k) && bs != [] && bs[0].start == 0
    requires rem < SizeOf(bs) && RemainderFits(bs, rem) && (0 < rep || 0 < rem) && (rep > 0 ==> cycle)
    requires num == rep * SizeOf(bs) + rem && From(ps, 0) == ps
    requires var o := rep * Lower(bs, |bs|);
             && RemainderBlocks(bs, o, rem).Success?
             && ReplicaOf(ps, bs, Lower(bs, |bs|), rep, RemainderBlocks(bs, o, rem).value)
    ensures NrLoop(ps, bs, bs, 0, cycle, k) == Some(num)
    decreases Depth(bs), 2, rep + 1, 0
  {
    hide Level, NrLoop, From, SizeOf, RemainderBlocks, RemainderFits, ReplicaOf;
    CopiesRecognised(ps, bs, rep, rem, 0, cycle, k);
    assert 0 * Lower(bs, |bs|) == 0;
  }

  // ----- the loops of the original -----

  /** What the loops still have to add, given the cursor into the tree's blocks. */
  ghost predicate NrInv(pch: seq<Block>, p: Merging.Cursor, rs: seq<Block>, all: seq<Block>, i0: int, cycle: bool,
                        k: nat, result: nat, total: Option<nat>) {
    && p.at <= |pch| && (p.at < |pch| ==> p.count > 0)
    && Level(Merging.Rest(pch, p), k) && Level(rs, k) && Level(all, k) && all != [] && Depth(rs) <= Depth(all)
    && Add(result, NrLoop(Merging.Rest(pch, p), rs, all, i0, cycle, k)) == total
  }

  ghost function Left(pch: seq<Block>, p: Merging.Cursor): nat
    requires p.at <= |pch|
  {
    var c := TotalCount(Merging.Rest(pch, p));
    if c < 0 then 0 else c
  }

  /** Where the cursor goes when m coordinates of its block are taken. */
  function Moved(pch: seq<Block>, p: Merging.Cursor, m: int): Merging.Cursor
    requires p.at < |pch|
  {
    if m == p.count then Merging.Load(pch, p.at + 1, Merging.Trim(p, m)) else Merging.Trim(p, m)
  }

  lemma MovedRest(pch: seq<Block>, p: Merging.Cursor, m: int)
    requires p.at < |pch| && 0 < m <= p.count && Ordered(Merging.Rest(pch, p))
    ensures var ps, q := Merging.Rest(pch, p), Moved(pch, p, m);
            && ps != [] && ps[0] == Block(p.start, p.count, p.sub)
            && q.at <= |pch| && (q.at < |pch| ==> q.count > 0)
            && Merging.Rest(pch, q) == Take(ps, m)
  {
    Merging.TrimRest(pch, p, m);
    if m == p.count { Merging.UsedUp(pch, Merging.Trim(p, m)); }
  }

  lemma NrMatch(pch: seq<Block>, p: Merging.Cursor, q: Merging.Cursor, rs: seq<Block>, all: seq<Block>, i0: int,
                cycle: bool, k: nat, m: nat, gain: nat, result: nat, total: Option<nat>)
    requires p.at < |pch| && rs != [] && m > 0
    requires rs[0].start + i0 == p.start && rs[0].sub == p.sub && rs[0].count > 0 && p.count > 0
    requires m == Min(rs[0].count, p.count) && q == Moved(pch, p, m) && q.at <= |pch|
    requires gain == m * Size(rs[0].sub)
    requires NrInv(pch, p, rs, all, i0, cycle, k, result, total)
    ensures Left(pch, q) < Left(pch, p)
    ensures NrInv(pch, q, rs[1..], all, i0, cycle, k, result + gain, total)
  {
    hide Nr, NrLoop, UniformSubs, CanonicalSubs, Ordered, Size, Depth, TotalCount, Merging.Rest, Moved;
    var ps := Merging.Rest(pch, p);
    MovedRest(pch, p, m);
    TakeLevel(ps, m, k);
    TotalCountPositive(ps);
    TotalCountPositive(Take(ps, m));
    TailLevel(rs, 1, k);
    MatchStep(ps, rs, all, i0, cycle, k, m);
  }

  lemma MatchStep(ps: seq<Block>, rs: seq<Block>, all: seq<Block>, i0: int, cycle: bool, k: nat, m: int)
    requires Level(ps, k) && Level(rs, k) && Level(all, k) && all != [] && Depth(rs) <= Depth(all)
    requires ps != [] && rs != [] && rs[0].start + i0 == ps[0].start && rs[0].sub == ps[0].sub
    requires m == Min(rs[0].count, ps[0].count) && m > 0 && Level(Take(ps, m), k)
    requires Level(rs[1..], k) && Depth(rs[1..]) <= Depth(all)
    ensures NrLoop(ps, rs, all, i0, cycle, k)
         == Add(m * Size(rs[0].sub), NrLoop(Take(ps, m), rs[1..], all, i0, cycle, k))
  {
    hide Nr, Level, Size, Depth;
  }

  lemma NrMismatch(pch: seq<Block>, p: Merging.Cursor, rs: seq<Block>, all: seq<Block>, i0: int, cycle: bool,
                   k: nat, result: nat, total: Option<nat>)
    requires NrInv(pch, p, rs, all, i0, cycle, k, result, total) && p.at < |pch| && rs != []
    requires rs[0].start + i0 != p.start || rs[0].sub != p.sub
    ensures rs[0].start + i0 != p.start ==> total == None
    ensures rs[0].start + i0 == p.start && p.at + 1 < |pch| ==> total == None
    ensures rs[0].start + i0 == p.start && p.at + 1 == |pch| ==>
              && Canonical(p.sub) && Canonical(rs[0].sub) && rs[0].sub != EMPTY
              && Rank(p.sub).Some? && Rank(rs[0].sub).Some?
              && Depth(rs[0].sub.children) < Depth(all)
              && total == Add(result, Nr(p.sub, rs[0].sub, false))
  {
    hide Nr, Depth;
    var ps := Merging.Rest(pch, p);
    assert ps[0] == Block(p.start, p.count, p.sub) && ps[1..] == pch[p.at + 1..];
    if rs[0].sub != p.sub { NestedRanks(p.sub, rs[0].sub, k); }
    DepthHead(rs);
  }

  /** The nested comparison has used up the tree's last block. */
  lemma NrNested(pch: seq<Block>, p: Merging.Cursor, pi: int, pn: int, pt: Tree, rs: seq<Block>, all: seq<Block>,
                 i0: int, cycle: bool, k: nat, result: nat, total: Option<nat>)
    requires Level(rs, k) && Level(all, k) && all != [] && rs != [] && Depth(rs) <= Depth(all)
    requires p.at + 1 == |pch| && total == Some(result) && p.count > 0 && Ordered(Merging.Rest(pch, p))
    ensures NrInv(pch, Merging.Cursor(p.at + 1, pi, pn, pt), rs[1..], all, i0, cycle, k, result, total)
    ensures Ordered(Merging.Rest(pch, Merging.Cursor(p.at + 1, pi, pn, pt)))
    ensures Left(pch, Merging.Cursor(p.at + 1, pi, pn, pt)) < Left(pch, p)
  {
    hide Nr;
    TailLevel(rs, 1, k);
    TotalCountPositive(Merging.Rest(pch, p));
  }

  lemma NrRestart(pch: seq<Block>, p: Merging.Cursor, all: seq<Block>, i0: int, cycle: bool,
                  k: nat, result: nat, total: Option<nat>)
    requires NrInv(pch, p, [], all, i0, cycle, k, result, total)
    ensures p.at < |pch| && !cycle ==> total == None
    ensures p.at < |pch| && cycle ==> NrInv(pch, p, all, all, p.start, cycle, k, result, total)
  {
    hide Nr;
  }

  lemma NrDone(pch: seq<Block>, p: Merging.Cursor, rs: seq<Block>, all: seq<Block>, i0: int, i1: int, cycle: bool,
               k: nat, result: nat, total: Option<nat>)
    requires NrInv(pch, p, rs, all, i0, cycle, k, result, total)
    ensures Level(rs, k) && Level(all, k) && Depth(rs) <= Depth(all)
    ensures p.at <= |pch| && (p.at < |pch| ==> p.count > 0) && Ordered(Merging.Rest(pch, p))
    ensures rs != [] ==> rs[0].count > 0
    ensures p.at < |pch| ==> Left(pch, p) > 0
    ensures p.at == |pch| ==> total == Some(result) && NrInv(pch, p, all, all, i1, cycle, k, result, total)
  {
    hide Nr;
    TotalCountPositive(Merging.Rest(pch, p));
  }

  lemma NrStart(tree: Tree, pattern: Tree, cycle: bool)
    requires Canonical(tree) && Canonical(pattern) && pattern != EMPTY
    requires Rank(tree).Some? && Rank(pattern).Some? && Rank(pattern).value <= Rank(tree).value
    ensures Rank(pattern).value > 0
    ensures var k := Rank(pattern).value - 1;
            var pch := Pruned(tree, k).children;
            pch != [] && NrInv(pch, Merging.Cursor(0, pch[0].start, pch[0].count, pch[0].sub),
                               pattern.children, pattern.children, MinStart(pattern.children), cycle,
                               k, 0, Nr(tree, pattern, cycle))
  {
    hide Pruned, UniformSubs, CanonicalSubs, Canonical, NrLoop;
    PatternLevel(pattern);
    PrunedLevel(tree, Rank(pattern).value);
    var pch := Pruned(tree, Rank(pattern).value - 1).children;
    assert Merging.Rest(pch, Merging.Cursor(0, pch[0].start, pch[0].count, pch[0].sub)) == pch;
  }

  method NumRepeatsLoop(tree: Tree, pattern: Tree, cycle: bool) returns (r: Option<nat>)
    requires Canonical(tree) && Canonical(pattern) && pattern != EMPTY
    requires Rank(tree).Some? && Rank(pattern).Some?
    ensures r == Nr(tree, pattern, cycle)
    decreases Depth(pattern.children)
  {
    hide NrInv, Nr, NrLoop, Left, Level, Ordered, Pruned, Canonical, Rank, Depth, Size, MinStart;
    hide Merging.Rest;
    ghost var total := Nr(tree, pattern, cycle);
    if Rank(pattern).value > Rank(tree).value {
      RankTooHigh(tree, pattern, cycle);
      return None;
    }
    NrStart(tree, pattern, cycle);
    ghost var k := Rank(pattern).value - 1;
    var pch, rch := Pruned(tree, Rank(pattern).value - 1).children, pattern.children;
    var result: nat;
    var i0, pIter;
    i0, result, pIter := MinStart(rch), 0, 0;
    var Block(pi, pn, pt) := pch[0];
    NrDone(pch, Merging.Cursor(pIter, pi, pn, pt), rch, rch, i0, i0, cycle, k, result, total);
    while pIter != |pch|
      invariant pIter <= |pch| && Ordered(Merging.Rest(pch, Merging.Cursor(pIter, pi, pn, pt)))
      invariant NrInv(pch, Merging.Cursor(pIter, pi, pn, pt), rch, rch, i0, cycle, k, result, total)
      decreases Left(pch, Merging.Cursor(pIter, pi, pn, pt))
    {
      var rIter := 0;
      ghost var before := Left(pch, Merging.Cursor(pIter, pi, pn, pt));
      NrDone(pch, Merging.Cursor(pIter, pi, pn, pt), rch, rch, i0, i0, cycle, k, result, total);
      assert rch[0..] == rch;
      while pIter != |pch| && rIter != |rch|
        invariant rIter <= |rch| && pIter <= |pch| && Ordered(Merging.Rest(pch, Merging.Cursor(pIter, pi, pn, pt)))
        invariant NrInv(pch, Merging.Cursor(pIter, pi, pn, pt), rch[rIter..], rch, i0, cycle, k, result, total)
        invariant Left(pch, Merging.Cursor(pIter, pi, pn, pt)) < before
                  || (rIter == 0 && pIter < |pch| && Left(pch, Merging.Cursor(pIter, pi, pn, pt)) == before)
        decreases |rch| - rIter
      {
        ghost var rs := rch[rIter..];
        assert rs[0] == rch[rIter] && rs[1..] == rch[rIter + 1..];
        ghost var p := Merging.Cursor(pIter, pi, pn, pt);
        NrDone(pch, p, rs, rch, i0, i0, cycle, k, result, total);
        var Block(i, n, t) := rch[rIter];
        if i + i0 != pi {
          NrMismatch(pch, p, rs, rch, i0, cycle, k, result, total);
          return None;
        } else if t == pt {
          var m := Min(n, pn);
          ghost var q := Moved(pch, p, m);
          NrMatch(pch, p, q, rs, rch, i0, cycle, k, m, m * Size(t), result, total);
          result := result + m * Size(t);
          pi := pi + m;
          pn := pn - m;
          if pn == 0 {
            pIter := pIter + 1;
            if pIter != |pch| { var Block(start, count, sub) := pch[pIter]; pi, pn, pt := start, count, sub; }
          }
          NrDone(pch, Merging.Cursor(pIter, pi, pn, pt), rs[1..], rch, i0, i0, cycle, k, result, total);
          rIter := rIter + 1;
        } else {
          NrMismatch(pch, p, rs, rch, i0, cycle, k, result, total);
          pIter := pIter + 1;
          if pIter != |pch| { return None; }
          var chnr := NumRepeatsLoop(pt, t, false);
          if chnr.Some? { result := result + chnr.value; } else { return None; }
          NrNested(pch, p, pi, pn, pt, rs, rch, i0, cycle, k, result, total);
          NrDone(pch, Merging.Cursor(pIter, pi, pn, pt), rs[1..], rch, i0, i0, cycle, k, result, total);
          rIter := rIter + 1;
        }
      }
      if pIter == |pch| {
        NrDone(pch, Merging.Cursor(pIter, pi, pn, pt), rch[rIter..], rch, i0, pi, cycle, k, result, total);
      } else {
        assert rch[rIter..] == [];
        NrRestart(pch, Merging.Cursor(pIter, pi, pn, pt), rch, i0, cycle, k, result, total);
      }
      i0 := pi;
      if !cycle && pIter != |pch| && rIter == |rch| { return None; }
    }
    NrDone(pch, Merging.Cursor(pIter, pi, pn, pt), rch, rch, i0, i0, cycle, k, result, total);
    r := Some(result);
  }

  lemma RankTooHigh(tree: Tree, pattern: Tree, cycle: bool)
    requires Canonical(tree) && Canonical(pattern) && pattern != EMPTY
    requires Rank(tree).Some? && Rank(pattern).Some? && Rank(pattern).value > Rank(tree).value
    ensures Nr(tree, pattern, cycle) == None
  {
  }
}

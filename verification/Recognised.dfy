/** What `num_repeats` accepts: when its answer is the size, and when the tree is a repetition of the pattern. */
module RecognitionSound {
  import opened Wrappers
  import opened IndexTrees
  import opened BlockLists
  import opened Enumeration
  import opened Growing
  import opened Replication
  import opened Recognition

  // ----- what an accepted comparison went through -----

  /** Every last block that is compared by its subtree alone has count 1. */
  ghost predicate Singles(ps: seq<Block>, rs: seq<Block>, all: seq<Block>, i0: int, cycle: bool, k: nat)
    requires Level(ps, k) && Level(rs, k) && Level(all, k) && all != [] && Depth(rs) <= Depth(all)
    requires NrLoop(ps, rs, all, i0, cycle, k).Some?
    decreases Depth(all), 0, TotalCount(ps), if rs == [] then |all| + 1 else |rs|
  {
    if ps == [] then true
    else if rs == [] then Singles(ps, all, all, ps[0].start, cycle, k)
    else
      var p, r := ps[0], rs[0];
      if r.sub == p.sub then
        var m := Min(r.count, p.count);
        TakeLevel(ps, m, k);
        TotalCountPositive(Take(ps, m));
        Singles(Take(ps, m), rs[1..], all, i0, cycle, k)
      else
        NestedRanks(p.sub, r.sub, k);
        DepthHead(rs);
        p.count == 1 && TreeSingles(p.sub, r.sub, false)
  }

  ghost predicate TreeSingles(tree: Tree, pattern: Tree, cycle: bool)
    requires Canonical(tree) && Canonical(pattern) && pattern != EMPTY
    requires Rank(tree).Some? && Rank(pattern).Some? && Nr(tree, pattern, cycle).Some?
    decreases Depth(pattern.children), 1, 0, 0
  {
    var r := Rank(pattern).value;
    PatternLevel(pattern);
    PrunedLevel(tree, r);
    Singles(Pruned(tree, r - 1).children, pattern.children, pattern.children, MinStart(pattern.children), cycle, r - 1)
  }

  /** Behind its only block, one coordinate with a beginning of the subtree that the block repeats. */
  ghost predicate EndsCut(ps: seq<Block>, sub: Tree) {
    |ps| == 2 && ps[1].start == ps[0].End() && ps[1].count == 1 && Points(ps[1].sub) <= Points(sub)
  }

  /**
   Patterns start at 0; restarts come one stride after the previous start; a run is shorter than its
   block in the pattern only at the end, where a single cut subtree may follow it; a block compared by
   its subtree alone has count 1.
   */
  ghost predicate Tracks(ps: seq<Block>, rs: seq<Block>, all: seq<Block>, i0: int, cycle: bool, k: nat)
    requires Level(ps, k) && Level(rs, k) && Level(all, k) && all != [] && Depth(rs) <= Depth(all)
    requires NrLoop(ps, rs, all, i0, cycle, k).Some?
    decreases Depth(all), 0, TotalCount(ps), if rs == [] then |all| + 1 else |rs|
  {
    if ps == [] then true
    else if rs == [] then ps[0].start == i0 + Lower(all, |all|) && Tracks(ps, all, all, ps[0].start, cycle, k)
    else
      var p, r := ps[0], rs[0];
      if r.sub == p.sub then
        if p.count < r.count && |ps| > 1 then EndsCut(ps, r.sub)
        else
          var m := Min(r.count, p.count);
          TakeLevel(ps, m, k);
          TotalCountPositive(Take(ps, m));
          Tracks(Take(ps, m), rs[1..], all, i0, cycle, k)
      else
        NestedRanks(p.sub, r.sub, k);
        DepthHead(rs);
        p.count == 1 && TreeTracks(p.sub, r.sub, false)
  }

  ghost predicate TreeTracks(tree: Tree, pattern: Tree, cycle: bool)
    requires Canonical(tree) && Canonical(pattern) && pattern != EMPTY
    requires Rank(tree).Some? && Rank(pattern).Some? && Nr(tree, pattern, cycle).Some?
    decreases Depth(pattern.children), 1, 0, 0
  {
    var r := Rank(pattern).value;
    PatternLevel(pattern);
    PrunedLevel(tree, r);
    MinStart(pattern.children) == 0
    && Tracks(Pruned(tree, r - 1).children, pattern.children, pattern.children, 0, cycle, r - 1)
  }

  // ----- one step of it -----

  lemma AtRestart(ps: seq<Block>, all: seq<Block>, i0: int, cycle: bool, k: nat)
    requires Level(ps, k) && Level([], k) && Level(all, k) && ps != [] && all != []
    requires NrLoop(ps, [], all, i0, cycle, k).Some?
    ensures cycle && NrLoop(ps, [], all, i0, cycle, k) == NrLoop(ps, all, all, ps[0].start, cycle, k)
    ensures Singles(ps, [], all, i0, cycle, k) <==> Singles(ps, all, all, ps[0].start, cycle, k)
    ensures Tracks(ps, [], all, i0, cycle, k)
       <==> ps[0].start == i0 + Lower(all, |all|) && Tracks(ps, all, all, ps[0].start, cycle, k)
  {
    hide Level, Nr, TreeSingles, TreeTracks, Lower, Take, Size, Depth, TotalCount, EndsCut;
  }

  /** The front of the tree repeats the subtree of the pattern's next block m times. */
  lemma AtMatch(ps: seq<Block>, rs: seq<Block>, all: seq<Block>, i0: int, cycle: bool, k: nat, m: int)
    requires Level(ps, k) && Level(rs, k) && Level(all, k) && all != [] && Depth(rs) <= Depth(all)
    requires ps != [] && rs != [] && rs[0].sub == ps[0].sub && m == Min(rs[0].count, ps[0].count)
    requires NrLoop(ps, rs, all, i0, cycle, k).Some?
    ensures Ordered(ps) && 0 < m <= ps[0].count && 0 < m <= rs[0].count && ps[0].start == rs[0].start + i0
    ensures Level(Take(ps, m), k) && Level(rs[1..], k) && Depth(rs[1..]) <= Depth(all)
    ensures 0 <= TotalCount(Take(ps, m)) == TotalCount(ps) - m
    ensures NrLoop(ps, rs, all, i0, cycle, k)
        == Add(m * Size(rs[0].sub), NrLoop(Take(ps, m), rs[1..], all, i0, cycle, k))
    ensures NrLoop(Take(ps, m), rs[1..], all, i0, cycle, k).Some?
    ensures Singles(ps, rs, all, i0, cycle, k) <==> Singles(Take(ps, m), rs[1..], all, i0, cycle, k)
    ensures Tracks(ps, rs, all, i0, cycle, k)
       <==> if ps[0].count < rs[0].count && |ps| > 1 then EndsCut(ps, rs[0].sub)
            else Tracks(Take(ps, m), rs[1..], all, i0, cycle, k)
  {
    hide Nr, TreeSingles, TreeTracks, Lower, Take, Size, EndsCut, CanonicalSubs, UniformSubs;
    TakeLevel(ps, m, k);
    TotalCountPositive(Take(ps, m));
    RestLevel(rs, k);
  }

  lemma RestLevel(rs: seq<Block>, k: nat)
    requires Level(rs, k) && rs != []
    ensures Level(rs[1..], k) && Depth(rs[1..]) <= Depth(rs)
  {
  }

  /** The last block of the tree is compared with the pattern's next block by its subtree. */
  lemma AtNested(ps: seq<Block>, rs: seq<Block>, all: seq<Block>, i0: int, cycle: bool, k: nat)
    requires Level(ps, k) && Level(rs, k) && Level(all, k) && all != [] && Depth(rs) <= Depth(all)
    requires ps != [] && rs != [] && rs[0].sub != ps[0].sub
    requires NrLoop(ps, rs, all, i0, cycle, k).Some?
    ensures |ps| == 1 && ps[0].count > 0 && ps[0].start == rs[0].start + i0
    ensures Canonical(ps[0].sub) && Uniform(ps[0].sub, k) && Canonical(rs[0].sub) && Uniform(rs[0].sub, k) && k > 0
    ensures rs[0].sub != EMPTY && Rank(ps[0].sub) == Some(k) == Rank(rs[0].sub)
    ensures Depth(rs[0].sub.children) < Depth(all)
    ensures Nr(ps[0].sub, rs[0].sub, false).Some?
        && NrLoop(ps, rs, all, i0, cycle, k) == Nr(ps[0].sub, rs[0].sub, false)
    ensures Singles(ps, rs, all, i0, cycle, k) <==> ps[0].count == 1 && TreeSingles(ps[0].sub, rs[0].sub, false)
    ensures Tracks(ps, rs, all, i0, cycle, k) <==> ps[0].count == 1 && TreeTracks(ps[0].sub, rs[0].sub, false)
  {
    hide Nr, TreeSingles, TreeTracks, Lower, Take, Size, EndsCut, Rank, Uniform, TotalCount, Coalesced;
    FirstParts(ps, k);
    FirstParts(rs, k);
    NestedRanks(ps[0].sub, rs[0].sub, k);
    PositiveRank(rs[0].sub, k);
    DepthHead(rs);
  }

  lemma FirstParts(bs: seq<Block>, k: nat)
    requires Level(bs, k) && bs != []
    ensures bs[0].count > 0 && Canonical(bs[0].sub) && Uniform(bs[0].sub, k)
  {
  }

  lemma PositiveRank(t: Tree, k: nat)
    requires Canonical(t) && t != EMPTY && Uniform(t, k)
    ensures k > 0
  {
    UniformChildren(t, 0);
  }

  lemma StartLevels(tree: Tree, pattern: Tree, cycle: bool)
    requires Canonical(tree) && Canonical(pattern) && pattern != EMPTY
    requires Rank(tree).Some? && Rank(pattern).Some? && Nr(tree, pattern, cycle).Some?
    ensures 0 < Rank(pattern).value <= Rank(tree).value && pattern.children != []
    ensures var r := Rank(pattern).value;
            var t := Pruned(tree, r - 1);
            t != EMPTY && Canonical(t) && Level(t.children, r - 1) && Level(pattern.children, r - 1)
  {
    hide Pruned, Rank, Canonical, NrLoop, MinStart, Level;
    var r := Rank(pattern).value;
    PatternLevel(pattern);
    PrunedLevel(tree, r);
  }

  /** The comparison of two trees starts at the beginning of the pattern. */
  lemma AtStart(tree: Tree, pattern: Tree, cycle: bool, bs: seq<Block>, ts: seq<Block>, k: nat)
    requires Level(ts, k) && Level(bs, k) && bs != []
    requires Canonical(tree) && Canonical(pattern) && pattern != EMPTY && Rank(tree).Some? && Rank(pattern).Some?
    requires Rank(pattern).value == k + 1 && bs == pattern.children && ts == Pruned(tree, k).children
    requires Nr(tree, pattern, cycle).Some?
    ensures Nr(tree, pattern, cycle) == NrLoop(ts, bs, bs, MinStart(bs), cycle, k)
    ensures TreeSingles(tree, pattern, cycle) <==> Singles(ts, bs, bs, MinStart(bs), cycle, k)
    ensures TreeTracks(tree, pattern, cycle) <==> MinStart(bs) == 0 && Tracks(ts, bs, bs, MinStart(bs), cycle, k)
  {
    hide Pruned, Rank, Canonical, NrLoop, Singles, Tracks, MinStart, Level;
  }

  // ----- the number and the size -----

  lemma SizeTaken(ps: seq<Block>, m: int, k: nat)
    requires Level(ps, k) && ps != [] && 0 < m <= ps[0].count
    ensures SizeOf(ps) == m * Size(ps[0].sub) + SizeOf(Take(ps, m))
  {
    hide CanonicalSubs, UniformSubs, Size, SizeOf;
    SizeOfFirst(ps);
    if m < ps[0].count {
      var r := Take(ps, m);
      assert r[0] == Block(ps[0].start + m, ps[0].count - m, ps[0].sub) && r[1..] == ps[1..];
      SizeOfFirst(r);
      assert ps[0].count * Size(ps[0].sub) == m * Size(ps[0].sub) + (ps[0].count - m) * Size(ps[0].sub);
    }
  }

  lemma {:induction false} LoopSize(ps: seq<Block>, rs: seq<Block>, all: seq<Block>, i0: int, cycle: bool, k: nat)
    requires Level(ps, k) && Level(rs, k) && Level(all, k) && all != [] && Depth(rs) <= Depth(all)
    requires NrLoop(ps, rs, all, i0, cycle, k).Some?
    ensures NrLoop(ps, rs, all, i0, cycle, k).value <= SizeOf(ps)
    ensures NrLoop(ps, rs, all, i0, cycle, k).value == SizeOf(ps) <==> Singles(ps, rs, all, i0, cycle, k)
    decreases Depth(all), 0, TotalCount(ps), if rs == [] then |all| + 1 else |rs|
  {
    hide Level, NrLoop, Nr, Singles, TreeSingles, Tracks, TreeTracks, Take, Size, SizeOf, Depth, TotalCount, Rank,
         Canonical, Uniform, Pruned;
    if ps == [] {
      LoopEmpty(rs, all, i0, cycle, k);
    } else if rs == [] {
      AtRestart(ps, all, i0, cycle, k);
      LoopSize(ps, all, all, ps[0].start, cycle, k);
    } else if rs[0].sub == ps[0].sub {
      var m := Min(rs[0].count, ps[0].count);
      AtMatch(ps, rs, all, i0, cycle, k, m);
      SizeTaken(ps, m, k);
      LoopSize(Take(ps, m), rs[1..], all, i0, cycle, k);
    } else {
      AtNested(ps, rs, all, i0, cycle, k);
      TreeSize(ps[0].sub, rs[0].sub, false);
      UniformPruned(ps[0].sub, k);
      SizeOfFirst(ps);
      NoSize();
      assert ps[1..] == [];
      SizePositive(ps[0].sub);
      NestedSize(ps[0].count, Size(ps[0].sub), Nr(ps[0].sub, rs[0].sub, false).value);
    }
  }

  lemma LoopEmpty(rs: seq<Block>, all: seq<Block>, i0: int, cycle: bool, k: nat)
    requires Level([], k) && Level(rs, k) && Level(all, k) && all != [] && Depth(rs) <= Depth(all)
    ensures NrLoop([], rs, all, i0, cycle, k) == Some(0) && SizeOf([]) == 0
    ensures Singles([], rs, all, i0, cycle, k) && Tracks([], rs, all, i0, cycle, k)
  {
  }

  lemma NestedSize(c: int, size: nat, n: nat)
    requires c > 0 && n <= size && size > 0
    ensures n <= c * size && (n == c * size <==> c == 1 && n == size)
  {
    assert c * size == size + (c - 1) * size;
    if c > 1 { MulAtLeast(c - 1, size); }
  }

  /** The answer is at most the size of the compared tree, and equal exactly if all nested blocks are single. */
  lemma {:induction false} TreeSize(tree: Tree, pattern: Tree, cycle: bool)
    requires Canonical(tree) && Canonical(pattern) && pattern != EMPTY
    requires Rank(tree).Some? && Rank(pattern).Some? && Nr(tree, pattern, cycle).Some?
    ensures Rank(pattern).value > 0
    ensures var size := Size(Pruned(tree, Rank(pattern).value - 1));
            && Nr(tree, pattern, cycle).value <= size
            && (Nr(tree, pattern, cycle).value == size <==> TreeSingles(tree, pattern, cycle))
    decreases Depth(pattern.children), 1, 0, 0
  {
    hide Level, NrLoop, Nr, Singles, TreeSingles, Tracks, TreeTracks, Take, Size, SizeOf, Depth, TotalCount, Rank,
         Canonical, Uniform, Pruned;
    var r, bs := Rank(pattern).value, pattern.children;
    StartLevels(tree, pattern, cycle);
    AtStart(tree, pattern, cycle, bs, Pruned(tree, r - 1).children, r - 1);
    SizeOfTree(Pruned(tree, r - 1));
    LoopSize(Pruned(tree, r - 1).children, bs, bs, MinStart(bs), cycle, r - 1);
  }

  // ----- the points the pattern provides -----

  /** The points of rs moved by i0, then those of rep more copies of the pattern, one stride apart. */
  ghost function Ext(rs: seq<Block>, all: seq<Block>, i0: int, rep: nat): seq<Point>
    requires all != []
    decreases rep
  {
    ShiftAll(PointsOf(rs), i0) + if rep == 0 then [] else Ext(all, all, i0 + Lower(all, |all|), rep - 1)
  }

  /** Enough copies to compare with. */
  ghost predicate Enough(ps: seq<Block>, rs: seq<Block>, cycle: bool, rep: nat) {
    if cycle then rep >= SizeOf(ps) + (if rs == [] then 1 else 0) else rep == 0
  }

  lemma ExtNext(all: seq<Block>, i0: int, rep: nat)
    requires all != [] && rep > 0
    ensures Ext([], all, i0, rep) == Ext(all, all, i0 + Lower(all, |all|), rep - 1)
  {
  }

  lemma ExtFirst(rs: seq<Block>, all: seq<Block>, i0: int, rep: nat)
    requires all != [] && rs != []
    ensures Ext(rs, all, i0, rep)
         == Span(rs[0].start + i0, rs[0].count, Points(rs[0].sub)) + Ext(rs[1..], all, i0, rep)
  {
    hide Span, Points, ShiftAll, Lower;
    PointsOfFirst(rs);
    SpanShift(rs[0].start, rs[0].count, Points(rs[0].sub), i0);
    ShiftAllAppend(Span(rs[0].start, rs[0].count, Points(rs[0].sub)), PointsOf(rs[1..]), i0);
  }

  lemma {:induction false} SpanSplit(x: int, n: int, m: int, ps: seq<Point>)
    requires 0 <= m <= n
    ensures Span(x, n, ps) == Span(x, m, ps) + Span(x + m, n - m, ps)
    decreases m
  {
    if m > 0 {
      SpanSplit(x + 1, n - 1, m - 1, ps);
      Assoc(Under([x], ps), Span(x + 1, m - 1, ps), Span(x + m, n - m, ps));
    }
  }

  lemma PointsTaken(ps: seq<Block>, m: int)
    requires Ordered(ps) && ps != [] && 0 < m <= ps[0].count
    ensures PointsOf(ps) == Span(ps[0].start, m, Points(ps[0].sub)) + PointsOf(Take(ps, m))
  {
    hide Span, Points;
    PointsOfFirst(ps);
    if m < ps[0].count {
      var r := Take(ps, m);
      assert r[0] == Block(ps[0].start + m, ps[0].count - m, ps[0].sub) && r[1..] == ps[1..];
      PointsOfFirst(r);
      SpanSplit(ps[0].start, ps[0].count, m, Points(ps[0].sub));
      Assoc(Span(ps[0].start, m, Points(ps[0].sub)), Span(r[0].start, r[0].count, Points(r[0].sub)), PointsOf(ps[1..]));
    }
  }

  lemma SameStart<T>(a: seq<T>, b: seq<T>, c: seq<T>)
    ensures a + b <= a + c <==> b <= c
  {
    if a + b <= a + c {
      assert b == (a + b)[|a|..] && c == (a + c)[|a|..];
      assert (a + b)[|a|..] == (a + c)[..|a + b|][|a|..] == c[..|b|];
    }
  }

  /** ps has points, and the first of them has first coordinate x. */
  ghost predicate Opens(ps: seq<Point>, x: int) {
    ps != [] && ps[0] != [] && ps[0][0] == x
  }

  lemma SpanOpens(x: int, n: int, ps: seq<Point>)
    requires n > 0 && ps != []
    ensures Opens(Span(x, n, ps), x)
  {
  }

  lemma BlocksOpen(bs: seq<Block>, k: nat)
    requires Level(bs, k) && bs != []
    ensures Opens(PointsOf(bs), bs[0].start)
  {
    hide Span, Points;
    FirstParts(bs, k);
    SomePoints(bs[0].sub);
    PointsOfFirst(bs);
    SpanOpens(bs[0].start, bs[0].count, Points(bs[0].sub));
  }

  lemma SomePoints(t: Tree)
    requires Canonical(t)
    ensures Points(t) != []
  {
    SizePositive(t);
    PointsEnumerate(t);
  }

  lemma ExtOpens(rs: seq<Block>, all: seq<Block>, i0: int, rep: nat, k: nat)
    requires Level(rs, k) && rs != [] && all != []
    ensures Opens(Ext(rs, all, i0, rep), rs[0].start + i0)
  {
    hide Lower;
    BlocksOpen(rs, k);
  }

  lemma OtherOpening(a: seq<Point>, b: seq<Point>, x: int, y: int)
    requires Opens(a, x) && Opens(b, y) && x != y
    ensures !(a <= b)
  {
    assert a[0] != b[0];
  }

  /** The list does not open with first coordinate x. */
  ghost predicate Beyond(ps: seq<Point>, x: int) {
    ps != [] ==> ps[0] != [] && ps[0][0] != x
  }

  lemma UnderAt(x: int, ps: seq<Point>, rest: seq<Point>, i: nat)
    requires i < |ps|
    ensures i < |Under([x], ps) + rest| && (Under([x], ps) + rest)[i] == [x] + ps[i]
  {
  }

  /**
   Below one coordinate, different lists agree only if the first is a beginning of the other and
   nothing follows it.
   */
  lemma CutHere(x: int, a: seq<Point>, b: seq<Point>, r: seq<Point>, s: seq<Point>)
    requires a != b && Beyond(r, x) && Beyond(s, x)
    ensures Under([x], a) + r <= Under([x], b) + s <==> r == [] && a <= b
  {
    var u, v := Under([x], a) + r, Under([x], b) + s;
    forall i | 0 <= i < |a| && i < |b| ensures i < |u| && i < |v| && (u[i] == v[i] <==> a[i] == b[i]) {
      UnderAt(x, a, r, i);
      UnderAt(x, b, s, i);
      assert ([x] + a[i])[1..] == a[i] && ([x] + b[i])[1..] == b[i];
    }
    if |b| < |a| {
      UnderAt(x, a, r, |b|);
      assert |v| > |b| ==> v[|b|] == s[0] && u[|b|] != v[|b|];
    } else if |a| < |b| {
      UnderAt(x, b, s, |a|);
      assert r != [] ==> u[|a|] == r[0] && u[|a|] != v[|a|];
    } else {
      var i :| 0 <= i < |a| && a[i] != b[i];
      assert u[i] != v[i];
    }
  }

  // ----- the points and the pattern -----

  /** The rest of the pattern reaches as far as the pattern. */
  ghost predicate Ends(rs: seq<Block>, all: seq<Block>)
    requires all != []
  {
    rs != [] ==> Lower(rs, |rs|) == Lower(all, |all|)
  }

  lemma EndsBehind(rs: seq<Block>, all: seq<Block>)
    requires Ordered(rs) && all != [] && rs != [] && Ends(rs, all)
    ensures rs[0].End() <= Lower(all, |all|) && Ends(rs[1..], all)
    ensures |rs| > 1 ==> rs[0].End() <= rs[1].start
  {
    StartsAscend(rs, |rs| - 1);
  }

  /** Behind one coordinate of the first block of the pattern, its points go on at another coordinate. */
  lemma RestBeyond(rs: seq<Block>, all: seq<Block>, i0: int, rep: nat, k: nat, m: int)
    requires Level(rs, k) && Level(all, k) && all != [] && rs != [] && Ends(rs, all) && all[0].start == 0
    requires 0 <= m < rs[0].count
    ensures Points(rs[0].sub) != []
    ensures var x, sub := rs[0].start + i0 + m, Points(rs[0].sub);
            Beyond(Span(x + 1, rs[0].count - m - 1, sub) + Ext(rs[1..], all, i0, rep), x)
  {
    hide Span, Points, Ext, Lower;
    FirstParts(rs, k);
    SomePoints(rs[0].sub);
    EndsBehind(rs, all);
    RestLevel(rs, k);
    var x, sub := rs[0].start + i0 + m, Points(rs[0].sub);
    if m + 1 < rs[0].count {
      SpanOpens(x + 1, rs[0].count - m - 1, sub);
    } else {
      SpanNone(x + 1, sub);
      if |rs| > 1 {
        ExtOpens(rs[1..], all, i0, rep, k);
      } else if rep > 0 {
        ExtNext(all, i0, rep);
        ExtOpens(all, all, i0 + Lower(all, |all|), rep - 1, k);
      } else {
        NoExt(all, i0);
      }
    }
  }

  lemma NoExt(all: seq<Block>, i0: int)
    requires all != []
    ensures Ext([], all, i0, 0) == []
  {
  }

  lemma DifferentPoints(a: Tree, b: Tree)
    requires Canonical(a) && Canonical(b) && a != b
    ensures Points(a) != Points(b)
  {
    hide Points;
    if Points(a) == Points(b) {
      PointsEnumerate(a);
      PointsEnumerate(b);
      EqualIffSamePoints(a, b);
    }
  }

  /**
   A list that starts within the first block of the pattern with another subtree is a cut of that
   subtree, or wrong.
   */
  lemma CutOfBlock(ps: seq<Block>, rs: seq<Block>, all: seq<Block>, i0: int, rep: nat, k: nat, m: int)
    requires Level(ps, k) && Level(rs, k) && Level(all, k) && all != [] && all[0].start == 0
    requires ps != [] && rs != [] && Ends(rs, all) && 0 <= m < rs[0].count
    requires ps[0].sub != rs[0].sub && ps[0].start == rs[0].start + i0 + m
    ensures PointsOf(ps) <= Span(ps[0].start, rs[0].count - m, Points(rs[0].sub)) + Ext(rs[1..], all, i0, rep)
       <==> |ps| == 1 && ps[0].count == 1 && Points(ps[0].sub) <= Points(rs[0].sub)
  {
    hide Span, Points, PointsOf, Ext, Lower, Under, CanonicalSubs, UniformSubs, Ends, Beyond;
    var x, a, b := ps[0].start, Points(ps[0].sub), Points(rs[0].sub);
    FirstParts(ps, k);
    FirstParts(rs, k);
    DifferentPoints(ps[0].sub, rs[0].sub);
    RestBeyond(rs, all, i0, rep, k, m);
    var r, s := PointsOf(Take(ps, 1)), Span(x + 1, rs[0].count - m - 1, b) + Ext(rs[1..], all, i0, rep);
    PointsTaken(ps, 1);
    SpanOne(x, a);
    SpanSplit(x, rs[0].count - m, 1, b);
    SpanOne(x, b);
    Assoc(Under([x], b), Span(x + 1, rs[0].count - m - 1, b), Ext(rs[1..], all, i0, rep));
    TakenBeyond(ps, k);
    CutHere(x, a, b, r, s);
  }

  lemma TakenBeyond(ps: seq<Block>, k: nat)
    requires Level(ps, k) && ps != []
    ensures ps[0].count > 0 && Beyond(PointsOf(Take(ps, 1)), ps[0].start)
    ensures PointsOf(Take(ps, 1)) == [] <==> |ps| == 1 && ps[0].count == 1
  {
    hide PointsOf, Points;
    FirstParts(ps, k);
    TakeLevel(ps, 1, k);
    var r := Take(ps, 1);
    if r != [] { BlocksOpen(r, k); } else { NoPoints(); }
    if |ps| > 1 { StartsAscend(ps, 1); }
  }

  lemma TakeCoalesced(ps: seq<Block>, m: int)
    requires Ordered(ps) && Coalesced(ps) && ps != [] && 0 < m <= ps[0].count
    ensures Coalesced(Take(ps, m))
  {
    DropCoalesced(ps, ps[0].start + m);
  }

  lemma SecondBlock(ps: seq<Block>, k: nat)
    requires Level(ps, k) && Coalesced(ps) && |ps| > 1
    ensures Ordered(ps) && ps[0].count > 0 && Take(ps, ps[0].count) == ps[1..]
    ensures ps[1].start == ps[0].End() ==> ps[1].sub != ps[0].sub
  {
  }

  /** A run that ends before its block in the pattern does. */
  lemma ShortRun(ps: seq<Block>, rs: seq<Block>, all: seq<Block>, i0: int, rep: nat, k: nat)
    requires Level(ps, k) && Coalesced(ps) && Level(rs, k) && Level(all, k) && all != [] && all[0].start == 0
    requires rs != [] && Ends(rs, all) && |ps| > 1 && ps[0].count < rs[0].count
    requires ps[0].sub == rs[0].sub && ps[0].start == rs[0].start + i0
    ensures PointsOf(ps) <= Ext(rs, all, i0, rep) <==> EndsCut(ps, rs[0].sub)
  {
    hide Span, Points, Ext, Lower, Under, Level, Coalesced, PointsOf, Ends, Take;
    var x, m, sub := ps[0].start, ps[0].count, Points(rs[0].sub);
    SecondBlock(ps, k);
    FirstParts(ps, k);
    FirstParts(rs, k);
    RestLevel(ps, k);
    FirstParts(ps[1..], k);
    PointsTaken(ps, m);
    ExtFirst(rs, all, i0, rep);
    SpanSplit(x, rs[0].count, m, sub);
    var rest := Span(x + m, rs[0].count - m, sub) + Ext(rs[1..], all, i0, rep);
    Assoc(Span(x, m, sub), Span(x + m, rs[0].count - m, sub), Ext(rs[1..], all, i0, rep));
    SameStart(Span(x, m, sub), PointsOf(ps[1..]), rest);
    if ps[1].start == x + m {
      CutOfBlock(ps[1..], rs, all, i0, rep, k, m);
    } else {
      BlocksOpen(ps[1..], k);
      SomePoints(rs[0].sub);
      SpanOpens(x + m, rs[0].count - m, sub);
      OtherOpening(PointsOf(ps[1..]), rest, ps[1].start, x + m);
    }
  }

  /** The front of the tree goes through a whole block of the pattern, or ends within it. */
  lemma FullRun(ps: seq<Block>, rs: seq<Block>, all: seq<Block>, i0: int, rep: nat, k: nat, m: int)
    requires Level(ps, k) && Level(rs, k) && all != [] && ps != [] && rs != []
    requires ps[0].sub == rs[0].sub && ps[0].start == rs[0].start + i0
    requires 0 < m <= ps[0].count && m <= rs[0].count
    ensures m == rs[0].count ==>
              (PointsOf(ps) <= Ext(rs, all, i0, rep) <==> PointsOf(Take(ps, m)) <= Ext(rs[1..], all, i0, rep))
    ensures |ps| == 1 && m == ps[0].count ==> PointsOf(ps) <= Ext(rs, all, i0, rep)
  {
    hide Span, Points, Ext, Lower, Under, CanonicalSubs, UniformSubs, PointsOf;
    var x, sub := ps[0].start, Points(rs[0].sub);
    PointsTaken(ps, m);
    ExtFirst(rs, all, i0, rep);
    if m == rs[0].count {
      SameStart(Span(x, m, sub), PointsOf(Take(ps, m)), Ext(rs[1..], all, i0, rep));
    }
    if |ps| == 1 && m == ps[0].count {
      SpanSplit(x, rs[0].count, m, sub);
      NoPoints();
      var rest := Span(x + m, rs[0].count - m, sub) + Ext(rs[1..], all, i0, rep);
      Assoc(Span(x, m, sub), Span(x + m, rs[0].count - m, sub), Ext(rs[1..], all, i0, rep));
      SameStart(Span(x, m, sub), PointsOf(Take(ps, m)), rest);
    }
  }

  lemma EnoughRestart(ps: seq<Block>, all: seq<Block>, rep: nat)
    requires all != [] && Enough(ps, [], true, rep)
    ensures rep > 0 && Enough(ps, all, true, rep - 1)
  {
  }

  lemma EnoughTaken(ps: seq<Block>, rs: seq<Block>, cycle: bool, rep: nat, m: int, k: nat)
    requires Level(ps, k) && ps != [] && rs != [] && 0 < m <= ps[0].count && Enough(ps, rs, cycle, rep)
    ensures Enough(Take(ps, m), rs[1..], cycle, rep)
  {
    hide Take, Size, SizeOf, CanonicalSubs, UniformSubs;
    FirstParts(ps, k);
    SizeTaken(ps, m, k);
    SizePositive(ps[0].sub);
    MulAtLeast(m, Size(ps[0].sub));
  }

  /** The points of the tree are the first points of the pattern exactly if the comparison keeps track. */
  lemma {:induction false} LoopTracks(ps: seq<Block>, rs: seq<Block>, all: seq<Block>, i0: int, cycle: bool, k: nat,
                                      rep: nat)
    requires Level(ps, k) && Coalesced(ps) && Level(rs, k) && Level(all, k) && all != [] && Depth(rs) <= Depth(all)
    requires NrLoop(ps, rs, all, i0, cycle, k).Some?
    requires all[0].start == 0 && Ends(rs, all) && Enough(ps, rs, cycle, rep)
    ensures Tracks(ps, rs, all, i0, cycle, k) <==> PointsOf(ps) <= Ext(rs, all, i0, rep)
    decreases Depth(all), 0, TotalCount(ps), if rs == [] then |all| + 1 else |rs|
  {
    hide Level, Coalesced, NrLoop, Nr, Singles, TreeSingles, Tracks, TreeTracks, Take, Size, SizeOf, Depth, TotalCount,
         Rank, Canonical, Uniform, Pruned, Ends, Enough, Ext, PointsOf, Points, Lower, EndsCut, Span;
    if ps == [] {
      LoopEmpty(rs, all, i0, cycle, k);
      NoPoints();
    } else if rs == [] {
      AtRestart(ps, all, i0, cycle, k);
      EnoughRestart(ps, all, rep);
      ExtNext(all, i0, rep);
      AllEnds(all);
      if ps[0].start == i0 + Lower(all, |all|) {
        LoopTracks(ps, all, all, ps[0].start, cycle, k, rep - 1);
      } else {
        BlocksOpen(ps, k);
        ExtOpens(all, all, i0 + Lower(all, |all|), rep - 1, k);
        OtherOpening(PointsOf(ps), Ext([], all, i0, rep), ps[0].start, i0 + Lower(all, |all|));
      }
    } else if rs[0].sub == ps[0].sub {
      var m := Min(rs[0].count, ps[0].count);
      AtMatch(ps, rs, all, i0, cycle, k, m);
      if ps[0].count < rs[0].count && |ps| > 1 {
        ShortRun(ps, rs, all, i0, rep, k);
      } else {
        FullRun(ps, rs, all, i0, rep, k, m);
        EnoughTaken(ps, rs, cycle, rep, m, k);
        TakeCoalesced(ps, m);
        EndsRest(rs, all, k);
        if m == rs[0].count {
          LoopTracks(Take(ps, m), rs[1..], all, i0, cycle, k, rep);
        } else {
          TakenWhole(ps);
          LoopEmpty(rs[1..], all, i0, cycle, k);
        }
      }
    } else {
      AtNested(ps, rs, all, i0, cycle, k);
      CutNested(ps, rs, all, i0, rep, k);
      TreeTracksPoints(ps[0].sub, rs[0].sub, false, 0);
      UniformPruned(ps[0].sub, k);
      ExtOnce(rs[0].sub);
      NotEmpty(ps[0].sub, k);
      PointsOfTree(ps[0].sub);
    }
  }

  lemma AllEnds(all: seq<Block>)
    requires all != []
    ensures Ends(all, all)
  {
  }

  lemma EndsRest(rs: seq<Block>, all: seq<Block>, k: nat)
    requires Level(rs, k) && all != [] && rs != [] && Ends(rs, all)
    ensures Ends(rs[1..], all)
  {
    EndsBehind(rs, all);
  }

  lemma TakenWhole(ps: seq<Block>)
    requires Ordered(ps) && |ps| == 1
    ensures Take(ps, ps[0].count) == []
  {
  }

  lemma NotEmpty(t: Tree, k: nat)
    requires Canonical(t) && Uniform(t, k) && k > 0
    ensures t != EMPTY
  {
    if t == EMPTY { assert Has(t, []); }
  }

  lemma CutNested(ps: seq<Block>, rs: seq<Block>, all: seq<Block>, i0: int, rep: nat, k: nat)
    requires Level(ps, k) && Level(rs, k) && Level(all, k) && all != [] && all[0].start == 0
    requires |ps| == 1 && rs != [] && Ends(rs, all)
    requires ps[0].sub != rs[0].sub && ps[0].start == rs[0].start + i0
    ensures PointsOf(ps) <= Ext(rs, all, i0, rep) <==> ps[0].count == 1 && Points(ps[0].sub) <= Points(rs[0].sub)
  {
    hide PointsOf, Points, Ext, Ends, Span, CanonicalSubs, UniformSubs;
    FirstParts(rs, k);
    ExtFirst(rs, all, i0, rep);
    CutOfBlock(ps, rs, all, i0, rep, k, 0);
  }

  lemma ExtOnce(t: Tree)
    requires t != EMPTY && t.children != []
    ensures Ext(t.children, t.children, 0, 0) == Points(t)
  {
    var ps := PointsOf(t.children);
    forall i | 0 <= i < |ps| ensures ShiftAll(ps, 0)[i] == ps[i] {
      ShiftNothing(ps[i]);
    }
    assert ShiftAll(ps, 0) == ps;
  }

  lemma FirstMatch(ps: seq<Block>, rs: seq<Block>, all: seq<Block>, i0: int, cycle: bool, k: nat)
    requires Level(ps, k) && Level(rs, k) && Level(all, k) && all != [] && Depth(rs) <= Depth(all)
    requires NrLoop(ps, rs, all, i0, cycle, k).Some? && ps != [] && rs != []
    ensures ps[0].start == rs[0].start + i0
  {
    hide Level, Nr, Take, Size, Depth, TotalCount, Rank, Canonical, Uniform;
  }

  lemma {:induction false} TreeTracksPoints(tree: Tree, pattern: Tree, cycle: bool, rep: nat)
    requires Canonical(tree) && Canonical(pattern) && pattern != EMPTY
    requires Rank(tree).Some? && Rank(pattern).Some? && Nr(tree, pattern, cycle).Some?
    requires Rank(pattern).value > 0
    requires if cycle then rep >= Size(Pruned(tree, Rank(pattern).value - 1)) else rep == 0
    ensures pattern.children != []
    ensures TreeTracks(tree, pattern, cycle)
       <==> PointsOf(Pruned(tree, Rank(pattern).value - 1).children) <= Ext(pattern.children, pattern.children, 0, rep)
    decreases Depth(pattern.children), 1, 0, 0
  {
    hide Level, Coalesced, NrLoop, Nr, Singles, TreeSingles, Tracks, TreeTracks, Take, Size, SizeOf, Depth, TotalCount,
         Rank, Canonical, Uniform, Pruned, Ends, Enough, Ext, PointsOf, Points, Lower, EndsCut, Span, MinStart;
    var r, bs := Rank(pattern).value, pattern.children;
    var t := Pruned(tree, r - 1);
    StartLevels(tree, pattern, cycle);
    AtStart(tree, pattern, cycle, bs, t.children, r - 1);
    CanonicalParts(pattern);
    CanonicalParts(t);
    SizeOfTree(t);
    StartOfPattern(pattern);
    FirstMatch(t.children, bs, bs, MinStart(bs), cycle, r - 1);
    if MinStart(bs) == 0 {
      AllEnds(bs);
      StartEnough(t.children, bs, cycle, rep);
      LoopTracks(t.children, bs, bs, 0, cycle, r - 1, rep);
    } else {
      BlocksOpen(t.children, r - 1);
      ExtOpens(bs, bs, 0, rep, r - 1);
      OtherOpening(PointsOf(t.children), Ext(bs, bs, 0, rep), t.children[0].start, bs[0].start);
    }
  }

  lemma StartEnough(ps: seq<Block>, all: seq<Block>, cycle: bool, rep: nat)
    requires all != [] && if cycle then rep >= SizeOf(ps) else rep == 0
    ensures Enough(ps, all, cycle, rep)
  {
  }

  lemma StartOfPattern(t: Tree)
    requires Canonical(t) && t != EMPTY
    ensures t.children != [] && MinStart(t.children) == t.children[0].start
  {
    RangeOfOrdered(t.children);
  }

  // ----- the answer and the repetition of the pattern -----

  lemma {:induction false} ExtAt(all: seq<Block>, o: int, rep: nat, i: nat)
    requires all != [] && PointsOf(all) != [] && i < (rep + 1) * |PointsOf(all)|
    ensures |Ext(all, all, o, rep)| == (rep + 1) * |PointsOf(all)|
    ensures var n := |PointsOf(all)|;
            Ext(all, all, o, rep)[i] == ShiftPoint(PointsOf(all)[i % n], (i / n) * Lower(all, |all|) + o)
    decreases rep
  {
    hide PointsOf, Lower, ShiftAll, ShiftPoint, Ext;
    var n, stride := |PointsOf(all)|, Lower(all, |all|);
    ExtSplit(all, o, rep);
    LaterIndex(i, n, rep);
    if rep > 0 { ExtAt(all, o + stride, rep - 1, if i < n then 0 else i - n); }
    if i >= n {
      assert (i / n) * stride == ((i - n) / n) * stride + stride;
    } else {
      ShiftedAt(PointsOf(all), o, i);
    }
  }

  lemma ShiftedAt(ps: seq<Point>, o: int, i: nat)
    requires i < |ps|
    ensures ShiftAll(ps, o)[i] == ShiftPoint(ps[i], o)
  {
  }

  lemma ExtSplit(all: seq<Block>, o: int, rep: nat)
    requires all != []
    ensures |ShiftAll(PointsOf(all), o)| == |PointsOf(all)|
    ensures Ext(all, all, o, rep)
         == ShiftAll(PointsOf(all), o) + if rep == 0 then [] else Ext(all, all, o + Lower(all, |all|), rep - 1)
  {
  }

  lemma LaterIndex(i: nat, n: nat, rep: nat)
    requires n > 0 && i < (rep + 1) * n
    ensures i < n ==> i / n == 0 && i % n == i
    ensures i >= n ==> rep > 0 && i - n < rep * n && i / n == (i - n) / n + 1 && i % n == (i - n) % n
    ensures (rep + 1) * n == n + rep * n && (rep > 0 ==> 0 < rep * n)
  {
    if i < n { DivMod(i, 0, n); }
    if rep > 0 { MulAtLeast(rep, n); }
    if i >= n { NextIndex(i - n, (i - n) / n, n); }
  }

  lemma NextIndex(i: nat, q: nat, n: nat)
    requires n > 0 && q == i / n
    ensures (i + n) / n == q + 1 && (i + n) % n == i % n
  {
    Euclid(i, n);
    DivMod(i + n, q + 1, n);
    DivMod(i, q, n);
  }

  lemma Euclid(i: nat, n: nat)
    requires n > 0
    ensures (i / n) * n <= i < (i / n) * n + n && (i / n + 1) * n == (i / n) * n + n
  {
    assert i == n * (i / n) + i % n;
  }

  lemma CycleIsPrefix(all: seq<Block>, rep: nat, num: nat, ps: seq<Point>)
    requires all != [] && PointsOf(all) != [] && |ps| == num <= rep
    ensures ps <= Ext(all, all, 0, rep) <==> ps == Cycle(PointsOf(all), Lower(all, |all|), num)
  {
    hide PointsOf, Lower, Ext;
    var e, c, n := Ext(all, all, 0, rep), Cycle(PointsOf(all), Lower(all, |all|), num), |PointsOf(all)|;
    ProductGrows(rep + 1, n);
    ExtAt(all, 0, rep, 0);
    forall i | 0 <= i < num ensures e[i] == c[i] {
      ExtAt(all, 0, rep, i);
    }
    assert c == e[..num];
  }

  lemma ProductGrows(a: nat, n: nat)
    requires n > 0
    ensures a <= a * n
  {
    assert a * n == a + a * (n - 1);
  }

  /**
   For every tree that `num_repeats` accepts: up to the pattern's rank its points are the first ones of
   the repeated pattern, as many as the answer says, exactly if nested blocks are single and the
   comparison keeps track.
   */
  lemma AcceptedPoints(tree: Tree, pattern: Tree)
    requires Canonical(tree) && Canonical(pattern) && pattern != EMPTY
    requires Rank(tree).Some? && Rank(pattern).Some? && Nr(tree, pattern, true).Some?
    ensures Rank(pattern).value > 0 && Points(pattern) != []
    ensures PointsOf(Pruned(tree, Rank(pattern).value - 1).children)
            == Cycle(Points(pattern), MaxEnd(pattern.children), Nr(tree, pattern, true).value)
       <==> TreeSingles(tree, pattern, true) && TreeTracks(tree, pattern, true)
  {
    hide Level, Coalesced, NrLoop, Nr, TreeSingles, TreeTracks, Size, SizeOf, Rank, Canonical, Uniform, Pruned, Ext,
         PointsOf, Points, Lower, Cycle, MaxEnd;
    var r, bs, n := Rank(pattern).value, pattern.children, Nr(tree, pattern, true).value;
    StartLevels(tree, pattern, true);
    var t := Pruned(tree, r - 1);
    TreeSize(tree, pattern, true);
    TreeTracksPoints(tree, pattern, true, Size(t));
    SizeOfTree(t);
    CanonicalParts(t);
    PointsOfLength(t.children);
    SomePoints(pattern);
    PointsOfTree(pattern);
    CanonicalParts(pattern);
    MaxEndLast(bs);
    if n == Size(t) { CycleIsPrefix(bs, Size(t), n, PointsOf(t.children)); }
  }

  /** Accepted trees are what the pattern constructor builds for that number, if it builds anything, exactly then. */
  lemma AcceptedReplica(tree: Tree, pattern: Tree)
    requires Canonical(tree) && Canonical(pattern) && pattern != EMPTY
    requires Rank(tree).Some? && Rank(pattern).Some? && Nr(tree, pattern, true).Some?
    ensures Rank(pattern).value > 0
    ensures Replicate(pattern, Nr(tree, pattern, true).value) == Success(Pruned(tree, Rank(pattern).value - 1))
       <==> && Replicable(pattern, Nr(tree, pattern, true).value)
            && TreeSingles(tree, pattern, true) && TreeTracks(tree, pattern, true)
  {
    hide Level, NrLoop, Nr, TreeSingles, TreeTracks, Size, SizeOf, Rank, Canonical, Uniform, Pruned,
         PointsOf, Points, Cycle, MaxEnd, Replicate, Replicable;
    var n := Nr(tree, pattern, true).value;
    StartLevels(tree, pattern, true);
    var t := Pruned(tree, Rank(pattern).value - 1);
    AcceptedPoints(tree, pattern);
    ReplicateSound(pattern, n);
    if Replicable(pattern, n) && TreeSingles(tree, pattern, true) && TreeTracks(tree, pattern, true) {
      SamePointsOf(t, Replicate(pattern, n).value);
    }
  }

  lemma SamePointsOf(a: Tree, b: Tree)
    requires Canonical(a) && Canonical(b) && a != EMPTY && PointsOf(a.children) == PointsOf(b.children)
    ensures a == b
  {
    hide PointsOf, Points;
    PointsOfTree(a);
    SomePoints(a);
    if b == EMPTY { NoPoints(); } else { PointsOfTree(b); }
    if a != b { DifferentPoints(a, b); }
  }

  // ----- inputs -----

  const ONE := Tree([Block(0, 1, EMPTY)])
  const GAP := Tree([Block(0, 1, EMPTY), Block(5, 1, EMPTY)])
  const TWO_RUNS := Tree([Block(0, 2, EMPTY), Block(3, 1, EMPTY)])
  const SHORT_RUN := Tree([Block(0, 1, EMPTY), Block(3, 1, EMPTY)])
  const TWICE_ONE := Tree([Block(0, 2, ONE)])
  const TWICE_PAIR := Tree([Block(0, 2, PAIR)])
  const ONE_PAIR := Tree([Block(0, 1, PAIR)])
  const PAIR_AND_ONE := Tree([Block(0, 1, PAIR), Block(1, 1, ONE)])

  /** A canonical tree and its rank. */
  ghost predicate Ranked(t: Tree, k: nat) {
    Canonical(t) && t != EMPTY && Uniform(t, k + 1) && Rank(t) == Some(k + 1) && Level(t.children, k)
  }

  lemma RankedOf(t: Tree, k: nat)
    requires Canonical(t) && t != EMPTY && UniformSubs(t.children, k)
    ensures Ranked(t, k)
  {
    UniformChildren(t, k);
    RankIsUniform(t, k + 1);
  }

  lemma LeafUniform()
    ensures Canonical(EMPTY) && Uniform(EMPTY, 0)
  {
  }

  lemma SmallTrees()
    ensures Ranked(ONE, 0) && Ranked(PAIR, 0) && Ranked(GAP, 0) && Ranked(TWO_RUNS, 0) && Ranked(SHORT_RUN, 0)
  {
    hide Uniform, Rank;
    LeafUniform();
    assert ONE.children[1..] == PAIR.children[1..] == [];
    assert GAP.children[1..] == [Block(5, 1, EMPTY)] && GAP.children[1..][1..] == [];
    assert SHORT_RUN.children[1..] == TWO_RUNS.children[1..] == [Block(3, 1, EMPTY)];
    assert SHORT_RUN.children[1..][1..] == [];
    RankedOf(ONE, 0);
    RankedOf(PAIR, 0);
    RankedOf(GAP, 0);
    RankedOf(TWO_RUNS, 0);
    RankedOf(SHORT_RUN, 0);
  }

  /** Trees of one rank are compared as they are. */
  lemma NrOfRank(tree: Tree, pattern: Tree, k: nat)
    requires Ranked(tree, k) && Ranked(pattern, k)
    ensures Pruned(tree, k) == tree && MinStart(pattern.children) == pattern.children[0].start
    ensures Nr(tree, pattern, true)
         == NrLoop(tree.children, pattern.children, pattern.children, pattern.children[0].start, true, k)
    ensures Nr(tree, pattern, false)
         == NrLoop(tree.children, pattern.children, pattern.children, pattern.children[0].start, false, k)
  {
    hide Pruned, Rank, NrLoop;
    UniformPruned(tree, k + 1);
    RangeOfOrdered(pattern.children);
  }

  lemma LevelOf(t: Tree, k: nat)
    requires Ranked(t, k)
    ensures Level(t.children, k) && t.children != [] && Level(t.children[1..], k)
    ensures |t.children| == 2 ==> Level([t.children[1]], k) && t.children[1..] == [t.children[1]]
  {
    RestLevel(t.children, k);
  }

  lemma Restates(tree: Tree, pattern: Tree, k: nat)
    requires Ranked(tree, k) && Ranked(pattern, k) && pattern.children != [] && pattern.children[0].start == 0
    ensures Level(tree.children, k) && Level(pattern.children, k)
    ensures Nr(tree, pattern, true) == NrLoop(tree.children, pattern.children, pattern.children, 0, true, k)
    ensures Nr(tree, pattern, true).Some? ==>
              var bs := pattern.children;
              && (TreeTracks(tree, pattern, true) <==> Tracks(tree.children, bs, bs, 0, true, k))
              && (TreeSingles(tree, pattern, true) <==> Singles(tree.children, bs, bs, 0, true, k))
  {
    hide Nr, TreeTracks, TreeSingles, NrLoop, Tracks, Singles, Pruned, Level;
    LevelOf(tree, k);
    LevelOf(pattern, k);
    NrOfRank(tree, pattern, k);
    if Nr(tree, pattern, true).Some? { AtStart(tree, pattern, true, pattern.children, tree.children, k); }
  }

  /** Taking a whole first block in a match. */
  lemma MatchesWhole(ps: seq<Block>, rs: seq<Block>, all: seq<Block>, i0: int, cycle: bool, k: nat)
    requires Level(ps, k) && Level(rs, k) && Level(all, k) && all != [] && Depth(rs) <= Depth(all)
    requires ps != [] && rs != [] && rs[0].sub == ps[0].sub && ps[0].start == rs[0].start + i0
    requires ps[0].count <= rs[0].count
    ensures Level(ps[1..], k) && Level(rs[1..], k) && Depth(rs[1..]) <= Depth(all)
    ensures var rest := NrLoop(ps[1..], rs[1..], all, i0, cycle, k);
            && NrLoop(ps, rs, all, i0, cycle, k) == Add(ps[0].count * Size(rs[0].sub), rest)
            && (rest.Some? ==>
                  && (Singles(ps, rs, all, i0, cycle, k) <==> Singles(ps[1..], rs[1..], all, i0, cycle, k))
                  && (Tracks(ps, rs, all, i0, cycle, k)
                      <==> if ps[0].count < rs[0].count && |ps| > 1 then EndsCut(ps, rs[0].sub)
                           else Tracks(ps[1..], rs[1..], all, i0, cycle, k)))
  {
    hide Nr, TreeSingles, TreeTracks, Lower, Size, EndsCut, CanonicalSubs, UniformSubs, Depth;
    RestLevel(ps, k);
    RestLevel(rs, k);
    FirstParts(ps, k);
    assert Take(ps, ps[0].count) == ps[1..];
    TakeLevel(ps, ps[0].count, k);
    TotalCountPositive(ps[1..]);
  }

  /** Restarting behind the end of the pattern. */
  lemma Restarts(ps: seq<Block>, all: seq<Block>, i0: int, k: nat)
    requires Level(ps, k) && Level([], k) && Level(all, k) && ps != [] && all != []
    ensures NrLoop(ps, [], all, i0, true, k) == NrLoop(ps, all, all, ps[0].start, true, k)
  {
    hide Level, Nr, Lower, Take, Size, Depth, TotalCount;
  }

  lemma NothingLeft(all: seq<Block>, i0: int, k: nat)
    requires Level(all, k) && all != []
    ensures Level([], k) && Depth([]) <= Depth(all) && NrLoop([], [], all, i0, true, k) == Some(0)
    ensures Singles([], [], all, i0, true, k) && Tracks([], [], all, i0, true, k)
  {
  }

  lemma LeafSize()
    ensures Size(EMPTY) == 1
  {
  }

  lemma GapLoop(ps: seq<Block>, bs: seq<Block>)
    requires ps == GAP.children && bs == ONE.children && Level(ps, 0) && Level(bs, 0)
    ensures NrLoop(ps, bs, bs, 0, true, 0) == Some(2)
    ensures Singles(ps, bs, bs, 0, true, 0) && !Tracks(ps, bs, bs, 0, true, 0)
  {
    hide Nr, TreeTracks, TreeSingles, Level, NrLoop, Tracks, Singles, Size, EndsCut, Depth, Take, TotalCount;
    LeafSize();
    RestLevel(ps, 0);
    var rest := ps[1..];
    assert bs[1..] == [] && rest == [Block(5, 1, EMPTY)] && rest[1..] == [];
    NothingLeft(bs, 5, 0);
    MatchesWhole(rest, bs, bs, 5, true, 0);
    Restarts(rest, bs, 0, 0);
    MatchesWhole(ps, bs, bs, 0, true, 0);
    AtRestart(rest, bs, 0, true, 0);
  }

  /** A restart after any gap is accepted. */
  lemma GapAccepted()
    ensures Ranked(GAP, 0) && Ranked(ONE, 0) && Nr(GAP, ONE, true) == Some(2)
    ensures TreeSingles(GAP, ONE, true) && !TreeTracks(GAP, ONE, true)
  {
    hide Nr, TreeTracks, TreeSingles, Ranked, Level, NrLoop, Tracks, Singles, Rank, Canonical;
    SmallTrees();
    Restates(GAP, ONE, 0);
    GapLoop(GAP.children, ONE.children);
  }

  lemma ShortLoop(ps: seq<Block>, bs: seq<Block>)
    requires ps == SHORT_RUN.children && bs == TWO_RUNS.children && Level(ps, 0) && Level(bs, 0)
    ensures NrLoop(ps, bs, bs, 0, true, 0) == Some(2)
    ensures Singles(ps, bs, bs, 0, true, 0) && !Tracks(ps, bs, bs, 0, true, 0)
  {
    hide Nr, TreeTracks, TreeSingles, Level, NrLoop, Tracks, Singles, Size, Depth, Take, TotalCount;
    LeafSize();
    RestLevel(ps, 0);
    RestLevel(bs, 0);
    var rest := ps[1..];
    assert bs[1..] == rest == [Block(3, 1, EMPTY)] && rest[1..] == [];
    NothingLeft(bs, 0, 0);
    MatchesWhole(rest, rest, bs, 0, true, 0);
    MatchesWhole(ps, bs, bs, 0, true, 0);
  }

  /** A run shorter than its block in the pattern is accepted in front of other blocks. */
  lemma ShortRunAccepted()
    ensures Ranked(SHORT_RUN, 0) && Ranked(TWO_RUNS, 0) && Nr(SHORT_RUN, TWO_RUNS, true) == Some(2)
    ensures TreeSingles(SHORT_RUN, TWO_RUNS, true) && !TreeTracks(SHORT_RUN, TWO_RUNS, true)
  {
    hide Nr, TreeTracks, TreeSingles, Ranked, Level, NrLoop, Tracks, Singles, Rank, Canonical;
    SmallTrees();
    Restates(SHORT_RUN, TWO_RUNS, 0);
    ShortLoop(SHORT_RUN.children, TWO_RUNS.children);
  }

  lemma LargerTrees()
    ensures Ranked(TWICE_ONE, 1) && Ranked(ONE_PAIR, 1) && Ranked(PAIR_AND_ONE, 1) && Ranked(TWICE_PAIR, 1)
  {
    hide Ranked;
    SmallTrees();
    RankedSingle(2, ONE, 0);
    RankedSingle(1, PAIR, 0);
    RankedSingle(2, PAIR, 0);
    RankedTwo(PAIR, ONE, 0);
  }

  lemma RankedSingle(n: nat, sub: Tree, k: nat)
    requires n > 0 && Ranked(sub, k)
    ensures Ranked(Tree([Block(0, n, sub)]), k + 1)
  {
    hide Uniform, Rank;
    RankedParts(sub, k);
    LevelFirst(Block(0, n, sub), [], k + 1);
    RankedOf(Tree([Block(0, n, sub)]), k + 1);
  }

  lemma RankedTwo(a: Tree, b: Tree, k: nat)
    requires Ranked(a, k) && Ranked(b, k) && a != b
    ensures Ranked(Tree([Block(0, 1, a), Block(1, 1, b)]), k + 1)
  {
    hide Uniform, Rank;
    RankedParts(a, k);
    RankedParts(b, k);
    LevelFirst(Block(1, 1, b), [], k + 1);
    LevelFirst(Block(0, 1, a), [Block(1, 1, b)], k + 1);
    assert [Block(0, 1, a)] + [Block(1, 1, b)] == [Block(0, 1, a), Block(1, 1, b)];
    RankedOf(Tree([Block(0, 1, a), Block(1, 1, b)]), k + 1);
  }

  /** One more block in front. */
  lemma LevelFirst(b: Block, bs: seq<Block>, k: nat)
    requires b.count > 0 && Canonical(b.sub) && Uniform(b.sub, k) && Level(bs, k) && Coalesced(bs)
    requires bs != [] ==> b.End() <= bs[0].start && b.sub != bs[0].sub
    ensures Level([b] + bs, k) && Coalesced([b] + bs) && Canonical(Tree([b] + bs)) && [b] + [] == [b]
  {
    hide Uniform;
    assert ([b] + bs)[1..] == bs && ([b] + bs)[0] == b;
  }

  lemma RankedParts(t: Tree, k: nat)
    requires Ranked(t, k)
    ensures Canonical(t) && t != EMPTY && Uniform(t, k + 1) && Rank(t) == Some(k + 1)
  {
  }

  /** A single block whose subtree differs is compared by it. */
  lemma NestsSingle(ps: seq<Block>, rs: seq<Block>, all: seq<Block>, i0: int, k: nat)
    requires Level(ps, k) && Level(rs, k) && Level(all, k) && all != [] && Depth(rs) <= Depth(all)
    requires |ps| == 1 && rs != [] && rs[0].sub != ps[0].sub && ps[0].start == rs[0].start + i0
    requires k > 0 && Ranked(ps[0].sub, k - 1) && Ranked(rs[0].sub, k - 1)
    ensures NrLoop(ps, rs, all, i0, true, k) == Nr(ps[0].sub, rs[0].sub, false)
  {
    hide Nr, Take, Size, Depth, TotalCount, CanonicalSubs, UniformSubs;
  }

  /** One of the two points of a pair is counted as one. */
  lemma OneInPair()
    ensures Ranked(ONE, 0) && Ranked(PAIR, 0) && Nr(ONE, PAIR, false) == Some(1)
    ensures TreeSingles(ONE, PAIR, false) && TreeTracks(ONE, PAIR, false)
  {
    hide Nr, TreeTracks, TreeSingles, Ranked, Level, NrLoop, Tracks, Singles, Rank, Canonical, Depth, Size;
    SmallTrees();
    LevelOf(ONE, 0);
    LevelOf(PAIR, 0);
    NrOfRank(ONE, PAIR, 0);
    LeafSize();
    var ps, bs := ONE.children, PAIR.children;
    assert ps[1..] == [] && bs[1..] == [];
    AtEnd(bs, 0);
    RankedParts(ONE, 0);
    RankedParts(PAIR, 0);
    MatchesWhole(ps, bs, bs, 0, false, 0);
    AtStart(ONE, PAIR, false, bs, ps, 0);
  }

  lemma AtEnd(all: seq<Block>, k: nat)
    requires Level(all, k) && all != []
    ensures Level([], k) && Depth([]) <= Depth(all) && NrLoop([], [], all, 0, false, k) == Some(0)
    ensures Singles([], [], all, 0, false, k) && Tracks([], [], all, 0, false, k)
  {
  }

  /** The last block is counted once however often it repeats its subtree. */
  lemma RepeatedCutAccepted()
    ensures Ranked(TWICE_ONE, 1) && Ranked(ONE_PAIR, 1) && Nr(TWICE_ONE, ONE_PAIR, true) == Some(1)
    ensures Size(TWICE_ONE) == 2 && !TreeSingles(TWICE_ONE, ONE_PAIR, true) && !TreeTracks(TWICE_ONE, ONE_PAIR, true)
  {
    hide Nr, TreeTracks, TreeSingles, Ranked, Level, NrLoop, Tracks, Singles, Rank, Canonical, Depth, Size;
    LargerTrees();
    LevelOf(TWICE_ONE, 1);
    LevelOf(ONE_PAIR, 1);
    OneInPair();
    Restates(TWICE_ONE, ONE_PAIR, 1);
    var ps, bs := TWICE_ONE.children, ONE_PAIR.children;
    assert ONE != PAIR;
    NestsSingle(ps, bs, bs, 0, 1);
    AtNested(ps, bs, bs, 0, true, 1);
    TwoOnes();
  }

  lemma SizeOfOne(n: nat, sub: Tree)
    requires n > 0
    ensures Size(Tree([Block(0, n, sub)])) == n * Size(sub) && Size(EMPTY) == 1
    ensures Points(Tree([Block(0, n, sub)])) == Span(0, n, Points(sub)) && Points(EMPTY) == [[]]
  {
    var bs := [Block(0, n, sub)];
    assert bs[1..] == [] && Tree(bs) != EMPTY;
    SizeOfTree(Tree(bs));
    SizeOfFirst(bs);
    NoSize();
    PointsOfTree(Tree(bs));
    PointsOfFirst(bs);
    NoPoints();
  }

  lemma TwoOnes()
    ensures Size(TWICE_ONE) == 2
  {
    SizeOfOne(1, EMPTY);
    SizeOfOne(2, ONE);
  }

  /** The one case to allow for: a cut subtree behind whole copies looks like a restart, and the points are right. */
  lemma CutLooksLikeRestart()
    ensures Ranked(PAIR_AND_ONE, 1) && Ranked(TWICE_PAIR, 1) && Nr(PAIR_AND_ONE, TWICE_PAIR, true) == Some(3)
    ensures TreeSingles(PAIR_AND_ONE, TWICE_PAIR, true) && TreeTracks(PAIR_AND_ONE, TWICE_PAIR, true)
  {
    hide Nr, TreeTracks, TreeSingles, Ranked, Level, NrLoop, Tracks, Singles, Rank, Canonical, Depth, Size, EndsCut;
    LargerTrees();
    LevelOf(PAIR_AND_ONE, 1);
    LevelOf(TWICE_PAIR, 1);
    OneInPair();
    PairSize();
    Restates(PAIR_AND_ONE, TWICE_PAIR, 1);
    var ps, bs := PAIR_AND_ONE.children, TWICE_PAIR.children;
    var rest := ps[1..];
    assert ONE != PAIR && bs[1..] == [] && rest == [Block(1, 1, ONE)];
    NestsSingle(rest, bs, bs, 1, 1);
    AtNested(rest, bs, bs, 1, true, 1);
    NothingLeft(bs, 0, 1);
    Restarts(rest, bs, 0, 1);
    MatchesWhole(ps, bs, bs, 0, true, 1);
    AtRestart(rest, bs, 0, true, 1);
    PairCut(ps);
  }

  lemma PairSize()
    ensures Size(PAIR) == 2
  {
    SizeOfOne(2, EMPTY);
  }

  lemma PairCut(ps: seq<Block>)
    requires ps == PAIR_AND_ONE.children
    ensures EndsCut(ps, PAIR)
  {
    hide Under, Span, Points;
    SizeOfOne(1, EMPTY);
    SizeOfOne(2, EMPTY);
    SpanSplit(0, 2, 1, [[]]);
  }
}

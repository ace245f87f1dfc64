/** Enumerating the points of an index tree: `size` and `IndexTreeIterator`. */
module Enumeration {
  import opened IndexTrees
  import opened Compaction

  type Point = seq<int>

  /** prefix + p for every p. */
  function Under(prefix: Point, ps: seq<Point>): (r: seq<Point>)
    ensures |r| == |ps|
  {
    seq(|ps|, i requires 0 <= i < |ps| => prefix + ps[i])
  }

  /** ps below each of the n coordinates from x on. */
  function Span(x: int, n: int, ps: seq<Point>): seq<Point>
    decreases n
  {
    if n <= 0 then [] else Under([x], ps) + Span(x + 1, n - 1, ps)
  }

  function PointsOf(bs: seq<Block>): seq<Point>
    decreases Depth(bs), |bs|
  {
    if bs == [] then []
    else
      DepthHead(bs);
      Span(bs[0].start, bs[0].count, if bs[0].sub == EMPTY then [[]] else PointsOf(bs[0].sub.children))
      + PointsOf(bs[1..])
  }

  function Points(t: Tree): seq<Point> {
    if t == EMPTY then [[]] else PointsOf(t.children)
  }

  function SizeOf(bs: seq<Block>): nat
    decreases Depth(bs), |bs|
  {
    if bs == [] then 0
    else
      DepthHead(bs);
      (if bs[0].count <= 0 then 0
       else bs[0].count * (if bs[0].sub == EMPTY then 1 else SizeOf(bs[0].sub.children)))
      + SizeOf(bs[1..])
  }

  /** `IndexTree::size`. */
  function Size(t: Tree): nat {
    if t == EMPTY then 1 else SizeOf(t.children)
  }

  predicate LexLess(p: Point, q: Point) {
    q != [] && (p == [] || p[0] < q[0] || (p[0] == q[0] && LexLess(p[1..], q[1..])))
  }

  ghost predicate Increasing(ps: seq<Point>) {
    forall i, j | 0 <= i < j < |ps| :: LexLess(ps[i], ps[j])
  }

  // ----- membership -----

  lemma InUnder(prefix: Point, ps: seq<Point>, p: Point)
    ensures p in Under(prefix, ps) <==> prefix <= p && p[|prefix|..] in ps
  {
    if p in Under(prefix, ps) {
      var i :| 0 <= i < |ps| && Under(prefix, ps)[i] == p;
      assert p[|prefix|..] == ps[i];
    }
    if prefix <= p && p[|prefix|..] in ps {
      var i :| 0 <= i < |ps| && ps[i] == p[|prefix|..];
      assert Under(prefix, ps)[i] == p;
    }
  }

  lemma {:induction false} InSpan(x: int, n: int, ps: seq<Point>, p: Point)
    ensures p in Span(x, n, ps) <==> p != [] && x <= p[0] < x + n && p[1..] in ps
    decreases n
  {
    if n > 0 {
      InUnder([x], ps, p);
      InSpan(x + 1, n - 1, ps, p);
    }
  }

  lemma {:induction false} InPointsOf(bs: seq<Block>, p: Point)
    requires Ordered(bs) && CanonicalSubs(bs)
    ensures p in PointsOf(bs) <==> p != [] && Lookup(bs, p[0]).Some? && Has(Lookup(bs, p[0]).value, p[1..])
    decreases Depth(bs), |bs|
  {
    if bs != [] {
      DepthHead(bs);
      InPointsOf(bs[1..], p);
      InSpan(bs[0].start, bs[0].count, Points(bs[0].sub), p);
      if p != [] && bs[0].Covers(p[0]) {
        LookupBelow(bs[1..], p[0]);
        assert Canonical(bs[0].sub);
        InPointsOf(bs[0].sub.children, p[1..]);
      }
    }
  }

  // ----- order -----

  lemma {:induction false} SpanIncreasing(x: int, n: int, ps: seq<Point>)
    requires Increasing(ps)
    ensures Increasing(Span(x, n, ps))
    decreases n
  {
    if n > 0 {
      SpanIncreasing(x + 1, n - 1, ps);
      var first, rest := Under([x], ps), Span(x + 1, n - 1, ps);
      forall i, j | 0 <= i < j < |first| ensures LexLess(first[i], first[j]) {
        assert first[i][1..] == ps[i] && first[j][1..] == ps[j];
      }
      forall p, q | p in first && q in rest ensures LexLess(p, q) {
        InUnder([x], ps, p);
        InSpan(x + 1, n - 1, ps, q);
      }
      AppendIncreasing(first, rest);
    }
  }

  lemma AppendIncreasing(ps: seq<Point>, qs: seq<Point>)
    requires Increasing(ps) && Increasing(qs)
    requires forall p, q | p in ps && q in qs :: LexLess(p, q)
    ensures Increasing(ps + qs)
  {
  }

  lemma {:induction false} PointsOfIncreasing(bs: seq<Block>)
    requires Ordered(bs) && CanonicalSubs(bs)
    ensures Increasing(PointsOf(bs))
    decreases Depth(bs), |bs|
  {
    if bs != [] {
      DepthHead(bs);
      PointsOfIncreasing(bs[1..]);
      assert Canonical(bs[0].sub);
      PointsOfIncreasing(bs[0].sub.children);
      var first, rest := Span(bs[0].start, bs[0].count, Points(bs[0].sub)), PointsOf(bs[1..]);
      SpanIncreasing(bs[0].start, bs[0].count, Points(bs[0].sub));
      forall p, q | p in first && q in rest ensures LexLess(p, q) {
        InSpan(bs[0].start, bs[0].count, Points(bs[0].sub), p);
        InPointsOf(bs[1..], q);
        if q[0] < bs[0].End() {
          LookupBelow(bs[1..], q[0]);
        }
      }
      AppendIncreasing(first, rest);
    }
  }

  // ----- count -----

  lemma {:induction false} SpanLength(x: int, n: int, ps: seq<Point>)
    ensures |Span(x, n, ps)| == if n <= 0 then 0 else n * |ps|
    decreases n
  {
    if n > 0 {
      SpanLength(x + 1, n - 1, ps);
      assert n * |ps| == |ps| + (n - 1) * |ps|;
    }
  }

  lemma {:induction false} PointsOfLength(bs: seq<Block>)
    ensures |PointsOf(bs)| == SizeOf(bs)
    decreases Depth(bs), |bs|
  {
    if bs != [] {
      DepthHead(bs);
      PointsOfLength(bs[1..]);
      PointsOfLength(bs[0].sub.children);
      SpanLength(bs[0].start, bs[0].count, Points(bs[0].sub));
    }
  }

  /** Points lists exactly the denoted tuples, in strictly increasing order; `size` counts them. */
  lemma PointsEnumerate(t: Tree)
    requires Canonical(t)
    ensures forall p :: p in Points(t) <==> Has(t, p)
    ensures Increasing(Points(t))
    ensures |Points(t)| == Size(t)
  {
    forall p ensures p in Points(t) <==> Has(t, p) {
      InPointsOf(t.children, p);
    }
    PointsOfIncreasing(t.children);
    PointsOfLength(t.children);
  }

  lemma {:induction false} LexIrreflexive(p: Point)
    ensures !LexLess(p, p)
  {
    if p != [] {
      LexIrreflexive(p[1..]);
    }
  }

  lemma {:induction false} LexAsymmetric(p: Point, q: Point)
    ensures !(LexLess(p, q) && LexLess(q, p))
  {
    if p != [] && q != [] {
      LexAsymmetric(p[1..], q[1..]);
    }
  }

  lemma FirstIsLeast(ps: seq<Point>, qs: seq<Point>)
    requires Increasing(ps) && Increasing(qs) && ps != []
    requires forall p :: p in ps <==> p in qs
    ensures qs != [] && ps[0] == qs[0]
    ensures forall p :: p in ps[1..] <==> p in qs[1..]
  {
    assert ps[0] in qs && qs[0] in ps;
    LexAsymmetric(ps[0], qs[0]);
    forall p ensures p in ps[1..] <==> p in qs[1..] {
      LexIrreflexive(p);
      assert p in ps[1..] ==> p in ps && LexLess(ps[0], p);
      assert p in qs[1..] ==> p in qs && LexLess(qs[0], p);
      assert ps == [ps[0]] + ps[1..] && qs == [qs[0]] + qs[1..];
    }
  }

  /** An increasing list is determined by its members. */
  lemma {:induction false} IncreasingUnique(ps: seq<Point>, qs: seq<Point>)
    requires Increasing(ps) && Increasing(qs)
    requires forall p :: p in ps <==> p in qs
    ensures ps == qs
  {
    if ps == [] {
      if qs != [] { FirstIsLeast(qs, ps); }
    } else {
      FirstIsLeast(ps, qs);
      IncreasingUnique(ps[1..], qs[1..]);
      assert ps == [ps[0]] + ps[1..] && qs == [qs[0]] + qs[1..];
    }
  }

  /** Hence no tuple is listed twice. */
  lemma PointsDistinct(t: Tree, i: nat, j: nat)
    requires Canonical(t) && i < j < |Points(t)|
    ensures Points(t)[i] != Points(t)[j]
  {
    PointsEnumerate(t);
    LexIrreflexive(Points(t)[i]);
  }

  /** Compaction keeps the points of an ordered list, in order. */
  lemma CompactPoints(bs: seq<Block>)
    requires Ordered(bs) && CanonicalSubs(bs)
    ensures Make(bs).Success? && Canonical(Make(bs).value)
    ensures PointsOf(Make(bs).value.children) == PointsOf(bs)
  {
    CompactOrdered(bs);
    var r := Make(bs).value.children;
    forall p ensures p in PointsOf(r) <==> p in PointsOf(bs) {
      InPointsOf(r, p);
      InPointsOf(bs, p);
    }
    PointsOfIncreasing(r);
    PointsOfIncreasing(bs);
    IncreasingUnique(PointsOf(r), PointsOf(bs));
  }

  // ----- the iterator -----

  lemma UnderAppend(prefix: Point, ps: seq<Point>, qs: seq<Point>)
    ensures Under(prefix, ps + qs) == Under(prefix, ps) + Under(prefix, qs)
  {
  }

  lemma UnderUnder(prefix: Point, x: int, ps: seq<Point>)
    ensures Under(prefix, Under([x], ps)) == Under(prefix + [x], ps)
  {
    forall i | 0 <= i < |ps| ensures prefix + ([x] + ps[i]) == (prefix + [x]) + ps[i] {
    }
  }

  /** Unfolding the first coordinate of a span below a prefix. */
  lemma SpanUnder(prefix: Point, x: int, n: int, ps: seq<Point>)
    ensures n > 0 ==> Under(prefix, Span(x, n, ps)) == Under(prefix + [x], ps) + Under(prefix, Span(x + 1, n - 1, ps))
    ensures n <= 0 ==> Under(prefix, Span(x, n, ps)) == []
  {
    if n > 0 {
      UnderAppend(prefix, Under([x], ps), Span(x + 1, n - 1, ps));
      UnderUnder(prefix, x, ps);
    }
  }

  lemma NextBlockUnder(prefix: Point, bs: seq<Block>, k: nat)
    requires k < |bs|
    ensures Under(prefix, PointsOf(bs[k..]))
         == Under(prefix, Span(bs[k].start, bs[k].count, Points(bs[k].sub))) + Under(prefix, PointsOf(bs[k + 1..]))
  {
    var rest := bs[k..];
    assert rest[0] == bs[k] && rest[1..] == bs[k + 1..];
    UnderAppend(prefix, Span(rest[0].start, rest[0].count, Points(rest[0].sub)), PointsOf(rest[1..]));
  }

  lemma UnderNone(prefix: Point)
    ensures Under(prefix, PointsOf([])) == []
  {
  }

  lemma UnderUnit(prefix: Point)
    ensures Under(prefix, [[]]) == [prefix]
  {
    assert prefix + [] == prefix;
  }

  /** Moving the first part of what is still to come into what has been emitted. */
  lemma Advance(all: seq<Point>, before: seq<Point>, now: seq<Point>, u: seq<Point>, v: seq<Point>)
    requires before != [] && now != []
    requires before[..|before| - 1] + (u + v) == all
    requires now[..|now| - 1] == before[..|before| - 1] + u
    ensures now[..|now| - 1] + v == all
  {
    assert before[..|before| - 1] + (u + v) == (before[..|before| - 1] + u) + v;
  }

  class IndexTreeIterator {
    var treeCoords: seq<Point>
    var current: nat

    /** The empty tree yields nothing; every other tree yields its points in order. */
    constructor (tree: Tree)
      ensures treeCoords == (if tree == EMPTY then [] else Points(tree)) && current == 0
    {
      current := 0;
      treeCoords := [];
      new;
      treeCoords := treeCoords + [[]];
      GatherCoords(tree);
      ghost var ps := PointsOf(tree.children);
      forall i | 0 <= i < |ps| ensures [] + ps[i] == ps[i] {
      }
      assert Under([], ps) == ps;
      treeCoords := treeCoords[..|treeCoords| - 1];
    }

    predicate HasNext()
      reads this
    {
      current != |treeCoords|
    }

    method Next() returns (p: Point)
      requires current < |treeCoords|
      modifies this`current
      ensures p == old(treeCoords[current]) && current == old(current) + 1
      ensures HasNext() <==> current < |treeCoords|
    {
      p := treeCoords[current];
      current := current + 1;
    }

    /** Puts the subtree's points below the trailing prefix in front of it. */
    method GatherCoords(tree: Tree)
      requires treeCoords != []
      modifies this`treeCoords
      ensures var prefix := old(treeCoords[|treeCoords| - 1]);
              treeCoords == old(treeCoords[..|treeCoords| - 1])
                            + Under(prefix, PointsOf(tree.children)) + [prefix]
      decreases Depth(tree.children), 1
    {
      hide Span, Under, Depth, PointsOf;
      ghost var base, prefix := treeCoords[..|treeCoords| - 1], treeCoords[|treeCoords| - 1];
      ghost var all := base + Under(prefix, PointsOf(tree.children));
      var k := 0;
      assert tree.children[0..] == tree.children;
      while k < |tree.children|
        invariant k <= |tree.children|
        invariant treeCoords != [] && treeCoords[|treeCoords| - 1] == prefix
        invariant treeCoords[..|treeCoords| - 1] + Under(prefix, PointsOf(tree.children[k..])) == all
      {
        var Block(i, n, t) := tree.children[k];
        NextBlockUnder(prefix, tree.children, k);
        ghost var before := treeCoords;
        if t == EMPTY {
          PushLeaf(i, n);
        } else {
          DepthMember(tree.children, k);
          GatherBlock(i, n, t);
        }
        Advance(all, before, treeCoords,
                Under(prefix, Span(i, n, Points(t))), Under(prefix, PointsOf(tree.children[k + 1..])));
        k := k + 1;
      }
      UnderNone(prefix);
      assert tree.children[k..] == [];
      assert treeCoords == treeCoords[..|treeCoords| - 1] + [prefix];
    }

    /** A block of leaves: the prefix is extended and counted up, one copy per coordinate. */
    method PushLeaf(i: int, n: int)
      requires treeCoords != []
      modifies this`treeCoords
      ensures var prefix := old(treeCoords[|treeCoords| - 1]);
              treeCoords == old(treeCoords[..|treeCoords| - 1]) + Under(prefix, Span(i, n, [[]])) + [prefix]
    {
      hide Span, Under;
      var last := treeCoords[|treeCoords| - 1];
      treeCoords := treeCoords[..|treeCoords| - 1];
      ghost var prefix := last;
      ghost var all := treeCoords + Under(prefix, Span(i, n, [[]]));
      last := last + [i];
      var j := 0;
      while j < n
        invariant 0 <= j && (0 <= n ==> j <= n)
        invariant last == prefix + [i + j]
        invariant treeCoords + Under(prefix, Span(i + j, n - j, [[]])) == all
      {
        SpanUnder(prefix, i + j, n - j, [[]]);
        UnderUnit(last);
        assert treeCoords + ([last] + Under(prefix, Span(i + j + 1, n - j - 1, [[]])))
            == treeCoords + [last] + Under(prefix, Span(i + j + 1, n - j - 1, [[]]));
        treeCoords := treeCoords + [last];
        last := last[|last| - 1 := last[|last| - 1] + 1];
        j := j + 1;
      }
      SpanUnder(prefix, i + j, n - j, [[]]);
      last := last[..|last| - 1];
      treeCoords := treeCoords + [last];
    }

    /** A block with a subtree: the trailing prefix is extended, and counted up after each visit. */
    method GatherBlock(i: int, n: int, t: Tree)
      requires treeCoords != []
      modifies this`treeCoords
      ensures var prefix := old(treeCoords[|treeCoords| - 1]);
              treeCoords == old(treeCoords[..|treeCoords| - 1])
                            + Under(prefix, Span(i, n, PointsOf(t.children))) + [prefix]
      decreases Depth(t.children), 2
    {
      hide Span, Under, PointsOf, Depth;
      ghost var prefix, ps := treeCoords[|treeCoords| - 1], PointsOf(t.children);
      ghost var all := treeCoords[..|treeCoords| - 1] + Under(prefix, Span(i, n, ps));
      treeCoords := treeCoords[|treeCoords| - 1 := treeCoords[|treeCoords| - 1] + [i]];
      var j := 0;
      while j < n
        invariant 0 <= j && (0 <= n ==> j <= n)
        invariant treeCoords != [] && treeCoords[|treeCoords| - 1] == prefix + [i + j]
        invariant treeCoords[..|treeCoords| - 1] + Under(prefix, Span(i + j, n - j, ps)) == all
      {
        SpanUnder(prefix, i + j, n - j, ps);
        ghost var before := treeCoords;
        GatherCoords(t);
        var back := treeCoords[|treeCoords| - 1];
        treeCoords := treeCoords[|treeCoords| - 1 := back[|back| - 1 := back[|back| - 1] + 1]];
        Advance(all, before, treeCoords,
                Under(prefix + [i + j], ps), Under(prefix, Span(i + j + 1, n - j - 1, ps)));
        j := j + 1;
      }
      SpanUnder(prefix, i + j, n - j, ps);
      var back := treeCoords[|treeCoords| - 1];
      treeCoords := treeCoords[|treeCoords| - 1 := back[..|back| - 1]];
    }
  }
}

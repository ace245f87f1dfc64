/** What the order test `less_than` of hyperion/IndexTree.h says about the points of two trees. */
module MergeOrder {
  import opened Wrappers
  import opened IndexTrees
  import opened BlockLists
  import opened Enumeration
  import opened Merging

  predicate StartsWith(p: Point, c: Point) {
    |c| <= |p| && p[..|c|] == c
  }

  predicate GoesOn(q: Point, c: Point) {
    |c| < |q| && StartsWith(q, c)
  }

  /** p comes before c, or it starts with c and ends there or goes on with a smaller coordinate than q. */
  predicate LeavesBefore(p: Point, q: Point, c: Point) {
    if StartsWith(p, c) then |p| == |c| || (GoesOn(q, c) ==> p[|c|] < q[|c|]) else LexLess(p, c)
  }

  /**
   All points of b go on from c.  Some point of a starts with c, and those that do end there or go on with a
   smaller coordinate than any point of b.  The other points of a come before c.
   */
  ghost predicate Parted(a: Tree, b: Tree, c: Point) {
    && (forall q | Has(b, q) :: GoesOn(q, c))
    && (exists p :: Has(a, p) && StartsWith(p, c))
    && forall p, q | Has(a, p) && Has(b, q) :: LeavesBefore(p, q, c)
  }

  // ----- first and last coordinates -----

  lemma {:induction false} NoneBehind(bs: seq<Block>, x: int)
    requires Ordered(bs) && bs != [] && bs[|bs| - 1].End() <= x
    ensures Lookup(bs, x) == None
  {
    BlockLookup(bs, |bs| - 1, x);
  }

  /** The last coordinate of a tree, and what is below it. */
  lemma LastOf(t: Tree) returns (x: int, s: Tree)
    requires Canonical(t) && t != EMPTY
    ensures s == t.children[|t.children| - 1].sub && x == t.children[|t.children| - 1].End() - 1
    ensures Canonical(s) && Depth(s.children) < Depth(t.children)
    ensures Lookup(t.children, x) == Some(s)
    ensures forall y | Lookup(t.children, y).Some? :: y <= x
  {
    var k := |t.children| - 1;
    s, x := t.children[k].sub, t.children[k].End() - 1;
    SubCanonical(t.children, k);
    StartsAscend(t.children, k);
    BlockLookup(t.children, k, x);
    forall y | Lookup(t.children, y).Some? ensures y <= x {
      if y > x { NoneBehind(t.children, y); }
    }
  }

  lemma FirstOf(t: Tree) returns (x: int, s: Tree)
    requires Canonical(t) && t != EMPTY
    ensures s == t.children[0].sub && x == t.children[0].start
    ensures Canonical(s) && Depth(s.children) < Depth(t.children)
    ensures Lookup(t.children, x) == Some(s)
    ensures forall y | Lookup(t.children, y).Some? :: x <= y
  {
    s, x := t.children[0].sub, t.children[0].start;
    SubCanonical(t.children, 0);
    forall y | Lookup(t.children, y).Some? ensures x <= y {
      if y < x { LookupBelow(t.children, y); }
    }
  }

  /** One block of one coordinate: nothing but x has anything below it. */
  predicate OnlyOne(t: Tree) {
    |t.children| == 1 && t.children[0].count == 1
  }

  lemma OnlyCoordinate(t: Tree)
    requires Canonical(t) && t != EMPTY
    ensures OnlyOne(t) <==> forall y | Lookup(t.children, y).Some? :: y == t.children[0].start
  {
    var bs := t.children;
    var first, last := bs[0].start, bs[0].End() - 1;
    assert Lookup(bs, first).Some? && Lookup(bs, last).Some?;
    if |bs| > 1 {
      StartsAscend(bs, 1);
      var next := bs[1].start;
      BlockLookup(bs, 1, next);
      assert Lookup(bs, next).Some? && next != first;
    } else {
      LookupOne(bs[0], last);
      assert bs == [bs[0]];
      forall y | OnlyOne(t) && Lookup(bs, y).Some? ensures y == first { LookupOne(bs[0], y); }
    }
  }

  // ----- the order test -----

  /** The test as the original writes it, on first and last coordinates. */
  lemma LessThanSteps(a: Tree, b: Tree, x: int, y: int, s: Tree, u: Tree)
    requires Canonical(a) && Canonical(b) && a != EMPTY && b != EMPTY
    requires s == a.children[|a.children| - 1].sub && x == a.children[|a.children| - 1].End() - 1
    requires u == b.children[0].sub && y == b.children[0].start
    ensures LessThan(a, b) <==> x < y || (x == y && OnlyOne(b) && LessThan(s, u))
  {
  }

  lemma {:induction false} LessThanParts(a: Tree, b: Tree) returns (c: Point)
    requires Canonical(a) && Canonical(b) && LessThan(a, b)
    ensures Parted(a, b, c)
    decreases Depth(a.children)
  {
    hide LessThan, Canonical, Lookup;
    c := [];
    if a == EMPTY {
      LessThanEmpty(a, b);
      assert Has(a, []);
    } else if b != EMPTY {
      var x, s := LastOf(a);
      var y, u := FirstOf(b);
      LessThanSteps(a, b, x, y, s, u);
      OnlyCoordinate(b);
      if x < y {
        var p := SomePoint(a);
      } else {
        var e := LessThanParts(s, u);
        c := [x] + e;
        PartedUp(a, b, x, s, u, e);
      }
    } else {
      LessThanEmpty(a, b);
    }
  }

  lemma LessThanEmpty(a: Tree, b: Tree)
    requires a == EMPTY || b == EMPTY
    ensures LessThan(a, b) <==> a == EMPTY && b != EMPTY
  {
  }

  lemma StartsBelow(p: Point, x: int, e: Point)
    requires p != []
    ensures StartsWith(p, [x] + e) <==> p[0] == x && StartsWith(p[1..], e)
    ensures GoesOn(p, [x] + e) <==> p[0] == x && GoesOn(p[1..], e)
    ensures LexLess(p, [x] + e) <==> p[0] < x || (p[0] == x && LexLess(p[1..], e))
  {
    assert ([x] + e)[1..] == e;
    if |e| < |p| {
      assert p[..|e| + 1] == [p[0]] + p[1..][..|e|];
    }
  }

  lemma LeavesBelow(p: Point, q: Point, x: int, e: Point)
    requires p != [] && q != [] && q[0] == x
    ensures LeavesBefore(p, q, [x] + e) <==> p[0] < x || (p[0] == x && LeavesBefore(p[1..], q[1..], e))
  {
    hide StartsWith, LexLess;
    StartsBelow(p, x, e);
    StartsBelow(q, x, e);
    assert StartsWith(p[1..], e) ==> |e| < |p| by { LongEnough(p[1..], e); }
  }

  lemma LongEnough(p: Point, e: Point)
    ensures StartsWith(p, e) ==> |e| <= |p|
  {
  }

  /** The points of t that start with x are those of the subtree at x. */
  lemma HasBelow(t: Tree, x: int, p: Point)
    requires t != EMPTY
    ensures Has(t, [x] + p) <==> Lookup(t.children, x).Some? && Has(Lookup(t.children, x).value, p)
    ensures Has(t, p) <==> p != [] && Lookup(t.children, p[0]).Some? && Has(Lookup(t.children, p[0]).value, p[1..])
  {
    assert ([x] + p)[1..] == p;
  }

  /** Below the last coordinate of a, which is the only one of b, the same holds one coordinate shorter. */
  lemma PartedUp(a: Tree, b: Tree, x: int, s: Tree, u: Tree, e: Point)
    requires a != EMPTY && b != EMPTY && Parted(s, u, e)
    requires Lookup(a.children, x) == Some(s) && forall y | Lookup(a.children, y).Some? :: y <= x
    requires Lookup(b.children, x) == Some(u) && forall y | Lookup(b.children, y).Some? :: y == x
    ensures Parted(a, b, [x] + e)
  {
    hide Lookup, StartsWith, LexLess, LeavesBefore, GoesOn, Has;
    var c := [x] + e;
    forall q | Has(b, q) ensures q != [] && q[0] == x && Has(u, q[1..]) && GoesOn(q, c) {
      HasBelow(b, x, q);
      StartsBelow(q, x, e);
    }
    forall p, q | Has(a, p) && Has(b, q) ensures LeavesBefore(p, q, c) {
      HasBelow(a, x, p);
      LeavesBelow(p, q, x, e);
    }
    var p :| Has(s, p) && StartsWith(p, e);
    HasBelow(a, x, p);
    StartsBelow([x] + p, x, e);
    assert ([x] + p)[1..] == p;
  }

  lemma PartedDown(a: Tree, b: Tree, x: int, s: Tree, u: Tree, e: Point)
    requires a != EMPTY && b != EMPTY && Parted(a, b, [x] + e)
    requires Lookup(a.children, x) == Some(s) && Lookup(b.children, x) == Some(u)
    ensures Parted(s, u, e)
  {
    hide Lookup, StartsWith, LexLess, LeavesBefore, GoesOn, Has;
    var c := [x] + e;
    forall q | Has(u, q) ensures Has(b, [x] + q) && ([x] + q)[1..] == q && GoesOn(q, e) {
      HasBelow(b, x, q);
      StartsBelow([x] + q, x, e);
    }
    forall p, q | Has(s, p) && Has(u, q) ensures LeavesBefore(p, q, e) {
      HasBelow(a, x, p);
      LeavesBelow([x] + p, [x] + q, x, e);
      assert ([x] + p)[1..] == p;
    }
    var p :| Has(a, p) && StartsWith(p, c);
    HasBelow(a, x, p);
    assert p != [];
    StartsBelow(p, x, e);
  }

  lemma PointBelow(t: Tree, x: int) returns (p: Point)
    requires Canonical(t) && t != EMPTY && Lookup(t.children, x).Some?
    ensures Has(t, p) && p != [] && p[0] == x
  {
    LookupCanonical(t.children, x);
    var q := SomePoint(Lookup(t.children, x).value);
    p := [x] + q;
    HasBelow(t, x, q);
  }

  lemma FirstOfPoint(p: Point, q: Point, c: Point)
    requires p != [] && q != []
    ensures c != [] && StartsWith(p, c) ==> p[0] == c[0]
    ensures c != [] && LeavesBefore(p, q, c) ==> p[0] <= c[0]
    ensures c == [] && LeavesBefore(p, q, c) ==> p[0] < q[0]
  {
    if c != [] && StartsWith(p, c) { assert p[..|c|][0] == p[0]; }
  }

  /** The prefix from which b goes on starts with its only coordinate, the last one of a. */
  lemma PartedFirst(a: Tree, b: Tree, c: Point, x: int)
    requires Canonical(a) && Canonical(b) && a != EMPTY && b != EMPTY && Parted(a, b, c) && c != []
    requires Lookup(a.children, x).Some? && forall z | Lookup(a.children, z).Some? :: z <= x
    ensures c[0] == x && forall z | Lookup(b.children, z).Some? :: z == x
  {
    hide Lookup, StartsWith, LexLess, LeavesBefore, Has, Canonical;
    forall z | Lookup(b.children, z).Some? ensures z == c[0] {
      var q := PointBelow(b, z);
      FirstOfPoint(q, q, c);
    }
    var q := SomePoint(b);
    HasBelow(b, x, q);
    var p :| Has(a, p) && StartsWith(p, c);
    HasBelow(a, x, p);
    FirstOfPoint(p, q, c);
    var last := PointBelow(a, x);
    FirstOfPoint(last, q, c);
  }

  lemma {:induction false} PartsLess(a: Tree, b: Tree, c: Point)
    requires Canonical(a) && Canonical(b) && Parted(a, b, c)
    ensures LessThan(a, b)
    decreases |c|
  {
    hide LessThan, Canonical, Lookup, Has, LeavesBefore, StartsWith, LexLess;
    var q := SomePoint(b);
    if a == EMPTY || b == EMPTY {
      PartedEmpty(a, b, c);
    } else {
      var x, s := LastOf(a);
      var y, u := FirstOf(b);
      LessThanSteps(a, b, x, y, s, u);
      OnlyCoordinate(b);
      if c == [] {
        var last := PointBelow(a, x);
        var first := PointBelow(b, y);
        FirstOfPoint(last, first, c);
      } else {
        PartedFirst(a, b, c, x);
        assert c == [c[0]] + c[1..];
        PartedDown(a, b, x, s, u, c[1..]);
        PartsLess(s, u, c[1..]);
      }
    }
  }

  lemma PartedEmpty(a: Tree, b: Tree, c: Point)
    requires (a == EMPTY || b == EMPTY) && Parted(a, b, c)
    ensures LessThan(a, b)
  {
    if b == EMPTY { assert Has(b, []); }
  }

  /**
   What the order test says: the points of the one tree stand before those of the other, and the point where
   they part is the same for all points of the other.
   */
  lemma LessThanIs(a: Tree, b: Tree)
    requires Canonical(a) && Canonical(b)
    ensures LessThan(a, b) <==> exists c :: Parted(a, b, c)
  {
    hide LessThan, Canonical, Parted;
    if LessThan(a, b) { var c := LessThanParts(a, b); }
    if c :| Parted(a, b, c) { PartsLess(a, b, c); }
  }

  lemma {:induction false} BeforeWhatGoesOn(p: Point, q: Point, c: Point)
    requires StartsWith(q, c) && LexLess(p, c)
    ensures LexLess(p, q)
    decreases |c|
  {
    assert q[..|c|][0] == q[0] && q[..|c|][1..] == q[1..][..|c| - 1];
    if p != [] && p[0] == c[0] { BeforeWhatGoesOn(p[1..], q[1..], c[1..]); }
  }

  lemma {:induction false} PartsOrder(p: Point, q: Point, c: Point)
    requires GoesOn(q, c) && StartsWith(p, c) && LeavesBefore(p, q, c)
    ensures LexLess(p, q)
    decreases |c|
  {
    if c != [] {
      assert p[..|c|][0] == p[0] && p[..|c|][1..] == p[1..][..|c| - 1];
      assert q[..|c|][0] == q[0] && q[..|c|][1..] == q[1..][..|c| - 1];
      PartsOrder(p[1..], q[1..], c[1..]);
    }
  }

  /** In particular every point of the one comes before every point of the other in the order of the iterator. */
  lemma LessThanOrders(a: Tree, b: Tree, p: Point, q: Point)
    requires Canonical(a) && Canonical(b) && LessThan(a, b) && Has(a, p) && Has(b, q)
    ensures LexLess(p, q)
  {
    hide LessThan, Canonical, Has, LexLess;
    var c := LessThanParts(a, b);
    if StartsWith(p, c) { PartsOrder(p, q, c); } else { BeforeWhatGoesOn(p, q, c); }
  }

  ghost predicate AllBefore(a: Tree, q: Point) {
    forall p | Has(a, p) :: LexLess(p, q)
  }

  /** Against a tree of one point, the test is whether that point comes after all points. */
  lemma LessThanPoint(a: Tree, b: Tree, q: Point)
    requires Canonical(a) && Canonical(b) && forall p :: Has(b, p) <==> p == q
    ensures LessThan(a, b) <==> AllBefore(a, q)
  {
    hide LessThan, Canonical;
    if LessThan(a, b) {
      assert Has(b, q);
      forall p | Has(a, p) ensures LexLess(p, q) { LessThanOrders(a, b, p, q); }
    } else if AllBefore(a, q) {
      BeforePoint(a, b, q);
    }
  }

  lemma {:induction false} BeforePoint(a: Tree, b: Tree, q: Point)
    requires Canonical(a) && Canonical(b) && forall p :: Has(b, p) <==> p == q
    requires AllBefore(a, q)
    ensures LessThan(a, b)
    decreases |q|
  {
    hide LessThan, Canonical, Lookup, Has;
    var o := SomePoint(a);
    if b == EMPTY { HasEmpty([]); }
    if a == EMPTY { LessThanEmpty(a, b); }
    if a != EMPTY && b != EMPTY {
      var x, s := LastOf(a);
      var y, u := FirstOf(b);
      LessThanSteps(a, b, x, y, s, u);
      OnlyCoordinate(b);
      forall z | Lookup(b.children, z).Some? ensures z == q[0] { var r := PointBelow(b, z); }
      var last := PointBelow(a, x);
      if x == y {
        forall p ensures Has(u, p) <==> p == q[1..] {
          HasBelow(b, y, p);
          assert ([y] + p)[1..] == p && q == [q[0]] + q[1..];
        }
        forall p | Has(s, p) ensures LexLess(p, q[1..]) {
          HasBelow(a, x, p);
          assert ([x] + p)[1..] == p;
        }
        BeforePoint(s, u, q[1..]);
      }
    }
  }

  lemma HasEmpty(p: Point)
    ensures Has(EMPTY, p) <==> p == []
  {
  }
}

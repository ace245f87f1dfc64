/**
 Reindexing a column: the bounds and axes of `compute_reindexed` in hyperion/ColumnSpace.cc, and
 `reindex_copy_values` of hyperion/PhysicalTable.cc.
 */
module Reindexing {
  import opened Enumeration
  import opened ColumnIndex
  import opened TreeIndexSpace
  import opened RowMapping

  // ----- what the rectangles are -----

  /** A row's cells: the row itself on the row axes, a box on the element axes. */
  ghost predicate RowCells(dom: seq<Point>, rowDomains: map<Point, Box>, rowDim: nat, oldDim: nat) {
    && Rows(dom, rowDomains, rowDim, oldDim)
    && forall p | p in dom :: rowDomains[p][..rowDim] == PointBox(p) && exists e :: InBox(e, rowDomains[p][rowDim..])
  }

  /** The number of a row among the rows with its key. */
  ghost function Number(dom: seq<Point>, poss: seq<map<Point, int>>, rowDim: nat, p: Point): nat
    requires 0 < rowDim == |p| && forall q | q in dom :: |q| == rowDim
  {
    PositionOf(PeersOf(dom, poss, rowDim, p), p)
  }

  lemma PlaceIn(ps: seq<Point>, p: Point)
    requires Increasing(ps) && p in ps
    ensures PositionOf(ps, p) < |ps| && ps[PositionOf(ps, p)] == p
  {
    var k :| 0 <= k < |ps| && ps[k] == p;
    forall i, j | 0 <= i < j < |ps| ensures ps[i] != ps[j] {
      Distinct(ps, i, j);
    }
    PositionIs(ps, k);
  }

  lemma NumberIs(dom: seq<Point>, poss: seq<map<Point, int>>, rowDim: nat, p: Point)
    requires 0 < rowDim && p in dom && Increasing(dom) && forall q | q in dom :: |q| == rowDim
    ensures var peers := PeersOf(dom, poss, rowDim, p);
            Number(dom, poss, rowDim, p) < |peers| && peers[Number(dom, poss, rowDim, p)] == p
  {
    hide KeyOf, Peers, PositionOf, Increasing;
    PeersAre(dom, poss, rowDim - 1, KeyOf(poss, rowDim - 1, p));
    PlaceIn(PeersOf(dom, poss, rowDim, p), p);
  }

  /** q has the upper coordinates and the index positions of p. */
  ghost predicate Alike(poss: seq<map<Point, int>>, rowDim: nat, p: Point, q: Point)
    requires 0 < rowDim == |p| == |q| && forall i | 0 <= i < |poss| :: p in poss[i] && q in poss[i]
  {
    && (forall i | 0 <= i < rowDim - 1 :: q[i] == p[i])
    && forall i | 0 <= i < |poss| :: poss[i][q] == poss[i][p]
  }

  lemma AlikeIs(poss: seq<map<Point, int>>, rowDim: nat, p: Point, q: Point)
    requires 0 < rowDim == |p| == |q| && forall i | 0 <= i < |poss| :: p in poss[i] && q in poss[i]
    ensures KeyOf(poss, rowDim - 1, q) == KeyOf(poss, rowDim - 1, p) <==> Alike(poss, rowDim, p, q)
  {
    var kp, kq := KeyOf(poss, rowDim - 1, p), KeyOf(poss, rowDim - 1, q);
    if kp == kq {
      forall i | 0 <= i < rowDim - 1 ensures q[i] == p[i] { assert kp[i] == p[i] && kq[i] == q[i]; }
      forall i | 0 <= i < |poss| ensures poss[i][q] == poss[i][p] {
        var j := rowDim - 1 + i;
        assert kp[j] == poss[i][p] && kq[j] == poss[i][q];
      }
    }
  }

  /** The rows before p that are alike, as many as the number of p says. */
  lemma NumberCounts(dom: seq<Point>, poss: seq<map<Point, int>>, rowDim: nat, p: Point, before: set<Point>)
    requires 0 < rowDim && p in dom && Increasing(dom) && forall q | q in dom :: |q| == rowDim
    requires forall i, q | 0 <= i < |poss| && q in dom :: q in poss[i]
    requires forall q :: q in before <==> q in dom && LexLess(q, p) && Alike(poss, rowDim, p, q)
    ensures Number(dom, poss, rowDim, p) == |before|
  {
    hide KeyOf, Peers, PositionOf, Increasing, LexLess, Alike, Number;
    var peers, n := PeersOf(dom, poss, rowDim, p), Number(dom, poss, rowDim, p);
    NumberIs(dom, poss, rowDim, p);
    PeersAre(dom, poss, rowDim - 1, KeyOf(poss, rowDim - 1, p));
    forall q | q in dom ensures Alike(poss, rowDim, p, q) <==> q in peers { AlikeIs(poss, rowDim, p, q); }
    forall q ensures q in before <==> q in peers[..n] { BeforePlace(peers, n, q); }
    CardOfIncreasing(peers, n, before);
  }

  lemma BeforePlace(ps: seq<Point>, n: nat, q: Point)
    requires Increasing(ps) && n < |ps|
    ensures q in ps[..n] <==> q in ps && LexLess(q, ps[n])
  {
    hide LexLess;
    if q in ps && LexLess(q, ps[n]) {
      var i :| 0 <= i < |ps| && ps[i] == q;
      LexIrreflexive(q);
      if n < i { LexAsymmetric(q, ps[n]); }
      assert ps[..n][i] == q;
    }
    if q in ps[..n] {
      var i :| 0 <= i < n && ps[..n][i] == q;
      assert ps[i] == q;
    }
  }

  lemma {:induction false} CardOfIncreasing(ps: seq<Point>, n: nat, all: set<Point>)
    requires Increasing(ps) && n <= |ps| && forall q :: q in all <==> q in ps[..n]
    ensures |all| == n
  {
    hide Increasing;
    if n == 0 {
      assert all == {};
    } else {
      var last := ps[n - 1];
      assert ps[..n] == ps[..n - 1] + [last];
      LastIsNew(ps, n - 1);
      assert last in all;
      CardOfIncreasing(ps, n - 1, all - {last});
    }
  }

  lemma LastIsNew(ps: seq<Point>, n: nat)
    requires Increasing(ps) && n < |ps|
    ensures ps[n] !in ps[..n]
  {
    LexIrreflexive(ps[n]);
  }

  /** The coordinates in front of the element axes. */
  ghost function Front(dom: seq<Point>, poss: seq<map<Point, int>>, rowDim: nat, allowRows: bool, p: Point): Point
    requires 0 < rowDim == |p| && forall q | q in dom :: |q| == rowDim
  {
    KeyOf(poss, rowDim - 1, p) + if allowRows then [Number(dom, poss, rowDim, p)] else []
  }

  /** Different rows have different fronts: the key says which group, the number which row in it. */
  lemma FrontInjective(dom: seq<Point>, poss: seq<map<Point, int>>, rowDim: nat, allowRows: bool, p: Point, q: Point)
    requires 0 < rowDim && p in dom && q in dom && Increasing(dom) && forall r | r in dom :: |r| == rowDim
    requires Front(dom, poss, rowDim, allowRows, p) == Front(dom, poss, rowDim, allowRows, q)
    requires allowRows || |PeersOf(dom, poss, rowDim, p)| == 1
    ensures p == q
  {
    var kp, kq := KeyOf(poss, rowDim - 1, p), KeyOf(poss, rowDim - 1, q);
    var fp, fq := Front(dom, poss, rowDim, allowRows, p), Front(dom, poss, rowDim, allowRows, q);
    assert fp[..|kp|] == kp && fq[..|kp|] == kq;
    NumberIs(dom, poss, rowDim, p);
    NumberIs(dom, poss, rowDim, q);
    if allowRows { assert fp[|kp|] == fq[|kp|]; }
  }

  lemma {:induction false} InPointBox(pd: Point, p: Point, rest: Box)
    ensures InBox(pd, PointBox(p) + rest) <==> p <= pd && InBox(pd[|p|..], rest)
  {
    var b := PointBox(p) + rest;
    if p == [] {
      assert b == rest && pd[0..] == pd;
    } else {
      assert b[0] == Interval(p[0], p[0]) && b[1..] == PointBox(p[1..]) + rest;
      if pd != [] {
        InPointBox(pd[1..], p[1..], rest);
        assert p <= pd <==> p[0] == pd[0] && p[1..] <= pd[1..];
        if p <= pd { assert pd[|p|..] == pd[1..][|p[1..]|..]; }
      }
    }
  }

  /** The points of a row's rectangle: its front, followed by any of its elements. */
  lemma FinalRectPoints(dom: seq<Point>, poss: seq<map<Point, int>>, rowDim: nat, allowRows: bool,
                        rowDomains: map<Point, Box>, empty: Box, p: Point, pd: Point)
    requires 0 < rowDim == |p| && (forall q | q in dom :: |q| == rowDim) && p in rowDomains && rowDim <= |rowDomains[p]|
    requires allowRows || |PeersOf(dom, poss, rowDim, p)| == 1
    ensures var front := Front(dom, poss, rowDim, allowRows, p);
            (InBox(pd, FinalRect(dom, poss, rowDim, allowRows, rowDomains, empty, p))
             <==> front <= pd && InBox(pd[|front|..], rowDomains[p][rowDim..]))
  {
    var key, front := KeyOf(poss, rowDim - 1, p), Front(dom, poss, rowDim, allowRows, p);
    assert PointBox(front) == PointBox(key) + if allowRows then [Interval(front[|key|], front[|key|])] else [];
    InPointBox(pd, front, rowDomains[p][rowDim..]);
  }

  ghost predicate NoPoints(box: Box) {
    forall pd :: !InBox(pd, box)
  }

  /** Rectangles of different rows share no point. */
  lemma RectsDisjointRows(dom: seq<Point>, poss: seq<map<Point, int>>, rowDim: nat, allowRows: bool,
                          rowDomains: map<Point, Box>, oldDim: nat, empty: Box, p: Point, q: Point, pd: Point)
    requires Rows(dom, rowDomains, rowDim, oldDim) && Increasing(dom) && NoPoints(empty)
    requires p in dom && q in dom && p != q
    ensures !(InBox(pd, FinalRect(dom, poss, rowDim, allowRows, rowDomains, empty, p))
              && InBox(pd, FinalRect(dom, poss, rowDim, allowRows, rowDomains, empty, q)))
  {
    if (allowRows || |PeersOf(dom, poss, rowDim, p)| == 1) && (allowRows || |PeersOf(dom, poss, rowDim, q)| == 1) {
      FinalRectPoints(dom, poss, rowDim, allowRows, rowDomains, empty, p, pd);
      FinalRectPoints(dom, poss, rowDim, allowRows, rowDomains, empty, q, pd);
      var fp, fq := Front(dom, poss, rowDim, allowRows, p), Front(dom, poss, rowDim, allowRows, q);
      if fp <= pd && fq <= pd {
        assert |fp| == |fq|;
        assert fp == pd[..|fp|] && fq == pd[..|fp|];
        FrontInjective(dom, poss, rowDim, allowRows, p, q);
      }
    }
  }

  lemma OnlyPeer(dom: seq<Point>, poss: seq<map<Point, int>>, rowDim: nat, p: Point)
    requires 0 < rowDim && p in dom && Increasing(dom) && forall q | q in dom :: |q| == rowDim
    ensures |PeersOf(dom, poss, rowDim, p)| == 1
       <==> forall q | q in dom && KeyOf(poss, rowDim - 1, q) == KeyOf(poss, rowDim - 1, p) :: q == p
  {
    hide KeyOf, Peers;
    var peers := PeersOf(dom, poss, rowDim, p);
    PeersAre(dom, poss, rowDim - 1, KeyOf(poss, rowDim - 1, p));
    assert p in peers;
    if |peers| > 1 {
      Distinct(peers, 0, 1);
      assert peers[0] in peers && peers[1] in peers;
    }
  }

  /** Without a row axis a row keeps a rectangle with points exactly when no other row has its key. */
  lemma UniqueRows(dom: seq<Point>, poss: seq<map<Point, int>>, rowDim: nat, rowDomains: map<Point, Box>, oldDim: nat,
                   empty: Box, p: Point)
    requires RowCells(dom, rowDomains, rowDim, oldDim) && Increasing(dom) && NoPoints(empty) && p in dom
    ensures !NoPoints(FinalRect(dom, poss, rowDim, false, rowDomains, empty, p))
       <==> forall q | q in dom && KeyOf(poss, rowDim - 1, q) == KeyOf(poss, rowDim - 1, p) :: q == p
    ensures NoPoints(FinalRect(dom, poss, rowDim, false, rowDomains, empty, p))
            ==> FinalRect(dom, poss, rowDim, false, rowDomains, empty, p) == empty
  {
    hide KeyOf, PeersOf, InBox, Front, RowRect, Increasing;
    OnlyPeer(dom, poss, rowDim, p);
    if |PeersOf(dom, poss, rowDim, p)| == 1 {
      var e :| InBox(e, rowDomains[p][rowDim..]);
      var front := Front(dom, poss, rowDim, false, p);
      assert front <= front + e && (front + e)[|front|..] == e;
      FinalRectPoints(dom, poss, rowDim, false, rowDomains, empty, p, front + e);
    }
  }

  // ----- the new bounds and axes -----

  datatype NewSpace = NewSpace(bounds: Box, axes: seq<int>)

  /** Upper row axes, index axes, the row axis if it is kept, element axes. */
  function Reordered<T>(axes: seq<T>, rowDim: nat, indexed: seq<T>, allowRows: bool): seq<T>
    requires 0 < rowDim <= |axes|
  {
    axes[..rowDim - 1] + indexed + (if allowRows then [axes[rowDim - 1]] else []) + axes[rowDim..]
  }

  lemma ReorderedAt<T>(axes: seq<T>, rowDim: nat, indexed: seq<T>, allowRows: bool, x: nat)
    requires 0 < rowDim <= |axes| && x < |axes| - 1 + |indexed| + if allowRows then 1 else 0
    ensures var r, m := Reordered(axes, rowDim, indexed, allowRows), rowDim - 1 + |indexed|;
            && |r| == |axes| - 1 + |indexed| + (if allowRows then 1 else 0)
            && r[x] == if x < rowDim - 1 then axes[x]
                       else if x < m then indexed[x - (rowDim - 1)]
                       else axes[x - |indexed| + if allowRows then 0 else 1]
  {
  }

  /** The loops over the running indices i and j of the new and the old axes. */
  method NewBounds(colRect: Box, currentAxes: seq<int>, rowDim: nat, indexAxes: seq<int>, indexBounds: Box,
                   allowRows: bool)
      returns (space: NewSpace)
    requires 0 < rowDim <= |colRect| == |currentAxes| && |indexAxes| == |indexBounds|
    requires currentAxes[rowDim - 1] == 0
    ensures space.bounds == Reordered(colRect, rowDim, indexBounds, allowRows)
    ensures space.axes == Reordered(currentAxes, rowDim, indexAxes, allowRows)
  {
    hide Reordered;
    var rowMax, ixDim := rowDim - 1, |indexAxes|;
    var newDim := |colRect| - 1 + ixDim + if allowRows then 1 else 0;
    ghost var boxes := Reordered(colRect, rowDim, indexBounds, allowRows);
    ghost var axes := Reordered(currentAxes, rowDim, indexAxes, allowRows);
    ReorderedLength(colRect, rowDim, indexBounds, allowRows);
    ReorderedLength(currentAxes, rowDim, indexAxes, allowRows);
    var newBounds := seq(newDim, x => Interval(0, 0));
    var newAxes := seq(newDim, x => 0);
    var i, j := 0, 0;
    while i < rowMax
      invariant i == j <= rowMax && |newBounds| == |newAxes| == newDim
      invariant forall x | 0 <= x < i :: newBounds[x] == boxes[x] && newAxes[x] == axes[x]
    {
      ReorderedAt(colRect, rowDim, indexBounds, allowRows, i);
      ReorderedAt(currentAxes, rowDim, indexAxes, allowRows, i);
      newBounds := newBounds[i := colRect[j]];
      newAxes := newAxes[i := currentAxes[j]];
      i, j := i + 1, j + 1;
    }
    var k := 0;
    while k < ixDim
      invariant k <= ixDim && i == rowMax + k && j == rowMax && |newBounds| == |newAxes| == newDim
      invariant forall x | 0 <= x < i :: newBounds[x] == boxes[x] && newAxes[x] == axes[x]
    {
      ReorderedAt(colRect, rowDim, indexBounds, allowRows, i);
      ReorderedAt(currentAxes, rowDim, indexAxes, allowRows, i);
      newBounds := newBounds[i := indexBounds[k]];
      newAxes := newAxes[i := indexAxes[k]];
      i, k := i + 1, k + 1;
    }
    if allowRows {
      ReorderedAt(colRect, rowDim, indexBounds, allowRows, i);
      ReorderedAt(currentAxes, rowDim, indexAxes, allowRows, i);
      newBounds := newBounds[i := colRect[j]];
      newAxes := newAxes[i := 0];
      i := i + 1;
    }
    j := j + 1;
    while i < newDim
      invariant rowMax + ixDim <= i <= newDim && j == i - ixDim + if allowRows then 0 else 1
      invariant |newBounds| == |newAxes| == newDim
      invariant forall x | 0 <= x < i :: newBounds[x] == boxes[x] && newAxes[x] == axes[x]
    {
      ReorderedAt(colRect, rowDim, indexBounds, allowRows, i);
      ReorderedAt(currentAxes, rowDim, indexAxes, allowRows, i);
      newBounds := newBounds[i := colRect[j]];
      newAxes := newAxes[i := currentAxes[j]];
      i, j := i + 1, j + 1;
    }
    space := NewSpace(newBounds, newAxes);
  }

  lemma ReorderedLength<T>(axes: seq<T>, rowDim: nat, indexed: seq<T>, allowRows: bool)
    requires 0 < rowDim <= |axes|
    ensures |Reordered(axes, rowDim, indexed, allowRows)| == |axes| - 1 + |indexed| + if allowRows then 1 else 0
  {
  }
}

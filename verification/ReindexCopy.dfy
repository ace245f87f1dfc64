/** `reindex_copy_values` of hyperion/PhysicalTable.cc, and what a reindexed column contains. */
module ReindexCopy {
  import opened Enumeration
  import opened ColumnIndex
  import opened TreeIndexSpace
  import opened RowMapping
  import opened Reindexing

  /** The points of a rectangle, row-major. */
  function BoxPoints(box: Box): seq<Point> {
    if box == [] then [[]] else Span(box[0].lo, box[0].hi - box[0].lo + 1, BoxPoints(box[1..]))
  }

  lemma {:induction false} InBoxPoints(box: Box, p: Point)
    ensures p in BoxPoints(box) <==> InBox(p, box)
  {
    if box != [] {
      InSpan(box[0].lo, box[0].hi - box[0].lo + 1, BoxPoints(box[1..]), p);
      if p != [] { InBoxPoints(box[1..], p[1..]); }
    }
  }

  class Region<V> {
    var data: map<Point, V>
  }

  /** The source cell that is copied to pd: the row, then the trailing coordinates of pd. */
  function SourceOf(row: Point, pd: Point, srcDim: nat): Point
    requires |row| <= srcDim <= |row| + |pd|
  {
    row + pd[|pd| - (srcDim - |row|)..]
  }

  /** ps is overwritten from its end. */
  method SourcePoint(row: Point, pd: Point, ps: array<int>)
    requires 0 < |row| <= ps.Length <= |row| + |pd| && ps[..|row|] == row
    modifies ps
    ensures ps[..] == SourceOf(row, pd, ps.Length)
  {
    var i, j := ps.Length - 1, |pd| - 1;
    while i >= |row|
      invariant |row| - 1 <= i < ps.Length && i - ps.Length == j - |pd| && ps[..|row|] == row
      invariant ps[i + 1..] == pd[j + 1..]
    {
      assert pd[j..] == [pd[j]] + pd[j + 1..];
      ps[i] := pd[j];
      assert ps[i..] == [ps[i]] + ps[i + 1..];
      i, j := i - 1, j - 1;
    }
    assert ps[..] == ps[..|row|] + ps[|row|..];
  }

  /** All rectangles have room for the element axes, and the cells they ask for exist. */
  ghost predicate Sources<V>(rows: seq<Point>, rects: map<Point, Box>, from: map<Point, V>, rowDim: nat, srcDim: nat) {
    0 < rowDim <= srcDim
    && forall row | row in rows ::
         && |row| == rowDim && row in rects
         && forall pd | InBox(pd, rects[row]) ::
              srcDim <= rowDim + |pd| && SourceOf(row, pd, srcDim) in from
  }

  ghost predicate Apart(rows: seq<Point>, rects: map<Point, Box>) {
    forall p, q, pd | p in rows && q in rows && p != q && p in rects && q in rects && InBox(pd, rects[p]) ::
      !InBox(pd, rects[q])
  }

  ghost predicate Copied<V>(to: map<Point, V>, row: Point, box: Box, from: map<Point, V>, srcDim: nat) {
    forall pd | InBox(pd, box) ::
      && pd in to && |row| <= srcDim <= |row| + |pd| && SourceOf(row, pd, srcDim) in from
      && to[pd] == from[SourceOf(row, pd, srcDim)]
  }

  /** Every point outside the box is as before. */
  ghost predicate KeptOutside<V(!new)>(before: map<Point, V>, after: map<Point, V>, box: Box) {
    forall pd | !InBox(pd, box) :: (pd in before <==> pd in after) && (pd in before ==> after[pd] == before[pd])
  }

  /** The first j points have been copied, and nothing outside the box has been touched. */
  ghost predicate CopiedTo<V(!new)>(before: map<Point, V>, after: map<Point, V>, pts: seq<Point>, j: nat, row: Point,
                                    box: Box, from: map<Point, V>, srcDim: nat) {
    && j <= |pts| && KeptOutside(before, after, box)
    && forall m | 0 <= m < j ::
         && pts[m] in after && |row| <= srcDim <= |row| + |pts[m]| && SourceOf(row, pts[m], srcDim) in from
         && after[pts[m]] == from[SourceOf(row, pts[m], srcDim)]
  }

  lemma CopyStep<V(!new)>(before: map<Point, V>, after: map<Point, V>, pts: seq<Point>, j: nat, row: Point,
                          box: Box, from: map<Point, V>, srcDim: nat)
    requires CopiedTo(before, after, pts, j, row, box, from, srcDim) && j < |pts|
    requires InBox(pts[j], box) && |row| <= srcDim <= |row| + |pts[j]| && SourceOf(row, pts[j], srcDim) in from
    ensures CopiedTo(before, after[pts[j] := from[SourceOf(row, pts[j], srcDim)]], pts, j + 1, row, box, from, srcDim)
  {
  }

  lemma AllCopied<V(!new)>(before: map<Point, V>, after: map<Point, V>, row: Point, box: Box, from: map<Point, V>,
                           srcDim: nat)
    requires CopiedTo(before, after, BoxPoints(box), |BoxPoints(box)|, row, box, from, srcDim)
    ensures Copied(after, row, box, from, srcDim) && KeptOutside(before, after, box)
  {
    var pts := BoxPoints(box);
    forall pd | InBox(pd, box)
      ensures pd in after && |row| <= srcDim <= |row| + |pd| && SourceOf(row, pd, srcDim) in from
           && after[pd] == from[SourceOf(row, pd, srcDim)]
    {
      InBoxPoints(box, pd);
      var m :| 0 <= m < |pts| && pts[m] == pd;
    }
  }

  method CopyRow<V(!new)>(row: Point, box: Box, from: map<Point, V>, to: Region<V>, srcDim: nat)
    requires 0 < |row| <= srcDim
    requires forall pd | InBox(pd, box) :: srcDim <= |row| + |pd| && SourceOf(row, pd, srcDim) in from
    modifies to
    ensures Copied(to.data, row, box, from, srcDim) && KeptOutside(old(to.data), to.data, box)
  {
    hide CopiedTo, SourceOf, InBox, BoxPoints;
    var ps := new int[srcDim];
    var x := 0;
    while x < |row|
      invariant x <= |row| && ps[..x] == row[..x] && to.data == old(to.data)
    {
      ps[x] := row[x];
      x := x + 1;
    }
    assert row[..|row|] == row;
    var pts := BoxPoints(box);
    var j := 0;
    NoneCopied(to.data, pts, row, box, from, srcDim);
    while j < |pts|
      invariant j <= |pts| && ps[..|row|] == row
      invariant CopiedTo(old(to.data), to.data, pts, j, row, box, from, srcDim)
    {
      var pd := pts[j];
      assert pd in pts;
      InBoxPoints(box, pd);
      SourcePoint(row, pd, ps);
      SourcePrefix(row, pd, srcDim);
      assert ps[..|row|] == ps[..][..|row|];
      CopyStep(old(to.data), to.data, pts, j, row, box, from, srcDim);
      to.data := to.data[pd := from[ps[..]]];
      j := j + 1;
    }
    AllCopied(old(to.data), to.data, row, box, from, srcDim);
  }

  lemma NoneCopied<V(!new)>(before: map<Point, V>, pts: seq<Point>, row: Point, box: Box, from: map<Point, V>,
                            srcDim: nat)
    ensures CopiedTo(before, before, pts, 0, row, box, from, srcDim)
  {
  }

  lemma SourcePrefix(row: Point, pd: Point, srcDim: nat)
    requires |row| <= srcDim <= |row| + |pd|
    ensures SourceOf(row, pd, srcDim)[..|row|] == row
  {
  }

  ghost predicate Outside(pd: Point, rows: seq<Point>, rects: map<Point, Box>) {
    forall row | row in rows && row in rects :: !InBox(pd, rects[row])
  }

  /** Every point outside all rectangles is as before. */
  ghost predicate KeptOutsideAll<V(!new)>(before: map<Point, V>, after: map<Point, V>, rows: seq<Point>,
                                          rects: map<Point, Box>) {
    forall pd | Outside(pd, rows, rects) ::
      (pd in before <==> pd in after) && (pd in before ==> after[pd] == before[pd])
  }

  lemma KeptOutsideOne<V(!new)>(first: map<Point, V>, before: map<Point, V>, after: map<Point, V>, rows: seq<Point>,
                                rects: map<Point, Box>, row: Point)
    requires KeptOutsideAll(first, before, rows, rects) && row in rows && row in rects
    requires KeptOutside(before, after, rects[row])
    ensures KeptOutsideAll(first, after, rows, rects)
  {
    hide InBox;
  }

  method ReindexCopyValues<V(!new)>(rows: seq<Point>, rects: map<Point, Box>, from: map<Point, V>, to: Region<V>,
                                    rowDim: nat, srcDim: nat)
    requires Sources(rows, rects, from, rowDim, srcDim) && Apart(rows, rects) && Increasing(rows)
    modifies to
    ensures forall row | row in rows :: row in rects && Copied(to.data, row, rects[row], from, srcDim)
    ensures KeptOutsideAll(old(to.data), to.data, rows, rects)
  {
    hide KeptOutsideAll, KeptOutside, Copied, InBox;
    NothingChanged(to.data, rows, rects);
    var k := 0;
    while k < |rows|
      invariant k <= |rows| && KeptOutsideAll(old(to.data), to.data, rows, rects)
      invariant forall m | 0 <= m < k :: rows[m] in rects && Copied(to.data, rows[m], rects[rows[m]], from, srcDim)
    {
      ghost var before := to.data;
      assert rows[k] in rows;
      CopyRow(rows[k], rects[rows[k]], from, to, srcDim);
      forall m | 0 <= m < k ensures rows[m] in rects && Copied(to.data, rows[m], rects[rows[m]], from, srcDim) {
        Distinct(rows, m, k);
        assert rows[m] in rows;
        StillCopied(before, to.data, rows[m], rects[rows[m]], rects[rows[k]], from, srcDim);
      }
      KeptOutsideOne(old(to.data), before, to.data, rows, rects, rows[k]);
      k := k + 1;
    }
  }

  lemma NothingChanged<V(!new)>(data: map<Point, V>, rows: seq<Point>, rects: map<Point, Box>)
    ensures KeptOutsideAll(data, data, rows, rects)
  {
  }

  lemma StillCopied<V(!new)>(before: map<Point, V>, after: map<Point, V>, row: Point, box: Box, other: Box,
                       from: map<Point, V>, srcDim: nat)
    requires Copied(before, row, box, from, srcDim) && KeptOutside(before, after, other)
    requires forall pd | InBox(pd, box) :: !InBox(pd, other)
    ensures Copied(after, row, box, from, srcDim)
  {
  }

  // ----- reindexing one column -----

  /** The cells of the column: those of the boxes of its rows. */
  ghost predicate Cells<V(!new)>(from: map<Point, V>, dom: seq<Point>, rowDomains: map<Point, Box>, rowDim: nat,
                                 oldDim: nat) {
    && RowCells(dom, rowDomains, rowDim, oldDim)
    && forall s :: s in from <==> |s| >= rowDim && s[..rowDim] in dom && InBox(s, rowDomains[s[..rowDim]])
  }

  /** Where the source cell s of row p goes. */
  ghost function Target(dom: seq<Point>, poss: seq<map<Point, int>>, rowDim: nat, allowRows: bool, s: Point): Point
    requires 0 < rowDim <= |s| && forall q | q in dom :: |q| == rowDim
  {
    Front(dom, poss, rowDim, allowRows, s[..rowDim]) + s[rowDim..]
  }

  /** The rows whose cells are kept. */
  ghost predicate Kept(dom: seq<Point>, poss: seq<map<Point, int>>, rowDim: nat, allowRows: bool, p: Point)
    requires 0 < rowDim == |p| && forall q | q in dom :: |q| == rowDim
  {
    allowRows || |PeersOf(dom, poss, rowDim, p)| == 1
  }

  /** pd is the target of exactly one kept cell when it lies in a rectangle. */
  lemma TargetOf(dom: seq<Point>, poss: seq<map<Point, int>>, rowDim: nat, allowRows: bool, rowDomains: map<Point, Box>,
                 oldDim: nat, empty: Box, p: Point, pd: Point)
    requires RowCells(dom, rowDomains, rowDim, oldDim) && p in dom && Kept(dom, poss, rowDim, allowRows, p)
    requires InBox(pd, FinalRect(dom, poss, rowDim, allowRows, rowDomains, empty, p))
    ensures oldDim <= rowDim + |pd|
    ensures var s := SourceOf(p, pd, oldDim);
            |s| == oldDim && s[..rowDim] == p && InBox(s, rowDomains[p])
                && Target(dom, poss, rowDim, allowRows, s) == pd
  {
    hide FinalRect, Front, Number, PeersOf, InBox;
    var front := Front(dom, poss, rowDim, allowRows, p);
    FinalRectPoints(dom, poss, rowDim, allowRows, rowDomains, empty, p, pd);
    InBoxIs(pd[|front|..], rowDomains[p][rowDim..]);
    var s := SourceOf(p, pd, oldDim);
    assert s == p + pd[|front|..] && s[rowDim..] == pd[|front|..];
    assert rowDomains[p] == PointBox(p) + rowDomains[p][rowDim..];
    InPointBox(s, p, rowDomains[p][rowDim..]);
    assert pd == front + pd[|front|..];
  }

  lemma TargetIn(dom: seq<Point>, poss: seq<map<Point, int>>, rowDim: nat, allowRows: bool, rowDomains: map<Point, Box>,
                 oldDim: nat, empty: Box, s: Point)
    requires RowCells(dom, rowDomains, rowDim, oldDim) && |s| >= rowDim && s[..rowDim] in dom
    requires Kept(dom, poss, rowDim, allowRows, s[..rowDim]) && InBox(s, rowDomains[s[..rowDim]])
    ensures var pd, p := Target(dom, poss, rowDim, allowRows, s), s[..rowDim];
            && InBox(pd, FinalRect(dom, poss, rowDim, allowRows, rowDomains, empty, p))
            && oldDim <= rowDim + |pd| && SourceOf(p, pd, oldDim) == s
  {
    hide KeyOf, FinalRect, Number, PeersOf;
    var p := s[..rowDim];
    var front, pd := Front(dom, poss, rowDim, allowRows, p), Target(dom, poss, rowDim, allowRows, s);
    assert front <= pd && pd[|front|..] == s[rowDim..];
    assert rowDomains[p] == PointBox(p) + rowDomains[p][rowDim..];
    InPointBox(s, p, rowDomains[p][rowDim..]);
    FinalRectPoints(dom, poss, rowDim, allowRows, rowDomains, empty, p, pd);
    InBoxIs(s, rowDomains[p]);
    assert s == p + s[rowDim..];
    assert pd[|pd| - (oldDim - rowDim)..] == s[rowDim..];
  }

  /** No two kept cells go to the same place. */
  lemma TargetInjective(dom: seq<Point>, poss: seq<map<Point, int>>, rowDim: nat, allowRows: bool, s: Point, t: Point)
    requires 0 < rowDim <= |s| && |t| == |s| && Increasing(dom) && forall q | q in dom :: |q| == rowDim
    requires s[..rowDim] in dom && t[..rowDim] in dom
    requires Kept(dom, poss, rowDim, allowRows, s[..rowDim])
    requires Target(dom, poss, rowDim, allowRows, s) == Target(dom, poss, rowDim, allowRows, t)
    ensures s == t
  {
    var fs, ft := Front(dom, poss, rowDim, allowRows, s[..rowDim]), Front(dom, poss, rowDim, allowRows, t[..rowDim]);
    var target := Target(dom, poss, rowDim, allowRows, s);
    assert |fs| == |ft|;
    assert fs == target[..|fs|] == ft && s[rowDim..] == target[|fs|..] == t[rowDim..];
    FrontInjective(dom, poss, rowDim, allowRows, s[..rowDim], t[..rowDim]);
    assert s == s[..rowDim] + s[rowDim..] && t == t[..rowDim] + t[rowDim..];
  }

  /** Rows that agree on all axes but their last: from 0 on, the last one has grown to at least k at place k. */
  lemma {:induction false} AtLeast(ps: seq<Point>, r: nat, front: Point, k: nat)
    requires Increasing(ps) && k < |ps| && |front| == r
    requires forall i | 0 <= i < |ps| :: |ps[i]| == r + 1 && ps[i][..r] == front && ps[i][r] >= 0
    ensures ps[k][r] >= k
  {
    if k > 0 {
      AtLeast(ps, r, front, k - 1);
      assert LexLess(ps[k - 1], ps[k]);
      LexLast(ps[k - 1], ps[k], r);
    }
  }

  lemma {:induction false} LexLast(p: Point, q: Point, r: nat)
    requires |p| == |q| == r + 1 && p[..r] == q[..r] && LexLess(p, q)
    ensures p[r] < q[r]
  {
    if r > 0 {
      assert p[0] == p[..r][0] == q[..r][0] == q[0];
      assert p[1..][..r - 1] == p[..r][1..] && q[1..][..r - 1] == q[..r][1..];
      LexLast(p[1..], q[1..], r - 1);
    } else {
      assert p[1..] == [] && q[1..] == [];
    }
  }

  ghost predicate PosInRange(cols: seq<seq<seq<Point>>>, poss: seq<map<Point, int>>, p: Point) {
    |cols| == |poss| && forall i | 0 <= i < |cols| :: p in poss[i] && 0 <= poss[i][p] < |cols[i]|
  }

  /** The coordinates of a target, range by range. */
  lemma TargetAt(dom: seq<Point>, poss: seq<map<Point, int>>, rowDim: nat, allowRows: bool, s: Point, x: nat)
    requires 0 < rowDim <= |s| && forall q | q in dom :: |q| == rowDim
    requires forall i | 0 <= i < |poss| :: s[..rowDim] in poss[i]
    requires x < |s| - 1 + |poss| + if allowRows then 1 else 0
    ensures var t, r1, p := Target(dom, poss, rowDim, allowRows, s), rowDim - 1, s[..rowDim];
            && |t| == |s| - 1 + |poss| + (if allowRows then 1 else 0)
            && t[x] == if x < r1 then s[x]
                       else if x < r1 + |poss| then poss[x - r1][p]
                       else if allowRows && x == r1 + |poss| then Number(dom, poss, rowDim, p)
                       else s[x - |poss| + if allowRows then 0 else 1]
  {
    hide Number;
  }

  /** A kept cell lands inside the new bounds exactly when, with a row axis, its number is within the row bounds. */
  lemma TargetInBounds(cols: seq<seq<seq<Point>>>, dom: seq<Point>, poss: seq<map<Point, int>>, rowDim: nat,
                       allowRows: bool, colRect: Box, s: Point)
    requires Indexed(cols, dom, poss) && 0 < rowDim <= |s| == |colRect|
    requires (forall q | q in dom :: |q| == rowDim) && s[..rowDim] in dom && InBox(s, colRect)
    ensures InBox(Target(dom, poss, rowDim, allowRows, s),
                  Reordered(colRect, rowDim, seq(|cols|, i requires 0 <= i < |cols| => Interval(0, |cols[i]| - 1)),
                            allowRows))
       <==> (allowRows ==> colRect[rowDim - 1].lo <= Number(dom, poss, rowDim, s[..rowDim]) <= colRect[rowDim - 1].hi)
  {
    hide Number, Target, Reordered, InBox, Indexed;
    var p := s[..rowDim];
    var ix := seq(|cols|, i requires 0 <= i < |cols| => Interval(0, |cols[i]| - 1));
    var t, b := Target(dom, poss, rowDim, allowRows, s), Reordered(colRect, rowDim, ix, allowRows);
    InBoxIs(s, colRect);
    InRange(cols, dom, poss, p);
    ReorderedLength(colRect, rowDim, ix, allowRows);
    TargetAt(dom, poss, rowDim, allowRows, s, 0);
    forall x | 0 <= x < |t|
      ensures (b[x].lo <= t[x] <= b[x].hi)
         <==> (allowRows && x == rowDim - 1 + |poss| ==>
                 colRect[rowDim - 1].lo <= Number(dom, poss, rowDim, p) <= colRect[rowDim - 1].hi)
    {
      ReorderedAt(colRect, rowDim, ix, allowRows, x);
      TargetAt(dom, poss, rowDim, allowRows, s, x);
    }
    InBoxIs(t, b);
    if allowRows { TargetAt(dom, poss, rowDim, allowRows, s, rowDim - 1 + |poss|); }
  }

  lemma InRange(cols: seq<seq<seq<Point>>>, dom: seq<Point>, poss: seq<map<Point, int>>, p: Point)
    requires Indexed(cols, dom, poss) && p in dom
    ensures PosInRange(cols, poss, p) && |poss| > 0
  {
    forall i | 0 <= i < |cols| ensures p in poss[i] && 0 <= poss[i][p] < |cols[i]| {
      assert IndexedBy(cols[i], dom, poss[i]);
    }
  }

  /** With rows from 0 on, the number of a row is at most its last coordinate, so it is within the row bounds. */
  lemma NumberInRange(dom: seq<Point>, poss: seq<map<Point, int>>, rowDim: nat, p: Point)
    requires 0 < rowDim && p in dom && Increasing(dom) && forall q | q in dom :: |q| == rowDim && q[rowDim - 1] >= 0
    ensures 0 <= Number(dom, poss, rowDim, p) <= p[rowDim - 1]
  {
    hide Filter, Number, Increasing;
    NumberIs(dom, poss, rowDim, p);
    var peers, key := PeersOf(dom, poss, rowDim, p), KeyOf(poss, rowDim - 1, p);
    PeersAre(dom, poss, rowDim - 1, key);
    forall i | 0 <= i < |peers|
      ensures |peers[i]| == rowDim && peers[i][rowDim - 1] >= 0 && peers[i][..rowDim - 1] == key[..rowDim - 1]
    {
      assert peers[i] in peers;
    }
    AtLeast(peers, rowDim - 1, key[..rowDim - 1], Number(dom, poss, rowDim, p));
  }

  /** The only row of a column is row 5; reindexed, it is number 0 and lies below the row bounds. */
  lemma RowFive(cols: seq<seq<seq<Point>>>, dom: seq<Point>, poss: seq<map<Point, int>>)
    requires dom == [[5]] && cols == [[[[5]]]] && poss == [map[[5] := 0]]
    ensures Indexed(cols, dom, poss)
    ensures var s, colRect := [5], [Interval(5, 5)];
            InBox(s, colRect)
            && !InBox(Target(dom, poss, 1, true, s),
                      Reordered(colRect, 1, seq(|cols|, i requires 0 <= i < |cols| => Interval(0, |cols[i]| - 1)),
                                true))
  {
    hide Target, Reordered, Number, PeersOf;
    var s, colRect := [5], [Interval(5, 5)];
    InBoxIs(s, colRect);
    assert IndexedBy(cols[0], dom, poss[0]);
    assert s[..1] == s;
    TargetInBounds(cols, dom, poss, 1, true, colRect, s);
    OnlyRow(dom, poss, s);
  }

  lemma OnlyRow(dom: seq<Point>, poss: seq<map<Point, int>>, p: Point)
    requires dom == [p] && |p| == 1
    ensures Number(dom, poss, 1, p) == 0
  {
    hide KeyOf, Filter;
    NumberIs(dom, poss, 1, p);
    var peers := PeersOf(dom, poss, 1, p);
    PeersAre(dom, poss, 0, KeyOf(poss, 0, p));
    assert peers[0] in peers;
    SamePlace(peers, Number(dom, poss, 1, p));
  }

  lemma SamePlace(ps: seq<Point>, k: nat)
    requires Increasing(ps) && k < |ps| && ps[0] == ps[k]
    ensures k == 0
  {
    LexIrreflexive(ps[k]);
  }

  function EmptyRect(dim: nat): Box
    requires dim > 0
  {
    [Interval(0, -1)] + seq(dim - 1, x => Interval(0, 0))
  }

  lemma EmptyRectIsEmpty(dim: nat)
    requires dim > 0
    ensures NoPoints(EmptyRect(dim)) && |EmptyRect(dim)| == dim
  {
    forall pd ensures !InBox(pd, EmptyRect(dim)) {
      InBoxIs(pd, EmptyRect(dim));
    }
  }

  /**
   Row mapping and copying together: every kept cell is found at its target, and the rectangles contain
   nothing but these targets.
   */
  method ReindexColumn<V(!new)>(cols: seq<seq<seq<Point>>>, rowDim: nat, allowRows: bool, rows: seq<Point>,
                                rowDomains: map<Point, Box>, oldDim: nat, rowBounds: Box, order: seq<Point>,
                                from: map<Point, V>, to: Region<V>, ghost poss: seq<map<Point, int>>)
      returns (rects: map<Point, Box>)
    requires Indexed(cols, rows, poss) && Cells(from, rows, rowDomains, rowDim, oldDim)
    requires |rowBounds| == rowDim && Inside(rows, rowBounds) && Exact(rowDim, allowRows, rowBounds)
    requires forall p :: p in order <==> InBox(p, LaunchBounds(rowBounds, rowDim, cols))
    modifies to
    ensures forall s | s in from ::
              |s| >= rowDim && s[..rowDim] in rows
              && (Kept(rows, poss, rowDim, allowRows, s[..rowDim]) ==>
                    var t := Target(rows, poss, rowDim, allowRows, s);
                    t in to.data && to.data[t] == from[s])
    ensures forall p, pd | p in rows :: p in rects
              && (InBox(pd, rects[p]) ==>
                    Kept(rows, poss, rowDim, allowRows, p)
                    && exists s :: s in from && s[..rowDim] == p && Target(rows, poss, rowDim, allowRows, s) == pd)
    ensures KeptOutsideAll(old(to.data), to.data, rows, rects)
  {
    hide Indexed, FinalRect, InBox, LaunchBounds, RowCells, Kept, Target, Increasing, RunTasks, Inside, Exact,
         KeptOutsideAll;
    CellsFacts(from, rows, rowDomains, rowDim, oldDim);
    RowsFacts(rows, rowDomains, rowDim, oldDim);
    IndexedFacts(cols, rows, poss);
    IndexedIncreasing(cols, rows, poss);
    var empty := EmptyRect(oldDim - 1 + |cols| + if allowRows then 1 else 0);
    EmptyRectIsEmpty(oldDim - 1 + |cols| + if allowRows then 1 else 0);
    var rowMap := new RowMap(rows, empty);
    ComputeRowMapping(cols, rowDim, allowRows, rowDomains, oldDim, rowBounds, order, rowMap, rows, poss);
    AllMapped(cols, rows, poss, rowDim, allowRows, rowDomains, oldDim, rowBounds, empty, order);
    rects := rowMap.rects;
    RectsReady(from, rows, poss, rowDim, allowRows, rowDomains, oldDim, empty, rects);
    ReindexCopyValues(rows, rects, from, to, rowDim, oldDim);
    ContentKept(from, to.data, rows, poss, rowDim, allowRows, rowDomains, oldDim, empty, rects);
  }

  lemma CellsFacts<V(!new)>(from: map<Point, V>, dom: seq<Point>, rowDomains: map<Point, Box>, rowDim: nat, oldDim: nat)
    requires Cells(from, dom, rowDomains, rowDim, oldDim)
    ensures RowCells(dom, rowDomains, rowDim, oldDim)
  {
  }

  lemma RowsFacts(dom: seq<Point>, rowDomains: map<Point, Box>, rowDim: nat, oldDim: nat)
    requires RowCells(dom, rowDomains, rowDim, oldDim)
    ensures Rows(dom, rowDomains, rowDim, oldDim)
  {
  }

  lemma IndexedIncreasing(cols: seq<seq<seq<Point>>>, dom: seq<Point>, poss: seq<map<Point, int>>)
    requires Indexed(cols, dom, poss)
    ensures Increasing(dom)
  {
  }

  lemma RectsReady<V(!new)>(from: map<Point, V>, dom: seq<Point>, poss: seq<map<Point, int>>, rowDim: nat,
                            allowRows: bool, rowDomains: map<Point, Box>, oldDim: nat, empty: Box,
                            rects: map<Point, Box>)
    requires Cells(from, dom, rowDomains, rowDim, oldDim) && Increasing(dom) && NoPoints(empty)
    requires Rows(dom, rowDomains, rowDim, oldDim)
    requires Mapped(rects, dom, poss, rowDim, allowRows, rowDomains, oldDim, empty)
    ensures Sources(dom, rects, from, rowDim, oldDim) && Apart(dom, rects)
  {
    hide FinalRect, RowCells, InBox, Kept, Increasing, KeyOf, Filter;
    forall p, pd | p in dom && InBox(pd, rects[p])
      ensures oldDim <= rowDim + |pd| && SourceOf(p, pd, oldDim) in from
    {
      KeptIfHit(dom, poss, rowDim, allowRows, rowDomains, oldDim, empty, p, pd);
      TargetOf(dom, poss, rowDim, allowRows, rowDomains, oldDim, empty, p, pd);
    }
    forall p, q, pd | p in dom && q in dom && p != q && InBox(pd, rects[p]) ensures !InBox(pd, rects[q]) {
      RectsDisjointRows(dom, poss, rowDim, allowRows, rowDomains, oldDim, empty, p, q, pd);
    }
  }

  lemma KeptIfHit(dom: seq<Point>, poss: seq<map<Point, int>>, rowDim: nat, allowRows: bool,
                  rowDomains: map<Point, Box>, oldDim: nat, empty: Box, p: Point, pd: Point)
    requires Rows(dom, rowDomains, rowDim, oldDim) && NoPoints(empty) && p in dom
    requires InBox(pd, FinalRect(dom, poss, rowDim, allowRows, rowDomains, empty, p))
    ensures Kept(dom, poss, rowDim, allowRows, p)
  {
  }

  lemma ContentKept<V(!new)>(from: map<Point, V>, to: map<Point, V>, dom: seq<Point>, poss: seq<map<Point, int>>,
                             rowDim: nat, allowRows: bool, rowDomains: map<Point, Box>, oldDim: nat, empty: Box,
                             rects: map<Point, Box>)
    requires Cells(from, dom, rowDomains, rowDim, oldDim) && NoPoints(empty) && Rows(dom, rowDomains, rowDim, oldDim)
    requires Mapped(rects, dom, poss, rowDim, allowRows, rowDomains, oldDim, empty)
    requires forall row | row in dom :: row in rects && Copied(to, row, rects[row], from, oldDim)
    ensures forall s | s in from ::
              |s| >= rowDim && s[..rowDim] in dom
              && (Kept(dom, poss, rowDim, allowRows, s[..rowDim]) ==>
                    var t := Target(dom, poss, rowDim, allowRows, s); t in to && to[t] == from[s])
    ensures forall p, pd | p in dom :: p in rects
              && (InBox(pd, rects[p]) ==>
                    Kept(dom, poss, rowDim, allowRows, p)
                    && exists s :: s in from && s[..rowDim] == p && Target(dom, poss, rowDim, allowRows, s) == pd)
  {
    hide FinalRect, RowCells, InBox, Kept, Target;
    forall s | s in from && Kept(dom, poss, rowDim, allowRows, s[..rowDim])
      ensures var t := Target(dom, poss, rowDim, allowRows, s); t in to && to[t] == from[s]
    {
      TargetIn(dom, poss, rowDim, allowRows, rowDomains, oldDim, empty, s);
      assert Copied(to, s[..rowDim], rects[s[..rowDim]], from, oldDim);
    }
    forall p, pd | p in dom && InBox(pd, rects[p])
      ensures Kept(dom, poss, rowDim, allowRows, p)
           && exists s :: s in from && s[..rowDim] == p && Target(dom, poss, rowDim, allowRows, s) == pd
    {
      KeptIfHit(dom, poss, rowDim, allowRows, rowDomains, oldDim, empty, p, pd);
      TargetOf(dom, poss, rowDim, allowRows, rowDomains, oldDim, empty, p, pd);
      var s := SourceOf(p, pd, oldDim);
      assert s in from;
    }
  }
}

/**
 `compute_row_mapping_task` and `compute_row_mapping` of hyperion/ColumnSpace.cc: every row of a column
 gets a rectangle in the reindexed space.
 */
module RowMapping {
  import opened Enumeration
  import opened ColumnIndex
  import opened TreeIndexSpace

  /** The region with one rectangle per row. */
  class RowMap {
    var rects: map<Point, Box>

    /** `fill_field` with the empty rectangle. */
    constructor (rows: seq<Point>, empty: Box)
      ensures rects == map p | p in rows :: empty
    {
      rects := map p | p in rows :: empty;
    }
  }

  // ----- the rows that share index positions -----

  /** cols are the indexes of several columns over the same rows; poss[i] is the position of a row in cols[i]. */
  ghost predicate Indexed(cols: seq<seq<seq<Point>>>, dom: seq<Point>, poss: seq<map<Point, int>>) {
    && |cols| == |poss| > 0 && Increasing(dom)
    && forall i | 0 <= i < |cols| :: IndexedBy(cols[i], dom, poss[i])
  }

  ghost function PositionsOf(poss: seq<map<Point, int>>, p: Point): (r: Point)
    ensures |r| == |poss|
  {
    seq(|poss|, i requires 0 <= i < |poss| => if p in poss[i] then poss[i][p] else -1)
  }

  /** The first r coordinates of a row and its index positions. */
  ghost function KeyOf(poss: seq<map<Point, int>>, r: nat, p: Point): Point
    requires r <= |p|
  {
    p[..r] + PositionsOf(poss, p)
  }

  /** The rows with a given key, in increasing order. */
  ghost function Peers(dom: seq<Point>, poss: seq<map<Point, int>>, r: nat, key: Point): seq<Point>
    requires forall p | p in dom :: r <= |p|
  {
    Filter(dom, map p | p in dom :: KeyOf(poss, r, p), key)
  }

  lemma PeersAre(dom: seq<Point>, poss: seq<map<Point, int>>, r: nat, key: Point)
    requires Increasing(dom) && forall p | p in dom :: r <= |p|
    ensures Increasing(Peers(dom, poss, r, key))
    ensures forall p :: p in Peers(dom, poss, r, key) <==> p in dom && KeyOf(poss, r, p) == key
  {
    var keys := map p | p in dom :: KeyOf(poss, r, p);
    FilterIncreasing(dom, keys, key);
    forall p ensures p in Peers(dom, poss, r, key) <==> p in dom && KeyOf(poss, r, p) == key {
      InFilter(dom, keys, key, p);
    }
  }

  // ----- the task at one index point -----

  /** Only the rows with the index positions at[0], at[1], .... */
  ghost predicate Common(rows: seq<Point>, dom: seq<Point>, poss: seq<map<Point, int>>, at: Point)
    requires |at| <= |poss|
  {
    && Increasing(rows)
    && forall p :: p in rows <==> p in dom && forall i | 0 <= i < |at| :: p in poss[i] && poss[i][p] == at[i]
  }

  lemma MoreCommon(cols: seq<seq<seq<Point>>>, dom: seq<Point>, poss: seq<map<Point, int>>,
                   rows: seq<Point>, at: Point, x: int)
    requires Indexed(cols, dom, poss) && |at| < |cols| && 0 <= x < |cols[|at|]|
    requires Common(rows, dom, poss, at)
    ensures Common(Intersection(rows, cols[|at|][x]), dom, poss, at + [x])
  {
    var n, more := |at|, cols[|at|][x];
    assert IndexedBy(cols[n], dom, poss[n]);
    IntersectionIncreasing(rows, more);
    forall p ensures p in Intersection(rows, more)
                <==> p in dom && forall i | 0 <= i < n + 1 :: p in poss[i] && poss[i][p] == (at + [x])[i] {
      IntersectionIs(rows, more, p);
      if p in dom && forall i | 0 <= i < n + 1 :: p in poss[i] && poss[i][p] == (at + [x])[i] {
        forall i | 0 <= i < n ensures p in poss[i] && poss[i][p] == at[i] {
          assert (at + [x])[i] == at[i];
        }
        assert (at + [x])[n] == x;
      }
    }
  }

  lemma FirstCommon(cols: seq<seq<seq<Point>>>, dom: seq<Point>, poss: seq<map<Point, int>>, x: int)
    requires Indexed(cols, dom, poss) && 0 <= x < |cols[0]|
    ensures Common(cols[0][x], dom, poss, [x])
  {
    assert IndexedBy(cols[0], dom, poss[0]);
  }

  ghost predicate Launch(cols: seq<seq<seq<Point>>>, ip: Point, rowDim: nat) {
    rowDim > 0 && |ip| == rowDim - 1 + |cols| && forall i | 0 <= i < |cols| :: 0 <= ip[rowDim - 1 + i] < |cols[i]|
  }

  method CommonRows(cols: seq<seq<seq<Point>>>, rowDim: nat, ip: Point, ghost dom: seq<Point>,
                    ghost poss: seq<map<Point, int>>)
      returns (common: seq<Point>)
    requires Indexed(cols, dom, poss) && Launch(cols, ip, rowDim)
    ensures Common(common, dom, poss, ip[rowDim - 1..])
  {
    hide Indexed, Common;
    var r1 := rowDim - 1;
    IndexedFacts(cols, dom, poss);
    assert 0 <= ip[rowDim - 1 + 0] < |cols[0]|;
    FirstCommon(cols, dom, poss, ip[r1]);
    common := cols[0][ip[0 + r1]];
    assert ip[r1..r1 + 1] == [ip[r1]];
    var i := 1;
    while i < |cols|
      invariant 1 <= i <= |cols| && Common(common, dom, poss, ip[r1..r1 + i])
    {
      var x := ip[i + r1];
      MoreCommon(cols, dom, poss, common, ip[r1..r1 + i], x);
      assert ip[r1..r1 + i + 1] == ip[r1..r1 + i] + [x];
      common := Intersection(common, cols[i][x]);
      i := i + 1;
    }
    assert ip[r1..r1 + |cols|] == ip[r1..];
  }

  lemma IndexedFacts(cols: seq<seq<seq<Point>>>, dom: seq<Point>, poss: seq<map<Point, int>>)
    requires Indexed(cols, dom, poss)
    ensures |cols| == |poss| > 0
  {
  }

  /** The rows whose first r2 coordinates agree with the index point. */
  method HereRows(common: seq<Point>, r2: int, ip: Point) returns (here: seq<Point>)
    requires Increasing(common) && r2 <= |ip| && forall p | p in common :: r2 <= |p|
    ensures Increasing(here)
    ensures forall p :: p in here <==> p in common && forall i | 0 <= i < r2 :: p[i] == ip[i]
  {
    here := [];
    var k := 0;
    while k < |common|
      invariant k <= |common| && Increasing(here)
      invariant forall p :: p in here <==> p in common[..k] && forall i | 0 <= i < r2 :: p[i] == ip[i]
    {
      var pt := common[k];
      var match_ := true;
      var i := 0;
      while match_ && i < r2
        invariant 0 <= i && (i <= r2 || i == 0)
        invariant match_ ==> forall j | 0 <= j < i :: pt[j] == ip[j]
        invariant !match_ ==> exists j :: 0 <= j < r2 && pt[j] != ip[j]
      {
        match_ := pt[i] == ip[i];
        i := i + 1;
      }
      assert common[..k + 1] == common[..k] + [pt];
      if match_ {
        forall p, q | p in here && q in [pt] ensures LexLess(p, q) {
          var n :| 0 <= n < k && common[..k][n] == p;
          assert common[n] == p;
        }
        AppendIncreasing(here, [pt]);
        here := here + [pt];
      }
      k := k + 1;
    }
    assert common[..|common|] == common;
  }

  lemma HereArePeers(dom: seq<Point>, poss: seq<map<Point, int>>, r1: nat, r2: nat, ip: Point,
                     common: seq<Point>, here: seq<Point>)
    requires Increasing(dom) && r2 <= r1 && |ip| == r1 + |poss| && forall p | p in dom :: r1 < |p|
    requires Common(common, dom, poss, ip[r1..]) && Increasing(here)
    requires forall i, p | 0 <= i < |poss| && p in dom :: p in poss[i]
    requires forall p :: p in here <==> p in common && forall i | 0 <= i < r2 :: p[i] == ip[i]
    ensures here == Peers(dom, poss, r2, ip[..r2] + ip[r1..])
  {
    var key := ip[..r2] + ip[r1..];
    PeersAre(dom, poss, r2, key);
    forall p ensures p in here <==> p in Peers(dom, poss, r2, key) {
      if p in dom {
        KeyMatches(poss, r1, r2, ip, p);
      }
    }
    IncreasingUnique(here, Peers(dom, poss, r2, key));
  }

  lemma KeyMatches(poss: seq<map<Point, int>>, r1: nat, r2: nat, ip: Point, p: Point)
    requires r2 <= r1 < |p| && |ip| == r1 + |poss| && forall i | 0 <= i < |poss| :: p in poss[i]
    ensures KeyOf(poss, r2, p) == ip[..r2] + ip[r1..]
       <==> (forall i | 0 <= i < r2 :: p[i] == ip[i]) && forall i | 0 <= i < |poss| :: poss[i][p] == ip[r1..][i]
  {
    var key, want := KeyOf(poss, r2, p), ip[..r2] + ip[r1..];
    if key == want {
      forall i | 0 <= i < r2 ensures p[i] == ip[i] {
        assert key[i] == p[i] && want[i] == ip[i];
      }
      forall i | 0 <= i < |poss| ensures poss[i][p] == ip[r1..][i] {
        assert key[r2 + i] == PositionsOf(poss, p)[i] && want[r2 + i] == ip[r1..][i];
      }
    }
  }

  function PointBox(p: Point): (b: Box)
    ensures |b| == |p|
  {
    seq(|p|, i requires 0 <= i < |p| => Interval(p[i], p[i]))
  }

  /** The rectangle of a row: fixed at the index point and at its number k, free on the element axes. */
  function RowRect(ip: Point, allowRows: bool, k: nat, rowDomain: Box, rowDim: nat): Box
    requires rowDim <= |rowDomain|
  {
    PointBox(ip) + (if allowRows then [Interval(k, k)] else []) + rowDomain[rowDim..]
  }

  lemma RowRectAt(ip: Point, allowRows: bool, k: nat, rowDomain: Box, rowDim: nat, x: nat)
    requires rowDim <= |rowDomain| && x < |ip| + (if allowRows then 1 else 0) + |rowDomain| - rowDim
    ensures var r, n := RowRect(ip, allowRows, k, rowDomain, rowDim), |ip| + if allowRows then 1 else 0;
            && |r| == n + |rowDomain| - rowDim
            && r[x] == if x < |ip| then Interval(ip[x], ip[x]) else if x < n then Interval(k, k)
                       else rowDomain[x - n + rowDim]
  {
  }

  lemma RowRectLength(ip: Point, allowRows: bool, k: nat, rowDomain: Box, rowDim: nat)
    requires rowDim <= |rowDomain|
    ensures |RowRect(ip, allowRows, k, rowDomain, rowDim)|
         == |ip| + (if allowRows then 1 else 0) + |rowDomain| - rowDim
  {
  }

  /** The body of WRITE_RECTS for one row, coordinate by coordinate. */
  method FillRect(ip: Point, allowRows: bool, i: nat, rowDomain: Box, rowDim: nat, rectDim: nat) returns (rowRect: Box)
    requires 0 < rowDim <= |rowDomain| && rectDim == |ip| + (if allowRows then 1 else 0) + |rowDomain| - rowDim
    ensures rowRect == RowRect(ip, allowRows, i, rowDomain, rowDim)
  {
    hide RowRect;
    ghost var all := RowRect(ip, allowRows, i, rowDomain, rowDim);
    RowRectLength(ip, allowRows, i, rowDomain, rowDim);
    rowRect := seq(rectDim, x => Interval(0, 0));
    var j := 0;
    while j < |ip|
      invariant j <= |ip| && |rowRect| == rectDim && forall x | 0 <= x < j :: rowRect[x] == all[x]
    {
      RowRectAt(ip, allowRows, i, rowDomain, rowDim, j);
      rowRect := rowRect[j := Interval(ip[j], ip[j])];
      j := j + 1;
    }
    if allowRows {
      RowRectAt(ip, allowRows, i, rowDomain, rowDim, j);
      rowRect := rowRect[j := Interval(i, i)];
      j := j + 1;
    }
    var k := j;
    while j < rectDim
      invariant k <= j <= rectDim == |rowRect| && forall x | 0 <= x < j :: rowRect[x] == all[x]
    {
      RowRectAt(ip, allowRows, i, rowDomain, rowDim, j);
      rowRect := rowRect[j := rowDomain[j - k + rowDim]];
      j := j + 1;
    }
  }

  /** The rectangles of here[0], ..., here[n - 1] written into rects. */
  ghost function Written(rects: map<Point, Box>, here: seq<Point>, n: nat, ip: Point, allowRows: bool,
                         rowDomains: map<Point, Box>, rowDim: nat): map<Point, Box>
    requires n <= |here| && forall p | p in here :: p in rowDomains && rowDim <= |rowDomains[p]|
  {
    if n == 0 then rects
    else Written(rects, here, n - 1, ip, allowRows, rowDomains, rowDim)
         [here[n - 1] := RowRect(ip, allowRows, n - 1, rowDomains[here[n - 1]], rowDim)]
  }

  ghost predicate Rows(dom: seq<Point>, rowDomains: map<Point, Box>, rowDim: nat, oldDim: nat) {
    0 < rowDim <= oldDim && forall p | p in dom :: |p| == rowDim && p in rowDomains && |rowDomains[p]| == oldDim
  }

  /** The number of upper axes that the task compares. */
  function Upper(rowDim: nat, allowRows: bool): int { rowDim - 1 - if allowRows then 1 else 0 }

  ghost function Here(dom: seq<Point>, poss: seq<map<Point, int>>, rowDim: nat, allowRows: bool, ip: Point): seq<Point>
    requires rowDim > 0 && rowDim - 1 <= |ip| && forall p | p in dom :: |p| == rowDim
  {
    var r2: nat := if Upper(rowDim, allowRows) < 0 then 0 else Upper(rowDim, allowRows);
    Peers(dom, poss, r2, ip[..r2] + ip[rowDim - 1..])
  }

  /** Write the rectangles of all rows at one index point. */
  method WriteRects(here: seq<Point>, ip: Point, allowRows: bool, rowDomains: map<Point, Box>, rowDim: nat,
                    oldDim: nat, rectDim: nat, rowMap: RowMap)
    requires 0 < rowDim <= oldDim && forall p | p in here :: p in rowDomains && |rowDomains[p]| == oldDim
    requires rectDim == |ip| + (if allowRows then 1 else 0) + oldDim - rowDim
    modifies rowMap
    ensures rowMap.rects == Written(old(rowMap.rects), here, |here|, ip, allowRows, rowDomains, rowDim)
  {
    var i := 0;
    while i < |here|
      invariant i <= |here|
      invariant rowMap.rects == Written(old(rowMap.rects), here, i, ip, allowRows, rowDomains, rowDim)
    {
      assert here[i] in here;
      var rowRect := FillRect(ip, allowRows, i, rowDomains[here[i]], rowDim, rectDim);
      rowMap.rects := rowMap.rects[here[i] := rowRect];
      i := i + 1;
    }
  }

  lemma HereInDom(dom: seq<Point>, poss: seq<map<Point, int>>, rowDim: nat, allowRows: bool, ip: Point)
    requires rowDim > 0 && rowDim - 1 <= |ip| && forall p | p in dom :: |p| == rowDim
    ensures forall p | p in Here(dom, poss, rowDim, allowRows, ip) :: p in dom
  {
    hide Peers;
    var r2: nat := if Upper(rowDim, allowRows) < 0 then 0 else Upper(rowDim, allowRows);
    PeersInDom(dom, poss, r2, ip[..r2] + ip[rowDim - 1..]);
  }

  lemma PeersInDom(dom: seq<Point>, poss: seq<map<Point, int>>, r: nat, key: Point)
    requires forall p | p in dom :: r <= |p|
    ensures forall p | p in Peers(dom, poss, r, key) :: p in dom
  {
    forall p | p in Peers(dom, poss, r, key) ensures p in dom {
      InFilter(dom, map q | q in dom :: KeyOf(poss, r, q), key, p);
    }
  }

  /** What the task at one index point makes of the rectangles. */
  ghost function TaskEffect(rects: map<Point, Box>, dom: seq<Point>, poss: seq<map<Point, int>>, rowDim: nat,
                            allowRows: bool, rowDomains: map<Point, Box>, oldDim: nat, ip: Point): map<Point, Box>
    requires Rows(dom, rowDomains, rowDim, oldDim) && rowDim - 1 <= |ip|
  {
    HereInDom(dom, poss, rowDim, allowRows, ip);
    var here := Here(dom, poss, rowDim, allowRows, ip);
    if allowRows || |here| == 1 then Written(rects, here, |here|, ip, allowRows, rowDomains, rowDim) else rects
  }

  /** The rows that the two filters leave are the rows with the key of the index point. */
  lemma HereIs(cols: seq<seq<seq<Point>>>, dom: seq<Point>, poss: seq<map<Point, int>>, rowDim: nat, allowRows: bool,
               ip: Point, common: seq<Point>, here: seq<Point>)
    requires Indexed(cols, dom, poss) && Launch(cols, ip, rowDim) && forall p | p in dom :: |p| == rowDim
    requires Common(common, dom, poss, ip[rowDim - 1..]) && Increasing(here)
    requires forall p :: p in here
                    <==> p in common && |p| >= rowDim && forall i | 0 <= i < Upper(rowDim, allowRows) :: p[i] == ip[i]
    ensures here == Here(dom, poss, rowDim, allowRows, ip)
    ensures (forall p | p in here :: p in dom) && (here != [] ==> common != [])
  {
    InPositions(cols, dom, poss);
    HereArePeers(dom, poss, rowDim - 1, if Upper(rowDim, allowRows) < 0 then 0 else Upper(rowDim, allowRows), ip,
                 common, here);
    if here != [] { assert here[0] in common; }
  }

  lemma CommonFacts(common: seq<Point>, dom: seq<Point>, poss: seq<map<Point, int>>, at: Point, rowDim: nat,
                    allowRows: bool)
    requires |at| <= |poss| && Common(common, dom, poss, at) && rowDim > 0 && forall p | p in dom :: |p| == rowDim
    ensures Increasing(common) && Upper(rowDim, allowRows) < rowDim
    ensures forall p | p in common :: |p| == rowDim
  {
  }

  method ComputeRowMappingTask(cols: seq<seq<seq<Point>>>, rowDim: nat, allowRows: bool, rowDomains: map<Point, Box>,
                               oldDim: nat, ip: Point, rowMap: RowMap, ghost dom: seq<Point>,
                               ghost poss: seq<map<Point, int>>)
    requires Indexed(cols, dom, poss) && Rows(dom, rowDomains, rowDim, oldDim) && Launch(cols, ip, rowDim)
    modifies rowMap
    ensures rowDim - 1 <= |ip|
    ensures rowMap.rects == TaskEffect(old(rowMap.rects), dom, poss, rowDim, allowRows, rowDomains, oldDim, ip)
  {
    hide Here, Indexed, Common, Upper;
    IndexedFacts(cols, dom, poss);
    var r1 := rowDim - 1;
    var commonRows := CommonRows(cols, rowDim, ip, dom, poss);
    var r2 := Upper(rowDim, allowRows);
    CommonFacts(commonRows, dom, poss, ip[r1..], rowDim, allowRows);
    var hereRows := HereRows(commonRows, r2, ip);
    HereIs(cols, dom, poss, rowDim, allowRows, ip, commonRows, hereRows);
    if |commonRows| > 0 {
      assert commonRows[0] in commonRows && |commonRows[0]| == rowDim;
      if allowRows || |hereRows| == 1 {
        var rectDim := |cols| + (if allowRows then 1 else 0) - 1 + oldDim;
        WriteRects(hereRows, ip, allowRows, rowDomains, rowDim, oldDim, rectDim, rowMap);
      }
    }
  }

  lemma InPositions(cols: seq<seq<seq<Point>>>, dom: seq<Point>, poss: seq<map<Point, int>>)
    requires Indexed(cols, dom, poss)
    ensures forall i, p | 0 <= i < |poss| && p in dom :: p in poss[i]
  {
    forall i, p | 0 <= i < |poss| && p in dom ensures p in poss[i] {
      assert IndexedBy(cols[i], dom, poss[i]);
    }
  }

  // ----- the launch over all index points -----

  /** The upper axes of the rows, then the positions of every index. */
  function LaunchBounds(rowBounds: Box, rowDim: nat, cols: seq<seq<seq<Point>>>): Box
    requires 0 < rowDim == |rowBounds|
  {
    rowBounds[..rowDim - 1] + seq(|cols|, i requires 0 <= i < |cols| => Interval(0, |cols[i]| - 1))
  }

  method InitBounds(rowBounds: Box, rowDim: nat, cols: seq<seq<seq<Point>>>) returns (rect: Box)
    requires 0 < rowDim == |rowBounds|
    ensures rect == LaunchBounds(rowBounds, rowDim, cols)
  {
    var r1 := rowDim - 1;
    var dim := r1 + |cols|;
    rect := seq(dim, x => Interval(0, 0));
    var i := 0;
    while i < r1
      invariant i <= r1 && |rect| == dim && rect[..i] == rowBounds[..i]
    {
      rect := rect[i := rowBounds[i]];
      i := i + 1;
    }
    ghost var all := LaunchBounds(rowBounds, rowDim, cols);
    assert rect[..r1] == all[..r1];
    while i < dim
      invariant r1 <= i <= dim == |rect| && rect[..i] == all[..i]
    {
      rect := rect[i := Interval(0, |cols[i - r1]| - 1)];
      i := i + 1;
    }
  }

  lemma {:induction false} InBoxIs(p: Point, box: Box)
    ensures InBox(p, box) <==> |p| == |box| && forall i | 0 <= i < |p| :: box[i].lo <= p[i] <= box[i].hi
  {
    if box != [] && p != [] {
      InBoxIs(p[1..], box[1..]);
      assert forall i | 1 <= i < |p| :: p[i] == p[1..][i - 1];
      assert forall i | 1 <= i < |box| :: box[i] == box[1..][i - 1];
      if InBox(p, box) {
        forall i | 0 <= i < |p| ensures box[i].lo <= p[i] <= box[i].hi {
          if i > 0 { assert box[1..][i - 1].lo <= p[1..][i - 1] <= box[1..][i - 1].hi; }
        }
      }
    }
  }

  lemma BoundsLaunch(rowBounds: Box, rowDim: nat, cols: seq<seq<seq<Point>>>, ip: Point)
    requires 0 < rowDim == |rowBounds| && InBox(ip, LaunchBounds(rowBounds, rowDim, cols))
    ensures Launch(cols, ip, rowDim)
  {
    var b := LaunchBounds(rowBounds, rowDim, cols);
    InBoxIs(ip, b);
    forall i | 0 <= i < |cols| ensures 0 <= ip[rowDim - 1 + i] < |cols[i]| {
      assert b[rowDim - 1 + i] == Interval(0, |cols[i]| - 1);
    }
  }

  /** The index point of a row is launched. */
  lemma RowLaunched(rowBounds: Box, rowDim: nat, cols: seq<seq<seq<Point>>>, dom: seq<Point>,
                    poss: seq<map<Point, int>>, p: Point)
    requires 0 < rowDim == |rowBounds| && Indexed(cols, dom, poss) && p in dom && InBox(p, rowBounds)
    ensures |p| == rowDim && InBox(KeyOf(poss, rowDim - 1, p), LaunchBounds(rowBounds, rowDim, cols))
  {
    var b := LaunchBounds(rowBounds, rowDim, cols);
    InBoxIs(p, rowBounds);
    var key := KeyOf(poss, rowDim - 1, p);
    forall i | 0 <= i < |key| ensures b[i].lo <= key[i] <= b[i].hi {
      if i >= rowDim - 1 {
        assert IndexedBy(cols[i - (rowDim - 1)], dom, poss[i - (rowDim - 1)]);
      }
    }
    InBoxIs(key, b);
  }

  // ----- the finished mapping -----

  ghost function PeersOf(dom: seq<Point>, poss: seq<map<Point, int>>, rowDim: nat, p: Point): seq<Point>
    requires 0 < rowDim == |p| && forall q | q in dom :: |q| == rowDim
  {
    Peers(dom, poss, rowDim - 1, KeyOf(poss, rowDim - 1, p))
  }

  /** The rectangle a row ends up with: it is fixed by its key and by its number among the rows with that key. */
  ghost function FinalRect(dom: seq<Point>, poss: seq<map<Point, int>>, rowDim: nat, allowRows: bool,
                           rowDomains: map<Point, Box>, empty: Box, p: Point): Box
    requires 0 < rowDim == |p| && forall q | q in dom :: |q| == rowDim
    requires p in rowDomains && rowDim <= |rowDomains[p]|
  {
    var peers := PeersOf(dom, poss, rowDim, p);
    if allowRows || |peers| == 1
    then RowRect(KeyOf(poss, rowDim - 1, p), allowRows, PositionOf(peers, p), rowDomains[p], rowDim)
    else empty
  }

  lemma Distinct(ps: seq<Point>, i: int, j: int)
    requires Increasing(ps) && 0 <= i < j < |ps|
    ensures ps[i] != ps[j]
  {
    LexIrreflexive(ps[i]);
  }

  lemma {:induction false} WrittenAt(rects: map<Point, Box>, here: seq<Point>, n: nat, ip: Point, allowRows: bool,
                                     rowDomains: map<Point, Box>, rowDim: nat, p: Point)
    requires n <= |here| && Increasing(here) && forall q | q in here :: q in rowDomains && rowDim <= |rowDomains[q]|
    ensures var w := Written(rects, here, n, ip, allowRows, rowDomains, rowDim);
            if p in here[..n]
            then p in here && p in w && w[p] == RowRect(ip, allowRows, PositionOf(here, p), rowDomains[p], rowDim)
            else (p in w <==> p in rects) && (p in rects ==> w[p] == rects[p])
  {
    hide RowRect, PositionOf, Increasing, LexLess;
    if n > 0 {
      WrittenAt(rects, here, n - 1, ip, allowRows, rowDomains, rowDim, p);
      assert here[..n] == here[..n - 1] + [here[n - 1]];
      if p == here[n - 1] {
        forall i, j | 0 <= i < j < |here| ensures here[i] != here[j] {
          Distinct(here, i, j);
        }
        PositionIs(here, n - 1);
      }
    }
  }

  /** The tasks one after the other, in the given order. */
  ghost function RunTasks(rects: map<Point, Box>, dom: seq<Point>, poss: seq<map<Point, int>>, rowDim: nat,
                          allowRows: bool, rowDomains: map<Point, Box>, oldDim: nat, order: seq<Point>): map<Point, Box>
    requires Rows(dom, rowDomains, rowDim, oldDim) && forall ip | ip in order :: rowDim - 1 <= |ip|
  {
    if order == [] then rects
    else
      var n := |order| - 1;
      TaskEffect(RunTasks(rects, dom, poss, rowDim, allowRows, rowDomains, oldDim, order[..n]),
                 dom, poss, rowDim, allowRows, rowDomains, oldDim, order[n])
  }

  method ComputeRowMapping(cols: seq<seq<seq<Point>>>, rowDim: nat, allowRows: bool, rowDomains: map<Point, Box>,
                           oldDim: nat, rowBounds: Box, order: seq<Point>, rowMap: RowMap, ghost dom: seq<Point>,
                           ghost poss: seq<map<Point, int>>)
    requires Indexed(cols, dom, poss) && Rows(dom, rowDomains, rowDim, oldDim) && |rowBounds| == rowDim
    requires forall p :: p in order <==> InBox(p, LaunchBounds(rowBounds, rowDim, cols))
    modifies rowMap
    ensures forall ip | ip in order :: rowDim - 1 <= |ip|
    ensures rowMap.rects == RunTasks(old(rowMap.rects), dom, poss, rowDim, allowRows, rowDomains, oldDim, order)
  {
    hide Indexed, Launch, TaskEffect, InBox, LaunchBounds;
    OrderFacts(cols, rowDim, rowBounds, order, dom, poss);
    var k := 0;
    while k < |order|
      invariant k <= |order|
      invariant rowMap.rects
          == RunTasks(old(rowMap.rects), dom, poss, rowDim, allowRows, rowDomains, oldDim, order[..k])
    {
      assert order[k] in order;
      BoundsLaunch(rowBounds, rowDim, cols, order[k]);
      ComputeRowMappingTask(cols, rowDim, allowRows, rowDomains, oldDim, order[k], rowMap, dom, poss);
      assert order[..k + 1][..k] == order[..k];
      k := k + 1;
    }
    assert order[..|order|] == order;
  }

  lemma OrderFacts(cols: seq<seq<seq<Point>>>, rowDim: nat, rowBounds: Box, order: seq<Point>, dom: seq<Point>,
                   poss: seq<map<Point, int>>)
    requires 0 < rowDim == |rowBounds| && Indexed(cols, dom, poss)
    requires forall p :: p in order <==> InBox(p, LaunchBounds(rowBounds, rowDim, cols))
    ensures Increasing(dom) && forall ip | ip in order :: |ip| == rowDim - 1 + |poss|
  {
    forall ip | ip in order ensures |ip| == rowDim - 1 + |poss| {
      InBoxIs(ip, LaunchBounds(rowBounds, rowDim, cols));
    }
  }

  // ----- when a row is written at its own index point only -----

  /**
   Without a row axis all upper axes are compared.  With it the last of them is not; that does no harm
   if there is none or if it has only one value.
   */
  predicate Exact(rowDim: nat, allowRows: bool, rowBounds: Box)
    requires 0 < rowDim == |rowBounds|
  {
    !allowRows || rowDim == 1 || rowBounds[rowDim - 2].lo == rowBounds[rowDim - 2].hi
  }

  /** The rows lie inside the bounds that the launch is made from. */
  ghost predicate Inside(dom: seq<Point>, rowBounds: Box) {
    forall p | p in dom :: InBox(p, rowBounds)
  }

  ghost predicate OnlyOwnTask(cols: seq<seq<seq<Point>>>, dom: seq<Point>, poss: seq<map<Point, int>>, rowDim: nat,
                              allowRows: bool, rowBounds: Box, p: Point)
    requires 0 < rowDim == |rowBounds| == |p| && forall q | q in dom :: |q| == rowDim
  {
    forall ip | InBox(ip, LaunchBounds(rowBounds, rowDim, cols)) && rowDim - 1 <= |ip| ::
      p in Here(dom, poss, rowDim, allowRows, ip) <==> ip == KeyOf(poss, rowDim - 1, p)
  }

  /** The task at ip writes p exactly when they agree on the compared axes and the index positions. */
  lemma HereWhen(dom: seq<Point>, poss: seq<map<Point, int>>, rowDim: nat, allowRows: bool, p: Point, ip: Point)
    requires 0 < rowDim && Increasing(dom) && p in dom && (forall q | q in dom :: |q| == rowDim)
    requires |ip| == rowDim - 1 + |poss|
    ensures var key := KeyOf(poss, rowDim - 1, p);
            && |key| == |ip|
            && (p in Here(dom, poss, rowDim, allowRows, ip)
                <==> forall i | 0 <= i < |ip| && !(allowRows && i == rowDim - 2) :: ip[i] == key[i])
  {
    hide Peers, Increasing, KeyOf;
    var r2: nat := if Upper(rowDim, allowRows) < 0 then 0 else Upper(rowDim, allowRows);
    PeersAre(dom, poss, r2, ip[..r2] + ip[rowDim - 1..]);
    SameKey(poss, rowDim - 1, r2, p, ip);
  }

  /** Keys of r2 and of r1 upper axes agree with an index point in the same places. */
  lemma SameKey(poss: seq<map<Point, int>>, r1: nat, r2: nat, p: Point, ip: Point)
    requires r2 <= r1 <= |p| && |ip| == r1 + |poss|
    ensures var key := KeyOf(poss, r1, p);
            && |key| == |ip|
            && (KeyOf(poss, r2, p) == ip[..r2] + ip[r1..]
                <==> forall i | 0 <= i < |ip| && !(r2 <= i < r1) :: ip[i] == key[i])
  {
    hide PositionsOf;
    var own, want, key := KeyOf(poss, r2, p), ip[..r2] + ip[r1..], KeyOf(poss, r1, p);
    assert |own| == |want| == r2 + |poss|;
    forall n | 0 <= n < |own|
      ensures var i := if n < r2 then n else n - r2 + r1; own[n] == key[i] && want[n] == ip[i]
    {
    }
    if own == want {
      forall i | 0 <= i < |ip| && !(r2 <= i < r1) ensures ip[i] == key[i] {
        var n := if i < r2 then i else i - r1 + r2;
        assert own[n] == want[n];
      }
    }
  }

  lemma OwnTask(cols: seq<seq<seq<Point>>>, dom: seq<Point>, poss: seq<map<Point, int>>, rowDim: nat, allowRows: bool,
                rowBounds: Box, p: Point)
    requires Indexed(cols, dom, poss) && 0 < rowDim == |rowBounds| && Inside(dom, rowBounds) && p in dom
    requires (forall q | q in dom :: |q| == rowDim) && Exact(rowDim, allowRows, rowBounds)
    ensures OnlyOwnTask(cols, dom, poss, rowDim, allowRows, rowBounds, p)
  {
    hide Here, InBox, KeyOf;
    var b := LaunchBounds(rowBounds, rowDim, cols);
    var key := KeyOf(poss, rowDim - 1, p);
    InBoxIs(p, rowBounds);
    KeyStart(poss, rowDim, p);
    forall ip | InBox(ip, b) && rowDim - 1 <= |ip| ensures p in Here(dom, poss, rowDim, allowRows, ip) <==> ip == key {
      InBoxIs(ip, b);
      HereWhen(dom, poss, rowDim, allowRows, p, ip);
    }
  }

  lemma KeyStart(poss: seq<map<Point, int>>, rowDim: nat, p: Point)
    requires 0 < rowDim == |p|
    ensures |KeyOf(poss, rowDim - 1, p)| == rowDim - 1 + |poss|
    ensures forall i | 0 <= i < rowDim - 1 :: KeyOf(poss, rowDim - 1, p)[i] == p[i]
  {
  }

  /** Outside Exact another launched task writes the row p as well: at another value of the last upper axis. */
  lemma ForeignTask(cols: seq<seq<seq<Point>>>, dom: seq<Point>, poss: seq<map<Point, int>>, rowDim: nat,
                    allowRows: bool, rowBounds: Box, p: Point)
      returns (ip: Point)
    requires Indexed(cols, dom, poss) && 0 < rowDim == |rowBounds| && Inside(dom, rowBounds) && p in dom
    requires (forall q | q in dom :: |q| == rowDim) && !Exact(rowDim, allowRows, rowBounds)
    ensures InBox(ip, LaunchBounds(rowBounds, rowDim, cols)) && |ip| == rowDim - 1 + |poss|
    ensures p in Here(dom, poss, rowDim, allowRows, ip) && ip[rowDim - 2] != p[rowDim - 2]
  {
    hide Here, InBox, KeyOf, Indexed;
    var key, b := KeyOf(poss, rowDim - 1, p), LaunchBounds(rowBounds, rowDim, cols);
    InBoxIs(p, rowBounds);
    RowLaunched(rowBounds, rowDim, cols, dom, poss, p);
    InBoxIs(key, b);
    IndexedFacts(cols, dom, poss);
    OrderOfRows(cols, dom, poss);
    KeyStart(poss, rowDim, p);
    var u := if p[rowDim - 2] == rowBounds[rowDim - 2].lo then rowBounds[rowDim - 2].hi else rowBounds[rowDim - 2].lo;
    ip := key[rowDim - 2 := u];
    InBoxIs(ip, b);
    HereWhen(dom, poss, rowDim, allowRows, p, ip);
  }

  lemma OrderOfRows(cols: seq<seq<seq<Point>>>, dom: seq<Point>, poss: seq<map<Point, int>>)
    requires Indexed(cols, dom, poss)
    ensures Increasing(dom)
  {
  }

  /** Every row is written by its own task only, exactly under Exact; without rows there is nothing to write. */
  lemma OwnTasksOnly(cols: seq<seq<seq<Point>>>, dom: seq<Point>, poss: seq<map<Point, int>>, rowDim: nat,
                     allowRows: bool, rowBounds: Box)
    requires Indexed(cols, dom, poss) && 0 < rowDim == |rowBounds| && Inside(dom, rowBounds)
    requires forall q | q in dom :: |q| == rowDim
    ensures (forall p | p in dom :: OnlyOwnTask(cols, dom, poss, rowDim, allowRows, rowBounds, p))
       <==> dom == [] || Exact(rowDim, allowRows, rowBounds)
  {
    hide Here, InBox, KeyOf, Indexed, Exact;
    if Exact(rowDim, allowRows, rowBounds) {
      forall p | p in dom ensures OnlyOwnTask(cols, dom, poss, rowDim, allowRows, rowBounds, p) {
        OwnTask(cols, dom, poss, rowDim, allowRows, rowBounds, p);
      }
    } else if dom != [] {
      var p := dom[0];
      var ip := ForeignTask(cols, dom, poss, rowDim, allowRows, rowBounds, p);
      NotOwn(rowDim, allowRows, rowBounds, poss, p, ip);
      assert !OnlyOwnTask(cols, dom, poss, rowDim, allowRows, rowBounds, p);
    }
  }

  lemma NotOwn(rowDim: nat, allowRows: bool, rowBounds: Box, poss: seq<map<Point, int>>, p: Point, ip: Point)
    requires 0 < rowDim == |p| == |rowBounds| && |ip| == rowDim - 1 + |poss| && !Exact(rowDim, allowRows, rowBounds)
    requires ip[rowDim - 2] != p[rowDim - 2]
    ensures ip != KeyOf(poss, rowDim - 1, p)
  {
    KeyStart(poss, rowDim, p);
  }

  // ----- the outcome of all tasks -----

  /** All rows have their final rectangles. */
  ghost predicate Mapped(rects: map<Point, Box>, dom: seq<Point>, poss: seq<map<Point, int>>, rowDim: nat,
                         allowRows: bool, rowDomains: map<Point, Box>, oldDim: nat, empty: Box)
    requires Rows(dom, rowDomains, rowDim, oldDim)
  {
    forall p | p in dom :: p in rects && rects[p] == FinalRect(dom, poss, rowDim, allowRows, rowDomains, empty, p)
  }

  ghost predicate MappedSoFar(rects: map<Point, Box>, done: seq<Point>, dom: seq<Point>, poss: seq<map<Point, int>>,
                              rowDim: nat, allowRows: bool, rowDomains: map<Point, Box>, oldDim: nat, empty: Box)
    requires Rows(dom, rowDomains, rowDim, oldDim)
  {
    forall p | p in dom ::
      && p in rects
      && rects[p] == if KeyOf(poss, rowDim - 1, p) in done
                     then FinalRect(dom, poss, rowDim, allowRows, rowDomains, empty, p) else empty
  }

  /** Under Exact the rows of a task at a key are the rows with that key. */
  lemma HereAtKey(cols: seq<seq<seq<Point>>>, dom: seq<Point>, poss: seq<map<Point, int>>, rowDim: nat, allowRows: bool,
                  rowBounds: Box, ip: Point)
    requires Indexed(cols, dom, poss) && 0 < rowDim == |rowBounds| && Inside(dom, rowBounds)
    requires (forall q | q in dom :: |q| == rowDim) && Exact(rowDim, allowRows, rowBounds)
    requires InBox(ip, LaunchBounds(rowBounds, rowDim, cols)) && |ip| == rowDim - 1 + |poss|
    ensures Here(dom, poss, rowDim, allowRows, ip) == Peers(dom, poss, rowDim - 1, ip)
  {
    hide InBox, Peers, KeyOf, LaunchBounds, Indexed, Exact, Here, Increasing;
    OrderOfRows(cols, dom, poss);
    var here, peers := Here(dom, poss, rowDim, allowRows, ip), Peers(dom, poss, rowDim - 1, ip);
    PeersAre(dom, poss, rowDim - 1, ip);
    HereInDom(dom, poss, rowDim, allowRows, ip);
    HereIncreasing(dom, poss, rowDim, allowRows, ip);
    forall p ensures p in here <==> p in peers {
      if p in dom { OwnTask(cols, dom, poss, rowDim, allowRows, rowBounds, p); }
    }
    IncreasingUnique(here, peers);
  }

  /** What a task whose rows are the rows with its key does to one row. */
  lemma TaskAt(rects: map<Point, Box>, dom: seq<Point>, poss: seq<map<Point, int>>, rowDim: nat, allowRows: bool,
               rowDomains: map<Point, Box>, oldDim: nat, empty: Box, ip: Point, p: Point)
    requires Rows(dom, rowDomains, rowDim, oldDim) && Increasing(dom) && p in dom && rowDim - 1 <= |ip|
    requires Here(dom, poss, rowDim, allowRows, ip) == Peers(dom, poss, rowDim - 1, ip)
    requires p in rects
        && (rects[p] == empty || rects[p] == FinalRect(dom, poss, rowDim, allowRows, rowDomains, empty, p))
    ensures var after := TaskEffect(rects, dom, poss, rowDim, allowRows, rowDomains, oldDim, ip);
            && p in after
            && after[p] == if KeyOf(poss, rowDim - 1, p) == ip
                           then FinalRect(dom, poss, rowDim, allowRows, rowDomains, empty, p) else rects[p]
  {
    hide Peers, KeyOf, RowRect, Increasing, Here;
    HereInDom(dom, poss, rowDim, allowRows, ip);
    var here := Here(dom, poss, rowDim, allowRows, ip);
    PeersAre(dom, poss, rowDim - 1, ip);
    assert here[..|here|] == here;
    WrittenAt(rects, here, |here|, ip, allowRows, rowDomains, rowDim, p);
  }

  lemma TaskStep(rects: map<Point, Box>, done: seq<Point>, ip: Point, cols: seq<seq<seq<Point>>>, dom: seq<Point>,
                 poss: seq<map<Point, int>>, rowDim: nat, allowRows: bool, rowDomains: map<Point, Box>, oldDim: nat,
                 rowBounds: Box, empty: Box)
    requires Indexed(cols, dom, poss) && Rows(dom, rowDomains, rowDim, oldDim) && |rowBounds| == rowDim
    requires Inside(dom, rowBounds) && Exact(rowDim, allowRows, rowBounds)
    requires InBox(ip, LaunchBounds(rowBounds, rowDim, cols)) && |ip| == rowDim - 1 + |poss|
    requires MappedSoFar(rects, done, dom, poss, rowDim, allowRows, rowDomains, oldDim, empty)
    ensures MappedSoFar(TaskEffect(rects, dom, poss, rowDim, allowRows, rowDomains, oldDim, ip), done + [ip],
                        dom, poss, rowDim, allowRows, rowDomains, oldDim, empty)
  {
    hide Indexed, InBox, LaunchBounds, Exact, FinalRect, TaskEffect, Here, Peers, KeyOf;
    OrderOfRows(cols, dom, poss);
    HereAtKey(cols, dom, poss, rowDim, allowRows, rowBounds, ip);
    var after := TaskEffect(rects, dom, poss, rowDim, allowRows, rowDomains, oldDim, ip);
    forall p | p in dom
      ensures p in after
           && after[p] == if KeyOf(poss, rowDim - 1, p) in done + [ip]
                          then FinalRect(dom, poss, rowDim, allowRows, rowDomains, empty, p) else empty
    {
      TaskAt(rects, dom, poss, rowDim, allowRows, rowDomains, oldDim, empty, ip, p);
    }
  }

  /** The initial rectangles. */
  ghost function Filled(dom: seq<Point>, empty: Box): map<Point, Box> { map p | p in dom :: empty }

  lemma {:induction false} RunMapped(cols: seq<seq<seq<Point>>>, dom: seq<Point>, poss: seq<map<Point, int>>,
                                     rowDim: nat, allowRows: bool, rowDomains: map<Point, Box>, oldDim: nat,
                                     rowBounds: Box, empty: Box, order: seq<Point>)
    requires Indexed(cols, dom, poss) && Rows(dom, rowDomains, rowDim, oldDim) && |rowBounds| == rowDim
    requires Inside(dom, rowBounds) && Exact(rowDim, allowRows, rowBounds)
    requires forall ip | ip in order ::
               InBox(ip, LaunchBounds(rowBounds, rowDim, cols)) && |ip| == rowDim - 1 + |poss|
    ensures MappedSoFar(RunTasks(Filled(dom, empty), dom, poss, rowDim, allowRows, rowDomains, oldDim, order), order,
                        dom, poss, rowDim, allowRows, rowDomains, oldDim, empty)
  {
    hide Indexed, InBox, LaunchBounds, Exact, Inside, FinalRect, TaskEffect;
    if order != [] {
      var n := |order| - 1;
      RunMapped(cols, dom, poss, rowDim, allowRows, rowDomains, oldDim, rowBounds, empty, order[..n]);
      TaskStep(RunTasks(Filled(dom, empty), dom, poss, rowDim, allowRows, rowDomains, oldDim, order[..n]), order[..n],
               order[n], cols, dom, poss, rowDim, allowRows, rowDomains, oldDim, rowBounds, empty);
      assert order[..n] + [order[n]] == order;
    }
  }

  /** A foreign task that comes last leaves the row with a rectangle at the wrong index point. */
  lemma ForeignLast(rects: map<Point, Box>, dom: seq<Point>, poss: seq<map<Point, int>>, rowDim: nat, allowRows: bool,
                    rowDomains: map<Point, Box>, oldDim: nat, rowBounds: Box, empty: Box, ip: Point, p: Point)
    requires Rows(dom, rowDomains, rowDim, oldDim) && Increasing(dom) && p in dom && |rowBounds| == rowDim
    requires !Exact(rowDim, allowRows, rowBounds) && |ip| == rowDim - 1 + |poss|
    requires p in Here(dom, poss, rowDim, allowRows, ip) && ip[rowDim - 2] != p[rowDim - 2]
    ensures !Mapped(TaskEffect(rects, dom, poss, rowDim, allowRows, rowDomains, oldDim, ip),
                    dom, poss, rowDim, allowRows, rowDomains, oldDim, empty)
  {
    hide Here, Peers, KeyOf, Increasing;
    HereInDom(dom, poss, rowDim, allowRows, ip);
    var here := Here(dom, poss, rowDim, allowRows, ip);
    HereIncreasing(dom, poss, rowDim, allowRows, ip);
    assert here[..|here|] == here;
    WrittenAt(rects, here, |here|, ip, allowRows, rowDomains, rowDim, p);
    KeyStart(poss, rowDim, p);
    RowRectAt(ip, allowRows, PositionOf(here, p), rowDomains[p], rowDim, rowDim - 2);
    RowRectAt(KeyOf(poss, rowDim - 1, p), allowRows, PositionOf(PeersOf(dom, poss, rowDim, p), p), rowDomains[p],
              rowDim, rowDim - 2);
  }

  lemma HereIncreasing(dom: seq<Point>, poss: seq<map<Point, int>>, rowDim: nat, allowRows: bool, ip: Point)
    requires rowDim > 0 && rowDim - 1 <= |ip| && Increasing(dom) && forall p | p in dom :: |p| == rowDim
    ensures Increasing(Here(dom, poss, rowDim, allowRows, ip))
  {
    hide Peers, KeyOf, Increasing;
    var r2: nat := if Upper(rowDim, allowRows) < 0 then 0 else Upper(rowDim, allowRows);
    PeersAre(dom, poss, r2, ip[..r2] + ip[rowDim - 1..]);
  }

  /** The tasks of `order` in any other order map every row rightly. */
  ghost predicate RightInAnyOrder(dom: seq<Point>, poss: seq<map<Point, int>>, rowDim: nat, allowRows: bool,
                                  rowDomains: map<Point, Box>, oldDim: nat, empty: Box, order: seq<Point>)
    requires Rows(dom, rowDomains, rowDim, oldDim)
  {
    forall o: seq<Point> | multiset(o) == multiset(order) && (forall ip | ip in o :: rowDim - 1 <= |ip|) ::
      Mapped(RunTasks(Filled(dom, empty), dom, poss, rowDim, allowRows, rowDomains, oldDim, o),
             dom, poss, rowDim, allowRows, rowDomains, oldDim, empty)
  }

  lemma SameElements(o: seq<Point>, order: seq<Point>)
    requires multiset(o) == multiset(order)
    ensures forall ip :: ip in o <==> ip in order
  {
    forall ip ensures ip in o <==> ip in order {
      assert ip in multiset(o) <==> ip in multiset(order);
    }
  }

  /** The order with one task moved to the end. */
  lemma MoveLast(order: seq<Point>, ip: Point) returns (o: seq<Point>)
    requires ip in order
    ensures multiset(o + [ip]) == multiset(order)
  {
    var k :| 0 <= k < |order| && order[k] == ip;
    o := order[..k] + order[k + 1..];
    assert order == order[..k] + [ip] + order[k + 1..];
  }

  /** Whatever the order of the tasks, every row ends up with its final rectangle, exactly under Exact. */
  lemma MappingRight(cols: seq<seq<seq<Point>>>, dom: seq<Point>, poss: seq<map<Point, int>>, rowDim: nat,
                     allowRows: bool, rowDomains: map<Point, Box>, oldDim: nat, rowBounds: Box, empty: Box,
                     order: seq<Point>)
    requires Indexed(cols, dom, poss) && Rows(dom, rowDomains, rowDim, oldDim) && |rowBounds| == rowDim
    requires Inside(dom, rowBounds)
    requires forall p :: p in order <==> InBox(p, LaunchBounds(rowBounds, rowDim, cols))
    ensures RightInAnyOrder(dom, poss, rowDim, allowRows, rowDomains, oldDim, empty, order)
       <==> dom == [] || Exact(rowDim, allowRows, rowBounds)
  {
    hide Indexed, InBox, LaunchBounds, Exact, Mapped, RunTasks, Filled;
    OrderFacts(cols, rowDim, rowBounds, order, dom, poss);
    if dom == [] || Exact(rowDim, allowRows, rowBounds) {
      forall o: seq<Point> | multiset(o) == multiset(order)
        ensures (forall ip | ip in o :: rowDim - 1 <= |ip|)
             && Mapped(RunTasks(Filled(dom, empty), dom, poss, rowDim, allowRows, rowDomains, oldDim, o),
                       dom, poss, rowDim, allowRows, rowDomains, oldDim, empty)
      {
        SameElements(o, order);
        AllMapped(cols, dom, poss, rowDim, allowRows, rowDomains, oldDim, rowBounds, empty, o);
      }
    } else {
      var p := dom[0];
      var ip := ForeignTask(cols, dom, poss, rowDim, allowRows, rowBounds, p);
      var o := MoveLast(order, ip);
      SameElements(o + [ip], order);
      RunLast(Filled(dom, empty), dom, poss, rowDim, allowRows, rowDomains, oldDim, o, ip);
      ForeignLast(RunTasks(Filled(dom, empty), dom, poss, rowDim, allowRows, rowDomains, oldDim, o),
                  dom, poss, rowDim, allowRows, rowDomains, oldDim, rowBounds, empty, ip, p);
    }
  }

  lemma RunLast(rects: map<Point, Box>, dom: seq<Point>, poss: seq<map<Point, int>>, rowDim: nat, allowRows: bool,
                rowDomains: map<Point, Box>, oldDim: nat, o: seq<Point>, ip: Point)
    requires Rows(dom, rowDomains, rowDim, oldDim) && forall x | x in o + [ip] :: rowDim - 1 <= |x|
    ensures (forall x | x in o :: rowDim - 1 <= |x|) && rowDim - 1 <= |ip|
    ensures RunTasks(rects, dom, poss, rowDim, allowRows, rowDomains, oldDim, o + [ip])
         == TaskEffect(RunTasks(rects, dom, poss, rowDim, allowRows, rowDomains, oldDim, o),
                       dom, poss, rowDim, allowRows, rowDomains, oldDim, ip)
  {
    hide TaskEffect;
    assert forall x | x in o :: x in o + [ip];
    assert ip in o + [ip];
    assert (o + [ip])[..|o|] == o;
  }

  lemma AllMapped(cols: seq<seq<seq<Point>>>, dom: seq<Point>, poss: seq<map<Point, int>>, rowDim: nat,
                  allowRows: bool, rowDomains: map<Point, Box>, oldDim: nat, rowBounds: Box, empty: Box,
                  order: seq<Point>)
    requires Indexed(cols, dom, poss) && Rows(dom, rowDomains, rowDim, oldDim) && |rowBounds| == rowDim
    requires Inside(dom, rowBounds) && (dom == [] || Exact(rowDim, allowRows, rowBounds))
    requires forall p :: p in order <==> InBox(p, LaunchBounds(rowBounds, rowDim, cols))
    ensures forall ip | ip in order :: |ip| == rowDim - 1 + |poss|
    ensures Mapped(RunTasks(Filled(dom, empty), dom, poss, rowDim, allowRows, rowDomains, oldDim, order),
                   dom, poss, rowDim, allowRows, rowDomains, oldDim, empty)
  {
    hide Indexed, InBox, LaunchBounds, Exact, FinalRect, RunTasks, Filled, KeyOf;
    OrderFacts(cols, rowDim, rowBounds, order, dom, poss);
    if dom != [] {
      RunMapped(cols, dom, poss, rowDim, allowRows, rowDomains, oldDim, rowBounds, empty, order);
      forall p | p in dom ensures KeyOf(poss, rowDim - 1, p) in order {
        RowLaunched(rowBounds, rowDim, cols, dom, poss, p);
      }
    }
  }
}

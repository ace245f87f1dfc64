/**
 `create_partition_on_axes` and the block-size partitions of hyperion/ColumnSpacePartition.cc: colour
 counts, strides, and the verdicts on disjointness and completeness.
 */
module Partitions {
  import opened Enumeration
  import opened TreeIndexSpace
  import opened RowMapping

  datatype AxisPartition = AxisPartition(
    dim: int,
    stride: int,
    offset: int,
    extent: Interval,
    limits: Interval
  )

  /** Division of the original: the quotient is truncated towards zero. */
  function Truncated(a: int, b: int): int
    requires b > 0
  {
    if a >= 0 then a / b else -((-a) / b)
  }

  /** The number of colours along one part. */
  function Colours(part: AxisPartition): int {
    if part.stride > 0 then Truncated(part.limits.hi - part.limits.lo + part.stride, part.stride) else 1
  }

  /** The arguments of `create_partition_by_restriction`. */
  datatype Partition = Partition(
    csHi: seq<int>,
    transform: seq<seq<int>>,
    extent: Box,
    aliased: bool,
    complete: bool
  )

  // ----- the subspaces -----

  function Dot(row: seq<int>, colour: Point): int
    requires |row| == |colour|
  {
    if row == [] then 0 else row[0] * colour[0] + Dot(row[1..], colour[1..])
  }

  ghost predicate Shaped(r: Partition) {
    && |r.transform| == |r.extent|
    && forall m | 0 <= m < |r.transform| :: |r.transform[m]| == |r.csHi|
  }

  predicate IsColour(r: Partition, colour: Point) {
    |colour| == |r.csHi| && forall n | 0 <= n < |colour| :: 0 <= colour[n] <= r.csHi[n]
  }

  /** The rectangle of a colour: the extent moved by the transform. */
  ghost function Block(r: Partition, colour: Point): (b: Box)
    requires Shaped(r) && |colour| == |r.csHi|
    ensures |b| == |r.extent|
  {
    seq(|r.extent|, m requires 0 <= m < |r.extent| =>
      Interval(r.extent[m].lo + Dot(r.transform[m], colour), r.extent[m].hi + Dot(r.transform[m], colour)))
  }

  // ----- what the loops compute -----

  /** The caller rejects parts on axes that the index space does not have; -1 stands for no axis. */
  ghost predicate InRange(bounds: Box, parts: seq<AxisPartition>) {
    forall n | 0 <= n < |parts| :: parts[n].dim < |bounds|
  }

  ghost predicate DistinctDims(parts: seq<AxisPartition>) {
    forall i, j | 0 <= i < j < |parts| :: parts[i].dim != parts[j].dim || parts[i].dim < 0
  }

  /** No part stands for an axis that the index space lacks. */
  ghost predicate AllPresent(parts: seq<AxisPartition>) {
    forall n | 0 <= n < |parts| :: parts[n].dim >= 0
  }

  function Reach(part: AxisPartition): Interval {
    Interval(part.offset + part.extent.lo, part.offset + part.extent.hi)
  }

  function Overlaps(part: AxisPartition, hi: int): bool { hi > 0 && Reach(part).lo + part.stride <= Reach(part).hi }

  function Tiles(part: AxisPartition, hi: int, bound: Interval): bool {
    && Reach(part).lo <= bound.lo && Reach(part).hi + hi * part.stride >= bound.hi
    && (hi > 0 ==> Reach(part).lo + part.stride == Reach(part).hi + 1)
  }

  /** The extent after the first k parts: a later part on the same axis replaces an earlier one. */
  ghost function ExtentAfter(bounds: Box, parts: seq<AxisPartition>, k: nat): (e: Box)
    requires k <= |parts| && InRange(bounds, parts)
    ensures |e| == |bounds|
  {
    if k == 0 then bounds
    else
      var e := ExtentAfter(bounds, parts, k - 1);
      if parts[k - 1].dim >= 0 then e[parts[k - 1].dim := Reach(parts[k - 1])] else e
  }

  /**
   The verdicts look the count of a part up under its axis instead of its place.  If the axis is not
   below the number of parts, the lookup leaves the rectangle of the counts; `outside` is what it finds.
   */
  function Looked(csHi: seq<int>, outside: int -> int, dim: int): int
    requires dim >= 0
  {
    if dim < |csHi| then csHi[dim] else outside(dim)
  }

  /** This part alone makes the partition aliased. */
  predicate AliasedBy(part: AxisPartition, csHi: seq<int>, outside: int -> int) {
    part.dim < 0 || Overlaps(part, Looked(csHi, outside, part.dim))
  }

  ghost predicate Aliased(parts: seq<AxisPartition>, csHi: seq<int>, outside: int -> int, k: nat)
    requires k <= |parts|
  {
    exists n :: 0 <= n < k && AliasedBy(parts[n], csHi, outside)
  }

  ghost predicate CompleteBy(bounds: Box, parts: seq<AxisPartition>, csHi: seq<int>, outside: int -> int, n: nat)
    requires n < |parts| && InRange(bounds, parts)
  {
    parts[n].dim >= 0 ==>
      Tiles(parts[n], Looked(csHi, outside, parts[n].dim), ExtentAfter(bounds, parts, n)[parts[n].dim])
  }

  ghost predicate Complete(bounds: Box, parts: seq<AxisPartition>, csHi: seq<int>, outside: int -> int, k: nat)
    requires k <= |parts| && InRange(bounds, parts)
  {
    forall n | 0 <= n < k :: CompleteBy(bounds, parts, csHi, outside, n)
  }

  /** Counts, transform and extent. */
  ghost predicate Geometry(r: Partition, bounds: Box, parts: seq<AxisPartition>)
    requires InRange(bounds, parts)
  {
    && Shaped(r) && |r.csHi| == |parts| && r.extent == ExtentAfter(bounds, parts, |parts|)
    && (forall n | 0 <= n < |parts| :: r.csHi[n] == Colours(parts[n]) - 1)
    && forall m, n | 0 <= m < |r.transform| && 0 <= n < |parts| ::
         r.transform[m][n] == if parts[n].dim == m then parts[n].stride else 0
  }

  ghost predicate Verdicts(r: Partition, bounds: Box, parts: seq<AxisPartition>, outside: int -> int)
    requires InRange(bounds, parts)
  {
    && (r.aliased <==> Aliased(parts, r.csHi, outside, |parts|))
    && (r.complete <==> Complete(bounds, parts, r.csHi, outside, |parts|))
  }

  /** Some count is looked up outside the rectangle of the counts. */
  ghost predicate Strays(parts: seq<AxisPartition>, k: nat)
    requires k <= |parts|
  {
    exists n :: 0 <= n < k && parts[n].dim >= |parts|
  }

  /** Row m of the transform once the first n parts have been entered. */
  ghost predicate RowUpTo(row: seq<int>, parts: seq<AxisPartition>, m: int, n: nat) {
    |row| == |parts|
    && forall i | 0 <= i < |parts| :: row[i] == if i < n && parts[i].dim == m then parts[i].stride else 0
  }

  lemma EnterPart(row: seq<int>, parts: seq<AxisPartition>, m: int, n: nat)
    requires RowUpTo(row, parts, m, n) && n < |parts|
    ensures RowUpTo(if parts[n].dim == m then row[n := parts[n].stride] else row, parts, m, n + 1)
  {
  }

  method MakeTransform(isDim: nat, parts: seq<AxisPartition>) returns (transform: seq<seq<int>>)
    requires forall n | 0 <= n < |parts| :: parts[n].dim < isDim
    ensures |transform| == isDim && forall m | 0 <= m < isDim :: |transform[m]| == |parts|
    ensures forall m, n | 0 <= m < isDim && 0 <= n < |parts| ::
              transform[m][n] == if parts[n].dim == m then parts[n].stride else 0
  {
    transform := seq(isDim, m => seq(|parts|, n => 0));
    var n := 0;
    while n < |parts|
      invariant n <= |parts| && |transform| == isDim
      invariant forall m | 0 <= m < isDim :: RowUpTo(transform[m], parts, m, n)
    {
      var part := parts[n];
      forall m | 0 <= m < isDim
        ensures RowUpTo(if part.dim == m then transform[m][n := part.stride] else transform[m], parts, m, n + 1)
      {
        EnterPart(transform[m], parts, m, n);
      }
      if part.dim >= 0 {
        transform := transform[part.dim := transform[part.dim][n := part.stride]];
      }
      n := n + 1;
    }
  }

  method CountColours(parts: seq<AxisPartition>) returns (csHi: seq<int>)
    ensures |csHi| == |parts| && forall n | 0 <= n < |parts| :: csHi[n] == Colours(parts[n]) - 1
  {
    csHi := [];
    var n := 0;
    while n < |parts|
      invariant n <= |parts| && |csHi| == n && forall i | 0 <= i < n :: csHi[i] == Colours(parts[i]) - 1
    {
      var m;
      if parts[n].stride > 0 {
        m := Truncated(parts[n].limits.hi - parts[n].limits.lo + parts[n].stride, parts[n].stride);
      } else {
        m := 1;
      }
      csHi := csHi + [m - 1];
      n := n + 1;
    }
  }

  lemma VerdictStep(bounds: Box, parts: seq<AxisPartition>, csHi: seq<int>, outside: int -> int, n: nat)
    requires n < |parts| && InRange(bounds, parts)
    ensures Aliased(parts, csHi, outside, n + 1)
        <==> Aliased(parts, csHi, outside, n) || AliasedBy(parts[n], csHi, outside)
    ensures Complete(bounds, parts, csHi, outside, n + 1)
       <==> Complete(bounds, parts, csHi, outside, n) && CompleteBy(bounds, parts, csHi, outside, n)
    ensures Strays(parts, n + 1) <==> Strays(parts, n) || parts[n].dim >= |parts|
  {
    hide AliasedBy, CompleteBy;
  }

  /** The last result says whether a count has been read outside the rectangle of the counts. */
  method CreatePartitionOnAxes(bounds: Box, parts: seq<AxisPartition>, outside: int -> int)
      returns (r: Partition, strayed: bool)
    requires InRange(bounds, parts)
    ensures Geometry(r, bounds, parts) && Verdicts(r, bounds, parts, outside)
    ensures strayed <==> exists n :: 0 <= n < |parts| && parts[n].dim >= |parts|
  {
    hide Aliased, Complete, Colours, Strays;
    var csHi := CountColours(parts);
    var transform := MakeTransform(|bounds|, parts);
    var extent, aliased, complete := bounds, false, true;
    strayed := false;
    NoParts(bounds, parts, csHi, outside);
    var n := 0;
    while n < |parts|
      invariant n <= |parts| && extent == ExtentAfter(bounds, parts, n)
      invariant aliased <==> Aliased(parts, csHi, outside, n)
      invariant complete <==> Complete(bounds, parts, csHi, outside, n)
      invariant strayed <==> Strays(parts, n)
    {
      var part := parts[n];
      VerdictStep(bounds, parts, csHi, outside, n);
      if part.dim >= 0 {
        var min, max := extent[part.dim].lo, extent[part.dim].hi;
        var lo := part.offset + part.extent.lo;
        complete := complete && lo <= min;
        var hi := part.offset + part.extent.hi;
        strayed := strayed || part.dim >= |csHi|;
        var csHiDim := Looked(csHi, outside, part.dim);
        complete := complete && hi + csHiDim * part.stride >= max;
        extent := extent[part.dim := Interval(lo, hi)];
        if csHiDim > 0 {
          var nextLo := lo + part.stride;
          aliased := aliased || nextLo <= hi;
          complete := complete && nextLo == hi + 1;
        }
      } else {
        aliased := true;
      }
      n := n + 1;
    }
    StraysAll(parts);
    r := Partition(csHi, transform, extent, aliased, complete);
  }

  lemma NoParts(bounds: Box, parts: seq<AxisPartition>, csHi: seq<int>, outside: int -> int)
    requires InRange(bounds, parts)
    ensures !Aliased(parts, csHi, outside, 0) && Complete(bounds, parts, csHi, outside, 0) && !Strays(parts, 0)
  {
  }

  lemma StraysAll(parts: seq<AxisPartition>)
    ensures Strays(parts, |parts|) <==> exists n :: 0 <= n < |parts| && parts[n].dim >= |parts|
  {
  }

  // ----- the extent -----

  lemma {:induction false} ExtentUntouched(bounds: Box, parts: seq<AxisPartition>, k: nat, m: nat)
    requires k <= |parts| && InRange(bounds, parts) && m < |bounds|
    requires forall n | 0 <= n < k :: parts[n].dim != m
    ensures ExtentAfter(bounds, parts, k)[m] == bounds[m]
  {
    if k > 0 { ExtentUntouched(bounds, parts, k - 1, m); }
  }

  /** The extent of an axis is the reach of the last part on it. */
  lemma {:induction false} ExtentOfLast(bounds: Box, parts: seq<AxisPartition>, k: nat, n: nat)
    requires n < k <= |parts| && InRange(bounds, parts) && parts[n].dim >= 0
    requires forall i | n < i < k :: parts[i].dim != parts[n].dim
    ensures ExtentAfter(bounds, parts, k)[parts[n].dim] == Reach(parts[n])
  {
    if n < k - 1 { ExtentOfLast(bounds, parts, k - 1, n); }
  }

  // ----- blocks, axis by axis -----

  lemma {:induction false} DotZero(row: seq<int>, colour: Point)
    requires |row| == |colour| && forall i | 0 <= i < |row| :: row[i] == 0 || colour[i] == 0
    ensures Dot(row, colour) == 0
  {
    if row != [] { DotZero(row[1..], colour[1..]); }
  }

  lemma {:induction false} DotSingle(row: seq<int>, colour: Point, n: nat)
    requires |row| == |colour| && n < |row| && forall i | 0 <= i < |row| && i != n :: row[i] == 0 || colour[i] == 0
    ensures Dot(row, colour) == row[n] * colour[n]
  {
    if n == 0 { DotZero(row[1..], colour[1..]); } else { DotSingle(row[1..], colour[1..], n - 1); }
  }

  lemma TransformAt(r: Partition, bounds: Box, parts: seq<AxisPartition>, m: nat)
    requires InRange(bounds, parts) && Geometry(r, bounds, parts) && m < |bounds|
    ensures |r.extent| == |r.transform| == |bounds| && |r.transform[m]| == |parts| == |r.csHi|
    ensures forall n | 0 <= n < |parts| :: r.transform[m][n] == if parts[n].dim == m then parts[n].stride else 0
  {
  }

  lemma GeometryShape(r: Partition, bounds: Box, parts: seq<AxisPartition>)
    requires InRange(bounds, parts) && Geometry(r, bounds, parts)
    ensures Shaped(r) && |r.csHi| == |parts| && |r.extent| == |bounds|
        && r.extent == ExtentAfter(bounds, parts, |parts|)
    ensures forall n | 0 <= n < |parts| :: r.csHi[n] == Colours(parts[n]) - 1
  {
    hide Colours;
  }

  /** On the axis of part n, a block is the extent of that part moved by its stride. */
  lemma BlockOnPart(r: Partition, bounds: Box, parts: seq<AxisPartition>, colour: Point, n: nat)
    requires InRange(bounds, parts) && DistinctDims(parts) && Geometry(r, bounds, parts)
    requires |colour| == |r.csHi| && n < |parts| && parts[n].dim >= 0
    ensures |r.extent| == |bounds|
    ensures Block(r, colour)[parts[n].dim]
         == Interval(Reach(parts[n]).lo + parts[n].stride * colour[n], Reach(parts[n]).hi + parts[n].stride * colour[n])
  {
    hide Geometry, Reach;
    GeometryShape(r, bounds, parts);
    TransformAt(r, bounds, parts, parts[n].dim);
    ExtentOfLast(bounds, parts, |parts|, n);
    DotSingle(r.transform[parts[n].dim], colour, n);
  }

  /** Where the parts on an axis have colour 0, or there are none, a block is the extent. */
  lemma BlockUnmoved(r: Partition, bounds: Box, parts: seq<AxisPartition>, colour: Point, m: nat)
    requires InRange(bounds, parts) && Geometry(r, bounds, parts) && |colour| == |r.csHi| && m < |bounds|
    requires forall n | 0 <= n < |parts| && parts[n].dim == m :: colour[n] == 0
    ensures |r.extent| == |bounds| && Block(r, colour)[m] == r.extent[m]
  {
    hide Geometry, Reach;
    GeometryShape(r, bounds, parts);
    TransformAt(r, bounds, parts, m);
    DotZero(r.transform[m], colour);
  }

  /** Coordinate x is in the block of colour c along this part. */
  predicate Hits(part: AxisPartition, c: int, x: int) {
    Reach(part).lo + part.stride * c <= x <= Reach(part).hi + part.stride * c
  }

  /** A point of the bounds lies in a block exactly when it does on every partitioned axis. */
  lemma InBlock(r: Partition, bounds: Box, parts: seq<AxisPartition>, colour: Point, p: Point)
    requires InRange(bounds, parts) && DistinctDims(parts) && Geometry(r, bounds, parts) && |colour| == |r.csHi|
    requires InBox(p, bounds)
    ensures |p| == |bounds|
    ensures InBox(p, Block(r, colour))
       <==> forall n | 0 <= n < |parts| && parts[n].dim >= 0 :: Hits(parts[n], colour[n], p[parts[n].dim])
  {
    hide Geometry, Reach;
    GeometryShape(r, bounds, parts);
    InBoxIs(p, bounds);
    InBoxIs(p, Block(r, colour));
    forall n | 0 <= n < |parts| && parts[n].dim >= 0
      ensures Block(r, colour)[parts[n].dim]
           == Interval(Reach(parts[n]).lo + parts[n].stride * colour[n],
                       Reach(parts[n]).hi + parts[n].stride * colour[n])
    {
      BlockOnPart(r, bounds, parts, colour, n);
    }
    forall m | 0 <= m < |bounds| && (forall n | 0 <= n < |parts| :: parts[n].dim != m)
      ensures Block(r, colour)[m] == bounds[m]
    {
      BlockUnmoved(r, bounds, parts, colour, m);
      ExtentUntouched(bounds, parts, |parts|, m);
    }
  }

  // ----- disjointness -----

  ghost predicate Meet(r: Partition, c: Point, d: Point)
    requires Shaped(r) && |c| == |d| == |r.csHi|
  {
    exists p :: InBox(p, Block(r, c)) && InBox(p, Block(r, d))
  }

  /** No point is in the blocks of two colours. */
  ghost predicate Disjoint(r: Partition)
    requires Shaped(r)
  {
    forall c, d | IsColour(r, c) && IsColour(r, d) && c != d :: !Meet(r, c, d)
  }

  function Width(r: Partition, m: nat): int
    requires m < |r.extent|
  {
    r.extent[m].hi - r.extent[m].lo
  }

  ghost predicate Within(r: Partition, v: seq<int>, m: nat)
    requires Shaped(r) && |v| == |r.csHi| && m < |r.extent|
  {
    -Width(r, m) <= Dot(r.transform[m], v) <= Width(r, m)
  }

  /** Two colours that differ by v, which is not zero, have blocks that are less than their width apart. */
  ghost predicate Collision(r: Partition, v: seq<int>)
    requires Shaped(r)
  {
    && |v| == |r.csHi| && (forall n | 0 <= n < |v| :: -r.csHi[n] <= v[n] <= r.csHi[n])
    && (exists n :: 0 <= n < |v| && v[n] != 0)
    && forall m | 0 <= m < |r.extent| :: Within(r, v, m)
  }

  ghost predicate Collides(r: Partition)
    requires Shaped(r)
  {
    exists v :: Collision(r, v)
  }

  function Minus(c: Point, d: Point): (v: Point)
    requires |c| == |d|
    ensures |v| == |c|
  {
    seq(|c|, n requires 0 <= n < |c| => c[n] - d[n])
  }

  lemma {:induction false} DotMinus(row: seq<int>, c: Point, d: Point)
    requires |row| == |c| == |d|
    ensures Dot(row, Minus(c, d)) == Dot(row, c) - Dot(row, d)
  {
    if row != [] {
      DotMinus(row[1..], c[1..], d[1..]);
      assert Minus(c, d)[1..] == Minus(c[1..], d[1..]);
      assert row[0] * (c[0] - d[0]) == row[0] * c[0] - row[0] * d[0];
    }
  }

  lemma BlocksMeet(r: Partition, c: Point, d: Point)
    requires Shaped(r) && |c| == |d| == |r.csHi|
    ensures Meet(r, c, d) <==> forall m | 0 <= m < |r.extent| :: Within(r, Minus(c, d), m)
  {
    hide Meet, Dot;
    forall m | 0 <= m < |r.extent|
      ensures Dot(r.transform[m], Minus(c, d)) == Dot(r.transform[m], c) - Dot(r.transform[m], d)
    {
      DotMinus(r.transform[m], c, d);
    }
    if forall m | 0 <= m < |r.extent| :: Within(r, Minus(c, d), m) {
      MeetThere(r, c, d);
    }
    if Meet(r, c, d) {
      var p := SharedPoint(r, c, d);
      InBoxIs(p, Block(r, c));
      InBoxIs(p, Block(r, d));
      forall m | 0 <= m < |r.extent| ensures Within(r, Minus(c, d), m) {
        assert Block(r, c)[m].lo <= p[m] <= Block(r, c)[m].hi && Block(r, d)[m].lo <= p[m] <= Block(r, d)[m].hi;
      }
    }
  }

  lemma SharedPoint(r: Partition, c: Point, d: Point) returns (p: Point)
    requires Shaped(r) && |c| == |d| == |r.csHi| && Meet(r, c, d)
    ensures InBox(p, Block(r, c)) && InBox(p, Block(r, d))
  {
    p :| InBox(p, Block(r, c)) && InBox(p, Block(r, d));
  }

  /** The upper corner of the two lower corners. */
  lemma MeetThere(r: Partition, c: Point, d: Point)
    requires Shaped(r) && |c| == |d| == |r.csHi|
    requires forall m | 0 <= m < |r.extent| ::
               && Within(r, Minus(c, d), m)
               && Dot(r.transform[m], Minus(c, d)) == Dot(r.transform[m], c) - Dot(r.transform[m], d)
    ensures Meet(r, c, d)
  {
    hide Dot;
    var p := seq(|r.extent|, m requires 0 <= m < |r.extent| =>
      if Block(r, c)[m].lo >= Block(r, d)[m].lo then Block(r, c)[m].lo else Block(r, d)[m].lo);
    InBoxIs(p, Block(r, c));
    InBoxIs(p, Block(r, d));
    forall m | 0 <= m < |r.extent|
      ensures Block(r, c)[m].lo <= p[m] <= Block(r, c)[m].hi && Block(r, d)[m].lo <= p[m] <= Block(r, d)[m].hi
    {
      assert Within(r, Minus(c, d), m);
    }
  }

  /** The colours apart from v: its positive entries, and its negative ones with their signs turned. */
  function Above(v: seq<int>, sign: int): (c: Point)
    ensures |c| == |v|
  {
    seq(|v|, n requires 0 <= n < |v| => if v[n] * sign > 0 then v[n] * sign else 0)
  }

  lemma CollisionMeets(r: Partition, v: seq<int>)
    requires Shaped(r) && Collision(r, v)
    ensures !Disjoint(r)
  {
    hide Meet, Within, Block;
    var c, d := Above(v, 1), Above(v, -1);
    assert Minus(c, d) == v;
    BlocksMeet(r, c, d);
    var n :| 0 <= n < |v| && v[n] != 0;
    assert c[n] != d[n];
  }

  /**
   Whatever the parts, repeated axes included: the blocks are disjoint exactly when no difference of
   colours collides.
   */
  lemma DisjointExact(r: Partition)
    requires Shaped(r)
    ensures Disjoint(r) <==> !Collides(r)
  {
    hide Meet, Within, Block;
    if Collides(r) {
      var v :| Collision(r, v);
      CollisionMeets(r, v);
    }
    forall c, d | !Collides(r) && IsColour(r, c) && IsColour(r, d) && c != d ensures !Meet(r, c, d) {
      BlocksMeet(r, c, d);
      var v := Minus(c, d);
      var n :| 0 <= n < |c| && c[n] != d[n];
      assert v[n] != 0;
      assert !Collision(r, v);
    }
  }

  // ----- disjointness on distinct axes -----

  /** Two neighbours along this part share coordinates, or are the same block. */
  predicate Crowded(part: AxisPartition, hi: int) {
    hi > 0 && (part.dim < 0 || Overlaps(part, hi))
  }

  /** No colours, or no points in any block. */
  ghost predicate NoBlocks(r: Partition) {
    || (exists n :: 0 <= n < |r.csHi| && r.csHi[n] < 0)
    || exists m :: 0 <= m < |r.extent| && r.extent[m].lo > r.extent[m].hi
  }

  lemma CollisionIsWide(r: Partition, v: seq<int>)
    requires Shaped(r) && Collision(r, v)
    ensures !NoBlocks(r)
  {
    assert forall m | 0 <= m < |r.extent| :: Within(r, v, m) ==> r.extent[m].lo <= r.extent[m].hi;
  }

  lemma Farther(s: int, c: int)
    requires s > 0 && c != 0
    ensures s * c >= s || s * c <= -s
  {
    if c > 0 { Spread(s, 0, c); } else { Spread(s, c, 0); }
  }

  lemma {:induction false} Spread(s: int, c: int, d: int)
    requires s > 0 && c < d
    ensures s * c + s <= s * d
    decreases d - c
  {
    assert s * d == s * (d - 1) + s;
    if c + 1 < d { Spread(s, c, d - 1); }
  }

  /** A part with more than one colour has a positive stride. */
  lemma Moves(part: AxisPartition)
    requires Colours(part) - 1 != 0
    ensures part.stride > 0
  {
  }

  lemma CrowdedFrom(r: Partition, bounds: Box, parts: seq<AxisPartition>, v: seq<int>, n: nat)
    requires InRange(bounds, parts) && DistinctDims(parts) && Geometry(r, bounds, parts) && Shaped(r)
    requires Collision(r, v) && n < |v| == |parts| && v[n] != 0
    ensures Crowded(parts[n], r.csHi[n])
  {
    hide Geometry, Colours;
    GeometryShape(r, bounds, parts);
    Moves(parts[n]);
    var m := parts[n].dim;
    if m >= 0 {
      TransformAt(r, bounds, parts, m);
      ExtentOfLast(bounds, parts, |parts|, n);
      DotSingle(r.transform[m], v, n);
      assert Within(r, v, m);
      Farther(parts[n].stride, v[n]);
    }
  }

  lemma CollisionFrom(r: Partition, bounds: Box, parts: seq<AxisPartition>, n: nat)
    requires InRange(bounds, parts) && DistinctDims(parts) && Geometry(r, bounds, parts) && Shaped(r)
    requires n < |parts| == |r.csHi| && Crowded(parts[n], r.csHi[n]) && !NoBlocks(r)
    ensures Collides(r)
  {
    hide Geometry, Colours;
    GeometryShape(r, bounds, parts);
    Moves(parts[n]);
    var v := seq(|parts|, i => if i == n then 1 else 0);
    assert v[n] != 0;
    forall m | 0 <= m < |r.extent| ensures Within(r, v, m) {
      TransformAt(r, bounds, parts, m);
      DotSingle(r.transform[m], v, n);
      if parts[n].dim == m { ExtentOfLast(bounds, parts, |parts|, n); }
    }
    assert Collision(r, v);
  }

  /** The exact condition for disjoint blocks, one part at a time. */
  lemma DisjointOnAxes(r: Partition, bounds: Box, parts: seq<AxisPartition>)
    requires InRange(bounds, parts) && DistinctDims(parts) && Geometry(r, bounds, parts)
    ensures |r.csHi| == |parts|
    ensures Disjoint(r) <==> NoBlocks(r) || !exists n :: 0 <= n < |parts| && Crowded(parts[n], r.csHi[n])
  {
    hide Geometry, Crowded, Disjoint, NoBlocks, Within;
    GeometryShape(r, bounds, parts);
    DisjointExact(r);
    if Collides(r) {
      var v :| Collision(r, v);
      CollisionIsWide(r, v);
      var n :| 0 <= n < |v| && v[n] != 0;
      CrowdedFrom(r, bounds, parts, v, n);
    } else if !NoBlocks(r) {
      forall n | 0 <= n < |parts| ensures !Crowded(parts[n], r.csHi[n]) {
        if Crowded(parts[n], r.csHi[n]) { CollisionFrom(r, bounds, parts, n); }
      }
    }
  }

  // ----- coverage on distinct axes -----

  ghost predicate SomeColour(r: Partition, p: Point)
    requires Shaped(r)
  {
    exists c :: IsColour(r, c) && InBox(p, Block(r, c))
  }

  ghost predicate Covered(r: Partition, bounds: Box)
    requires Shaped(r)
  {
    forall p | InBox(p, bounds) :: SomeColour(r, p)
  }

  /** If neighbours leave no gap, both ends of the bound are inside; otherwise one block holds the whole bound. */
  predicate AxisCovered(part: AxisPartition, hi: int, bound: Interval) {
    var (reach, s) := (Reach(part), part.stride);
    if s <= 0 || hi <= 0 || s <= reach.hi - reach.lo + 1 then reach.lo <= bound.lo && bound.hi <= reach.hi + hi * s
    else
      var q := (bound.lo - reach.lo) / s;
      0 <= q <= hi && bound.hi <= reach.hi + s * q
  }

  ghost predicate HitBySome(part: AxisPartition, hi: int, x: int) {
    exists c :: 0 <= c <= hi && Hits(part, c, x)
  }

  lemma Quotient(x: int, s: int)
    requires s > 0
    ensures s * (x / s) <= x < s * (x / s) + s && (x >= 0 <==> x / s >= 0)
  {
    var q := x / s;
    assert x == s * q + x % s && 0 <= x % s < s;
    if q < 0 { Spread(s, q, 0); } else if q > 0 { Spread(s, 0, q); }
  }

  /** The colour of a coordinate: the block that reaches it, or the last one. */
  function ColourAt(part: AxisPartition, hi: int, x: int): int {
    if part.stride <= 0 || hi <= 0 then 0
    else
      var q := (x - Reach(part).lo) / part.stride;
      if q <= hi then q else hi
  }

  lemma ColourReaches(part: AxisPartition, hi: int, bound: Interval, x: int)
    requires AxisCovered(part, hi, bound) && hi >= 0 && bound.lo <= x <= bound.hi && (part.stride <= 0 ==> hi == 0)
    ensures HitBySome(part, hi, x)
  {
    var (reach, s) := (Reach(part), part.stride);
    if s <= 0 || hi <= 0 {
      assert Hits(part, 0, x);
    } else if s <= reach.hi - reach.lo + 1 {
      var q := (x - reach.lo) / s;
      Quotient(x - reach.lo, s);
      if q > hi { Spread(s, hi, q); }
      assert Hits(part, ColourAt(part, hi, x), x);
    } else {
      var q := (bound.lo - reach.lo) / s;
      Quotient(bound.lo - reach.lo, s);
      assert Hits(part, q, x);
    }
  }

  lemma ReachedEnds(part: AxisPartition, hi: int, c: int)
    requires 0 <= c <= hi && (part.stride <= 0 ==> hi == 0)
    ensures 0 <= part.stride * c <= hi * part.stride
  {
    if part.stride > 0 {
      if 0 < c { Spread(part.stride, 0, c); }
      if c < hi { Spread(part.stride, c, hi); }
    }
  }

  lemma {:induction false} OnlyQuotient(x: int, s: int, c: int)
    requires s > 0
    ensures s * c <= x <= s - 1 + s * c <==> c == x / s
  {
    Quotient(x, s);
    if c < x / s { Spread(s, c, x / s); }
    if x / s < c { Spread(s, x / s, c); }
  }

  lemma AxisMissed(part: AxisPartition, hi: int, bound: Interval) returns (x: int)
    requires !AxisCovered(part, hi, bound) && hi >= 0 && bound.lo <= bound.hi && (part.stride <= 0 ==> hi == 0)
    ensures bound.lo <= x <= bound.hi && !HitBySome(part, hi, x)
  {
    var (reach, s) := (Reach(part), part.stride);
    if s <= 0 || hi <= 0 || s <= reach.hi - reach.lo + 1 {
      x := if reach.lo <= bound.lo then bound.hi else bound.lo;
      if c :| 0 <= c <= hi && Hits(part, c, x) { ReachedEnds(part, hi, c); }
    } else {
      var q := (bound.lo - reach.lo) / s;
      Quotient(bound.lo - reach.lo, s);
      x := if 0 <= q <= hi && bound.lo <= reach.hi + s * q then reach.hi + s * q + 1 else bound.lo;
      if c :| 0 <= c <= hi && Hits(part, c, x) {
        if x == bound.lo {
          OnlyQuotient(x - reach.lo, s, c);
        } else if c <= q {
          NotFarther(s, c, q);
        } else {
          Spread(s, q, c);
        }
      }
    }
  }

  lemma NotFarther(s: int, c: int, q: int)
    requires s > 0 && c <= q
    ensures s * c <= s * q
  {
    if c < q { Spread(s, c, q); }
  }

  ghost function Pick(part: AxisPartition, hi: int, x: int): (c: int)
    requires HitBySome(part, hi, x)
    ensures 0 <= c <= hi && Hits(part, c, x)
  {
    var c :| 0 <= c <= hi && Hits(part, c, x);
    c
  }

  /** There are colours along the part, and one of them hits the coordinate of p on its axis. */
  ghost predicate ColourFor(part: AxisPartition, hi: int, p: Point) {
    hi >= 0 && (0 <= part.dim < |p| ==> HitBySome(part, hi, p[part.dim]))
  }

  /** A point of the bounds has a colour exactly when every part has one for it. */
  lemma SomeColourIs(r: Partition, bounds: Box, parts: seq<AxisPartition>, p: Point)
    requires InRange(bounds, parts) && DistinctDims(parts) && Geometry(r, bounds, parts) && Shaped(r)
        && InBox(p, bounds)
    ensures |p| == |bounds| && |r.csHi| == |parts|
    ensures SomeColour(r, p) <==> forall n | 0 <= n < |parts| :: ColourFor(parts[n], r.csHi[n], p)
  {
    hide Geometry, Block, InBox, Hits;
    GeometryShape(r, bounds, parts);
    InBoxIs(p, bounds);
    if SomeColour(r, p) {
      var c :| IsColour(r, c) && InBox(p, Block(r, c));
      InBlock(r, bounds, parts, c, p);
      forall n | 0 <= n < |parts| ensures ColourFor(parts[n], r.csHi[n], p) {
      }
    }
    if forall n | 0 <= n < |parts| :: ColourFor(parts[n], r.csHi[n], p) {
      var c := seq(|parts|, n requires 0 <= n < |parts| =>
        if parts[n].dim < 0 then 0 else Pick(parts[n], r.csHi[n], p[parts[n].dim]));
      InBlock(r, bounds, parts, c, p);
    }
  }

  /** There are colours along the part, and they cover the bound of its axis. */
  ghost predicate PartCovers(part: AxisPartition, hi: int, bounds: Box) {
    hi >= 0 && (0 <= part.dim < |bounds| ==> AxisCovered(part, hi, bounds[part.dim]))
  }

  ghost predicate PartsCover(csHi: seq<int>, bounds: Box, parts: seq<AxisPartition>)
    requires |csHi| == |parts| && InRange(bounds, parts)
  {
    forall n | 0 <= n < |parts| :: PartCovers(parts[n], csHi[n], bounds)
  }

  ghost predicate Nonempty(bounds: Box) {
    forall m | 0 <= m < |bounds| :: bounds[m].lo <= bounds[m].hi
  }

  lemma Uncovered(r: Partition, bounds: Box, parts: seq<AxisPartition>, n: nat) returns (p: Point)
    requires InRange(bounds, parts) && DistinctDims(parts) && Geometry(r, bounds, parts) && Shaped(r)
        && Nonempty(bounds)
    requires n < |parts| == |r.csHi| && !PartCovers(parts[n], r.csHi[n], bounds)
    ensures InBox(p, bounds) && !SomeColour(r, p)
  {
    hide Geometry, AxisCovered, Colours, HitBySome, SomeColour, Block;
    GeometryShape(r, bounds, parts);
    p := seq(|bounds|, m requires 0 <= m < |bounds| => bounds[m].lo);
    if r.csHi[n] >= 0 {
      if r.csHi[n] > 0 { Moves(parts[n]); }
      var x := AxisMissed(parts[n], r.csHi[n], bounds[parts[n].dim]);
      p := p[parts[n].dim := x];
    }
    InBoxIs(p, bounds);
    SomeColourIs(r, bounds, parts, p);
  }

  /** The exact condition for blocks that cover the bounds, one part at a time. */
  lemma CoveredOnAxes(r: Partition, bounds: Box, parts: seq<AxisPartition>)
    requires InRange(bounds, parts) && DistinctDims(parts) && Geometry(r, bounds, parts)
    ensures Shaped(r) && |r.csHi| == |parts|
    ensures Covered(r, bounds) <==> !Nonempty(bounds) || PartsCover(r.csHi, bounds, parts)
  {
    hide Geometry, AxisCovered, Colours, HitBySome, SomeColour, InBox;
    GeometryShape(r, bounds, parts);
    if Nonempty(bounds) && !PartsCover(r.csHi, bounds, parts) {
      var n :| 0 <= n < |parts| && !PartCovers(parts[n], r.csHi[n], bounds);
      var p := Uncovered(r, bounds, parts, n);
    } else {
      forall p | InBox(p, bounds) ensures SomeColour(r, p) {
        InBoxIs(p, bounds);
        assert Nonempty(bounds);
        SomeColourIs(r, bounds, parts, p);
        forall n | 0 <= n < |parts| ensures ColourFor(parts[n], r.csHi[n], p) {
          assert PartCovers(parts[n], r.csHi[n], bounds);
          if r.csHi[n] > 0 { Moves(parts[n]); }
          if parts[n].dim >= 0 { ColourReaches(parts[n], r.csHi[n], bounds[parts[n].dim], p[parts[n].dim]); }
        }
      }
    }
  }

  // ----- coverage, axis by axis -----

  /** Some colour has a block that contains coordinate x of axis m. */
  ghost predicate Reached(r: Partition, m: nat, x: int)
    requires Shaped(r) && m < |r.extent|
  {
    exists c :: ReachedBy(r, m, x, c)
  }

  ghost predicate ReachedBy(r: Partition, m: nat, x: int, c: Point)
    requires Shaped(r) && m < |r.extent|
  {
    IsColour(r, c) && r.extent[m].lo + Dot(r.transform[m], c) <= x <= r.extent[m].hi + Dot(r.transform[m], c)
  }

  ghost predicate AxisReached(r: Partition, m: nat, bound: Interval)
    requires Shaped(r) && m < |r.extent|
  {
    forall x | bound.lo <= x <= bound.hi :: Reached(r, m, x)
  }

  /** There are colours, and the blocks reach every coordinate of every bound. */
  ghost predicate AxesReached(r: Partition, bounds: Box)
    requires Shaped(r) && |bounds| == |r.extent|
  {
    && (forall n | 0 <= n < |r.csHi| :: r.csHi[n] >= 0)
    && forall m | 0 <= m < |bounds| :: AxisReached(r, m, bounds[m])
  }

  lemma {:induction false} DotSame(row: seq<int>, c: Point, d: Point)
    requires |row| == |c| == |d| && forall i | 0 <= i < |row| :: row[i] == 0 || c[i] == d[i]
    ensures Dot(row, c) == Dot(row, d)
  {
    if row != [] { DotSame(row[1..], c[1..], d[1..]); }
  }

  ghost function PickColour(r: Partition, m: nat, x: int): (c: Point)
    requires Shaped(r) && m < |r.extent| && Reached(r, m, x)
    ensures ReachedBy(r, m, x, c)
  {
    var c :| ReachedBy(r, m, x, c);
    c
  }

  /** Every part takes its colour from the colour that reaches the coordinate of its axis. */
  lemma Combined(r: Partition, bounds: Box, parts: seq<AxisPartition>, p: Point)
    requires InRange(bounds, parts) && Geometry(r, bounds, parts) && Shaped(r) && |bounds| == |r.extent|
    requires AxesReached(r, bounds) && InBox(p, bounds)
    ensures SomeColour(r, p)
  {
    hide Geometry, Dot, InBox, AxisReached;
    GeometryShape(r, bounds, parts);
    InBoxIs(p, bounds);
    forall m | 0 <= m < |bounds| ensures Reached(r, m, p[m]) { ReachedAt(r, bounds, m, p[m]); }
    var c := seq(|parts|, n requires 0 <= n < |parts| =>
      if 0 <= parts[n].dim < |bounds| then PickColour(r, parts[n].dim, p[parts[n].dim])[n] else 0);
    forall n | 0 <= n < |parts| ensures 0 <= c[n] <= r.csHi[n] {
      if parts[n].dim >= 0 {
        var x := p[parts[n].dim];
        assert ReachedBy(r, parts[n].dim, x, PickColour(r, parts[n].dim, x));
      }
    }
    forall m | 0 <= m < |bounds| ensures Block(r, c)[m].lo <= p[m] <= Block(r, c)[m].hi {
      TransformAt(r, bounds, parts, m);
      var d := PickColour(r, m, p[m]);
      assert ReachedBy(r, m, p[m], d);
      DotSame(r.transform[m], c, d);
    }
    InBoxIs(p, Block(r, c));
    assert IsColour(r, c);
  }

  lemma ReachedAt(r: Partition, bounds: Box, m: nat, x: int)
    requires Shaped(r) && |bounds| == |r.extent| && AxesReached(r, bounds) && m < |bounds|
    requires bounds[m].lo <= x <= bounds[m].hi
    ensures Reached(r, m, x)
  {
    assert AxisReached(r, m, bounds[m]);
  }

  lemma ReachedFrom(r: Partition, m: nat, p: Point)
    requires Shaped(r) && SomeColour(r, p)
    ensures forall n | 0 <= n < |r.csHi| :: r.csHi[n] >= 0
    ensures m < |r.extent| ==> |p| == |r.extent| && Reached(r, m, p[m])
  {
    hide Dot, InBox;
    var c :| IsColour(r, c) && InBox(p, Block(r, c));
    InBoxIs(p, Block(r, c));
    if m < |r.extent| { assert ReachedBy(r, m, p[m], c); }
  }

  /** Whatever the parts: the blocks cover the bounds exactly when they do so on each axis by itself. */
  lemma CoveredByAxes(r: Partition, bounds: Box, parts: seq<AxisPartition>)
    requires InRange(bounds, parts) && Geometry(r, bounds, parts)
    ensures Shaped(r) && |bounds| == |r.extent|
    ensures Covered(r, bounds) <==> !Nonempty(bounds) || AxesReached(r, bounds)
  {
    hide Geometry, InBox, SomeColour, Reached, Shaped;
    GeometryShape(r, bounds, parts);
    if Nonempty(bounds) && Covered(r, bounds) {
      forall m, x | 0 <= m < |bounds| && bounds[m].lo <= x <= bounds[m].hi ensures Reached(r, m, x) {
        var p := seq(|bounds|, i requires 0 <= i < |bounds| => if i == m then x else bounds[i].lo);
        InBoxIs(p, bounds);
        ReachedFrom(r, m, p);
      }
      var p := seq(|bounds|, i requires 0 <= i < |bounds| => bounds[i].lo);
      InBoxIs(p, bounds);
      ReachedFrom(r, |r.extent|, p);
    }
    forall p | InBox(p, bounds) && (!Nonempty(bounds) || AxesReached(r, bounds)) ensures SomeColour(r, p) {
      InBoxIs(p, bounds);
      Combined(r, bounds, parts, p);
    }
  }

  // ----- disjointness within the bounds -----

  /** No point of the bounds is in the blocks of two colours. */
  ghost predicate DisjointWithin(r: Partition, bounds: Box)
    requires Shaped(r)
  {
    forall c, d, p | IsColour(r, c) && IsColour(r, d) && c != d && InBox(p, bounds) :: !InBoth(r, c, d, p)
  }

  ghost predicate InBoth(r: Partition, c: Point, d: Point, p: Point)
    requires Shaped(r) && |c| == |d| == |r.csHi|
  {
    InBox(p, Block(r, c)) && InBox(p, Block(r, d))
  }

  /** Colours c and c + 1 of the part share coordinate x. */
  predicate Shares(part: AxisPartition, hi: int, c: int, x: int) {
    0 <= c < hi && Hits(part, c, x) && Hits(part, c + 1, x)
  }

  /** Two neighbouring blocks of the part share a coordinate of the bound of its axis. */
  ghost predicate SharedOn(part: AxisPartition, hi: int, bounds: Box) {
    hi > 0
    && (0 <= part.dim < |bounds| ==>
          exists c, x :: bounds[part.dim].lo <= x <= bounds[part.dim].hi && Shares(part, hi, c, x))
  }

  /** Some block of the part has a coordinate of the bound of its axis. */
  ghost predicate TouchedBy(part: AxisPartition, hi: int, bounds: Box) {
    hi >= 0
    && (0 <= part.dim < |bounds| ==>
        exists x :: bounds[part.dim].lo <= x <= bounds[part.dim].hi && HitBySome(part, hi, x))
  }

  ghost predicate SharedWithin(parts: seq<AxisPartition>, csHi: seq<int>, bounds: Box)
    requires |csHi| == |parts|
  {
    && Nonempty(bounds) && (forall n | 0 <= n < |parts| :: TouchedBy(parts[n], csHi[n], bounds))
    && exists n :: 0 <= n < |parts| && SharedOn(parts[n], csHi[n], bounds)
  }

  /** Two colours of a part that hit one coordinate leave neighbours that do. */
  lemma Neighbours(part: AxisPartition, hi: int, c: int, d: int, x: int)
    requires 0 <= c < d <= hi && Hits(part, c, x) && Hits(part, d, x) && part.stride > 0
    ensures Shares(part, hi, c, x)
  {
    if c + 1 < d { Spread(part.stride, c + 1, d); }
    assert part.stride * (c + 1) == part.stride * c + part.stride;
  }

  lemma SharedFrom(r: Partition, bounds: Box, parts: seq<AxisPartition>, c: Point, d: Point, p: Point)
    requires InRange(bounds, parts) && DistinctDims(parts) && Geometry(r, bounds, parts) && Shaped(r)
    requires IsColour(r, c) && IsColour(r, d) && c != d && InBox(p, bounds) && InBoth(r, c, d, p)
    ensures |r.csHi| == |parts| && SharedWithin(parts, r.csHi, bounds)
  {
    hide Geometry, Block, InBox, Hits, Colours;
    GeometryShape(r, bounds, parts);
    InBoxIs(p, bounds);
    InBlock(r, bounds, parts, c, p);
    InBlock(r, bounds, parts, d, p);
    forall n | 0 <= n < |parts| ensures TouchedBy(parts[n], r.csHi[n], bounds) {
      if parts[n].dim >= 0 { assert HitBySome(parts[n], r.csHi[n], p[parts[n].dim]); }
    }
    var n :| 0 <= n < |c| && c[n] != d[n];
    Moves(parts[n]);
    if parts[n].dim >= 0 {
      var x := p[parts[n].dim];
      if c[n] < d[n] {
        Neighbours(parts[n], r.csHi[n], c[n], d[n], x);
      } else {
        Neighbours(parts[n], r.csHi[n], d[n], c[n], x);
      }
    }
    assert SharedOn(parts[n], r.csHi[n], bounds);
  }

  /** The part on axis m, if there is one. */
  ghost function PartOn(parts: seq<AxisPartition>, m: int): (n: int)
    ensures n == -1 || (0 <= n < |parts| && parts[n].dim == m)
    ensures n == -1 ==> forall i | 0 <= i < |parts| :: parts[i].dim != m
  {
    if i :| 0 <= i < |parts| && parts[i].dim == m then i else -1
  }

  ghost function Touch(part: AxisPartition, hi: int, bounds: Box): (cx: (int, int))
    requires TouchedBy(part, hi, bounds)
    ensures 0 <= cx.0 <= hi
    ensures 0 <= part.dim < |bounds| ==>
              bounds[part.dim].lo <= cx.1 <= bounds[part.dim].hi && Hits(part, cx.0, cx.1)
  {
    if 0 <= part.dim < |bounds| then
      var x :| bounds[part.dim].lo <= x <= bounds[part.dim].hi && HitBySome(part, hi, x);
      (Pick(part, hi, x), x)
    else (0, 0)
  }

  ghost function Share(part: AxisPartition, hi: int, bounds: Box): (cx: (int, int))
    requires SharedOn(part, hi, bounds)
    ensures 0 <= cx.0 < hi
    ensures 0 <= part.dim < |bounds| ==>
              bounds[part.dim].lo <= cx.1 <= bounds[part.dim].hi && Shares(part, hi, cx.0, cx.1)
  {
    if 0 <= part.dim < |bounds| then
      var c, x :| bounds[part.dim].lo <= x <= bounds[part.dim].hi && Shares(part, hi, c, x);
      (c, x)
    else (0, 0)
  }

  lemma SharedPlace(r: Partition, bounds: Box, parts: seq<AxisPartition>, k: nat)
    requires InRange(bounds, parts) && DistinctDims(parts) && Geometry(r, bounds, parts) && Shaped(r)
    requires |r.csHi| == |parts| && SharedWithin(parts, r.csHi, bounds)
    requires k < |parts| && SharedOn(parts[k], r.csHi[k], bounds)
    ensures !DisjointWithin(r, bounds)
  {
    hide Geometry, Block, InBox, Hits, TouchedBy, SharedOn, Colours;
    GeometryShape(r, bounds, parts);
    var at := seq(|parts|, n requires 0 <= n < |parts| =>
      if n == k then Share(parts[n], r.csHi[n], bounds) else Touch(parts[n], r.csHi[n], bounds));
    var c := seq(|parts|, n requires 0 <= n < |parts| => at[n].0);
    var d := c[k := c[k] + 1];
    var p := seq(|bounds|, m requires 0 <= m < |bounds| =>
      if PartOn(parts, m) == -1 then bounds[m].lo else at[PartOn(parts, m)].1);
    InBoxIs(p, bounds);
    forall n | 0 <= n < |parts| && parts[n].dim >= 0
      ensures Hits(parts[n], c[n], p[parts[n].dim]) && Hits(parts[n], d[n], p[parts[n].dim])
    {
      OnlyPart(parts, n);
    }
    InBlock(r, bounds, parts, c, p);
    InBlock(r, bounds, parts, d, p);
    assert c[k] != d[k];
    assert IsColour(r, c) && IsColour(r, d) && InBoth(r, c, d, p);
  }

  lemma OnlyPart(parts: seq<AxisPartition>, n: nat)
    requires DistinctDims(parts) && n < |parts| && parts[n].dim >= 0
    ensures PartOn(parts, parts[n].dim) == n
  {
    var i := PartOn(parts, parts[n].dim);
  }

  /** The exact condition for blocks that are disjoint within the bounds. */
  lemma WithinOnAxes(r: Partition, bounds: Box, parts: seq<AxisPartition>)
    requires InRange(bounds, parts) && DistinctDims(parts) && Geometry(r, bounds, parts)
    ensures Shaped(r) && |r.csHi| == |parts|
    ensures DisjointWithin(r, bounds) <==> !SharedWithin(parts, r.csHi, bounds)
  {
    hide Geometry, InBox, InBoth, SharedOn, TouchedBy, Shaped, SharedWithin;
    GeometryShape(r, bounds, parts);
    if SharedWithin(parts, r.csHi, bounds) {
      var n := SharedPart(parts, r.csHi, bounds);
      SharedPlace(r, bounds, parts, n);
    }
    if !DisjointWithin(r, bounds) {
      var c, d, p :| IsColour(r, c) && IsColour(r, d) && c != d && InBox(p, bounds) && InBoth(r, c, d, p);
      SharedFrom(r, bounds, parts, c, d, p);
    }
  }

  lemma SharedPart(parts: seq<AxisPartition>, csHi: seq<int>, bounds: Box) returns (n: nat)
    requires |csHi| == |parts| && SharedWithin(parts, csHi, bounds)
    ensures n < |parts| && SharedOn(parts[n], csHi[n], bounds)
  {
    hide SharedOn;
    n :| 0 <= n < |parts| && SharedOn(parts[n], csHi[n], bounds);
  }

  // ----- the verdicts -----

  /** The count that the verdicts read for a part is its own; so it is if part n is on axis n. */
  ghost predicate RightCounts(parts: seq<AxisPartition>, csHi: seq<int>, outside: int -> int)
    requires |csHi| == |parts|
  {
    forall n | 0 <= n < |parts| && parts[n].dim >= 0 :: Looked(csHi, outside, parts[n].dim) == csHi[n]
  }

  lemma OnAxesOfTheirOwn(parts: seq<AxisPartition>, csHi: seq<int>, outside: int -> int)
    requires |csHi| == |parts| && forall n | 0 <= n < |parts| :: parts[n].dim == n
    ensures RightCounts(parts, csHi, outside) && DistinctDims(parts) && !Strays(parts, |parts|)
  {
  }

  ghost predicate SomeAliased(parts: seq<AxisPartition>, csHi: seq<int>, outside: int -> int) {
    exists n :: 0 <= n < |parts| && AliasedBy(parts[n], csHi, outside)
  }

  ghost predicate SomeCrowded(parts: seq<AxisPartition>, csHi: seq<int>)
    requires |csHi| == |parts|
  {
    exists n :: 0 <= n < |parts| && Crowded(parts[n], csHi[n])
  }

  ghost predicate AllTile(bounds: Box, parts: seq<AxisPartition>, csHi: seq<int>, outside: int -> int)
    requires InRange(bounds, parts)
  {
    forall n | 0 <= n < |parts| && parts[n].dim >= 0 ::
      Tiles(parts[n], Looked(csHi, outside, parts[n].dim), bounds[parts[n].dim])
  }

  /**
   The verdict of disjointness is right exactly when a collision comes with a part that looks aliased by
   the counts looked up.  On distinct axes the collisions are those of a part with itself, and each part
   reading its own count is enough; there the same is said of the blocks clipped to the bounds.
   */
  lemma DisjointSound(r: Partition, bounds: Box, parts: seq<AxisPartition>, outside: int -> int)
    requires InRange(bounds, parts) && Geometry(r, bounds, parts) && Verdicts(r, bounds, parts, outside)
    ensures Shaped(r) && |r.csHi| == |parts|
    ensures (!r.aliased ==> Disjoint(r)) <==> (Collides(r) ==> SomeAliased(parts, r.csHi, outside))
    ensures DistinctDims(parts) ==>
              ((!r.aliased ==> Disjoint(r))
               <==> NoBlocks(r) || (SomeCrowded(parts, r.csHi) ==> SomeAliased(parts, r.csHi, outside)))
    ensures DistinctDims(parts) && RightCounts(parts, r.csHi, outside) ==> (!r.aliased ==> Disjoint(r))
    ensures DistinctDims(parts) ==>
              ((!r.aliased ==> DisjointWithin(r, bounds))
               <==> (SharedWithin(parts, r.csHi, bounds) ==> SomeAliased(parts, r.csHi, outside)))
  {
    hide Geometry, Complete, Disjoint, NoBlocks, Looked, Overlaps, Collides, Shaped, DisjointWithin, SharedWithin;
    GeometryShape(r, bounds, parts);
    DisjointExact(r);
    if DistinctDims(parts) {
      DisjointOnAxes(r, bounds, parts);
      WithinOnAxes(r, bounds, parts);
      if RightCounts(parts, r.csHi, outside) {
        assert forall n | 0 <= n < |parts| && Crowded(parts[n], r.csHi[n]) :: AliasedBy(parts[n], r.csHi, outside);
      }
    }
  }

  /** The verdict of aliasing is right exactly under the converse. */
  lemma AliasedSound(r: Partition, bounds: Box, parts: seq<AxisPartition>, outside: int -> int)
    requires InRange(bounds, parts) && Geometry(r, bounds, parts) && Verdicts(r, bounds, parts, outside)
    ensures Shaped(r) && |r.csHi| == |parts|
    ensures (r.aliased ==> !Disjoint(r)) <==> (SomeAliased(parts, r.csHi, outside) ==> Collides(r))
    ensures DistinctDims(parts) ==>
              ((r.aliased ==> !Disjoint(r))
               <==> (SomeAliased(parts, r.csHi, outside) ==> !NoBlocks(r) && SomeCrowded(parts, r.csHi)))
    ensures DistinctDims(parts) && RightCounts(parts, r.csHi, outside) && AllPresent(parts) && !NoBlocks(r) ==>
              (r.aliased ==> !Disjoint(r))
    ensures DistinctDims(parts) ==>
              ((r.aliased ==> !DisjointWithin(r, bounds))
               <==> (SomeAliased(parts, r.csHi, outside) ==> SharedWithin(parts, r.csHi, bounds)))
  {
    hide Geometry, Complete, Disjoint, NoBlocks, Looked, Collides, Shaped, DisjointWithin, SharedWithin;
    GeometryShape(r, bounds, parts);
    DisjointExact(r);
    if DistinctDims(parts) {
      DisjointOnAxes(r, bounds, parts);
      WithinOnAxes(r, bounds, parts);
      if RightCounts(parts, r.csHi, outside) && AllPresent(parts) {
        assert forall n | 0 <= n < |parts| && AliasedBy(parts[n], r.csHi, outside) :: Crowded(parts[n], r.csHi[n]);
      }
    }
  }

  lemma TilesCovers(part: AxisPartition, hi: int, bound: Interval)
    requires Tiles(part, hi, bound) && hi >= 0
    ensures AxisCovered(part, hi, bound)
  {
  }

  lemma CompleteIsAllTile(r: Partition, bounds: Box, parts: seq<AxisPartition>, outside: int -> int)
    requires InRange(bounds, parts) && DistinctDims(parts) && Verdicts(r, bounds, parts, outside)
    ensures r.complete <==> AllTile(bounds, parts, r.csHi, outside)
  {
    hide Looked, Tiles, Aliased;
    forall n | 0 <= n < |parts| && parts[n].dim >= 0
      ensures ExtentAfter(bounds, parts, n)[parts[n].dim] == bounds[parts[n].dim]
    {
      ExtentUntouched(bounds, parts, n, parts[n].dim);
    }
    assert forall n | 0 <= n < |parts| && parts[n].dim >= 0 ::
      CompleteBy(bounds, parts, r.csHi, outside, n)
      <==> Tiles(parts[n], Looked(r.csHi, outside, parts[n].dim), bounds[parts[n].dim]);
  }

  /**
   The verdict of completeness is right exactly when the axes are covered one by one.  On distinct axes
   that is to say that parts that tile by the counts looked up cover by their own, and each part reading
   its own count is enough, provided there are colours at all.
   */
  lemma CompleteSound(r: Partition, bounds: Box, parts: seq<AxisPartition>, outside: int -> int)
    requires InRange(bounds, parts) && Geometry(r, bounds, parts) && Verdicts(r, bounds, parts, outside)
    ensures Shaped(r) && |r.csHi| == |parts| && |r.extent| == |bounds|
    ensures (r.complete ==> Covered(r, bounds))
       <==> !Nonempty(bounds) || (Complete(bounds, parts, r.csHi, outside, |parts|) ==> AxesReached(r, bounds))
    ensures DistinctDims(parts) ==>
              ((r.complete ==> Covered(r, bounds))
               <==> !Nonempty(bounds)
                    || (AllTile(bounds, parts, r.csHi, outside) ==> PartsCover(r.csHi, bounds, parts)))
    ensures DistinctDims(parts) && RightCounts(parts, r.csHi, outside)
            && (forall n | 0 <= n < |parts| :: r.csHi[n] >= 0) ==>
              (r.complete ==> Covered(r, bounds))
  {
    hide Geometry, Complete, Aliased, Covered, AxesReached, Nonempty, AllTile, PartsCover, RightCounts, Shaped;
    GeometryShape(r, bounds, parts);
    CoveredByAxes(r, bounds, parts);
    if DistinctDims(parts) {
      CoveredOnAxes(r, bounds, parts);
      CompleteIsAllTile(r, bounds, parts, outside);
      OwnCountsCover(r.csHi, bounds, parts, outside);
    }
  }

  lemma OwnCountsCover(csHi: seq<int>, bounds: Box, parts: seq<AxisPartition>, outside: int -> int)
    requires |csHi| == |parts| && InRange(bounds, parts)
    ensures AllTile(bounds, parts, csHi, outside) && RightCounts(parts, csHi, outside)
            && (forall n | 0 <= n < |parts| :: csHi[n] >= 0) ==>
              PartsCover(csHi, bounds, parts)
  {
    hide Tiles, AxisCovered, Looked;
    var tiled := AllTile(bounds, parts, csHi, outside) && RightCounts(parts, csHi, outside);
    forall n | tiled && 0 <= n < |parts| && csHi[n] >= 0 ensures PartCovers(parts[n], csHi[n], bounds) {
      if parts[n].dim >= 0 { TilesCovers(parts[n], csHi[n], bounds[parts[n].dim]); }
    }
  }

  /** Unless some part is on an axis at or above the number of parts, nothing outside the counts matters. */
  lemma OutsideUnread(parts: seq<AxisPartition>, r: Partition, bounds: Box, outside: int -> int, other: int -> int)
    requires InRange(bounds, parts) && Geometry(r, bounds, parts) && !Strays(parts, |parts|)
    ensures Verdicts(r, bounds, parts, outside) <==> Verdicts(r, bounds, parts, other)
  {
    hide Geometry, Tiles, Overlaps, Colours;
    GeometryShape(r, bounds, parts);
    forall n | 0 <= n < |parts|
      ensures AliasedBy(parts[n], r.csHi, outside) <==> AliasedBy(parts[n], r.csHi, other)
      ensures CompleteBy(bounds, parts, r.csHi, outside, n) <==> CompleteBy(bounds, parts, r.csHi, other, n)
    {
      assert parts[n].dim < |parts|;
    }
  }

  // ----- parts on other axes -----

  const SWAPPED := [AxisPartition(1, 5, 0, Interval(0, 6), Interval(0, 9)),
                    AxisPartition(0, 10, 0, Interval(0, 9), Interval(0, 9))]
  const SQUARE := [Interval(0, 9), Interval(0, 9)]

  /**
   For two parts in the other order than their axes the verdict can be wrong: it says disjoint, and two
   blocks share a point.
   */
  lemma SwappedVerdict(r: Partition, outside: int -> int)
    requires InRange(SQUARE, SWAPPED) && Geometry(r, SQUARE, SWAPPED) && Verdicts(r, SQUARE, SWAPPED, outside)
    ensures DistinctDims(SWAPPED) && !Strays(SWAPPED, |SWAPPED|) && !r.aliased
    ensures IsColour(r, [0, 0]) && IsColour(r, [1, 0])
    ensures InBox([0, 5], Block(r, [0, 0])) && InBox([0, 5], Block(r, [1, 0]))
  {
    hide Geometry, Colours, Block, InBox, InRange, DistinctDims, AliasedBy, Complete, Hits, Shaped;
    SwappedParts(outside);
    GeometryShape(r, SQUARE, SWAPPED);
    assert r.csHi == [1, 0];
    SwappedHits();
    SwappedBlock(r, [0, 0]);
    SwappedBlock(r, [1, 0]);
  }

  lemma SwappedParts(outside: int -> int)
    ensures |SWAPPED| == 2 && Colours(SWAPPED[0]) == 2 && Colours(SWAPPED[1]) == 1
    ensures DistinctDims(SWAPPED) && !Strays(SWAPPED, |SWAPPED|)
    ensures forall n | 0 <= n < |SWAPPED| :: !AliasedBy(SWAPPED[n], [1, 0], outside)
  {
  }

  lemma SwappedHits()
    ensures |SWAPPED| == 2 && SWAPPED[0].dim == 1 && SWAPPED[1].dim == 0 && DistinctDims(SWAPPED)
    ensures Hits(SWAPPED[0], 0, 5) && Hits(SWAPPED[0], 1, 5) && Hits(SWAPPED[1], 0, 0)
  {
  }

  lemma SwappedBlock(r: Partition, c: Point)
    requires |c| == 2 && Hits(SWAPPED[0], c[0], 5) && Hits(SWAPPED[1], c[1], 0)
    requires Shaped(r) && |r.csHi| == 2 && InRange(SQUARE, SWAPPED) && Geometry(r, SQUARE, SWAPPED)
    ensures InBox([0, 5], Block(r, c))
  {
    hide Geometry, Block, Hits;
    InBoxIs([0, 5], SQUARE);
    SwappedHits();
    InBlock(r, SQUARE, SWAPPED, c, [0, 5]);
  }

  /**
   The partition of axis 1 alone covers the square and is disjoint, but whether it is judged complete
   depends on what is read outside the rectangle of the counts.
   */
  lemma SecondAxisAlone(r: Partition, outside: int -> int)
    requires InRange(SQUARE, BlockParts(SQUARE, [(1, 5)])) && Geometry(r, SQUARE, BlockParts(SQUARE, [(1, 5)]))
    requires Verdicts(r, SQUARE, BlockParts(SQUARE, [(1, 5)]), outside)
    ensures Strays(BlockParts(SQUARE, [(1, 5)]), 1) && Shaped(r) && Covered(r, SQUARE)
    ensures r.complete <==> outside(1) >= 1
  {
    hide Geometry, Aliased, Shaped, Covered, Complete;
    var parts := BlockParts(SQUARE, [(1, 5)]);
    GeometryShape(r, SQUARE, parts);
    assert Colours(parts[0]) == 2;
    CompleteIsAllTile(r, SQUARE, parts, outside);
    CoveredOnAxes(r, SQUARE, parts);
    assert AxisCovered(parts[0], 1, SQUARE[1]);
    assert r.csHi[0] == 1;
    assert parts[0].dim == 1;
  }

  // ----- block sizes -----

  /** The parts made from block sizes: pairs of an axis and the size of its blocks. */
  function BlockParts(bounds: Box, blocks: seq<(int, int)>): (parts: seq<AxisPartition>)
    requires forall n | 0 <= n < |blocks| :: 0 <= blocks[n].0 < |bounds|
    ensures |parts| == |blocks|
  {
    seq(|blocks|, n requires 0 <= n < |blocks| =>
      AxisPartition(blocks[n].0, blocks[n].1, 0, Interval(0, blocks[n].1 - 1), bounds[blocks[n].0]))
  }

  method CreateBlockParts(bounds: Box, blocks: seq<(int, int)>) returns (parts: seq<AxisPartition>)
    requires forall n | 0 <= n < |blocks| :: 0 <= blocks[n].0 < |bounds|
    ensures parts == BlockParts(bounds, blocks)
  {
    parts := [];
    var i := 0;
    while i < |blocks|
      invariant i <= |blocks| && parts == BlockParts(bounds, blocks)[..i]
    {
      var (d, sz) := blocks[i];
      parts := parts + [AxisPartition(d, sz, 0, Interval(0, sz - 1), bounds[d])];
      i := i + 1;
    }
  }

  /** Positive sizes on axes of the bounds, and bounds that hold a point. */
  ghost predicate SizedBlocks(bounds: Box, blocks: seq<(int, int)>) {
    (forall n | 0 <= n < |blocks| :: 0 <= blocks[n].0 < |bounds| && blocks[n].1 > 0) && Nonempty(bounds)
  }

  ghost predicate DistinctAxes(blocks: seq<(int, int)>) {
    forall i, j | 0 <= i < j < |blocks| :: blocks[i].0 != blocks[j].0
  }

  /** The only candidate for the colour of p: its coordinates divided by the block sizes. */
  ghost function BlockColour(blocks: seq<(int, int)>, p: Point): (c: Point)
    requires forall n | 0 <= n < |blocks| :: 0 <= blocks[n].0 < |p| && blocks[n].1 > 0
    ensures |c| == |blocks|
  {
    seq(|blocks|, n requires 0 <= n < |blocks| => p[blocks[n].0] / blocks[n].1)
  }

  lemma BlockPartsFit(bounds: Box, blocks: seq<(int, int)>)
    requires SizedBlocks(bounds, blocks)
    ensures InRange(bounds, BlockParts(bounds, blocks))
    ensures DistinctAxes(blocks) ==> DistinctDims(BlockParts(bounds, blocks))
  {
  }

  /** The n-th colour of the block around p is the n-th coordinate divided by the n-th size, and no other. */
  lemma InBlockOf(r: Partition, bounds: Box, blocks: seq<(int, int)>, p: Point, c: Point)
    requires SizedBlocks(bounds, blocks) && DistinctAxes(blocks) && InRange(bounds, BlockParts(bounds, blocks))
    requires Geometry(r, bounds, BlockParts(bounds, blocks)) && InBox(p, bounds) && |c| == |r.csHi|
    ensures |p| == |bounds| && (InBox(p, Block(r, c)) <==> c == BlockColour(blocks, p))
  {
    hide Geometry, Block, InBox;
    var parts := BlockParts(bounds, blocks);
    BlockPartsFit(bounds, blocks);
    GeometryShape(r, bounds, parts);
    InBlock(r, bounds, parts, c, p);
    forall n | 0 <= n < |parts| ensures Hits(parts[n], c[n], p[parts[n].dim]) <==> c[n] == BlockColour(blocks, p)[n] {
      OnlyQuotient(p[blocks[n].0], blocks[n].1, c[n]);
    }
  }

  lemma CountOfBlocks(bounds: Box, blocks: seq<(int, int)>, n: nat)
    requires SizedBlocks(bounds, blocks) && n < |blocks|
    ensures var b := bounds[blocks[n].0];
            Colours(BlockParts(bounds, blocks)[n]) - 1 == (b.hi - b.lo) / blocks[n].1 >= 0
  {
    var b, s := bounds[blocks[n].0], blocks[n].1;
    OneMoreBlock(b.hi - b.lo, s);
  }

  lemma OneMoreBlock(x: int, s: int)
    requires x >= 0 && s > 0
    ensures (x + s) / s == x / s + 1 && x / s >= 0
  {
    Quotient(x, s);
    assert s * (x / s + 1) == s * (x / s) + s;
    OnlyQuotient(x + s, s, x / s + 1);
  }

  /** Where the blocks of an axis, which start at 0, reach every coordinate of the bounds. */
  predicate BlocksReach(bound: Interval, size: int)
    requires size > 0
  {
    bound.lo >= 0 && bound.hi / size <= (bound.hi - bound.lo) / size
  }

  lemma QuotientGrows(x: int, y: int, s: int)
    requires s > 0 && x <= y
    ensures x / s <= y / s && (x >= 0 <==> x / s >= 0)
  {
    Quotient(x, s);
    Quotient(y, s);
    if y / s < x / s { Spread(s, y / s, x / s); }
  }

  /** p is in the block of exactly one colour, the quotient of its coordinates. */
  ghost predicate InOneBlock(r: Partition, blocks: seq<(int, int)>, p: Point)
    requires Shaped(r) && forall n | 0 <= n < |blocks| :: 0 <= blocks[n].0 < |p| && blocks[n].1 > 0
  {
    && IsColour(r, BlockColour(blocks, p))
    && forall c | IsColour(r, c) :: InBox(p, Block(r, c)) <==> c == BlockColour(blocks, p)
  }

  lemma InOneBlockIs(r: Partition, bounds: Box, blocks: seq<(int, int)>, p: Point)
    requires SizedBlocks(bounds, blocks) && DistinctAxes(blocks) && InRange(bounds, BlockParts(bounds, blocks))
    requires Geometry(r, bounds, BlockParts(bounds, blocks)) && InBox(p, bounds)
    ensures |p| == |bounds| && Shaped(r) && (InOneBlock(r, blocks, p) <==> IsColour(r, BlockColour(blocks, p)))
  {
    hide Geometry, Block, InBox, BlockColour;
    InBoxIs(p, bounds);
    GeometryShape(r, bounds, BlockParts(bounds, blocks));
    forall c | IsColour(r, c) ensures InBox(p, Block(r, c)) <==> c == BlockColour(blocks, p) {
      InBlockOf(r, bounds, blocks, p, c);
    }
  }

  /** Some point of the bounds has no colour if the blocks of axis part n do not reach. */
  lemma NotReached(r: Partition, bounds: Box, blocks: seq<(int, int)>, n: nat) returns (p: Point)
    requires SizedBlocks(bounds, blocks) && |r.csHi| == |blocks| && n < |blocks|
    requires r.csHi[n] == Colours(BlockParts(bounds, blocks)[n]) - 1
    requires !BlocksReach(bounds[blocks[n].0], blocks[n].1)
    ensures InBox(p, bounds) && |p| == |bounds| && !IsColour(r, BlockColour(blocks, p))
  {
    var b := bounds[blocks[n].0];
    p := seq(|bounds|, m requires 0 <= m < |bounds| => if b.lo < 0 then bounds[m].lo else bounds[m].hi);
    InBoxIs(p, bounds);
    CountOfBlocks(bounds, blocks, n);
    QuotientGrows(b.lo, b.hi, blocks[n].1);
    assert BlockColour(blocks, p)[n] == p[blocks[n].0] / blocks[n].1;
  }

  /**
   Every point of the bounds is in exactly one block, whose colour is the quotient of the coordinates,
   exactly when the blocks reach all bounds; starting the bounds at 0 is enough (see ReachFromZero).
   */
  lemma BlocksPartition(r: Partition, bounds: Box, blocks: seq<(int, int)>)
    requires SizedBlocks(bounds, blocks) && DistinctAxes(blocks) && InRange(bounds, BlockParts(bounds, blocks))
    requires Geometry(r, bounds, BlockParts(bounds, blocks))
    ensures Shaped(r) && forall p | InBox(p, bounds) :: |p| == |bounds|
    ensures (forall p | InBox(p, bounds) :: InOneBlock(r, blocks, p))
       <==> forall n | 0 <= n < |blocks| :: BlocksReach(bounds[blocks[n].0], blocks[n].1)
  {
    hide Geometry, InBox, BlockColour, InOneBlock, IsColour, BlocksReach, Colours;
    var parts := BlockParts(bounds, blocks);
    GeometryShape(r, bounds, parts);
    forall p | InBox(p, bounds)
      ensures |p| == |bounds| && (InOneBlock(r, blocks, p) <==> IsColour(r, BlockColour(blocks, p)))
    {
      InOneBlockIs(r, bounds, blocks, p);
    }
    if forall n | 0 <= n < |blocks| :: BlocksReach(bounds[blocks[n].0], blocks[n].1) {
      forall p | InBox(p, bounds) ensures InOneBlock(r, blocks, p) {
        ColourInRange(r, bounds, blocks, p);
      }
    } else {
      var n :| 0 <= n < |blocks| && !BlocksReach(bounds[blocks[n].0], blocks[n].1);
      var p := NotReached(r, bounds, blocks, n);
      assert !InOneBlock(r, blocks, p);
    }
  }

  lemma ColourInRange(r: Partition, bounds: Box, blocks: seq<(int, int)>, p: Point)
    requires SizedBlocks(bounds, blocks) && |r.csHi| == |blocks| && InBox(p, bounds) && |p| == |bounds|
    requires forall n | 0 <= n < |blocks| ::
               BlocksReach(bounds[blocks[n].0], blocks[n].1) && r.csHi[n] == Colours(BlockParts(bounds, blocks)[n]) - 1
    ensures IsColour(r, BlockColour(blocks, p))
  {
    InBoxIs(p, bounds);
    forall n | 0 <= n < |blocks| ensures 0 <= BlockColour(blocks, p)[n] <= r.csHi[n] {
      var b, s, x := bounds[blocks[n].0], blocks[n].1, p[blocks[n].0];
      CountOfBlocks(bounds, blocks, n);
      QuotientGrows(b.lo, x, s);
      QuotientGrows(x, b.hi, s);
    }
  }

  lemma ReachFromZero(bound: Interval, size: int)
    requires size > 0 && bound.lo == 0
    ensures BlocksReach(bound, size)
  {
  }

  /** With all bounds from 0 on, no colour is wasted: every block contains a point of the bounds. */
  lemma NoEmptyBlock(r: Partition, bounds: Box, blocks: seq<(int, int)>, c: Point) returns (p: Point)
    requires SizedBlocks(bounds, blocks) && DistinctAxes(blocks) && InRange(bounds, BlockParts(bounds, blocks))
    requires Geometry(r, bounds, BlockParts(bounds, blocks)) && IsColour(r, c)
    requires forall m | 0 <= m < |bounds| :: bounds[m].lo == 0
    ensures InBox(p, bounds) && InBox(p, Block(r, c))
  {
    hide Geometry, Block, InBox, Colours;
    var parts := BlockParts(bounds, blocks);
    GeometryShape(r, bounds, parts);
    p := seq(|bounds|, m => 0);
    var n := 0;
    while n < |blocks|
      invariant n <= |blocks| && |p| == |bounds| && forall m | 0 <= m < |p| :: 0 <= p[m] <= bounds[m].hi
      invariant forall i | 0 <= i < n :: p[blocks[i].0] == blocks[i].1 * c[i]
    {
      CountOfBlocks(bounds, blocks, n);
      StartsInside(bounds[blocks[n].0].hi, blocks[n].1, c[n]);
      p := p[blocks[n].0 := blocks[n].1 * c[n]];
      n := n + 1;
    }
    InBoxIs(p, bounds);
    InBlockOf(r, bounds, blocks, p, c);
    forall i | 0 <= i < |blocks| ensures c[i] == BlockColour(blocks, p)[i] {
      OnlyQuotient(p[blocks[i].0], blocks[i].1, c[i]);
    }
  }

  lemma StartsInside(hi: int, s: int, c: int)
    requires s > 0 && hi >= 0 && 0 <= c <= hi / s
    ensures 0 <= s * c <= hi
  {
    Quotient(hi, s);
    if c < hi / s { Spread(s, c, hi / s); }
    if 0 < c { Spread(s, 0, c); }
  }

  // ----- block sizes that repeat an axis -----

  /** Two parts on one axis, the earlier of which has more than one block. */
  ghost predicate Doubled(bounds: Box, blocks: seq<(int, int)>, i: nat, j: nat)
    requires SizedBlocks(bounds, blocks)
  {
    && i < j < |blocks| && blocks[i].0 == blocks[j].0
    && bounds[blocks[i].0].hi - bounds[blocks[i].0].lo >= blocks[i].1
  }

  ghost predicate SomeDoubled(bounds: Box, blocks: seq<(int, int)>)
    requires SizedBlocks(bounds, blocks)
  {
    exists i: nat, j: nat :: Doubled(bounds, blocks, i, j)
  }

  lemma {:induction false} LastOnAxis(blocks: seq<(int, int)>, j: nat) returns (k: nat)
    requires j < |blocks|
    ensures j <= k < |blocks| && blocks[k].0 == blocks[j].0 && forall i | k < i < |blocks| :: blocks[i].0 != blocks[k].0
    decreases |blocks| - j
  {
    if i :| j < i < |blocks| && blocks[i].0 == blocks[j].0 { k := LastOnAxis(blocks, i); } else { k := j; }
  }

  /** More than one block of size s fit into the bound exactly when the bound is longer than s. */
  lemma MoreThanOne(bounds: Box, blocks: seq<(int, int)>, n: nat)
    requires SizedBlocks(bounds, blocks) && n < |blocks|
    ensures var b := bounds[blocks[n].0];
            Colours(BlockParts(bounds, blocks)[n]) - 1 >= 1 <==> b.hi - b.lo >= blocks[n].1
  {
    var b, s := bounds[blocks[n].0], blocks[n].1;
    CountOfBlocks(bounds, blocks, n);
    QuotientGrows(b.hi - b.lo - s, b.hi - b.lo, s);
    OnlyQuotient(b.hi - b.lo, s, 0);
  }

  ghost function Step(len: nat, n: nat, x: int): (v: seq<int>)
    ensures |v| == len
  {
    seq(len, i => if i == n then x else 0)
  }

  /** One step along part i and as many steps back along the last part of the axis as fit into it. */
  lemma DoubledCollides(r: Partition, bounds: Box, blocks: seq<(int, int)>, i: nat, j: nat)
    requires SizedBlocks(bounds, blocks) && InRange(bounds, BlockParts(bounds, blocks))
    requires Geometry(r, bounds, BlockParts(bounds, blocks)) && Doubled(bounds, blocks, i, j)
    ensures Shaped(r) && Collides(r)
  {
    hide Geometry, Colours, Dot;
    var parts := BlockParts(bounds, blocks);
    GeometryShape(r, bounds, parts);
    var k := LastOnAxis(blocks, j);
    var s, t := blocks[i].1, blocks[k].1;
    var b := bounds[blocks[i].0];
    Quotient(s, t);
    MoreThanOne(bounds, blocks, i);
    CountOfBlocks(bounds, blocks, k);
    QuotientGrows(s, b.hi - b.lo, t);
    var v := Minus(Step(|parts|, i, 1), Step(|parts|, k, s / t));
    assert v[i] == 1;
    forall m | 0 <= m < |r.extent| ensures Within(r, v, m) {
      TransformAt(r, bounds, parts, m);
      DotMinus(r.transform[m], Step(|parts|, i, 1), Step(|parts|, k, s / t));
      DotSingle(r.transform[m], Step(|parts|, i, 1), i);
      DotSingle(r.transform[m], Step(|parts|, k, s / t), k);
      if m == blocks[i].0 { ExtentOfLast(bounds, parts, |parts|, k); } else { BlockWidth(r, bounds, blocks, m); }
    }
    forall n | 0 <= n < |v| ensures -r.csHi[n] <= v[n] <= r.csHi[n] {
      CountOfBlocks(bounds, blocks, n);
    }
    assert Collision(r, v);
  }

  lemma BlockWidth(r: Partition, bounds: Box, blocks: seq<(int, int)>, m: nat)
    requires SizedBlocks(bounds, blocks) && InRange(bounds, BlockParts(bounds, blocks))
    requires Geometry(r, bounds, BlockParts(bounds, blocks)) && m < |bounds|
    ensures |r.extent| == |bounds| && Width(r, m) >= 0
  {
    hide Geometry;
    var parts := BlockParts(bounds, blocks);
    GeometryShape(r, bounds, parts);
    if n :| 0 <= n < |blocks| && blocks[n].0 == m {
      var k := LastOnAxis(blocks, n);
      ExtentOfLast(bounds, parts, |parts|, k);
    } else {
      ExtentUntouched(bounds, parts, |parts|, m);
    }
  }

  lemma CollisionDoubles(r: Partition, bounds: Box, blocks: seq<(int, int)>, v: seq<int>)
    requires SizedBlocks(bounds, blocks) && InRange(bounds, BlockParts(bounds, blocks))
    requires Geometry(r, bounds, BlockParts(bounds, blocks)) && Shaped(r) && Collision(r, v)
    ensures SomeDoubled(bounds, blocks)
  {
    hide Geometry, Colours, Dot;
    var parts := BlockParts(bounds, blocks);
    GeometryShape(r, bounds, parts);
    var n :| 0 <= n < |v| && v[n] != 0;
    var k := LastOnAxis(blocks, n);
    if i :| 0 <= i < k && blocks[i].0 == blocks[k].0 && v[i] != 0 {
      MoreThanOne(bounds, blocks, i);
      assert Doubled(bounds, blocks, i, k);
    } else {
      var m := blocks[k].0;
      TransformAt(r, bounds, parts, m);
      ExtentOfLast(bounds, parts, |parts|, k);
      DotSingle(r.transform[m], v, k);
      assert Within(r, v, m);
      Farther(blocks[k].1, v[k]);
    }
  }

  /**
   Block sizes are always judged disjoint.  The verdict is wrong of the unclipped rectangles exactly
   when an axis is repeated and an earlier one of its parts has more than one block; with bounds from 0
   on, it is then wrong of the clipped ones, too.
   */
  lemma RepeatedBlocks(r: Partition, bounds: Box, blocks: seq<(int, int)>, outside: int -> int)
    requires SizedBlocks(bounds, blocks) && InRange(bounds, BlockParts(bounds, blocks))
    requires Geometry(r, bounds, BlockParts(bounds, blocks)) && Verdicts(r, bounds, BlockParts(bounds, blocks), outside)
    ensures !r.aliased && Shaped(r)
    ensures Disjoint(r) <==> !SomeDoubled(bounds, blocks)
    ensures (forall m | 0 <= m < |bounds| :: bounds[m].lo == 0) ==>
              (DisjointWithin(r, bounds) <==> !SomeDoubled(bounds, blocks))
  {
    hide Geometry, Doubled, Disjoint, DisjointWithin, Collision, Complete, Shaped;
    GeometryShape(r, bounds, BlockParts(bounds, blocks));
    DisjointExact(r);
    if SomeDoubled(bounds, blocks) {
      var i: nat, j: nat :| Doubled(bounds, blocks, i, j);
      DoubledCollides(r, bounds, blocks, i, j);
      if forall m | 0 <= m < |bounds| :: bounds[m].lo == 0 { DoubledWithin(r, bounds, blocks, i, j); }
    }
    if Disjoint(r) { DisjointClipped(r, bounds); }
    if Collides(r) {
      var v :| Collision(r, v);
      CollisionDoubles(r, bounds, blocks, v);
    }
  }

  /** Block sizes that do not collide without clipping do not collide with it. */
  lemma DisjointClipped(r: Partition, bounds: Box)
    requires Shaped(r) && Disjoint(r)
    ensures DisjointWithin(r, bounds)
  {
    hide InBox, Shaped, IsColour;
    forall c, d, p | IsColour(r, c) && IsColour(r, d) && c != d && InBox(p, bounds) && |c| == |d| == |r.csHi|
      ensures !InBoth(r, c, d, p)
    {
      assert !Meet(r, c, d);
    }
  }

  /** With bounds from 0 on, a point of the bounds lies in the blocks of both colours. */
  lemma DoubledWithin(r: Partition, bounds: Box, blocks: seq<(int, int)>, i: nat, j: nat)
    requires SizedBlocks(bounds, blocks) && InRange(bounds, BlockParts(bounds, blocks))
    requires Geometry(r, bounds, BlockParts(bounds, blocks)) && Doubled(bounds, blocks, i, j)
    requires forall m | 0 <= m < |bounds| :: bounds[m].lo == 0
    ensures Shaped(r) && !DisjointWithin(r, bounds)
  {
    hide Geometry, Colours, Dot, Shaped, InBox, Block;
    var parts := BlockParts(bounds, blocks);
    GeometryShape(r, bounds, parts);
    var k := LastOnAxis(blocks, j);
    var s, t, b, a := blocks[i].1, blocks[k].1, bounds[blocks[i].0], blocks[i].0;
    Quotient(s, t);
    MoreThanOne(bounds, blocks, i);
    CountOfBlocks(bounds, blocks, k);
    QuotientGrows(s, b.hi - b.lo, t);
    var c, d := Step(|parts|, i, 1), Step(|parts|, k, s / t);
    var p := seq(|bounds|, m => if m == a then s else 0);
    InBoxIs(p, bounds);
    InBoxIs(p, Block(r, c));
    InBoxIs(p, Block(r, d));
    forall m | 0 <= m < |bounds|
      ensures Block(r, c)[m].lo <= p[m] <= Block(r, c)[m].hi && Block(r, d)[m].lo <= p[m] <= Block(r, d)[m].hi
    {
      StepBlock(r, bounds, blocks, i, 1, k, m);
      StepBlock(r, bounds, blocks, k, s / t, k, m);
    }
    forall n | 0 <= n < |parts| ensures 0 <= c[n] <= r.csHi[n] && 0 <= d[n] <= r.csHi[n] {
      CountOfBlocks(bounds, blocks, n);
    }
    assert c[i] != d[i];
    assert IsColour(r, c) && IsColour(r, d) && InBoth(r, c, d, p);
  }

  /** The block of a colour that is 0 except along part n, on the axis of that part or elsewhere. */
  lemma StepBlock(r: Partition, bounds: Box, blocks: seq<(int, int)>, n: nat, x: int, k: nat, m: nat)
    requires SizedBlocks(bounds, blocks) && InRange(bounds, BlockParts(bounds, blocks))
    requires Geometry(r, bounds, BlockParts(bounds, blocks)) && Shaped(r) && m < |bounds| == |r.extent|
    requires n < |blocks| == |r.csHi| && k < |blocks| && blocks[k].0 == blocks[n].0 && bounds[m].lo == 0
    requires forall i | k < i < |blocks| :: blocks[i].0 != blocks[k].0
    ensures var b := Block(r, Step(|blocks|, n, x))[m];
            if m == blocks[n].0 then b.lo == blocks[n].1 * x && b.hi == blocks[n].1 * x + blocks[k].1 - 1
            else b.lo == 0 <= b.hi
  {
    hide Geometry, Dot, Shaped, Colours;
    var parts := BlockParts(bounds, blocks);
    GeometryShape(r, bounds, parts);
    TransformAt(r, bounds, parts, m);
    DotSingle(r.transform[m], Step(|parts|, n, x), n);
    if m == blocks[n].0 { ExtentOfLast(bounds, parts, |parts|, k); } else { ExtentFromZero(r, bounds, blocks, m); }
  }

  lemma ExtentFromZero(r: Partition, bounds: Box, blocks: seq<(int, int)>, m: nat)
    requires SizedBlocks(bounds, blocks) && InRange(bounds, BlockParts(bounds, blocks))
    requires Geometry(r, bounds, BlockParts(bounds, blocks)) && m < |bounds| && bounds[m].lo == 0
    ensures |r.extent| == |bounds| && r.extent[m].lo == 0 <= r.extent[m].hi
  {
    hide Geometry;
    var parts := BlockParts(bounds, blocks);
    GeometryShape(r, bounds, parts);
    if n :| 0 <= n < |blocks| && blocks[n].0 == m {
      var k := LastOnAxis(blocks, n);
      ExtentOfLast(bounds, parts, |parts|, k);
    } else {
      ExtentUntouched(bounds, parts, |parts|, m);
    }
  }

  const LINE := [Interval(0, 9)]

  /** An axis divided twice into blocks of 5: judged disjoint, yet two colours have the same block. */
  lemma AxisTwice(r: Partition, outside: int -> int)
    requires InRange(LINE, BlockParts(LINE, [(0, 5), (0, 5)])) && Geometry(r, LINE, BlockParts(LINE, [(0, 5), (0, 5)]))
    requires Verdicts(r, LINE, BlockParts(LINE, [(0, 5), (0, 5)]), outside)
    ensures !r.aliased && Shaped(r) && IsColour(r, [0, 1]) && IsColour(r, [1, 0])
    ensures Block(r, [0, 1]) == Block(r, [1, 0]) == [Interval(5, 9)]
  {
    hide Geometry, Complete;
    var parts := BlockParts(LINE, [(0, 5), (0, 5)]);
    GeometryShape(r, LINE, parts);
    TransformAt(r, LINE, parts, 0);
    ExtentOfLast(LINE, parts, 2, 1);
    DotSingle(r.transform[0], [0, 1], 1);
    DotSingle(r.transform[0], [1, 0], 0);
    RepeatedBlocks(r, LINE, [(0, 5), (0, 5)], outside);
  }

  const FIVES := AxisPartition(0, 5, 0, Interval(0, 4), Interval(0, 9))
  const THREES := AxisPartition(0, 3, 0, Interval(0, 2), Interval(0, 0))
  const TWICE := [FIVES, THREES]

  /** Judged complete on 0..9, although the only blocks are 0..2 and 5..7. */
  lemma TwiceIncomplete(r: Partition, outside: int -> int)
    requires InRange(LINE, TWICE) && Geometry(r, LINE, TWICE) && Verdicts(r, LINE, TWICE, outside)
    ensures r.complete && Shaped(r) && InBox([3], LINE) && !SomeColour(r, [3])
  {
    hide Geometry, Aliased, Shaped, InBox, Complete, SomeColour, InRange;
    FiveThree();
    GeometryShape(r, LINE, TWICE);
    assert r.csHi == [1, 0];
    TwiceComplete(outside);
    InBoxIs([3], LINE);
    TwiceMissed(r);
  }

  lemma FiveThree()
    ensures Colours(FIVES) == 2 && Colours(THREES) == 1 && FIVES.dim == THREES.dim == 0
  {
  }

  lemma FiveThreeReach()
    ensures Reach(FIVES) == Interval(0, 4) && Reach(THREES) == Interval(0, 2) && FIVES.stride == 5
    ensures Tiles(FIVES, 1, Interval(0, 9)) && Tiles(THREES, 1, Interval(0, 4))
  {
  }

  lemma TwiceMissed(r: Partition)
    requires InRange(LINE, TWICE) && Geometry(r, LINE, TWICE) && r.csHi == [1, 0] && Shaped(r)
    ensures !SomeColour(r, [3])
  {
    hide Geometry, Shaped, Dot, InBox, InRange, Reach, Colours;
    FiveThree();
    FiveThreeReach();
    TransformAt(r, LINE, TWICE, 0);
    GeometryShape(r, LINE, TWICE);
    ExtentOfLast(LINE, TWICE, 2, 1);
    var p := [3];
    forall c | IsColour(r, c) ensures !InBox(p, Block(r, c)) {
      var row := r.transform[0];
      assert row[0] == 5 && 0 <= c[0] <= 1 && c[1] == 0;
      DotSingle(row, c, 0);
      assert Block(r, c)[0] == Interval(5 * c[0], 2 + 5 * c[0]);
      InBoxIs(p, Block(r, c));
      assert p[0] == 3;
    }
  }

  lemma TwiceComplete(outside: int -> int)
    requires InRange(LINE, TWICE)
    ensures Complete(LINE, TWICE, [1, 0], outside, 2)
  {
    hide InRange, Reach, Tiles, ExtentAfter;
    FiveThree();
    FiveThreeReach();
    LineExtent();
    ExtentOfLast(LINE, TWICE, 1, 0);
    var counts := [1, 0];
    assert Looked(counts, outside, 0) == 1;
    forall n | 0 <= n < 2 ensures CompleteBy(LINE, TWICE, counts, outside, n) {
    }
  }

  lemma LineExtent()
    requires InRange(LINE, TWICE)
    ensures |TWICE| == 2 && ExtentAfter(LINE, TWICE, 0) == LINE && LINE[0] == Interval(0, 9)
  {
  }

  const FROM_ONE := [Interval(1, 5)]

  /** On 1..5 in blocks of 5 there is one block, 0..4, and point 5 has no colour. */
  lemma LastPointMissed(r: Partition)
    requires InRange(FROM_ONE, BlockParts(FROM_ONE, [(0, 5)])) && Geometry(r, FROM_ONE, BlockParts(FROM_ONE, [(0, 5)]))
    ensures Shaped(r) && InBox([5], FROM_ONE) && !SomeColour(r, [5]) && !BlocksReach(FROM_ONE[0], 5)
  {
    hide Geometry, Shaped, InBox, Block;
    var parts := BlockParts(FROM_ONE, [(0, 5)]);
    GeometryShape(r, FROM_ONE, parts);
    InBoxIs([5], FROM_ONE);
    forall c | IsColour(r, c) ensures !InBox([5], Block(r, c)) {
      InBlockOf(r, FROM_ONE, [(0, 5)], [5], c);
      CountOfBlocks(FROM_ONE, [(0, 5)], 0);
      assert r.csHi[0] == 0 && c[0] == 0 && BlockColour([(0, 5)], [5])[0] == 1;
    }
  }
}

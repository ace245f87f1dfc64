/**
 The verdicts of hyperion/ColumnSpacePartition.cc in the numbers of the parts, and what it takes for a
 verdict of incompleteness to be right.
 */
module PartitionVerdicts {
  import opened Enumeration
  import opened TreeIndexSpace
  import opened RowMapping
  import opened Partitions

  // ----- the numbers of a partition -----

  /**
   Colours are counted from 0 as long as their strides from the lower limit do not pass the upper one.  If the
   limits are further apart the wrong way round, there is none, and the count is the strides between them
   beyond the first, with the sign turned.
   */
  lemma CountsAre(r: Partition, bounds: Box, parts: seq<AxisPartition>, n: nat, c: nat)
    requires InRange(bounds, parts) && Geometry(r, bounds, parts) && n < |parts|
    ensures |r.csHi| == |parts|
    ensures var (part, hi) := (parts[n], r.csHi[n]);
            var apart := part.limits.hi - part.limits.lo;
            && (part.stride <= 0 ==> hi == 0)
            && (part.stride > 0 ==> (c <= hi <==> part.stride * c <= apart))
            && (part.stride > 0 && -part.stride <= apart < 0 ==> hi == -1)
            && (part.stride > 0 && apart + part.stride < 0 ==>
                  hi < 0 && part.stride * (-hi) <= -apart < part.stride * (-hi) + part.stride)
  {
    hide Geometry;
    GeometryShape(r, bounds, parts);
    var part := parts[n];
    if part.stride > 0 { CountIs(part, part.limits.hi - part.limits.lo, part.stride, c); }
  }

  lemma CountIs(part: AxisPartition, x: int, s: int, c: nat)
    requires part.stride == s > 0 && x == part.limits.hi - part.limits.lo
    ensures var hi := Colours(part) - 1;
            && (c <= hi <==> s * c <= x)
            && (-s <= x < 0 ==> hi == -1)
            && (x + s < 0 ==> hi < 0 && s * (-hi) <= -x < s * (-hi) + s)
  {
    hide Colours;
    ColoursAre(part, x, s);
    if x + s >= 0 {
      StridesIn(x, s, c);
      StridesIn(x, s, 0);
      OnlyQuotient(x + s, s, 0);
    } else {
      WrongWay(-(x + s), s);
      NotFarther(s, 0, c);
    }
  }

  lemma ColoursAre(part: AxisPartition, x: int, s: int)
    requires part.stride == s > 0 && x == part.limits.hi - part.limits.lo
    ensures x + s >= 0 ==> Colours(part) == (x + s) / s
    ensures x + s < 0 ==> Colours(part) == -(-(x + s) / s)
  {
  }

  lemma WrongWay(y: int, s: int)
    requires y > 0 && s > 0
    ensures y / s >= 0 && s * (y / s + 1) <= y + s < s * (y / s + 1) + s
  {
    Quotient(y, s);
    assert s * (y / s + 1) == s * (y / s) + s;
  }

  lemma StridesIn(x: int, s: int, c: nat)
    requires s > 0 && x + s >= 0
    ensures c + 1 <= (x + s) / s <==> s * c <= x
  {
    var q := (x + s) / s;
    Quotient(x + s, s);
    assert s * (c + 1) == s * c + s;
    if c + 1 <= q { NotFarther(s, c + 1, q); } else { NotFarther(s, q, c); }
  }

  /** The last of the first k parts on axis d, or -1. */
  ghost function LastOn(parts: seq<AxisPartition>, d: int, k: nat): (i: int)
    requires k <= |parts|
    ensures -1 <= i < k && (i >= 0 ==> parts[i].dim == d) && forall j | i < j < k :: parts[j].dim != d
  {
    if k == 0 then -1 else if parts[k - 1].dim == d then k - 1 else LastOn(parts, d, k - 1)
  }

  /** The bounds of axis d before part k: those of the index space, or what the last part on it put there. */
  ghost function FoundLo(bounds: Box, parts: seq<AxisPartition>, d: int, k: nat): int
    requires 0 <= d < |bounds| && k <= |parts|
  {
    var i := LastOn(parts, d, k);
    if i < 0 then bounds[d].lo else parts[i].offset + parts[i].extent.lo
  }

  ghost function FoundHi(bounds: Box, parts: seq<AxisPartition>, d: int, k: nat): int
    requires 0 <= d < |bounds| && k <= |parts|
  {
    var i := LastOn(parts, d, k);
    if i < 0 then bounds[d].hi else parts[i].offset + parts[i].extent.hi
  }

  lemma FoundIs(bounds: Box, parts: seq<AxisPartition>, d: int, k: nat)
    requires 0 <= d < |bounds| && k <= |parts| && InRange(bounds, parts)
    ensures ExtentAfter(bounds, parts, k)[d] == Interval(FoundLo(bounds, parts, d, k), FoundHi(bounds, parts, d, k))
  {
    var i := LastOn(parts, d, k);
    if i < 0 { ExtentUntouched(bounds, parts, k, d); } else { ExtentOfLast(bounds, parts, k, i); }
  }

  /** Block c on axis m: the extent that the parts leave there, moved by the stride of each part on it. */
  lemma BlockIs(r: Partition, bounds: Box, parts: seq<AxisPartition>, c: seq<int>, m: nat)
    requires InRange(bounds, parts) && Geometry(r, bounds, parts) && |c| == |parts| && m < |bounds|
    ensures Shaped(r) && |r.csHi| == |parts| && |Block(r, c)| == |bounds|
    ensures Block(r, c)[m].lo == FoundLo(bounds, parts, m, |parts|) + Moved(parts, c, m)
    ensures Block(r, c)[m].hi == FoundHi(bounds, parts, m, |parts|) + Moved(parts, c, m)
  {
    hide Geometry, FoundLo, FoundHi;
    GeometryShape(r, bounds, parts);
    TransformAt(r, bounds, parts, m);
    FoundIs(bounds, parts, m, |parts|);
    MovedIs(r.transform[m], parts, c, m);
  }

  ghost function Moved(parts: seq<AxisPartition>, c: seq<int>, m: int): int
    requires |c| == |parts|
  {
    if parts == [] then 0
    else (if parts[0].dim == m then parts[0].stride * c[0] else 0) + Moved(parts[1..], c[1..], m)
  }

  lemma {:induction false} MovedIs(row: seq<int>, parts: seq<AxisPartition>, c: seq<int>, m: int)
    requires |row| == |parts| == |c|
    requires forall n | 0 <= n < |parts| :: row[n] == if parts[n].dim == m then parts[n].stride else 0
    ensures Dot(row, c) == Moved(parts, c, m)
  {
    if parts != [] { MovedIs(row[1..], parts[1..], c[1..], m); }
  }

  // ----- the verdicts -----

  /** The count under the axis of part n. */
  function CountRead(parts: seq<AxisPartition>, csHi: seq<int>, outside: int -> int, n: nat): int
    requires n < |parts|
  {
    if 0 <= parts[n].dim < |csHi| then csHi[parts[n].dim] else outside(parts[n].dim)
  }

  /** The next block of part n starts before this one ends, or part n is on no axis. */
  predicate StepsShort(parts: seq<AxisPartition>, csHi: seq<int>, outside: int -> int, n: nat)
    requires n < |parts|
  {
    || parts[n].dim < 0
    || (CountRead(parts, csHi, outside, n) > 0 && parts[n].stride <= parts[n].extent.hi - parts[n].extent.lo)
  }

  /** From the first block of part n to the last by the count read, lo to hi is filled without a gap or an overlap. */
  predicate Fills(parts: seq<AxisPartition>, csHi: seq<int>, outside: int -> int, n: nat, lo: int, hi: int)
    requires n < |parts|
  {
    var (part, count) := (parts[n], CountRead(parts, csHi, outside, n));
    && part.offset + part.extent.lo <= lo
    && hi <= part.offset + part.extent.hi + count * part.stride
    && (count > 0 ==> part.stride == part.extent.hi - part.extent.lo + 1)
  }

  /** Every part on an axis fills what the parts before it have left as the bounds of the axis. */
  ghost predicate AllFill(bounds: Box, parts: seq<AxisPartition>, csHi: seq<int>, outside: int -> int)
    requires InRange(bounds, parts)
  {
    forall n | 0 <= n < |parts| && parts[n].dim >= 0 ::
      Fills(parts, csHi, outside, n, FoundLo(bounds, parts, parts[n].dim, n), FoundHi(bounds, parts, parts[n].dim, n))
  }

  /** What the verdicts are, in numbers. */
  lemma VerdictsAre(r: Partition, bounds: Box, parts: seq<AxisPartition>, outside: int -> int)
    requires InRange(bounds, parts) && Verdicts(r, bounds, parts, outside)
    ensures r.aliased <==> exists n :: 0 <= n < |parts| && StepsShort(parts, r.csHi, outside, n)
    ensures r.complete <==> AllFill(bounds, parts, r.csHi, outside)
    ensures DistinctDims(parts) ==>
              (r.complete <==> forall n | 0 <= n < |parts| && parts[n].dim >= 0 ::
                 Fills(parts, r.csHi, outside, n, bounds[parts[n].dim].lo, bounds[parts[n].dim].hi))
  {
    hide FoundLo, FoundHi, Fills, StepsShort, CompleteBy, AliasedBy;
    forall n | 0 <= n < |parts|
      ensures AliasedBy(parts[n], r.csHi, outside) <==> StepsShort(parts, r.csHi, outside, n)
    {
      AliasedIs(parts, r.csHi, outside, n);
    }
    assert r.aliased <==> exists n :: 0 <= n < |parts| && AliasedBy(parts[n], r.csHi, outside);
    forall n | 0 <= n < |parts| && parts[n].dim >= 0
      ensures var d := parts[n].dim;
              var (lo, hi) := (FoundLo(bounds, parts, d, n), FoundHi(bounds, parts, d, n));
              && (CompleteBy(bounds, parts, r.csHi, outside, n) <==> Fills(parts, r.csHi, outside, n, lo, hi))
              && (DistinctDims(parts) ==> lo == bounds[d].lo && hi == bounds[d].hi)
    {
      CompleteIs(bounds, parts, r.csHi, outside, n);
    }
    forall n | 0 <= n < |parts| && parts[n].dim < 0 ensures CompleteBy(bounds, parts, r.csHi, outside, n) {
      NoAxis(bounds, parts, r.csHi, outside, n);
    }
  }

  lemma AliasedIs(parts: seq<AxisPartition>, csHi: seq<int>, outside: int -> int, n: nat)
    requires n < |parts|
    ensures AliasedBy(parts[n], csHi, outside) <==> StepsShort(parts, csHi, outside, n)
  {
  }

  lemma NoAxis(bounds: Box, parts: seq<AxisPartition>, csHi: seq<int>, outside: int -> int, n: nat)
    requires n < |parts| && InRange(bounds, parts) && parts[n].dim < 0
    ensures CompleteBy(bounds, parts, csHi, outside, n)
  {
  }

  lemma CompleteIs(bounds: Box, parts: seq<AxisPartition>, csHi: seq<int>, outside: int -> int, n: nat)
    requires n < |parts| && InRange(bounds, parts) && parts[n].dim >= 0
    ensures var d := parts[n].dim;
            var (lo, hi) := (FoundLo(bounds, parts, d, n), FoundHi(bounds, parts, d, n));
            && (CompleteBy(bounds, parts, csHi, outside, n) <==> Fills(parts, csHi, outside, n, lo, hi))
            && (DistinctDims(parts) ==> lo == bounds[d].lo && hi == bounds[d].hi)
  {
    FoundIs(bounds, parts, parts[n].dim, n);
  }

  // ----- incomplete, and not covered -----

  /** A verdict of incompleteness is right exactly when parts whose blocks cover the bounds fill them, too. */
  lemma IncompleteSound(r: Partition, bounds: Box, parts: seq<AxisPartition>, outside: int -> int)
    requires InRange(bounds, parts) && Geometry(r, bounds, parts) && Verdicts(r, bounds, parts, outside)
    ensures Shaped(r) && |r.csHi| == |parts| && |r.extent| == |bounds|
    ensures (!r.complete ==> !Covered(r, bounds))
       <==> (!Nonempty(bounds) || AxesReached(r, bounds) ==> AllFill(bounds, parts, r.csHi, outside))
    ensures DistinctDims(parts) ==>
              ((!r.complete ==> !Covered(r, bounds))
               <==> (!Nonempty(bounds) || PartsCover(r.csHi, bounds, parts) ==>
                       AllFill(bounds, parts, r.csHi, outside)))
  {
    hide Geometry, Verdicts, Covered, AxesReached, Nonempty, PartsCover, AllFill, Shaped;
    GeometryShape(r, bounds, parts);
    VerdictsAre(r, bounds, parts, outside);
    CoveredByAxes(r, bounds, parts);
    if DistinctDims(parts) { CoveredOnAxes(r, bounds, parts); }
  }

  /** Every part on an axis that has more than one block steps by the width of a block. */
  ghost predicate StepsAreWidths(parts: seq<AxisPartition>, csHi: seq<int>)
    requires |csHi| == |parts|
  {
    forall n | 0 <= n < |parts| && parts[n].dim >= 0 :: StepIsWidth(parts[n], csHi[n])
  }

  predicate StepIsWidth(part: AxisPartition, hi: int) {
    hi > 0 ==> part.stride == part.extent.hi - part.extent.lo + 1
  }

  ghost predicate SomeColours(csHi: seq<int>) {
    forall n | 0 <= n < |csHi| :: csHi[n] >= 0
  }

  ghost predicate OwnCounts(parts: seq<AxisPartition>, csHi: seq<int>, outside: int -> int)
    requires |csHi| == |parts|
  {
    forall n | 0 <= n < |parts| && parts[n].dim >= 0 :: CountRead(parts, csHi, outside, n) == csHi[n]
  }

  /**
   Where parts on distinct axes read their own counts, a partition with colours is judged complete exactly
   when it covers the bounds in blocks that neither overlap nor leave gaps.
   */
  lemma CompleteIsCovered(r: Partition, bounds: Box, parts: seq<AxisPartition>, outside: int -> int)
    requires InRange(bounds, parts) && Geometry(r, bounds, parts) && Verdicts(r, bounds, parts, outside)
    requires |r.csHi| == |parts| && DistinctDims(parts) && Nonempty(bounds) && OwnCounts(parts, r.csHi, outside)
    ensures Shaped(r)
    ensures r.complete && SomeColours(r.csHi) <==> Covered(r, bounds) && StepsAreWidths(parts, r.csHi)
  {
    hide Geometry, Verdicts, Covered, Nonempty, AllFill, Shaped, Fills, PartCovers, CountRead, StepIsWidth;
    GeometryShape(r, bounds, parts);
    VerdictsAre(r, bounds, parts, outside);
    CoveredOnAxes(r, bounds, parts);
    forall n | 0 <= n < |parts|
      ensures parts[n].dim >= 0 ==>
                (Fills(parts, r.csHi, outside, n, bounds[parts[n].dim].lo, bounds[parts[n].dim].hi) && r.csHi[n] >= 0
                 <==> PartCovers(parts[n], r.csHi[n], bounds) && StepIsWidth(parts[n], r.csHi[n]))
      ensures parts[n].dim < 0 ==> (PartCovers(parts[n], r.csHi[n], bounds) <==> r.csHi[n] >= 0)
    {
      FillsIsCovers(bounds, parts, r.csHi, outside, n);
    }
  }

  lemma FillsIsCovers(bounds: Box, parts: seq<AxisPartition>, csHi: seq<int>, outside: int -> int, n: nat)
    requires InRange(bounds, parts) && n < |parts| == |csHi| && OwnCounts(parts, csHi, outside)
    ensures parts[n].dim >= 0 ==>
              (Fills(parts, csHi, outside, n, bounds[parts[n].dim].lo, bounds[parts[n].dim].hi) && csHi[n] >= 0
               <==> PartCovers(parts[n], csHi[n], bounds) && StepIsWidth(parts[n], csHi[n]))
    ensures parts[n].dim < 0 ==> (PartCovers(parts[n], csHi[n], bounds) <==> csHi[n] >= 0)
  {
  }

  /** Block sizes whose parts read their own counts are judged complete exactly when the blocks cover the bounds. */
  lemma BlocksComplete(r: Partition, bounds: Box, blocks: seq<(int, int)>, outside: int -> int)
    requires SizedBlocks(bounds, blocks) && DistinctAxes(blocks) && InRange(bounds, BlockParts(bounds, blocks))
    requires Geometry(r, bounds, BlockParts(bounds, blocks)) && Verdicts(r, bounds, BlockParts(bounds, blocks), outside)
    requires |r.csHi| == |blocks| && OwnCounts(BlockParts(bounds, blocks), r.csHi, outside)
    ensures Shaped(r)
    ensures r.complete <==> Covered(r, bounds)
    ensures r.complete <==> forall n | 0 <= n < |blocks| :: BlocksReach(bounds[blocks[n].0], blocks[n].1)
  {
    hide Geometry, Verdicts, Covered, Shaped, Colours, OwnCounts, BlocksReach;
    var parts := BlockParts(bounds, blocks);
    BlockPartsFit(bounds, blocks);
    GeometryShape(r, bounds, parts);
    forall n | 0 <= n < |parts| ensures r.csHi[n] >= 0 && StepIsWidth(parts[n], r.csHi[n]) {
      CountOfBlocks(bounds, blocks, n);
    }
    CompleteIsCovered(r, bounds, parts, outside);
    BlocksCovered(r, bounds, blocks);
  }

  /** Block sizes cover the bounds exactly when their blocks, which start at 0, reach them. */
  lemma BlocksCovered(r: Partition, bounds: Box, blocks: seq<(int, int)>)
    requires SizedBlocks(bounds, blocks) && DistinctAxes(blocks) && InRange(bounds, BlockParts(bounds, blocks))
    requires Geometry(r, bounds, BlockParts(bounds, blocks))
    ensures Shaped(r)
    ensures Covered(r, bounds) <==> forall n | 0 <= n < |blocks| :: BlocksReach(bounds[blocks[n].0], blocks[n].1)
  {
    hide Geometry, InBox, BlockColour, BlocksReach, Colours, IsColour, Block;
    GeometryShape(r, bounds, BlockParts(bounds, blocks));
    BlocksPartition(r, bounds, blocks);
    forall p | InBox(p, bounds) ensures |p| == |bounds| && (SomeColour(r, p) <==> InOneBlock(r, blocks, p)) {
      InBoxIs(p, bounds);
      OneIsSome(r, bounds, blocks, p);
    }
  }

  lemma OneIsSome(r: Partition, bounds: Box, blocks: seq<(int, int)>, p: Point)
    requires SizedBlocks(bounds, blocks) && DistinctAxes(blocks) && InRange(bounds, BlockParts(bounds, blocks))
    requires Geometry(r, bounds, BlockParts(bounds, blocks)) && InBox(p, bounds) && Shaped(r)
    ensures |p| == |bounds| && (SomeColour(r, p) <==> InOneBlock(r, blocks, p))
  {
    hide Geometry, InBox, BlockColour, Block, SizedBlocks, DistinctAxes, Shaped;
    InOneBlockIs(r, bounds, blocks, p);
    if c :| IsColour(r, c) && InBox(p, Block(r, c)) { InBlockOf(r, bounds, blocks, p, c); }
  }

  /** Part n on axis n is enough. */
  lemma BlocksInOrder(r: Partition, bounds: Box, blocks: seq<(int, int)>, outside: int -> int)
    requires SizedBlocks(bounds, blocks) && InRange(bounds, BlockParts(bounds, blocks))
    requires forall n | 0 <= n < |blocks| :: blocks[n].0 == n
    requires Geometry(r, bounds, BlockParts(bounds, blocks)) && Verdicts(r, bounds, BlockParts(bounds, blocks), outside)
    ensures Shaped(r)
    ensures r.complete <==> Covered(r, bounds)
  {
    hide Geometry, Verdicts, Covered, Shaped, Colours;
    GeometryShape(r, bounds, BlockParts(bounds, blocks));
    BlocksComplete(r, bounds, blocks, outside);
  }

  /** On 1..9 in blocks of 5 the blocks are 0..4 and 5..9: complete, and every point has a colour. */
  lemma OneToNine(r: Partition, bounds: Box, outside: int -> int)
    requires bounds == [Interval(1, 9)] && InRange(bounds, BlockParts(bounds, [(0, 5)]))
    requires Geometry(r, bounds, BlockParts(bounds, [(0, 5)]))
    requires Verdicts(r, bounds, BlockParts(bounds, [(0, 5)]), outside)
    ensures r.complete && Shaped(r) && Covered(r, bounds)
  {
    hide Geometry, Verdicts, Covered, Shaped, Colours;
    GeometryShape(r, bounds, BlockParts(bounds, [(0, 5)]));
    BlocksComplete(r, bounds, [(0, 5)], outside);
  }

  /** On 0..9 the blocks 0..6 and 5..11 leave no point out, and overlap: judged incomplete. */
  lemma OverlapIncomplete(r: Partition, bounds: Box, parts: seq<AxisPartition>, outside: int -> int)
    requires bounds == [Interval(0, 9)] && InRange(bounds, parts)
    requires parts == [AxisPartition(0, 5, 0, Interval(0, 6), Interval(0, 9))]
    requires Geometry(r, bounds, parts) && Verdicts(r, bounds, parts, outside)
    ensures Shaped(r) && Covered(r, bounds) && !r.complete
  {
    hide Geometry, Verdicts, Covered, Shaped, FoundLo, FoundHi;
    GeometryShape(r, bounds, parts);
    CountsAre(r, bounds, parts, 0, 1);
    CountsAre(r, bounds, parts, 0, 2);
    VerdictsAre(r, bounds, parts, outside);
    CoveredOnAxes(r, bounds, parts);
    assert !Fills(parts, r.csHi, outside, 0, 0, 9);
  }
}

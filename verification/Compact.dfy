/**
 `IndexTree::compact`, through which every constructor passes: drop the blocks without positive
 count, sort by start, reject overlaps, and coalesce touching blocks with equal subtrees.
 */
module Compaction {
  import opened Wrappers
  import opened IndexTrees

  datatype CompactError = OverlappingBlocks

  type CompactResult = Result<seq<Block>, CompactError>

  function Positive(bs: seq<Block>): seq<Block> {
    if bs == [] then []
    else (if bs[0].count > 0 then [bs[0]] else []) + Positive(bs[1..])
  }

  function Insert(b: Block, bs: seq<Block>): seq<Block> {
    if bs == [] || b.start <= bs[0].start then [b] + bs
    else [bs[0]] + Insert(b, bs[1..])
  }

  /** One sort by start; the outcome of Compact does not depend on the order of ties. */
  function SortByStart(bs: seq<Block>): seq<Block> {
    if bs == [] then [] else Insert(bs[0], SortByStart(bs[1..]))
  }

  function Extend(b: Block, n: int): Block { b.(count := b.count + n) }

  function Coalesce(bs: seq<Block>): CompactResult
    decreases |bs|
  {
    if |bs| <= 1 then Success(bs)
    else if bs[1].start < bs[0].End() then Failure(OverlappingBlocks)
    else if bs[1].start == bs[0].End() && bs[1].sub == bs[0].sub then
      Coalesce([Extend(bs[0], bs[1].count)] + bs[2..])
    else Prepend([bs[0]], Coalesce(bs[1..]))
  }

  function Prepend(done: seq<Block>, r: CompactResult): CompactResult {
    match r
    case Success(bs) => Success(done + bs)
    case Failure(e) => Failure(e)
  }

  function Compact(bs: seq<Block>): CompactResult {
    Coalesce(SortByStart(Positive(bs)))
  }

  /** The constructor from blocks. */
  function Make(bs: seq<Block>): Result<Tree, CompactError> {
    match Compact(bs)
    case Success(r) => Success(Tree(r))
    case Failure(e) => Failure(e)
  }

  method NewTree(bs: seq<Block>) returns (r: Result<Tree, CompactError>)
    ensures r == Make(bs)
  {
    var c := CompactInPlace(bs);
    match c
    case Success(v) => r := Success(Tree(v));
    case Failure(e) => r := Failure(e);
  }

  /** The loop of the original: `result` grows at its end and its last block is updated in place. */
  method CompactInPlace(bs: seq<Block>) returns (r: CompactResult)
    ensures r == Compact(bs)
  {
    hide SortByStart, Positive;
    var sorted := SortByStart(Positive(bs));
    var result: seq<Block> := [];
    var k := 0;
    while k < |sorted|
      invariant 0 <= k <= |sorted|
      invariant result == [] ==> k == 0
      invariant result != [] ==>
                  Coalesce(sorted)
                  == Prepend(result[..|result| - 1], Coalesce([result[|result| - 1]] + sorted[k..]))
    {
      var ch := sorted[k];
      if result == [] {
        result := [ch];
        assert [ch] + sorted[1..] == sorted;
        PrependTwice([], [], Coalesce(sorted));
      } else {
        var last := result[|result| - 1];
        ghost var rest := [last] + sorted[k..];
        assert rest[0] == last && rest[1] == ch && rest[2..] == sorted[k + 1..];
        assert rest[1..] == [ch] + sorted[k + 1..];
        if ch.start < last.End() {
          return Failure(OverlappingBlocks);
        }
        if ch.start == last.End() && last.sub == ch.sub {
          assert [Extend(last, ch.count)] + rest[2..] == [Extend(last, ch.count)] + sorted[k + 1..];
          result := result[|result| - 1 := Extend(last, ch.count)];
        } else {
          ghost var before := result[..|result| - 1];
          assert before + [last] == result;
          result := result + [ch];
          assert result[..|result| - 1] == before + [last];
          PrependTwice(before, [last], Coalesce(rest[1..]));
        }
      }
      k := k + 1;
    }
    if result != [] {
      assert result[..|result| - 1] + [result[|result| - 1]] == result;
      assert [result[|result| - 1]] + sorted[k..] == [result[|result| - 1]];
    }
    return Success(result);
  }

  lemma PrependTwice(a: seq<Block>, b: seq<Block>, r: CompactResult)
    ensures Prepend(a, Prepend(b, r)) == Prepend(a + b, r)
    ensures Prepend([], r) == r
  {
    if r.Success? {
      assert [] + r.value == r.value;
      assert a + (b + r.value) == (a + b) + r.value;
    }
  }

  // ----- what compaction keeps -----

  /** The subtrees of the blocks that cover x. */
  function Cover(bs: seq<Block>, x: int): multiset<Tree> {
    if bs == [] then multiset{}
    else (if bs[0].Covers(x) then multiset{bs[0].sub} else multiset{}) + Cover(bs[1..], x)
  }

  ghost predicate Overlapping(bs: seq<Block>) {
    exists x :: |Cover(bs, x)| > 1
  }

  ghost predicate SameCover(xs: seq<Block>, ys: seq<Block>) {
    forall x :: Cover(xs, x) == Cover(ys, x)
  }

  /** Ascending starts and positive counts, overlaps allowed. */
  ghost predicate Ascending(bs: seq<Block>) {
    bs != [] ==>
      && bs[0].count > 0
      && (|bs| > 1 ==> bs[0].start <= bs[1].start)
      && Ascending(bs[1..])
  }


  lemma {:induction false} PositiveKeepsCover(bs: seq<Block>)
    ensures SameCover(Positive(bs), bs)
    ensures forall b | b in Positive(bs) :: b.count > 0
    ensures Positive(bs) == [] <==> forall b | b in bs :: b.count <= 0
  {
    if bs != [] {
      PositiveKeepsCover(bs[1..]);
      if bs[0].count > 0 {
        assert Positive(bs)[1..] == Positive(bs[1..]);
      } else {
        assert Positive(bs) == Positive(bs[1..]);
      }
    }
  }

  lemma {:induction false} InsertKeepsCover(b: Block, bs: seq<Block>)
    ensures SameCover(Insert(b, bs), [b] + bs)
  {
    assert ([b] + bs)[1..] == bs;
    if !(bs == [] || b.start <= bs[0].start) {
      InsertKeepsCover(b, bs[1..]);
      assert ([b] + bs[1..])[1..] == bs[1..];
      assert Insert(b, bs)[1..] == Insert(b, bs[1..]);
    }
  }

  lemma {:induction false} InsertAscending(b: Block, bs: seq<Block>)
    requires b.count > 0 && Ascending(bs)
    ensures Ascending(Insert(b, bs))
  {
    if bs == [] || b.start <= bs[0].start {
      assert ([b] + bs)[1..] == bs;
    } else {
      InsertAscending(b, bs[1..]);
      assert Insert(b, bs)[1..] == Insert(b, bs[1..]);
    }
  }

  lemma {:induction false} SortSound(bs: seq<Block>)
    requires forall b | b in bs :: b.count > 0
    ensures SameCover(SortByStart(bs), bs) && Ascending(SortByStart(bs))
  {
    if bs != [] {
      SortSound(bs[1..]);
      InsertAscending(bs[0], SortByStart(bs[1..]));
      InsertKeepsCover(bs[0], SortByStart(bs[1..]));
      assert ([bs[0]] + SortByStart(bs[1..]))[1..] == SortByStart(bs[1..]);
    }
  }

  /** Merging a touching neighbour with the same subtree changes nothing that can be observed. */
  lemma ExtendKeepsCover(bs: seq<Block>)
    requires |bs| > 1 && bs[0].count > 0 && bs[1].count > 0
    requires bs[1].start == bs[0].End() && bs[1].sub == bs[0].sub
    ensures SameCover([Extend(bs[0], bs[1].count)] + bs[2..], bs)
  {
    var m := [Extend(bs[0], bs[1].count)] + bs[2..];
    assert m[1..] == bs[2..] == bs[1..][1..];
  }

  lemma SameCoverOverlapping(xs: seq<Block>, ys: seq<Block>)
    requires SameCover(xs, ys)
    ensures Overlapping(xs) <==> Overlapping(ys)
  {
    if Overlapping(xs) {
      var x :| |Cover(xs, x)| > 1;
      assert |Cover(ys, x)| > 1;
    }
    if Overlapping(ys) {
      var x :| |Cover(ys, x)| > 1;
      assert |Cover(xs, x)| > 1;
    }
  }

  lemma ConsKeepsCover(b: Block, xs: seq<Block>, ys: seq<Block>)
    requires SameCover(xs, ys)
    ensures SameCover([b] + xs, [b] + ys)
  {
    assert ([b] + xs)[1..] == xs && ([b] + ys)[1..] == ys;
  }

  ghost predicate CoalescedFrom(r: seq<Block>, bs: seq<Block>) {
    && Ordered(r) && Coalesced(r) && SameCover(r, bs)
    && (bs == [] <==> r == [])
    && (bs != [] ==> r[0].start == bs[0].start && r[0].sub == bs[0].sub)
  }

  lemma {:induction false} CoalesceSound(bs: seq<Block>)
    requires Ascending(bs)
    ensures Coalesce(bs).Failure? <==> Overlapping(bs)
    ensures Coalesce(bs).Success? ==> CoalescedFrom(Coalesce(bs).value, bs)
    decreases |bs|
  {
    if |bs| <= 1 {
      forall x ensures |Cover(bs, x)| <= 1 {
        if bs != [] { assert Cover(bs[1..], x) == multiset{}; }
      }
    } else if bs[1].start < bs[0].End() {
      DoublyCovered(bs);
    } else if bs[1].start == bs[0].End() && bs[1].sub == bs[0].sub {
      var m := [Extend(bs[0], bs[1].count)] + bs[2..];
      ExtendKeepsCover(bs);
      assert m[1..] == bs[2..] == bs[1..][1..];
      CoalesceSound(m);
      SameCoverOverlapping(m, bs);
    } else {
      CoalesceSound(bs[1..]);
      FirstApart(bs);
      if Coalesce(bs[1..]).Success? {
        CoalesceApart(bs, Coalesce(bs[1..]).value);
      }
    }
  }

  lemma CoalesceApart(bs: seq<Block>, r: seq<Block>)
    requires |bs| > 1 && Ascending(bs) && bs[0].End() <= bs[1].start
    requires bs[1].start == bs[0].End() ==> bs[1].sub != bs[0].sub
    requires CoalescedFrom(r, bs[1..])
    ensures CoalescedFrom([bs[0]] + r, bs)
  {
    ConsKeepsCover(bs[0], r, bs[1..]);
    assert ([bs[0]] + r)[1..] == r;
    assert [bs[0]] + bs[1..] == bs;
  }

  lemma DoublyCovered(bs: seq<Block>)
    requires |bs| > 1 && Ascending(bs) && bs[1].start < bs[0].End()
    ensures Overlapping(bs)
  {
    var x := bs[1].start;
    assert Cover(bs, x) == multiset{bs[0].sub, bs[1].sub} + Cover(bs[1..][1..], x);
  }

  lemma FirstApart(bs: seq<Block>)
    requires |bs| > 1 && Ascending(bs) && bs[0].End() <= bs[1].start
    ensures Overlapping(bs) <==> Overlapping(bs[1..])
  {
    NotCoveredBelow(bs[1..], bs[0].End());
    if Overlapping(bs) {
      var x :| |Cover(bs, x)| > 1;
      assert |Cover(bs[1..], x)| > 1;
    }
    if Overlapping(bs[1..]) {
      var x :| |Cover(bs[1..], x)| > 1;
      assert |Cover(bs, x)| > 1;
    }
  }

  lemma {:induction false} NotCoveredBelow(bs: seq<Block>, lo: int)
    requires Ascending(bs) && (bs != [] ==> lo <= bs[0].start)
    ensures forall x | x < lo :: Cover(bs, x) == multiset{}
  {
    if bs != [] {
      NotCoveredBelow(bs[1..], lo);
    }
  }

  lemma {:induction false} LookupCover(bs: seq<Block>, x: int)
    requires Ordered(bs)
    ensures Cover(bs, x) == match Lookup(bs, x) case Some(t) => multiset{t} case None => multiset{}
  {
    if bs != [] {
      LookupCover(bs[1..], x);
      if bs[0].Covers(x) {
        LookupBelow(bs[1..], x);
      }
    }
  }

  lemma {:induction false} CoverCanonical(bs: seq<Block>, x: int, t: Tree)
    requires CanonicalSubs(bs) && t in Cover(bs, x)
    ensures Canonical(t)
  {
    if !(bs[0].Covers(x) && bs[0].sub == t) {
      CoverCanonical(bs[1..], x, t);
    }
  }

  lemma {:induction false} SubsFromCover(bs: seq<Block>, r: seq<Block>)
    requires CanonicalSubs(bs) && Ordered(r)
    requires forall x, t :: t in Cover(r, x) ==> t in Cover(bs, x)
    ensures CanonicalSubs(r)
  {
    if r != [] {
      assert r[0].sub in Cover(r, r[0].start);
      CoverCanonical(bs, r[0].start, r[0].sub);
      forall x, t | t in Cover(r[1..], x) ensures t in Cover(bs, x) {
        assert t in Cover(r, x);
      }
      SubsFromCover(bs, r[1..]);
    }
  }

  /**
   Compaction fails exactly when some coordinate is covered twice, and otherwise returns the one
   canonical block list that maps every coordinate as the input does, in whatever order it came.
   */
  lemma CompactSound(bs: seq<Block>)
    requires CanonicalSubs(bs)
    ensures Compact(bs).Failure? <==> Overlapping(bs)
    ensures Compact(bs).Success? ==>
              var r := Compact(bs).value;
              && Canonical(Tree(r))
              && (r == [] <==> forall b | b in bs :: b.count <= 0)
              && forall x, t :: Lookup(r, x) == Some(t) <==> t in Cover(bs, x)
  {
    PositiveKeepsCover(bs);
    SortSound(Positive(bs));
    var sorted := SortByStart(Positive(bs));
    CoalesceSound(sorted);
    if Compact(bs).Success? {
      var r := Compact(bs).value;
      forall x, t ensures Lookup(r, x) == Some(t) <==> t in Cover(bs, x) {
        LookupCover(r, x);
      }
      SubsFromCover(bs, r);
      SortEmpty(Positive(bs));
    }
  }

  /** Overlapping says that two different blocks of positive count share a coordinate. */
  lemma OverlappingIsPairwise(bs: seq<Block>)
    ensures Overlapping(bs)
       <==> exists i, j, x :: 0 <= i < j < |bs| && bs[i].Covers(x) && bs[j].Covers(x)
  {
    if Overlapping(bs) {
      var x :| |Cover(bs, x)| > 1;
      var i, j := TwoCovering(bs, x);
    }
    if exists i, j, x :: 0 <= i < j < |bs| && bs[i].Covers(x) && bs[j].Covers(x) {
      var i, j, x :| 0 <= i < j < |bs| && bs[i].Covers(x) && bs[j].Covers(x);
      CoverAtLeast(bs, i, j, x);
    }
  }

  lemma {:induction false} OneCovering(bs: seq<Block>, x: int) returns (i: nat)
    requires |Cover(bs, x)| > 0
    ensures i < |bs| && bs[i].Covers(x)
  {
    if bs[0].Covers(x) {
      i := 0;
    } else {
      i := OneCovering(bs[1..], x);
      i := i + 1;
    }
  }

  lemma {:induction false} TwoCovering(bs: seq<Block>, x: int) returns (i: nat, j: nat)
    requires |Cover(bs, x)| > 1
    ensures i < j < |bs| && bs[i].Covers(x) && bs[j].Covers(x)
  {
    if bs[0].Covers(x) {
      i := 0;
      j := OneCovering(bs[1..], x);
    } else {
      i, j := TwoCovering(bs[1..], x);
      i := i + 1;
    }
    j := j + 1;
  }

  lemma {:induction false} CoverAtLeast(bs: seq<Block>, i: nat, j: nat, x: int)
    requires i <= j < |bs| && bs[i].Covers(x) && bs[j].Covers(x)
    ensures |Cover(bs, x)| >= if i < j then 2 else 1
  {
    if i > 0 {
      CoverAtLeast(bs[1..], i - 1, j - 1, x);
    } else if j > 0 {
      CoverAtLeast(bs[1..], j - 1, j - 1, x);
    }
  }

  lemma SortEmpty(bs: seq<Block>)
    ensures SortByStart(bs) == [] <==> bs == []
  {
  }

  lemma CompactOrdered(bs: seq<Block>)
    requires Ordered(bs) && CanonicalSubs(bs)
    ensures Compact(bs).Success? && Canonical(Tree(Compact(bs).value))
    ensures forall x :: Lookup(Compact(bs).value, x) == Lookup(bs, x)
  {
    CompactSound(bs);
    forall x ensures |Cover(bs, x)| <= 1 {
      LookupCover(bs, x);
    }
    if Compact(bs).Success? {
      forall x ensures Lookup(Compact(bs).value, x) == Lookup(bs, x) {
        LookupCover(bs, x);
        assert forall t :: t in Cover(bs, x) <==> Lookup(bs, x) == Some(t);
      }
    }
  }
}

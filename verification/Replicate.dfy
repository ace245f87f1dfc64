/**
 The pattern constructor `IndexTree(pattern, num)`: the first `num` points of the pattern repeated
 along its first coordinate.
 */
module Replication {
  import opened Wrappers
  import opened IndexTrees
  import opened Compaction
  import opened BlockLists
  import opened Enumeration

  datatype ReplicateError = PatternNotAtZero | BlocksRejected(e: CompactError)

  // ----- the blocks of a replica -----

  function ShiftBlocks(bs: seq<Block>, o: int): (r: seq<Block>)
    ensures |r| == |bs|
  {
    if bs == [] then []
    else [Block(bs[0].start + o, bs[0].count, bs[0].sub)] + ShiftBlocks(bs[1..], o)
  }

  /** rep copies of bs, one stride apart. */
  function CopyBlocks(bs: seq<Block>, stride: int, rep: nat): seq<Block> {
    if rep == 0 then [] else CopyBlocks(bs, stride, rep - 1) + ShiftBlocks(bs, (rep - 1) * stride)
  }

  /** The blocks for the first rem points of bs, moved by o. */
  function RemainderBlocks(bs: seq<Block>, o: int, rem: nat): Result<seq<Block>, ReplicateError>
    requires Ordered(bs) && CanonicalSubs(bs)
    decreases Depth(bs), |bs|, 0
  {
    if rem == 0 || bs == [] then Success([])
    else
      SizePositive(bs[0].sub);
      var b, tsz := bs[0], Size(bs[0].sub);
      if b.count * tsz <= rem then
        Then([Block(b.start + o, b.count, b.sub)], RemainderBlocks(bs[1..], o, rem - b.count * tsz))
      else
        DepthHead(bs);
        var whole := if tsz <= rem then [Block(b.start + o, rem / tsz, b.sub)] else [];
        if rem % tsz == 0 then Success(whole)
        else
          match Replicate(b.sub, rem % tsz)
          case Success(t) => Success(whole + [Block(b.start + o, 1, t)])
          case Failure(e) => Failure(e)
  }

  function Then(bs: seq<Block>, r: Result<seq<Block>, ReplicateError>): Result<seq<Block>, ReplicateError> {
    match r
    case Success(rest) => Success(bs + rest)
    case Failure(e) => Failure(e)
  }

  function Replicate(pattern: Tree, num: nat): Result<Tree, ReplicateError>
    requires Canonical(pattern)
    decreases Depth(pattern.children), |pattern.children|, 1
  {
    if pattern == EMPTY || MinStart(pattern.children) != 0 then Failure(PatternNotAtZero)
    else
      SizePositive(pattern);
      var n, stride := Size(pattern), MaxEnd(pattern.children);
      match RemainderBlocks(pattern.children, (num / n) * stride, num % n)
      case Failure(e) => Failure(e)
      case Success(rem) =>
        match Make(CopyBlocks(pattern.children, stride, num / n) + rem)
        case Failure(e) => Failure(BlocksRejected(e))
        case Success(t) => Success(t)
  }

  lemma SizePositive(t: Tree)
    requires Canonical(t)
    ensures Size(t) > 0
  {
    var p := SomePoint(t);
    PointsEnumerate(t);
    assert p in Points(t);
  }

  // ----- the points of a replica -----

  function ShiftPoint(p: Point, o: int): Point {
    if p == [] then [] else [p[0] + o] + p[1..]
  }

  function ShiftAll(ps: seq<Point>, o: int): (r: seq<Point>)
    ensures |r| == |ps|
  {
    seq(|ps|, i requires 0 <= i < |ps| => ShiftPoint(ps[i], o))
  }

  /** The first num points of the pattern repeated along its first coordinate. */
  function Cycle(ps: seq<Point>, stride: int, num: nat): (r: seq<Point>)
    requires ps != []
    ensures |r| == num
  {
    seq(num, k requires 0 <= k < num => ShiftPoint(ps[k % |ps|], (k / |ps|) * stride))
  }

  function Copies(ps: seq<Point>, stride: int, rep: nat): (r: seq<Point>)
    ensures |r| == rep * |ps|
  {
    if rep == 0 then [] else Copies(ps, stride, rep - 1) + ShiftAll(ps, (rep - 1) * stride)
  }

  lemma {:induction false} CopiesAt(ps: seq<Point>, stride: int, rep: nat, k: nat)
    requires ps != [] && k < rep * |ps|
    ensures Copies(ps, stride, rep)[k] == ShiftPoint(ps[k % |ps|], (k / |ps|) * stride)
  {
    var before := (rep - 1) * |ps|;
    if k < before {
      CopiesAt(ps, stride, rep - 1, k);
    } else {
      DivMod(k, rep - 1, |ps|);
    }
  }

  lemma DivMod(k: nat, q: nat, n: nat)
    requires n > 0 && q * n <= k < q * n + n
    ensures k / n == q && k % n == k - q * n
  {
    var d := k / n - q;
    assert k == (q + d) * n + k % n == q * n + d * n + k % n;
    MulAtLeast(d, n);
  }

  lemma MulAtLeast(d: int, n: int)
    requires n > 0
    ensures d >= 1 ==> d * n >= n
    ensures d <= -1 ==> d * n <= -n
  {
    assert d * n == n + (d - 1) * n == -n + (d + 1) * n;
  }

  lemma CycleIsCopies(ps: seq<Point>, stride: int, num: nat)
    requires ps != []
    ensures Cycle(ps, stride, num)
         == Copies(ps, stride, num / |ps|) + ShiftAll(ps, (num / |ps|) * stride)[..num % |ps|]
  {
    var rep, rem := num / |ps|, num % |ps|;
    var r := Copies(ps, stride, rep) + ShiftAll(ps, rep * stride)[..rem];
    assert num == rep * |ps| + rem;
    forall k | 0 <= k < num ensures Cycle(ps, stride, num)[k] == r[k] {
      if k < rep * |ps| {
        CopiesAt(ps, stride, rep, k);
      } else {
        DivMod(k, rep, |ps|);
      }
    }
  }

  lemma ShiftAllAppend(ps: seq<Point>, qs: seq<Point>, o: int)
    ensures ShiftAll(ps + qs, o) == ShiftAll(ps, o) + ShiftAll(qs, o)
  {
  }

  lemma UnderShift(x: int, ps: seq<Point>, o: int)
    ensures Under([x + o], ps) == ShiftAll(Under([x], ps), o)
  {
    forall i | 0 <= i < |ps| ensures Under([x + o], ps)[i] == ShiftPoint(Under([x], ps)[i], o) {
      assert ([x] + ps[i])[1..] == ps[i];
    }
  }

  lemma {:induction false} SpanShift(x: int, n: int, ps: seq<Point>, o: int)
    ensures Span(x + o, n, ps) == ShiftAll(Span(x, n, ps), o)
    decreases n
  {
    hide Under;
    if n > 0 {
      SpanShift(x + 1, n - 1, ps, o);
      ShiftAllAppend(Under([x], ps), Span(x + 1, n - 1, ps), o);
      UnderShift(x, ps, o);
    }
  }

  lemma {:induction false} ShiftBlocksPoints(bs: seq<Block>, o: int)
    ensures PointsOf(ShiftBlocks(bs, o)) == ShiftAll(PointsOf(bs), o)
  {
    if bs != [] {
      ShiftBlocksPoints(bs[1..], o);
      var ps := Points(bs[0].sub);
      SpanShift(bs[0].start, bs[0].count, ps, o);
      ShiftAllAppend(Span(bs[0].start, bs[0].count, ps), PointsOf(bs[1..]), o);
      assert ShiftBlocks(bs, o)[1..] == ShiftBlocks(bs[1..], o);
    }
  }

  lemma Assoc<T>(a: seq<T>, b: seq<T>, c: seq<T>)
    ensures a + (b + c) == (a + b) + c
  {
  }

  lemma PointsOfCons(xs: seq<Block>, ys: seq<Block>)
    requires xs != []
    ensures PointsOf(xs + ys)
         == Span(xs[0].start, xs[0].count, Points(xs[0].sub)) + PointsOf(xs[1..] + ys)
  {
    assert (xs + ys)[1..] == xs[1..] + ys;
  }

  lemma {:induction false} PointsOfAppend(xs: seq<Block>, ys: seq<Block>)
    ensures PointsOf(xs + ys) == PointsOf(xs) + PointsOf(ys)
  {
    if xs == [] {
      assert xs + ys == ys;
    } else {
      hide Span, Points;
      PointsOfCons(xs, ys);
      PointsOfAppend(xs[1..], ys);
      Assoc(Span(xs[0].start, xs[0].count, Points(xs[0].sub)), PointsOf(xs[1..]), PointsOf(ys));
      assert xs + [] == xs;
      PointsOfCons(xs, []);
      assert xs[1..] + [] == xs[1..];
    }
  }

  lemma {:induction false} CopyBlocksPoints(bs: seq<Block>, stride: int, rep: nat)
    ensures PointsOf(CopyBlocks(bs, stride, rep)) == Copies(PointsOf(bs), stride, rep)
  {
    if rep > 0 {
      CopyBlocksPoints(bs, stride, rep - 1);
      PointsOfAppend(CopyBlocks(bs, stride, rep - 1), ShiftBlocks(bs, (rep - 1) * stride));
      ShiftBlocksPoints(bs, (rep - 1) * stride);
    }
  }

  /** A prefix of a span: m whole copies and the first l points of the next one. */
  lemma {:induction false} SpanTake(x: int, n: nat, ps: seq<Point>, m: nat, l: nat)
    requires m < n && l < |ps|
    ensures m * |ps| + l <= |Span(x, n, ps)|
    ensures Span(x, n, ps)[..m * |ps| + l] == Span(x, m, ps) + Under([x + m], ps[..l])
    decreases m
  {
    SpanLength(x, n, ps);
    MulAtLeast(n - m, |ps|);
    assert n * |ps| == m * |ps| + (n - m) * |ps|;
    if m == 0 {
      assert Under([x], ps)[..l] == Under([x], ps[..l]);
    } else {
      SpanTake(x + 1, n - 1, ps, m - 1, l);
      assert m * |ps| + l == |ps| + ((m - 1) * |ps| + l);
      TakeAppend(Under([x], ps), Span(x + 1, n - 1, ps), (m - 1) * |ps| + l);
      Assoc(Under([x], ps), Span(x + 1, m - 1, ps), Under([x + m], ps[..l]));
    }
  }

  lemma TakeAppend<T>(a: seq<T>, b: seq<T>, k: nat)
    requires k <= |b|
    ensures (a + b)[..|a| + k] == a + b[..k]
  {
  }

  // ----- bounds of the emitted blocks -----

  lemma {:induction false} ShiftWithin(bs: seq<Block>, lo: int, hi: int, o: int)
    requires Within(bs, lo, hi) && CanonicalSubs(bs)
    ensures Within(ShiftBlocks(bs, o), lo + o, hi + o) && CanonicalSubs(ShiftBlocks(bs, o))
  {
    if bs != [] {
      ShiftWithin(bs[1..], bs[0].End(), hi, o);
      assert ShiftBlocks(bs, o)[1..] == ShiftBlocks(bs[1..], o);
    }
  }

  lemma {:induction false} CopiesWithin(bs: seq<Block>, stride: int, rep: nat)
    requires Within(bs, 0, stride) && CanonicalSubs(bs) && stride >= 0
    ensures rep * stride >= 0
    ensures Within(CopyBlocks(bs, stride, rep), 0, rep * stride) && CanonicalSubs(CopyBlocks(bs, stride, rep))
  {
    if rep > 0 {
      CopiesWithin(bs, stride, rep - 1);
      var o := (rep - 1) * stride;
      assert rep * stride == o + stride;
      ShiftWithin(bs, 0, stride, o);
      WithinAppend(CopyBlocks(bs, stride, rep - 1), ShiftBlocks(bs, o), 0, o, rep * stride);
      SubsAppend(CopyBlocks(bs, stride, rep - 1), ShiftBlocks(bs, o));
    }
  }

  // ----- when the constructor succeeds -----

  /**
   The remainder may cut one subtree, but only when no whole copy of that subtree precedes the cut
   within the same block: the loop then emits both at the same start.
   */
  predicate RemainderFits(bs: seq<Block>, rem: nat)
    requires Ordered(bs) && CanonicalSubs(bs)
    decreases Depth(bs), |bs|, 0
  {
    rem == 0 || bs == [] ||
    (SizePositive(bs[0].sub);
     DepthHead(bs);
     var size := Size(bs[0].sub);
     if bs[0].count * size <= rem then RemainderFits(bs[1..], rem - bs[0].count * size)
     else rem % size == 0 || (rem < size && Replicable(bs[0].sub, rem)))
  }

  predicate Replicable(pattern: Tree, num: nat)
    requires Canonical(pattern)
    decreases Depth(pattern.children), |pattern.children|, 1
  {
    && pattern != EMPTY
    && MinStart(pattern.children) == 0
    && (SizePositive(pattern); RemainderFits(pattern.children, num % Size(pattern)))
  }

  /** What the blocks emitted for a remainder must satisfy. */
  ghost predicate RemainderOk(bs: seq<Block>, o: int, rem: nat, rb: seq<Block>)
    requires rem <= |PointsOf(bs)|
  {
    && Ordered(rb)
    && (rb != [] ==> bs != [] && rb[0].start == bs[0].start + o)
    && PointsOf(rb) == ShiftAll(PointsOf(bs)[..rem], o)
  }

  lemma TakeShift(ps: seq<Point>, o: int, k: nat)
    requires k <= |ps|
    ensures ShiftAll(ps, o)[..k] == ShiftAll(ps[..k], o)
  {
  }

  lemma WholeBlock(bs: seq<Block>, o: int, k: nat, rest: seq<Block>)
    requires Ordered(bs) && CanonicalSubs(bs) && bs != []
    requires k <= |PointsOf(bs[1..])| && RemainderOk(bs[1..], o, k, rest)
    ensures var whole := |Span(bs[0].start, bs[0].count, Points(bs[0].sub))|;
            && whole + k <= |PointsOf(bs)|
            && RemainderOk(bs, o, whole + k, [Block(bs[0].start + o, bs[0].count, bs[0].sub)] + rest)
  {
    hide Span, Points, ShiftAll, PointsOf;
    var b, ps := bs[0], Points(bs[0].sub);
    var rb := [Block(b.start + o, b.count, b.sub)] + rest;
    assert rb[1..] == rest;
    PointsOfFirst(bs);
    PointsOfFirst(rb);
    SpanShift(b.start, b.count, ps, o);
    TakeAppend(Span(b.start, b.count, ps), PointsOf(bs[1..]), k);
    ShiftAllAppend(Span(b.start, b.count, ps), PointsOf(bs[1..])[..k], o);
  }

  /** PointsOf for a list whose only block has been cut. */
  lemma CutBlock(bs: seq<Block>, o: int, m: nat, l: nat)
    requires bs != [] && m < bs[0].count && l < |Points(bs[0].sub)|
    ensures m * |Points(bs[0].sub)| + l <= |PointsOf(bs)|
    ensures ShiftAll(PointsOf(bs)[..m * |Points(bs[0].sub)| + l], o)
         == Span(bs[0].start + o, m, Points(bs[0].sub)) + Under([bs[0].start + o + m], Points(bs[0].sub)[..l])
  {
    hide Points, ShiftAll, PointsOf, Span, Under;
    var b, ps := bs[0], Points(bs[0].sub);
    SpanTake(b.start, b.count, ps, m, l);
    PointsOfFirst(bs);
    assert PointsOf(bs)[..m * |ps| + l] == Span(b.start, b.count, ps)[..m * |ps| + l];
    ShiftAllAppend(Span(b.start, m, ps), Under([b.start + m], ps[..l]), o);
    SpanShift(b.start, m, ps, o);
    SpanShift(b.start + m, 1, ps[..l], o);
    SpanOne(b.start + m, ps[..l]);
    SpanOne(b.start + m + o, ps[..l]);
  }

  lemma PointsOfFirst(bs: seq<Block>)
    requires bs != []
    ensures PointsOf(bs) == Span(bs[0].start, bs[0].count, Points(bs[0].sub)) + PointsOf(bs[1..])
  {
  }

  lemma SpanOne(x: int, ps: seq<Point>)
    ensures Span(x, 1, ps) == Under([x], ps)
  {
    assert Span(x + 1, 0, ps) == [];
  }

  lemma PointsOfOne(b: Block)
    ensures PointsOf([b]) == Span(b.start, b.count, Points(b.sub))
  {
    assert [b][1..] == [];
  }

  lemma CopiesOnly(bs: seq<Block>, o: int, m: nat)
    requires Ordered(bs) && CanonicalSubs(bs) && bs != [] && Points(bs[0].sub) != [] && 0 < m < bs[0].count
    ensures m * |Points(bs[0].sub)| <= |PointsOf(bs)|
    ensures RemainderOk(bs, o, m * |Points(bs[0].sub)|, [Block(bs[0].start + o, m, bs[0].sub)])
  {
    hide Span, ShiftAll, Points;
    var b := bs[0];
    CutBlock(bs, o, m, 0);
    var r := Block(b.start + o, m, b.sub);
    PointsOfOne(r);
    assert Canonical(b.sub);
    OneBlock(r);
    assert Under([b.start + o + m], Points(b.sub)[..0]) == [];
  }

  lemma Quotient(k: nat, n: nat, c: int)
    requires 0 < n && k < c * n
    ensures k / n < c && k == (k / n) * n + k % n
    ensures k % n == 0 && k > 0 ==> k / n > 0
    ensures k < n ==> k / n == 0 && k % n == k
    ensures n <= k ==> k / n > 0
  {
    assert k == (k / n) * n + k % n;
    QuotientOf(k, n, c, k / n, k % n);
  }

  lemma QuotientOf(k: nat, n: nat, c: int, q: int, m: nat)
    requires k == q * n + m && m < n && k < c * n
    ensures q < c && (m == 0 && k > 0 ==> q > 0) && (k < n ==> q == 0 && m == k) && (n <= k ==> q > 0)
  {
    assert (q - c + 1) * n == q * n - c * n + n;
    MulAtLeast(q - c + 1, n);
    MulAtLeast(q, n);
  }

  lemma PrefixOnly(bs: seq<Block>, o: int, rem: nat, t: Tree)
    requires Ordered(bs) && CanonicalSubs(bs) && bs != []
    requires 0 < rem < Size(bs[0].sub) && rem <= |PointsOf(bs)| && rem <= |Points(bs[0].sub)|
    requires Canonical(t) && PointsOf(t.children) == Points(bs[0].sub)[..rem]
    ensures RemainderOk(bs, o, rem, [Block(bs[0].start + o, 1, t)])
  {
    hide Span, ShiftAll;
    PointsOfLength(bs[0].sub.children);
    CutBlock(bs, o, 0, rem);
    var r := Block(bs[0].start + o, 1, t);
    assert t != EMPTY by { assert PointsOf([]) == []; }
    PointsOfOne(r);
    OneBlock(r);
    SpanOne(r.start, Points(t));
    SpanNone(bs[0].start + o, Points(bs[0].sub));
  }

  lemma SpanNone(x: int, ps: seq<Point>)
    ensures Span(x, 0, ps) == []
  {
  }

  lemma ShiftNothing(p: Point)
    ensures ShiftPoint(p, 0) == p
  {
  }

  lemma CycleShort(ps: seq<Point>, stride: int, num: nat)
    requires num < |ps|
    ensures Cycle(ps, stride, num) == ps[..num]
  {
    forall k | 0 <= k < num ensures ShiftPoint(ps[k % |ps|], (k / |ps|) * stride) == ps[k] {
      DivMod(k, 0, |ps|);
      ShiftNothing(ps[k]);
    }
  }

  lemma SameStartOverlaps(a: Block, b: Block)
    requires a.start == b.start && a.count > 0 && b.count > 0
    ensures Overlapping([a, b])
  {
    var bs := [a, b];
    assert bs[1..] == [b];
    assert bs[1..][1..] == [];
    assert Cover([b], a.start) == multiset{b.sub};
    assert Cover(bs, a.start) == multiset{a.sub} + Cover([b], a.start);
    assert |Cover(bs, a.start)| == 2;
  }

  lemma {:induction false} RemainderSound(bs: seq<Block>, o: int, rem: nat)
    requires Ordered(bs) && CanonicalSubs(bs) && rem <= SizeOf(bs)
    ensures |PointsOf(bs)| == SizeOf(bs)
    ensures RemainderBlocks(bs, o, rem).Success? ==> CanonicalSubs(RemainderBlocks(bs, o, rem).value)
    ensures RemainderFits(bs, rem) ==>
              RemainderBlocks(bs, o, rem).Success? && RemainderOk(bs, o, rem, RemainderBlocks(bs, o, rem).value)
    ensures !RemainderFits(bs, rem) && RemainderBlocks(bs, o, rem).Success? ==>
              Overlapping(RemainderBlocks(bs, o, rem).value)
    decreases Depth(bs), |bs|, 0
  {
    hide RemainderOk, Ordered, Canonical, Overlapping, Replicate, Replicable;
    PointsOfLength(bs);
    if rem == 0 || bs == [] {
      NothingLeft(bs, o);
    } else {
      SizePositive(bs[0].sub);
      if bs[0].count * Size(bs[0].sub) <= rem {
        RemainderWhole(bs, o, rem);
      } else {
        RemainderCut(bs, o, rem);
      }
    }
  }

  lemma NothingLeft(bs: seq<Block>, o: int)
    ensures RemainderOk(bs, o, 0, [])
  {
  }

  lemma RemainderWhole(bs: seq<Block>, o: int, rem: nat)
    requires Ordered(bs) && CanonicalSubs(bs) && 0 < rem <= SizeOf(bs) && bs != []
    requires bs[0].count * Size(bs[0].sub) <= rem
    ensures |PointsOf(bs)| == SizeOf(bs)
    ensures RemainderBlocks(bs, o, rem).Success? ==> CanonicalSubs(RemainderBlocks(bs, o, rem).value)
    ensures RemainderFits(bs, rem) ==>
              RemainderBlocks(bs, o, rem).Success? && RemainderOk(bs, o, rem, RemainderBlocks(bs, o, rem).value)
    ensures !RemainderFits(bs, rem) && RemainderBlocks(bs, o, rem).Success? ==>
              Overlapping(RemainderBlocks(bs, o, rem).value)
    decreases Depth(bs), |bs|, -1
  {
    hide RemainderOk, Overlapping, Replicate, Replicable, PointsOf, Points, Canonical;
    var rest := rem - bs[0].count * Size(bs[0].sub);
    PointsOfLength(bs);
    PointsOfLength(bs[1..]);
    PointsLength(bs[0].sub);
    RemainderSound(bs[1..], o, rest);
    if RemainderBlocks(bs[1..], o, rest).Success? {
      var rb := RemainderBlocks(bs[1..], o, rest).value;
      var b := Block(bs[0].start + o, bs[0].count, bs[0].sub);
      OneBlock(b);
      SubsAppend([b], rb);
      if RemainderFits(bs[1..], rest) {
        SpanLength(bs[0].start, bs[0].count, Points(bs[0].sub));
        PointsOfLength(bs[0].sub.children);
        WholeBlock(bs, o, rest, rb);
      } else {
        OverlapAppend([b], rb);
      }
    }
  }

  lemma OverlapAppend(xs: seq<Block>, ys: seq<Block>)
    requires Overlapping(ys)
    ensures Overlapping(xs + ys)
  {
    var x :| |Cover(ys, x)| > 1;
    CoverAppend(xs, ys, x);
    assert |Cover(xs + ys, x)| > 1;
  }

  lemma RemainderCut(bs: seq<Block>, o: int, rem: nat)
    requires Ordered(bs) && CanonicalSubs(bs) && 0 < rem <= SizeOf(bs) && bs != []
    requires rem < bs[0].count * Size(bs[0].sub)
    ensures |PointsOf(bs)| == SizeOf(bs)
    ensures RemainderBlocks(bs, o, rem).Success? ==> CanonicalSubs(RemainderBlocks(bs, o, rem).value)
    ensures RemainderFits(bs, rem) ==>
              RemainderBlocks(bs, o, rem).Success? && RemainderOk(bs, o, rem, RemainderBlocks(bs, o, rem).value)
    ensures !RemainderFits(bs, rem) && RemainderBlocks(bs, o, rem).Success? ==>
              Overlapping(RemainderBlocks(bs, o, rem).value)
    decreases Depth(bs), |bs|, -1
  {
    hide RemainderOk, PointsOf, Points, Cycle, RemainderFits, RemainderBlocks, Overlapping;
    PointsOfLength(bs);
    SizePositive(bs[0].sub);
    DepthHead(bs);
    var b, size := bs[0], Size(bs[0].sub);
    assert Canonical(b.sub);
    PointsOfLength(b.sub.children);
    PointsLength(b.sub);
    Quotient(rem, size, b.count);
    CutCases(bs, o, rem);
    if rem % size == 0 {
      CopiesOnly(bs, o, rem / size);
      OneBlock(Block(b.start + o, rem / size, b.sub));
    } else {
      ReplicateSound(b.sub, rem % size);
      if Replicate(b.sub, rem % size).Success? {
        CutSubtree(bs, o, rem, Replicate(b.sub, rem % size).value);
      }
    }
  }

  lemma PointsLength(t: Tree)
    ensures |Points(t)| == Size(t)
  {
    PointsOfLength(t.children);
  }

  /** One unfolding of the remainder when it ends in the first block. */
  lemma CutCases(bs: seq<Block>, o: int, rem: nat)
    requires Ordered(bs) && CanonicalSubs(bs) && bs != [] && Size(bs[0].sub) > 0 && Canonical(bs[0].sub)
    requires 0 < rem < bs[0].count * Size(bs[0].sub)
    ensures var b, size := bs[0], Size(bs[0].sub);
            var whole := Block(b.start + o, rem / size, b.sub);
            if rem % size == 0 then
              RemainderFits(bs, rem) && (size <= rem ==> RemainderBlocks(bs, o, rem) == Success([whole]))
            else
              && (RemainderFits(bs, rem) <==> rem < size && Replicable(b.sub, rem))
              && RemainderBlocks(bs, o, rem)
              == match Replicate(b.sub, rem % size)
                 case Failure(e) => Failure(e)
                 case Success(t) =>
                   var last := Block(b.start + o, 1, t);
                   Success(if size <= rem then [whole] + [last] else [last])
  {
    hide Replicate, Replicable, Canonical, Size;
    forall b: Block ensures [] + [b] == [b] {
    }
  }

  /** The two ways a remainder cuts a subtree: right away, or after whole copies of it. */
  lemma CutSubtree(bs: seq<Block>, o: int, rem: nat, t: Tree)
    requires Ordered(bs) && CanonicalSubs(bs) && bs != [] && Canonical(t) && Points(bs[0].sub) != []
    requires rem <= |PointsOf(bs)| && |Points(bs[0].sub)| == Size(bs[0].sub)
    requires 0 < rem < bs[0].count * Size(bs[0].sub) && rem % Size(bs[0].sub) != 0
    requires bs[0].sub != EMPTY
    requires PointsOf(t.children)
          == Cycle(Points(bs[0].sub), MaxEnd(bs[0].sub.children), rem % Size(bs[0].sub))
    ensures var b, size := bs[0], Size(bs[0].sub);
            var last := Block(b.start + o, 1, t);
            && CanonicalSubs([last]) && CanonicalSubs([Block(b.start + o, rem / size, b.sub)] + [last])
            && if rem < size then RemainderOk(bs, o, rem, [last])
               else Overlapping([Block(b.start + o, rem / size, b.sub)] + [last])
  {
    hide RemainderOk, PointsOf, Points, Cycle, Overlapping, Size, Coalesced, Ordered;
    var b, size := bs[0], Size(bs[0].sub);
    assert Canonical(b.sub);
    Quotient(rem, size, b.count);
    var whole, last := Block(b.start + o, rem / size, b.sub), Block(b.start + o, 1, t);
    OneBlock(last);
    OneBlock(Block(b.start + o, 1, b.sub));
    assert CanonicalSubs([whole]) by { assert [whole][1..] == []; }
    SubsAppend([whole], [last]);
    if size <= rem {
      SameStartOverlaps(whole, last);
      assert [whole] + [last] == [whole, last];
    } else {
      CycleShort(Points(b.sub), MaxEnd(b.sub.children), rem);
      PrefixOnly(bs, o, rem, t);
    }
  }

  /**
   The pattern constructor succeeds exactly on replicable arguments, and then denotes the first num
   points of the periodic extension of the pattern.
   */
  lemma {:induction false} ReplicateSound(pattern: Tree, num: nat)
    requires Canonical(pattern)
    ensures Replicate(pattern, num).Success? <==> Replicable(pattern, num)
    ensures Replicate(pattern, num).Success? ==>
              var t := Replicate(pattern, num).value;
              && Canonical(t) && pattern != EMPTY
              && Points(pattern) != []
              && PointsOf(t.children) == Cycle(Points(pattern), MaxEnd(pattern.children), num)
    decreases Depth(pattern.children), |pattern.children|, 1
  {
    hide Cycle, PointsOf, Compact, Coalesced, CopyBlocks, RemainderBlocks, RemainderFits, RemainderOk, Within,
         Overlapping, CanonicalSubs;
    if pattern != EMPTY && MinStart(pattern.children) == 0 {
      var bs := pattern.children;
      SizePositive(pattern);
      PointsOfLength(bs);
      var n, stride := Size(pattern), MaxEnd(bs);
      var rep, rem := num / n, num % n;
      RangeOfOrdered(bs);
      OrderedWithin(bs, 0);
      CopiesWithin(bs, stride, rep);
      RemainderSound(bs, rep * stride, rem);
      if RemainderBlocks(bs, rep * stride, rem).Success? {
        var copies, rb := CopyBlocks(bs, stride, rep), RemainderBlocks(bs, rep * stride, rem).value;
        SubsAppend(copies, rb);
        if RemainderFits(bs, rem) {
          ReplicaBlocks(bs, stride, num, copies, rb);
          CompactPoints(copies + rb);
        } else {
          OverlapAppend(copies, rb);
          CompactSound(copies + rb);
        }
      }
    }
  }

  /** The points (0, 0), (0, 1), (1, 0), (1, 1). */
  const PAIR := Tree([Block(0, 2, EMPTY)])
  const QUARTET := Tree([Block(0, 2, PAIR)])

  /** Three points of it end inside the second of two equal subtrees, and the constructor throws. */
  lemma CutBehindCopy()
    ensures Canonical(QUARTET) && MinStart(QUARTET.children) == 0
    ensures Replicate(QUARTET, 3).Failure?
  {
    QuartetSize();
    ReplicateSound(QUARTET, 3);
  }

  lemma QuartetSize()
    ensures Canonical(QUARTET) && MinStart(QUARTET.children) == 0
    ensures Size(QUARTET) == 4 && !Replicable(QUARTET, 3)
  {
    OneBlockTree(2, EMPTY);
    OneBlockTree(2, PAIR);
    SizePositive(PAIR);
    assert QUARTET.children[0].count * Size(PAIR) == 4;
    assert !RemainderFits(QUARTET.children, 3);
  }

  lemma OneBlockTree(n: nat, sub: Tree)
    requires n > 0 && Canonical(sub)
    ensures var t := Tree([Block(0, n, sub)]);
            Canonical(t) && MinStart(t.children) == 0 && Size(t) == n * Size(sub) && t != EMPTY
  {
    var bs := [Block(0, n, sub)];
    assert bs[1..] == [];
    OneBlock(bs[0]);
    assert Canonical(Tree(bs));
    assert MinStart(bs) == 0;
    assert SizeOf(bs) == n * Size(sub) + SizeOf(bs[1..]);
  }

  lemma ReplicaBlocks(bs: seq<Block>, stride: int, num: nat, copies: seq<Block>, rb: seq<Block>)
    requires Ordered(bs) && bs != [] && bs[0].start == 0 && PointsOf(bs) != []
    requires var rep, rem := num / |PointsOf(bs)|, num % |PointsOf(bs)|;
             && copies == CopyBlocks(bs, stride, rep) && rep * stride >= 0
             && Within(copies, 0, rep * stride)
             && RemainderOk(bs, rep * stride, rem, rb)
    ensures Ordered(copies + rb) && PointsOf(copies + rb) == Cycle(PointsOf(bs), stride, num)
  {
    hide Cycle, ShiftAll, PointsOf, Copies, CopyBlocks;
    var rep, rem := num / |PointsOf(bs)|, num % |PointsOf(bs)|;
    ReplicaOrdered(copies, rb, rep * stride);
    PointsOfAppend(copies, rb);
    CopyBlocksPoints(bs, stride, rep);
    CycleIsCopies(PointsOf(bs), stride, num);
    TakeShift(PointsOf(bs), rep * stride, rem);
  }

  lemma ReplicaOrdered(copies: seq<Block>, rb: seq<Block>, mid: int)
    requires mid >= 0 && Within(copies, 0, mid) && Ordered(rb) && (rb != [] ==> rb[0].start == mid)
    ensures Ordered(copies + rb)
  {
    if rb != [] {
      OrderedWithin(rb, mid);
      RangeOfOrdered(rb);
      WithinAppend(copies, rb, 0, mid, MaxEnd(rb));
      WithinOrdered(copies + rb, 0, MaxEnd(rb));
    } else {
      assert copies + rb == copies;
      WithinOrdered(copies, 0, mid);
    }
  }

  // ----- the loops of the original -----

  /** What the loop has yet to emit; `cut` when whole copies of the current block are already out. */
  ghost function Pending(bs: seq<Block>, o: int, rem: nat, cut: bool): Result<seq<Block>, ReplicateError>
    requires Ordered(bs) && CanonicalSubs(bs) && (cut ==> bs != [])
  {
    if cut && rem > 0 then
      match Replicate(bs[0].sub, rem)
      case Success(t) => Success([Block(bs[0].start + o, 1, t)])
      case Failure(e) => Failure(e)
    else RemainderBlocks(bs, o, rem)
  }

  lemma PendingWhole(bs: seq<Block>, o: int, rem: nat, ch: seq<Block>)
    requires Ordered(bs) && CanonicalSubs(bs) && bs != [] && rem > 0
    requires bs[0].count * Size(bs[0].sub) <= rem
    ensures Then(ch, Pending(bs, o, rem, false))
         == Then(ch + [Block(bs[0].start + o, bs[0].count, bs[0].sub)],
                 Pending(bs[1..], o, rem - bs[0].count * Size(bs[0].sub), false))
  {
    var b := Block(bs[0].start + o, bs[0].count, bs[0].sub);
    var r := RemainderBlocks(bs[1..], o, rem - bs[0].count * Size(bs[0].sub));
    if r.Success? { Assoc(ch, [b], r.value); }
  }

  lemma PendingCut(bs: seq<Block>, o: int, rem: nat, ch: seq<Block>)
    requires Ordered(bs) && CanonicalSubs(bs) && bs != [] && Size(bs[0].sub) > 0
    requires Size(bs[0].sub) <= rem < bs[0].count * Size(bs[0].sub)
    ensures (var size := Size(bs[0].sub);
             Then(ch, Pending(bs, o, rem, false))
             == Then(ch + [Block(bs[0].start + o, rem / size, bs[0].sub)],
                     Pending(bs, o, rem % size, rem % size > 0)))
  {
    hide Replicate, Size;
    assert Canonical(bs[0].sub);
    CutCases(bs, o, rem);
    var size := Size(bs[0].sub);
    var whole := Block(bs[0].start + o, rem / size, bs[0].sub);
    if rem % size == 0 {
      assert RemainderBlocks(bs, o, 0) == Success([]);
      assert ch + [whole] == (ch + [whole]) + [];
    } else {
      match Replicate(bs[0].sub, rem % size)
      case Failure(_) =>
      case Success(t) => Assoc(ch, [whole], [Block(bs[0].start + o, 1, t)]);
    }
  }

  lemma PendingNone(bs: seq<Block>, o: int, rem: nat, ch: seq<Block>)
    requires Ordered(bs) && CanonicalSubs(bs)
    ensures Pending(bs, o, rem, false) == RemainderBlocks(bs, o, rem)
    ensures rem == 0 || bs == [] ==> Then(ch, Pending(bs, o, rem, false)) == Success(ch)
  {
    assert ch + [] == ch;
  }

  lemma PendingSubtree(bs: seq<Block>, o: int, rem: nat, cut: bool, ch: seq<Block>)
    requires Ordered(bs) && CanonicalSubs(bs) && bs != [] && Canonical(bs[0].sub)
    requires 0 < rem < Size(bs[0].sub)
    ensures Depth(bs[0].sub.children) < Depth(bs)
    ensures Then(ch, Pending(bs, o, rem, cut))
         == match Replicate(bs[0].sub, rem)
            case Success(t) => Success(ch + [Block(bs[0].start + o, 1, t)])
            case Failure(e) => Failure(e)
  {
    hide Replicate, Size;
    DepthHead(bs);
    MulAtLeast(bs[0].count, Size(bs[0].sub));
    Quotient(rem, Size(bs[0].sub), bs[0].count);
    CutCases(bs, o, rem);
  }

  lemma SameCoverMake(xs: seq<Block>, ys: seq<Block>)
    requires SameCover(xs, ys) && CanonicalSubs(xs) && CanonicalSubs(ys)
    ensures Make(xs) == Make(ys)
  {
    hide Compact, Overlapping, CanonicalSubs, Cover;
    CompactSound(xs);
    CompactSound(ys);
    SameCoverOverlapping(xs, ys);
    if Compact(xs).Success? {
      var a, b := Compact(xs).value, Compact(ys).value;
      forall x ensures Lookup(a, x) == Lookup(b, x) {
        if Lookup(a, x).Some? { assert Lookup(a, x).value in Cover(ys, x); }
        if Lookup(b, x).Some? { assert Lookup(b, x).value in Cover(xs, x); }
      }
      LookupDetermines(a, b);
    } else {
      assert Compact(xs).error == OverlappingBlocks == Compact(ys).error;
    }
  }

  /** Copies of a single block that fills its stride are one long block. */
  lemma {:induction false} SingleBlockCopies(b: Block, rep: nat, x: int)
    requires b.start == 0 && b.count > 0
    ensures Cover(CopyBlocks([b], b.count, rep), x) == Cover([Block(0, rep * b.count, b.sub)], x)
  {
    hide Cover, CopyBlocks, ShiftBlocks;
    OneCover(Block(0, rep * b.count, b.sub), x);
    if rep > 0 {
      var o := (rep - 1) * b.count;
      MulAtLeast(rep, b.count);
      MoreCopies([b], b.count, rep - 1);
      SingleBlockCopies(b, rep - 1, x);
      CoverAppend(CopyBlocks([b], b.count, rep - 1), ShiftBlocks([b], o), x);
      ShiftOne(b, o);
      OneCover(Block(o, b.count, b.sub), x);
      OneCover(Block(0, o, b.sub), x);
    } else {
      NoCopies([b], b.count);
      NoCover(x);
    }
  }

  lemma ShiftOne(b: Block, o: int)
    requires b.start == 0
    ensures ShiftBlocks([b], o) == [Block(o, b.count, b.sub)]
  {
  }

  lemma NoCover(x: int)
    ensures Cover([], x) == multiset{}
  {
  }

  lemma OneCover(b: Block, x: int)
    ensures Cover([b], x) == if b.Covers(x) then multiset{b.sub} else multiset{}
  {
    assert [b][1..] == [];
  }

  lemma SingleBlockMake(b: Block, rep: nat, rb: seq<Block>)
    requires b.start == 0 && b.count > 0 && Canonical(b.sub) && CanonicalSubs(rb)
    ensures Make([Block(0, rep * b.count, b.sub)] + rb) == Make(CopyBlocks([b], b.count, rep) + rb)
  {
    var xs, ys := [Block(0, rep * b.count, b.sub)], CopyBlocks([b], b.count, rep);
    forall x ensures Cover(xs + rb, x) == Cover(ys + rb, x) {
      SingleBlockCopies(b, rep, x);
      CoverAppend(xs, rb, x);
      CoverAppend(ys, rb, x);
    }
    OneBlock(b);
    OrderedWithin([b], 0);
    CopiesWithin([b], b.count, rep);
    assert CanonicalSubs(xs) by { assert xs[1..] == []; }
    SubsAppend(xs, rb);
    SubsAppend(ys, rb);
    SameCoverMake(xs + rb, ys + rb);
  }

  lemma QuotientIff(k: nat, n: nat, c: int)
    requires 0 < n
    ensures k / n < c <==> k < c * n
    ensures k - (k / n) * n == k % n
    ensures n <= k ==> k / n > 0
    ensures k / n >= c ==> c * n <= k
  {
    if k < c * n { Quotient(k, n, c); }
    MulAtLeast(k / n - c, n);
    assert (k / n - c) * n == (k / n) * n - c * n;
    if k / n >= c { Monotone(c, k / n, n); }
    MulAtLeast(k / n, n);
  }

  lemma Monotone(a: int, b: int, n: nat)
    requires a <= b
    ensures a * n <= b * n
  {
  }

  method ReplicatePattern(pattern: Tree, num: nat) returns (r: Result<Tree, ReplicateError>)
    requires Canonical(pattern)
    ensures r == Replicate(pattern, num)
    decreases Depth(pattern.children), 1
  {
    hide Size, RemainderBlocks, Ordered, CanonicalSubs, Coalesced, Compact, CopyBlocks, MinStart, MaxEnd;
    if pattern == EMPTY || MinStart(pattern.children) != 0 { return Failure(PatternNotAtZero); }
    SizePositive(pattern);
    var bs := pattern.children;
    var n, stride := Size(pattern), MaxEnd(bs);
    var rep, rem := num / n, num % n;
    var ch: seq<Block>, offset := [], 0;
    if |bs| == 1 {
      var Block(i, _, t) := bs[0];
      offset := offset + rep * stride;
      ch := ch + [Block(i, offset, t)];
    } else {
      var k := 0;
      NoCopies(bs, stride);
      while k < rep
        invariant k <= rep && offset == k * stride
        invariant ch == CopyBlocks(bs, stride, k)
      {
        MoreCopies(bs, stride, k);
        ch := ch + ShiftBlocks(bs, offset);
        offset := offset + stride;
        k := k + 1;
      }
    }
    var added := AddRemainder(bs, offset, rem, ch);
    if added.Failure? { return Failure(added.error); }
    SingleOrMany(pattern, rep, ch, RemainderBlocks(bs, offset, rem), rem);
    var made := NewTree(added.value);
    match made
    case Success(t) => r := Success(t);
    case Failure(e) => r := Failure(BlocksRejected(e));
  }

  lemma NoCopies(bs: seq<Block>, stride: int)
    ensures CopyBlocks(bs, stride, 0) == []
  {
  }

  lemma MoreCopies(bs: seq<Block>, stride: int, k: nat)
    ensures CopyBlocks(bs, stride, k + 1) == CopyBlocks(bs, stride, k) + ShiftBlocks(bs, k * stride)
    ensures (k + 1) * stride == k * stride + stride
  {
  }

  lemma SingleOrMany(pattern: Tree, rep: nat, ch: seq<Block>, rb: Result<seq<Block>, ReplicateError>, rem: nat)
    requires Canonical(pattern) && pattern != EMPTY && MinStart(pattern.children) == 0 && rem < Size(pattern)
    requires var bs, stride := pattern.children, MaxEnd(pattern.children);
             && rb == RemainderBlocks(bs, rep * stride, rem) && rb.Success?
             && ch == if |bs| == 1 then [Block(bs[0].start, rep * stride, bs[0].sub)] else CopyBlocks(bs, stride, rep)
    ensures Make(ch + rb.value) == Make(CopyBlocks(pattern.children, MaxEnd(pattern.children), rep) + rb.value)
  {
    hide RemainderBlocks, CopyBlocks, Make;
    RemainderSound(pattern.children, rep * MaxEnd(pattern.children), rem);
    if |pattern.children| == 1 {
      assert pattern.children == [pattern.children[0]];
      SingleBlockMake(pattern.children[0], rep, rb.value);
    }
  }

  method AddRemainder(bs: seq<Block>, offset: int, num: nat, before: seq<Block>)
    returns (r: Result<seq<Block>, ReplicateError>)
    requires Ordered(bs) && CanonicalSubs(bs)
    ensures r == Then(before, RemainderBlocks(bs, offset, num))
    decreases Depth(bs), 0
  {
    hide Pending, RemainderBlocks, Replicate, Size, Depth;
    var rem: nat;
    var ch, rch;
    ch, rem, rch := before, num, 0;
    ghost var cut := false;
    ghost var all := Then(before, RemainderBlocks(bs, offset, num));
    assert bs[0..] == bs;
    PendingNone(bs, offset, num, ch);
    while rem > 0 && rch != |bs|
      invariant rch <= |bs| && Ordered(bs[rch..]) && CanonicalSubs(bs[rch..])
      invariant cut ==> rch < |bs| && 0 < rem < Size(bs[rch].sub)
      invariant Then(ch, Pending(bs[rch..], offset, rem, cut)) == all
      decreases |bs| - rch, rem
    {
      ghost var rest := bs[rch..];
      assert rest[0] == bs[rch] && rest[1..] == bs[rch + 1..];
      SizePositive(rest[0].sub);
      DepthMember(bs, rch);
      var Block(i, n, t) := bs[rch];
      var tsz := Size(t);
      if rem >= tsz {
        QuotientIff(rem, tsz, n);
        var nt := if rem / tsz < n then rem / tsz else n;
        if nt == n {
          PendingWhole(rest, offset, rem, ch);
        } else {
          PendingCut(rest, offset, rem, ch);
          cut := rem % tsz > 0;
        }
        ch := ch + [Block(i + offset, nt, t)];
        rem := rem - nt * tsz;
        if nt == n { rch := rch + 1; }
      } else {
        PendingSubtree(rest, offset, rem, cut, ch);
        cut := false;
        var pt := ReplicatePattern(t, rem);
        if pt.Failure? { return Failure(pt.error); }
        rem := 0;
        ch := ch + [Block(i + offset, 1, pt.value)];
        PendingNone(rest, offset, 0, ch);
      }
    }
    PendingNone(bs[rch..], offset, rem, ch);
    r := Success(ch);
  }
}

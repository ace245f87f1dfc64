/** `envelope`, `extend_envelope` and `is_array` of hyperion/IndexTree.h. */
module Envelopes {
  import opened IndexTrees
  import opened BlockLists
  import opened Enumeration
  import opened TreeIndexSpace

  function Hull(a: Interval, b: Interval): Interval {
    Interval(IndexTrees.Min(a.lo, b.lo), if a.hi > b.hi then a.hi else b.hi)
  }

  /** The hull level by level; missing levels do not count. */
  function Combine(a: Box, b: Box): Box {
    if a == [] then b else if b == [] then a else [Hull(a[0], b[0])] + Combine(a[1..], b[1..])
  }

  lemma {:induction false} CombineAt(a: Box, b: Box, k: nat)
    ensures |Combine(a, b)| == Max(|a|, |b|)
    ensures k < |Combine(a, b)| ==>
              Combine(a, b)[k] == if k >= |b| then a[k] else if k >= |a| then b[k] else Hull(a[k], b[k])
  {
    if a != [] && b != [] {
      CombineAt(a[1..], b[1..], if k > 0 then k - 1 else 0);
    }
  }

  lemma CombineAssociative(a: Box, b: Box, c: Box)
    ensures Combine(Combine(a, b), c) == Combine(a, Combine(b, c))
  {
    var l, r := Combine(Combine(a, b), c), Combine(a, Combine(b, c));
    CombineAt(Combine(a, b), c, 0);
    CombineAt(a, Combine(b, c), 0);
    CombineAt(a, b, 0);
    CombineAt(b, c, 0);
    forall k | 0 <= k < |l| ensures l[k] == r[k] {
      CombineAt(Combine(a, b), c, k);
      CombineAt(a, Combine(b, c), k);
      CombineAt(a, b, k);
      CombineAt(b, c, k);
    }
  }

  // ----- the envelope of a tree -----

  function EnvelopeOf(bs: seq<Block>): Box
    decreases Depth(bs), |bs|
  {
    if bs == [] then []
    else
      DepthHead(bs);
      Combine([Extent(bs[0])] + EnvelopeOf(bs[0].sub.children), EnvelopeOf(bs[1..]))
  }

  function Envelope(t: Tree): Box { EnvelopeOf(t.children) }

  function BlockEnvelope(b: Block): Box { [Extent(b)] + EnvelopeOf(b.sub.children) }

  lemma EnvelopeStep(bs: seq<Block>)
    requires bs != []
    ensures EnvelopeOf(bs) == Combine(BlockEnvelope(bs[0]), EnvelopeOf(bs[1..]))
  {
    DepthHead(bs);
  }

  lemma {:induction false} EnvelopeDepth(bs: seq<Block>)
    ensures |EnvelopeOf(bs)| == Depth(bs)
    decreases Depth(bs), |bs|
  {
    if bs != [] {
      DepthHead(bs);
      EnvelopeDepth(bs[0].sub.children);
      EnvelopeDepth(bs[1..]);
      EnvelopeStep(bs);
      CombineAt(BlockEnvelope(bs[0]), EnvelopeOf(bs[1..]), 0);
      assert BlockDepth(bs[0]) == 1 + Depth(bs[0].sub.children);
    }
  }

  /** q is a tuple below the blocks bs. */
  ghost predicate Below(bs: seq<Block>, q: Point) {
    q != [] && Lookup(bs, q[0]).Some? && Has(Lookup(bs, q[0]).value, q[1..])
  }

  lemma BelowStep(bs: seq<Block>, q: Point)
    requires Ordered(bs) && bs != []
    ensures Below(bs, q) <==> Below([bs[0]], q) || Below(bs[1..], q)
    ensures Below([bs[0]], q) <==> q != [] && bs[0].Covers(q[0]) && Has(bs[0].sub, q[1..])
  {
    if q != [] {
      LookupOne(bs[0], q[0]);
      if bs[0].Covers(q[0]) { LookupBelow(bs[1..], q[0]); }
    }
  }

  /** No coordinate of a point leaves the envelope. */
  lemma {:induction false} EnvelopeBounds(bs: seq<Block>, q: Point, k: nat)
    requires Ordered(bs) && CanonicalSubs(bs) && Below(bs, q) && k < |q|
    ensures k < |EnvelopeOf(bs)| && EnvelopeOf(bs)[k].lo <= q[k] <= EnvelopeOf(bs)[k].hi
    decreases Depth(bs), |bs|
  {
    hide EnvelopeOf, Combine, Has, Lookup, Below;
    BelowSomething(bs, q);
    DepthHead(bs);
    EnvelopeStep(bs);
    BelowStep(bs, q);
    CombineAt(BlockEnvelope(bs[0]), EnvelopeOf(bs[1..]), k);
    FirstCanonical(bs);
    if Below(bs[1..], q) {
      EnvelopeBounds(bs[1..], q, k);
    } else if k > 0 {
      HasBelow(bs[0].sub, q[1..]);
      EnvelopeBounds(bs[0].sub.children, q[1..], k - 1);
    }
  }

  lemma BelowSomething(bs: seq<Block>, q: Point)
    requires Below(bs, q)
    ensures bs != [] && q != []
  {
  }

  lemma FirstCanonical(bs: seq<Block>)
    requires CanonicalSubs(bs) && bs != []
    ensures Canonical(bs[0].sub) && Ordered(bs[0].sub.children) && CanonicalSubs(bs[0].sub.children)
  {
  }

  lemma HasBelow(t: Tree, q: Point)
    requires Has(t, q) && q != []
    ensures Below(t.children, q)
  {
  }

  /** Some point attains the bound `b`, lower or upper, of a level. */
  lemma {:induction false} EnvelopeAttained(bs: seq<Block>, k: nat, upper: bool) returns (q: Point)
    requires Ordered(bs) && CanonicalSubs(bs) && k < |EnvelopeOf(bs)|
    ensures Below(bs, q) && k < |q| && q[k] == if upper then EnvelopeOf(bs)[k].hi else EnvelopeOf(bs)[k].lo
    decreases Depth(bs), |bs|
  {
    DepthHead(bs);
    EnvelopeStep(bs);
    var own, rest := BlockEnvelope(bs[0]), EnvelopeOf(bs[1..]);
    CombineAt(own, rest, k);
    assert Canonical(bs[0].sub);
    var b := EnvelopeOf(bs)[k];
    if k < |own| && (if upper then own[k].hi == b.hi else own[k].lo == b.lo) {
      if k == 0 {
        var p := SomePoint(bs[0].sub);
        q := [if upper then own[0].hi else own[0].lo] + p;
      } else {
        var p := EnvelopeAttained(bs[0].sub.children, k - 1, upper);
        q := [bs[0].start] + p;
        assert Has(bs[0].sub, p);
      }
    } else {
      q := EnvelopeAttained(bs[1..], k, upper);
    }
    BelowStep(bs, q);
  }

  /**
   Per level the envelope is the tightest interval: all points that reach the level lie inside, and both
   ends are attained.  There are as many levels as the longest point has coordinates.
   */
  lemma EnvelopeTight(t: Tree, k: nat)
    requires Canonical(t)
    ensures |Envelope(t)| == Depth(t.children)
    ensures forall p | Has(t, p) && k < |p| :: k < |Envelope(t)| && Envelope(t)[k].lo <= p[k] <= Envelope(t)[k].hi
    ensures k < |Envelope(t)| ==> exists p :: Has(t, p) && k < |p| && p[k] == Envelope(t)[k].lo
    ensures k < |Envelope(t)| ==> exists p :: Has(t, p) && k < |p| && p[k] == Envelope(t)[k].hi
  {
    EnvelopeDepth(t.children);
    forall p | Has(t, p) && k < |p|
      ensures k < |Envelope(t)| && Envelope(t)[k].lo <= p[k] <= Envelope(t)[k].hi
    {
      assert Below(t.children, p);
      EnvelopeBounds(t.children, p, k);
    }
    if k < |Envelope(t)| {
      var p := EnvelopeAttained(t.children, k, false);
      var q := EnvelopeAttained(t.children, k, true);
      assert Has(t, p) && Has(t, q);
    }
  }

  // ----- is_array -----

  /** A canonical tree is an array when every level has one block. */
  predicate IsArray(t: Tree)
    decreases Depth(t.children)
  {
    |t.children| == 1
    && (t.children[0].sub == EMPTY || (DepthHead(t.children); IsArray(t.children[0].sub)))
  }

  ghost predicate FillsBox(t: Tree) {
    forall p :: Has(t, p) <==> InBox(p, Envelope(t))
  }

  lemma OneBlockEnvelope(b: Block)
    ensures EnvelopeOf([b]) == BlockEnvelope(b)
  {
    EnvelopeStep([b]);
    assert [b][1..] == [];
    CombineNone(BlockEnvelope(b));
  }

  lemma CombineNone(a: Box)
    ensures Combine(a, []) == a && EnvelopeOf([]) == []
  {
  }

  lemma {:induction false} ArrayFills(t: Tree, p: Point)
    requires Canonical(t) && IsArray(t)
    ensures Has(t, p) <==> InBox(p, Envelope(t))
    decreases Depth(t.children)
  {
    var b := t.children[0];
    DepthHead(t.children);
    assert t.children == [b];
    OneBlockEnvelope(b);
    BelowStep(t.children, p);
    assert Has(t, p) <==> Below(t.children, p);
    if p != [] {
      assert ([Extent(b)] + Envelope(b.sub))[1..] == Envelope(b.sub);
      if b.sub == EMPTY { assert Envelope(EMPTY) == []; } else { ArrayFills(b.sub, p[1..]); }
    }
  }

  lemma {:induction false} FillsIsArray(t: Tree)
    requires Canonical(t) && t != EMPTY && FillsBox(t)
    ensures IsArray(t)
    decreases Depth(t.children)
  {
    var b, e := t.children[0], Envelope(t);
    DepthHead(t.children);
    assert Canonical(b.sub);
    var q := SomePoint(b.sub);
    ConsHas(t, b.start, q);
    OneLevel(t, q);
    var one := Block(e[0].lo, e[0].hi - e[0].lo + 1, b.sub);
    var bs := [one];
    OneBlock(one);
    assert Ordered(bs) && Coalesced(bs) && CanonicalSubs(bs);
    assert Canonical(Tree(bs));
    EqualIffSamePoints(t, Tree(bs));
    OneBlockEnvelope(one);
    assert e == [Extent(one)] + Envelope(b.sub);
    assert e[1..] == Envelope(b.sub);
    if b.sub != EMPTY {
      forall p ensures Has(b.sub, p) <==> InBox(p, Envelope(b.sub)) {
        ConsHas(t, b.start, p);
        assert Has(t, [b.start] + p) <==> InBox([b.start] + p, e);
        assert ([b.start] + p)[1..] == p;
      }
      FillsIsArray(b.sub);
    }
  }

  /** All coordinates of the box carry the same points below them, so the tree has the points of one block. */
  lemma OneLevel(t: Tree, q: Point)
    requires Canonical(t) && t != EMPTY && FillsBox(t) && Has(t, [t.children[0].start] + q)
    ensures Envelope(t) != [] && Envelope(t)[0].lo <= Envelope(t)[0].hi
    ensures var b, e := t.children[0], Envelope(t);
            SamePoints(t, Tree([Block(e[0].lo, e[0].hi - e[0].lo + 1, b.sub)]))
  {
    var b, e := t.children[0], Envelope(t);
    var first := [b.start] + q;
    assert InBox(first, e);
    var one := Block(e[0].lo, e[0].hi - e[0].lo + 1, b.sub);
    forall p ensures Has(t, p) <==> Has(Tree([one]), p) {
      if p != [] {
        LookupOne(one, p[0]);
        var below := p[1..];
        ConsHas(t, b.start, below);
        assert Has(t, [b.start] + below) <==> InBox([b.start] + below, e);
        assert ([b.start] + below)[1..] == below;
        assert Has(t, p) <==> InBox(p, e);
      }
    }
  }

  /** `is_array` holds exactly for the trees, other than the empty one, whose points fill the box of their envelope. */
  lemma ArrayIffBox(t: Tree)
    requires Canonical(t)
    ensures IsArray(t) <==> t != EMPTY && FillsBox(t)
  {
    if IsArray(t) {
      forall p ensures Has(t, p) <==> InBox(p, Envelope(t)) {
        ArrayFills(t, p);
      }
    }
    if t != EMPTY && FillsBox(t) { FillsIsArray(t); }
  }

  // ----- the code -----

  lemma {:induction false} CoalescedAt(bs: seq<Block>, k: nat)
    requires Ordered(bs) && Coalesced(bs) && k + 1 < |bs|
    ensures bs[k].End() == bs[k + 1].start ==> bs[k].sub != bs[k + 1].sub
    ensures bs[k].count > 0
  {
    if k > 0 { CoalescedAt(bs[1..], k - 1); }
  }

  /** The loop of the original over all blocks. */
  method CheckArray(t: Tree) returns (r: bool)
    requires Canonical(t)
    ensures r == IsArray(t)
    decreases Depth(t.children)
  {
    if |t.children| == 0 { return false; }
    var i, t0 := t.children[0].start, t.children[0].sub;
    SubCanonical(t.children, 0);
    if t0 != EMPTY {
      var sub := CheckArray(t0);
      if !sub { return false; }
    }
    var prevEnd := i;
    var k := 0;
    while k < |t.children|
      invariant k <= |t.children|
      invariant prevEnd == if k == 0 then i else t.children[k - 1].End()
      invariant k > 0 ==> k == 1 && t.children[0].sub == t0
    {
      var Block(lo, n, s) := t.children[k];
      if k > 0 { CoalescedAt(t.children, k - 1); }
      if lo != prevEnd || s != t0 { return false; }
      prevEnd := lo + n;
      k := k + 1;
    }
    r := true;
  }

  /** `array_dims`: the blocks down the only path. */
  method ArrayShape(t: Tree) returns (result: Box)
    requires Canonical(t) && IsArray(t)
    ensures result == Envelope(t)
  {
    var b := t.children[0];
    assert t.children == [b];
    OneBlockEnvelope(b);
    result := [Interval(b.start, b.start + b.count - 1)];
    var s := b.sub;
    SubCanonical(t.children, 0);
    while s != EMPTY
      invariant Canonical(s) && (s != EMPTY ==> IsArray(s))
      invariant result + Envelope(s) == Envelope(t)
      decreases Depth(s.children)
    {
      var c := s.children[0];
      assert s.children == [c];
      OneBlockEnvelope(c);
      SubCanonical(s.children, 0);
      assert result + ([Extent(c)] + Envelope(c.sub)) == result + [Extent(c)] + Envelope(c.sub);
      result := result + [Interval(c.start, c.start + c.count - 1)];
      s := c.sub;
    }
    NoEnvelope();
    assert result + [] == result;
  }

  lemma NoEnvelope()
    ensures Envelope(EMPTY) == []
  {
  }

  /** The loops of `extend_envelope` over the levels below the first. */
  method ExtendEnvelope(tenv: Box, env: Box) returns (r: Box)
    requires env != []
    ensures r == [env[0]] + Combine(env[1..], tenv)
  {
    r := env;
    var k, j := 1, 0;
    while k < |env| && j < |tenv|
      invariant k == j + 1 && k <= |env| == |r| && j <= |tenv| && r[0] == env[0]
      invariant forall i | 1 <= i < k :: r[i] == Hull(env[i], tenv[i - 1])
      invariant r[k..] == env[k..]
    {
      r := r[k := Interval(IndexTrees.Min(r[k].lo, tenv[j].lo), if r[k].hi > tenv[j].hi then r[k].hi else tenv[j].hi)];
      k, j := k + 1, j + 1;
    }
    ghost var levels := k;
    while j < |tenv|
      invariant levels - 1 <= j <= |tenv| && |r| == |env| + j - (levels - 1)
      invariant r[0] == env[0]
      invariant forall i | 1 <= i < levels :: r[i] == Hull(env[i], tenv[i - 1])
      invariant forall i | levels <= i < |env| :: r[i] == env[i]
      invariant forall i | |env| <= i < |r| :: r[i] == tenv[i - 1]
    {
      r := r + [tenv[j]];
      j := j + 1;
    }
    ghost var want := [env[0]] + Combine(env[1..], tenv);
    CombineAt(env[1..], tenv, 0);
    forall i | 0 <= i < |r| ensures r[i] == want[i] {
      if i > 0 { CombineAt(env[1..], tenv, i - 1); }
    }
  }

  method ComputeEnvelope(t: Tree) returns (result: Box)
    requires Canonical(t)
    ensures result == Envelope(t)
    decreases Depth(t.children)
  {
    var isArray := CheckArray(t);
    if isArray {
      result := ArrayShape(t);
      return;
    }
    result := [];
    var k := 0;
    assert t.children[0..] == t.children;
    while k < |t.children|
      invariant k <= |t.children| && (k == 0 <==> result == [])
      invariant Combine(result, EnvelopeOf(t.children[k..])) == EnvelopeOf(t.children)
    {
      var b := t.children[k];
      SubCanonical(t.children, k);
      EnvelopeStep(t.children[k..]);
      assert t.children[k..][1..] == t.children[k + 1..];
      ghost var before := result;
      var hi := b.start + b.count - 1;
      // the original starts from the limits of the coordinate type, which the first block replaces
      if k == 0 {
        result := [Interval(b.start, hi)];
      } else {
        result := result[0 := Hull(result[0], Interval(b.start, hi))];
      }
      var tenv := ComputeEnvelope(b.sub);
      result := ExtendEnvelope(tenv, result);
      assert result == Combine(before, BlockEnvelope(b));
      CombineAssociative(before, BlockEnvelope(b), EnvelopeOf(t.children[k + 1..]));
      k := k + 1;
    }
    CombineNone(result);
  }
}

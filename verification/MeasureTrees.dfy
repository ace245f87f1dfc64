/**
 `measure_index_trees` and the tree construction of `create` in hyperion/MeasRef.cc: the index trees
 whose points are the array addresses of a sequence of measure references.
 */
module MeasureTrees {
  import opened Wrappers
  import opened IndexTrees
  import opened Compaction
  import opened Merging
  import opened Enumeration
  import opened RankExtension
  import opened Measures
  import opened BlockLists

  // ----- points up to padding -----

  /** p is a point of t filled up with zeros. */
  ghost predicate HasPadded(t: Tree, p: Point)
    decreases |p|
  {
    if t == EMPTY then AllZero(p)
    else p != [] && Lookup(t.children, p[0]).Some? && HasPadded(Lookup(t.children, p[0]).value, p[1..])
  }

  lemma {:induction false} PaddedPoint(t: Tree, q: Point, n: nat)
    requires Has(t, q) && |q| <= n
    ensures HasPadded(t, Pad(q, n))
    decreases |q|
  {
    if t == EMPTY {
      ZerosAllZero(Pad(q, n));
      assert Pad(q, n) == Zeros(n);
    } else {
      PaddedPoint(Lookup(t.children, q[0]).value, q[1..], n - 1);
      assert Pad(q, n)[1..] == Pad(q[1..], n - 1);
    }
  }

  lemma {:induction false} UnpaddedPoint(t: Tree, p: Point) returns (q: Point)
    requires HasPadded(t, p)
    ensures Has(t, q) && |q| <= |p| && p == Pad(q, |p|)
    decreases |p|
  {
    if t == EMPTY {
      ZerosAllZero(p);
      q := [];
      assert Pad(q, |p|) == Zeros(|p|);
    } else {
      var r := UnpaddedPoint(Lookup(t.children, p[0]).value, p[1..]);
      q := [p[0]] + r;
      ConsHas(t, p[0], r);
      assert Pad(q, |p|) == [p[0]] + Pad(r, |p| - 1);
    }
  }

  /** At uniform rank, padding to that rank adds nothing. */
  lemma UniformPadded(t: Tree, p: Point)
    requires Uniform(t, |p|)
    ensures HasPadded(t, p) <==> Has(t, p)
  {
    if Has(t, p) {
      PaddedPoint(t, p, |p|);
      assert Pad(p, |p|) == p;
    }
    if HasPadded(t, p) {
      var q := UnpaddedPoint(t, p);
      assert Pad(q, |p|) == q;
    }
  }

  lemma {:induction false} DeepPoint(t: Tree) returns (p: Point)
    requires Canonical(t)
    ensures Has(t, p) && |p| == Depth(t.children)
    decreases Depth(t.children), |t.children| + 1
  {
    if t == EMPTY {
      p := [];
    } else {
      p := DeepPointOf(t.children);
    }
  }

  lemma {:induction false} DeepPointOf(bs: seq<Block>) returns (p: Point)
    requires Ordered(bs) && CanonicalSubs(bs) && bs != []
    ensures p != [] && Lookup(bs, p[0]).Some? && Has(Lookup(bs, p[0]).value, p[1..])
    ensures |p| == Depth(bs)
    decreases Depth(bs), |bs|
  {
    DepthHead(bs);
    assert Depth(bs) == Max(BlockDepth(bs[0]), Depth(bs[1..]));
    assert BlockDepth(bs[0]) == 1 + Depth(bs[0].sub.children);
    if Depth(bs) == 1 + Depth(bs[0].sub.children) {
      var q := DeepPoint(bs[0].sub);
      p := [bs[0].start] + q;
    } else {
      assert |bs| > 1;
      p := DeepPointOf(bs[1..]);
      if bs[0].Covers(p[0]) { LookupBelow(bs[1..], p[0]); }
    }
  }

  lemma RankIsDepth(t: Tree)
    requires Canonical(t) && Rank(t).Some?
    ensures Rank(t).value == Depth(t.children) && Uniform(t, Depth(t.children))
  {
    RankIsUniform(t, Rank(t).value);
    var p := DeepPoint(t);
  }

  /** All points of t have at most n coordinates. */
  ghost predicate Shorter(t: Tree, n: nat) {
    forall p | Has(t, p) :: |p| <= n
  }

  /** `extend_index_ranks(t, t.height() + 1)` where t has no rank. */
  method WithRank(t: Tree) returns (r: Tree)
    requires Canonical(t) && t != EMPTY
    ensures Canonical(r) && r != EMPTY && Rank(r) == Some(Depth(t.children))
    ensures forall p | |p| >= Depth(t.children) :: HasPadded(r, p) <==> HasPadded(t, p)
  {
    if Rank(t).None? {
      HeightIsDepth(t);
      forall p | Has(t, p) ensures |p| <= Depth(t.children) {
        PointDepth(t, p);
      }
      r := Extended(t, Height(t) + 1);
    } else {
      RankIsDepth(t);
      r := t;
    }
  }

  method Extended(t: Tree, rank: nat) returns (r: Tree)
    requires Canonical(t) && t != EMPTY && Shorter(t, rank)
    ensures Canonical(r) && r != EMPTY && Rank(r) == Some(rank)
    ensures forall p | |p| >= rank :: HasPadded(r, p) <==> HasPadded(t, p)
    ensures forall p :: Has(r, p) <==> |p| == rank && HasPadded(t, p)
  {
    r := ExtendIndexRanks(t, rank);
    ExtendedPoints(t, rank, r);
  }

  lemma ExtendedPoints(t: Tree, rank: nat, r: Tree)
    requires Canonical(t) && t != EMPTY && Shorter(t, rank) && Canonical(r)
    requires forall p | p in Points(t) :: |p| <= rank
    requires Points(r) == PadAll(Points(t), rank) && Rank(r) == Some(rank)
    ensures r != EMPTY
    ensures forall p | |p| >= rank :: HasPadded(r, p) <==> HasPadded(t, p)
    ensures forall p :: Has(r, p) <==> |p| == rank && HasPadded(t, p)
  {
    RankIsUniform(r, rank);
    NonemptyPoints(t, rank);
    forall p ensures Has(r, p) <==> |p| == rank && HasPadded(t, p) {
      ExtendedPoint(t, rank, r, p);
    }
    forall p | |p| >= rank ensures HasPadded(r, p) <==> HasPadded(t, p) {
      if HasPadded(r, p) {
        var q := UnpaddedPoint(r, p);
        var q' := UnpaddedPoint(t, q);
        PaddedPoint(t, q', |p|);
        PadTwice(q', rank, |p|);
      }
      if HasPadded(t, p) {
        var q := UnpaddedPoint(t, p);
        PaddedPoint(t, q, rank);
        PaddedPoint(r, Pad(q, rank), |p|);
        PadTwice(q, rank, |p|);
      }
    }
  }

  lemma PadTwice(q: Point, m: nat, n: nat)
    requires |q| <= m <= n
    ensures Pad(Pad(q, m), n) == Pad(q, n)
  {
  }

  lemma ExtendedPoint(t: Tree, rank: nat, r: Tree, p: Point)
    requires Canonical(t) && t != EMPTY && Shorter(t, rank) && Canonical(r)
    requires forall p | p in Points(t) :: |p| <= rank
    requires Points(r) == PadAll(Points(t), rank) && Uniform(r, rank)
    ensures Has(r, p) <==> |p| == rank && HasPadded(t, p)
  {
    PointsEnumerate(t);
    PointsEnumerate(r);
    var ps := Points(t);
    if Has(r, p) {
      var i :| 0 <= i < |ps| && PadAll(ps, rank)[i] == p;
      assert Has(t, ps[i]);
      PaddedPoint(t, ps[i], rank);
    }
    if |p| == rank && HasPadded(t, p) {
      var q := UnpaddedPoint(t, p);
      var i :| 0 <= i < |ps| && ps[i] == q;
      assert PadAll(ps, rank)[i] == p;
    }
  }

  // ----- one tree from one block per component -----

  /** t has the subtree subs[c] below each c, and nothing else. */
  ghost predicate Assembled(t: Option<Tree>, subs: map<int, Tree>) {
    && (t.None? <==> subs.Keys == {})
    && (t.Some? ==>
          && Canonical(t.value) && t.value != EMPTY
          && forall x :: Lookup(t.value.children, x) == if x in subs then Some(subs[x]) else None)
  }

  lemma AddBlock(t: Tree, c: int, s: Tree, x: int)
    requires Canonical(t) && t != EMPTY && Canonical(s) && Lookup(t.children, c).None?
    ensures Canonical(Single(c, s)) && Canonical(Merge(t, Single(c, s))) && Merge(t, Single(c, s)) != EMPTY
    ensures Lookup(Merge(t, Single(c, s)).children, x) == if x == c then Some(s) else Lookup(t.children, x)
  {
    SingleCanonical(c, s);
    var u := Single(c, s);
    assert Lookup(u.children, c) == Some(s);
    var d := Max(Depth(t.children), Depth(u.children));
    SweepLookup(t.children, u.children, d, x);
    SweepLookup(t.children, u.children, d, c);
    CompactOrdered(SweepChildren(t, u));
    assert Lookup(Merge(t, u).children, c) == Some(s);
  }

  function Single(c: int, s: Tree): Tree { Tree([Block(c, 1, s)]) }

  lemma SingleCanonical(c: int, s: Tree)
    requires Canonical(s)
    ensures Canonical(Single(c, s))
    ensures forall x :: Lookup(Single(c, s).children, x) == if x == c then Some(s) else None
  {
    var bs := Single(c, s).children;
    assert bs[1..] == [];
    assert Ordered(bs) && Coalesced(bs) && CanonicalSubs(bs);
  }

  /** The merge step that is taken once for the metadata and once for the values. */
  method Assemble(result: Option<Tree>, c: int, s: Tree, ghost subs: map<int, Tree>) returns (r: Option<Tree>)
    requires Assembled(result, subs) && Canonical(s) && c !in subs
    ensures Assembled(r, subs[c := s])
  {
    MakeSingle(c, s);
    SingleCanonical(c, s);
    var made := NewTree([Block(c, 1, s)]);
    var md := made.value;
    if result.Some? {
      AddBlock(result.value, c, s, c);
      forall x ensures Lookup(Merge(result.value, md).children, x)
                    == if x in subs[c := s] then Some(subs[c := s][x]) else None {
        AddBlock(result.value, c, s, x);
      }
      var merged := MergedWith(result.value, md);
      r := Some(merged);
    } else {
      r := Some(md);
    }
  }

  // ----- what the trees of one reference have to be -----

  ghost predicate MetadataTree(t: Tree, r: Ref) {
    && Canonical(t) && t != EMPTY && Rank(t) == Some(Levels(r))
    && forall p | |p| >= Levels(r) :: HasPadded(t, p) <==> Address(r, p)
  }

  ghost predicate ValueTree(t: Tree, r: Ref, values: seq<Value>) {
    && Canonical(t) && t != EMPTY && Depth(t.children) <= Levels(r) + 1
    && forall p | |p| >= Levels(r) + 1 :: HasPadded(t, p) <==> ValueAddress(r, values, p)
  }

  ghost predicate MetadataSubs(subs: map<int, Tree>, r: Ref, done: set<int>) {
    && subs.Keys == done
    && forall c | c in subs ::
         if c == VALUE then subs[c] == EMPTY
         else Component(r, c).Some? && MetadataTree(subs[c], Component(r, c).value.ref)
  }

  ghost predicate ValueSubs(subs: map<int, Tree>, r: Ref, values: Option<seq<Value>>, done: set<int>) {
    && subs.Keys == (if values.None? then done - {VALUE} else done)
    && forall c | c in subs ::
         if c == VALUE then values.Some? && subs[c] == Tree([Block(0, |values.value|, EMPTY)])
         else Component(r, c).Some?
              && ValueTree(subs[c], Component(r, c).value.ref, Component(r, c).value.values)
  }

  /** All keys of the components map. */
  ghost predicate AllComponents(done: set<int>, r: Ref) {
    forall c :: c in done <==> c == VALUE || Component(r, c).Some?
  }

  lemma {:induction false} DeepestFrom(r: Ref, c: int) returns (d: int)
    ensures LevelsFrom(r, c) == 0 || (Component(r, d).Some? && Levels(Component(r, d).value.ref) == LevelsFrom(r, c))
    decreases NUM_COMPONENTS - c
  {
    d := c;
    if c < NUM_COMPONENTS {
      if Component(r, c).None? || Levels(Component(r, c).value.ref) < LevelsFrom(r, c) {
        d := DeepestFrom(r, c + 1);
      }
    }
  }

  lemma MetadataPadded(t: Tree, r: Ref, subs: map<int, Tree>, done: set<int>, p: Point)
    requires Assembled(Some(t), subs) && MetadataSubs(subs, r, done) && AllComponents(done, r)
    requires |p| >= Levels(r)
    ensures HasPadded(t, p) <==> Address(r, p)
  {
    var x := p[0];
    if Component(r, x).Some? {
      ComponentLevels(r, x);
      assert x in subs && MetadataTree(subs[x], Component(r, x).value.ref);
      assert HasPadded(subs[x], p[1..]) <==> Address(Component(r, x).value.ref, p[1..]);
    } else if x == VALUE {
      assert subs[x] == EMPTY;
    } else {
      assert x !in subs;
    }
  }

  lemma MetadataDepth(t: Tree, r: Ref, subs: map<int, Tree>, done: set<int>)
    requires Assembled(Some(t), subs) && MetadataSubs(subs, r, done) && AllComponents(done, r)
    ensures Depth(t.children) == Levels(r)
  {
    var p := DeepPoint(t);
    var c := p[0];
    if c != VALUE {
      ComponentLevels(r, c);
      RankIsUniform(subs[c], Levels(Component(r, c).value.ref));
    }
    var d := DeepestFrom(r, OFFSET);
    if Levels(r) == 1 { d := VALUE; }
    assert d in subs && Lookup(t.children, d) == Some(subs[d]);
    if d != VALUE { RankIsUniform(subs[d], Levels(Component(r, d).value.ref)); }
    assert Canonical(subs[d]);
    var q := SomePoint(subs[d]);
    ConsHas(t, d, q);
    PointDepth(t, [d] + q);
  }

  lemma RangePadded(n: nat, p: Point)
    requires n > 0
    ensures HasPadded(Tree([Block(0, n, EMPTY)]), p) <==> p != [] && 0 <= p[0] < n && AllZero(p[1..])
  {
    var bs := [Block(0, n, EMPTY)];
    assert bs[1..] == [];
    if p != [] { LookupOne(bs[0], p[0]); }
  }

  lemma ValuePadded(t: Tree, r: Ref, values: Option<seq<Value>>, subs: map<int, Tree>, done: set<int>, p: Point)
    requires Assembled(Some(t), subs) && ValueSubs(subs, r, values, done) && AllComponents(done, r)
    requires |p| >= Levels(r) + 1 && (values.Some? ==> values.value != [])
    ensures HasPadded(t, p) <==> ValueAddress(r, if values.Some? then values.value else [], p)
  {
    hide AllZero, Levels, Canonical, LevelsFrom;
    var x := p[0];
    assert HasPadded(t, p) <==> x in subs && HasPadded(subs[x], p[1..]);
    if Component(r, x).Some? {
      var m := Component(r, x).value;
      ComponentLevels(r, x);
      assert x in subs && ValueTree(subs[x], m.ref, m.values);
      assert HasPadded(subs[x], p[1..]) <==> ValueAddress(m.ref, m.values, p[1..]);
    } else if x == VALUE && values.Some? {
      RangePadded(|values.value|, p[1..]);
      if |p| > 1 { assert p[1..][1..] == p[2..]; }
    } else {
      assert x !in subs;
    }
  }

  lemma ValueDepth(t: Tree, r: Ref, values: Option<seq<Value>>, subs: map<int, Tree>, done: set<int>)
    requires Assembled(Some(t), subs) && ValueSubs(subs, r, values, done) && AllComponents(done, r)
    requires values.Some? ==> values.value != []
    ensures Depth(t.children) <= Levels(r) + 1
  {
    var p := DeepPoint(t);
    var c := p[0];
    if c == VALUE {
      RangeTree(|values.value|);
      PointDepth(subs[c], p[1..]);
    } else {
      ComponentLevels(r, c);
      PointDepth(subs[c], p[1..]);
    }
  }

  /** `IndexTree(n)` */
  lemma RangeTree(n: nat)
    requires n > 0
    ensures Make([Block(0, n, EMPTY)]) == Success(Tree([Block(0, n, EMPTY)]))
    ensures Canonical(Tree([Block(0, n, EMPTY)])) && Depth([Block(0, n, EMPTY)]) == 1
  {
    var bs := [Block(0, n, EMPTY)];
    assert bs[1..] == [] && Positive(bs) == bs + [];
    assert SortByStart(bs) == Insert(bs[0], []) == bs;
    assert Ordered(bs) && Coalesced(bs) && CanonicalSubs(bs);
    assert Depth(bs) == Max(BlockDepth(bs[0]), Depth(bs[1..]));
    assert BlockDepth(bs[0]) == 1;
  }

  datatype Argument = OfMeasure(measure: Measure) | OfRef(mrbase: Ref) {
    function Base(): Ref { match this case OfMeasure(m) => m.ref case OfRef(r) => r }

    function Values(): Option<seq<Value>> { match this case OfMeasure(m) => Some(m.values) case OfRef(_) => None }
  }

  datatype MeasureIndexTrees = MeasureIndexTrees(metadataTree: Option<Tree>, valueTree: Option<Tree>)

  method FindComponents(vm: Argument) returns (components: map<int, Option<Measure>>)
    ensures AllComponents(components.Keys, vm.Base())
    ensures forall c | c in components ::
              components[c] == if c != VALUE then Component(vm.Base(), c) else
                if vm.OfMeasure? then Some(vm.measure) else None
  {
    components := map[];
    var refBase := vm.Base();
    components := components[VALUE := if vm.OfMeasure? then Some(vm.measure) else None];
    if refBase.offset.Some? { components := components[OFFSET := refBase.offset]; }
    if refBase.epoch.Some? { components := components[EPOCH := refBase.epoch]; }
    if refBase.position.Some? { components := components[POSITION := refBase.position]; }
    if refBase.direction.Some? { components := components[DIRECTION := refBase.direction]; }
    if refBase.radialVelocity.Some? { components := components[RADIAL_VELOCITY := refBase.radialVelocity]; }
  }

  lemma Member(s: set<int>)
    ensures s == {} || exists c :: c in s
  {
    if !exists c :: c in s { assert s == {}; }
  }

  // ----- the steps of BuildMeasureIndexTrees -----

  lemma NoSubs(r: Ref, values: Option<seq<Value>>)
    ensures Assembled(None, map[]) && MetadataSubs(map[], r, {}) && ValueSubs(map[], r, values, {})
  {
  }

  lemma MetadataStep(subs: map<int, Tree>, r: Ref, done: set<int>, c: int, t: Tree)
    requires MetadataSubs(subs, r, done) && c !in done
    requires if c == VALUE then t == EMPTY else Component(r, c).Some? && MetadataTree(t, Component(r, c).value.ref)
    ensures MetadataSubs(subs[c := t], r, done + {c}) && c !in subs && Canonical(t)
  {
  }

  lemma ValueStep(subs: map<int, Tree>, r: Ref, values: Option<seq<Value>>, done: set<int>, c: int, t: Tree)
    requires ValueSubs(subs, r, values, done) && c !in done
    requires if c == VALUE then values.Some? && values.value != [] && t == Tree([Block(0, |values.value|, EMPTY)])
             else Component(r, c).Some? && ValueTree(t, Component(r, c).value.ref, Component(r, c).value.values)
    ensures ValueSubs(subs[c := t], r, values, done + {c}) && c !in subs && Canonical(t)
  {
    if c == VALUE { RangeTree(|values.value|); }
  }

  lemma ValueSkip(subs: map<int, Tree>, r: Ref, done: set<int>)
    requires ValueSubs(subs, r, None, done)
    ensures ValueSubs(subs, r, None, done + {VALUE})
  {
    assert done + {VALUE} - {VALUE} == done - {VALUE};
  }

  lemma MetadataDone(md: Option<Tree>, r: Ref, subs: map<int, Tree>, done: set<int>)
    requires Assembled(md, subs) && MetadataSubs(subs, r, done) && AllComponents(done, r)
    ensures md.Some? && Canonical(md.value) && md.value != EMPTY && Depth(md.value.children) == Levels(r)
    ensures forall p: Point | |p| >= Levels(r) :: HasPadded(md.value, p) <==> Address(r, p)
  {
    assert VALUE in subs;
    MetadataDepth(md.value, r, subs, done);
    forall p: Point | |p| >= Levels(r) ensures HasPadded(md.value, p) <==> Address(r, p) {
      MetadataPadded(md.value, r, subs, done, p);
    }
  }

  lemma ValueDone(vt: Option<Tree>, r: Ref, values: Option<seq<Value>>, subs: map<int, Tree>, done: set<int>)
    requires Assembled(vt, subs) && ValueSubs(subs, r, values, done) && AllComponents(done, r)
    requires values.Some? ==> values.value != []
    ensures vt.None? <==> values.None? && forall c :: Component(r, c).None?
    ensures vt.Some? ==> ValueTree(vt.value, r, if values.Some? then values.value else [])
  {
    assert values.Some? ==> VALUE in subs;
    if vt.Some? {
      ValueDepth(vt.value, r, values, subs, done);
      forall p: Point | |p| >= Levels(r) + 1
        ensures HasPadded(vt.value, p) <==> ValueAddress(r, if values.Some? then values.value else [], p)
      {
        ValuePadded(vt.value, r, values, subs, done, p);
      }
      Member(subs.Keys);
    } else if values.None? {
      forall c ensures Component(r, c).None? {
        assert c !in subs;
      }
    }
  }

  lemma ValueTreeRanked(t: Tree, v: Tree, r: Ref, values: seq<Value>)
    requires ValueTree(t, r, values)
    requires Canonical(v) && v != EMPTY && Rank(v) == Some(Depth(t.children))
    requires forall p | |p| >= Depth(t.children) :: HasPadded(v, p) <==> HasPadded(t, p)
    ensures ValueTree(v, r, values)
  {
    RankIsDepth(v);
  }

  /** The components come in any order. */
  method BuildMeasureIndexTrees(vm: Argument, klass: MClass) returns (result: MeasureIndexTrees)
    requires WellFormed(vm.Base(), klass) && (vm.OfMeasure? ==> vm.measure.values != [])
    ensures result.metadataTree.Some? && MetadataTree(result.metadataTree.value, vm.Base())
    ensures result.valueTree.None? <==> vm.OfRef? && forall c :: Component(vm.Base(), c).None?
    ensures result.valueTree.Some? ==>
              && Rank(result.valueTree.value).Some?
              && ValueTree(result.valueTree.value, vm.Base(), if vm.OfMeasure? then vm.measure.values else [])
    decreases vm.Base()
  {
    hide Assembled, MetadataSubs, ValueSubs, MetadataTree, ValueTree, WellFormed, Component, Canonical, HasPadded,
         Address, ValueAddress, Levels, Depth, Rank;
    ghost var r := vm.Base();
    var components := FindComponents(vm);
    var md: Option<Tree>, vt: Option<Tree> := None, None;
    ghost var mdSubs: map<int, Tree>, vtSubs: map<int, Tree> := map[], map[];
    ghost var done: set<int> := {};
    NoSubs(r, vm.Values());
    assert AllComponents(components.Keys, r);
    var todo: set<int> := components.Keys;
    while todo != {}
      invariant todo !! done && todo + done == components.Keys
      invariant Assembled(md, mdSubs) && MetadataSubs(mdSubs, r, done)
      invariant Assembled(vt, vtSubs) && ValueSubs(vtSubs, r, vm.Values(), done)
    {
      Member(todo);
      var c :| c in todo;
      var m := components[c];
      var ctrees;
      if c == VALUE {
        var v := None;
        if m.Some? {
          RangeTree(|m.value.values|);
          var made := NewTree([Block(0, |m.value.values|, EMPTY)]);
          v := Some(made.value);
        }
        ctrees := MeasureIndexTrees(Some(EMPTY), v);
      } else {
        WellFormedComponent(r, klass, c);
        ctrees := BuildMeasureIndexTrees(OfMeasure(m.value), m.value.klass);
      }
      if ctrees.metadataTree.Some? {
        MetadataStep(mdSubs, r, done, c, ctrees.metadataTree.value);
        md := Assemble(md, c, ctrees.metadataTree.value, mdSubs);
        mdSubs := mdSubs[c := ctrees.metadataTree.value];
      }
      if ctrees.valueTree.Some? {
        ValueStep(vtSubs, r, vm.Values(), done, c, ctrees.valueTree.value);
        vt := Assemble(vt, c, ctrees.valueTree.value, vtSubs);
        vtSubs := vtSubs[c := ctrees.valueTree.value];
      } else {
        ValueSkip(vtSubs, r, done);
      }
      todo := todo - {c};
      done := done + {c};
    }
    assert done == components.Keys;
    MetadataDone(md, r, mdSubs, done);
    ValueDone(vt, r, vm.Values(), vtSubs, done);
    var withRank := WithRank(md.value);
    RankedMetadata(md.value, withRank, r);
    md := Some(withRank);
    if vt.Some? {
      ValueTreeFacts(vt.value, r, if vm.OfMeasure? then vm.measure.values else []);
      var v := WithRank(vt.value);
      ValueTreeRanked(vt.value, v, r, if vm.OfMeasure? then vm.measure.values else []);
      vt := Some(v);
    }
    result := MeasureIndexTrees(md, vt);
  }

  lemma ValueTreeFacts(t: Tree, r: Ref, values: seq<Value>)
    requires ValueTree(t, r, values)
    ensures Canonical(t) && t != EMPTY
  {
  }

  lemma RankedMetadata(t: Tree, v: Tree, r: Ref)
    requires Canonical(v) && v != EMPTY && Rank(v) == Some(Levels(r)) && Depth(t.children) == Levels(r)
    requires forall p | |p| >= Depth(t.children) :: HasPadded(v, p) <==> HasPadded(t, p)
    requires forall p: Point | |p| >= Levels(r) :: HasPadded(t, p) <==> Address(r, p)
    ensures MetadataTree(v, r)
  {
  }
}

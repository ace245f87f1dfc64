/** The array domains that `create` of hyperion/MeasRef.cc makes for a list of measure references. */
module CreateTrees {
  import opened Wrappers
  import opened IndexTrees
  import opened Compaction
  import opened Enumeration
  import opened Measures
  import opened MeasureTrees

  datatype CreateError = NoCommonRank

  datatype Domains = Domains(metadata: Tree, values: Tree)

  // ----- the constructor from counts and subtrees -----

  function Running(ch: seq<(int, Tree)>, end: int): seq<Block> {
    if ch == [] then [] else [Block(end, ch[0].0, ch[0].1)] + Running(ch[1..], end + ch[0].0)
  }

  lemma Single(c: (int, Tree), end: int)
    ensures Running([c], end) == [Block(end, c.0, c.1)]
  {
    var bs := Running([c], end);
    assert [c][1..] == [];
  }

  function TotalCount(ch: seq<(int, Tree)>): int {
    if ch == [] then 0 else ch[0].0 + TotalCount(ch[1..])
  }

  lemma {:induction false} RunningAppend(ch: seq<(int, Tree)>, c: (int, Tree), end: int)
    ensures Running(ch + [c], end) == Running(ch, end) + [Block(end + TotalCount(ch), c.0, c.1)]
    ensures TotalCount(ch + [c]) == TotalCount(ch) + c.0
  {
    if ch == [] {
      assert ch + [c] == [c] && [c][1..] == [];
      Single(c, end);
    } else {
      RunningAppend(ch[1..], c, end + ch[0].0);
      assert (ch + [c])[1..] == ch[1..] + [c];
    }
  }

  method FromCounts(ch: seq<(int, Tree)>) returns (r: Result<Tree, CompactError>)
    ensures r == Make(Running(ch, 0))
  {
    var end := 0;
    var ch1: seq<Block> := [];
    var k := 0;
    while k < |ch|
      invariant k <= |ch|
      invariant ch1 == Running(ch[..k], 0) && end == TotalCount(ch[..k])
    {
      assert ch[..k + 1] == ch[..k] + [ch[k]];
      RunningAppend(ch[..k], ch[k], 0);
      var lastEnd := end;
      end := end + ch[k].0;
      ch1 := ch1 + [Block(lastEnd, ch[k].0, ch[k].1)];
      k := k + 1;
    }
    assert ch[..|ch|] == ch;
    r := NewTree(ch1);
  }

  // ----- one unit block per reference -----

  ghost predicate Units(ch: seq<(int, Tree)>) {
    forall c | c in ch :: c.0 == 1 && Canonical(c.1)
  }

  lemma {:induction false} RunningUnits(ch: seq<(int, Tree)>, end: int, x: int)
    requires Units(ch)
    ensures Ordered(Running(ch, end)) && CanonicalSubs(Running(ch, end))
    ensures ch != [] ==> Running(ch, end) != [] && Running(ch, end)[0].start == end
    ensures Lookup(Running(ch, end), x) == if end <= x < end + |ch| then Some(ch[x - end].1) else None
    decreases |ch|
  {
    if ch != [] {
      assert ch[0] in ch;
      RunningUnits(ch[1..], end + 1, x);
      assert Running(ch, end)[1..] == Running(ch[1..], end + 1);
    }
  }

  /** The tree made from one unit block per subtree has exactly these subtrees below 0, 1, 2, .... */
  lemma UnitTree(ch: seq<(int, Tree)>)
    requires Units(ch) && ch != []
    ensures Make(Running(ch, 0)).Success? && Canonical(Make(Running(ch, 0)).value)
    ensures Make(Running(ch, 0)).value != EMPTY
    ensures forall x :: Lookup(Make(Running(ch, 0)).value.children, x)
                     == if 0 <= x < |ch| then Some(ch[x].1) else None
  {
    var bs := Running(ch, 0);
    forall x ensures Lookup(bs, x) == if 0 <= x < |ch| then Some(ch[x].1) else None {
      RunningUnits(ch, 0, x);
    }
    RunningUnits(ch, 0, 0);
    CompactOrdered(bs);
    assert Lookup(Make(bs).value.children, 0).Some?;
  }

  // ----- the domains -----

  ghost predicate AllWellFormed(mrbs: seq<Ref>, klass: MClass) {
    forall r | r in mrbs :: WellFormed(r, klass)
  }

  ghost predicate SameLevels(mrbs: seq<Ref>) {
    forall i, j | 0 <= i < |mrbs| && 0 <= j < |mrbs| :: Levels(mrbs[i]) == Levels(mrbs[j])
  }

  ghost predicate NoComponents(r: Ref) {
    forall c :: Component(r, c).None?
  }

  ghost predicate MetadataPoint(mrbs: seq<Ref>, p: Point) {
    p != [] && 0 <= p[0] < |mrbs| && |p| == Levels(mrbs[p[0]]) + 1 && Address(mrbs[p[0]], p[1..])
  }

  /** A reference without components has no values; the tree then holds one unused point for it. */
  ghost predicate ValuePoint(mrbs: seq<Ref>, p: Point) {
    && p != [] && 0 <= p[0] < |mrbs| && |p| == Levels(mrbs[p[0]]) + 2
    && if NoComponents(mrbs[p[0]]) then AllZero(p[1..]) else ValueAddress(mrbs[p[0]], [], p[1..])
  }

  ghost predicate MetadataTrees(ch: seq<(int, Tree)>, mrbs: seq<Ref>) {
    && |ch| == |mrbs| && Units(ch)
    && forall i | 0 <= i < |ch| :: MetadataTree(ch[i].1, mrbs[i])
  }

  ghost predicate ValueTrees(ch: seq<(int, Tree)>, mrbs: seq<Ref>) {
    && |ch| == |mrbs| && Units(ch)
    && forall i | 0 <= i < |ch| ::
         if NoComponents(mrbs[i]) then ch[i].1 == EMPTY else ValueTree(ch[i].1, mrbs[i], [])
  }

  lemma MetadataPoints(ch: seq<(int, Tree)>, mrbs: seq<Ref>, t: Tree, p: Point)
    requires MetadataTrees(ch, mrbs) && t != EMPTY
    requires forall x :: Lookup(t.children, x) == if 0 <= x < |ch| then Some(ch[x].1) else None
    ensures Has(t, p) <==> MetadataPoint(mrbs, p)
  {
    hide Rank, Levels, Canonical, Address, MetadataTree;
    if p != [] && 0 <= p[0] < |mrbs| { MetadataDomainAt(ch[p[0]].1, mrbs[p[0]], p[1..]); }
  }

  lemma MetadataRank(ch: seq<(int, Tree)>, mrbs: seq<Ref>, t: Tree)
    requires MetadataTrees(ch, mrbs) && mrbs != [] && Canonical(t) && t != EMPTY
    requires forall x :: Lookup(t.children, x) == if 0 <= x < |ch| then Some(ch[x].1) else None
    requires forall p :: Has(t, p) <==> MetadataPoint(mrbs, p)
    ensures Rank(t) == if SameLevels(mrbs) then Some(Levels(mrbs[0]) + 1) else None
  {
    hide Rank, Levels, Canonical, Address, MetadataTrees, Has, Lookup;
    if SameLevels(mrbs) {
      forall p | Has(t, p) ensures |p| == Levels(mrbs[0]) + 1 {
        assert Levels(mrbs[p[0]]) == Levels(mrbs[0]);
      }
      RankIsUniform(t, Levels(mrbs[0]) + 1);
    } else if Rank(t).Some? {
      RankIsUniform(t, Rank(t).value);
      forall i, j | 0 <= i < |mrbs| && 0 <= j < |mrbs| ensures Levels(mrbs[i]) == Levels(mrbs[j]) {
        LevelsAt(ch, mrbs, t, i);
        LevelsAt(ch, mrbs, t, j);
      }
    }
  }

  lemma MetadataDomain(ch: seq<(int, Tree)>, mrbs: seq<Ref>, t: Tree)
    requires MetadataTrees(ch, mrbs) && mrbs != [] && Canonical(t) && t != EMPTY
    requires forall x :: Lookup(t.children, x) == if 0 <= x < |ch| then Some(ch[x].1) else None
    ensures Rank(t) == if SameLevels(mrbs) then Some(Levels(mrbs[0]) + 1) else None
    ensures forall p :: Has(t, p) <==> MetadataPoint(mrbs, p)
  {
    hide Rank, Levels, Canonical, MetadataTrees, Has, MetadataPoint;
    forall p ensures Has(t, p) <==> MetadataPoint(mrbs, p) {
      MetadataPoints(ch, mrbs, t, p);
    }
    MetadataRank(ch, mrbs, t);
  }

  lemma MetadataDomainAt(s: Tree, r: Ref, q: Point)
    requires MetadataTree(s, r)
    ensures Has(s, q) <==> |q| == Levels(r) && Address(r, q)
  {
    RankIsUniform(s, Levels(r));
    if |q| == Levels(r) { UniformPadded(s, q); }
  }

  lemma LevelsAt(ch: seq<(int, Tree)>, mrbs: seq<Ref>, t: Tree, i: nat)
    requires MetadataTrees(ch, mrbs) && i < |mrbs| && t != EMPTY
    requires forall x :: Lookup(t.children, x) == if 0 <= x < |ch| then Some(ch[x].1) else None
    requires Rank(t).Some? && Uniform(t, Rank(t).value)
    ensures Levels(mrbs[i]) + 1 == Rank(t).value
  {
    hide Rank, Levels, HasPadded, Address;
    assert MetadataTree(ch[i].1, mrbs[i]);
    RankIsUniform(ch[i].1, Levels(mrbs[i]));
    var q := SomePoint(ch[i].1);
    ConsHas(t, i, q);
    assert Has(t, [i] + q);
  }

  lemma ValueDomain(ch: seq<(int, Tree)>, mrbs: seq<Ref>, t: Tree)
    requires ValueTrees(ch, mrbs) && mrbs != [] && Canonical(t) && t != EMPTY && SameLevels(mrbs)
    requires forall x :: Lookup(t.children, x) == if 0 <= x < |ch| then Some(ch[x].1) else None
    ensures Shorter(t, Levels(mrbs[0]) + 2)
    ensures forall p | |p| == Levels(mrbs[0]) + 2 :: HasPadded(t, p) <==> ValuePoint(mrbs, p)
  {
    var n := Levels(mrbs[0]) + 2;
    forall p | Has(t, p) ensures |p| <= n {
      assert ch[p[0]] in ch;
      PointDepth(ch[p[0]].1, p[1..]);
      assert Levels(mrbs[p[0]]) == Levels(mrbs[0]);
    }
    forall p | |p| == n ensures HasPadded(t, p) <==> ValuePoint(mrbs, p) {
      if 0 <= p[0] < |mrbs| { assert Levels(mrbs[p[0]]) == Levels(mrbs[0]); }
    }
  }

  lemma NextTrees(mdV: seq<(int, Tree)>, valV: seq<(int, Tree)>, mrbs: seq<Ref>, k: nat, md: Tree, vt: Option<Tree>)
    requires k < |mrbs| && MetadataTrees(mdV, mrbs[..k]) && ValueTrees(valV, mrbs[..k])
    requires MetadataTree(md, mrbs[k])
    requires vt.None? <==> NoComponents(mrbs[k])
    requires vt.Some? ==> ValueTree(vt.value, mrbs[k], [])
    ensures MetadataTrees(mdV + [(1, md)], mrbs[..k + 1])
    ensures ValueTrees(valV + [(1, if vt.Some? then vt.value else EMPTY)], mrbs[..k + 1])
  {
    hide MetadataTree, ValueTree, NoComponents, Canonical;
    assert Canonical(md) by { MetadataFacts(md, mrbs[k]); }
    if vt.Some? { ValueTreeFacts(vt.value, mrbs[k], []); }
    EmptyCanonical();
    assert forall i | 0 <= i < k :: mrbs[..k + 1][i] == mrbs[..k][i];
  }

  lemma MetadataFacts(t: Tree, r: Ref)
    requires MetadataTree(t, r)
    ensures Canonical(t)
  {
  }

  lemma EmptyCanonical()
    ensures Canonical(EMPTY)
  {
  }

  lemma ValuesDone(mrbs: seq<Ref>, t: Tree, v: Tree)
    requires mrbs != [] && SameLevels(mrbs)
    requires forall p | |p| == Levels(mrbs[0]) + 2 :: HasPadded(t, p) <==> ValuePoint(mrbs, p)
    requires forall p :: Has(v, p) <==> |p| == Levels(mrbs[0]) + 2 && HasPadded(t, p)
    ensures forall p :: Has(v, p) <==> ValuePoint(mrbs, p)
  {
    forall p ensures Has(v, p) <==> ValuePoint(mrbs, p) {
      if ValuePoint(mrbs, p) { assert Levels(mrbs[p[0]]) == Levels(mrbs[0]); }
    }
  }

  /** Fails exactly when the references need different numbers of dimensions. */
  method BuildDomains(mrbs: seq<Ref>, klass: MClass) returns (r: Result<Domains, CreateError>)
    requires mrbs != [] && AllWellFormed(mrbs, klass)
    ensures r.Success? <==> SameLevels(mrbs)
    ensures r.Success? ==>
              && Canonical(r.value.metadata) && Rank(r.value.metadata) == Some(Levels(mrbs[0]) + 1)
              && Canonical(r.value.values) && Rank(r.value.values) == Some(Levels(mrbs[0]) + 2)
              && (forall p :: Has(r.value.metadata, p) <==> MetadataPoint(mrbs, p))
              && (forall p :: Has(r.value.values, p) <==> ValuePoint(mrbs, p))
  {
    hide WellFormed, Canonical, Rank, Levels, MetadataTree, ValueTree, MetadataPoint, ValuePoint, Has, HasPadded,
         SameLevels, Component, Make, Running;
    var mdV: seq<(int, Tree)>, valV: seq<(int, Tree)> := [], [];
    var k := 0;
    while k < |mrbs|
      invariant k <= |mrbs|
      invariant MetadataTrees(mdV, mrbs[..k]) && ValueTrees(valV, mrbs[..k])
    {
      assert mrbs[k] in mrbs;
      var it := BuildMeasureIndexTrees(OfRef(mrbs[k]), klass);
      NextTrees(mdV, valV, mrbs, k, it.metadataTree.value, it.valueTree);
      mdV := mdV + [(1, it.metadataTree.value)];
      valV := valV + [(1, if it.valueTree.Some? then it.valueTree.value else EMPTY)];
      k := k + 1;
    }
    assert mrbs[..|mrbs|] == mrbs;
    UnitTree(mdV);
    UnitTree(valV);
    var md := FromCounts(mdV);
    MetadataDomain(mdV, mrbs, md.value);
    if Rank(md.value).None? { return Failure(NoCommonRank); }
    var vt := FromCounts(valV);
    ValueDomain(valV, mrbs, vt.value);
    var v := Extended(vt.value, Rank(md.value).value + 1);
    ValuesDone(mrbs, vt.value, v);
    r := Success(Domains(md.value, v));
  }
}

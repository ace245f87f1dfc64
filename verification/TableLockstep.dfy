/** The parser of requirement lists keeps in step with the emitter. */
module TableLockstep {
  import opened Wrappers
  import opened Slices
  import opened TableRequirements
  import opened TableParsing

  // ----- what the columns have to satisfy -----

  ghost predicate DistinctNames(items: seq<Item>) {
    forall i, j | 0 <= i < j < |items| :: items[i].name != items[j].name
  }

  /** Columns on the same field of the same region ask for it in the same way. */
  ghost predicate SameFieldSameKey(items: seq<Item>) {
    forall i, j | 0 <= i < |items| && 0 <= j < |items|
                  && items[i].col.region == items[j].col.region && items[i].col.fid == items[j].col.fid ::
      items[i].Key() == items[j].Key()
  }

  predicate HasRef(it: Item) { it.col.mr.Some? && it.col.rc.Some? && it.col.rc.value != "" }

  ghost predicate HasName(items: seq<Item>, name: string) {
    exists j :: 0 <= j < |items| && items[j].name == name
  }

  ghost predicate RefsSelected(items: seq<Item>) {
    forall i | 0 <= i < |items| && HasRef(items[i]) :: HasName(items, items[i].col.rc.value)
  }

  /** Some column that shares the requirement of column j is on field f, so that requirement lists f. */
  ghost predicate Lists(items: seq<Item>, j: nat, f: nat)
    requires j < |items|
  {
    exists n :: 0 <= n < |items| && items[n].Key() == items[j].Key() && items[n].col.fid == f
  }

  /** Column j is the first with its settings, so it emits a requirement: one on the region that lists f. */
  ghost predicate Provides(items: seq<Item>, j: nat, region: Region, f: nat)
    requires j < |items|
  {
    items[j].col.region == region && !HasKey(items[..j], items[j].Key()) && Lists(items, j, f)
  }

  /** The last of the first k columns that provides the field, which is where the parser takes it from. */
  ghost function Provider(items: seq<Item>, k: nat, region: Region, f: nat): (p: Option<nat>)
    requires k <= |items|
    ensures p.Some? ==> p.value < k
  {
    if k == 0 then None
    else if Provides(items, k - 1, region, f) then Some(k - 1)
    else Provider(items, k - 1, region, f)
  }

  /** If an earlier requirement provides the field of column k, the last one to do so is the column's own. */
  ghost predicate InStepAt(items: seq<Item>, k: nat)
    requires k < |items|
  {
    var p := Provider(items, k, items[k].col.region, items[k].col.fid);
    p.Some? ==> items[p.value].Key() == items[k].Key()
  }

  ghost predicate InStep(items: seq<Item>) {
    forall k | 0 <= k < |items| :: InStepAt(items, k)
  }

  ghost predicate RankFits(it: Item, indexRank: nat) {
    it.col.region.space.dim == 1 || it.col.region.space.dim >= indexRank
  }

  ghost predicate RanksFit(items: seq<Item>, indexRank: nat) {
    forall k | 0 <= k < |items| :: RankFits(items[k], indexRank)
  }

  lemma {:induction false} ProviderProvides(items: seq<Item>, k: nat, region: Region, f: nat)
    requires k <= |items| && Provider(items, k, region, f).Some?
    ensures Provides(items, Provider(items, k, region, f).value, region, f)
  {
    if !Provides(items, k - 1, region, f) { ProviderProvides(items, k - 1, region, f); }
  }

  /** Asking for a field in one way only is enough to stay in step. */
  lemma SameFieldInStep(items: seq<Item>)
    requires SameFieldSameKey(items)
    ensures InStep(items)
  {
    hide HasKey, Provider;
    forall k | 0 <= k < |items| ensures InStepAt(items, k) {
      var region, f := items[k].col.region, items[k].col.fid;
      if Provider(items, k, region, f).Some? { ProviderProvides(items, k, region, f); }
    }
  }

  /** So are tables whose columns have fields of their own, as `Table::add_columns` makes them. */
  lemma OwnFieldsInStep(items: seq<Item>)
    requires forall i, j | 0 <= i < j < |items| && items[i].col.region == items[j].col.region ::
               items[i].col.fid != items[j].col.fid
    ensures InStep(items)
  {
    forall i, j | 0 <= i < |items| && 0 <= j < |items|
                  && items[i].col.region == items[j].col.region && items[i].col.fid == items[j].col.fid
      ensures items[i].Key() == items[j].Key()
    {
      assert i == j;
    }
    SameFieldInStep(items);
  }

  /** Once a requirement has been emitted, its fields have a provider. */
  lemma {:induction false} HasProvider(items: seq<Item>, k: nat, n: nat)
    requires k <= |items| && n < |items| && HasKey(items[..k], items[n].Key())
    ensures Provider(items, k, items[n].col.region, items[n].col.fid).Some?
  {
    var i :| 0 <= i < k && items[..k][i].Key() == items[n].Key();
    assert i < k - 1 ==> items[..k - 1][i].Key() == items[n].Key();
    if HasKey(items[..k - 1], items[n].Key()) {
      HasProvider(items, k - 1, n);
    } else {
      assert Lists(items, k - 1, items[n].col.fid);
    }
  }

  // ----- positions in the list -----

  /** `piece` stands at position n of the requirements, with its mapped regions beside it. */
  ghost predicate At(input: Input, n: nat, piece: seq<Requirement>) {
    && HoldsAt(input.reqs, n, piece) && |input.reqs| == |input.prs|
    && forall m | 0 <= m < |input.prs| :: input.prs[m].req == input.reqs[m]
  }

  lemma AtSplit(input: Input, n: nat, a: seq<Requirement>, b: seq<Requirement>)
    requires At(input, n, a + b)
    ensures At(input, n, a) && At(input, n + |a|, b)
  {
    HoldsSplit(input.reqs, n, a, b);
  }

  lemma AtElement(input: Input, n: nat, piece: seq<Requirement>, m: nat)
    requires At(input, n, piece) && m < |piece|
    ensures n + m < |input.reqs| == |input.prs|
    ensures input.reqs[n + m] == piece[m] && input.prs[n + m].req == piece[m]
  {
    HoldsElement(input.reqs, n, piece, m);
  }

  lemma AtRoom(input: Input, n: nat, piece: seq<Requirement>)
    requires At(input, n, piece)
    ensures n + |piece| <= |input.reqs| == |input.prs|
  {
  }

  // ----- what a column owns -----

  ghost predicate OwnsKeywords(kw: Option<(PhysicalRegion, PhysicalRegion)>, it: Item) {
    && (kw.Some? <==> it.col.kw.Some?)
    && (kw.Some? ==> [kw.value.0.req, kw.value.1.req] == KeywordReqs(it))
  }

  ghost predicate OwnsMeasures(mr: Option<MeasPhysical>, it: Item) {
    && (mr.Some? <==> it.col.mr.Some?)
    && (mr.Some? ==>
          [mr.value.metadata.req, mr.value.values.req]
          + (if mr.value.index.Some? then [mr.value.index.value.req] else []) == MeasReqs(it))
  }

  /** The column has its own attributes and the regions mapped for its own requirements. */
  ghost predicate Owns(c: PhysicalColumn, items: seq<Item>, n: nat, indexRank: nat)
    requires n < |items|
  {
    var it := items[n];
    && HasRegion(items, it.col.region) && HasKey(items, it.Key())
    && c.dt == it.col.dt && c.fid == it.col.fid && c.parent == it.col.region
    && c.indexRank == Min(indexRank, it.col.region.space.dim)
    && c.metadata.req == RegionReq(items, it.col.region)
    && c.values.req == ValueReq(items, it.Key()) && c.target == c.values.req.target
    && OwnsKeywords(c.kw, it) && OwnsMeasures(c.mr, it)
  }

  // ----- the parser's maps after k columns -----

  ghost predicate MdMatches(md: map<Region, PhysicalRegion>, items: seq<Item>, k: nat)
    requires k <= |items|
  {
    && (forall r :: r in md <==> HasRegion(items[..k], r))
    && forall r | r in md :: HasRegion(items, r) && md[r].req == RegionReq(items, r)
  }

  ghost predicate Holds(v: ValueRegion, items: seq<Item>, key: ValueKey) {
    HasKey(items, key) && v.values.req == ValueReq(items, key) && v.target == v.values.req.target
        && v.parent == key.region
  }

  /** What the parser has recorded for a field is the region of its provider. */
  ghost predicate ValMatches(vals: map<(Region, nat), ValueRegion>, items: seq<Item>, k: nat, region: Region, f: nat)
    requires k <= |items|
  {
    var p := Provider(items, k, region, f);
    ((region, f) in vals <==> p.Some?) && (p.Some? ==> Holds(vals[(region, f)], items, items[p.value].Key()))
  }

  ghost predicate ValsMatch(vals: map<(Region, nat), ValueRegion>, items: seq<Item>, k: nat)
    requires k <= |items|
  {
    forall region, f :: ValMatches(vals, items, k, region, f)
  }

  ghost predicate ColumnsMatch(columns: map<string, PhysicalColumn>, items: seq<Item>, k: nat, indexRank: nat)
    requires k <= |items|
  {
    && (forall nm :: nm in columns <==> HasName(items[..k], nm))
    && forall n | 0 <= n < k :: items[n].name in columns && Owns(columns[items[n].name], items, n, indexRank)
                                && columns[items[n].name].refcol.None?
  }

  ghost predicate RefsMatch(refcols: map<string, string>, items: seq<Item>, k: nat)
    requires k <= |items|
  {
    && (forall nm | nm in refcols :: HasName(items[..k], nm))
    && forall n | 0 <= n < k ::
         (items[n].name in refcols <==> HasRef(items[n]))
         && (HasRef(items[n]) ==> refcols[items[n].name] == items[n].col.rc.value)
  }

  ghost predicate Matches(s: State, items: seq<Item>, k: nat, indexRank: nat)
    requires k <= |items|
  {
    && s.reqs == s.prs && MdMatches(s.md, items, k) && ValsMatch(s.vals, items, k)
    && ColumnsMatch(s.columns, items, k, indexRank) && RefsMatch(s.refcols, items, k)
  }

  // ----- one column -----

  function Fresh(present: bool, r: seq<Requirement>): seq<Requirement> { if present then [] else r }

  lemma PrefixHas(items: seq<Item>, k: nat, r: Region, key: ValueKey, nm: string)
    requires k < |items|
    ensures HasRegion(items[..k + 1], r) <==> HasRegion(items[..k], r) || items[k].col.region == r
    ensures HasKey(items[..k + 1], key) <==> HasKey(items[..k], key) || items[k].Key() == key
    ensures HasName(items[..k + 1], nm) <==> HasName(items[..k], nm) || items[k].name == nm
    ensures HasRegion(items[..k], r) ==> HasRegion(items, r)
    ensures HasKey(items[..k], key) ==> HasKey(items, key)
  {
    assert items[..k + 1] == items[..k] + [items[k]];
    OneMore(items[..k], items[k], r, key);
    if HasRegion(items[..k], r) {
      var i :| 0 <= i < k && items[..k][i].col.region == r;
      assert items[i].col.region == r;
    }
    if HasKey(items[..k], key) {
      var i :| 0 <= i < k && items[..k][i].Key() == key;
      assert items[i].Key() == key;
    }
    if HasName(items[..k], nm) {
      var i :| 0 <= i < k && items[..k][i].name == nm;
      assert items[..k + 1][i].name == nm;
    }
    if HasName(items[..k + 1], nm) && items[k].name != nm {
      var i :| 0 <= i < k + 1 && items[..k + 1][i].name == nm;
      assert i < k && items[..k][i].name == nm;
    }
    if items[k].name == nm { assert items[..k + 1][k].name == nm; }
  }

  lemma AfterMetadata(s: State, items: seq<Item>, k: nat, input: Input)
    requires k < |items| && s.reqs == s.prs && MdMatches(s.md, items, k)
    requires HasRegion(items, items[k].col.region)
    requires At(input, s.reqs,
                Fresh(HasRegion(items[..k], items[k].col.region), [RegionReq(items, items[k].col.region)]))
    ensures var n := |Fresh(HasRegion(items[..k], items[k].col.region), [RegionReq(items, items[k].col.region)])|;
            var r := TakeMetadata(s, Desc(items[k]), input);
            r.Success? && r.value == s.(reqs := s.reqs + n, prs := s.prs + n, md := r.value.md)
            && MdMatches(r.value.md, items, k + 1)
  {
    hide HasRegion, HasKey, RegionReq, HasName;
    var region := items[k].col.region;
    forall r ensures HasRegion(items[..k + 1], r) <==> HasRegion(items[..k], r) || region == r {
      PrefixHas(items, k, r, items[k].Key(), "");
    }
    if !HasRegion(items[..k], region) {
      AtElement(input, s.reqs, [RegionReq(items, region)], 0);
    }
  }

  /** A value requirement names the fields of all columns with its key. */
  lemma {:induction false} FieldsOfValueReq(items: seq<Item>, key: ValueKey, f: nat)
    requires HasKey(items, key)
    ensures f in FieldsOf(ValueReq(items, key))
       <==> exists n :: 0 <= n < |items| && items[n].Key() == key && items[n].col.fid == f
  {
    var n := |items| - 1;
    var init := items[..n];
    assert forall m | 0 <= m < n :: init[m] == items[m];
    if HasKey(init, key) { FieldsOfValueReq(init, key, f); }
  }

  lemma {:induction false} ValueReqShape(items: seq<Item>, key: ValueKey)
    requires HasKey(items, key)
    ensures ValueReq(items, key).parent == key.region
  {
    var n := |items| - 1;
    var init := items[..n];
    assert items == init + [items[n]];
    OneMore(init, items[n], items[n].col.region, key);
    if HasKey(init, key) { ValueReqShape(init, key); }
  }

  lemma AfterValues(s: State, items: seq<Item>, k: nat, input: Input)
    requires k < |items| && s.reqs == s.prs && ValsMatch(s.vals, items, k) && InStepAt(items, k)
    requires HasKey(items, items[k].Key())
    requires At(input, s.reqs, Fresh(HasKey(items[..k], items[k].Key()), [ValueReq(items, items[k].Key())]))
    ensures var n := |Fresh(HasKey(items[..k], items[k].Key()), [ValueReq(items, items[k].Key())])|;
            var r := TakeValues(s, Desc(items[k]), input);
            r.Success? && r.value == s.(reqs := s.reqs + n, prs := s.prs + n, vals := r.value.vals)
            && ValsMatch(r.value.vals, items, k + 1)
  {
    hide HasRegion, HasKey, ValueReq, HasName, FieldsOf, RegionReq, Lists, Provider;
    var it, key, next := items[k], items[k].Key(), k + 1;
    assert ValMatches(s.vals, items, k, it.col.region, it.col.fid);
    ProviderStep(items, k);
    if HasKey(items[..k], key) {
      HasProvider(items, k, k);
      forall region, f ensures ValMatches(s.vals, items, next, region, f) {
        assert ValMatches(s.vals, items, k, region, f);
      }
    } else {
      NoProvider(items, k);
      var q := ValueReq(items, key);
      AtElement(input, s.reqs, [q], 0);
      ValueReqShape(items, key);
      forall f ensures f in FieldsOf(q) <==> Lists(items, k, f) {
        FieldsOfValueReq(items, key, f);
        ListsIs(items, k, f);
      }
      var vals := Assigned(s.vals, it.col.region, FieldsOf(q), ValueRegion(q.target, q.parent, input.prs[s.prs]));
      forall region, f ensures ValMatches(vals, items, next, region, f) {
        assert ValMatches(s.vals, items, k, region, f);
      }
    }
  }

  lemma ListsIs(items: seq<Item>, j: nat, f: nat)
    requires j < |items|
    ensures Lists(items, j, f)
        <==> exists n :: 0 <= n < |items| && items[n].Key() == items[j].Key() && items[n].col.fid == f
  {
  }

  lemma ProviderStep(items: seq<Item>, k: nat)
    requires k < |items|
    ensures forall region, f :: Provider(items, k + 1, region, f)
              == if Provides(items, k, region, f) then Some(k) else Provider(items, k, region, f)
  {
  }

  /** In step, a column with new settings finds no provider: that would have other settings. */
  lemma NoProvider(items: seq<Item>, k: nat)
    requires k < |items| && InStepAt(items, k) && !HasKey(items[..k], items[k].Key())
    ensures Provider(items, k, items[k].col.region, items[k].col.fid).None?
  {
    hide HasKey;
    var p := Provider(items, k, items[k].col.region, items[k].col.fid);
    if p.Some? { KeyBefore(items, k, p.value); }
  }

  lemma KeyBefore(items: seq<Item>, k: nat, j: nat)
    requires j < k <= |items|
    ensures HasKey(items[..k], items[j].Key())
  {
    assert items[..k][j] == items[j];
  }

  /** In step, the field of a column is recorded with the column's own requirement. */
  lemma OwnValue(vals: map<(Region, nat), ValueRegion>, items: seq<Item>, k: nat)
    requires k < |items| && InStepAt(items, k) && ValsMatch(vals, items, k + 1)
    ensures (items[k].col.region, items[k].col.fid) in vals
    ensures Holds(vals[(items[k].col.region, items[k].col.fid)], items, items[k].Key())
  {
    hide Holds, Lists, HasKey;
    var region, f := items[k].col.region, items[k].col.fid;
    assert ValMatches(vals, items, k + 1, region, f);
    ProviderStep(items, k);
    ListsIs(items, k, f);
    if HasKey(items[..k], items[k].Key()) { HasProvider(items, k, k); }
  }

  lemma AfterKeywords(s: State, it: Item, input: Input)
    requires s.reqs == s.prs && At(input, s.reqs, KeywordReqs(it))
    ensures var n := |KeywordReqs(it)|;
            var r := TakeKeywords(s, Desc(it), input);
            r.Success? && r.value.0 == s.(reqs := s.reqs + n, prs := s.prs + n) && OwnsKeywords(r.value.1, it)
  {
    if it.col.kw.Some? {
      AtElement(input, s.reqs, KeywordReqs(it), 0);
      AtElement(input, s.reqs, KeywordReqs(it), 1);
    }
  }

  lemma AfterMeasures(s: State, it: Item, input: Input)
    requires s.reqs == s.prs && At(input, s.reqs, MeasReqs(it))
    ensures var n := |MeasReqs(it)|;
            var r := TakeMeasures(s, Desc(it), input);
            r.Success? && OwnsMeasures(r.value.1, it)
            && r.value.0 == s.(reqs := s.reqs + n, prs := s.prs + n,
                               refcols := if HasRef(it) then s.refcols[it.name := it.col.rc.value] else s.refcols)
  {
    if it.col.mr.Some? {
      AtElement(input, s.reqs, MeasReqs(it), 0);
      AtElement(input, s.reqs, MeasReqs(it), 1);
      if it.col.mr.value.index.Some? { AtElement(input, s.reqs, MeasReqs(it), 2); }
    }
  }

  lemma AfterAdd(s: State, items: seq<Item>, k: nat, kw: Option<(PhysicalRegion, PhysicalRegion)>,
                 mr: Option<MeasPhysical>, indexRank: nat)
    requires k < |items| && DistinctNames(items) && InStepAt(items, k) && RankFits(items[k], indexRank)
    requires MdMatches(s.md, items, k + 1) && ValsMatch(s.vals, items, k + 1)
        && ColumnsMatch(s.columns, items, k, indexRank)
    requires OwnsKeywords(kw, items[k]) && OwnsMeasures(mr, items[k])
    ensures var r := AddColumn(s, Desc(items[k]), kw, mr, indexRank);
            r.Success? && r.value == s.(columns := r.value.columns)
                && ColumnsMatch(r.value.columns, items, k + 1, indexRank)
  {
    hide HasRegion, HasKey, ValueReq, RegionReq, HasName, OwnsKeywords, OwnsMeasures, ValsMatch, InStepAt;
    var it := items[k];
    forall nm ensures HasName(items[..k + 1], nm) <==> HasName(items[..k], nm) || it.name == nm {
      PrefixHas(items, k, it.col.region, it.Key(), nm);
    }
    PrefixHas(items, k, it.col.region, it.Key(), it.name);
    NewName(items, k);
    OwnValue(s.vals, items, k);
    assert s.vals[(it.col.region, it.col.fid)].parent in s.md;
  }

  lemma NewName(items: seq<Item>, k: nat)
    requires k < |items| && DistinctNames(items)
    ensures !HasName(items[..k], items[k].name)
  {
  }

  lemma AfterRefs(refcols: map<string, string>, items: seq<Item>, k: nat)
    requires k < |items| && DistinctNames(items) && RefsMatch(refcols, items, k)
    ensures RefsMatch(if HasRef(items[k]) then refcols[items[k].name := items[k].col.rc.value] else refcols, items,
                      k + 1)
  {
    hide HasName, HasRef;
    NewName(items, k);
    forall nm ensures HasName(items[..k + 1], nm) <==> HasName(items[..k], nm) || items[k].name == nm {
      PrefixHas(items, k, items[k].col.region, items[k].Key(), nm);
    }
  }

  lemma StepMatches(s: State, items: seq<Item>, k: nat, indexRank: nat, input: Input)
    requires k < |items| && DistinctNames(items) && InStepAt(items, k) && RankFits(items[k], indexRank)
    requires Matches(s, items, k, indexRank) && At(input, s.reqs, Entry(items, k))
    ensures var r := Step(s, Desc(items[k]), input, indexRank);
            r.Success? && r.value.reqs == s.reqs + |Entry(items, k)| && Matches(r.value, items, k + 1, indexRank)
  {
    hide HasRegion, HasKey, ValueReq, RegionReq, HasName, KeywordReqs, MeasReqs, MdMatches, ValsMatch, ColumnsMatch,
         RefsMatch, OwnsKeywords, OwnsMeasures, InStepAt, TakeMetadata, TakeValues, TakeKeywords, TakeMeasures,
         AddColumn, At, HasRef;
    var it := items[k];
    Present(items, k);
    var a := Fresh(HasRegion(items[..k], it.col.region), [RegionReq(items, it.col.region)]);
    var b := Fresh(HasKey(items[..k], it.Key()), [ValueReq(items, it.Key())]);
    var c, e := KeywordReqs(it), MeasReqs(it);
    assert Entry(items, k) == a + b + c + e;
    AtSplit(input, s.reqs, a + b + c, e);
    AtSplit(input, s.reqs, a + b, c);
    AtSplit(input, s.reqs, a, b);
    AfterMetadata(s, items, k, input);
    var s1 := TakeMetadata(s, Desc(it), input).value;
    AfterValues(s1, items, k, input);
    var s2 := TakeValues(s1, Desc(it), input).value;
    AfterKeywords(s2, it, input);
    var (s3, kw) := TakeKeywords(s2, Desc(it), input).value;
    AfterMeasures(s3, it, input);
    var (s4, mr) := TakeMeasures(s3, Desc(it), input).value;
    AfterRefs(s3.refcols, items, k);
    AfterAdd(s4, items, k, kw, mr, indexRank);
  }

  lemma {:induction false} StepsMatch(items: seq<Item>, k: nat, indexRank: nat, input: Input, n: nat)
    requires k <= |items| && DistinctNames(items) && At(input, n, Entries(items, k))
    requires forall i | 0 <= i < k :: InStepAt(items, i) && RankFits(items[i], indexRank)
    ensures var r := Steps(Start(n, n), Descs(items)[..k], input, indexRank);
            r.Success? && r.value.reqs == n + |Entries(items, k)| && Matches(r.value, items, k, indexRank)
  {
    hide DistinctNames, InStepAt, RankFits, At, Matches, Step, Entry, Entries, Steps;
    EntriesStep(items, k);
    if k == 0 {
      assert Descs(items)[..0] == [];
      NoSteps(Start(n, n), input, indexRank);
      StartMatches(items, n, indexRank);
    } else {
      AtSplit(input, n, Entries(items, k - 1), Entry(items, k - 1));
      StepsMatch(items, k - 1, indexRank, input, n);
      StepsNext(Start(n, n), Descs(items), k - 1, input, indexRank);
      StepMatches(Steps(Start(n, n), Descs(items)[..k - 1], input, indexRank).value, items, k - 1, indexRank, input);
    }
  }

  lemma EntriesStep(items: seq<Item>, k: nat)
    requires k <= |items|
    ensures Entries(items, k) == if k == 0 then [] else Entries(items, k - 1) + Entry(items, k - 1)
  {
  }

  lemma StartMatches(items: seq<Item>, n: nat, indexRank: nat)
    ensures Matches(Start(n, n), items, 0, indexRank)
  {
  }

  /** The parsed table: exactly the emitted columns, each with the regions of its own requirements. */
  ghost predicate Faithful(t: PhysicalTable, cs: ColumnSpace, region: Region, items: seq<Item>, indexRank: nat) {
    && t.indexMetadata.req == MetadataReq(cs, READ_ONLY, EXCLUSIVE)
    && t.indexRegion.req == IndexReq(region) && t.indexTarget == Whole(region) && t.indexParent == region
    && (forall nm :: nm in t.columns <==> HasName(items, nm))
    && forall n | 0 <= n < |items| ::
         && items[n].name in t.columns && Owns(t.columns[items[n].name], items, n, indexRank)
         && t.columns[items[n].name].refcol == if HasRef(items[n]) then items[n].col.rc else None
  }

  // ----- out of step -----

  /** Requirements for different settings differ. */
  lemma {:induction false} ValueReqSettings(items: seq<Item>, key: ValueKey)
    requires HasKey(items, key)
    ensures var r := ValueReq(items, key);
            && r.parent == key.region && r.privilege == key.privilege && r.coherence == key.coherence
            && r.tag == key.tag
            && (key.partition.None? <==> r.target.Whole?)
            && (key.partition.Some? ==> r.target.Part? && r.target.partition == key.partition.value)
  {
    var n := |items| - 1;
    var init := items[..n];
    assert items == init + [items[n]];
    OneMore(init, items[n], items[n].col.region, key);
    if HasKey(init, key) { ValueReqSettings(init, key); }
  }

  /** The parser has given column k the region of a requirement that is not its own. */
  ghost predicate Misassigned(columns: map<string, PhysicalColumn>, items: seq<Item>, k: nat)
    requires k < |items|
  {
    && items[k].name in columns && HasKey(items, items[k].Key())
    && columns[items[k].name].values.req != ValueReq(items, items[k].Key())
  }

  lemma MisfitStep(s: State, items: seq<Item>, k: nat, indexRank: nat, input: Input)
    requires k < |items| && DistinctNames(items) && Matches(s, items, k, indexRank)
    requires !(InStepAt(items, k) && RankFits(items[k], indexRank))
    ensures var r := Step(s, Desc(items[k]), input, indexRank);
            r.Success? ==> Misassigned(r.value.columns, items, k)
  {
    hide HasRegion, HasKey, ValueReq, RegionReq, HasName, MdMatches, RefsMatch, Provider, Owns, Provides, Step;
    var it := items[k];
    if !InStepAt(items, k) {
      assert ValMatches(s.vals, items, k, it.col.region, it.col.fid);
      var other := items[Provider(items, k, it.col.region, it.col.fid).value].Key();
      ProviderProvides(items, k, it.col.region, it.col.fid);
      ProviderRegion(items, k, it.col.region, it.col.fid);
      Present(items, k);
      ValueReqSettings(items, other);
      ValueReqSettings(items, it.Key());
      NewName(items, k);
      ReusedValue(s, it, input, indexRank);
    } else {
      RankMisfit(s, Desc(it), input, indexRank);
    }
  }

  lemma ProviderRegion(items: seq<Item>, k: nat, region: Region, f: nat)
    requires k <= |items| && Provider(items, k, region, f).Some?
    ensures items[Provider(items, k, region, f).value].col.region == region
  {
    ProviderProvides(items, k, region, f);
  }

  /** Only the last part of a step adds a column. */
  lemma TakesKeep(s: State, d: ColumnDesc, input: Input)
    ensures var a := TakeMetadata(s, d, input);
            a.Success? ==> a.value.columns == s.columns && a.value.vals == s.vals
    ensures var b := TakeValues(s, d, input);
            b.Success? ==> b.value.columns == s.columns && ((d.region, d.fid) in s.vals ==> b.value.vals == s.vals)
    ensures var c := TakeKeywords(s, d, input);
            c.Success? ==> c.value.0.columns == s.columns && c.value.0.vals == s.vals
    ensures var e := TakeMeasures(s, d, input);
            e.Success? ==> e.value.0.columns == s.columns && e.value.0.vals == s.vals
  {
    hide Assigned, FieldsOf;
  }

  /** What a successful step hands to AddColumn. */
  lemma StepAdds(s: State, d: ColumnDesc, input: Input, indexRank: nat)
      returns (t: State, kw: Option<(PhysicalRegion, PhysicalRegion)>, mr: Option<MeasPhysical>)
    requires Step(s, d, input, indexRank).Success?
    ensures Step(s, d, input, indexRank) == AddColumn(t, d, kw, mr, indexRank)
    ensures t.columns == s.columns && ((d.region, d.fid) in s.vals ==> t.vals == s.vals)
  {
    hide TakeMetadata, TakeValues, TakeKeywords, TakeMeasures, AddColumn;
    var a := TakeMetadata(s, d, input).value;
    var b := TakeValues(a, d, input).value;
    var c := TakeKeywords(b, d, input).value;
    var e := TakeMeasures(c.0, d, input).value;
    TakesKeep(s, d, input);
    TakesKeep(a, d, input);
    TakesKeep(b, d, input);
    TakesKeep(c.0, d, input);
    t, kw, mr := e.0, c.1, e.1;
  }

  /** A field that has been recorded is not read again. */
  lemma ReusedValue(s: State, it: Item, input: Input, indexRank: nat)
    requires (it.col.region, it.col.fid) in s.vals && it.name !in s.columns
    ensures var r := Step(s, Desc(it), input, indexRank);
            r.Success? ==> it.name in r.value.columns
                           && r.value.columns[it.name].values == s.vals[(it.col.region, it.col.fid)].values
  {
    hide Step;
    if Step(s, Desc(it), input, indexRank).Success? {
      var t, kw, mr := StepAdds(s, Desc(it), input, indexRank);
    }
  }

  lemma RankMisfit(s: State, d: ColumnDesc, input: Input, indexRank: nat)
    requires d.region.space.dim != 1 && d.region.space.dim < indexRank
    ensures Step(s, d, input, indexRank).Failure?
  {
    hide Step;
    if Step(s, d, input, indexRank).Success? {
      var t, kw, mr := StepAdds(s, d, input, indexRank);
    }
  }

  lemma StepKeeps(s: State, d: ColumnDesc, input: Input, indexRank: nat, nm: string)
    requires nm in s.columns
    ensures var r := Step(s, d, input, indexRank);
            r.Success? ==> nm in r.value.columns && r.value.columns[nm] == s.columns[nm]
  {
    hide Step;
    if Step(s, d, input, indexRank).Success? {
      var t, kw, mr := StepAdds(s, d, input, indexRank);
    }
  }

  lemma {:induction false} MisassignedStays(s: State, items: seq<Item>, k: nat, m: nat, input: Input, indexRank: nat)
    requires k < m <= |items|
    requires var r := Steps(s, Descs(items)[..k + 1], input, indexRank);
             r.Success? ==> Misassigned(r.value.columns, items, k)
    ensures var r := Steps(s, Descs(items)[..m], input, indexRank);
            r.Success? ==> Misassigned(r.value.columns, items, k)
  {
    hide Steps, Step, HasKey, ValueReq, Desc;
    if k + 1 < m {
      MisassignedStays(s, items, k, m - 1, input, indexRank);
      StepsNext(s, Descs(items), m - 1, input, indexRank);
      var before := Steps(s, Descs(items)[..m - 1], input, indexRank);
      if before.Success? { StepKeeps(before.value, Descs(items)[m - 1], input, indexRank, items[k].name); }
    }
  }

  /** A list with a misfit is parsed into a table that is not the emitted one, if at all. */
  lemma MisfitParse(items: seq<Item>, indexRank: nat, input: Input, n: nat)
    requires DistinctNames(items) && At(input, n, Entries(items, |items|))
        && !(InStep(items) && RanksFit(items, indexRank))
    ensures var r := Steps(Start(n, n), Descs(items), input, indexRank);
            r.Success? ==> exists k :: 0 <= k < |items| && Misassigned(r.value.columns, items, k)
  {
    hide DistinctNames, InStepAt, RankFits, At, Matches, Step, Entry, Entries, Steps, Misassigned;
    var k := FirstMisfit(items, indexRank);
    EntriesPrefix(items, k, |items|, input, n);
    StepsMatch(items, k, indexRank, input, n);
    StepsNext(Start(n, n), Descs(items), k, input, indexRank);
    MisfitStep(Steps(Start(n, n), Descs(items)[..k], input, indexRank).value, items, k, indexRank, input);
    MisassignedStays(Start(n, n), items, k, |items|, input, indexRank);
    assert Descs(items)[..|items|] == Descs(items);
  }

  lemma FirstMisfit(items: seq<Item>, indexRank: nat) returns (k: nat)
    requires !(InStep(items) && RanksFit(items, indexRank))
    ensures k < |items| && !(InStepAt(items, k) && RankFits(items[k], indexRank))
    ensures forall i | 0 <= i < k :: InStepAt(items, i) && RankFits(items[i], indexRank)
  {
    hide InStepAt, RankFits;
    k := 0;
    while k < |items| && InStepAt(items, k) && RankFits(items[k], indexRank)
      invariant k <= |items| && forall i | 0 <= i < k :: InStepAt(items, i) && RankFits(items[i], indexRank)
    {
      k := k + 1;
    }
  }

  lemma {:induction false} EntriesPrefix(items: seq<Item>, k: nat, m: nat, input: Input, n: nat)
    requires k <= m <= |items| && At(input, n, Entries(items, m))
    ensures At(input, n, Entries(items, k))
  {
    hide At, Entry, Entries;
    if k < m {
      EntriesStep(items, m);
      AtSplit(input, n, Entries(items, m - 1), Entry(items, m - 1));
      EntriesPrefix(items, k, m - 1, input, n);
    }
  }

  // ----- the whole list -----

  ghost predicate Restores(r: Result<Parsed, ParseError>, cs: ColumnSpace, region: Region, items: seq<Item>,
                           indexRank: nat) {
    r.Success? && Faithful(r.value.table, cs, region, items, indexRank)
  }

  /**
   Parsing what was emitted, followed by anything: it consumes exactly the emitted requirements and
   restores every column exactly when all columns are in step, their ranks fit and all reference columns
   were selected.  If only the last fails, the parser says so.
   */
  lemma Lockstep(cs: ColumnSpace, region: Region, items: seq<Item>, indexRank: nat, input: Input, n: nat)
    requires DistinctNames(items) && At(input, n, Emitted(cs, region, items))
    ensures var r := Create(Descs(items), indexRank, input, n, n);
            && (Restores(r, cs, region, items, indexRank)
                <==> InStep(items) && RanksFit(items, indexRank) && RefsSelected(items))
            && (Restores(r, cs, region, items, indexRank) ==>
                  r.value.reqs == r.value.prs == n + |Emitted(cs, region, items)|)
            && (InStep(items) && RanksFit(items, indexRank) && r.Failure? ==> r.error == MissingRefColumn)
  {
    hide DistinctNames, InStep, RanksFit, RefsSelected, At, Steps;
    if InStep(items) && RanksFit(items, indexRank) {
      ParsesInStep(cs, region, items, indexRank, input, n);
    } else {
      AtSplit(input, n, Header(cs, region), Entries(items, |items|));
      MisfitParse(items, indexRank, input, n + 2);
      NotRestored(cs, region, items, indexRank, input, n);
    }
  }

  lemma NotRestored(cs: ColumnSpace, region: Region, items: seq<Item>, indexRank: nat, input: Input, n: nat)
    requires var r := Steps(Start(n + 2, n + 2), Descs(items), input, indexRank);
             r.Success? ==> exists k :: 0 <= k < |items| && Misassigned(r.value.columns, items, k)
    ensures !Restores(Create(Descs(items), indexRank, input, n, n), cs, region, items, indexRank)
  {
    hide Steps, HasName, HasRef, OwnsKeywords, OwnsMeasures, HasRegion, RegionReq, HasKey, ValueReq, RefsKnown;
    var r := Steps(Start(n + 2, n + 2), Descs(items), input, indexRank);
    var c := Create(Descs(items), indexRank, input, n, n);
    if c.Success? {
      var k :| 0 <= k < |items| && Misassigned(r.value.columns, items, k);
      assert c.value.table.columns == WithRefs(r.value);
      assert !Owns(WithRefs(r.value)[items[k].name], items, k, indexRank);
    }
  }

  lemma ParsesInStep(cs: ColumnSpace, region: Region, items: seq<Item>, indexRank: nat, input: Input, n: nat)
    requires DistinctNames(items) && At(input, n, Emitted(cs, region, items)) && InStep(items)
        && RanksFit(items, indexRank)
    ensures var r := Create(Descs(items), indexRank, input, n, n);
            && (r.Success? <==> RefsSelected(items)) && (r.Failure? ==> r.error == MissingRefColumn)
            && (r.Success? ==>
                  && r.value.reqs == r.value.prs == n + |Emitted(cs, region, items)|
                  && Faithful(r.value.table, cs, region, items, indexRank))
  {
    hide DistinctNames, InStepAt, RankFits, Matches, Steps, Entries, Owns, HasName, HasRef, RefsSelected, RefsKnown,
         WithRefs, At;
    AtRoom(input, n, Emitted(cs, region, items));
    AtSplit(input, n, Header(cs, region), Entries(items, |items|));
    AtElement(input, n, Header(cs, region), 0);
    AtElement(input, n, Header(cs, region), 1);
    StepsMatch(items, |items|, indexRank, input, n + 2);
    assert Descs(items)[..|items|] == Descs(items);
    var s := Steps(Start(n + 2, n + 2), Descs(items), input, indexRank).value;
    MatchesAll(s, items, indexRank);
  }

  lemma MatchesAll(s: State, items: seq<Item>, indexRank: nat)
    requires Matches(s, items, |items|, indexRank)
    ensures s.reqs == s.prs && (RefsKnown(s) <==> RefsSelected(items))
    ensures forall nm :: nm in WithRefs(s) <==> HasName(items, nm)
    ensures forall n | 0 <= n < |items| ::
              && items[n].name in WithRefs(s) && Owns(WithRefs(s)[items[n].name], items, n, indexRank)
              && WithRefs(s)[items[n].name].refcol == if HasRef(items[n]) then items[n].col.rc else None
  {
    hide HasRegion, HasKey, ValueReq, RegionReq, OwnsKeywords, OwnsMeasures, MdMatches, ValsMatch;
    assert items[..|items|] == items;
    if RefsKnown(s) {
      forall i | 0 <= i < |items| && HasRef(items[i]) ensures HasName(items, items[i].col.rc.value) {
        assert items[i].name in s.columns && items[i].name in s.refcols;
      }
    }
    if RefsSelected(items) {
      forall nm | nm in s.columns && nm in s.refcols ensures s.refcols[nm] in s.columns {
        var i :| 0 <= i < |items| && items[i].name == nm;
      }
    }
  }

  /**
   The index rank of a restored column is the smaller of the table's and the region's dimension: where
   ranks fit, the table's, or 1 for a region of one dimension.
   */
  lemma RestoredRank(t: PhysicalTable, cs: ColumnSpace, region: Region, items: seq<Item>, indexRank: nat, n: nat)
    requires Faithful(t, cs, region, items, indexRank) && n < |items|
    ensures items[n].name in t.columns
    ensures RankFits(items[n], indexRank)
       <==> items[n].col.region.space.dim == 1 || indexRank <= items[n].col.region.space.dim
    ensures var r, dim := t.columns[items[n].name].indexRank, items[n].col.region.space.dim;
            && r <= indexRank && r <= dim && (r == indexRank || r == dim)
            && (RankFits(items[n], indexRank) ==> r == if dim == 1 && indexRank >= 1 then 1 else indexRank)
  {
    hide HasRegion, HasKey, RegionReq, ValueReq, OwnsKeywords, OwnsMeasures, HasName;
  }

  // ----- several tables in one list -----

  datatype Table = Table(cs: ColumnSpace, region: Region, items: seq<Item>, indexRank: nat) {
    ghost predicate Parsable() { InStep(items) && RanksFit(items, indexRank) && RefsSelected(items) }

    function ToDesc(): TableDesc { TableDesc(Descs(items), indexRank) }
  }

  function EmittedAll(ts: seq<Table>): seq<Requirement> {
    if ts == [] then [] else Emitted(ts[0].cs, ts[0].region, ts[0].items) + EmittedAll(ts[1..])
  }

  function ToDescs(ts: seq<Table>): (ds: seq<TableDesc>)
    ensures |ds| == |ts|
  {
    if ts == [] then [] else [ts[0].ToDesc()] + ToDescs(ts[1..])
  }

  ghost predicate AllNamed(ts: seq<Table>) {
    ts != [] ==> DistinctNames(ts[0].items) && AllNamed(ts[1..])
  }

  ghost predicate AllParsable(ts: seq<Table>) {
    ts != [] ==> ts[0].Parsable() && AllParsable(ts[1..])
  }

  ghost predicate AllFaithful(tables: seq<PhysicalTable>, ts: seq<Table>) {
    && |tables| == |ts|
    && (ts != [] ==> Faithful(tables[0], ts[0].cs, ts[0].region, ts[0].items, ts[0].indexRank)
                     && AllFaithful(tables[1..], ts[1..]))
  }

  lemma ManyStep(ts: seq<Table>, input: Input, n: nat)
    requires ts != [] && n < |input.reqs| == |input.prs|
    ensures var one := Create(Descs(ts[0].items), ts[0].indexRank, input, n, n);
            Many(ToDescs(ts), input, n, n)
            == if one.Failure? then Failure(one.error)
               else
                 var rest := Many(ToDescs(ts[1..]), input, one.value.reqs, one.value.prs);
                 if rest.Failure? then rest else Success(rest.value.(tables := [one.value.table] + rest.value.tables))
  {
    hide Create, Descs;
    assert ToDescs(ts)[0] == ts[0].ToDesc() && ToDescs(ts)[1..] == ToDescs(ts[1..]);
  }

  lemma FaithfulStep(table: PhysicalTable, tables: seq<PhysicalTable>, ts: seq<Table>)
    requires ts != []
    ensures AllFaithful([table] + tables, ts)
       <==> Faithful(table, ts[0].cs, ts[0].region, ts[0].items, ts[0].indexRank) && AllFaithful(tables, ts[1..])
  {
    hide Faithful;
    assert ([table] + tables)[1..] == tables;
  }

  ghost predicate RestoresAll(r: Result<ParsedMany, ParseError>, ts: seq<Table>) {
    r.Success? && AllFaithful(r.value.tables, ts)
  }

  /**
   `create_many` on a concatenated list restores every table exactly when each is in step, and then it
   has cut the list exactly at the table boundaries.
   */
  lemma {:induction false} ManyLockstep(ts: seq<Table>, input: Input, n: nat)
    requires AllNamed(ts) && At(input, n, EmittedAll(ts))
    ensures var r := Many(ToDescs(ts), input, n, n);
            && (RestoresAll(r, ts) <==> AllParsable(ts))
            && (RestoresAll(r, ts) ==> r.value.reqs == r.value.prs == n + |EmittedAll(ts)|)
  {
    hide InStep, RanksFit, RefsSelected, DistinctNames, At, Create, Faithful, Emitted, AllFaithful, ToDescs;
    if ts != [] {
      hide Many;
      var t := ts[0];
      var first := Emitted(t.cs, t.region, t.items);
      AtSplit(input, n, first, EmittedAll(ts[1..]));
      Lockstep(t.cs, t.region, t.items, t.indexRank, input, n);
      AtRoom(input, n, first);
      NeverEmpty(t.cs, t.region, t.items);
      ManyLockstep(ts[1..], input, n + |first|);
      ManyStep(ts, input, n);
      var one := Create(Descs(t.items), t.indexRank, input, n, n);
      if one.Success? {
        var rest := Many(ToDescs(ts[1..]), input, one.value.reqs, one.value.prs);
        if rest.Success? { FaithfulStep(one.value.table, rest.value.tables, ts); }
      }
    } else {
      NoTables(input, n);
    }
  }

  lemma NoTables(input: Input, n: nat)
    ensures ToDescs([]) == [] && Many([], input, n, n) == Success(ParsedMany([], n, n)) && AllFaithful([], [])
  {
  }

  /** Where the list ends with a table, the descriptors that are left over are passed over in silence. */
  lemma {:induction false} ManyStops(descs: seq<TableDesc>, more: seq<TableDesc>, input: Input, reqs: nat, prs: nat)
    requires Many(descs, input, reqs, prs).Success?
    requires var r := Many(descs, input, reqs, prs).value;
             r.reqs >= |input.reqs| || r.prs >= |input.prs|
    ensures Many(descs + more, input, reqs, prs) == Many(descs, input, reqs, prs)
    decreases |descs|
  {
    hide Create;
    if descs == [] {
      assert descs + more == more;
    } else {
      assert (descs + more)[0] == descs[0] && (descs + more)[1..] == descs[1..] + more;
      if reqs < |input.reqs| && prs < |input.prs| {
        var one := Create(descs[0].columns, descs[0].indexRank, input, reqs, prs);
        ManyStops(descs[1..], more, input, one.value.reqs, one.value.prs);
      }
    }
  }

  lemma NeverEmpty(cs: ColumnSpace, region: Region, items: seq<Item>)
    ensures |Emitted(cs, region, items)| >= 2
  {
  }

  // ----- an input out of step -----

  /** Two columns on one field, asked for with different privileges. */
  function Clashing(region: Region, cs: ColumnSpace): seq<Item> {
    var a := Access(1, 0, true);
    var s := Settings(a, a, a, a, 0, 0, None);
    var col := Column(0, 7, cs, region, region, None, None, None);
    [Item("a", col, s), Item("b", col, s.(values := Access(2, 0, true)))]
  }

  /**
   The emitter then asks for the field twice, the parser takes one requirement only: the second stays
   behind, so a following table would be read from the wrong place.
   */
  lemma OutOfStep(region: Region, cs: ColumnSpace, input: Input, n: nat)
    requires region.space.dim == 1
    requires At(input, n, Emitted(cs, region, Clashing(region, cs)))
    ensures !InStepAt(Clashing(region, cs), 1)
    ensures var r := Create(Descs(Clashing(region, cs)), 1, input, n, n);
            r.Success? && r.value.reqs == n + |Emitted(cs, region, Clashing(region, cs))| - 1
  {
    hide ValueReq, RegionReq, HasKey, HasRegion, Steps, Step, At;
    var items := Clashing(region, cs);
    var it, ds := items[0], Descs(items);
    ClashingStep(region, cs);
    ClashingEntries(region, cs);
    AtRoom(input, n, Emitted(cs, region, items));
    AtSplit(input, n, Header(cs, region), Entries(items, 2));
    AtElement(input, n + 2, Entries(items, 2), 0);
    AtElement(input, n + 2, Entries(items, 2), 1);
    var s := Start(n + 2, n + 2);
    var v := ValueReq(items, it.Key());
    ValueReqShape(items, it.Key());
    FieldsOfValueReq(items, it.Key(), 7);
    FirstColumn(s, it, input, v);
    var s1 := Step(s, Desc(it), input, 1).value;
    SecondColumn(s1, items[1], input);
    StepsNext(s, ds, 0, input, 1);
    StepsNext(s, ds, 1, input, 1);
    NoSteps(s, input, 1);
    assert ds[..0] == [] && ds[..2] == ds;
  }

  lemma ClashingStep(region: Region, cs: ColumnSpace)
    ensures !InStepAt(Clashing(region, cs), 1)
  {
    hide HasKey;
    var items := Clashing(region, cs);
    NoKeys(items[0].Key());
    ListsIs(items, 0, 7);
    assert items[0].col.fid == 7 && items[..0] == [];
    ProviderStep(items, 0);
    assert Provides(items, 0, region, 7);
  }

  lemma NoKeys(key: ValueKey)
    ensures !HasKey([], key)
  {
  }

  lemma ClashingEntries(region: Region, cs: ColumnSpace)
    ensures var items := Clashing(region, cs);
            && HasKey(items, items[0].Key()) && HasKey(items, items[1].Key()) && HasRegion(items, region)
            && Entries(items, 2)
                == [RegionReq(items, region), ValueReq(items, items[0].Key()), ValueReq(items, items[1].Key())]
            && exists n :: 0 <= n < |items| && items[n].Key() == items[0].Key() && items[n].col.fid == 7
  {
    hide ValueReq, RegionReq;
    var items := Clashing(region, cs);
    Present(items, 0);
    Present(items, 1);
    assert items[..1] == [items[0]] && items[..0] == [];
    assert HasRegion(items[..1], region) by { assert items[..1][0].col.region == region; }
    assert Entry(items, 0) == [RegionReq(items, region), ValueReq(items, items[0].Key())];
    assert Entry(items, 1) == [ValueReq(items, items[1].Key())];
    EntriesStep(items, 0);
    EntriesStep(items, 1);
    EntriesStep(items, 2);
  }

  lemma FirstColumn(s: State, it: Item, input: Input, v: Requirement)
    requires s == Start(s.reqs, s.reqs) && s.reqs + 1 < |input.reqs| == |input.prs|
    requires it.col.kw.None? && it.col.mr.None? && it.col.region.space.dim == 1
    requires input.reqs[s.reqs + 1] == v && v.parent == it.col.region && it.col.fid in FieldsOf(v)
    ensures var r := Step(s, Desc(it), input, 1);
            && r.Success? && r.value.reqs == r.value.prs == s.reqs + 2 && r.value.refcols == map[]
            && it.col.region in r.value.md && (it.col.region, it.col.fid) in r.value.vals
            && r.value.vals[(it.col.region, it.col.fid)].parent == it.col.region
  {
  }

  lemma SecondColumn(s: State, it: Item, input: Input)
    requires it.col.kw.None? && it.col.mr.None? && it.col.region.space.dim == 1
    requires it.col.region in s.md && (it.col.region, it.col.fid) in s.vals
    requires s.vals[(it.col.region, it.col.fid)].parent == it.col.region
    ensures var r := Step(s, Desc(it), input, 1);
            r.Success? && r.value.reqs == s.reqs && r.value.prs == s.prs && r.value.refcols == s.refcols
  {
  }
}

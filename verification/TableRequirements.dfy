/** `Table::requirements` of hyperion/Table.cc: the flat list of region requirements of a table. */
module TableRequirements {
  import opened Wrappers

  datatype IndexSpace = IndexSpace(id: nat, dim: nat)

  datatype Region = Region(id: nat, space: IndexSpace)

  datatype ColumnSpace = ColumnSpace(columnIs: IndexSpace, metadata: Region)

  datatype Keywords = Keywords(typeTags: Region, values: Region)

  datatype MeasRegions = MeasRegions(metadata: Region, values: Region, index: Option<Region>)

  datatype Column = Column(
    dt: nat,
    fid: nat,
    cs: ColumnSpace,
    region: Region,
    parent: Region,
    kw: Option<Keywords>,
    mr: Option<MeasRegions>,
    rc: Option<string>
  )

  /** `Column::Req` and `Column::Requirements` */
  datatype Access = Access(privilege: nat, coherence: nat, mapped: bool)

  datatype Settings = Settings(
    values: Access,
    keywords: Access,
    measref: Access,
    columnSpace: Access,
    tag: nat,
    projection: nat,
    partition: Option<nat>
  )

  /** `Column::Desc` */
  datatype ColumnDesc = ColumnDesc(name: string, dt: nat, fid: nat, region: Region, nKw: nat, refcol: string, nMr: nat)

  datatype Target = Whole(region: Region) | Part(partition: nat, projection: nat)

  datatype Fields = Listed(fids: set<nat>) | AllFields

  datatype Requirement = Requirement(
    target: Target,
    parent: Region,
    privilege: nat,
    coherence: nat,
    tag: nat,
    fields: Fields,
    mapped: Fields
  )

  const READ_ONLY := 1
  const WRITE_ONLY := 2
  const EXCLUSIVE := 0
  const SIMULTANEOUS := 2
  const INDEX_COL_FID := 0
  const METADATA_FIDS := {0, 1, 2}
  const MEASURE_FIDS := {0, 1, 2}
  const MEASURE_VALUES_FID := 0
  const M_CODE_FID := 0

  /** A selected column with its settings. */
  datatype Item = Item(name: string, col: Column, settings: Settings) {
    function Key(): ValueKey {
      ValueKey(col.region, settings.values.privilege, settings.values.coherence, settings.tag, settings.partition)
    }
  }

  /** What has to agree for columns to share one requirement on their values. */
  datatype ValueKey = ValueKey(region: Region, privilege: nat, coherence: nat, tag: nat, partition: Option<nat>)

  function Desc(it: Item): ColumnDesc {
    ColumnDesc(it.name, it.col.dt, it.col.fid, it.col.region,
               if it.col.kw.Some? then 2 else 0,
               if it.col.rc.Some? then it.col.rc.value else "",
               match it.col.mr case None => 0 case Some(mr) => if mr.index.Some? then 3 else 2)
  }

  // ----- what each requirement says -----

  function MetadataReq(cs: ColumnSpace, privilege: nat, coherence: nat): Requirement {
    Requirement(Whole(cs.metadata), cs.metadata, privilege, coherence, 0, Listed(METADATA_FIDS), Listed(METADATA_FIDS))
  }

  function IndexReq(region: Region): Requirement {
    Requirement(Whole(region), region, WRITE_ONLY, SIMULTANEOUS, 0, Listed({INDEX_COL_FID}), Listed({}))
  }

  function FieldsReq(region: Region, privilege: nat, fields: Fields, mapped: bool): Requirement {
    Requirement(Whole(region), region, privilege, EXCLUSIVE, 0, fields, if mapped then fields else Listed({}))
  }

  function KeywordReqs(it: Item): seq<Requirement> {
    match it.col.kw
    case None => []
    case Some(kw) =>
      var a := it.settings.keywords;
      [FieldsReq(kw.typeTags, READ_ONLY, AllFields, a.mapped), FieldsReq(kw.values, a.privilege, AllFields, a.mapped)]
  }

  function MeasReqs(it: Item): seq<Requirement> {
    match it.col.mr
    case None => []
    case Some(mr) =>
      var a := it.settings.measref;
      [FieldsReq(mr.metadata, a.privilege, Listed(MEASURE_FIDS), a.mapped),
       FieldsReq(mr.values, a.privilege, Listed({MEASURE_VALUES_FID}), a.mapped)]
      + if mr.index.Some? then [FieldsReq(mr.index.value, a.privilege, Listed({M_CODE_FID}), a.mapped)] else []
  }

  predicate HasRegion(items: seq<Item>, region: Region) {
    exists k :: 0 <= k < |items| && items[k].col.region == region
  }

  predicate HasKey(items: seq<Item>, key: ValueKey) {
    exists k :: 0 <= k < |items| && items[k].Key() == key
  }

  /** The metadata requirement of a region is made for its first column. */
  function RegionReq(items: seq<Item>, region: Region): Requirement
    requires HasRegion(items, region)
  {
    var n := |items| - 1;
    if HasRegion(items[..n], region) then RegionReq(items[..n], region)
    else MetadataReq(items[n].col.cs, items[n].settings.columnSpace.privilege, items[n].settings.columnSpace.coherence)
  }

  function AddField(r: Requirement, fid: nat, mapped: bool): Requirement
    requires r.fields.Listed? && r.mapped.Listed?
  {
    r.(fields := Listed(r.fields.fids + {fid}), mapped := if mapped then Listed(r.mapped.fids + {fid}) else r.mapped)
  }

  function FirstValueReq(it: Item): Requirement {
    Requirement(if it.settings.partition.None? then Whole(it.col.region)
                else Part(it.settings.partition.value, it.settings.projection),
                it.col.region, it.settings.values.privilege, it.settings.values.coherence, it.settings.tag,
                Listed({}), Listed({}))
  }

  /** The value requirement of a key collects the fields of all columns with that key. */
  function ValueReq(items: seq<Item>, key: ValueKey): (r: Requirement)
    requires HasKey(items, key)
    ensures r.fields.Listed? && r.mapped.Listed?
  {
    var n := |items| - 1;
    var before := if HasKey(items[..n], key) then ValueReq(items[..n], key) else FirstValueReq(items[n]);
    if items[n].Key() == key then AddField(before, items[n].col.fid, items[n].settings.values.mapped) else before
  }

  /** The part of the list that column k adds. */
  function Entry(items: seq<Item>, k: nat): seq<Requirement>
    requires k < |items|
  {
    (if HasRegion(items[..k], items[k].col.region) then [] else [RegionReq(items, items[k].col.region)])
    + (if HasKey(items[..k], items[k].Key()) then [] else [ValueReq(items, items[k].Key())])
    + KeywordReqs(items[k]) + MeasReqs(items[k])
  }

  function Entries(items: seq<Item>, k: nat): seq<Requirement>
    requires k <= |items|
  {
    if k == 0 then [] else Entries(items, k - 1) + Entry(items, k - 1)
  }

  function Header(cs: ColumnSpace, region: Region): seq<Requirement> {
    [MetadataReq(cs, READ_ONLY, EXCLUSIVE), IndexReq(region)]
  }

  function Emitted(cs: ColumnSpace, region: Region, items: seq<Item>): seq<Requirement> {
    Header(cs, region) + Entries(items, |items|)
  }

  function Descs(items: seq<Item>): (ds: seq<ColumnDesc>)
    ensures |ds| == |items|
  {
    seq(|items|, k requires 0 <= k < |items| => Desc(items[k]))
  }

  function Selected(columns: seq<(string, Column)>, reqs: map<string, Settings>): seq<Item> {
    if columns == [] then []
    else
      var n := |columns| - 1;
      var c := columns[n];
      Selected(columns[..n], reqs) + if c.0 in reqs then [Item(c.0, c.1, reqs[c.0])] else []
  }

  lemma SelectedStep(columns: seq<(string, Column)>, reqs: map<string, Settings>, k: nat)
    requires k < |columns|
    ensures var before := Selected(columns[..k], reqs);
            Selected(columns[..k + 1], reqs)
            == if columns[k].0 in reqs then before + [Item(columns[k].0, columns[k].1, reqs[columns[k].0])] else before
  {
    assert columns[..k + 1][..k] == columns[..k];
  }

  // ----- the two passes over the columns -----

  /** The maps after the first pass over the first columns. */
  ghost predicate FirstPass(items: seq<Item>, md: map<Region, (bool, Requirement)>,
                            vals: map<ValueKey, (bool, Requirement)>) {
    && (forall r :: r in md <==> HasRegion(items, r))
    && (forall r | r in md :: md[r] == (false, RegionReq(items, r)))
    && (forall k :: k in vals <==> HasKey(items, k))
    && (forall k | k in vals :: vals[k] == (false, ValueReq(items, k)))
  }

  lemma OneMore(items: seq<Item>, it: Item, r: Region, k: ValueKey)
    ensures HasRegion(items + [it], r) <==> HasRegion(items, r) || it.col.region == r
    ensures HasKey(items + [it], k) <==> HasKey(items, k) || it.Key() == k
    ensures HasRegion(items + [it], r) ==>
              RegionReq(items + [it], r)
              == if HasRegion(items, r) then RegionReq(items, r)
                 else MetadataReq(it.col.cs, it.settings.columnSpace.privilege, it.settings.columnSpace.coherence)
    ensures HasKey(items + [it], k) ==>
              ValueReq(items + [it], k)
              == var before := if HasKey(items, k) then ValueReq(items, k) else FirstValueReq(it);
                 if it.Key() == k then AddField(before, it.col.fid, it.settings.values.mapped) else before
  {
    var all := items + [it];
    assert all[..|all| - 1] == items && all[|all| - 1] == it;
    if HasRegion(items, r) {
      var i :| 0 <= i < |items| && items[i].col.region == r;
      assert all[i].col.region == r;
    }
    if HasKey(items, k) {
      var i :| 0 <= i < |items| && items[i].Key() == k;
      assert all[i].Key() == k;
    }
  }

  lemma FirstPassStep(items: seq<Item>, it: Item, md: map<Region, (bool, Requirement)>,
                      vals: map<ValueKey, (bool, Requirement)>, md': map<Region, (bool, Requirement)>,
                      vals': map<ValueKey, (bool, Requirement)>)
    requires FirstPass(items, md, vals)
    requires md' == if it.col.region in md then md
                    else md[it.col.region := (false, MetadataReq(it.col.cs, it.settings.columnSpace.privilege,
                                                                 it.settings.columnSpace.coherence))]
    requires var before := if it.Key() in vals then vals[it.Key()].1 else FirstValueReq(it);
             before.fields.Listed? && before.mapped.Listed?
             && vals' == vals[it.Key() := (false, AddField(before, it.col.fid, it.settings.values.mapped))]
    ensures FirstPass(items + [it], md', vals')
  {
    hide HasRegion, HasKey, RegionReq, ValueReq;
    forall r ensures r in md' <==> HasRegion(items + [it], r) {
      OneMore(items, it, r, it.Key());
    }
    forall r | r in md' ensures md'[r] == (false, RegionReq(items + [it], r)) {
      OneMore(items, it, r, it.Key());
    }
    forall k ensures k in vals' <==> HasKey(items + [it], k) {
      OneMore(items, it, it.col.region, k);
    }
    forall k | k in vals' ensures vals'[k] == (false, ValueReq(items + [it], k)) {
      OneMore(items, it, it.col.region, k);
    }
  }

  method CollectReqs(columns: seq<(string, Column)>, columnReqs: map<string, Settings>)
      returns (md: map<Region, (bool, Requirement)>, vals: map<ValueKey, (bool, Requirement)>)
    ensures FirstPass(Selected(columns, columnReqs), md, vals)
  {
    hide FirstPass, HasRegion, HasKey, RegionReq;
    md, vals := map[], map[];
    NothingYet();
    var k := 0;
    while k < |columns|
      invariant k <= |columns| && FirstPass(Selected(columns[..k], columnReqs), md, vals)
      invariant forall key | key in vals :: vals[key].1.fields.Listed? && vals[key].1.mapped.Listed?
    {
      var (nm, col) := columns[k];
      SelectedStep(columns, columnReqs, k);
      if nm in columnReqs {
        var reqs := columnReqs[nm];
        ghost var md0, vals0 := md, vals;
        if col.region !in md {
          md := md[col.region := (false, MetadataReq(col.cs, reqs.columnSpace.privilege, reqs.columnSpace.coherence))];
        }
        var key := ValueKey(col.region, reqs.values.privilege, reqs.values.coherence, reqs.tag, reqs.partition);
        if key !in vals {
          vals := vals[key := (false, FirstValueReq(Item(nm, col, reqs)))];
        }
        vals := vals[key := (vals[key].0, AddField(vals[key].1, col.fid, reqs.values.mapped))];
        assert vals0[key := vals[key]] == vals;
        NotAdded(Selected(columns[..k], columnReqs), md0, vals0, key);
        FirstPassStep(Selected(columns[..k], columnReqs), Item(nm, col, reqs), md0, vals0, md, vals);
      }
      k := k + 1;
    }
    assert columns[..|columns|] == columns;
  }

  lemma NothingYet()
    ensures FirstPass([], map[], map[])
  {
  }

  lemma NotAdded(items: seq<Item>, md: map<Region, (bool, Requirement)>, vals: map<ValueKey, (bool, Requirement)>,
                 key: ValueKey)
    requires FirstPass(items, md, vals)
    ensures key in vals ==> !vals[key].0
  {
  }

  // ----- the second pass -----

  /** The flags of the maps once the first k of all items have been emitted. */
  ghost predicate SecondPass(items: seq<Item>, k: nat, md: map<Region, (bool, Requirement)>,
                             vals: map<ValueKey, (bool, Requirement)>)
    requires k <= |items|
  {
    && (forall r :: r in md <==> HasRegion(items, r))
    && (forall r | r in md :: md[r] == (HasRegion(items[..k], r), RegionReq(items, r)))
    && (forall key :: key in vals <==> HasKey(items, key))
    && (forall key | key in vals :: vals[key] == (HasKey(items[..k], key), ValueReq(items, key)))
  }

  lemma SecondPassStart(items: seq<Item>, md: map<Region, (bool, Requirement)>,
                        vals: map<ValueKey, (bool, Requirement)>)
    requires FirstPass(items, md, vals)
    ensures SecondPass(items, 0, md, vals) && Entries(items, 0) == []
  {
  }

  lemma SecondPassStep(items: seq<Item>, k: nat, md: map<Region, (bool, Requirement)>,
                       vals: map<ValueKey, (bool, Requirement)>)
    requires k < |items| && SecondPass(items, k, md, vals)
    ensures var r, key := items[k].col.region, items[k].Key();
            && r in md && md[r] == (HasRegion(items[..k], r), RegionReq(items, r))
            && key in vals && vals[key] == (HasKey(items[..k], key), ValueReq(items, key))
            && SecondPass(items, k + 1, md[r := (true, md[r].1)], vals[key := (true, vals[key].1)])
  {
    hide HasRegion, HasKey, RegionReq, ValueReq;
    var r, key := items[k].col.region, items[k].Key();
    Present(items, k);
    assert items[..k + 1] == items[..k] + [items[k]];
    forall q ensures HasRegion(items[..k + 1], q) <==> HasRegion(items[..k], q) || r == q {
      OneMore(items[..k], items[k], q, key);
    }
    forall q ensures HasKey(items[..k + 1], q) <==> HasKey(items[..k], q) || key == q {
      OneMore(items[..k], items[k], r, q);
    }
  }

  lemma Present(items: seq<Item>, k: nat)
    requires k < |items|
    ensures HasRegion(items, items[k].col.region) && HasKey(items, items[k].Key())
  {
  }

  lemma {:induction false} ItemsOfColumns(columns: seq<(string, Column)>, reqs: map<string, Settings>, k: nat)
    requires k <= |columns|
    ensures |Selected(columns[..k], reqs)| <= |Selected(columns, reqs)|
    ensures Selected(columns, reqs)[..|Selected(columns[..k], reqs)|] == Selected(columns[..k], reqs)
    decreases |columns| - k
  {
    if k < |columns| {
      SelectedStep(columns, reqs, k);
      ItemsOfColumns(columns, reqs, k + 1);
      var next := Selected(columns[..k + 1], reqs);
      assert Selected(columns[..k], reqs) == next[..|Selected(columns[..k], reqs)|];
    } else {
      assert columns[..k] == columns;
    }
  }

  lemma AlreadyAdded<K>(m: map<K, (bool, Requirement)>, k: K)
    requires k in m && m[k].0
    ensures m[k := (true, m[k].1)] == m
  {
  }

  lemma NoExtras(it: Item)
    ensures it.col.kw.None? ==> KeywordReqs(it) == []
    ensures it.col.mr.None? ==> MeasReqs(it) == []
  {
  }

  /** The body of the second loop for one selected column. */
  method EmitColumn(ghost items: seq<Item>, ghost n: nat, it: Item, md: map<Region, (bool, Requirement)>,
                    vals: map<ValueKey, (bool, Requirement)>, reqs: seq<Requirement>)
      returns (md': map<Region, (bool, Requirement)>, vals': map<ValueKey, (bool, Requirement)>,
               reqs': seq<Requirement>, cdesc: ColumnDesc)
    requires n < |items| && items[n] == it && SecondPass(items, n, md, vals)
    ensures SecondPass(items, n + 1, md', vals') && cdesc == Desc(it)
    ensures reqs' == reqs + Entry(items, n)
  {
    hide SecondPass, HasRegion, HasKey, RegionReq, ValueReq, KeywordReqs, MeasReqs;
    SecondPassStep(items, n, md, vals);
    NoExtras(it);
    md', vals', reqs' := md, vals, reqs;
    cdesc := Desc(it);
    ghost var first, second: seq<Requirement> := [], [];
    if !md[it.col.region].0 {
      first := [md[it.col.region].1];
      reqs' := reqs' + [md[it.col.region].1];
      md' := md[it.col.region := (true, md[it.col.region].1)];
    } else {
      AlreadyAdded(md, it.col.region);
    }
    if !vals[it.Key()].0 {
      second := [vals[it.Key()].1];
      reqs' := reqs' + [vals[it.Key()].1];
      vals' := vals[it.Key() := (true, vals[it.Key()].1)];
    } else {
      AlreadyAdded(vals, it.Key());
    }
    assert reqs' == reqs + (first + second);
    if cdesc.nKw > 0 {
      reqs' := reqs' + KeywordReqs(it);
    }
    assert reqs' == reqs + (first + second + KeywordReqs(it));
    if cdesc.nMr > 0 {
      reqs' := reqs' + MeasReqs(it);
    }
    assert reqs' == reqs + (first + second + KeywordReqs(it) + MeasReqs(it));
  }

  /** The whole emitter, in the order of the traversal of the columns. */
  method Requirements(indexCs: ColumnSpace, indexRegion: Region, columns: seq<(string, Column)>,
                      columnReqs: map<string, Settings>)
      returns (reqs: seq<Requirement>, descs: seq<ColumnDesc>)
    ensures reqs == Emitted(indexCs, indexRegion, Selected(columns, columnReqs))
    ensures descs == Descs(Selected(columns, columnReqs))
  {
    hide FirstPass, SecondPass, Selected, Entry, Entries, HasRegion, HasKey, RegionReq, ValueReq, Desc, MetadataReq,
         IndexReq;
    ghost var items := Selected(columns, columnReqs);
    var md, vals := CollectReqs(columns, columnReqs);
    SecondPassStart(items, md, vals);
    reqs := [MetadataReq(indexCs, READ_ONLY, EXCLUSIVE)];
    reqs := reqs + [IndexReq(indexRegion)];
    descs := [];
    var k := 0;
    ghost var n := 0;
    NoColumns(columns, columnReqs);
    while k < |columns|
      invariant k <= |columns| && n <= |items| && Selected(columns[..k], columnReqs) == items[..n]
      invariant SecondPass(items, n, md, vals)
      invariant reqs == Header(indexCs, indexRegion) + Entries(items, n) && descs == Descs(items[..n])
    {
      var (nm, col) := columns[k];
      SelectedStep(columns, columnReqs, k);
      ItemsOfColumns(columns, columnReqs, k + 1);
      if nm in columnReqs {
        var it := Item(nm, col, columnReqs[nm]);
        assert n < |items| && items[n] == it && items[..n + 1] == items[..n] + [it];
        var cdesc;
        EntriesNext(items, n, Header(indexCs, indexRegion));
        md, vals, reqs, cdesc := EmitColumn(items, n, it, md, vals, reqs);
        descs := descs + [cdesc];
        n := n + 1;
      }
      k := k + 1;
    }
    assert columns[..|columns|] == columns && items[..|items|] == items;
  }

  lemma EntriesNext(items: seq<Item>, n: nat, header: seq<Requirement>)
    requires n < |items|
    ensures header + Entries(items, n + 1) == header + Entries(items, n) + Entry(items, n)
  {
    hide Entry;
  }

  lemma NoColumns(columns: seq<(string, Column)>, reqs: map<string, Settings>)
    ensures Selected(columns[..0], reqs) == []
  {
  }
}

/** `legion_serialize` and `legion_deserialize` of hyperion/Table.cc. */
module TableSerialisation {
  import opened Wrappers
  import opened Slices
  import opened RequirementContents
  import opened TableRequirements

  /** A table without its runtime: the columns come in the order of their container. */
  datatype TableValue = TableValue(
    indexCs: ColumnSpace,
    indexRegion: Region,
    indexParent: Region,
    columns: seq<(string, Column)>
  )

  /** What is read back; the columns are a map by name. */
  datatype TableRead = TableRead(
    indexCs: ColumnSpace,
    indexRegion: Region,
    indexParent: Region,
    columns: map<string, Column>
  )

  const DEFAULT_ACCESS := Access(READ_ONLY, EXCLUSIVE, true)
  const DEFAULT_SETTINGS :=
    Settings(Access(READ_ONLY, EXCLUSIVE, false), DEFAULT_ACCESS, DEFAULT_ACCESS, DEFAULT_ACCESS, 0, 0, None)

  function DefaultItems(columns: seq<(string, Column)>): (items: seq<Item>)
    ensures |items| == |columns|
  {
    seq(|columns|, k requires 0 <= k < |columns| => Item(columns[k].0, columns[k].1, DEFAULT_SETTINGS))
  }

  function DefaultReqs(columns: seq<(string, Column)>): map<string, Settings> {
    map c | c in columns :: c.0 := DEFAULT_SETTINGS
  }

  lemma {:induction false} DefaultSelected(columns: seq<(string, Column)>, k: nat)
    requires k <= |columns|
    ensures Selected(columns[..k], DefaultReqs(columns)) == DefaultItems(columns[..k])
  {
    hide Selected, DefaultItems, DefaultReqs;
    DefaultStep(columns, k);
    if k > 0 {
      DefaultSelected(columns, k - 1);
      SelectedStep(columns, DefaultReqs(columns), k - 1);
    } else {
      NoColumns(columns, DefaultReqs(columns));
    }
  }

  lemma DefaultStep(columns: seq<(string, Column)>, k: nat)
    requires k <= |columns|
    ensures k == 0 ==> DefaultItems(columns[..k]) == []
    ensures k > 0 ==>
              && columns[k - 1].0 in DefaultReqs(columns) && DefaultReqs(columns)[columns[k - 1].0] == DEFAULT_SETTINGS
              && DefaultItems(columns[..k])
                 == DefaultItems(columns[..k - 1]) + [Item(columns[k - 1].0, columns[k - 1].1, DEFAULT_SETTINGS)]
  {
    if k > 0 { assert columns[k - 1] in columns; }
  }

  /** The requirements of a serialised table only read, exclusively; all but the values are mapped. */
  lemma DefaultContents(cs: ColumnSpace, region: Region, columns: seq<(string, Column)>, k: nat)
    requires k < |columns| && FirstOfSettings(DefaultItems(columns), k)
    ensures var items := DefaultItems(columns);
            var e, n := Emitted(cs, region, items), Place(items, k) + if FirstOfRegion(items, k) then 1 else 0;
            && n < |e| && e[n].target == Whole(columns[k].1.region) && e[n].parent == columns[k].1.region
            && e[n].privilege == 1 && e[n].coherence == 0 && e[n].tag == 0 && e[n].mapped == Listed({})
  {
    hide Emitted, Place, FirstOfRegion, FirstOfSettings, AsksFor;
    var items := DefaultItems(columns);
    ValuesContents(cs, region, items, k);
    var q := Emitted(cs, region, items)[Place(items, k) + if FirstOfRegion(items, k) then 1 else 0];
    forall f ensures f !in q.mapped.fids { NoneMapped(columns, k, f); }
  }

  lemma DefaultRegion(cs: ColumnSpace, region: Region, columns: seq<(string, Column)>, k: nat)
    requires k < |columns| && FirstOfRegion(DefaultItems(columns), k)
    ensures var items, metadata := DefaultItems(columns), columns[k].1.cs.metadata;
            var e, n := Emitted(cs, region, items), Place(items, k);
            && n < |e|
            && e[n] == Requirement(Whole(metadata), metadata, 1, 0, 0, Listed({0, 1, 2}), Listed({0, 1, 2}))
  {
    hide Emitted, Place, FirstOfRegion, FirstOfSettings;
    RegionContents(cs, region, DefaultItems(columns), k);
  }

  lemma DefaultKeywords(cs: ColumnSpace, region: Region, columns: seq<(string, Column)>, k: nat)
    requires k < |columns| && columns[k].1.kw.Some?
    ensures var items, kw := DefaultItems(columns), columns[k].1.kw.value;
            var e, n := Emitted(cs, region, items), PlaceOfExtras(items, k);
            && n + 1 < |e|
            && e[n] == Requirement(Whole(kw.typeTags), kw.typeTags, 1, 0, 0, AllFields, AllFields)
            && e[n + 1] == Requirement(Whole(kw.values), kw.values, 1, 0, 0, AllFields, AllFields)
  {
    hide Emitted, Place, PlaceOfExtras, FirstOfRegion, FirstOfSettings;
    KeywordContents(cs, region, DefaultItems(columns), k);
  }

  lemma DefaultMeasures(cs: ColumnSpace, region: Region, columns: seq<(string, Column)>, k: nat)
    requires k < |columns| && columns[k].1.mr.Some?
    ensures var items, mr := DefaultItems(columns), columns[k].1.mr.value;
            var e, n := Emitted(cs, region, items), PlaceOfExtras(items, k) + if columns[k].1.kw.Some? then 2 else 0;
            && n + 1 < |e|
            && e[n] == Requirement(Whole(mr.metadata), mr.metadata, 1, 0, 0, Listed({0, 1, 2}), Listed({0, 1, 2}))
            && e[n + 1] == Requirement(Whole(mr.values), mr.values, 1, 0, 0, Listed({0}), Listed({0}))
  {
    hide Emitted, Place, PlaceOfExtras, FirstOfRegion, FirstOfSettings;
    MeasureContents(cs, region, DefaultItems(columns), k);
  }

  lemma NoneMapped(columns: seq<(string, Column)>, k: nat, f: nat)
    requires k < |columns|
    ensures !AsksFor(DefaultItems(columns), k, f, true)
  {
  }

  // ----- regions -----

  function RegionOf(r: Requirement): Region { if r.target.Whole? then r.target.region else r.parent }

  function Regions(reqs: seq<Requirement>): (lrs: seq<Region>)
    ensures |lrs| == |reqs|
  {
    seq(|reqs|, k requires 0 <= k < |reqs| => RegionOf(reqs[k]))
  }

  /**
   The column spaces belong to the regions: the index space of a region is that of its column space,
   and the columns of one region share one column space.  An empty name is no reference column.
   */
  ghost predicate Consistent(columns: seq<(string, Column)>) {
    && (forall i, j | 0 <= i < j < |columns| :: columns[i].0 != columns[j].0)
    && (forall i | 0 <= i < |columns| ::
          columns[i].1.cs.columnIs == columns[i].1.region.space
              && (columns[i].1.rc.Some? ==> columns[i].1.rc.value != ""))
    && forall i, j | 0 <= i < |columns| && 0 <= j < |columns| && columns[i].1.region == columns[j].1.region ::
         columns[i].1.cs == columns[j].1.cs
  }

  // ----- reading the regions back -----

  datatype Reading = Reading(p: nat, css: map<Region, ColumnSpace>, columns: map<string, Column>)

  /** None where the original's assertion fails. */
  function ReadSpace(s: Reading, d: ColumnDesc, lrs: seq<Region>): Option<Reading> {
    if d.region in s.css then Some(s)
    else if s.p + 1 >= |lrs| then None
    else Some(s.(css := s.css[d.region := ColumnSpace(lrs[s.p + 1].space, lrs[s.p])], p := s.p + 2))
  }

  function ReadKeywords(s: Reading, d: ColumnDesc, lrs: seq<Region>): Option<(Reading, Option<Keywords>)> {
    if d.nKw == 0 then Some((s, None))
    else if d.nKw != 2 || s.p + 1 >= |lrs| then None
    else Some((s.(p := s.p + 2), Some(Keywords(lrs[s.p], lrs[s.p + 1]))))
  }

  function ReadMeasures(s: Reading, d: ColumnDesc, lrs: seq<Region>): Option<(Reading, Option<MeasRegions>)> {
    if d.nMr == 0 then Some((s, None))
    else if d.nMr < 2 || d.nMr > 3 || s.p + d.nMr > |lrs| then None
    else
      Some((s.(p := s.p + d.nMr),
            Some(MeasRegions(lrs[s.p], lrs[s.p + 1], if d.nMr == 3 then Some(lrs[s.p + 2]) else None))))
  }

  function ReadColumn(s: Reading, d: ColumnDesc, lrs: seq<Region>): Option<Reading> {
    var a := ReadSpace(s, d, lrs);
    if a.None? then None
    else
      var b := ReadKeywords(a.value, d, lrs);
      if b.None? then None
      else
        var c := ReadMeasures(b.value.0, d, lrs);
        if c.None? || d.region !in c.value.0.css then None
        else
          var t := c.value.0;
          Some(t.(columns := t.columns[d.name :=
            Column(d.dt, d.fid, t.css[d.region], d.region, d.region, b.value.1, c.value.1,
                   if d.refcol != "" then Some(d.refcol) else None)]))
  }

  function ReadColumns(s: Reading, ds: seq<ColumnDesc>, k: nat, lrs: seq<Region>): Option<Reading>
    requires k <= |ds|
  {
    if k == 0 then Some(s)
    else
      var before := ReadColumns(s, ds, k - 1, lrs);
      if before.None? then None else ReadColumn(before.value, ds[k - 1], lrs)
  }

  function Decode(ds: seq<ColumnDesc>, lrs: seq<Region>): Option<TableRead> {
    if |lrs| < 2 then None
    else
      var r := ReadColumns(Reading(2, map[], map[]), ds, |ds|, lrs);
      if r.None? then None
      else Some(TableRead(ColumnSpace(lrs[1].space, lrs[0]), lrs[1], lrs[1], r.value.columns))
  }

  // ----- decoding what the emitter wrote -----

  lemma RegionsAppend(a: seq<Requirement>, b: seq<Requirement>)
    ensures Regions(a + b) == Regions(a) + Regions(b)
  {
  }

  function KeywordRegions(c: Column): seq<Region> {
    match c.kw case None => [] case Some(kw) => [kw.typeTags, kw.values]
  }

  function MeasureRegions(c: Column): seq<Region> {
    match c.mr
    case None => []
    case Some(mr) => [mr.metadata, mr.values] + if mr.index.Some? then [mr.index.value] else []
  }

  /** The regions that column k contributes with default settings. */
  function EntryRegions(columns: seq<(string, Column)>, k: nat): seq<Region>
    requires k < |columns|
  {
    var c := columns[k].1;
    (if HasRegion(DefaultItems(columns[..k]), c.region) then [] else [c.cs.metadata, c.region])
    + KeywordRegions(c) + MeasureRegions(c)
  }

  lemma {:induction false} DefaultRegionReq(columns: seq<(string, Column)>, items: seq<Item>, c: Column)
    requires Consistent(columns) && items <= DefaultItems(columns) && HasRegion(items, c.region)
    requires exists i :: 0 <= i < |columns| && columns[i].1 == c
    ensures RegionOf(RegionReq(items, c.region)) == c.cs.metadata
    decreases |items|
  {
    var n := |items| - 1;
    var init, last := items[..n], items[n];
    assert items == init + [last] && last == DefaultItems(columns)[n];
    OneMore(init, last, c.region, last.Key());
    if HasRegion(init, c.region) { DefaultRegionReq(columns, init, c); }
  }

  lemma {:induction false} DefaultValueReq(items: seq<Item>, key: ValueKey)
    requires HasKey(items, key) && forall k | 0 <= k < |items| :: items[k].settings == DEFAULT_SETTINGS
    ensures RegionOf(ValueReq(items, key)) == key.region
  {
    var n := |items| - 1;
    var init, last := items[..n], items[n];
    assert items == init + [last];
    OneMore(init, last, last.col.region, key);
    if HasKey(init, key) { DefaultValueReq(init, key); }
  }

  /** With default settings a region has a value requirement as soon as it has a metadata requirement. */
  lemma DefaultKeys(items: seq<Item>, it: Item)
    requires it.settings == DEFAULT_SETTINGS && forall k | 0 <= k < |items| :: items[k].settings == DEFAULT_SETTINGS
    ensures HasKey(items, it.Key()) <==> HasRegion(items, it.col.region)
  {
    if HasKey(items, it.Key()) {
      var k :| 0 <= k < |items| && items[k].Key() == it.Key();
      assert items[k].col.region == it.col.region;
    }
    if HasRegion(items, it.col.region) {
      var k :| 0 <= k < |items| && items[k].col.region == it.col.region;
      assert items[k].Key() == it.Key();
    }
  }

  lemma KeywordsAre(it: Item)
    ensures Regions(KeywordReqs(it)) == KeywordRegions(it.col) && Regions(MeasReqs(it)) == MeasureRegions(it.col)
  {
  }

  lemma EntryAre(columns: seq<(string, Column)>, k: nat)
    requires Consistent(columns) && k < |columns|
    ensures Regions(Entry(DefaultItems(columns), k)) == EntryRegions(columns, k)
  {
    hide HasRegion, HasKey, RegionReq, ValueReq, KeywordReqs, MeasReqs, Consistent, KeywordRegions, MeasureRegions;
    var items := DefaultItems(columns);
    var it := items[k];
    Present(items, k);
    assert items[..k] == DefaultItems(columns[..k]);
    DefaultKeys(items[..k], it);
    DefaultRegionReq(columns, items, it.col);
    DefaultValueReq(items, it.Key());
    KeywordsAre(it);
    var a := if HasRegion(items[..k], it.col.region) then [] else [RegionReq(items, it.col.region)];
    var b := if HasKey(items[..k], it.Key()) then [] else [ValueReq(items, it.Key())];
    RegionsAppend(a + b + KeywordReqs(it), MeasReqs(it));
    RegionsAppend(a + b, KeywordReqs(it));
    assert Regions(a + b) == if HasRegion(items[..k], it.col.region) then [] else [it.col.cs.metadata, it.col.region];
  }

  function EntriesRegions(columns: seq<(string, Column)>, k: nat): seq<Region>
    requires k <= |columns|
  {
    if k == 0 then [] else EntriesRegions(columns, k - 1) + EntryRegions(columns, k - 1)
  }

  lemma {:induction false} EntriesAre(columns: seq<(string, Column)>, k: nat)
    requires Consistent(columns) && k <= |columns|
    ensures Regions(Entries(DefaultItems(columns), k)) == EntriesRegions(columns, k)
  {
    hide Entry, EntryRegions, Consistent, Regions, DefaultItems;
    if k > 0 {
      EntriesAre(columns, k - 1);
      EntryAre(columns, k - 1);
      RegionsAppend(Entries(DefaultItems(columns), k - 1), Entry(DefaultItems(columns), k - 1));
    } else {
      NoneRead();
    }
  }

  lemma NoneRead()
    ensures Regions([]) == []
  {
  }

  // ----- the reader keeps in step -----

  /** A column as it is read back: its parent region is not part of what is written. */
  function Restored(c: Column): Column { c.(parent := c.region) }

  ghost predicate HasColumn(columns: seq<(string, Column)>, nm: string) {
    exists i :: 0 <= i < |columns| && columns[i].0 == nm
  }

  ghost predicate ReadTo(s: Reading, columns: seq<(string, Column)>, k: nat)
    requires k <= |columns|
  {
    && (forall r :: r in s.css <==> HasRegion(DefaultItems(columns[..k]), r))
    && (forall i | 0 <= i < |columns| && columns[i].1.region in s.css :: s.css[columns[i].1.region] == columns[i].1.cs)
    && (forall nm | nm in s.columns :: HasColumn(columns[..k], nm))
    && forall i | 0 <= i < k :: columns[i].0 in s.columns && s.columns[columns[i].0] == Restored(columns[i].1)
  }

  lemma Longer(columns: seq<(string, Column)>, k: nat, r: Region, nm: string)
    requires k < |columns|
    ensures HasRegion(DefaultItems(columns[..k + 1]), r)
       <==> HasRegion(DefaultItems(columns[..k]), r) || columns[k].1.region == r
    ensures HasColumn(columns[..k + 1], nm) <==> HasColumn(columns[..k], nm) || columns[k].0 == nm
  {
    var it := Item(columns[k].0, columns[k].1, DEFAULT_SETTINGS);
    assert columns[..k + 1] == columns[..k] + [columns[k]];
    assert DefaultItems(columns[..k + 1]) == DefaultItems(columns[..k]) + [it];
    OneMore(DefaultItems(columns[..k]), it, r, it.Key());
    if HasColumn(columns[..k], nm) {
      var i :| 0 <= i < k && columns[..k][i].0 == nm;
      assert columns[..k + 1][i].0 == nm;
    }
    if columns[k].0 == nm { assert columns[..k + 1][k].0 == nm; }
    if HasColumn(columns[..k + 1], nm) && columns[k].0 != nm {
      var i :| 0 <= i < k + 1 && columns[..k + 1][i].0 == nm;
      assert columns[..k][i].0 == nm;
    }
  }

  lemma ReadSpaceStep(s: Reading, columns: seq<(string, Column)>, k: nat, lrs: seq<Region>, d: ColumnDesc)
    requires k < |columns| && Consistent(columns) && ReadTo(s, columns, k) && d.region == columns[k].1.region
    requires HoldsAt(lrs, s.p, if HasRegion(DefaultItems(columns[..k]), d.region) then []
                     else [columns[k].1.cs.metadata, d.region])
    ensures var r := ReadSpace(s, d, lrs);
            && r.Some? && r.value == s.(p := r.value.p, css := r.value.css)
            && r.value.p == s.p + (if HasRegion(DefaultItems(columns[..k]), d.region) then 0 else 2)
            && (forall q :: q in r.value.css <==> HasRegion(DefaultItems(columns[..k + 1]), q))
            && forall i | 0 <= i < |columns| && columns[i].1.region in r.value.css ::
                 r.value.css[columns[i].1.region] == columns[i].1.cs
  {
    hide HasRegion;
    var c := columns[k].1;
    forall q ensures HasRegion(DefaultItems(columns[..k + 1]), q)
        <==> HasRegion(DefaultItems(columns[..k]), q) || c.region == q {
      Longer(columns, k, q, "");
    }
    if !HasRegion(DefaultItems(columns[..k]), d.region) {
      HoldsElement(lrs, s.p, [c.cs.metadata, c.region], 0);
      HoldsElement(lrs, s.p, [c.cs.metadata, c.region], 1);
    }
  }

  lemma ReadKeywordsStep(s: Reading, it: Item, lrs: seq<Region>)
    requires HoldsAt(lrs, s.p, KeywordRegions(it.col))
    ensures ReadKeywords(s, Desc(it), lrs) == Some((s.(p := s.p + |KeywordRegions(it.col)|), it.col.kw))
  {
    if it.col.kw.Some? {
      HoldsElement(lrs, s.p, KeywordRegions(it.col), 0);
      HoldsElement(lrs, s.p, KeywordRegions(it.col), 1);
    }
  }

  lemma ReadMeasuresStep(s: Reading, it: Item, lrs: seq<Region>)
    requires HoldsAt(lrs, s.p, MeasureRegions(it.col))
    ensures ReadMeasures(s, Desc(it), lrs) == Some((s.(p := s.p + |MeasureRegions(it.col)|), it.col.mr))
  {
    if it.col.mr.Some? {
      HoldsElement(lrs, s.p, MeasureRegions(it.col), 0);
      HoldsElement(lrs, s.p, MeasureRegions(it.col), 1);
      if it.col.mr.value.index.Some? { HoldsElement(lrs, s.p, MeasureRegions(it.col), 2); }
    }
  }

  lemma ReadColumnStep(s: Reading, columns: seq<(string, Column)>, k: nat, lrs: seq<Region>)
    requires k < |columns| && Consistent(columns) && ReadTo(s, columns, k)
        && HoldsAt(lrs, s.p, EntryRegions(columns, k))
    ensures var r := ReadColumn(s, Desc(DefaultItems(columns)[k]), lrs);
            r.Some? && r.value.p == s.p + |EntryRegions(columns, k)| && ReadTo(r.value, columns, k + 1)
  {
    hide HasRegion, HasColumn, KeywordRegions, MeasureRegions, ReadSpace, ReadKeywords, ReadMeasures, HoldsAt;
    var it := DefaultItems(columns)[k];
    var d, c := Desc(it), it.col;
    var a := if HasRegion(DefaultItems(columns[..k]), c.region) then [] else [c.cs.metadata, c.region];
    HoldsSplit(lrs, s.p, a + KeywordRegions(c), MeasureRegions(c));
    HoldsSplit(lrs, s.p, a, KeywordRegions(c));
    ReadSpaceStep(s, columns, k, lrs, d);
    var s1 := ReadSpace(s, d, lrs).value;
    ReadKeywordsStep(s1, it, lrs);
    var s2 := ReadKeywords(s1, d, lrs).value.0;
    ReadMeasuresStep(s2, it, lrs);
    forall nm ensures HasColumn(columns[..k + 1], nm) <==> HasColumn(columns[..k], nm) || columns[k].0 == nm {
      Longer(columns, k, c.region, nm);
    }
    Longer(columns, k, c.region, it.name);
  }

  lemma {:induction false} ReadColumnsStep(columns: seq<(string, Column)>, k: nat, lrs: seq<Region>)
    requires k <= |columns| && Consistent(columns) && HoldsAt(lrs, 2, EntriesRegions(columns, k))
    ensures var r := ReadColumns(Reading(2, map[], map[]), Descs(DefaultItems(columns)), k, lrs);
            r.Some? && r.value.p == 2 + |EntriesRegions(columns, k)| && ReadTo(r.value, columns, k)
  {
    hide Consistent, HoldsAt, ReadTo, ReadColumn, EntryRegions;
    if k > 0 {
      HoldsSplit(lrs, 2, EntriesRegions(columns, k - 1), EntryRegions(columns, k - 1));
      ReadColumnsStep(columns, k - 1, lrs);
      var s := ReadColumns(Reading(2, map[], map[]), Descs(DefaultItems(columns)), k - 1, lrs).value;
      ReadColumnStep(s, columns, k - 1, lrs);
    } else {
      ReadNothing(columns);
    }
  }

  lemma ReadNothing(columns: seq<(string, Column)>)
    ensures ReadTo(Reading(2, map[], map[]), columns, 0)
  {
  }

  /** Exactly the columns of t, up to their parents; the index region becomes its own parent. */
  ghost predicate Same(r: TableRead, t: TableValue) {
    && r.indexCs == ColumnSpace(t.indexRegion.space, t.indexCs.metadata)
    && r.indexRegion == r.indexParent == t.indexRegion
    && (forall nm :: nm in r.columns <==> HasColumn(t.columns, nm))
    && forall i | 0 <= i < |t.columns| :: r.columns[t.columns[i].0] == Restored(t.columns[i].1)
  }

  /** Decoding the regions of the default requirements restores the table. */
  lemma DecodeEncoded(t: TableValue)
    requires Consistent(t.columns)
    ensures var items := DefaultItems(t.columns);
            var r := Decode(Descs(items), Regions(Emitted(t.indexCs, t.indexRegion, items)));
            r.Some? && Same(r.value, t)
  {
    hide Consistent, Entries, HasRegion, EntriesRegions, ReadColumns;
    var items := DefaultItems(t.columns);
    var lrs := Regions(Emitted(t.indexCs, t.indexRegion, items));
    RegionsAppend(Header(t.indexCs, t.indexRegion), Entries(items, |items|));
    EntriesAre(t.columns, |t.columns|);
    ReadColumnsStep(t.columns, |t.columns|, lrs);
    assert t.columns[..|t.columns|] == t.columns;
    var s := ReadColumns(Reading(2, map[], map[]), Descs(items), |items|, lrs).value;
    forall i | 0 <= i < |t.columns| ensures HasColumn(t.columns, t.columns[i].0) {
    }
  }
}

/**
 What the requirements of a table say, entry by entry, in the numbers of Legion and Hyperion: privileges
 READ_ONLY 1 and WRITE_ONLY 2, coherences EXCLUSIVE 0 and SIMULTANEOUS 2, and field identifiers.
 */
module RequirementContents {
  import opened Wrappers
  import opened TableRequirements

  ghost predicate FirstOfRegion(items: seq<Item>, k: nat)
    requires k < |items|
  {
    forall j | 0 <= j < k :: items[j].col.region != items[k].col.region
  }

  /** Columns that ask in the same way for values of the same region. */
  ghost predicate SameSettings(a: Item, b: Item) {
    && a.col.region == b.col.region && a.settings.values.privilege == b.settings.values.privilege
    && a.settings.values.coherence == b.settings.values.coherence && a.settings.tag == b.settings.tag
    && a.settings.partition == b.settings.partition
  }

  ghost predicate FirstOfSettings(items: seq<Item>, k: nat)
    requires k < |items|
  {
    forall j | 0 <= j < k :: !SameSettings(items[j], items[k])
  }

  lemma SameKeyIs(a: Item, b: Item)
    ensures a.Key() == b.Key() <==> SameSettings(a, b)
  {
  }

  lemma FirstsAre(items: seq<Item>, k: nat)
    requires k < |items|
    ensures FirstOfRegion(items, k) <==> !HasRegion(items[..k], items[k].col.region)
    ensures FirstOfSettings(items, k) <==> !HasKey(items[..k], items[k].Key())
  {
    forall j | 0 <= j < k
      ensures items[..k][j] == items[j] && (items[j].Key() == items[k].Key() <==> SameSettings(items[j], items[k]))
    {
      SameKeyIs(items[j], items[k]);
    }
  }

  // ----- where the entries stand -----

  /** How many requirements column k adds: its region's, its values', its keywords', its measures'. */
  ghost function Added(items: seq<Item>, k: nat): (n: nat)
    requires k < |items|
  {
    (if FirstOfRegion(items, k) then 1 else 0) + (if FirstOfSettings(items, k) then 1 else 0)
    + (if items[k].col.kw.Some? then 2 else 0)
    + (match items[k].col.mr case None => 0 case Some(mr) => if mr.index.Some? then 3 else 2)
  }

  /** Where the requirements of column k start. */
  ghost function Place(items: seq<Item>, k: nat): nat
    requires k <= |items|
  {
    if k == 0 then 2 else Place(items, k - 1) + Added(items, k - 1)
  }

  lemma EntryLength(items: seq<Item>, k: nat)
    requires k < |items|
    ensures |Entry(items, k)| == Added(items, k)
  {
    hide HasRegion, HasKey, RegionReq, ValueReq, FirstOfRegion, FirstOfSettings;
    FirstsAre(items, k);
    Present(items, k);
  }

  lemma {:induction false} PlaceOfEntries(cs: ColumnSpace, region: Region, items: seq<Item>, k: nat)
    requires k <= |items|
    ensures Place(items, k) == 2 + |Entries(items, k)|
  {
    hide Entry, Added;
    if k > 0 {
      PlaceOfEntries(cs, region, items, k - 1);
      EntryLength(items, k - 1);
    }
  }

  lemma {:induction false} EntryAt(cs: ColumnSpace, region: Region, items: seq<Item>, k: nat, m: nat, i: nat)
    requires k < m <= |items| && i < |Entry(items, k)|
    ensures var l := Header(cs, region) + Entries(items, m);
            Place(items, k) + i < |l| && l[Place(items, k) + i] == Entry(items, k)[i]
  {
    hide Entry, Added, Header;
    PlaceOfEntries(cs, region, items, k);
    HeaderLength(cs, region);
    if m > k + 1 {
      EntryAt(cs, region, items, k, m - 1, i);
    }
    assert Header(cs, region) + Entries(items, m) == (Header(cs, region) + Entries(items, m - 1)) + Entry(items, m - 1);
  }

  lemma HeaderLength(cs: ColumnSpace, region: Region)
    ensures |Header(cs, region)| == 2
  {
  }

  // ----- what they say -----

  lemma HeaderContents(cs: ColumnSpace, region: Region, items: seq<Item>)
    ensures var e := Emitted(cs, region, items);
            && |e| == Place(items, |items|)
            && e[0] == Requirement(Whole(cs.metadata), cs.metadata, 1, 0, 0, Listed({0, 1, 2}), Listed({0, 1, 2}))
            && e[1] == Requirement(Whole(region), region, 2, 2, 0, Listed({0}), Listed({}))
  {
    PlaceOfEntries(cs, region, items, |items|);
  }

  /** The metadata requirement of a region has the settings of its first column. */
  lemma RegionContents(cs: ColumnSpace, region: Region, items: seq<Item>, k: nat)
    requires k < |items| && FirstOfRegion(items, k)
    ensures var e, n, it := Emitted(cs, region, items), Place(items, k), items[k];
            && n < |e|
            && e[n] == Requirement(Whole(it.col.cs.metadata), it.col.cs.metadata, it.settings.columnSpace.privilege,
                                   it.settings.columnSpace.coherence, 0, Listed({0, 1, 2}), Listed({0, 1, 2}))
  {
    hide HasRegion, HasKey, ValueReq, FirstOfRegion, FirstOfSettings, Entries, Place;
    FirstsAre(items, k);
    Present(items, k);
    EntryAt(cs, region, items, k, |items|, 0);
    FirstRegionReq(items, k, |items|);
    assert items[..|items|] == items;
  }

  lemma {:induction false} FirstRegionReq(items: seq<Item>, k: nat, m: nat)
    requires k < m <= |items| && !HasRegion(items[..k], items[k].col.region)
    ensures HasRegion(items[..m], items[k].col.region)
    ensures RegionReq(items[..m], items[k].col.region)
         == MetadataReq(items[k].col.cs, items[k].settings.columnSpace.privilege,
                        items[k].settings.columnSpace.coherence)
  {
    hide HasRegion, RegionReq;
    if m > k + 1 { FirstRegionReq(items, k, m - 1); }
    assert items[..m] == items[..m - 1] + [items[m - 1]];
    OneMore(items[..m - 1], items[m - 1], items[k].col.region, items[k].Key());
  }

  /** The value requirement of the columns with the settings of column k, the first of them. */
  ghost predicate ValuesSaid(q: Requirement, items: seq<Item>, k: nat)
    requires k < |items|
  {
    var it := items[k];
    && q.target == (if it.settings.partition.None? then Whole(it.col.region)
                    else Part(it.settings.partition.value, it.settings.projection))
    && q.parent == it.col.region && q.privilege == it.settings.values.privilege
    && q.coherence == it.settings.values.coherence && q.tag == it.settings.tag
    && q.fields.Listed? && q.mapped.Listed?
    && (forall f :: f in q.fields.fids <==> AsksFor(items, k, f, false))
    && (forall f :: f in q.mapped.fids <==> AsksFor(items, k, f, true))
  }

  /** Some column with the settings of column k is on field f, and if it is so asked, has it mapped. */
  ghost predicate AsksFor(items: seq<Item>, k: nat, f: nat, mapped: bool)
    requires k < |items|
  {
    exists n :: 0 <= n < |items| && SameSettings(items[n], items[k]) && items[n].col.fid == f
                && (mapped ==> items[n].settings.values.mapped)
  }

  /** The same of the first m columns. */
  ghost predicate Asked(items: seq<Item>, m: nat, key: ValueKey, f: nat, mapped: bool)
    requires m <= |items|
  {
    exists n ::
      && 0 <= n < m && items[n].Key() == key && items[n].col.fid == f
      && (mapped ==> items[n].settings.values.mapped)
  }

  lemma {:induction false} CollectedFields(items: seq<Item>, m: nat, key: ValueKey)
    requires m <= |items| && HasKey(items[..m], key)
    ensures var q := ValueReq(items[..m], key);
            && (forall f :: f in q.fields.fids <==> Asked(items, m, key, f, false))
            && (forall f :: f in q.mapped.fids <==> Asked(items, m, key, f, true))
  {
    hide HasKey;
    NotNone(items[..m], key);
    var init := items[..m][..m - 1];
    assert init == items[..m - 1];
    if HasKey(init, key) { CollectedFields(items, m - 1, key); } else { NoneAsked(items, m - 1, key); }
    forall f, mapped ensures Asked(items, m, key, f, mapped)
      <==> Asked(items, m - 1, key, f, mapped)
           || (items[m - 1].Key() == key && items[m - 1].col.fid == f
               && (mapped ==> items[m - 1].settings.values.mapped))
    {
      AskedNext(items, m - 1, key, f, mapped);
    }
  }

  lemma NotNone(items: seq<Item>, key: ValueKey)
    requires HasKey(items, key)
    ensures items != [] && (!HasKey(items[..|items| - 1], key) ==> items[|items| - 1].Key() == key)
  {
    var n :| 0 <= n < |items| && items[n].Key() == key;
    if n < |items| - 1 { assert items[..|items| - 1][n].Key() == key; }
  }

  lemma NoneAsked(items: seq<Item>, m: nat, key: ValueKey)
    requires m <= |items| && !HasKey(items[..m], key)
    ensures forall f, mapped :: !Asked(items, m, key, f, mapped)
  {
    forall n | 0 <= n < m ensures items[n].Key() != key { assert items[..m][n] == items[n]; }
  }

  lemma AskedNext(items: seq<Item>, m: nat, key: ValueKey, f: nat, mapped: bool)
    requires m < |items|
    ensures Asked(items, m + 1, key, f, mapped)
       <==> Asked(items, m, key, f, mapped)
            || (items[m].Key() == key && items[m].col.fid == f && (mapped ==> items[m].settings.values.mapped))
  {
  }

  lemma {:induction false} FirstSettings(items: seq<Item>, k: nat, m: nat)
    requires k < m <= |items| && !HasKey(items[..k], items[k].Key())
    ensures HasKey(items[..m], items[k].Key())
    ensures var q, f := ValueReq(items[..m], items[k].Key()), FirstValueReq(items[k]);
            q.target == f.target && q.parent == f.parent && q.privilege == f.privilege && q.coherence == f.coherence
            && q.tag == f.tag
  {
    hide HasKey, ValueReq;
    if m > k + 1 { FirstSettings(items, k, m - 1); }
    assert items[..m] == items[..m - 1] + [items[m - 1]];
    OneMore(items[..m - 1], items[m - 1], items[k].col.region, items[k].Key());
  }

  lemma ValuesContents(cs: ColumnSpace, region: Region, items: seq<Item>, k: nat)
    requires k < |items| && FirstOfSettings(items, k)
    ensures var e, n := Emitted(cs, region, items), Place(items, k) + if FirstOfRegion(items, k) then 1 else 0;
            n < |e| && ValuesSaid(e[n], items, k)
  {
    hide HasRegion, HasKey, RegionReq, ValueReq, FirstOfRegion, FirstOfSettings, Entries, Place, Asked, AsksFor;
    FirstsAre(items, k);
    Present(items, k);
    EntryAt(cs, region, items, k, |items|, if FirstOfRegion(items, k) then 1 else 0);
    assert items[..|items|] == items;
    FirstSettings(items, k, |items|);
    CollectedFields(items, |items|, items[k].Key());
    forall f, mapped ensures Asked(items, |items|, items[k].Key(), f, mapped) <==> AsksFor(items, k, f, mapped) {
      AskedIs(items, k, f, mapped);
    }
  }

  lemma AskedIs(items: seq<Item>, k: nat, f: nat, mapped: bool)
    requires k < |items|
    ensures Asked(items, |items|, items[k].Key(), f, mapped) <==> AsksFor(items, k, f, mapped)
  {
    forall n | 0 <= n < |items| ensures items[n].Key() == items[k].Key() <==> SameSettings(items[n], items[k]) {
      SameKeyIs(items[n], items[k]);
    }
  }

  /** Where the keywords of column k stand. */
  ghost function PlaceOfExtras(items: seq<Item>, k: nat): nat
    requires k < |items|
  {
    Place(items, k) + (if FirstOfRegion(items, k) then 1 else 0) + if FirstOfSettings(items, k) then 1 else 0
  }

  /** All keyword types are read; the values are accessed as the column asks. */
  lemma KeywordContents(cs: ColumnSpace, region: Region, items: seq<Item>, k: nat)
    requires k < |items| && items[k].col.kw.Some?
    ensures var e, n, kw := Emitted(cs, region, items), PlaceOfExtras(items, k), items[k].col.kw.value;
            var a := items[k].settings.keywords;
            var mapped := if a.mapped then AllFields else Listed({});
            && n + 1 < |e|
            && e[n] == Requirement(Whole(kw.typeTags), kw.typeTags, 1, 0, 0, AllFields, mapped)
            && e[n + 1] == Requirement(Whole(kw.values), kw.values, a.privilege, 0, 0, AllFields, mapped)
  {
    hide HasRegion, HasKey, RegionReq, ValueReq, FirstOfRegion, FirstOfSettings, Entries, Place;
    FirstsAre(items, k);
    Present(items, k);
    var o := PlaceOfExtras(items, k) - Place(items, k);
    EntryAt(cs, region, items, k, |items|, o);
    EntryAt(cs, region, items, k, |items|, o + 1);
  }

  /** Class, reference type and number of values; the values; the codes if there are any. */
  lemma MeasureContents(cs: ColumnSpace, region: Region, items: seq<Item>, k: nat)
    requires k < |items| && items[k].col.mr.Some?
    ensures var e, mr := Emitted(cs, region, items), items[k].col.mr.value;
            var n := PlaceOfExtras(items, k) + if items[k].col.kw.Some? then 2 else 0;
            var a, none := items[k].settings.measref, Listed({});
            && n + 1 < |e|
            && e[n] == Requirement(Whole(mr.metadata), mr.metadata, a.privilege, 0, 0, Listed({0, 1, 2}),
                                   if a.mapped then Listed({0, 1, 2}) else none)
            && e[n + 1] == Requirement(Whole(mr.values), mr.values, a.privilege, 0, 0, Listed({0}),
                                       if a.mapped then Listed({0}) else none)
            && (mr.index.Some? ==>
                  && n + 2 < |e|
                  && e[n + 2] == Requirement(Whole(mr.index.value), mr.index.value, a.privilege, 0, 0, Listed({0}),
                                             if a.mapped then Listed({0}) else none))
  {
    hide HasRegion, HasKey, RegionReq, ValueReq, FirstOfRegion, FirstOfSettings, Entries, Place;
    FirstsAre(items, k);
    Present(items, k);
    var o := PlaceOfExtras(items, k) - Place(items, k) + if items[k].col.kw.Some? then 2 else 0;
    EntryAt(cs, region, items, k, |items|, o);
    EntryAt(cs, region, items, k, |items|, o + 1);
    if items[k].col.mr.value.index.Some? { EntryAt(cs, region, items, k, |items|, o + 2); }
  }

  /** The descriptor of a column announces how many requirements follow that are its own. */
  lemma Announced(items: seq<Item>, k: nat)
    requires k < |items|
    ensures var d := Desc(items[k]);
            Place(items, k + 1) == PlaceOfExtras(items, k) + d.nKw + d.nMr
  {
    hide FirstOfRegion, FirstOfSettings;
  }
}

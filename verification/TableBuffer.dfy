/** The buffer of `legion_serialize` and `legion_deserialize` in hyperion/Table.cc. */
module TableBuffer {
  import opened Wrappers
  import opened TableRequirements
  import opened TableSerialisation

  datatype Cell = Count(n: nat) | DescCell(desc: ColumnDesc) | RegionCell(region: Region)

  /** Raw memory: what starts at each byte offset. */
  class Buffer {
    var cells: map<int, Cell>
  }

  const SIZEOF_UNSIGNED := 4

  /** sizeof(Column::Desc) and sizeof(LogicalRegion) */
  datatype Sizes = Sizes(desc: nat, region: nat) {
    predicate Valid() { desc > 0 && region > 0 }
  }

  function DescOffset(sz: Sizes, i: nat): nat { SIZEOF_UNSIGNED + i * sz.desc }

  function RegionOffset(sz: Sizes, n: nat, i: nat): nat { DescOffset(sz, n) + SIZEOF_UNSIGNED + i * sz.region }

  lemma OffsetsGrow(sz: Sizes, n: nat, i: nat, j: nat)
    requires sz.Valid() && i < j
    ensures 0 < DescOffset(sz, i) < DescOffset(sz, j) && DescOffset(sz, i + 1) == DescOffset(sz, i) + sz.desc
    ensures RegionOffset(sz, n, i) < RegionOffset(sz, n, j)
    ensures RegionOffset(sz, n, i + 1) == RegionOffset(sz, n, i) + sz.region
    ensures RegionOffset(sz, n, 0) == DescOffset(sz, n) + SIZEOF_UNSIGNED
  {
    Products(sz.desc, i, j);
    Products(sz.region, i, j);
  }

  lemma Products(d: nat, i: nat, j: nat)
    requires d > 0 && i < j
    ensures i * d < j * d && (i + 1) * d == i * d + d && 0 * d == 0
  {
    assert (j - i) * d >= d;
  }

  lemma RegionsBehind(sz: Sizes, n: nat, i: nat)
    ensures DescOffset(sz, n) < RegionOffset(sz, n, i)
  {
  }

  function BufferSize(n: nat, m: nat, sz: Sizes): nat { RegionOffset(sz, n, m) }

  ghost predicate StoredDescs(cells: map<int, Cell>, ds: seq<ColumnDesc>, k: nat, sz: Sizes)
    requires k <= |ds|
  {
    forall i: nat | i < k :: HoldsDesc(cells, ds[i], i, sz)
  }

  ghost predicate HoldsDesc(cells: map<int, Cell>, d: ColumnDesc, i: nat, sz: Sizes) {
    DescOffset(sz, i) in cells && cells[DescOffset(sz, i)] == DescCell(d)
  }

  ghost predicate StoredRegions(cells: map<int, Cell>, n: nat, lrs: seq<Region>, k: nat, sz: Sizes)
    requires k <= |lrs|
  {
    forall i: nat | i < k :: HoldsRegion(cells, n, lrs[i], i, sz)
  }

  ghost predicate HoldsRegion(cells: map<int, Cell>, n: nat, r: Region, i: nat, sz: Sizes) {
    RegionOffset(sz, n, i) in cells && cells[RegionOffset(sz, n, i)] == RegionCell(r)
  }

  ghost predicate HoldsCount(cells: map<int, Cell>, at: int, n: nat) {
    at in cells && cells[at] == Count(n)
  }

  ghost predicate Stored(cells: map<int, Cell>, ds: seq<ColumnDesc>, lrs: seq<Region>, sz: Sizes) {
    && HoldsCount(cells, 0, |ds|) && StoredDescs(cells, ds, |ds|, sz)
    && HoldsCount(cells, DescOffset(sz, |ds|), |lrs|) && StoredRegions(cells, |ds|, lrs, |lrs|, sz)
  }

  /** In bytes: the number of columns in the first four, their descriptors, the number of regions in four, these. */
  lemma BufferLayout(cells: map<int, Cell>, ds: seq<ColumnDesc>, lrs: seq<Region>, sz: Sizes)
    ensures BufferSize(|ds|, |lrs|, sz) == 8 + |ds| * sz.desc + |lrs| * sz.region
    ensures Stored(cells, ds, lrs, sz)
       <==> var behind := 4 + |ds| * sz.desc;
            && 0 in cells && cells[0] == Count(|ds|) && behind in cells && cells[behind] == Count(|lrs|)
            && (forall i: nat | i < |ds| :: HoldsAt(cells, 4, i, sz.desc, DescCell(ds[i])))
            && forall i: nat | i < |lrs| :: HoldsAt(cells, behind + 4, i, sz.region, RegionCell(lrs[i]))
  {
    forall i: nat | i < |ds|
      ensures HoldsDesc(cells, ds[i], i, sz) <==> HoldsAt(cells, 4, i, sz.desc, DescCell(ds[i]))
    {
    }
    forall i: nat | i < |lrs|
      ensures HoldsRegion(cells, |ds|, lrs[i], i, sz)
         <==> HoldsAt(cells, 4 + |ds| * sz.desc + 4, i, sz.region, RegionCell(lrs[i]))
    {
    }
  }

  /** Item i of a row of items of this size from `at` on. */
  ghost predicate HoldsAt(cells: map<int, Cell>, at: int, i: nat, size: nat, cell: Cell) {
    at + i * size in cells && cells[at + i * size] == cell
  }

  lemma StoreDesc(cells: map<int, Cell>, ds: seq<ColumnDesc>, k: nat, sz: Sizes)
    requires sz.Valid() && k < |ds| && HoldsCount(cells, 0, |ds|) && StoredDescs(cells, ds, k, sz)
    ensures var after := cells[DescOffset(sz, k) := DescCell(ds[k])];
            HoldsCount(after, 0, |ds|) && StoredDescs(after, ds, k + 1, sz)
  {
    var after := cells[DescOffset(sz, k) := DescCell(ds[k])];
    OffsetsGrow(sz, 0, k, k + 1);
    forall i: nat | i < k + 1 ensures HoldsDesc(after, ds[i], i, sz) {
      if i < k {
        OffsetsGrow(sz, 0, i, k);
        assert HoldsDesc(cells, ds[i], i, sz);
      }
    }
  }

  lemma StoreCount(cells: map<int, Cell>, ds: seq<ColumnDesc>, m: nat, sz: Sizes)
    requires sz.Valid() && HoldsCount(cells, 0, |ds|) && StoredDescs(cells, ds, |ds|, sz)
    ensures var after := cells[DescOffset(sz, |ds|) := Count(m)];
            HoldsCount(after, 0, |ds|) && StoredDescs(after, ds, |ds|, sz) && HoldsCount(after, DescOffset(sz, |ds|), m)
  {
    var after := cells[DescOffset(sz, |ds|) := Count(m)];
    OffsetsGrow(sz, 0, |ds|, |ds| + 1);
    forall i: nat | i < |ds| ensures HoldsDesc(after, ds[i], i, sz) {
      OffsetsGrow(sz, 0, i, |ds|);
      assert HoldsDesc(cells, ds[i], i, sz);
    }
  }

  lemma StoreRegion(cells: map<int, Cell>, ds: seq<ColumnDesc>, lrs: seq<Region>, k: nat, sz: Sizes)
    requires sz.Valid() && k < |lrs| && HoldsCount(cells, 0, |ds|) && StoredDescs(cells, ds, |ds|, sz)
    requires HoldsCount(cells, DescOffset(sz, |ds|), |lrs|) && StoredRegions(cells, |ds|, lrs, k, sz)
    ensures var after := cells[RegionOffset(sz, |ds|, k) := RegionCell(lrs[k])];
            && HoldsCount(after, 0, |ds|) && StoredDescs(after, ds, |ds|, sz)
            && HoldsCount(after, DescOffset(sz, |ds|), |lrs|) && StoredRegions(after, |ds|, lrs, k + 1, sz)
  {
    var n := |ds|;
    var after := cells[RegionOffset(sz, n, k) := RegionCell(lrs[k])];
    RegionsBehind(sz, n, k);
    forall i: nat | i < n ensures HoldsDesc(after, ds[i], i, sz) {
      OffsetsGrow(sz, 0, i, n);
      assert HoldsDesc(cells, ds[i], i, sz);
    }
    forall i: nat | i < k + 1 ensures HoldsRegion(after, n, lrs[i], i, sz) {
      if i < k {
        OffsetsGrow(sz, n, i, k);
        assert HoldsRegion(cells, n, lrs[i], i, sz);
      }
    }
  }

  function Encoding(t: TableValue): seq<Region> {
    Regions(Emitted(t.indexCs, t.indexRegion, DefaultItems(t.columns)))
  }

  function EncodedDescs(t: TableValue): seq<ColumnDesc> { Descs(DefaultItems(t.columns)) }

  method DefaultRequirements(t: TableValue) returns (reqs: seq<Requirement>, descs: seq<ColumnDesc>)
    ensures reqs == Emitted(t.indexCs, t.indexRegion, DefaultItems(t.columns))
    ensures descs == Descs(DefaultItems(t.columns))
  {
    DefaultSelected(t.columns, |t.columns|);
    assert t.columns[..|t.columns|] == t.columns;
    reqs, descs := Requirements(t.indexCs, t.indexRegion, t.columns, DefaultReqs(t.columns));
  }

  method LegionBufferSize(t: TableValue, sz: Sizes) returns (n: nat)
    ensures n == BufferSize(|EncodedDescs(t)|, |Encoding(t)|, sz)
  {
    hide Emitted, Descs, DefaultItems;
    var treqs, tdesc := DefaultRequirements(t);
    n := SIZEOF_UNSIGNED + |tdesc| * sz.desc + SIZEOF_UNSIGNED + |treqs| * sz.region;
  }

  /** Nothing outside the first n bytes has been touched. */
  ghost predicate KeptOutside(before: map<int, Cell>, after: map<int, Cell>, n: nat) {
    forall b: int | b < 0 || b >= n :: (b in after <==> b in before) && (b in before ==> after[b] == before[b])
  }

  lemma KeptNext(first: map<int, Cell>, cells: map<int, Cell>, b: nat, c: Cell, next: nat)
    requires b < next && (cells == first || KeptOutside(first, cells, b))
    ensures KeptOutside(first, cells[b := c], next)
  {
  }

  /** Exactly legion_buffer_size bytes are written: the descriptors and the regions of all requirements. */
  method LegionSerialize(t: TableValue, buffer: Buffer, sz: Sizes) returns (n: nat)
    requires sz.Valid()
    modifies buffer
    ensures Stored(buffer.cells, EncodedDescs(t), Encoding(t), sz)
    ensures n == BufferSize(|EncodedDescs(t)|, |Encoding(t)|, sz)
    ensures KeptOutside(old(buffer.cells), buffer.cells, n)
  {
    hide StoredDescs, StoredRegions, HoldsCount, DescOffset, RegionOffset, Emitted, KeptOutside, DefaultItems, Descs;
    ghost var first := buffer.cells;
    var treqs, tdesc := DefaultRequirements(t);
    ghost var lrs := Regions(treqs);
    Offsets(sz, |tdesc|);
    var b: nat := 0;
    KeptNext(first, first, b, Count(|tdesc|), b + SIZEOF_UNSIGNED);
    buffer.cells := buffer.cells[b := Count(|tdesc|)];
    JustCount(buffer.cells, tdesc, sz);
    b := b + SIZEOF_UNSIGNED;
    var i := 0;
    while i < |tdesc|
      invariant i <= |tdesc| && b == DescOffset(sz, i)
      invariant HoldsCount(buffer.cells, 0, |tdesc|) && StoredDescs(buffer.cells, tdesc, i, sz)
      invariant KeptOutside(first, buffer.cells, b)
    {
      StoreDesc(buffer.cells, tdesc, i, sz);
      OffsetsGrow(sz, 0, i, i + 1);
      KeptNext(first, buffer.cells, b, DescCell(tdesc[i]), b + sz.desc);
      buffer.cells := buffer.cells[b := DescCell(tdesc[i])];
      b := b + sz.desc;
      i := i + 1;
    }
    StoreCount(buffer.cells, tdesc, |treqs|, sz);
    KeptNext(first, buffer.cells, b, Count(|treqs|), b + SIZEOF_UNSIGNED);
    buffer.cells := buffer.cells[b := Count(|treqs|)];
    NoRegions(buffer.cells, |tdesc|, lrs, sz);
    b := b + SIZEOF_UNSIGNED;
    var k := 0;
    while k < |treqs|
      invariant k <= |treqs| && b == RegionOffset(sz, |tdesc|, k)
      invariant HoldsCount(buffer.cells, 0, |tdesc|) && StoredDescs(buffer.cells, tdesc, |tdesc|, sz)
      invariant HoldsCount(buffer.cells, DescOffset(sz, |tdesc|), |lrs|)
      invariant StoredRegions(buffer.cells, |tdesc|, lrs, k, sz)
      invariant KeptOutside(first, buffer.cells, b)
    {
      StoreRegion(buffer.cells, tdesc, lrs, k, sz);
      OffsetsGrow(sz, |tdesc|, k, k + 1);
      KeptNext(first, buffer.cells, b, RegionCell(RegionOf(treqs[k])), b + sz.region);
      buffer.cells := buffer.cells[b := RegionCell(RegionOf(treqs[k]))];
      b := b + sz.region;
      k := k + 1;
    }
    n := b;
  }

  lemma Offsets(sz: Sizes, n: nat)
    requires sz.Valid()
    ensures DescOffset(sz, 0) == SIZEOF_UNSIGNED && RegionOffset(sz, n, 0) == DescOffset(sz, n) + SIZEOF_UNSIGNED
  {
    OffsetsGrow(sz, n, 0, 1);
  }

  lemma JustCount(cells: map<int, Cell>, ds: seq<ColumnDesc>, sz: Sizes)
    requires 0 in cells && cells[0] == Count(|ds|)
    ensures HoldsCount(cells, 0, |ds|) && StoredDescs(cells, ds, 0, sz)
  {
  }

  lemma NoRegions(cells: map<int, Cell>, n: nat, lrs: seq<Region>, sz: Sizes)
    ensures StoredRegions(cells, n, lrs, 0, sz)
  {
  }

  // ----- reading -----

  method DecodeColumn(cdesc: ColumnDesc, lrs: seq<Region>, s: Reading) returns (r: Option<Reading>)
    ensures r == ReadColumn(s, cdesc, lrs)
  {
    var lrp, css: map<Region, ColumnSpace> := s.p, s.css;
    if cdesc.region !in css {
      if lrp >= |lrs| { return None; }
      var metadata := lrs[lrp];
      lrp := lrp + 1;
      if lrp >= |lrs| { return None; }
      css := css[cdesc.region := ColumnSpace(lrs[lrp].space, metadata)];
      lrp := lrp + 1;
    }
    var kw := None;
    if cdesc.nKw > 0 {
      if cdesc.nKw != 2 || lrp >= |lrs| { return None; }
      var tt := lrs[lrp];
      lrp := lrp + 1;
      if lrp >= |lrs| { return None; }
      kw := Some(Keywords(tt, lrs[lrp]));
      lrp := lrp + 1;
    }
    var mr := None;
    if cdesc.nMr > 0 {
      if cdesc.nMr < 2 || lrp >= |lrs| { return None; }
      var md := lrs[lrp];
      lrp := lrp + 1;
      if lrp >= |lrs| { return None; }
      var vl := lrs[lrp];
      lrp := lrp + 1;
      var ix := None;
      if cdesc.nMr > 2 {
        if cdesc.nMr != 3 || lrp >= |lrs| { return None; }
        ix := Some(lrs[lrp]);
        lrp := lrp + 1;
      }
      mr := Some(MeasRegions(md, vl, ix));
    }
    var rc := None;
    if cdesc.refcol != "" { rc := Some(cdesc.refcol); }
    r := Some(Reading(lrp, css, s.columns[cdesc.name :=
      Column(cdesc.dt, cdesc.fid, css[cdesc.region], cdesc.region, cdesc.region, kw, mr, rc)]));
  }

  method DecodeColumns(ds: seq<ColumnDesc>, lrs: seq<Region>) returns (r: Option<Reading>)
    ensures r == ReadColumns(Reading(2, map[], map[]), ds, |ds|, lrs)
  {
    hide ReadColumn;
    var s := Reading(2, map[], map[]);
    var i := 0;
    while i < |ds|
      invariant i <= |ds| && ReadColumns(Reading(2, map[], map[]), ds, i, lrs) == Some(s)
    {
      var next := DecodeColumn(ds[i], lrs, s);
      if next.None? {
        FailsOn(ds, i + 1, lrs);
        return None;
      }
      s := next.value;
      i := i + 1;
    }
    r := Some(s);
  }

  lemma {:induction false} FailsOn(ds: seq<ColumnDesc>, k: nat, lrs: seq<Region>)
    requires k <= |ds| && ReadColumns(Reading(2, map[], map[]), ds, k, lrs).None?
    ensures ReadColumns(Reading(2, map[], map[]), ds, |ds|, lrs).None?
    decreases |ds| - k
  {
    if k < |ds| { FailsOn(ds, k + 1, lrs); }
  }

  /** Reads back exactly the bytes that were written, whatever else the buffer holds. */
  method LegionDeserialize(buffer: Buffer, sz: Sizes, ghost ds: seq<ColumnDesc>, ghost lrs: seq<Region>)
      returns (n: nat, r: Option<TableRead>)
    requires sz.Valid() && Stored(buffer.cells, ds, lrs, sz)
    ensures r == Decode(ds, lrs) && n == BufferSize(|ds|, |lrs|, sz)
  {
    hide ReadColumns, DescOffset, RegionOffset;
    Offsets(sz, |ds|);
    var b: nat := 0;
    var numColumns := buffer.cells[b].n;
    b := b + SIZEOF_UNSIGNED;
    var descs: seq<ColumnDesc> := [];
    var i := 0;
    while i < numColumns
      invariant i <= numColumns && b == DescOffset(sz, i) && descs == ds[..i]
    {
      OffsetsGrow(sz, 0, i, i + 1);
      assert HoldsDesc(buffer.cells, ds[i], i, sz);
      descs := descs + [buffer.cells[b].desc];
      b := b + sz.desc;
      i := i + 1;
    }
    var nLr := buffer.cells[b].n;
    b := b + SIZEOF_UNSIGNED;
    var regions: seq<Region> := [];
    var k := 0;
    while k < nLr
      invariant k <= nLr && b == RegionOffset(sz, |ds|, k) && regions == lrs[..k]
    {
      OffsetsGrow(sz, |ds|, k, k + 1);
      assert HoldsRegion(buffer.cells, |ds|, lrs[k], k, sz);
      regions := regions + [buffer.cells[b].region];
      b := b + sz.region;
      k := k + 1;
    }
    assert ds[..|ds|] == ds && lrs[..|lrs|] == lrs;
    n := b;
    if |regions| < 2 { return n, None; }
    var s := DecodeColumns(descs, regions);
    if s.None? { return n, None; }
    r := Some(TableRead(ColumnSpace(regions[1].space, regions[0]), regions[1], regions[1], s.value.columns));
  }

  /** A table survives being written and read: both directions move by legion_buffer_size bytes. */
  method WriteAndRead(t: TableValue, buffer: Buffer, sz: Sizes) returns (written: nat, read: nat, r: TableRead)
    requires sz.Valid() && Consistent(t.columns)
    modifies buffer
    ensures written == read == BufferSize(|EncodedDescs(t)|, |Encoding(t)|, sz)
    ensures Same(r, t)
  {
    hide Stored, Consistent, Decode, Emitted, Same;
    written := LegionSerialize(t, buffer, sz);
    var result;
    read, result := LegionDeserialize(buffer, sz, EncodedDescs(t), Encoding(t));
    DecodeEncoded(t);
    r := result.value;
  }
}

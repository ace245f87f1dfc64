/** `PhysicalTable::create` and `create_many` of hyperion/PhysicalTable.cc: re-reading the flat list. */
module TableParsing {
  import opened Wrappers
  import opened TableRequirements

  /** A mapped region, which knows the requirement it was mapped for. */
  datatype PhysicalRegion = PhysicalRegion(req: Requirement, id: nat)

  datatype ValueRegion = ValueRegion(target: Target, parent: Region, values: PhysicalRegion)

  datatype MeasPhysical = MeasPhysical(metadata: PhysicalRegion, values: PhysicalRegion, index: Option<PhysicalRegion>)

  datatype PhysicalColumn = PhysicalColumn(
    dt: nat,
    fid: nat,
    indexRank: nat,
    metadata: PhysicalRegion,
    target: Target,
    parent: Region,
    values: PhysicalRegion,
    kw: Option<(PhysicalRegion, PhysicalRegion)>,
    mr: Option<MeasPhysical>,
    refcol: Option<string>
  )

  datatype PhysicalTable = PhysicalTable(
    indexMetadata: PhysicalRegion,
    indexTarget: Target,
    indexRegion: PhysicalRegion,
    indexParent: Region,
    columns: map<string, PhysicalColumn>
  )

  /** TooShort is the original's nullopt, the others are its failed assertions and lookups. */
  datatype ParseError = TooShort | WrongParent | MissingField | WrongRank | MissingRefColumn

  /** The two iterators and the maps of the parser. */
  datatype State = State(
    reqs: nat,
    prs: nat,
    md: map<Region, PhysicalRegion>,
    vals: map<(Region, nat), ValueRegion>,
    columns: map<string, PhysicalColumn>,
    refcols: map<string, string>
  ) {
    function Moved(): State { this.(reqs := reqs + 1, prs := prs + 1) }
  }

  datatype Input = Input(reqs: seq<Requirement>, prs: seq<PhysicalRegion>) {
    predicate AtEnd(s: State) { s.reqs >= |reqs| || s.prs >= |prs| }
  }

  function Min(a: nat, b: nat): nat { if a < b then a else b }

  function TakeMetadata(s: State, d: ColumnDesc, input: Input): Result<State, ParseError> {
    if d.region in s.md then Success(s)
    else if input.AtEnd(s) then Failure(TooShort)
    else Success(s.(md := s.md[d.region := input.prs[s.prs]]).Moved())
  }

  function FieldsOf(r: Requirement): set<nat> { if r.fields.Listed? then r.fields.fids else {} }

  function Assigned(vals: map<(Region, nat), ValueRegion>, region: Region, fids: set<nat>, v: ValueRegion)
      : map<(Region, nat), ValueRegion>
  {
    vals + map f | f in fids :: (region, f) := v
  }

  function TakeValues(s: State, d: ColumnDesc, input: Input): Result<State, ParseError> {
    if (d.region, d.fid) in s.vals then Success(s)
    else if input.AtEnd(s) then Failure(TooShort)
    else
      var r := input.reqs[s.reqs];
      if d.region != r.parent then Failure(WrongParent)
      else
        Success(s.(vals :=
                   Assigned(s.vals, d.region, FieldsOf(r), ValueRegion(r.target, r.parent, input.prs[s.prs]))).Moved())
  }

  function TakeKeywords(s: State, d: ColumnDesc, input: Input)
      : Result<(State, Option<(PhysicalRegion, PhysicalRegion)>), ParseError>
  {
    if d.nKw == 0 then Success((s, None))
    else if input.AtEnd(s) || input.AtEnd(s.Moved()) then Failure(TooShort)
    else Success((s.Moved().Moved(), Some((input.prs[s.prs], input.prs[s.prs + 1]))))
  }

  function TakeMeasures(s: State, d: ColumnDesc, input: Input): Result<(State, Option<MeasPhysical>), ParseError> {
    if d.nMr == 0 then Success((s, None))
    else if input.AtEnd(s) || input.AtEnd(s.Moved()) then Failure(TooShort)
    else
      var t := s.Moved().Moved();
      if d.nMr > 2 && input.AtEnd(t) then Failure(TooShort)
      else
        var mr := MeasPhysical(input.prs[s.prs], input.prs[s.prs + 1],
                               if d.nMr > 2 then Some(input.prs[t.prs]) else None);
        var u := if d.nMr > 2 then t.Moved() else t;
        Success((if d.refcol != "" then u.(refcols := u.refcols[d.name := d.refcol]) else u, Some(mr)))
  }

  function AddColumn(s: State, d: ColumnDesc, kw: Option<(PhysicalRegion, PhysicalRegion)>, mr: Option<MeasPhysical>,
                     indexRank: nat): Result<State, ParseError>
  {
    if (d.region, d.fid) !in s.vals || s.vals[(d.region, d.fid)].parent !in s.md then Failure(MissingField)
    else
      var v := s.vals[(d.region, d.fid)];
      var colRank := d.region.space.dim;
      if colRank != 1 && colRank < indexRank then Failure(WrongRank)
      else if d.name in s.columns then Success(s)
      else
        Success(s.(columns := s.columns[d.name :=
          PhysicalColumn(d.dt, d.fid, Min(indexRank, colRank), s.md[v.parent], v.target, v.parent, v.values, kw, mr,
                         None)]))
  }

  function Step(s: State, d: ColumnDesc, input: Input, indexRank: nat): Result<State, ParseError> {
    var a := TakeMetadata(s, d, input);
    if a.Failure? then a
    else
      var b := TakeValues(a.value, d, input);
      if b.Failure? then b
      else
        var c := TakeKeywords(b.value, d, input);
        if c.Failure? then Failure(c.error)
        else
          var e := TakeMeasures(c.value.0, d, input);
          if e.Failure? then Failure(e.error)
          else AddColumn(e.value.0, d, c.value.1, e.value.1, indexRank)
  }

  function Steps(s: State, ds: seq<ColumnDesc>, input: Input, indexRank: nat): Result<State, ParseError> {
    if ds == [] then Success(s)
    else
      var n := |ds| - 1;
      var before := Steps(s, ds[..n], input, indexRank);
      if before.Failure? then before else Step(before.value, ds[n], input, indexRank)
  }

  predicate RefsKnown(s: State) {
    forall nm | nm in s.columns && nm in s.refcols :: s.refcols[nm] in s.columns
  }

  function WithRefs(s: State): map<string, PhysicalColumn> {
    map nm | nm in s.columns ::
      if nm in s.refcols then s.columns[nm].(refcol := Some(s.refcols[nm])) else s.columns[nm]
  }

  datatype Parsed = Parsed(table: PhysicalTable, reqs: nat, prs: nat)

  function Start(reqs: nat, prs: nat): State { State(reqs, prs, map[], map[], map[], map[]) }

  /** What `create` returns from the positions `reqs` and `prs` on. */
  function Create(ds: seq<ColumnDesc>, indexRank: nat, input: Input, reqs: nat, prs: nat): Result<Parsed, ParseError> {
    var s := Start(reqs, prs);
    if input.AtEnd(s) || input.AtEnd(s.Moved()) then Failure(TooShort)
    else
      var r := Steps(s.Moved().Moved(), ds, input, indexRank);
      if r.Failure? then Failure(r.error)
      else if !RefsKnown(r.value) then Failure(MissingRefColumn)
      else
        Success(Parsed(PhysicalTable(input.prs[prs], input.reqs[reqs + 1].target, input.prs[prs + 1],
                                     input.reqs[reqs + 1].parent, WithRefs(r.value)),
                       r.value.reqs, r.value.prs))
  }

  // ----- the code -----

  /** The parts of the loop body that only move the iterators. */
  method ReadKeywords(cdesc: ColumnDesc, input: Input, s: State)
      returns (r: Result<(State, Option<(PhysicalRegion, PhysicalRegion)>), ParseError>)
    ensures r == TakeKeywords(s, cdesc, input)
  {
    var reqs: nat, prs: nat := s.reqs, s.prs;
    var kw := None;
    if cdesc.nKw > 0 {
      if reqs >= |input.reqs| || prs >= |input.prs| { return Failure(TooShort); }
      reqs := reqs + 1;
      var tags := input.prs[prs];
      prs := prs + 1;
      if reqs >= |input.reqs| || prs >= |input.prs| { return Failure(TooShort); }
      reqs := reqs + 1;
      kw := Some((tags, input.prs[prs]));
      prs := prs + 1;
    }
    r := Success((s.(reqs := reqs, prs := prs), kw));
  }

  method ReadMeasures(cdesc: ColumnDesc, input: Input, s: State)
      returns (r: Result<(State, Option<MeasPhysical>), ParseError>)
    ensures r == TakeMeasures(s, cdesc, input)
  {
    var reqs: nat, prs: nat, refcols := s.reqs, s.prs, s.refcols;
    var mr := None;
    if cdesc.nMr > 0 {
      if reqs >= |input.reqs| || prs >= |input.prs| { return Failure(TooShort); }
      reqs := reqs + 1;
      var metadata := input.prs[prs];
      prs := prs + 1;
      if reqs >= |input.reqs| || prs >= |input.prs| { return Failure(TooShort); }
      reqs := reqs + 1;
      var drs := MeasPhysical(metadata, input.prs[prs], None);
      prs := prs + 1;
      if cdesc.nMr > 2 {
        if reqs >= |input.reqs| || prs >= |input.prs| { return Failure(TooShort); }
        reqs := reqs + 1;
        drs := drs.(index := Some(input.prs[prs]));
        prs := prs + 1;
      }
      mr := Some(drs);
      if cdesc.refcol != "" { refcols := refcols[cdesc.name := cdesc.refcol]; }
    }
    r := Success((s.(reqs := reqs, prs := prs, refcols := refcols), mr));
  }

  method ParseColumn(cdesc: ColumnDesc, input: Input, indexRank: nat, s: State) returns (r: Result<State, ParseError>)
    ensures r == Step(s, cdesc, input, indexRank)
  {
    hide Assigned, FieldsOf, TakeKeywords, TakeMeasures;
    var reqs: nat, prs: nat, md, vals := s.reqs, s.prs, s.md, s.vals;
    if cdesc.region !in md {
      if reqs >= |input.reqs| || prs >= |input.prs| { return Failure(TooShort); }
      md := md[cdesc.region := input.prs[prs]];
      reqs, prs := reqs + 1, prs + 1;
    }
    var vkey := (cdesc.region, cdesc.fid);
    if vkey !in vals {
      if reqs >= |input.reqs| || prs >= |input.prs| { return Failure(TooShort); }
      var q := input.reqs[reqs];
      if cdesc.region != q.parent { return Failure(WrongParent); }
      vals := Assigned(vals, cdesc.region, FieldsOf(q), ValueRegion(q.target, q.parent, input.prs[prs]));
      reqs, prs := reqs + 1, prs + 1;
    }
    var keywords := ReadKeywords(cdesc, input, s.(reqs := reqs, prs := prs, md := md, vals := vals));
    if keywords.Failure? { return Failure(keywords.error); }
    var measures := ReadMeasures(cdesc, input, keywords.value.0);
    if measures.Failure? { return Failure(measures.error); }
    var t, kw, mr := measures.value.0, keywords.value.1, measures.value.1;
    if vkey !in t.vals || t.vals[vkey].parent !in t.md { return Failure(MissingField); }
    var v := t.vals[vkey];
    var colRank := cdesc.region.space.dim;
    if !(colRank == 1 || colRank >= indexRank) { return Failure(WrongRank); }
    var columns := t.columns;
    if cdesc.name !in columns {
      columns := columns[cdesc.name :=
        PhysicalColumn(cdesc.dt, cdesc.fid, Min(indexRank, colRank), t.md[v.parent], v.target, v.parent, v.values, kw,
                       mr, None)];
    }
    r := Success(t.(columns := columns));
  }

  method CreateTable(ds: seq<ColumnDesc>, indexRank: nat, input: Input, reqsBegin: nat, prsBegin: nat)
      returns (r: Result<Parsed, ParseError>)
    ensures r == Create(ds, indexRank, input, reqsBegin, prsBegin)
  {
    hide Steps, Step;
    if reqsBegin >= |input.reqs| || prsBegin >= |input.prs| { return Failure(TooShort); }
    var indexMd := input.prs[prsBegin];
    var s := Start(reqsBegin + 1, prsBegin + 1);
    if s.reqs >= |input.reqs| || s.prs >= |input.prs| { return Failure(TooShort); }
    var indexReq, indexRegion := input.reqs[s.reqs], input.prs[s.prs];
    s := Start(s.reqs + 1, s.prs + 1);
    ghost var first := s;
    NoSteps(s, input, indexRank);
    assert ds[..0] == [];
    var i := 0;
    while i < |ds|
      invariant i <= |ds| && Steps(first, ds[..i], input, indexRank) == Success(s)
    {
      StepsNext(first, ds, i, input, indexRank);
      var next := ParseColumn(ds[i], input, indexRank, s);
      if next.Failure? {
        StepsFail(first, ds, i + 1, input, indexRank);
        return Failure(next.error);
      }
      s := next.value;
      i := i + 1;
    }
    assert ds[..|ds|] == ds;
    if !RefsKnown(s) { return Failure(MissingRefColumn); }
    r := Success(Parsed(PhysicalTable(indexMd, indexReq.target, indexRegion, indexReq.parent, WithRefs(s)), s.reqs,
                        s.prs));
  }

  lemma NoSteps(s: State, input: Input, indexRank: nat)
    ensures Steps(s, [], input, indexRank) == Success(s)
  {
  }

  lemma StepsNext(s: State, ds: seq<ColumnDesc>, i: nat, input: Input, indexRank: nat)
    requires i < |ds|
    ensures Steps(s, ds[..i + 1], input, indexRank)
         == var before := Steps(s, ds[..i], input, indexRank);
            if before.Failure? then before else Step(before.value, ds[i], input, indexRank)
  {
    assert ds[..i + 1][..i] == ds[..i];
  }

  lemma {:induction false} StepsFail(s: State, ds: seq<ColumnDesc>, i: nat, input: Input, indexRank: nat)
    requires i <= |ds| && Steps(s, ds[..i], input, indexRank).Failure?
    ensures Steps(s, ds, input, indexRank) == Steps(s, ds[..i], input, indexRank)
    decreases |ds| - i
  {
    if i < |ds| {
      StepsNext(s, ds, i, input, indexRank);
      StepsFail(s, ds, i + 1, input, indexRank);
    } else {
      assert ds[..i] == ds;
    }
  }

  // ----- several tables -----

  datatype TableDesc = TableDesc(columns: seq<ColumnDesc>, indexRank: nat)

  datatype ParsedMany = ParsedMany(tables: seq<PhysicalTable>, reqs: nat, prs: nat)

  /** What `create_many` returns: it stops at the end of either list. */
  function Many(descs: seq<TableDesc>, input: Input, reqs: nat, prs: nat): Result<ParsedMany, ParseError>
    decreases |descs|
  {
    if descs == [] || reqs >= |input.reqs| || prs >= |input.prs| then Success(ParsedMany([], reqs, prs))
    else
      var one := Create(descs[0].columns, descs[0].indexRank, input, reqs, prs);
      if one.Failure? then Failure(one.error)
      else
        var rest := Many(descs[1..], input, one.value.reqs, one.value.prs);
        if rest.Failure? then rest else Success(rest.value.(tables := [one.value.table] + rest.value.tables))
  }

  method CreateMany(descs: seq<TableDesc>, input: Input, reqsBegin: nat, prsBegin: nat)
      returns (r: Result<ParsedMany, ParseError>)
    ensures r == Many(descs, input, reqsBegin, prsBegin)
  {
    hide Create;
    var rit: nat, pit: nat := reqsBegin, prsBegin;
    var tables: seq<PhysicalTable> := [];
    var k := 0;
    assert descs[0..] == descs;
    ghost var all := Many(descs, input, reqsBegin, prsBegin);
    if all.Success? { assert [] + all.value.tables == all.value.tables; }
    while k < |descs| && rit < |input.reqs| && pit < |input.prs|
      invariant k <= |descs|
      invariant (var rest := Many(descs[k..], input, rit, pit);
                 Many(descs, input, reqsBegin, prsBegin)
                 == if rest.Failure? then rest else Success(rest.value.(tables := tables + rest.value.tables)))
    {
      assert descs[k..][1..] == descs[k + 1..];
      var opt := CreateTable(descs[k].columns, descs[k].indexRank, input, rit, pit);
      if opt.Failure? { return Failure(opt.error); }
      ghost var rest := Many(descs[k + 1..], input, opt.value.reqs, opt.value.prs);
      if rest.Success? {
        assert tables + ([opt.value.table] + rest.value.tables) == tables + [opt.value.table] + rest.value.tables;
      }
      tables := tables + [opt.value.table];
      rit, pit := opt.value.reqs, opt.value.prs;
      k := k + 1;
    }
    r := Success(ParsedMany(tables, rit, pit));
    assert tables + [] == tables;
  }
}

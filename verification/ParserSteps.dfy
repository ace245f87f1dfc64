/** One column of the parser of hyperion/PhysicalTable.cc on any list: what it needs, takes and makes of it. */
module ParserSteps {
  import opened Wrappers
  import opened TableRequirements
  import opened TableParsing

  /** One entry for a new region, one for a new field, two for keywords, two or three for measures. */
  function NewRegion(s: State, d: ColumnDesc): nat { if d.region in s.md then 0 else 1 }

  function NewField(s: State, d: ColumnDesc): nat { if (d.region, d.fid) in s.vals then 0 else 1 }

  function ForKeywords(d: ColumnDesc): nat { if d.nKw > 0 then 2 else 0 }

  function ForMeasures(d: ColumnDesc): nat { if d.nMr > 2 then 3 else if d.nMr > 0 then 2 else 0 }

  function Needs(s: State, d: ColumnDesc): nat {
    NewRegion(s, d) + NewField(s, d) + ForKeywords(d) + ForMeasures(d)
  }

  predicate Remain(s: State, n: nat, input: Input) {
    n > 0 ==> s.reqs + n <= |input.reqs| && s.prs + n <= |input.prs|
  }

  /** The requirement read for a new field is on the column's region and lists its field. */
  predicate GoodField(s: State, d: ColumnDesc, input: Input) {
    NewField(s, d) == 1 ==>
      var n := s.reqs + NewRegion(s, d);
      && n < |input.reqs| && input.reqs[n].parent == d.region
      && input.reqs[n].fields.Listed? && d.fid in input.reqs[n].fields.fids
  }

  /** Fields have been recorded from requirements on their own region, whose metadata has been recorded. */
  ghost predicate Known(s: State) {
    forall k | k in s.vals :: s.vals[k].parent == k.0 && k.0 in s.md
  }

  // ----- the pieces of a step -----

  lemma Metadata(s: State, d: ColumnDesc, input: Input)
    ensures var r := TakeMetadata(s, d, input);
            && (r.Success? <==> Remain(s, NewRegion(s, d), input))
            && (r.Success? ==>
                  && r.value == s.(reqs := s.reqs + NewRegion(s, d), prs := s.prs + NewRegion(s, d), md := r.value.md)
                  && r.value.md == if NewRegion(s, d) == 0 then s.md else s.md[d.region := input.prs[s.prs]])
  {
  }

  /** A new requirement records all its fields, in place of what was recorded for them. */
  lemma Values(s: State, d: ColumnDesc, input: Input)
    ensures var r := TakeValues(s, d, input);
            && (r.Success? <==>
                  Remain(s, NewField(s, d), input)
                  && (NewField(s, d) == 1 ==> input.reqs[s.reqs].parent == d.region))
            && (r.Success? ==>
                  && r.value == s.(reqs := s.reqs + NewField(s, d), prs := s.prs + NewField(s, d), vals := r.value.vals)
                  && (NewField(s, d) == 0 ==> r.value.vals == s.vals)
                  && (NewField(s, d) == 1 ==>
                        Recorded(s.vals, r.value.vals, d.region, input.reqs[s.reqs], input.prs[s.prs])))
  {
  }

  ghost predicate Recorded(before: map<(Region, nat), ValueRegion>, after: map<(Region, nat), ValueRegion>,
                           region: Region, q: Requirement, pr: PhysicalRegion) {
    forall k: (Region, nat) ::
      var new_ := k.0 == region && q.fields.Listed? && k.1 in q.fields.fids;
      && (k in after <==> new_ || k in before)
      && (k in after ==> after[k] == if new_ then ValueRegion(q.target, q.parent, pr) else before[k])
  }

  lemma Keywords(s: State, d: ColumnDesc, input: Input)
    ensures var r, n := TakeKeywords(s, d, input), ForKeywords(d);
            && (r.Success? <==> Remain(s, n, input))
            && (r.Success? ==>
                  && r.value.0 == s.(reqs := s.reqs + n, prs := s.prs + n)
                  && r.value.1 == if n == 0 then None else Some((input.prs[s.prs], input.prs[s.prs + 1])))
  {
  }

  lemma Measures(s: State, d: ColumnDesc, input: Input)
    ensures var r, n := TakeMeasures(s, d, input), ForMeasures(d);
            && (r.Success? <==> Remain(s, n, input))
            && (r.Success? ==>
                  && r.value.0 == s.(reqs := s.reqs + n, prs := s.prs + n, refcols := r.value.0.refcols)
                  && r.value.0.refcols == (if n > 0 && d.refcol != "" then s.refcols[d.name := d.refcol] else s.refcols)
                  && r.value.1 == if n == 0 then None
                                  else Some(MeasPhysical(input.prs[s.prs], input.prs[s.prs + 1],
                                                         if n == 3 then Some(input.prs[s.prs + 2]) else None)))
  {
  }

  lemma Added(s: State, d: ColumnDesc, kw: Option<(PhysicalRegion, PhysicalRegion)>, mr: Option<MeasPhysical>,
              indexRank: nat)
    requires Known(s)
    ensures var r, dim := AddColumn(s, d, kw, mr, indexRank), d.region.space.dim;
            && (r.Success? <==> (d.region, d.fid) in s.vals && (dim == 1 || indexRank <= dim))
            && (r.Success? ==>
                  && r.value == s.(columns := r.value.columns)
                  && r.value.columns == if d.name in s.columns then s.columns else s.columns[d.name :=
                    var v := s.vals[(d.region, d.fid)];
                    PhysicalColumn(d.dt, d.fid, if dim < indexRank then dim else indexRank, s.md[d.region], v.target,
                                   d.region, v.values, kw, mr, None)])
  {
  }

  // ----- the region and the field -----

  lemma RemainSum(s: State, t: State, k: nat, n: nat, input: Input)
    ensures t.reqs == s.reqs + k && t.prs == s.prs + k ==>
              (Remain(s, k, input) && Remain(t, n, input) <==> Remain(s, k + n, input))
    ensures !Remain(s, k, input) ==> !Remain(s, k + n, input)
  {
  }

  /** What the parser has recorded once the region and the field of a column are there. */
  ghost predicate FieldsTaken(s: State, t: State, d: ColumnDesc, input: Input) {
    var m := NewRegion(s, d);
    && Remain(s, m + NewField(s, d), input)
    && t == s.(reqs := s.reqs + m + NewField(s, d), prs := s.prs + m + NewField(s, d), md := t.md, vals := t.vals)
    && t.md == (if m == 0 then s.md else s.md[d.region := input.prs[s.prs]])
    && (NewField(s, d) == 0 ==> t.vals == s.vals)
    && (NewField(s, d) == 1 ==> Recorded(s.vals, t.vals, d.region, input.reqs[s.reqs + m], input.prs[s.prs + m]))
  }

  lemma TakenKnown(s: State, t: State, d: ColumnDesc, input: Input)
    requires Known(s) && FieldsTaken(s, t, d, input)
    requires NewField(s, d) == 1 ==> input.reqs[s.reqs + NewRegion(s, d)].parent == d.region
    ensures Known(t) && ((d.region, d.fid) in t.vals <==> GoodField(s, d, input))
  {
  }

  lemma Fields(s: State, d: ColumnDesc, input: Input) returns (b: Result<State, ParseError>)
    requires Known(s)
    ensures b == (var a := TakeMetadata(s, d, input); if a.Success? then TakeValues(a.value, d, input) else a)
    ensures b.Success? <==> Remain(s, NewRegion(s, d) + NewField(s, d), input)
                            && (NewField(s, d) == 1 ==> input.reqs[s.reqs + NewRegion(s, d)].parent == d.region)
    ensures b.Success? ==> FieldsTaken(s, b.value, d, input) && Known(b.value)
                           && ((d.region, d.fid) in b.value.vals <==> GoodField(s, d, input))
  {
    hide TakeMetadata, TakeValues, Remain, Known, Recorded, GoodField;
    var a := TakeMetadata(s, d, input);
    b := a;
    Metadata(s, d, input);
    if a.Success? {
      b := TakeValues(a.value, d, input);
      Values(a.value, d, input);
      RemainSum(s, a.value, NewRegion(s, d), NewField(s, d), input);
      if b.Success? { TakenKnown(s, b.value, d, input); }
    } else {
      RemainSum(s, s, NewRegion(s, d), NewField(s, d), input);
    }
  }

  // ----- keywords, measures and the column -----

  /** The regions from place n on. */
  function KeywordsAt(d: ColumnDesc, input: Input, n: nat): Option<(PhysicalRegion, PhysicalRegion)>
    requires ForKeywords(d) > 0 ==> n + 2 <= |input.prs|
  {
    if ForKeywords(d) == 0 then None else Some((input.prs[n], input.prs[n + 1]))
  }

  function MeasuresAt(d: ColumnDesc, input: Input, n: nat): Option<MeasPhysical>
    requires ForMeasures(d) > 0 ==> n + ForMeasures(d) <= |input.prs|
  {
    if ForMeasures(d) == 0 then None
    else
      var index := if ForMeasures(d) == 3 then Some(input.prs[n + 2]) else None;
      Some(MeasPhysical(input.prs[n], input.prs[n + 1], index))
  }

  function RankOf(d: ColumnDesc, indexRank: nat): nat {
    if d.region.space.dim < indexRank then d.region.space.dim else indexRank
  }

  /** The column made from what has been recorded; a second column of the same name is dropped. */
  ghost predicate ColumnMade(t: State, u: State, d: ColumnDesc, input: Input, indexRank: nat) {
    var (kw, mr) := (ForKeywords(d), ForMeasures(d));
    && Remain(t, kw + mr, input) && (d.region, d.fid) in t.vals && d.region in t.md
    && u == t.(reqs := t.reqs + kw + mr, prs := t.prs + kw + mr, columns := u.columns, refcols := u.refcols)
    && u.refcols == (if mr > 0 && d.refcol != "" then t.refcols[d.name := d.refcol] else t.refcols)
    && u.columns == if d.name in t.columns then t.columns else t.columns[d.name :=
         var v := t.vals[(d.region, d.fid)];
         PhysicalColumn(d.dt, d.fid, RankOf(d, indexRank), t.md[d.region], v.target, d.region, v.values,
                        KeywordsAt(d, input, t.prs), MeasuresAt(d, input, t.prs + kw), None)]
  }

  lemma Column(t: State, d: ColumnDesc, input: Input, indexRank: nat) returns (u: Result<State, ParseError>)
    requires Known(t)
    ensures u == (var c := TakeKeywords(t, d, input);
                  if c.Failure? then Failure(c.error)
                  else
                    var e := TakeMeasures(c.value.0, d, input);
                    if e.Failure? then Failure(e.error) else AddColumn(e.value.0, d, c.value.1, e.value.1, indexRank))
    ensures u.Success? <==> Remain(t, ForKeywords(d) + ForMeasures(d), input) && (d.region, d.fid) in t.vals
                            && (d.region.space.dim == 1 || indexRank <= d.region.space.dim)
    ensures u.Success? ==> ColumnMade(t, u.value, d, input, indexRank) && Known(u.value)
  {
    hide TakeKeywords, TakeMeasures, AddColumn, ForKeywords, ForMeasures;
    var c := TakeKeywords(t, d, input);
    Keywords(t, d, input);
    RemainSum(t, t, ForKeywords(d), ForMeasures(d), input);
    if c.Failure? { return Failure(c.error); }
    var e := TakeMeasures(c.value.0, d, input);
    Measures(c.value.0, d, input);
    RemainSum(t, c.value.0, ForKeywords(d), ForMeasures(d), input);
    if e.Failure? { return Failure(e.error); }
    u := AddColumn(e.value.0, d, c.value.1, e.value.1, indexRank);
    Added(e.value.0, d, c.value.1, e.value.1, indexRank);
  }

  // ----- the whole step -----

  /**
   A column is accepted exactly when the list is long enough, the requirement read for a new field is on the
   column's region and lists its field, and the dimension of the region is 1 or not below the index rank.
   What it takes of the list is what it needs; what it makes of it are the fields and the column.
   */
  lemma StepIs(s: State, d: ColumnDesc, input: Input, indexRank: nat)
    requires Known(s)
    ensures var r := Step(s, d, input, indexRank);
            && (r.Success? <==> Remain(s, Needs(s, d), input) && GoodField(s, d, input)
                                && (d.region.space.dim == 1 || indexRank <= d.region.space.dim))
            && (r.Success? ==>
                  && r.value.reqs == s.reqs + Needs(s, d) && r.value.prs == s.prs + Needs(s, d) && Known(r.value)
                  && exists t :: FieldsTaken(s, t, d, input) && ColumnMade(t, r.value, d, input, indexRank))
  {
    hide TakeMetadata, TakeValues, TakeKeywords, TakeMeasures, AddColumn, GoodField, Known, Remain, NewRegion, NewField,
         ForKeywords, ForMeasures;
    var b := Fields(s, d, input);
    GoodParent(s, d, input);
    var k, n := NewRegion(s, d) + NewField(s, d), ForKeywords(d) + ForMeasures(d);
    if b.Success? {
      var u := Column(b.value, d, input, indexRank);
      RemainSum(s, b.value, k, n, input);
    } else {
      RemainSum(s, s, k, n, input);
    }
  }

  lemma GoodParent(s: State, d: ColumnDesc, input: Input)
    ensures GoodField(s, d, input) && NewField(s, d) == 1 ==>
              s.reqs + NewRegion(s, d) < |input.reqs| && input.reqs[s.reqs + NewRegion(s, d)].parent == d.region
  {
  }

  /** The parser is never in any other state. */
  lemma {:induction false} StepsKnown(ds: seq<ColumnDesc>, input: Input, indexRank: nat, reqs: nat, prs: nat)
    ensures var r := Steps(Start(reqs, prs), ds, input, indexRank);
            r.Success? ==> Known(r.value)
  {
    hide Step;
    if ds != [] {
      var n := |ds| - 1;
      StepsKnown(ds[..n], input, indexRank, reqs, prs);
      var before := Steps(Start(reqs, prs), ds[..n], input, indexRank);
      if before.Success? { StepIs(before.value, ds[n], input, indexRank); }
    }
  }
}

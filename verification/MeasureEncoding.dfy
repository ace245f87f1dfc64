/** `initialize` of hyperion/MeasRef.cc: writing recursive measure references into sparse arrays. */
module MeasureEncoding {
  import opened Enumeration
  import opened RankExtension
  import opened Measures

  /** The contents of the three metadata fields and of the value field. */
  datatype Data = Data(
    mclasses: map<Point, MClass>,
    rtypes: map<Point, int>,
    numvals: map<Point, nat>,
    vals: map<Point, Value>
  )

  /** The regions, with accessors that check their bounds. */
  class DataRegions {
    const metadataDomain: seq<Point>
    const valueDomain: seq<Point>
    var mclasses: map<Point, MClass>
    var rtypes: map<Point, int>
    var numvals: map<Point, nat>
    var vals: map<Point, Value>

    constructor (metadataDomain: seq<Point>, valueDomain: seq<Point>)
      ensures this.metadataDomain == metadataDomain && this.valueDomain == valueDomain
      ensures Contents() == Data(map[], map[], map[], map[])
    {
      this.metadataDomain, this.valueDomain := metadataDomain, valueDomain;
      mclasses, rtypes, numvals, vals := map[], map[], map[], map[];
    }

    function Contents(): Data
      reads this
    {
      Data(mclasses, rtypes, numvals, vals)
    }

    method WriteClass(p: Point, mclass: MClass)
      requires p in metadataDomain
      modifies this
      ensures Contents() == old(Contents()).(mclasses := old(mclasses)[p := mclass])
    {
      mclasses := mclasses[p := mclass];
    }

    method WriteRefType(p: Point, rtype: int)
      requires p in metadataDomain
      modifies this
      ensures Contents() == old(Contents()).(rtypes := old(rtypes)[p := rtype])
    {
      rtypes := rtypes[p := rtype];
    }

    method WriteNumValues(p: Point, numval: nat)
      requires p in metadataDomain
      modifies this
      ensures Contents() == old(Contents()).(numvals := old(numvals)[p := numval])
    {
      numvals := numvals[p := numval];
    }

    method WriteValue(p: Point, v: Value)
      requires p in valueDomain
      modifies this
      ensures Contents() == old(Contents()).(vals := old(vals)[p := v])
    {
      vals := vals[p := v];
    }

    function ReadClass(p: Point): MClass
      requires p in metadataDomain && p in mclasses
      reads this
    {
      mclasses[p]
    }

    function ReadRefType(p: Point): int
      requires p in metadataDomain && p in rtypes
      reads this
    {
      rtypes[p]
    }

    function ReadNumValues(p: Point): nat
      requires p in metadataDomain && p in numvals
      reads this
    {
      numvals[p]
    }

    function ReadValue(p: Point): Value
      requires p in valueDomain && p in vals
      reads this
    {
      vals[p]
    }
  }

  // ----- the recursive writer -----

  function WriteVals(d: Data, values: seq<Value>, at: Point, dim: nat): Data
    requires |at| < dim
    decreases |values|
  {
    if values == [] then d
    else
      var n := |values| - 1;
      var e := WriteVals(d, values[..n], at, dim);
      e.(vals := e.vals[Pad(at + [VALUE, n], dim + 1) := values[n]])
  }

  function WriteOne(d: Data, m: Measure, at: Point, dim: nat): Data
    requires |at| < dim
  {
    var e := WriteVals(d, m.values, at, dim);
    var p := Pad(at, dim);
    e.(mclasses := e.mclasses[p := m.klass], rtypes := e.rtypes[p := m.ref.rtype],
       numvals := e.numvals[p := |m.values|])
  }

  function WriteMeasure(d: Data, m: Measure, at: Point, dim: nat): Data
    requires |at| + Levels(m.ref) <= dim
    decreases m.ref, NUM_COMPONENTS
  {
    WriteComponents(WriteOne(d, m, at, dim), m.ref, OFFSET, at, dim)
  }

  function WriteComponents(d: Data, r: Ref, c: int, at: Point, dim: nat): Data
    requires |at| + Levels(r) <= dim
    decreases r, NUM_COMPONENTS - c
  {
    if c >= NUM_COMPONENTS then d
    else if Component(r, c).None? then WriteComponents(d, r, c + 1, at, dim)
    else
      ComponentLevels(r, c);
      WriteComponents(WriteMeasure(d, Component(r, c).value, at + [c], dim), r, c + 1, at, dim)
  }

  // ----- what it leaves behind -----

  ghost predicate OneEncoded(d: Data, m: Measure, at: Point, dim: nat)
    requires |at| < dim
  {
    var p := Pad(at, dim);
    && p in d.mclasses && d.mclasses[p] == m.klass
    && p in d.rtypes && d.rtypes[p] == m.ref.rtype
    && p in d.numvals && d.numvals[p] == |m.values|
    && ValuesEncoded(d, m.values, at, dim)
  }

  ghost predicate ValuesEncoded(d: Data, values: seq<Value>, at: Point, dim: nat)
    requires |at| < dim
  {
    forall j: nat | j < |values| :: ValueEncoded(d, values[j], j, at, dim)
  }

  ghost predicate ValueEncoded(d: Data, v: Value, j: nat, at: Point, dim: nat)
    requires |at| < dim
  {
    var p := Pad(at + [VALUE, j], dim + 1);
    p in d.vals && d.vals[p] == v
  }

  /** The arrays hold the measure m and everything below it at the addresses starting with `at`. */
  ghost predicate Encoded(d: Data, m: Measure, at: Point, dim: nat)
    requires |at| + Levels(m.ref) <= dim
    decreases m.ref, NUM_COMPONENTS
  {
    OneEncoded(d, m, at, dim) && ComponentsEncoded(d, m.ref, OFFSET, at, dim)
  }

  ghost predicate ComponentsEncoded(d: Data, r: Ref, c: int, at: Point, dim: nat)
    requires |at| + Levels(r) <= dim
    decreases r, NUM_COMPONENTS - c
  {
    c < NUM_COMPONENTS ==>
      && (Component(r, c).Some? ==>
            (ComponentLevels(r, c); Encoded(d, Component(r, c).value, at + [c], dim)))
      && ComponentsEncoded(d, r, c + 1, at, dim)
  }

  ghost predicate SameAt(d: Data, e: Data, p: Point) {
    && (p in d.mclasses <==> p in e.mclasses) && (p in d.mclasses ==> d.mclasses[p] == e.mclasses[p])
    && (p in d.rtypes <==> p in e.rtypes) && (p in d.rtypes ==> d.rtypes[p] == e.rtypes[p])
    && (p in d.numvals <==> p in e.numvals) && (p in d.numvals ==> d.numvals[p] == e.numvals[p])
    && (p in d.vals <==> p in e.vals) && (p in d.vals ==> d.vals[p] == e.vals[p])
  }

  /** p lies below `at` in component c or a later one. */
  ghost predicate From(at: Point, c: int, p: Point) {
    at < p && p[|at|] >= c
  }

  ghost predicate SameBut(d: Data, e: Data, at: Point, c: int) {
    forall p | !From(at, c, p) :: SameAt(d, e, p)
  }

  ghost predicate SameFrom(d: Data, e: Data, at: Point, c: int) {
    forall p | From(at, c, p) :: SameAt(d, e, p)
  }

  lemma OneStable(d: Data, e: Data, m: Measure, at: Point, dim: nat)
    requires |at| < dim && OneEncoded(d, m, at, dim)
    requires forall p | at < p && p[|at|] == VALUE :: SameAt(d, e, p)
    ensures OneEncoded(e, m, at, dim)
  {
    var q := Pad(at, dim);
    assert at < q && q[|at|] == 0;
    assert SameAt(d, e, q);
    forall j: nat | j < |m.values| ensures ValueEncoded(e, m.values[j], j, at, dim) {
      var p := Pad(at + [VALUE, j], dim + 1);
      assert ValueEncoded(d, m.values[j], j, at, dim);
      assert at < p && p[|at|] == VALUE;
      assert SameAt(d, e, p);
    }
  }

  lemma {:induction false} Stable(d: Data, e: Data, m: Measure, at: Point, dim: nat)
    requires |at| + Levels(m.ref) <= dim && Encoded(d, m, at, dim) && SameFrom(d, e, at, VALUE)
    ensures Encoded(e, m, at, dim)
    decreases m.ref, NUM_COMPONENTS
  {
    OneStable(d, e, m, at, dim);
    ComponentsStable(d, e, m.ref, OFFSET, at, dim);
  }

  lemma {:induction false} ComponentsStable(d: Data, e: Data, r: Ref, c: int, at: Point, dim: nat)
    requires |at| + Levels(r) <= dim && OFFSET <= c
    requires ComponentsEncoded(d, r, c, at, dim) && SameFrom(d, e, at, c)
    ensures ComponentsEncoded(e, r, c, at, dim)
    decreases r, NUM_COMPONENTS - c
  {
    if c < NUM_COMPONENTS {
      if Component(r, c).Some? {
        ComponentLevels(r, c);
        forall p | From(at + [c], VALUE, p) ensures SameAt(d, e, p) {
          assert From(at, c, p);
        }
        Stable(d, e, Component(r, c).value, at + [c], dim);
      }
      ComponentsStable(d, e, r, c + 1, at, dim);
    }
  }

  lemma {:induction false} WriteValsSound(d: Data, values: seq<Value>, at: Point, dim: nat)
    requires |at| < dim
    ensures ValuesEncoded(WriteVals(d, values, at, dim), values, at, dim)
    ensures SameBut(d, WriteVals(d, values, at, dim), at, VALUE)
    decreases |values|
  {
    if values != [] {
      var n := |values| - 1;
      WriteValsSound(d, values[..n], at, dim);
      var e := WriteVals(d, values[..n], at, dim);
      var w := WriteVals(d, values, at, dim);
      var q := Pad(at + [VALUE, n], dim + 1);
      assert From(at, VALUE, q);
      forall j: nat | j < |values| ensures ValueEncoded(w, values[j], j, at, dim) {
        if j < n {
          assert ValueEncoded(e, values[..n][j], j, at, dim);
          assert Pad(at + [VALUE, j], dim + 1)[|at| + 1] == j && q[|at| + 1] == n;
        }
      }
    }
  }

  lemma WriteOneSound(d: Data, m: Measure, at: Point, dim: nat)
    requires |at| < dim
    ensures OneEncoded(WriteOne(d, m, at, dim), m, at, dim)
    ensures SameBut(d, WriteOne(d, m, at, dim), at, VALUE)
  {
    WriteValsSound(d, m.values, at, dim);
    var e := WriteVals(d, m.values, at, dim);
    var w := WriteOne(d, m, at, dim);
    assert From(at, VALUE, Pad(at, dim));
    forall j: nat | j < |m.values| ensures ValueEncoded(w, m.values[j], j, at, dim) {
      assert ValueEncoded(e, m.values[j], j, at, dim);
    }
  }

  /** The recursive writer encodes the whole measure and touches nothing outside its part of the arrays. */
  lemma {:induction false} WriteMeasureSound(d: Data, m: Measure, at: Point, dim: nat)
    requires |at| + Levels(m.ref) <= dim
    ensures Encoded(WriteMeasure(d, m, at, dim), m, at, dim)
    ensures SameBut(d, WriteMeasure(d, m, at, dim), at, VALUE)
    decreases m.ref, NUM_COMPONENTS
  {
    var one := WriteOne(d, m, at, dim);
    WriteOneSound(d, m, at, dim);
    WriteComponentsSound(one, m.ref, OFFSET, at, dim);
    var w := WriteMeasure(d, m, at, dim);
    OneStable(one, w, m, at, dim);
    forall p | !From(at, VALUE, p) ensures SameAt(d, w, p) {
      assert !From(at, OFFSET, p);
      assert SameAt(d, one, p) && SameAt(one, w, p);
    }
  }

  lemma {:induction false} WriteComponentsSound(d: Data, r: Ref, c: int, at: Point, dim: nat)
    requires |at| + Levels(r) <= dim && OFFSET <= c
    ensures ComponentsEncoded(WriteComponents(d, r, c, at, dim), r, c, at, dim)
    ensures SameBut(d, WriteComponents(d, r, c, at, dim), at, c)
    decreases r, NUM_COMPONENTS - c
  {
    if c < NUM_COMPONENTS {
      if Component(r, c).None? {
        WriteComponentsSound(d, r, c + 1, at, dim);
      } else {
        ComponentLevels(r, c);
        var m := Component(r, c).value;
        var e := WriteMeasure(d, m, at + [c], dim);
        var w := WriteComponents(e, r, c + 1, at, dim);
        WriteMeasureSound(d, m, at + [c], dim);
        WriteComponentsSound(e, r, c + 1, at, dim);
        forall p | From(at + [c], VALUE, p) ensures SameAt(e, w, p) {
          assert !From(at, c + 1, p);
        }
        Stable(e, w, m, at + [c], dim);
        forall p | !From(at, c, p) ensures SameAt(d, w, p) {
          assert !From(at + [c], VALUE, p) && !From(at, c + 1, p);
          assert SameAt(d, e, p) && SameAt(e, w, p);
        }
      }
    }
  }
}

/**
 Where measures are addressed, in the numbers of `MeasRef::ArrayComponent`: below 0 the values of a
 measure, below 1 to 5 offset, epoch, position, direction and radial velocity of its reference.
 */
module MeasureAddresses {
  import opened Wrappers
  import opened Enumeration
  import opened Measures
  import opened CreateTrees

  ghost predicate OnlyZeros(p: Point) {
    forall i | 0 <= i < |p| :: p[i] == 0
  }

  /** The measure of a reference that is addressed below c. */
  ghost function Below(r: Ref, c: int): Option<Measure> {
    match c
    case 1 => r.offset
    case 2 => r.epoch
    case 3 => r.position
    case 4 => r.direction
    case 5 => r.radialVelocity
    case _ => None
  }

  /** p leads to a node of r: the way down through components, then zeros. */
  ghost predicate Node(r: Ref, p: Point)
    decreases |p|
  {
    OnlyZeros(p) || (p != [] && Below(r, p[0]).Some? && Node(Below(r, p[0]).value.ref, p[1..]))
  }

  /** p leads to a value of a measure with these values, or of a measure below it. */
  ghost predicate Slot(r: Ref, values: seq<Value>, p: Point)
    decreases |p|
  {
    && p != []
    && if p[0] == 0 then |p| > 1 && 0 <= p[1] < |values| && OnlyZeros(p[2..])
       else Below(r, p[0]).Some? && Slot(Below(r, p[0]).value.ref, Below(r, p[0]).value.values, p[1..])
  }

  lemma BelowIs(r: Ref, c: int)
    ensures Component(r, c) == Below(r, c)
  {
  }

  lemma {:induction false} AllZeroIs(p: Point)
    ensures AllZero(p) <==> OnlyZeros(p)
  {
    if p != [] {
      AllZeroIs(p[1..]);
      if OnlyZeros(p[1..]) && p[0] == 0 {
        forall i | 0 <= i < |p| ensures p[i] == 0 {
          if i > 0 { assert p[1..][i - 1] == 0; }
        }
      }
    }
  }

  lemma {:induction false} NodeIs(r: Ref, p: Point)
    ensures Address(r, p) <==> Node(r, p)
    decreases |p|
  {
    AllZeroIs(p);
    if p != [] {
      BelowIs(r, p[0]);
      if Below(r, p[0]).Some? { NodeIs(Below(r, p[0]).value.ref, p[1..]); }
    }
  }

  lemma {:induction false} SlotIs(r: Ref, values: seq<Value>, p: Point)
    ensures ValueAddress(r, values, p) <==> Slot(r, values, p)
    decreases |p|
  {
    if p != [] {
      BelowIs(r, p[0]);
      if |p| > 1 { AllZeroIs(p[2..]); }
      if Below(r, p[0]).Some? { SlotIs(Below(r, p[0]).value.ref, Below(r, p[0]).value.values, p[1..]); }
    }
  }

  /** A reference needs one dimension, and one more than any of its five measures. */
  lemma LevelsAre(r: Ref)
    ensures Levels(r) >= 1
    ensures forall c | 1 <= c <= 5 && Below(r, c).Some? :: Levels(Below(r, c).value.ref) < Levels(r)
    ensures Levels(r) > 1 ==>
              exists c :: 1 <= c <= 5 && Below(r, c).Some? && Levels(Below(r, c).value.ref) == Levels(r) - 1
  {
    forall c | 1 <= c <= 5 && Below(r, c).Some? ensures Levels(Below(r, c).value.ref) < Levels(r) {
      BelowIs(r, c);
      ComponentLevels(r, c);
    }
    if Levels(r) > 1 {
      var c := DeepestFrom(r, OFFSET);
      BelowIs(r, c);
    }
  }

  lemma {:induction false} DeepestFrom(r: Ref, c: int) returns (d: int)
    requires LevelsFrom(r, c) > 0
    ensures Component(r, d).Some? && Levels(Component(r, d).value.ref) == LevelsFrom(r, c)
    decreases NUM_COMPONENTS - c
  {
    hide Levels;
    if Component(r, c).Some? && Levels(Component(r, c).value.ref) == LevelsFrom(r, c) {
      d := c;
    } else {
      d := DeepestFrom(r, c + 1);
    }
  }

  /** The points of the metadata domain: the reference, the way to a node, zeros up to the common rank. */
  lemma MetadataPointIs(mrbs: seq<Ref>, p: Point)
    ensures MetadataPoint(mrbs, p)
       <==> p != [] && 0 <= p[0] < |mrbs| && |p| == Levels(mrbs[p[0]]) + 1 && Node(mrbs[p[0]], p[1..])
  {
    if p != [] && 0 <= p[0] < |mrbs| { NodeIs(mrbs[p[0]], p[1..]); }
  }

  ghost predicate Bare(r: Ref) {
    r.offset.None? && r.epoch.None? && r.position.None? && r.direction.None? && r.radialVelocity.None?
  }

  /** The points of the values domain: the reference, the way to a value, zeros. */
  lemma ValuePointIs(mrbs: seq<Ref>, p: Point)
    ensures ValuePoint(mrbs, p)
       <==> && p != [] && 0 <= p[0] < |mrbs| && |p| == Levels(mrbs[p[0]]) + 2
            && if Bare(mrbs[p[0]]) then OnlyZeros(p[1..]) else Slot(mrbs[p[0]], [], p[1..])
  {
    if p != [] && 0 <= p[0] < |mrbs| {
      var r := mrbs[p[0]];
      SlotIs(r, [], p[1..]);
      AllZeroIs(p[1..]);
      assert Below(r, 1) == r.offset && Below(r, 2) == r.epoch && Below(r, 3) == r.position;
      assert Below(r, 4) == r.direction && Below(r, 5) == r.radialVelocity;
      forall c ensures Component(r, c) == Below(r, c) { BelowIs(r, c); }
      if Bare(r) { forall c ensures Below(r, c).None? {} }
      if NoComponents(r) { assert forall c | 1 <= c <= 5 :: Component(r, c).None?; }
    }
  }

  // ----- a reference with all five components -----

  const NO_REF := Ref(0, None, None, None, None, None)

  /** The class of the measure is Epoch; every component has two values and no components of its own. */
  function Full(v: Value): Ref {
    var two := [v, v];
    Ref(0, Some(Measure(Epoch, two, NO_REF)), Some(Measure(Epoch, two, NO_REF)), Some(Measure(Position, two, NO_REF)),
        Some(Measure(Direction, two, NO_REF)), Some(Measure(RadialVelocity, two, NO_REF)))
  }

  lemma FullLevels(v: Value)
    ensures Levels(NO_REF) == 1 && Levels(Full(v)) == 2
  {
    hide Full, Levels, Below;
    NoLevels();
    FullBelow(v);
    LevelsAre(Full(v));
    assert Below(Full(v), 1).Some?;
  }

  lemma NoLevels()
    ensures Levels(NO_REF) == 1
  {
    LevelsAre(NO_REF);
  }

  lemma FullBelow(v: Value)
    ensures forall c | 1 <= c <= 5 :: Below(Full(v), c).Some? && Below(Full(v), c).value.ref == NO_REF
                                      && Below(Full(v), c).value.values == [v, v]
    ensures !Bare(Full(v)) && Bare(NO_REF)
  {
  }

  /** Its metadata is at [0, 0, 0] and at [0, c, 0] for c from 1 to 5, its values at [0, c, 0, 0] and [0, c, 0, 1]. */
  lemma FullDomains(v: Value, p: Point)
    ensures MetadataPoint([Full(v)], p) <==> |p| == 3 && p[0] == 0 && 0 <= p[1] <= 5 && p[2] == 0
    ensures ValuePoint([Full(v)], p) <==> |p| == 4 && p[0] == 0 && 1 <= p[1] <= 5 && p[2] == 0 && 0 <= p[3] <= 1
  {
    hide Full, Levels;
    var r := Full(v);
    FullLevels(v);
    FullBelow(v);
    MetadataPointIs([r], p);
    ValuePointIs([r], p);
    if |p| == 3 {
      BareNode(p[2..]);
      assert p[1..][0] == p[1] && p[1..][1..] == p[2..];
    }
    if |p| == 4 {
      BareSlot([v, v], p[2..]);
      assert p[1..][0] == p[1] && p[1..][1..] == p[2..];
    }
  }

  lemma BareNode(p: Point)
    requires |p| == 1
    ensures Node(NO_REF, p) <==> p[0] == 0
  {
  }

  lemma BareSlot(values: seq<Value>, p: Point)
    requires |p| == 2
    ensures Slot(NO_REF, values, p) <==> p[0] == 0 && 0 <= p[1] < |values|
  {
  }
}

/**
 Measure references as hyperion/MeasRef.cc sees them: a reference has a type, an optional offset and a
 frame of up to four measures, and each of these measures has values and a reference of its own.
 */
module Measures {
  import opened Wrappers
  import opened Enumeration
  import opened RankExtension

  datatype MClass =
    | NoClass | Baseline | Direction | Doppler | EarthMagnetic | Epoch | Frequency | Position
    | RadialVelocity | Uvw

  type Value = real

  datatype Ref = Ref(
    rtype: int,
    offset: Option<Measure>,
    epoch: Option<Measure>,
    position: Option<Measure>,
    direction: Option<Measure>,
    radialVelocity: Option<Measure>
  )

  datatype Measure = Measure(klass: MClass, values: seq<Value>, ref: Ref)

  // `MeasRef::ArrayComponent`
  const VALUE := 0
  const OFFSET := 1
  const EPOCH := 2
  const POSITION := 3
  const DIRECTION := 4
  const RADIAL_VELOCITY := 5
  const NUM_COMPONENTS := 6

  function Component(r: Ref, c: int): (m: Option<Measure>)
    ensures m.Some? ==> m.value.ref < r && OFFSET <= c < NUM_COMPONENTS
  {
    if c == OFFSET then r.offset
    else if c == EPOCH then r.epoch
    else if c == POSITION then r.position
    else if c == DIRECTION then r.direction
    else if c == RADIAL_VELOCITY then r.radialVelocity
    else None
  }

  function WithComponent(r: Ref, c: int, m: Measure): Ref {
    if c == OFFSET then r.(offset := Some(m))
    else if c == EPOCH then r.(epoch := Some(m))
    else if c == POSITION then r.(position := Some(m))
    else if c == DIRECTION then r.(direction := Some(m))
    else if c == RADIAL_VELOCITY then r.(radialVelocity := Some(m))
    else r
  }

  /**
   Every component measure has a class and at least one value, and an offset has the class of the
   measure it belongs to.
   */
  predicate WellFormed(r: Ref, klass: MClass)
    decreases r, 0
  {
    && klass != NoClass
    && (r.offset.Some? ==> r.offset.value.klass == klass)
    && WellFormedFrom(r, OFFSET)
  }

  predicate WellFormedFrom(r: Ref, c: int)
    decreases r, 0, NUM_COMPONENTS - c
  {
    c < NUM_COMPONENTS ==>
      && (Component(r, c).Some? ==>
            Component(r, c).value.values != [] && WellFormed(Component(r, c).value.ref, Component(r, c).value.klass))
      && WellFormedFrom(r, c + 1)
  }

  /** The number of array dimensions that a reference needs. */
  function Levels(r: Ref): nat
    decreases r, NUM_COMPONENTS
  {
    1 + LevelsFrom(r, OFFSET)
  }

  function LevelsFrom(r: Ref, c: int): nat
    decreases r, NUM_COMPONENTS - c
  {
    if c >= NUM_COMPONENTS then 0
    else
      var rest := LevelsFrom(r, c + 1);
      match Component(r, c)
      case Some(m) => (var n := Levels(m.ref); if n > rest then n else rest)
      case None => rest
  }

  predicate AllZero(p: Point) {
    p != [] ==> p[0] == 0 && AllZero(p[1..])
  }

  lemma {:induction false} ZerosAllZero(p: Point)
    ensures AllZero(p) <==> p == Zeros(|p|)
  {
    if p != [] {
      ZerosAllZero(p[1..]);
      assert Zeros(|p|)[1..] == Zeros(|p| - 1);
      assert Zeros(|p|)[0] == 0;
      assert p == [p[0]] + p[1..];
      assert Zeros(|p|) == [0] + Zeros(|p| - 1);
    }
  }

  /**
   p addresses the metadata of a node of r: it names the components on the way down from the root
   and is filled up with zeros.
   */
  ghost predicate Address(r: Ref, p: Point)
    decreases |p|
  {
    || AllZero(p)
    || (p != [] && Component(r, p[0]).Some? && Address(Component(r, p[0]).value.ref, p[1..]))
  }

  /** p addresses a value below r: the components on the way down, VALUE, the index, zeros. */
  ghost predicate ValueAddress(r: Ref, values: seq<Value>, p: Point)
    decreases |p|
  {
    p != [] &&
    if p[0] == VALUE then |p| > 1 && 0 <= p[1] < |values| && AllZero(p[2..])
    else Component(r, p[0]).Some?
         && ValueAddress(Component(r, p[0]).value.ref, Component(r, p[0]).value.values, p[1..])
  }

  lemma {:induction false} LevelsFromAtLeast(r: Ref, c: int, c': int)
    requires c <= c' && Component(r, c').Some?
    ensures Levels(Component(r, c').value.ref) <= LevelsFrom(r, c)
    decreases c' - c
  {
    if c < c' { LevelsFromAtLeast(r, c + 1, c'); }
  }

  lemma ComponentLevels(r: Ref, c: int)
    requires Component(r, c).Some?
    ensures Levels(Component(r, c).value.ref) < Levels(r)
  {
    LevelsFromAtLeast(r, OFFSET, c);
  }

  lemma {:induction false} WellFormedFromAt(r: Ref, c: int, c': int)
    requires WellFormedFrom(r, c) && c <= c' && Component(r, c').Some?
    ensures var m := Component(r, c').value; m.values != [] && WellFormed(m.ref, m.klass)
    decreases c' - c
  {
    if c < c' { WellFormedFromAt(r, c + 1, c'); }
  }

  lemma WellFormedComponent(r: Ref, klass: MClass, c: int)
    requires WellFormed(r, klass) && Component(r, c).Some?
    ensures var m := Component(r, c).value; m.values != [] && WellFormed(m.ref, m.klass)
  {
    WellFormedFromAt(r, OFFSET, c);
  }
}

/** The stack machine `initialize<D>` of hyperion/MeasRef.cc. */
module MeasureWriter {
  import opened Enumeration
  import opened RankExtension
  import opened Measures
  import opened MeasureEncoding

  /** What a stack entry holds: a measure not yet written, or the class and reference of a written one. */
  datatype Source = OfMeasure(measure: Measure) | OfClass(klass: MClass, mrbase: Ref) {
    function AsMeasure(): Measure {
      match this
      case OfMeasure(m) => m
      case OfClass(k, r) => Measure(k, [], r)
    }
  }

  datatype Frame = Frame(m: Source, c: int)

  // ----- what remains to be done -----

  ghost predicate Fits(f: Frame, at: Point, dim: nat) {
    && |at| + Levels(f.m.AsMeasure().ref) <= dim && VALUE <= f.c <= NUM_COMPONENTS
    && (f.c != VALUE ==> f.m.OfClass?)
    && WellFormed(f.m.AsMeasure().ref, f.m.AsMeasure().klass)
  }

  ghost function Finish(d: Data, f: Frame, at: Point, dim: nat): Data
    requires Fits(f, at, dim)
  {
    if f.c == VALUE then WriteMeasure(d, f.m.AsMeasure(), at, dim)
    else WriteComponents(d, f.m.AsMeasure().ref, f.c, at, dim)
  }

  ghost predicate AllFit(ms: seq<Frame>, at: Point, dim: nat) {
    && |ms| == |at|
    && (ms != [] ==> Fits(ms[|ms| - 1], at, dim) && AllFit(ms[..|ms| - 1], at[..|ms| - 1], dim))
  }

  /** The arrays after all entries of the stack have been worked off; `at` is the current path. */
  ghost function Pending(d: Data, ms: seq<Frame>, at: Point, dim: nat): Data
    requires AllFit(ms, at, dim)
    decreases |ms|
  {
    if ms == [] then d
    else Pending(Finish(d, ms[|ms| - 1], at, dim), ms[..|ms| - 1], at[..|ms| - 1], dim)
  }

  /** The domains contain every address below m. */
  ghost predicate Room(md: seq<Point>, vd: seq<Point>, m: Measure, at: Point, dim: nat) {
    && (forall q: Point | |at| + |q| == dim && Address(m.ref, q) :: at + q in md)
    && (forall q: Point | |at| + |q| == dim + 1 && ValueAddress(m.ref, m.values, q) :: at + q in vd)
  }

  ghost predicate AllRoom(md: seq<Point>, vd: seq<Point>, ms: seq<Frame>, at: Point, dim: nat) {
    ms != [] && |ms| == |at| ==>
      Room(md, vd, ms[|ms| - 1].m.AsMeasure(), at, dim) && AllRoom(md, vd, ms[..|ms| - 1], at[..|ms| - 1], dim)
  }

  /** The number of measures below r in component c or a later one, and of edges to them. */
  function WorkFrom(r: Ref, c: int): nat
    decreases r, NUM_COMPONENTS - c
  {
    if c >= NUM_COMPONENTS then 0
    else (match Component(r, c) case Some(m) => 2 + WorkFrom(m.ref, OFFSET) case None => 0) + WorkFrom(r, c + 1)
  }

  function Work(ms: seq<Frame>): nat {
    if ms == [] then 0
    else
      var f := ms[|ms| - 1];
      1 + WorkFrom(f.m.AsMeasure().ref, if f.c == VALUE then OFFSET else f.c) + Work(ms[..|ms| - 1])
  }

  ghost predicate State(d: Data, ms: seq<Frame>, at: Point, dim: nat, prs: DataRegions, goal: Data) {
    && AllFit(ms, at, dim) && Pending(d, ms, at, dim) == goal
    && AllRoom(prs.metadataDomain, prs.valueDomain, ms, at, dim)
  }

  lemma Start(d: Data, klass: MClass, r: Ref, i: nat, dim: nat, prs: DataRegions)
    requires 1 + Levels(r) <= dim && WellFormed(r, klass)
    requires Room(prs.metadataDomain, prs.valueDomain, Measure(klass, [], r), [i], dim)
    ensures State(d, [Frame(OfClass(klass, r), VALUE)], [i], dim, prs, WriteMeasure(d, Measure(klass, [], r), [i], dim))
  {
    var ms := [Frame(OfClass(klass, r), VALUE)];
    assert ms[..0] == [] && [i][..0] == [];
    assert AllFit(ms[..0], [i][..0], dim);
    assert Pending(d, ms, [i], dim) == Finish(d, ms[0], [i], dim);
  }

  function Replaced(ms: seq<Frame>, f: Frame): seq<Frame>
    requires ms != []
  {
    ms[..|ms| - 1] + [f]
  }

  lemma ReplacedFacts(ms: seq<Frame>, f: Frame)
    requires ms != []
    ensures |Replaced(ms, f)| == |ms| && Replaced(ms, f)[|ms| - 1] == f
    ensures Replaced(ms, f)[..|ms| - 1] == ms[..|ms| - 1]
  {
  }

  /** The measure on top has been written. */
  lemma Written(d: Data, ms: seq<Frame>, at: Point, dim: nat, prs: DataRegions, goal: Data)
    requires State(d, ms, at, dim, prs, goal) && ms != [] && ms[|ms| - 1].c == VALUE
    ensures var m := ms[|ms| - 1].m.AsMeasure();
            && |at| == |ms| < dim
            && Room(prs.metadataDomain, prs.valueDomain, m, at, dim) && m.klass != NoClass
            && var ms' := Replaced(ms, Frame(OfClass(m.klass, m.ref), OFFSET));
            && State(WriteOne(d, m, at, dim), ms', at, dim, prs, goal)
            && Work(ms') == Work(ms)
  {
    var m := ms[|ms| - 1].m.AsMeasure();
    ReplacedFacts(ms, Frame(OfClass(m.klass, m.ref), OFFSET));
    forall q | ValueAddress(m.ref, [], q) ensures ValueAddress(m.ref, m.values, q) {
    }
  }

  /** The component under consideration is absent. */
  lemma Skipped(d: Data, ms: seq<Frame>, at: Point, dim: nat, prs: DataRegions, goal: Data)
    requires State(d, ms, at, dim, prs, goal) && ms != []
    requires var f := ms[|ms| - 1]; VALUE < f.c < NUM_COMPONENTS && Component(f.m.AsMeasure().ref, f.c).None?
    ensures var f := ms[|ms| - 1];
            var ms' := Replaced(ms, Frame(f.m, f.c + 1));
            && State(d, ms', at, dim, prs, goal) && Work(ms') == Work(ms)
  {
    var f := ms[|ms| - 1];
    ReplacedFacts(ms, Frame(f.m, f.c + 1));
  }

  lemma ChildRoom(md: seq<Point>, vd: seq<Point>, m: Measure, c: int, at: Point, dim: nat)
    requires Room(md, vd, m, at, dim) && Component(m.ref, c).Some?
    ensures Room(md, vd, Component(m.ref, c).value, at + [c], dim)
  {
    var n := Component(m.ref, c).value;
    forall q: Point | |at + [c]| + |q| == dim && Address(n.ref, q) ensures at + [c] + q in md {
      assert ([c] + q)[1..] == q && at + [c] + q == at + ([c] + q);
    }
    forall q: Point | |at + [c]| + |q| == dim + 1 && ValueAddress(n.ref, n.values, q) ensures at + [c] + q in vd {
      assert ([c] + q)[1..] == q && at + [c] + q == at + ([c] + q);
    }
  }

  ghost predicate HasChild(ms: seq<Frame>) {
    ms != [] && VALUE < ms[|ms| - 1].c < NUM_COMPONENTS
    && Component(ms[|ms| - 1].m.AsMeasure().ref, ms[|ms| - 1].c).Some?
  }

  ghost function Child(ms: seq<Frame>): Measure
    requires HasChild(ms)
  {
    Component(ms[|ms| - 1].m.AsMeasure().ref, ms[|ms| - 1].c).value
  }

  /** The stack with the next component pushed. */
  ghost function WithChild(ms: seq<Frame>): seq<Frame>
    requires HasChild(ms)
  {
    Replaced(ms, ms[|ms| - 1].(c := ms[|ms| - 1].c + 1)) + [Frame(OfMeasure(Child(ms)), VALUE)]
  }

  lemma WithChildFacts(ms: seq<Frame>, at: Point)
    requires HasChild(ms)
    ensures var ms', c := WithChild(ms), ms[|ms| - 1].c;
            && |ms'| == |ms| + 1 && ms'[|ms|] == Frame(OfMeasure(Child(ms)), VALUE)
            && ms'[..|ms|] == Replaced(ms, ms[|ms| - 1].(c := c + 1))
            && ms'[|ms| - 1] == ms[|ms| - 1].(c := c + 1)
            && ms'[..|ms|][..|ms| - 1] == ms[..|ms| - 1]
            && (at + [c])[..|at|] == at
  {
  }

  lemma PushedFits(ms: seq<Frame>, at: Point, dim: nat)
    requires HasChild(ms) && AllFit(ms, at, dim)
    ensures AllFit(WithChild(ms)[..|ms|], at, dim) && AllFit(WithChild(ms), at + [ms[|ms| - 1].c], dim)
  {
    hide Levels, WellFormed, Component;
    WithChildFacts(ms, at);
    var f := ms[|ms| - 1];
    ComponentLevels(f.m.AsMeasure().ref, f.c);
    WellFormedComponent(f.m.AsMeasure().ref, f.m.AsMeasure().klass, f.c);
    assert Fits(f.(c := f.c + 1), at, dim);
    assert Fits(Frame(OfMeasure(Child(ms)), VALUE), at + [f.c], dim);
  }

  lemma PushedPending(d: Data, ms: seq<Frame>, at: Point, dim: nat)
    requires HasChild(ms) && AllFit(ms, at, dim) && AllFit(WithChild(ms), at + [ms[|ms| - 1].c], dim)
    ensures Pending(d, WithChild(ms), at + [ms[|ms| - 1].c], dim) == Pending(d, ms, at, dim)
  {
    hide AllFit, Levels, WellFormed, WriteMeasure, Component;
    WithChildFacts(ms, at);
    UnfoldFits(ms, at, dim);
    UnfoldFits(WithChild(ms), at + [ms[|ms| - 1].c], dim);
    UnfoldFits(WithChild(ms)[..|ms|], at, dim);
    assert Pending(d, WithChild(ms), at + [ms[|ms| - 1].c], dim)
        == Pending(WriteMeasure(d, Child(ms), at + [ms[|ms| - 1].c], dim), WithChild(ms)[..|ms|], at, dim);
  }

  lemma UnfoldFits(ms: seq<Frame>, at: Point, dim: nat)
    requires AllFit(ms, at, dim) && ms != []
    ensures |ms| == |at| && Fits(ms[|ms| - 1], at, dim) && AllFit(ms[..|ms| - 1], at[..|ms| - 1], dim)
  {
  }

  lemma PushedRoom(md: seq<Point>, vd: seq<Point>, ms: seq<Frame>, at: Point, dim: nat)
    requires HasChild(ms) && |ms| == |at| && AllRoom(md, vd, ms, at, dim)
    ensures AllRoom(md, vd, WithChild(ms), at + [ms[|ms| - 1].c], dim)
  {
    hide Room;
    WithChildFacts(ms, at);
    ChildRoom(md, vd, ms[|ms| - 1].m.AsMeasure(), ms[|ms| - 1].c, at, dim);
    assert AllRoom(md, vd, WithChild(ms)[..|ms|], at, dim);
  }

  lemma PushedWork(ms: seq<Frame>)
    requires HasChild(ms)
    ensures Work(WithChild(ms)) < Work(ms)
  {
    WithChildFacts(ms, []);
    var f := ms[|ms| - 1];
    var r := f.m.AsMeasure().ref;
    assert Work(WithChild(ms)) == 1 + WorkFrom(Child(ms).ref, OFFSET) + Work(WithChild(ms)[..|ms|]);
    assert WorkFrom(r, f.c) == 2 + WorkFrom(Child(ms).ref, OFFSET) + WorkFrom(r, f.c + 1);
  }

  /** The component under consideration is pushed. */
  lemma Pushed(d: Data, ms: seq<Frame>, at: Point, dim: nat, prs: DataRegions, goal: Data)
    requires State(d, ms, at, dim, prs, goal) && HasChild(ms)
    ensures State(d, WithChild(ms), at + [ms[|ms| - 1].c], dim, prs, goal)
    ensures Work(WithChild(ms)) < Work(ms)
  {
    hide Work, Pending, AllRoom, WithChild;
    PushedFits(ms, at, dim);
    PushedPending(d, ms, at, dim);
    PushedRoom(prs.metadataDomain, prs.valueDomain, ms, at, dim);
    PushedWork(ms);
  }

  /** All components of the entry on top have been handled. */
  lemma Popped(d: Data, ms: seq<Frame>, at: Point, dim: nat, prs: DataRegions, goal: Data)
    requires State(d, ms, at, dim, prs, goal) && ms != [] && ms[|ms| - 1].c == NUM_COMPONENTS
    ensures |at| == |ms| && State(d, ms[..|ms| - 1], at[..|ms| - 1], dim, prs, goal)
    ensures Work(ms[..|ms| - 1]) < Work(ms)
  {
  }

  // ----- the machine -----

  /** Zero the coordinates behind `level` of both points. */
  method ClearBehind(p: array<int>, p1: array<int>, level: nat, dim: nat)
    requires p.Length == dim && p1.Length == dim + 1 && level < dim && p != p1
    modifies p, p1
    ensures p[..level + 1] == old(p[..level + 1]) && p1[..level + 1] == old(p1[..level + 1])
    ensures (forall j | level < j < dim :: p[j] == 0) && (forall j | level < j <= dim :: p1[j] == 0)
  {
    for j := level + 1 to dim
      invariant p[..level + 1] == old(p[..level + 1]) && p1[..level + 1] == old(p1[..level + 1])
      invariant (forall i | level < i < j :: p[i] == 0) && (forall i | level < i < j :: p1[i] == 0)
    {
      p[j], p1[j] := 0, 0;
    }
    p1[dim] := 0;
  }

  /** The address of a node, as the loop leaves it in the array. */
  lemma NodePoint(s: Point, at: Point, dim: nat)
    requires |s| == dim && |at| < dim && s[..|at|] == at
    requires s[|at|] == VALUE && forall j | |at| < j < dim :: s[j] == 0
    ensures s == Pad(at, dim)
  {
  }

  lemma ValuePointIs(s: Point, at: Point, j: nat, dim: nat)
    requires |s| == dim + 1 && |at| < dim && s[..|at|] == at
    requires s[|at|] == VALUE && s[|at| + 1] == j && forall i | |at| + 1 < i <= dim :: s[i] == 0
    ensures s == Pad(at + [VALUE, j], dim + 1)
  {
  }

  lemma NodeInDomain(md: seq<Point>, vd: seq<Point>, m: Measure, at: Point, dim: nat)
    requires Room(md, vd, m, at, dim) && |at| < dim
    ensures Pad(at, dim) in md
  {
    ZerosAllZero(Zeros(dim - |at|));
    assert Address(m.ref, Zeros(dim - |at|));
  }

  lemma ValueInDomain(md: seq<Point>, vd: seq<Point>, m: Measure, j: nat, at: Point, dim: nat)
    requires Room(md, vd, m, at, dim) && |at| < dim && j < |m.values|
    ensures Pad(at + [VALUE, j], dim + 1) in vd
  {
    var z := Zeros(dim - 1 - |at|);
    ZerosAllZero(Zeros(dim - 1 - |at|));
    var q := [VALUE, j] + z;
    assert q[2..] == z;
    assert ValueAddress(m.ref, m.values, q);
    assert Pad(at + [VALUE, j], dim + 1) == at + q;
  }

  lemma NextValue(d: Data, values: seq<Value>, j: nat, at: Point, dim: nat)
    requires j < |values| && |at| < dim
    ensures WriteVals(d, values[..j + 1], at, dim)
         == var e := WriteVals(d, values[..j], at, dim);
            e.(vals := e.vals[Pad(at + [VALUE, j], dim + 1) := values[j]])
  {
    assert values[..j + 1][..j] == values[..j];
  }

  /** The visitor of a stack entry that has not been written yet. */
  method WriteLevel(prs: DataRegions, m: Source, p: array<int>, p1: array<int>, level: nat, ghost at: Point, dim: nat)
      returns (refBase: Ref)
    requires p.Length == dim && p1.Length == dim + 1 && p != p1 && level == |at| < dim
    requires Room(prs.metadataDomain, prs.valueDomain, m.AsMeasure(), at, dim)
    requires p[..] == Pad(at, dim)
    requires p1[..level] == at && p1[level] == VALUE && forall j | level < j <= dim :: p1[j] == 0
    requires m.AsMeasure().klass != NoClass
    modifies prs, p1
    ensures prs.Contents() == WriteOne(old(prs.Contents()), m.AsMeasure(), at, dim)
    ensures refBase == m.AsMeasure().ref && p1[..level + 1] == old(p1[..level + 1])
  {
    hide Room, Pad, WriteVals;
    ghost var d, md, vd := prs.Contents(), prs.metadataDomain, prs.valueDomain;
    NodeInDomain(md, vd, m.AsMeasure(), at, dim);
    NoValues(d, m.AsMeasure(), at, dim);
    match m {
      case OfMeasure(measure) =>
        var mvals := measure.values;
        var j := 0;
        while j < |mvals|
          invariant j <= |mvals|
          invariant prs.Contents() == WriteVals(d, mvals[..j], at, dim)
          invariant p1[..level] == at && p1[level] == VALUE && forall i | level + 1 < i <= dim :: p1[i] == 0
        {
          p1[level + 1] := j;
          ValuePointIs(p1[..], at, j, dim);
          ValueInDomain(md, vd, measure, j, at, dim);
          NextValue(d, mvals, j, at, dim);
          prs.WriteValue(p1[..], mvals[j]);
          j := j + 1;
        }
        assert mvals[..|mvals|] == mvals;
        prs.WriteNumValues(p[..], |mvals|);
        refBase := measure.ref;
        prs.WriteClass(p[..], measure.klass);
      case OfClass(k, r) =>
        prs.WriteClass(p[..], k);
        prs.WriteNumValues(p[..], 0);
        refBase := r;
    }
    prs.WriteRefType(p[..], refBase.rtype);
    assert p1[..level + 1] == at + [VALUE];
  }

  lemma NoValues(d: Data, m: Measure, at: Point, dim: nat)
    requires |at| < dim
    ensures WriteVals(d, m.values[..0], at, dim) == d
    ensures m.values == [] ==> WriteVals(d, m.values, at, dim) == d
  {
  }

  lemma TopFits(d: Data, ms: seq<Frame>, at: Point, dim: nat, prs: DataRegions, goal: Data)
    requires State(d, ms, at, dim, prs, goal) && ms != []
    ensures |at| == |ms| < dim
    ensures var f := ms[|ms| - 1]; VALUE <= f.c <= NUM_COMPONENTS && (f.c != VALUE ==> f.m.OfClass?)
  {
  }

  lemma Finished(d: Data, at: Point, dim: nat, prs: DataRegions, goal: Data)
    requires State(d, [], at, dim, prs, goal)
    ensures d == goal
  {
  }

  /** Both points start with the current path. */
  ghost predicate On(s: Point, s1: Point, at: Point, dim: nat) {
    |s| == dim && |s1| == dim + 1 && at <= s && at <= s1
  }

  lemma OnSet(s: Point, s1: Point, at: Point, dim: nat, c: int)
    requires On(s, s1, at, dim) && |at| < dim
    ensures On(s[|at| := c], s1[|at| := c], at, dim) && On(s[|at| := c], s1[|at| := c], at + [c], dim)
  {
  }

  lemma OnUp(s: Point, s1: Point, at: Point, dim: nat)
    requires On(s, s1, at, dim) && at != []
    ensures On(s, s1, at[..|at| - 1], dim)
  {
  }

  lemma OnCleared(s: Point, s1: Point, t: Point, t1: Point, at: Point, dim: nat)
    requires On(s, s1, at, dim) && |at| < dim && |t| == dim && |t1| == dim + 1
    requires t[..|at| + 1] == s[..|at| + 1] && t1[..|at| + 1] == s1[..|at| + 1]
    ensures On(t, t1, at, dim)
  {
    assert t[..|at|] == t[..|at| + 1][..|at|] && t1[..|at|] == t1[..|at| + 1][..|at|];
    assert s[..|at|] == at && s1[..|at|] == at;
  }

  /** Look for the next component that is present, and push it. */
  method PushNext(prs: DataRegions, stack: seq<Frame>, m: Source, from: int, p: array<int>, p1: array<int>,
                  ghost path: Point, dim: nat, ghost goal: Data)
      returns (ms: seq<Frame>, ghost at: Point)
    requires stack != [] && stack[|stack| - 1] == Frame(m, from)
    requires m.OfClass? && VALUE < from <= NUM_COMPONENTS && |path| == |stack| < dim
    requires State(prs.Contents(), stack, path, dim, prs, goal) && On(p[..], p1[..], path, dim)
    requires p != p1
    modifies p, p1
    ensures State(prs.Contents(), ms, at, dim, prs, goal) && On(p[..], p1[..], at, dim)
    ensures if |ms| == |stack| then |at| == |ms| && ms[|ms| - 1].c == NUM_COMPONENTS && Work(ms) <= Work(stack)
            else Work(ms) < Work(stack)
  {
    hide State, Work, Component, On;
    var level, refBase, c := |stack|, m.mrbase, from;
    ms, at := stack, path;
    while |ms| == level && c < NUM_COMPONENTS
      invariant State(prs.Contents(), ms, at, dim, prs, goal) && On(p[..], p1[..], at, dim)
      invariant VALUE < c <= NUM_COMPONENTS
      invariant if |ms| == level then |at| == level && ms[level - 1] == Frame(m, c) && Work(ms) <= Work(stack)
                else Work(ms) < Work(stack)
    {
      OnPath(p[..], p1[..], at, dim);
      var cm := Component(refBase, c);
      OnSet(p[..], p1[..], at, dim, c);
      p[level], p1[level] := c, c;
      ghost var before := ms;
      c := c + 1;
      ms := ms[..level - 1] + [Frame(m, c)];
      if cm.Some? {
        Pushed(prs.Contents(), before, at, dim, prs, goal);
        ms := ms + [Frame(OfMeasure(cm.value), VALUE)];
        at := at + [c - 1];
      } else {
        Skipped(prs.Contents(), before, at, dim, prs, goal);
      }
    }
  }

  method InitializeRef(prs: DataRegions, mrb: Ref, klass: MClass, i: nat, dim: nat)
    requires 1 + Levels(mrb) <= dim && WellFormed(mrb, klass)
    requires Room(prs.metadataDomain, prs.valueDomain, Measure(klass, [], mrb), [i], dim)
    modifies prs
    ensures prs.Contents() == WriteMeasure(old(prs.Contents()), Measure(klass, [], mrb), [i], dim)
  {
    hide State, Levels, Work, Room, WellFormed, WriteMeasure, WriteOne, Component, On, Pad, AllFit;
    var p, p1 := new int[dim], new int[dim + 1];
    p[0], p1[0] := i, i;
    var ms := [Frame(OfClass(klass, mrb), VALUE)];
    ghost var at, goal := [i], WriteMeasure(prs.Contents(), Measure(klass, [], mrb), [i], dim);
    Start(prs.Contents(), klass, mrb, i, dim, prs);
    OnStart(p[..], p1[..], i, dim);
    while ms != []
      invariant State(prs.Contents(), ms, at, dim, prs, goal) && On(p[..], p1[..], at, dim)
      decreases Work(ms)
    {
      var Frame(m, c) := ms[|ms| - 1];
      var level := |ms|;
      TopFits(prs.Contents(), ms, at, dim, prs, goal);
      ghost var s, s1 := p[..], p1[..];
      ClearBehind(p, p1, level, dim);
      OnCleared(s, s1, p[..], p1[..], at, dim);
      if c == VALUE {
        OnSet(p[..], p1[..], at, dim, VALUE);
        p[level], p1[level] := VALUE, VALUE;
        OnPath(p[..], p1[..], at, dim);
        NodePoint(p[..], at, dim);
        Written(prs.Contents(), ms, at, dim, prs, goal);
        s1 := p1[..];
        var refBase := WriteLevel(prs, m, p, p1, level, at, dim);
        OnCleared(p[..], s1, p[..], p1[..], at, dim);
        m := OfClass(m.AsMeasure().klass, refBase);
        c := OFFSET;
        ms := ms[..level - 1] + [Frame(m, c)];
      }
      ms, at := PushNext(prs, ms, m, c, p, p1, at, dim, goal);
      if |ms| == level {
        Popped(prs.Contents(), ms, at, dim, prs, goal);
        OnUp(p[..], p1[..], at, dim);
        ms := ms[..level - 1];
        at := at[..level - 1];
      }
    }
    Finished(prs.Contents(), at, dim, prs, goal);
  }

  lemma OnStart(s: Point, s1: Point, i: int, dim: nat)
    requires |s| == dim && |s1| == dim + 1 && dim > 0 && s[0] == s1[0] == i
    ensures On(s, s1, [i], dim)
  {
  }

  lemma OnPath(s: Point, s1: Point, at: Point, dim: nat)
    requires On(s, s1, at, dim)
    ensures |s| == dim && |s1| == dim + 1 && |at| <= dim && s[..|at|] == at && s1[..|at|] == at
  {
  }

  method Initialize(prs: DataRegions, mrbs: seq<Ref>, klass: MClass, dim: nat)
    requires forall i | 0 <= i < |mrbs| ::
               && 1 + Levels(mrbs[i]) <= dim && WellFormed(mrbs[i], klass)
               && Room(prs.metadataDomain, prs.valueDomain, Measure(klass, [], mrbs[i]), [i], dim)
    modifies prs
    ensures forall i | 0 <= i < |mrbs| :: 1 + Levels(mrbs[i]) <= dim
    ensures forall i | 0 <= i < |mrbs| :: Encoded(prs.Contents(), Measure(klass, [], mrbs[i]), [i], dim)
  {
    hide Levels, Room, WellFormed, WriteMeasure, Encoded, SameFrom;
    var i := 0;
    while i < |mrbs|
      invariant i <= |mrbs|
      invariant forall j | 0 <= j < i :: Encoded(prs.Contents(), Measure(klass, [], mrbs[j]), [j], dim)
    {
      ghost var d := prs.Contents();
      InitializeRef(prs, mrbs[i], klass, i, dim);
      WriteMeasureSound(d, Measure(klass, [], mrbs[i]), [i], dim);
      forall j | 0 <= j < i ensures Encoded(prs.Contents(), Measure(klass, [], mrbs[j]), [j], dim) {
        Apart(d, prs.Contents(), i, j);
        Stable(d, prs.Contents(), Measure(klass, [], mrbs[j]), [j], dim);
      }
      i := i + 1;
    }
  }

  lemma Apart(d: Data, e: Data, i: nat, j: nat)
    requires i != j && SameBut(d, e, [i], VALUE)
    ensures SameFrom(d, e, [j], VALUE)
  {
    forall p | From([j], VALUE, p) ensures SameAt(d, e, p) {
      assert p[0] == j;
      assert !From([i], VALUE, p);
    }
  }
}

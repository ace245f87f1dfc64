/** The stack machine `instantiate<D>` of hyperion/MeasRef.cc. */
module MeasureReader {
  import opened Wrappers
  import opened Enumeration
  import opened RankExtension
  import opened Measures
  import opened MeasureEncoding
  import opened MeasureWriter

  /** A stack entry: the values, the reference under construction, its class and the next component. */
  datatype Reading = Reading(v: Option<seq<Value>>, r: Option<Ref>, k: MClass, c: int)

  const NEW_READING := Reading(None, None, NoClass, VALUE)

  /** The variant that hands a finished measure to the entry below; moving out of it leaves nothing. */
  datatype Held = HeldMeasure(measure: Option<Measure>) | HeldRef(mrbase: Option<Ref>)

  function Bare(rtype: int): Ref { Ref(rtype, None, None, None, None, None) }

  /** r with only the components before c. */
  ghost function Partial(r: Ref, c: int): Ref {
    Ref(r.rtype,
        if OFFSET < c then r.offset else None,
        if EPOCH < c then r.epoch else None,
        if POSITION < c then r.position else None,
        if DIRECTION < c then r.direction else None,
        if RADIAL_VELOCITY < c then r.radialVelocity else None)
  }

  lemma PartialSteps(r: Ref, c: int)
    ensures Partial(r, OFFSET) == Bare(r.rtype) && Partial(r, NUM_COMPONENTS) == r
    ensures OFFSET <= c < NUM_COMPONENTS ==>
              Partial(r, c + 1) == if Component(r, c).Some? then WithComponent(Partial(r, c), c, Component(r, c).value)
                                   else Partial(r, c)
  {
  }

  /** The arrays and the domain show exactly m below `at`. */
  ghost predicate Shows(d: Data, md: seq<Point>, vd: seq<Point>, m: Measure, at: Point, dim: nat) {
    && |at| + Levels(m.ref) <= dim && Encoded(d, m, at, dim) && WellFormed(m.ref, m.klass)
    && Room(md, vd, m, at, dim)
    && forall q: Point | |at| + |q| == dim && at + q in md :: Address(m.ref, q)
  }

  lemma {:induction false} ComponentsEncodedAt(d: Data, r: Ref, from: int, c: int, at: Point, dim: nat)
    requires |at| + Levels(r) <= dim && ComponentsEncoded(d, r, from, at, dim)
    requires from <= c && Component(r, c).Some?
    ensures |at| + 1 + Levels(Component(r, c).value.ref) <= dim
    ensures Encoded(d, Component(r, c).value, at + [c], dim)
    decreases c - from
  {
    ComponentLevels(r, c);
    if from < c { ComponentsEncodedAt(d, r, from + 1, c, at, dim); }
  }

  /** Nothing is left unwritten: an encoded measure fills all its metadata addresses. */
  lemma {:induction false} EncodedCovers(d: Data, m: Measure, at: Point, dim: nat, q: Point)
    requires |at| + Levels(m.ref) <= dim && Encoded(d, m, at, dim) && |at| + |q| == dim && Address(m.ref, q)
    ensures at + q in d.mclasses && at + q in d.rtypes && at + q in d.numvals
    decreases |q|
  {
    if AllZero(q) {
      ZerosAllZero(q);
      assert at + q == Pad(at, dim);
      assert OneEncoded(d, m, at, dim);
    } else {
      ComponentsEncodedAt(d, m.ref, OFFSET, q[0], at, dim);
      EncodedCovers(d, Component(m.ref, q[0]).value, at + [q[0]], dim, q[1..]);
      assert at + [q[0]] + q[1..] == at + q;
    }
  }

  lemma ShowsChild(d: Data, md: seq<Point>, vd: seq<Point>, m: Measure, c: int, at: Point, dim: nat)
    requires Shows(d, md, vd, m, at, dim) && Component(m.ref, c).Some?
    ensures Shows(d, md, vd, Component(m.ref, c).value, at + [c], dim)
    ensures Component(m.ref, c).value.values != []
    ensures c == OFFSET ==> Component(m.ref, c).value.klass == m.klass
  {
    var n := Component(m.ref, c).value;
    ComponentsEncodedAt(d, m.ref, OFFSET, c, at, dim);
    WellFormedComponent(m.ref, m.klass, c);
    ChildRoom(md, vd, m, c, at, dim);
    forall q: Point | |at + [c]| + |q| == dim && at + [c] + q in md ensures Address(n.ref, q) {
      assert ([c] + q)[1..] == q && at + [c] + q == at + ([c] + q);
      assert Address(m.ref, [c] + q);
    }
  }

  /** Probing the domain finds the components that are there. */
  lemma Probe(d: Data, md: seq<Point>, vd: seq<Point>, m: Measure, c: int, at: Point, dim: nat)
    requires Shows(d, md, vd, m, at, dim) && VALUE < c <= NUM_COMPONENTS
    ensures |at| < dim && (Pad(at + [c], dim) in md <==> Component(m.ref, c).Some?)
  {
    var z := Zeros(dim - |at| - 1);
    var q := [c] + z;
    ZerosAllZero(Zeros(dim - |at| - 1));
    assert q[1..] == z && at + q == Pad(at + [c], dim);
    if Component(m.ref, c).Some? { assert Address(Component(m.ref, c).value.ref, z); }
  }

  // ----- the stack -----

  ghost predicate Partly(f: Reading, m: Measure) {
    && f.k == m.klass && f.v == (if m.values == [] then None else Some(m.values)) && f.r == Some(Partial(m.ref, f.c))
  }

  ghost predicate Linked(parent: Reading, m: Measure, n: Measure, c: int) {
    VALUE < parent.c < NUM_COMPONENTS && Component(m.ref, parent.c) == Some(n) && c == parent.c && n.values != []
  }

  /** Entry k of the stack is building the measure nodes[k], which is component at[k] of the one below. */
  ghost predicate Building(d: Data, md: seq<Point>, vd: seq<Point>, ms: seq<Reading>, nodes: seq<Measure>,
                           at: Point, dim: nat) {
    var n := |ms|;
    && n == |nodes| == |at|
    && (n > 0 ==>
          && Shows(d, md, vd, nodes[n - 1], at, dim)
          && (ms[n - 1].c == VALUE || Partly(ms[n - 1], nodes[n - 1]))
          && Building(d, md, vd, ms[..n - 1], nodes[..n - 1], at[..n - 1], dim))
    && (n > 1 ==> Linked(ms[n - 2], nodes[n - 2], nodes[n - 1], at[n - 1]))
  }

  ghost predicate Holding(ms: seq<Reading>, nodes: seq<Measure>, held: Held)
    requires |ms| == |nodes| && ms != []
  {
    var n := |ms|;
    && VALUE <= ms[n - 1].c < NUM_COMPONENTS
    && held == HeldMeasure(if ms[n - 1].c == VALUE then None else Component(nodes[n - 1].ref, ms[n - 1].c))
  }

  function Left(ms: seq<Reading>, nodes: seq<Measure>): nat
    requires |ms| == |nodes|
  {
    if ms == [] then 0
    else
      var n := |ms| - 1;
      1 + WorkFrom(nodes[n].ref, if ms[n].c == VALUE then OFFSET else ms[n].c + 1) + Left(ms[..n], nodes[..n])
  }

  lemma Grown(d: Data, md: seq<Point>, vd: seq<Point>, ms: seq<Reading>, nodes: seq<Measure>, at: Point, dim: nat,
              c: int)
    requires Building(d, md, vd, ms, nodes, at, dim) && ms != [] && ms[|ms| - 1].c == c
    requires VALUE < c < NUM_COMPONENTS && Component(nodes[|ms| - 1].ref, c).Some?
    ensures var n := Component(nodes[|ms| - 1].ref, c).value;
            && Building(d, md, vd, ms + [NEW_READING], nodes + [n], at + [c], dim)
            && Left(ms + [NEW_READING], nodes + [n]) == 1 + WorkFrom(n.ref, OFFSET) + Left(ms, nodes)
  {
    hide Shows, Partial, WorkFrom, Levels;
    var n := Component(nodes[|ms| - 1].ref, c).value;
    var ms', nodes', at' := ms + [NEW_READING], nodes + [n], at + [c];
    assert ms'[..|ms|] == ms && nodes'[..|ms|] == nodes && at'[..|ms|] == at;
    ShowsChild(d, md, vd, nodes[|ms| - 1], c, at, dim);
  }

  lemma TopReplaced(d: Data, md: seq<Point>, vd: seq<Point>, ms: seq<Reading>, nodes: seq<Measure>, at: Point, dim: nat,
                    f: Reading)
    requires Building(d, md, vd, ms, nodes, at, dim) && ms != [] && Partly(f, nodes[|ms| - 1])
    ensures Building(d, md, vd, ms[..|ms| - 1] + [f], nodes, at, dim)
    ensures f.c != VALUE ==>
              Left(ms[..|ms| - 1] + [f], nodes)
              == 1 + WorkFrom(nodes[|ms| - 1].ref, f.c + 1) + Left(ms[..|ms| - 1], nodes[..|ms| - 1])
  {
    hide Shows, Partly, Linked, WorkFrom, Component;
    var ms' := ms[..|ms| - 1] + [f];
    assert ms'[..|ms| - 1] == ms[..|ms| - 1];
  }

  /** The entry on top is complete. */
  lemma Complete(d: Data, md: seq<Point>, vd: seq<Point>, ms: seq<Reading>, nodes: seq<Measure>, at: Point, dim: nat)
    requires Building(d, md, vd, ms, nodes, at, dim) && ms != [] && ms[|ms| - 1].c == NUM_COMPONENTS
    ensures var n, f := |ms| - 1, ms[|ms| - 1];
            && Building(d, md, vd, ms[..n], nodes[..n], at[..n], dim)
            && (f.v.Some? <==> nodes[n].values != [])
            && f.r.Some? && f.r.value == nodes[n].ref && f.k != NoClass
            && (f.v.Some? ==> Measure(f.k, f.v.value, f.r.value) == nodes[n])
            && (n > 0 ==> f.v.Some? && Holding(ms[..n], nodes[..n], HeldMeasure(Some(nodes[n]))))
            && Left(ms[..n], nodes[..n]) < Left(ms, nodes)
  {
    hide Levels, Encoded, Room, WorkFrom;
    PartialSteps(nodes[|ms| - 1].ref, NUM_COMPONENTS);
  }

  lemma TopShows(d: Data, md: seq<Point>, vd: seq<Point>, ms: seq<Reading>, nodes: seq<Measure>, at: Point, dim: nat)
    requires Building(d, md, vd, ms, nodes, at, dim) && ms != []
    ensures |at| == |ms| == |nodes| && Shows(d, md, vd, nodes[|ms| - 1], at, dim) && |at| < dim
    ensures ms[|ms| - 1].c == VALUE || Partly(ms[|ms| - 1], nodes[|ms| - 1])
  {
  }

  lemma TopLeft(ms: seq<Reading>, nodes: seq<Measure>)
    requires |ms| == |nodes| && ms != []
    ensures var n := |ms| - 1;
            Left(ms, nodes)
            == 1 + WorkFrom(nodes[n].ref, if ms[n].c == VALUE then OFFSET else ms[n].c + 1) + Left(ms[..n], nodes[..n])
  {
  }

  lemma WorkStep(r: Ref, c: int)
    requires c < NUM_COMPONENTS
    ensures WorkFrom(r, c) == (match Component(r, c) case Some(m) => 2 + WorkFrom(m.ref, OFFSET) case None => 0)
                              + WorkFrom(r, c + 1)
    ensures WorkFrom(r, NUM_COMPONENTS) == WorkFrom(r, NUM_COMPONENTS + 1) == 0
  {
  }

  // ----- reading one node -----

  ghost predicate ZeroFrom(s: Point, n: nat) {
    forall j | n <= j < |s| :: s[j] == 0
  }

  lemma ShowsNode(d: Data, md: seq<Point>, vd: seq<Point>, m: Measure, at: Point, dim: nat)
    requires Shows(d, md, vd, m, at, dim)
    ensures |at| < dim && Room(md, vd, m, at, dim) && Pad(at, dim) in md && OneEncoded(d, m, at, dim)
    ensures m.klass != NoClass
  {
    NodeInDomain(md, vd, m, at, dim);
  }

  lemma NodeFields(d: Data, m: Measure, at: Point, dim: nat)
    requires |at| < dim && OneEncoded(d, m, at, dim)
    ensures var p := Pad(at, dim);
            && p in d.mclasses && d.mclasses[p] == m.klass && p in d.rtypes && d.rtypes[p] == m.ref.rtype
            && p in d.numvals && d.numvals[p] == |m.values|
  {
  }

  lemma NodeValue(d: Data, m: Measure, j: nat, at: Point, dim: nat)
    requires |at| < dim && OneEncoded(d, m, at, dim) && j < |m.values|
    ensures var p := Pad(at + [VALUE, j], dim + 1); p in d.vals && d.vals[p] == m.values[j]
  {
    assert ValueEncoded(d, m.values[j], j, at, dim);
  }

  method ReadLevel(prs: DataRegions, p: array<int>, p1: array<int>, level: nat, ghost m: Measure, ghost at: Point,
                   dim: nat)
      returns (v: Option<seq<Value>>, r: Ref, k: MClass)
    requires p.Length == dim && p1.Length == dim + 1 && p != p1 && level == |at| < dim
    requires Shows(prs.Contents(), prs.metadataDomain, prs.valueDomain, m, at, dim)
    requires p[..] == Pad(at, dim)
    requires p1[..level] == at && p1[level] == VALUE && forall j | level < j <= dim :: p1[j] == 0
    modifies p1
    ensures v == (if m.values == [] then None else Some(m.values)) && r == Bare(m.ref.rtype) && k == m.klass
    ensures p1[..level + 1] == old(p1[..level + 1])
  {
    hide Room, Pad, Shows, OneEncoded;
    ghost var d, md, vd := prs.Contents(), prs.metadataDomain, prs.valueDomain;
    ShowsNode(d, md, vd, m, at, dim);
    NodeFields(d, m, at, dim);
    k := prs.ReadClass(p[..]);
    var n := prs.ReadNumValues(p[..]);
    var mvals: seq<Value> := [];
    var j := 0;
    while j < n
      invariant j <= n && mvals == m.values[..j]
      invariant p1[..level] == at && p1[level] == VALUE && forall i | level + 1 < i <= dim :: p1[i] == 0
    {
      p1[level + 1] := j;
      ValuePointIs(p1[..], at, j, dim);
      ValueInDomain(md, vd, m, j, at, dim);
      NodeValue(d, m, j, at, dim);
      mvals := mvals + [prs.ReadValue(p1[..])];
      j := j + 1;
    }
    assert m.values[..|m.values|] == m.values;
    assert k != NoClass;
    v := if |mvals| > 0 then Some(mvals) else None;
    r := Bare(prs.ReadRefType(p[..]));
    assert p1[..level + 1] == at + [VALUE];
  }

  // ----- the machine -----

  /** Take over the measure that was handed up, and push the next component that the domain contains. */
  method FillNext(prs: DataRegions, stack: seq<Reading>, vmrb: Held, p: array<int>, p1: array<int>, dim: nat,
                  ghost measures: seq<Measure>, ghost path: Point)
      returns (ms: seq<Reading>, held: Held, ghost nodes: seq<Measure>, ghost at: Point)
    requires stack != [] && VALUE < stack[|stack| - 1].c < NUM_COMPONENTS && p != p1
    requires Building(prs.Contents(), prs.metadataDomain, prs.valueDomain, stack, measures, path, dim)
    requires Holding(stack, measures, vmrb)
    requires On(p[..], p1[..], path, dim) && ZeroFrom(p[..], |stack| + 1)
    modifies p, p1
    ensures Building(prs.Contents(), prs.metadataDomain, prs.valueDomain, ms, nodes, at, dim)
    ensures On(p[..], p1[..], at, dim) && |ms| == |nodes| == |at| && ms != [] && nodes[0] == measures[0]
    ensures if |ms| == |stack| then nodes == measures && at == path && ms[|ms| - 1].c == NUM_COMPONENTS
              && Left(ms, nodes) <= Left(stack, measures)
            else Holding(ms, nodes, held) && Left(ms, nodes) < Left(stack, measures)
  {
    hide Building, On, Shows, Left, WorkFrom, ZeroFrom, Component, WithComponent, Pad;
    var level := |stack|;
    ms, held, nodes, at := stack, vmrb, measures, path;
    var Reading(v, r, k, c) := stack[level - 1];
    ghost var d, md, vd := prs.Contents(), prs.metadataDomain, prs.valueDomain;
    TopShows(d, md, vd, stack, measures, path, dim);
    ghost var m := measures[level - 1];
    while |ms| == level && c < NUM_COMPONENTS
      invariant Building(d, md, vd, ms, nodes, at, dim) && On(p[..], p1[..], at, dim)
      invariant VALUE < c <= NUM_COMPONENTS && |ms| == |nodes| == |at| && ms != [] && nodes[0] == measures[0]
      invariant if |ms| == level
                then && nodes == measures && at == path && ms[level - 1] == Reading(v, r, k, c)
                     && held == HeldMeasure(Component(m.ref, c)) && ZeroFrom(p[..], level + 1)
                     && Left(ms, nodes) <= Left(stack, measures)
                else Holding(ms, nodes, held) && Left(ms, nodes) < Left(stack, measures)
    {
      TopShows(d, md, vd, ms, nodes, at, dim);
      PartialSteps(m.ref, c);
      var cm := held.measure;
      held := HeldMeasure(None);
      if cm.Some? {
        ShowsChild(d, md, vd, m, c, at, dim);
        assert c == OFFSET ==> cm.value.klass == k;
        r := Some(WithComponent(r.value, c, cm.value));
      }
      WorkStep(m.ref, c);
      WorkStep(m.ref, if c + 1 < NUM_COMPONENTS then c + 1 else c);
      TopLeft(ms, nodes);
      c := c + 1;
      TopReplaced(d, md, vd, ms, nodes, at, dim, Reading(v, r, k, c));
      ms := ms[..level - 1] + [Reading(v, r, k, c)];
      AtComponent(p[..], p1[..], at, c, dim);
      p[level], p1[level] := c, c;
      Probe(d, md, vd, m, c, at, dim);
      if p[..] in prs.metadataDomain {
        Grown(d, md, vd, ms, nodes, at, dim, c);
        ms := ms + [NEW_READING];
        nodes := nodes + [Component(m.ref, c).value];
        at := at + [c];
      }
    }
  }

  lemma AtComponent(s: Point, s1: Point, at: Point, c: int, dim: nat)
    requires On(s, s1, at, dim) && |at| < dim && ZeroFrom(s, |at| + 1)
    ensures |s| == dim && |s1| == dim + 1
    ensures var t, t1 := s[|at| := c], s1[|at| := c];
            && t == Pad(at + [c], dim) && On(t, t1, at, dim) && On(t, t1, at + [c], dim) && ZeroFrom(t, |at| + 1)
  {
  }

  lemma Start(d: Data, md: seq<Point>, vd: seq<Point>, m: Measure, i: nat, dim: nat)
    requires Shows(d, md, vd, m, [i], dim)
    ensures Building(d, md, vd, [NEW_READING], [m], [i], dim) && dim > 1
  {
    assert [NEW_READING][..0] == [] && [m][..0] == [] && [i][..0] == [];
    assert Building(d, md, vd, [], [], [], dim);
  }

  lemma OnLevel(s: Point, s1: Point, at: Point, dim: nat)
    requires On(s, s1, at, dim) && |at| < dim && ZeroFrom(s, |at| + 1)
    ensures |s| == dim && |s1| == dim + 1
    ensures var t, t1 := s[|at| := VALUE], s1[|at| := VALUE];
            On(t, t1, at, dim) && t == Pad(at, dim) && t1[..|at|] == at
  {
  }

  lemma ZerosBehind(s: Point, n: nat)
    requires forall j | n <= j < |s| :: s[j] == 0
    ensures ZeroFrom(s, n)
  {
  }

  /** The first visit of an entry: read the node and push its offset if the domain contains one. */
  method Visit(prs: DataRegions, stack: seq<Reading>, p: array<int>, p1: array<int>, dim: nat,
               ghost measures: seq<Measure>, ghost path: Point)
      returns (ms: seq<Reading>, ghost nodes: seq<Measure>, ghost at: Point)
    requires stack != [] && stack[|stack| - 1].c == VALUE && p != p1
    requires Building(prs.Contents(), prs.metadataDomain, prs.valueDomain, stack, measures, path, dim)
    requires |stack| == |measures| == |path|
    requires On(p[..], p1[..], path, dim) && ZeroFrom(p[..], |stack| + 1) && ZeroFrom(p1[..], |stack| + 1)
    modifies p, p1
    ensures Building(prs.Contents(), prs.metadataDomain, prs.valueDomain, ms, nodes, at, dim)
    ensures On(p[..], p1[..], at, dim) && |ms| == |nodes| == |at| && ms != [] && nodes[0] == measures[0]
    ensures Holding(ms, nodes, HeldMeasure(None))
    ensures if |ms| == |stack| then ms[|ms| - 1].c == OFFSET && ZeroFrom(p[..], |stack| + 1)
                                    && Left(ms, nodes) <= Left(stack, measures)
            else Left(ms, nodes) < Left(stack, measures)
  {
    hide Building, On, Shows, Left, WorkFrom, Component, Pad;
    var level := |stack|;
    ms, nodes, at := stack, measures, path;
    ghost var d, md, vd := prs.Contents(), prs.metadataDomain, prs.valueDomain;
    ghost var m := nodes[level - 1];
    TopShows(d, md, vd, ms, nodes, at, dim);
    OnLevel(p[..], p1[..], at, dim);
    p[level], p1[level] := VALUE, VALUE;
    ghost var s1 := p1[..];
    var v, r, k := ReadLevel(prs, p, p1, level, m, at, dim);
    OnCleared(p[..], s1, p[..], p1[..], at, dim);
    var c := OFFSET;
    PartialSteps(m.ref, c);
    TopLeft(ms, nodes);
    WorkStep(m.ref, c);
    TopReplaced(d, md, vd, ms, nodes, at, dim, Reading(v, Some(r), k, c));
    ms := ms[..level - 1] + [Reading(v, Some(r), k, c)];
    AtComponent(p[..], p1[..], at, c, dim);
    p[level], p1[level] := c, c;
    Probe(d, md, vd, m, c, at, dim);
    if p[..] in prs.metadataDomain {
      Grown(d, md, vd, ms, nodes, at, dim, c);
      ms := ms + [NEW_READING];
      nodes := nodes + [Component(m.ref, c).value];
      at := at + [c];
    }
  }

  /** One reference: the machine ends with exactly the reference that the arrays show. */
  method InstantiateRef(prs: DataRegions, i: nat, dim: nat, ghost root: Measure) returns (result: Ref)
    requires Shows(prs.Contents(), prs.metadataDomain, prs.valueDomain, root, [i], dim) && root.values == []
    ensures result == root.ref
  {
    hide Building, On, Shows, Left, WorkFrom, ZeroFrom, Component, Pad, Levels;
    ghost var d, md, vd := prs.Contents(), prs.metadataDomain, prs.valueDomain;
    Start(d, md, vd, root, i, dim);
    var p, p1 := new int[dim], new int[dim + 1];
    p[0], p1[0] := i, i;
    OnStart(p[..], p1[..], i, dim);
    var vmrb := HeldMeasure(None);
    var ms := [NEW_READING];
    ghost var nodes, at := [root], [i];
    while ms != []
      invariant Building(d, md, vd, ms, nodes, at, dim) && On(p[..], p1[..], at, dim) && |ms| == |nodes| == |at|
      invariant if ms == [] then vmrb == HeldRef(Some(root.ref)) else nodes[0] == root && Holding(ms, nodes, vmrb)
      decreases Left(ms, nodes)
    {
      var level := |ms|;
      ghost var left := Left(ms, nodes);
      TopShows(d, md, vd, ms, nodes, at, dim);
      ghost var s, s1 := p[..], p1[..];
      ClearBehind(p, p1, level, dim);
      OnCleared(s, s1, p[..], p1[..], at, dim);
      ZerosBehind(p[..], level + 1);
      ZerosBehind(p1[..], level + 1);
      if ms[level - 1].c == VALUE {
        ms, nodes, at := Visit(prs, ms, p, p1, dim, nodes, at);
      }
      if |ms| == level {
        ms, vmrb, nodes, at := FillNext(prs, ms, vmrb, p, p1, dim, nodes, at);
      }
      if |ms| == level {
        var Reading(v, r, k, _) := ms[level - 1];
        Complete(d, md, vd, ms, nodes, at, dim);
        if v.Some? {
          vmrb := HeldMeasure(Some(Measure(k, v.value, r.value)));
        } else {
          vmrb := HeldRef(r);
        }
        OnUp(p[..], p1[..], at, dim);
        ms, nodes, at := ms[..level - 1], nodes[..level - 1], at[..level - 1];
      }
    }
    result := vmrb.mrbase.value;
  }
}

/** `truncate_index_space` of hyperion/PhysicalTable.cc: an index space cut to its leading axes. */
module Truncation {
  import opened ColumnIndex
  import opened Enumeration

  /** The leading coordinates of the points, without immediate repetitions. */
  function Leading(points: seq<Point>, to: nat): seq<Point>
    requires forall p | p in points :: to <= |p|
  {
    if points == [] then []
    else
      var before, pt := Leading(points[..|points| - 1], to), points[|points| - 1][..to];
      if before != [] && before[|before| - 1] == pt then before else before + [pt]
  }

  lemma LeadingStep(points: seq<Point>, to: nat, k: nat)
    requires k < |points| && forall p | p in points :: to <= |p|
    ensures var before, pt := Leading(points[..k], to), points[k][..to];
            Leading(points[..k + 1], to) == if before != [] && before[|before| - 1] == pt then before else before + [pt]
  {
    assert points[..k + 1][..k] == points[..k];
  }

  method TruncateIndexSpace(domain: seq<Point>, to: nat) returns (points: seq<Point>)
    requires forall p | p in domain :: to <= |p|
    ensures points == Leading(domain, to)
  {
    points := [];
    var pid := 0;
    if pid < |domain| {
      LeadingStep(domain, to, pid);
      points := points + [domain[pid][..to]];
      pid := pid + 1;
      while pid < |domain|
        invariant 1 <= pid <= |domain| && points != [] && points == Leading(domain[..pid], to)
      {
        LeadingStep(domain, to, pid);
        var pt := domain[pid][..to];
        if pt != points[|points| - 1] {
          points := points + [pt];
        }
        pid := pid + 1;
      }
      assert domain[..|domain|] == domain;
    }
  }

  /** Whatever the order of the points: no leading tuple is lost and none is made up. */
  lemma {:induction false} LeadingAre(points: seq<Point>, to: nat, x: Point)
    requires forall p | p in points :: to <= |p|
    ensures x in Leading(points, to) <==> exists p :: p in points && p[..to] == x
  {
    if points != [] {
      var n := |points| - 1;
      var init, last := points[..n], points[n];
      LeadingAre(init, to, x);
      assert points == init + [last];
      if last[..to] == x {
        assert last in points;
      }
    }
  }

  lemma {:induction false} LexPrefix(p: Point, q: Point, to: nat)
    requires LexLess(p, q) && to <= |p| && to <= |q|
    ensures p[..to] == q[..to] || LexLess(p[..to], q[..to])
  {
    if to > 0 && p[0] == q[0] {
      LexPrefix(p[1..], q[1..], to - 1);
      assert p[..to] == [p[0]] + p[1..][..to - 1] && q[..to] == [q[0]] + q[1..][..to - 1];
    }
  }

  /** If the points come in order, so do their leading tuples, each of them once. */
  lemma {:induction false} LeadingInOrder(points: seq<Point>, to: nat)
    requires Increasing(points) && forall p | p in points :: to <= |p|
    ensures Increasing(Leading(points, to))
    ensures points != [] ==> Leading(points, to) != []
    ensures points != [] ==> Leading(points, to)[|Leading(points, to)| - 1] == points[|points| - 1][..to]
  {
    if points != [] {
      var n := |points| - 1;
      var init, last := points[..n], points[n];
      LeadingInOrder(init, to);
      if init != [] && Leading(init, to)[|Leading(init, to)| - 1] != last[..to] {
        LexPrefix(points[n - 1], last, to);
        Extended(Leading(init, to), last[..to]);
      }
    }
  }

  lemma Extended(ps: seq<Point>, p: Point)
    requires Increasing(ps) && (ps != [] ==> LexLess(ps[|ps| - 1], p))
    ensures Increasing(ps + [p])
  {
    forall i | 0 <= i < |ps| ensures LexLess(ps[i], p) {
      if i < |ps| - 1 { LexTransitive(ps[i], ps[|ps| - 1], p); }
    }
  }
}
